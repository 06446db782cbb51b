/** The records and closed vocabularies of the application: deadlines (prazos), hearings
    (audiências), administrative procedures and saved transcriptions. Every enumeration has its
    display string (`Name`), the list of all its values, and `Parse`, which reads a string back. */
module Types {
  import opened Wrappers
  import Calendar

  /** The value in `all` whose name is `s`, if any. */
  function Lookup<T>(all: seq<T>, name: T -> string, s: string): (r: Option<T>)
    ensures r.Some? ==> r.value in all && name(r.value) == s
    ensures r.None? ==> forall x :: x in all ==> name(x) != s
  {
    if all == [] then None
    else if name(all[0]) == s then Some(all[0])
    else Lookup(all[1..], name, s)
  }

  /** Names are pairwise distinct, so `Lookup` by name inverts `name`. */
  predicate DistinctNames<T>(all: seq<T>, name: T -> string) {
    forall i, j :: 0 <= i < j < |all| ==> name(all[i]) != name(all[j])
  }

  lemma {:induction false} LookupName<T>(all: seq<T>, name: T -> string, x: T)
    requires x in all && DistinctNames(all, name)
    ensures Lookup(all, name, name(x)) == Some(x)
  {
    if all[0] != x {
      assert all[1..] == all[1..];
      assert DistinctNames(all[1..], name) by {
        forall i, j | 0 <= i < j < |all| - 1 ensures name(all[1..][i]) != name(all[1..][j]) {
          assert name(all[i + 1]) != name(all[j + 1]);
        }
      }
      var k :| 0 <= k < |all| && all[k] == x;
      assert name(all[0]) != name(all[k]);
      LookupName(all[1..], name, x);
    }
  }

  // ---------------------------------------------------------------- SystemType

  datatype SystemType = PROJUDI | SEEU | MPV | SEI {
    function Name(): string {
      match this
      case PROJUDI => "PROJUDI"
      case SEEU => "SEEU"
      case MPV => "MPV"
      case SEI => "SEI"
    }
  }

  const AllSystems: seq<SystemType> := [PROJUDI, SEEU, MPV, SEI]

  lemma AllSystemsComplete(x: SystemType)
    ensures x in AllSystems
  {
    match x
    case PROJUDI => assert AllSystems[0] == x;
    case SEEU => assert AllSystems[1] == x;
    case MPV => assert AllSystems[2] == x;
    case SEI => assert AllSystems[3] == x;
  }

  function ParseSystem(s: string): (r: Option<SystemType>)
    ensures r.Some? <==> s in {"PROJUDI", "SEEU", "MPV", "SEI"}
    ensures r.Some? ==> r.value.Name() == s
  {
    Lookup(AllSystems, (x: SystemType) => x.Name(), s)
  }

  /** The court systems are exactly four, with four distinct names, and each name reads back. */
  lemma SystemTypeClosed()
    ensures |AllSystems| == 4 && forall x: SystemType :: x in AllSystems
    ensures DistinctNames(AllSystems, (x: SystemType) => x.Name())
    ensures forall x: SystemType :: ParseSystem(x.Name()) == Some(x)
  {
    forall x: SystemType ensures ParseSystem(x.Name()) == Some(x) && x in AllSystems {
      AllSystemsComplete(x);
      LookupName(AllSystems, (x: SystemType) => x.Name(), x);
    }
  }

  // ---------------------------------------------------------------- Priority

  datatype Priority = Low | Medium | High | Urgent {
    function Name(): string {
      match this
      case Low => "Baixa"
      case Medium => "Média"
      case High => "Alta"
      case Urgent => "Urgente"
    }
  }

  const AllPriorities: seq<Priority> := [Low, Medium, High, Urgent]

  lemma AllPrioritiesComplete(x: Priority)
    ensures x in AllPriorities
  {
    match x
    case Low => assert AllPriorities[0] == x;
    case Medium => assert AllPriorities[1] == x;
    case High => assert AllPriorities[2] == x;
    case Urgent => assert AllPriorities[3] == x;
  }

  function ParsePriority(s: string): (r: Option<Priority>)
    ensures r.Some? <==> s in {"Baixa", "Média", "Alta", "Urgente"}
    ensures r.Some? ==> r.value.Name() == s
  {
    Lookup(AllPriorities, (x: Priority) => x.Name(), s)
  }

  lemma PriorityClosed()
    ensures |AllPriorities| == 4 && forall x: Priority :: x in AllPriorities
    ensures DistinctNames(AllPriorities, (x: Priority) => x.Name())
    ensures forall x: Priority :: ParsePriority(x.Name()) == Some(x)
  {
    forall x: Priority ensures ParsePriority(x.Name()) == Some(x) && x in AllPriorities {
      AllPrioritiesComplete(x);
      LookupName(AllPriorities, (x: Priority) => x.Name(), x);
    }
  }

  // ---------------------------------------------------------------- DefendantStatus

  datatype DefendantStatus = Imprisoned | AtLiberty | NotInformed {
    function Name(): string {
      match this
      case Imprisoned => "Réu Preso"
      case AtLiberty => "Em Liberdade"
      case NotInformed => "Não Informado"
    }
  }

  const AllDefendantStatuses: seq<DefendantStatus> := [Imprisoned, AtLiberty, NotInformed]

  function ParseDefendantStatus(s: string): (r: Option<DefendantStatus>)
    ensures r.Some? <==> s in {"Réu Preso", "Em Liberdade", "Não Informado"}
    ensures r.Some? ==> r.value.Name() == s
  {
    Lookup(AllDefendantStatuses, (x: DefendantStatus) => x.Name(), s)
  }

  // ---------------------------------------------------------------- ManifestationPurpose

  datatype ManifestationPurpose =
    | Manifestation | Acknowledgement | ClosingArguments | Hearing | Opinion | PendingIncidents
    | Appeals | FilingsReview | Promotion | Indictment | Other
  {
    function Name(): string {
      match this
      case Manifestation => "Manifestação"
      case Acknowledgement => "Ciência"
      case ClosingArguments => "Alegacões Finais"
      case Hearing => "Oitiva"
      case Opinion => "Parecer"
      case PendingIncidents => "Pendências de Incidentes"
      case Appeals => "Razões/Contrarrazões"
      case FilingsReview => "Análise de Juntadas"
      case Promotion => "Promoção"
      case Indictment => "Denúncia"
      case Other => "Outros"
    }
  }

  const AllPurposes: seq<ManifestationPurpose> :=
    [Manifestation, Acknowledgement, ClosingArguments, Hearing, Opinion, PendingIncidents,
     Appeals, FilingsReview, Promotion, Indictment, Other]

  lemma AllPurposesComplete(x: ManifestationPurpose)
    ensures x in AllPurposes
  {
    match x
    case Manifestation => assert AllPurposes[0] == x;
    case Acknowledgement => assert AllPurposes[1] == x;
    case ClosingArguments => assert AllPurposes[2] == x;
    case Hearing => assert AllPurposes[3] == x;
    case Opinion => assert AllPurposes[4] == x;
    case PendingIncidents => assert AllPurposes[5] == x;
    case Appeals => assert AllPurposes[6] == x;
    case FilingsReview => assert AllPurposes[7] == x;
    case Promotion => assert AllPurposes[8] == x;
    case Indictment => assert AllPurposes[9] == x;
    case Other => assert AllPurposes[10] == x;
  }

  function ParsePurpose(s: string): (r: Option<ManifestationPurpose>)
    ensures r.Some? ==> r.value.Name() == s
    ensures r.None? ==> forall x: ManifestationPurpose :: x.Name() != s
  {
    var name := (x: ManifestationPurpose) => x.Name();
    var r := Lookup(AllPurposes, name, s);
    forall x: ManifestationPurpose | r.None? ensures x.Name() != s {
      AllPurposesComplete(x);
      assert name(x) == x.Name();
    }
    r
  }

  // ---------------------------------------------------------------- PromoterDecision

  datatype PromoterDecision =
    | DecisionPending | Signed | BatchSigned | SignedWithChanges | DraftReplaced | AppealFiled | Returned
  {
    function Name(): string {
      match this
      case DecisionPending => "Pendente"
      case Signed => "Assinado"
      case BatchSigned => "Assinatura em Lote"
      case SignedWithChanges => "Assinatura com Alterações"
      case DraftReplaced => "Minuta Substituída"
      case AppealFiled => "Protocolo de recursos"
      case Returned => "Devolvido"
    }
  }

  const AllDecisions: seq<PromoterDecision> :=
    [DecisionPending, Signed, BatchSigned, SignedWithChanges, DraftReplaced, AppealFiled, Returned]

  lemma AllDecisionsComplete(x: PromoterDecision)
    ensures x in AllDecisions
  {
    match x
    case DecisionPending => assert AllDecisions[0] == x;
    case Signed => assert AllDecisions[1] == x;
    case BatchSigned => assert AllDecisions[2] == x;
    case SignedWithChanges => assert AllDecisions[3] == x;
    case DraftReplaced => assert AllDecisions[4] == x;
    case AppealFiled => assert AllDecisions[5] == x;
    case Returned => assert AllDecisions[6] == x;
  }

  function ParseDecision(s: string): (r: Option<PromoterDecision>)
    ensures r.Some? ==> r.value.Name() == s
    ensures r.None? ==> forall x: PromoterDecision :: x.Name() != s
  {
    var name := (x: PromoterDecision) => x.Name();
    var r := Lookup(AllDecisions, name, s);
    forall x: PromoterDecision | r.None? ensures x.Name() != s {
      AllDecisionsComplete(x);
      assert name(x) == x.Name();
    }
    r
  }

  /** Seven decisions, pairwise distinct names, including "Pendente" and "Devolvido". */
  lemma PromoterDecisionClosed()
    ensures |AllDecisions| == 7 && forall x: PromoterDecision :: x in AllDecisions
    ensures DistinctNames(AllDecisions, (x: PromoterDecision) => x.Name())
    ensures ParseDecision("Pendente") == Some(DecisionPending)
    ensures ParseDecision("Devolvido") == Some(Returned)
  {
    forall x: PromoterDecision ensures x in AllDecisions { AllDecisionsComplete(x); }
    LookupName(AllDecisions, (x: PromoterDecision) => x.Name(), DecisionPending);
    LookupName(AllDecisions, (x: PromoterDecision) => x.Name(), Returned);
  }

  // ---------------------------------------------------------------- AdvisorStatus

  datatype AdvisorStatus = AdvisorPending | DraftReady | UnderCorrection {
    function Name(): string {
      match this
      case AdvisorPending => "Pendente"
      case DraftReady => "Minuta Pronta"
      case UnderCorrection => "Em Correção"
    }
  }

  function ParseAdvisorStatus(s: string): (r: Option<AdvisorStatus>)
    ensures r.Some? <==> s in {"Pendente", "Minuta Pronta", "Em Correção"}
    ensures r.Some? ==> r.value.Name() == s
  {
    Lookup([AdvisorPending, DraftReady, UnderCorrection], (x: AdvisorStatus) => x.Name(), s)
  }

  // ---------------------------------------------------------------- Deadline.status

  datatype DeadlineStatus = Pending | InAnalysis | Concluded {
    function Name(): string {
      match this
      case Pending => "Pendente"
      case InAnalysis => "Em Análise"
      case Concluded => "Concluído"
    }
  }

  // ---------------------------------------------------------------- Audience.mode / status

  datatype AudienceMode = Virtual | InPerson | Hybrid {
    function Name(): string {
      match this
      case Virtual => "Virtual"
      case InPerson => "Presencial"
      case Hybrid => "Híbrido"
    }
  }

  datatype AudienceStatus = Scheduled | Held | Cancelled | Rescheduled {
    function Name(): string {
      match this
      case Scheduled => "Agendada"
      case Held => "Realizada"
      case Cancelled => "Cancelada"
      case Rescheduled => "Redesignada"
    }
  }

  const AllAudienceStatuses: seq<AudienceStatus> := [Scheduled, Held, Cancelled, Rescheduled]

  function ParseAudienceStatus(s: string): (r: Option<AudienceStatus>)
    ensures r.Some? <==> s in {"Agendada", "Realizada", "Cancelada", "Redesignada"}
    ensures r.Some? ==> r.value.Name() == s
  {
    Lookup(AllAudienceStatuses, (x: AudienceStatus) => x.Name(), s)
  }

  // ---------------------------------------------------------------- administrative vocabulary

  datatype AdminPartyType =
    | Lawyer | InvestigatedPassive | ReportedPassive | ReporterActive | InterestedActive | InterestedPassive
  {
    function Name(): string {
      match this
      case Lawyer => "Advogado"
      case InvestigatedPassive => "Investigado (Pólo Passivo)"
      case ReportedPassive => "Noticiado (Pólo Passivo)"
      case ReporterActive => "Noticiante (Pólo Ativo)"
      case InterestedActive => "Interessado (Pólo Ativo)"
      case InterestedPassive => "Interessado (Pólo Passivo)"
    }
  }

  datatype AdminDeadlineStatus = OnTime | Late | Extended {
    function Name(): string {
      match this
      case OnTime => "Em dia"
      case Late => "Atrasado"
      case Extended => "Prorrogado"
    }
  }

  const AllAdminStatuses: seq<AdminDeadlineStatus> := [OnTime, Late, Extended]

  function ParseAdminStatus(s: string): (r: Option<AdminDeadlineStatus>)
    ensures r.Some? <==> s in {"Em dia", "Atrasado", "Prorrogado"}
    ensures r.Some? ==> r.value.Name() == s
  {
    Lookup(AllAdminStatuses, (x: AdminDeadlineStatus) => x.Name(), s)
  }

  datatype TranscriptionType = Audio | Video {
    function Name(): string {
      match this
      case Audio => "Audio"
      case Video => "Video"
    }
  }

  /** The `'active' | 'archived'` tab shared by the deadline, hearing and administrative screens. */
  datatype ViewMode = ActiveView | ArchivedView

  // ---------------------------------------------------------------- records

  /** A procedural deadline. Dates are time values in ms (the application only ever stores
      valid ones here). Fields the record may lack are `Option`s; `None` is an absent property.
      The extraction schema does not require `system`, so an imported record may lack it. */
  datatype Deadline = Deadline(
    id: string,
    processNumber: string,
    courtDivision: Option<string>,
    system: Option<SystemType>,
    proceduralClass: Option<string>,
    mainSubject: Option<string>,
    manifestationPurpose: Option<string>,
    defendantStatus: DefendantStatus,
    prosecutorOffice: string,
    deadlineDuration: string,
    startDate: int,
    endDate: int,
    priority: Priority,
    status: DeadlineStatus,
    isArchived: Option<bool>,
    advisorDraftType: Option<string>,
    advisorStatus: Option<string>,
    promoterDecision: Option<string>,
    returnReason: Option<string>,
    instruction: Option<string>,
    parties: Option<string>)

  /** `!d.isArchived`: an absent flag counts as active. */
  predicate IsActive(d: Deadline) {
    d.isArchived != Some(true)
  }

  /** A hearing. `hearingType` is the record's `type` property. */
  datatype Audience = Audience(
    id: string,
    processNumber: string,
    system: Option<string>,
    courtDivision: Option<string>,
    proceduralClass: Option<string>,
    mainSubject: Option<string>,
    date: Calendar.JsDate,
    time: string,
    hearingType: string,
    mode: AudienceMode,
    parties: Option<string>,
    status: AudienceStatus,
    link: Option<string>,
    notes: Option<string>)

  datatype InterestedParty = InterestedParty(id: string, name: string, partyType: AdminPartyType)

  /** An administrative procedure. Its archive flag is mandatory; its status is kept as the
      string the record carries, which may fall outside `AdminDeadlineStatus`. */
  datatype AdministrativeProcess = AdministrativeProcess(
    id: string,
    procedureNumber: string,
    proceduralClass: string,
    mainSubject: string,
    originNumber: Option<string>,
    currentSector: string,
    registrationDate: Calendar.JsDate,
    secrecyLevel: string,
    legalDeadline: Calendar.JsDate,
    cnmpDeadline: Calendar.JsDate,
    status: string,
    interestedParties: seq<InterestedParty>,
    isArchived: bool,
    notes: Option<string>)

  datatype TranscriptionRecord = TranscriptionRecord(
    id: string,
    processNumber: string,
    recordType: TranscriptionType,
    content: string,
    date: Calendar.JsDate,
    originLink: Option<string>)
}

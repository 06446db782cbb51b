/** The deadline screen (components/Deadlines.tsx): the filtered view of the list, the records
    it builds for import and for a manual entry, the one-field updates it emits, and the
    colour group of a status. */
module DeadlinesView {
  import opened Wrappers
  import opened Types
  import opened Calendar
  import opened Seqs
  import Text
  import C = Collections

  // ---------------------------------------------------------------- filtered view

  /** `viewMode === 'active' ? !d.isArchived : d.isArchived`, with JavaScript truthiness. */
  predicate InView(d: Deadline, mode: ViewMode) {
    if mode == ActiveView then d.isArchived != Some(true) else d.isArchived == Some(true)
  }

  /** `field?.toLowerCase().includes(t)`: an absent field never matches. */
  predicate OptionalIncludes(field: Option<string>, t: string) {
    field.Some? && Text.Includes(Text.ToLower(field.value), t)
  }

  /** The search term: empty matches everything; otherwise a case-insensitive substring of the
      process number, the main subject or the procedural class. */
  predicate MatchesTerm(d: Deadline, term: string) {
    var t := Text.ToLower(term);
    term == "" || Text.Includes(Text.ToLower(d.processNumber), t) ||
    OptionalIncludes(d.mainSubject, t) || OptionalIncludes(d.proceduralClass, t)
  }

  /** The system filter: empty matches everything; otherwise the system's name exactly, which a
      record without a system never has. */
  predicate MatchesSystem(d: Deadline, system: string) {
    system == "" || (d.system.Some? && d.system.value.Name() == system)
  }

  predicate MatchesFilters(d: Deadline, term: string, system: string) {
    MatchesTerm(d, term) && MatchesSystem(d, system)
  }

  /** `filteredDeadlines`: the view filter, then the term and system filters. */
  function FilteredDeadlines(ds: seq<Deadline>, mode: ViewMode, term: string, system: string): seq<Deadline> {
    Filter(Filter(ds, (d: Deadline) => InView(d, mode)), (d: Deadline) => MatchesFilters(d, term, system))
  }

  /** The filtered list is an order-preserving subsequence of the list, and holds exactly the
      records of the chosen view that match both filters. */
  lemma FilteredDeadlinesExact(ds: seq<Deadline>, mode: ViewMode, term: string, system: string, x: Deadline)
    ensures var r := FilteredDeadlines(ds, mode, term, system);
            IsSubsequence(r, ds) &&
            (x in r <==> x in ds && InView(x, mode) && MatchesTerm(x, term) && MatchesSystem(x, system))
  {
    var both := (d: Deadline) => InView(d, mode) && MatchesFilters(d, term, system);
    FilterFilter(ds, (d: Deadline) => InView(d, mode), (d: Deadline) => MatchesFilters(d, term, system), both);
    FilterIsSubsequence(ds, both);
    FilterMembership(ds, both, x);
  }

  /** With an empty term and no system, only the view filter applies. */
  lemma EmptyFiltersKeepView(ds: seq<Deadline>, mode: ViewMode)
    ensures FilteredDeadlines(ds, mode, "", "") == Filter(ds, (d: Deadline) => InView(d, mode))
  {
    FilterAll(Filter(ds, (d: Deadline) => InView(d, mode)), (d: Deadline) => MatchesFilters(d, "", ""));
  }

  /** The two views are disjoint and together hold every deadline, counted with multiplicity. */
  lemma ViewsPartition(ds: seq<Deadline>)
    ensures var active := FilteredDeadlines(ds, ActiveView, "", "");
            var archived := FilteredDeadlines(ds, ArchivedView, "", "");
            |active| + |archived| == |ds| &&
            multiset(active) + multiset(archived) == multiset(ds) &&
            (forall x :: x in active ==> IsActive(x)) && (forall x :: x in archived ==> !IsActive(x))
  {
    EmptyFiltersKeepView(ds, ActiveView);
    EmptyFiltersKeepView(ds, ArchivedView);
    FilterComplement(ds, (d: Deadline) => InView(d, ActiveView), (d: Deadline) => InView(d, ArchivedView));
  }

  // ---------------------------------------------------------------- import mapping

  /** `parseInputDate`: the parsed date when valid, "now" otherwise. */
  function ParseInputDate(d: JsDate, now: int): (r: int)
    ensures d.Valid? ==> r == d.time
    ensures d.Invalid? ==> r == now
  {
    if d.IsNaN() then now else d.time
  }

  /** A deadline as the extraction service returns it: an optional `id` of its own, the raw
      date strings, and the other properties (whose `id`, dates, archive flag and workflow
      statuses the mapping overwrites). */
  datatype ExtractedDeadline = ExtractedDeadline(
    id: Option<string>, fields: Deadline, startDate: Option<string>, endDate: Option<string>)

  /** `new Date(value)` of a property that may be absent. */
  function ReadDate(raw: Option<string>, parseDate: string -> JsDate): JsDate {
    if raw.Some? then parseDate(raw.value) else Invalid
  }

  /** `{ id: uuidv4(), ...d, isArchived: false, advisorStatus: 'Pendente', promoterDecision:
      'Pendente', startDate: …, endDate: … }`: an `id` the record carries overrides the fresh one;
      each date is the parse of its string when that is a valid date, and "now" when the string
      is absent or not a date; every other property is copied. */
  function MapExtracted(e: ExtractedDeadline, freshId: string, now: int, parseDate: string -> JsDate): (d: Deadline)
    ensures d.isArchived == Some(false) && d.advisorStatus == Some("Pendente") &&
            d.promoterDecision == Some("Pendente") && IsActive(d)
    ensures d.id == (if e.id.Some? then e.id.value else freshId)
    ensures e.startDate.Some? && parseDate(e.startDate.value).Valid? ==> d.startDate == parseDate(e.startDate.value).time
    ensures e.startDate.None? || parseDate(e.startDate.value).Invalid? ==> d.startDate == now
    ensures e.endDate.Some? && parseDate(e.endDate.value).Valid? ==> d.endDate == parseDate(e.endDate.value).time
    ensures e.endDate.None? || parseDate(e.endDate.value).Invalid? ==> d.endDate == now
    ensures d.(id := e.fields.id, isArchived := e.fields.isArchived, advisorStatus := e.fields.advisorStatus,
               promoterDecision := e.fields.promoterDecision, startDate := e.fields.startDate,
               endDate := e.fields.endDate) == e.fields
  {
    e.fields.(id := e.id.GetOr(freshId), isArchived := Some(false),
              advisorStatus := Some("Pendente"), promoterDecision := Some("Pendente"),
              startDate := ParseInputDate(ReadDate(e.startDate, parseDate), now),
              endDate := ParseInputDate(ReadDate(e.endDate, parseDate), now))
  }

  /** The batch `handleImportFile` hands to the store, if any: nothing when the extracted list
      is missing or empty, otherwise one mapped record per extracted one, in order. `freshIds`
      stands for successive `uuidv4()` calls. */
  function ImportBatch(extracted: Option<seq<ExtractedDeadline>>, freshIds: nat -> string, now: int,
                       parseDate: string -> JsDate): (r: Option<seq<Deadline>>)
    ensures r.None? <==> extracted.None? || extracted.value == []
    ensures r.Some? ==> |r.value| == |extracted.value|
    ensures r.Some? ==> forall i :: 0 <= i < |r.value| ==>
                          r.value[i] == MapExtracted(extracted.value[i], freshIds(i), now, parseDate)
  {
    if extracted.None? || extracted.value == [] then None
    else Some(seq(|extracted.value|, i requires 0 <= i < |extracted.value| =>
                    MapExtracted(extracted.value[i], freshIds(i), now, parseDate)))
  }

  /** Every imported record is active, so importing the same file twice adds nothing the
      second time. */
  lemma ImportTwiceAddsNothing(store: seq<Deadline>, extracted: seq<ExtractedDeadline>,
                               freshIds: nat -> string, now: int, parseDate: string -> JsDate)
    requires extracted != []
    ensures var batch := ImportBatch(Some(extracted), freshIds, now, parseDate).value;
            var once := C.ImportDeadlines(store, batch);
            C.ImportDeadlines(once, batch) == once
  {
    var batch := ImportBatch(Some(extracted), freshIds, now, parseDate).value;
    C.ReimportUnchanged(store, batch, C.Key, IsActive, C.EndDateKey);
  }

  // ---------------------------------------------------------------- manual entry

  const FiveDays: int := 5 * 24 * 60 * 60 * 1000

  /** `handleNewManual`: an empty, active, pending deadline due five days from now. */
  function NewManualDeadline(id: string, now: int): (d: Deadline)
    ensures d.id == id && d.processNumber == "" && IsActive(d) && d.status == Pending
    ensures d.startDate == now && d.endDate == now + 432000000
    ensures d.priority == Medium && d.system == Some(PROJUDI) && d.defendantStatus == NotInformed
  {
    Deadline(
      id, "", None, Some(PROJUDI), Some(""), Some(""), Some("Manifestação"), NotInformed,
      "Promotoria de Justiça de Nhamundá", "", now, now + FiveDays, Medium, Pending, Some(false),
      None, None, None, None, None, None)
  }

  /** Some deadline of the list has this id. */
  predicate HasId(ds: seq<Deadline>, id: string) {
    exists i :: 0 <= i < |ds| && ds[i].id == id
  }

  /** `i` is where `find` by this id stops: the first record carrying it. */
  predicate FirstWithId(ds: seq<Deadline>, id: string, i: int) {
    0 <= i < |ds| && ds[i].id == id && forall j :: 0 <= j < i ==> ds[j].id != id
  }

  /** `saveEdit` as written: the edited record goes to the update handler, which only merges
      into records that already carry its id. */
  function SaveEditAsWritten(ds: seq<Deadline>, edited: Deadline): seq<Deadline> {
    C.UpdateDeadlines(ds, [edited])
  }

  /** A record with a new id, such as the one "new deadline" opens, is not in the list after it
      is saved: the list is only re-sorted. */
  lemma ManualSaveIsLost(ds: seq<Deadline>, edited: Deadline)
    requires !HasId(ds, edited.id)
    ensures SaveEditAsWritten(ds, edited) == C.SortDeadlines(ds)
    ensures edited !in SaveEditAsWritten(ds, edited)
  {
    C.MergeKeepsIds();
    C.ApplyUpdatesFacts(ds, [edited], C.DeadlineId, C.MergeDeadline);
    var m := C.ApplyUpdates(ds, [edited], C.DeadlineId, C.MergeDeadline);
    assert m == ds;
    C.SortDeadlinesFacts(ds);
    assert edited !in ds;
    assert edited !in multiset(C.SortDeadlines(ds));
  }

  /** Concretely: a fresh manual deadline saved into the seed-sized list `[d]` disappears. */
  lemma NewManualDeadlineIsLost(d: Deadline, now: int)
    requires d.id != "manual"
    ensures NewManualDeadline("manual", now) !in SaveEditAsWritten([d], NewManualDeadline("manual", now))
  {
    ManualSaveIsLost([d], NewManualDeadline("manual", now));
  }

  /** `saveEdit` as intended: an edit of an existing record is an update; a record with a new id
      is added and the list re-sorted by end date. */
  function SaveEdit(ds: seq<Deadline>, edited: Deadline): (r: seq<Deadline>)
    ensures HasId(ds, edited.id) ==> r == SaveEditAsWritten(ds, edited)
    ensures !HasId(ds, edited.id) ==> |r| == |ds| + 1
  {
    if HasId(ds, edited.id) then C.UpdateDeadlines(ds, [edited]) else C.SortDeadlines(ds + [edited])
  }

  /** A record with a new id is in the list after it is saved, together with every old record,
      in end-date order. */
  lemma SaveEditAddsNew(ds: seq<Deadline>, edited: Deadline)
    requires !HasId(ds, edited.id)
    ensures var r := SaveEdit(ds, edited);
            edited in r && multiset(r) == multiset(ds) + multiset{edited} && C.EndDatesAscending(r)
  {
    C.SortDeadlinesFacts(ds + [edited]);
    assert edited in multiset(ds + [edited]);
  }

  // ---------------------------------------------------------------- one-field updates

  /** A list with one record per id. */
  predicate UniqueIds(ds: seq<Deadline>) {
    C.DistinctIds(ds, C.DeadlineId)
  }

  /** Updating one record of an ordered list with distinct ids, by a record that keeps its id
      and end date and that the merge leaves as it is, replaces that record and nothing else. */
  lemma UpdateOneRecord(ds: seq<Deadline>, i: int, u: Deadline)
    requires UniqueIds(ds) && C.EndDatesAscending(ds) && 0 <= i < |ds|
    requires u.id == ds[i].id && u.endDate == ds[i].endDate && C.MergeDeadline(ds[i], u) == u
    ensures C.UpdateDeadlines(ds, [u]) == ds[i := u]
  {
    C.ApplySingleUpdate(ds, u, C.DeadlineId, C.MergeDeadline, i);
    var m := ds[i := u];
    assert forall k :: 0 <= k < |m| ==> C.EndDate(m[k]) == C.EndDate(ds[k]);
    C.SortAscendingIsIdentity(m);
  }

  /** The two workflow columns of the table. */
  datatype StatusField = AdvisorField | DecisionField

  /** `{ ...item, [field]: value }` */
  function WithStatus(d: Deadline, field: StatusField, value: string): Deadline {
    match field
    case AdvisorField => d.(advisorStatus := Some(value))
    case DecisionField => d.(promoterDecision := Some(value))
  }

  /** The record `handleStatusUpdate` hands to the update handler: the first record with the id,
      with the one field set; nothing when no record has the id. */
  function StatusUpdate(ds: seq<Deadline>, id: string, field: StatusField, value: string): (r: Option<Deadline>)
    ensures r.None? <==> !HasId(ds, id)
    ensures r.Some? ==> exists i :: FirstWithId(ds, id, i) && r.value == WithStatus(ds[i], field, value)
  {
    var item := Find(ds, (d: Deadline) => d.id == id);
    if item.None? then None else Some(WithStatus(item.value, field, value))
  }

  /** In an ordered list with distinct ids, a status change replaces the named record by a copy
      that differs from it in the one field only, and keeps every other record. */
  lemma StatusUpdateChangesOneField(ds: seq<Deadline>, i: int, field: StatusField, value: string)
    requires UniqueIds(ds) && C.EndDatesAscending(ds) && 0 <= i < |ds|
    ensures var u := StatusUpdate(ds, ds[i].id, field, value);
            u == Some(WithStatus(ds[i], field, value)) &&
            C.UpdateDeadlines(ds, [u.value]) == ds[i := WithStatus(ds[i], field, value)]
  {
    var u := StatusUpdate(ds, ds[i].id, field, value);
    var j :| FirstWithId(ds, ds[i].id, j) && u.value == WithStatus(ds[j], field, value);
    assert j == i;
    UpdateOneRecord(ds, i, WithStatus(ds[i], field, value));
  }

  /** The record `saveGuidance` hands to the update handler: the selected record with its
      instruction replaced; nothing when no id is selected (an empty id counts as none) or no
      record has it. */
  function GuidanceUpdate(ds: seq<Deadline>, selected: Option<string>, text: string): (r: Option<Deadline>)
    ensures r.None? <==> selected.None? || selected.value == "" || !HasId(ds, selected.value)
    ensures r.Some? ==> exists i :: FirstWithId(ds, selected.value, i) &&
                          r.value == ds[i].(instruction := Some(text))
  {
    if selected.None? || selected.value == "" then None
    else
      var item := Find(ds, (d: Deadline) => d.id == selected.value);
      if item.None? then None else Some(item.value.(instruction := Some(text)))
  }

  /** In an ordered list with distinct ids, saving guidance changes the instruction of the
      selected record only. */
  lemma GuidanceChangesOneField(ds: seq<Deadline>, i: int, text: string)
    requires UniqueIds(ds) && C.EndDatesAscending(ds) && 0 <= i < |ds| && ds[i].id != ""
    ensures var u := GuidanceUpdate(ds, Some(ds[i].id), text);
            u == Some(ds[i].(instruction := Some(text))) &&
            C.UpdateDeadlines(ds, [u.value]) == ds[i := ds[i].(instruction := Some(text))]
  {
    var u := GuidanceUpdate(ds, Some(ds[i].id), text);
    var j :| FirstWithId(ds, ds[i].id, j) && u.value == ds[j].(instruction := Some(text));
    assert j == i;
    UpdateOneRecord(ds, i, ds[i].(instruction := Some(text)));
  }

  /** The guidance dialog's held state. */
  class GuidanceEditor {
    var isOpen: bool
    var selectedDeadlineId: Option<string>
    var guidanceText: string

    constructor ()
      ensures !isOpen && selectedDeadlineId.None? && guidanceText == ""
    {
      isOpen := false;
      selectedDeadlineId := None;
      guidanceText := "";
    }

    /** `openGuidance`: select the record and start from its instruction, or from nothing. */
    method Open(d: Deadline)
      modifies this
      ensures isOpen && selectedDeadlineId == Some(d.id)
      ensures guidanceText == (if d.instruction.Some? then d.instruction.value else "")
    {
      isOpen := true;
      selectedDeadlineId := Some(d.id);
      guidanceText := d.instruction.GetOr("");
    }

    /** Typing in the dialog. */
    method Edit(text: string)
      modifies this
      ensures guidanceText == text
      ensures isOpen == old(isOpen) && selectedDeadlineId == old(selectedDeadlineId)
    {
      guidanceText := text;
    }

    /** `saveGuidance`: emit the update for the selected record, then close and reset. */
    method Save(ds: seq<Deadline>) returns (update: Option<Deadline>)
      modifies this
      ensures update == GuidanceUpdate(ds, old(selectedDeadlineId), old(guidanceText))
      ensures !isOpen && selectedDeadlineId.None? && guidanceText == ""
    {
      update := GuidanceUpdate(ds, selectedDeadlineId, guidanceText);
      isOpen := false;
      guidanceText := "";
      selectedDeadlineId := None;
    }
  }

  /** Opening a record and saving without typing writes its instruction back unchanged (an
      absent instruction becomes the empty one). */
  method OpenThenSave(ds: seq<Deadline>, i: int) returns (update: Option<Deadline>)
    requires 0 <= i < |ds| && ds[i].id != "" && UniqueIds(ds)
    ensures update == Some(ds[i].(instruction := Some(ds[i].instruction.GetOr(""))))
  {
    var editor := new GuidanceEditor();
    editor.Open(ds[i]);
    update := editor.Save(ds);
    var j :| FirstWithId(ds, ds[i].id, j) && update.value == ds[j].(instruction := Some(ds[i].instruction.GetOr("")));
    assert j == i;
  }

  // ---------------------------------------------------------------- status colours

  /** The four colour groups of `getStatusColor`. */
  datatype Tone = Done | Working | Attention | Neutral

  /** `getStatusColor`: three groups of named statuses, and the neutral colour for an absent
      status and for every other string. */
  function StatusColor(status: Option<string>): (t: Tone)
    ensures t == Done <==> status.Some? && status.value in {"Minutado", "Assinado", "Protocolo de recursos"}
    ensures t == Working <==> status.Some? && status.value in {"Analisando", "Em Análise"}
    ensures t == Attention <==> status.Some? && status.value in {"Devolvido", "Sem Minuta", "Minuta Substituída"}
    ensures t == Neutral <==>
              (status.None? ||
               status.value !in {"Minutado", "Assinado", "Protocolo de recursos", "Analisando", "Em Análise",
                                 "Devolvido", "Sem Minuta", "Minuta Substituída"})
  {
    if status.None? then Neutral
    else if status.value in {"Minutado", "Assinado", "Protocolo de recursos"} then Done
    else if status.value in {"Analisando", "Em Análise"} then Working
    else if status.value in {"Devolvido", "Sem Minuta", "Minuta Substituída"} then Attention
    else Neutral
  }

  /** The options of the advisor column's select. */
  const AdvisorOptions: seq<string> := ["Pendente", "Analisando", "Sem Minuta", "Minutado", "Minuta Refeita"]

  /** The options of the promoter column's select, which are the names of `PromoterDecision`. */
  const DecisionOptions: seq<string> :=
    ["Pendente", "Assinado", "Assinatura em Lote", "Assinatura com Alterações", "Minuta Substituída",
     "Protocolo de recursos", "Devolvido"]

  /** The colour of every option the two selects offer. */
  lemma OptionColors()
    ensures seq(5, i requires 0 <= i < 5 => StatusColor(Some(AdvisorOptions[i]))) ==
            [Neutral, Working, Attention, Done, Neutral]
    ensures seq(7, i requires 0 <= i < 7 => StatusColor(Some(DecisionOptions[i]))) ==
            [Neutral, Done, Neutral, Neutral, Attention, Done, Attention]
    ensures forall i :: 0 <= i < 7 ==> ParseDecision(DecisionOptions[i]).Some?
  {
  }

  /** Of the advisor options only "Pendente" is an `AdvisorStatus` name: the select writes values
      the record type does not list. */
  lemma AdvisorOptionsOutsideType()
    ensures ParseAdvisorStatus(AdvisorOptions[0]) == Some(AdvisorPending)
    ensures forall i :: 1 <= i < 5 ==> ParseAdvisorStatus(AdvisorOptions[i]).None?
  {
  }
}

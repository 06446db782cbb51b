/** The application's collection store (App.tsx): three lists held as component state, loaded
    from storage at start-up with a date-reviving parser, and replaced as a whole by each of
    the import, update and delete handlers. */
module App {
  import opened Wrappers
  import opened Types
  import opened Calendar
  import opened Seqs
  import Persistence
  import C = Collections

  /** `new Date(y, m, d)` at local midnight, for a browser whose local time is UTC + `offset` ms. */
  function LocalMidnight(y: int, m: int, d: int, offset: int): int {
    MakeDay(FullYear(y), m, d) * 86400000 - offset
  }

  /** For realistic offsets, the local-midnight time value is the one `new Date(y, m, d)` yields. */
  lemma LocalMidnightIsDate(y: int, m: int, d: int, offset: int)
    requires 0 <= y <= 9999 && -1 <= m <= 98 && 0 <= d <= 99 && -MsPerDay <= offset <= MsPerDay
    ensures NewLocalDate(y, m, d, offset) == Valid(LocalMidnight(y, m, d, offset))
  {
    SmallFieldsGiveValidDate(y, m, d, offset);
  }

  /** `INITIAL_DEADLINES`: one urgent, active deadline running from 10 to 15 November 2023. */
  function InitialDeadlines(offset: int): (r: seq<Deadline>)
    ensures |r| == 1 && IsActive(r[0]) && r[0].priority == Urgent && r[0].status == Pending
    ensures r[0].endDate - r[0].startDate == 5 * 86400000
    ensures C.EndDatesAscending(r)
  {
    [Deadline(
      "1", "0001234-55.2023.8.04.0001", None, Some(PROJUDI),
      Some("Ação Penal - Procedimento Ordinário"), Some("Homicídio Simples"), Some("Denúncia"),
      Imprisoned, "Promotoria da Comarca de Nhamundá", "5 dias úteis",
      LocalMidnight(2023, 10, 10, offset), LocalMidnight(2023, 10, 15, offset),
      Urgent, Pending, Some(false), None, Some("Pendente"), Some("Pendente"), None, None, None)]
  }

  /** `INITIAL_AUDIENCES`: one scheduled in-person hearing on 25 November 2023. */
  function InitialAudiences(offset: int): (r: seq<Audience>)
    ensures |r| == 1 && r[0].status == Scheduled && r[0].mode == InPerson && r[0].time == "09:00"
  {
    [Audience(
      "101", "0001234-55.2023.8.04.0001", None, Some("Vara Única de Nhamundá"), Some("Ação Penal"),
      Some("Homicídio Qualificado"), NewLocalDate(2023, 10, 25, offset), "09:00",
      "Instrução e Julgamento", InPerson, Some("MP vs João da Silva"), Scheduled, None, None)]
  }

  /** The seed hearing falls on 25 November 2023 in local time. */
  lemma InitialAudienceDate(offset: int)
    requires -MsPerDay <= offset <= MsPerDay
    ensures var d := InitialAudiences(offset)[0].date;
            d.Valid? && CivilOfTime(d.time + offset) == Civil(2023, 10, 25)
  {
    LocalMidnightIsDate(2023, 10, 25, offset);
    var t := LocalMidnight(2023, 10, 25, offset) + offset;
    MidnightCivil(Civil(2023, 10, 25), t);
  }

  /** `JSON.parse(saved, dateReviver)` with `parseDate` standing for `new Date(string)`. */
  function Reviver(parseDate: string -> JsDate): (string, Persistence.Json) -> Persistence.Json {
    (key: string, v: Persistence.Json) => Persistence.DateReviver(key, v, parseDate)
  }

  /** A deadline import leaves the list in end-date order when it was in that order before:
      the list is either unchanged or freshly sorted. */
  lemma ImportKeepsOrder(store: seq<Deadline>, batch: seq<Deadline>)
    requires C.EndDatesAscending(store)
    ensures C.EndDatesAscending(C.ImportDeadlines(store, batch))
  {
    C.ImportDeadlinesFacts(store, batch);
  }

  /** After an update the deadlines are in end-date order, whatever order they were in. */
  lemma UpdateSortsDeadlines(store: seq<Deadline>, updates: seq<Deadline>)
    ensures C.EndDatesAscending(C.UpdateDeadlines(store, updates))
  {
    C.UpdateDeadlinesSorted(store, updates);
  }

  /** Deleting keeps the remaining deadlines in their order, so an ordered list stays ordered. */
  lemma DeleteKeepsOrder(store: seq<Deadline>, target: string)
    requires C.EndDatesAscending(store)
    ensures C.EndDatesAscending(C.DeleteDeadline(store, target))
  {
    C.RemoveByIdKeepsAscending(store, target, C.DeadlineId, C.EndDate);
  }

  /** The component state of `App`: the three collections. The storage writes that follow every
      change are left to the caller of this model. */
  class CaseStore {
    var deadlines: seq<Deadline>
    var audiences: seq<Audience>
    var adminProcesses: seq<AdministrativeProcess>

    /** The initialisers of the three `useState` hooks: each collection is read from its saved
        entry through the date reviver, and falls back to the seed lists (deadlines, hearings)
        or to an empty list (administrative procedures). */
    constructor Load(savedDeadlines: Option<string>, savedAudiences: Option<string>,
                     savedAdmin: Option<string>, parse: string -> Option<Persistence.Json>,
                     parseDate: string -> JsDate, readDeadlines: Persistence.Json -> seq<Deadline>,
                     readAudiences: Persistence.Json -> seq<Audience>,
                     readAdmin: Persistence.Json -> seq<AdministrativeProcess>, offset: int)
      ensures deadlines == Persistence.LoadCollection(savedDeadlines, parse, Reviver(parseDate),
                                                      readDeadlines, InitialDeadlines(offset))
      ensures audiences == Persistence.LoadCollection(savedAudiences, parse, Reviver(parseDate),
                                                      readAudiences, InitialAudiences(offset))
      ensures adminProcesses == Persistence.LoadCollection(savedAdmin, parse, Reviver(parseDate),
                                                           readAdmin, [])
      ensures savedDeadlines.None? ==> deadlines == InitialDeadlines(offset) && C.EndDatesAscending(deadlines)
      ensures savedAdmin.None? ==> adminProcesses == []
    {
      deadlines := Persistence.LoadCollection(savedDeadlines, parse, Reviver(parseDate),
                                              readDeadlines, InitialDeadlines(offset));
      audiences := Persistence.LoadCollection(savedAudiences, parse, Reviver(parseDate),
                                              readAudiences, InitialAudiences(offset));
      adminProcesses := Persistence.LoadCollection(savedAdmin, parse, Reviver(parseDate),
                                                   readAdmin, []);
    }

    /** `handleImportDeadlines`. */
    method ImportDeadlines(batch: seq<Deadline>)
      modifies this
      ensures deadlines == C.ImportDeadlines(old(deadlines), batch)
      ensures audiences == old(audiences) && adminProcesses == old(adminProcesses)
      ensures C.EndDatesAscending(old(deadlines)) ==> C.EndDatesAscending(deadlines)
    {
      if C.EndDatesAscending(deadlines) {
        ImportKeepsOrder(deadlines, batch);
      }
      deadlines := C.ImportDeadlines(deadlines, batch);
    }

    /** `handleUpdateDeadlines`. */
    method UpdateDeadlines(updates: seq<Deadline>)
      modifies this
      ensures deadlines == C.UpdateDeadlines(old(deadlines), updates)
      ensures audiences == old(audiences) && adminProcesses == old(adminProcesses)
      ensures C.EndDatesAscending(deadlines)
    {
      UpdateSortsDeadlines(deadlines, updates);
      deadlines := C.UpdateDeadlines(deadlines, updates);
    }

    /** `handleDeleteDeadline`. */
    method DeleteDeadline(id: string)
      modifies this
      ensures deadlines == C.DeleteDeadline(old(deadlines), id)
      ensures audiences == old(audiences) && adminProcesses == old(adminProcesses)
      ensures C.EndDatesAscending(old(deadlines)) ==> C.EndDatesAscending(deadlines)
    {
      if C.EndDatesAscending(deadlines) {
        DeleteKeepsOrder(deadlines, id);
      }
      deadlines := C.DeleteDeadline(deadlines, id);
    }

    /** `handleImportAudiences`. */
    method ImportAudiences(batch: seq<Audience>)
      modifies this
      ensures audiences == C.ImportAudiences(old(audiences), batch)
      ensures deadlines == old(deadlines) && adminProcesses == old(adminProcesses)
    {
      audiences := C.ImportAudiences(audiences, batch);
    }

    /** `handleUpdateAudiences`. */
    method UpdateAudiences(updates: seq<Audience>)
      modifies this
      ensures audiences == C.UpdateAudiences(old(audiences), updates)
      ensures deadlines == old(deadlines) && adminProcesses == old(adminProcesses)
    {
      audiences := C.UpdateAudiences(audiences, updates);
    }

    /** `handleDeleteAudience`. */
    method DeleteAudience(id: string)
      modifies this
      ensures audiences == C.DeleteAudience(old(audiences), id)
      ensures deadlines == old(deadlines) && adminProcesses == old(adminProcesses)
    {
      audiences := C.DeleteAudience(audiences, id);
    }

    /** `handleImportAdmin`: the test reads the current procedures. */
    method ImportAdmin(batch: seq<AdministrativeProcess>)
      modifies this
      ensures adminProcesses == C.ImportAdmin(old(adminProcesses), batch)
      ensures deadlines == old(deadlines) && audiences == old(audiences)
    {
      adminProcesses := C.ImportAdmin(adminProcesses, batch);
    }

    /** `handleUpdateAdmin`. */
    method UpdateAdmin(updates: seq<AdministrativeProcess>)
      modifies this
      ensures adminProcesses == C.UpdateAdmin(old(adminProcesses), updates)
      ensures deadlines == old(deadlines) && audiences == old(audiences)
    {
      adminProcesses := C.UpdateAdmin(adminProcesses, updates);
    }

    /** `handleDeleteAdmin`. */
    method DeleteAdmin(id: string)
      modifies this
      ensures adminProcesses == C.DeleteAdmin(old(adminProcesses), id)
      ensures deadlines == old(deadlines) && audiences == old(audiences)
    {
      adminProcesses := C.DeleteAdmin(adminProcesses, id);
    }
  }
}

# ControlePrazos — a verified model of the record-collection layer

ControlePrazos is a case-management application for a public prosecutor's office
(Promotoria de Justiça de Nhamundá). It keeps three collections in browser storage:
judicial deadlines ("prazos"), hearings ("audiências") and administrative procedures. It
also keeps a list of saved transcriptions. This project models, in Dafny, the logic that
sits between the user interface and those collections:

- the store (`App.tsx`): loading with a date reviver and seed fallbacks, import with
  de-duplication, update by id with a spread merge, delete by id, and the stable re-sort of
  deadlines by end date;
- the views over the collections: the deadline, hearing and administrative filters, the
  hearing ordering, and the dashboard counts, percentage, tallies and top-five list;
- the records the screens build: imported and manual deadlines, the status and guidance
  updates, manual hearings, and saved transcriptions;
- the string and date helpers: the regex fallback parser for deadline rows, the date-input
  parser and formatter, the JSON cleaner and data-URL handling around the AI calls, and the
  download file-name sanitiser.

The modules are:

- `Calendar`: the ECMAScript `Date` arithmetic, i.e. MakeDay, the two-digit-year rule,
  TimeClip and the civil date of a time value.
- `Text`: JavaScript string semantics, i.e. `trim`, `toLowerCase`, `includes`/`indexOf`,
  `substring` with its argument swap, global `replace`, `split`, `padStart` and `Number`.
- `Seqs` and `Sorting`: `filter`/`find`/`findIndex`/`slice`, and a stable sort with the
  uniqueness of stable sorting.
- `Types`: the enums and records of `types.ts`.
- `Persistence`: the JSON tree, the reviver walk of `JSON.parse`, `JSON.stringify` of dates,
  and load-with-fallback.
- `Collections` and `App`: the store. `App.CaseStore` is a class whose three sequence fields
  are replaced by its methods.
- `DeadlinesView`, `EventsView`, `AdministrativeView`, `DashboardView` and `ToolsView`: the
  screens.
- `Parser`: the row parser. It is a method with a loop, proved against a specification
  function.
- `Gemini`: the local logic of the AI service.

Conventions of the model:

- A time value is an `int` count of milliseconds. A `Date` is `Valid(t)` or `Invalid`.
- Local time is UTC plus a fixed offset in milliseconds, passed as a parameter.
- "Now", fresh ids, `Date.parse` of arbitrary strings and `JSON.parse` are parameters.
  `JSON.parse` yields `None` where the runtime throws.
- The DOM parse of an HTML table is given as the sequence of its rows' text.
- A record property that may be missing is an `Option`, with `None` for the absent property.
  A deadline's `system` is one: the extraction schema does not require it, and the dashboard
  counts a deadline without one under 'Outros', which no chart row reads.
- A deadline's `startDate` and `endDate` are plain `int` times rather than `Date`s, because
  every writer of a deadline produces a valid date. `parseInputDate` falls back to now
  (components/Deadlines.tsx:42-45, 72-73, 356), the manual deadline is built from now
  (components/Deadlines.tsx:93-94), and the parser builds the date from two- and four-digit
  fields. A stored date string that does not parse is outside the model: the `decode`
  parameter of `Persistence.LoadCollection` absorbs it. So the NaN branch of `safeFormatDate`
  (components/Deadlines.tsx:38) and the NaN result of the `sortDeadlines` comparator
  (App.tsx:92-96) are not modelled.

## Model

| member | source | states |
|---|---|---|
| Types.SystemTypeClosed | types.ts:2-7 | there are exactly four systems, their names are distinct, and each name reads back as its system |
| Types.ParseSystem | types.ts:2-7 | a string names a system exactly when it is one of PROJUDI, SEEU, MPV, SEI |
| Types.PriorityClosed | types.ts:9-14 | there are exactly four priorities with distinct names, each read back from its name |
| Types.ParsePriority | types.ts:9-14 | a string names a priority exactly when it is Baixa, Média, Alta or Urgente |
| Types.ParseDefendantStatus | types.ts:16 | a string names a defendant status exactly when it is one of the three literals |
| Types.ParsePurpose | types.ts:18-29 | a string read as a purpose carries that name; no purpose has a name that is refused |
| Types.PromoterDecisionClosed | types.ts:31-38 | there are exactly seven decisions with distinct names, including Pendente and Devolvido |
| Types.ParseDecision | types.ts:31-38 | a string read as a decision carries that name; no decision has a name that is refused |
| Types.ParseAdvisorStatus | types.ts:40 | a string names an advisor status exactly when it is one of the three literals |
| Types.ParseAudienceStatus | types.ts:80 | a hearing status is exactly one of Agendada, Realizada, Cancelada, Redesignada |
| Types.ParseAdminStatus | types.ts:95 | an administrative status is exactly one of Em dia, Atrasado, Prorrogado |
| Calendar.TimeClip | App.tsx:25-26 | a time value is a valid date exactly within 8.64e15 ms either side of the epoch, and is kept as is |
| Calendar.FullYear | components/Events.tsx:43 | a year 0..99 passed to the `Date` constructor means 1900 plus that year; any other year is itself |
| Calendar.NewLocalDate | App.tsx:25-26 | a valid `new Date(y, m, d)` is the local midnight of the day MakeDay numbers, shifted by the offset |
| Calendar.SmallFieldsGiveValidDate | components/Events.tsx:43 | fields of at most four, two and two digits always give a valid date |
| Calendar.CivilMidnightValid | components/Events.tsx:43 | for a real calendar day of years 1000..9999 the constructor gives exactly its local midnight |
| Calendar.CivilOfDay | components/Events.tsx:47 | every day number has a calendar day, which MakeDay maps back to it |
| Calendar.CivilRoundTrip | components/Events.tsx:43-47 | reading the calendar day of the day number of a calendar day gives it back |
| Calendar.MakeDay | App.tsx:25-26 | the day number of a year, month and date, carrying months past 11 into the year, as `new Date(y, m, d)` does; its meaning is stated by CivilOfDay, CivilRoundTrip and MakeDayInjective |
| Calendar.MakeDayInjective | components/Events.tsx:43-47 | two calendar days with the same day number are the same day |
| Sorting.SortBy | App.tsx:92-96 | a sort keeps the length |
| Sorting.SortByFacts | App.tsx:92-96 | the sort is ordered by key, a permutation, and keeps the order of items with equal keys |
| Sorting.SortedUnique | App.tsx:92-96 | two ordered lists that keep the same order within each key are equal, so a stable sort has one result |
| Sorting.SortSortedIsIdentity | App.tsx:92-96 | a list already ordered sorts to itself |
| Seqs.FindIndex | App.tsx:101 | -1 exactly when no item passes; else the first passing index |
| Seqs.Find | App.tsx:108 | none exactly when no item passes; else the first passing item |
| Seqs.Filter | App.tsx:98 | every kept item passes, and nothing is added |
| Seqs.FilterMembership | App.tsx:98 | an item is kept exactly when it is present and passes |
| Seqs.FilterIsSubsequence | App.tsx:98 | the kept items appear in their original order |
| Seqs.FilterComplement | App.tsx:98 | filtering by a test and by its negation splits the list |
| Persistence.DateReviver | App.tsx:51-58 | a value changes exactly when it is a string under one of the six date keys that parses to a valid date, and then becomes that date |
| Persistence.ReviveEncodeRoundTrip | App.tsx:51-90 | reviving what `JSON.stringify` wrote gives back the stored tree, when dates sit only under date keys |
| Persistence.Revive | App.tsx:64-86 | `JSON.parse(saved, dateReviver)`: the reviver applied bottom-up, children before their parent; ReviveEncodeRoundTrip and ReviveTranscriptDates state what it yields |
| Persistence.Encode | App.tsx:88-90 | `JSON.stringify`: a valid date becomes its ISO string and an invalid one null; ReviveEncodeRoundTrip states that reviving it gives the tree back |
| Persistence.ItemsRoundTrip | App.tsx:51-90 | the same round trip for the elements of an array |
| Persistence.MembersRoundTrip | App.tsx:51-90 | the same round trip for the members of an object |
| Persistence.LoadCollection | App.tsx:64-86 | a missing or empty entry, or one that does not parse, yields the fallback; otherwise the revived tree |
| Persistence.TranscriptDateReviver | components/Tools.tsx:29-32 | only the key "date" is revived, and under it every value becomes a date |
| App.InitialDeadlines | App.tsx:14-33 | the seed list is one active, urgent, pending deadline lasting five days, in end-date order |
| App.InitialAudiences | App.tsx:35-49 | the seed list is one scheduled in-person hearing at 09:00 |
| App.LocalMidnightIsDate | App.tsx:25-26 | `new Date(y, m, d)` is the local midnight of that day for year, month and day values in range |
| App.InitialAudienceDate | App.tsx:42 | the seed hearing falls on 25 November 2023 in local time |
| App.ImportKeepsOrder | App.tsx:100-104 | a deadline import keeps the list in end-date order |
| App.UpdateSortsDeadlines | App.tsx:106-111 | after an update the deadlines are in end-date order |
| App.DeleteKeepsOrder | App.tsx:113 | a delete keeps the deadlines in end-date order |
| App.CaseStore.Load | App.tsx:64-86 | each collection is loaded through the date reviver with its fallback: the seed lists, or [] for procedures |
| App.CaseStore.ImportDeadlines | App.tsx:100-104 | the deadlines become the import of the batch; the other lists are untouched; end-date order is kept |
| App.CaseStore.UpdateDeadlines | App.tsx:106-111 | the deadlines become the merged and re-sorted list; the other lists are untouched |
| App.CaseStore.DeleteDeadline | App.tsx:113 | the deadlines lose the records with that id; the other lists are untouched |
| App.CaseStore.ImportAudiences | App.tsx:114 | the hearings get the batch appended; the other lists are untouched |
| App.CaseStore.UpdateAudiences | App.tsx:115 | the hearings are merged in place; the other lists are untouched |
| App.CaseStore.DeleteAudience | App.tsx:116 | the hearings lose the records with that id; the other lists are untouched |
| App.CaseStore.UpdateAdmin | App.tsx:117 | the procedures are merged in place; the other lists are untouched |
| App.CaseStore.DeleteAdmin | App.tsx:118 | the procedures lose the records with that id; the other lists are untouched |
| App.CaseStore.ImportAdmin | App.tsx:119-122 | the procedures get the new numbers appended; the other lists are untouched |
| Collections.SortDeadlines | App.tsx:92-96 | sorting keeps the length |
| Collections.SortDeadlinesFacts | App.tsx:92-96 | the sorted list is a permutation, ascending by end date, with equal end dates in their previous order |
| Collections.SortAscendingIsIdentity | App.tsx:92-96 | sorting a list already in end-date order leaves it unchanged |
| Collections.FirstWithKey | App.tsx:101 | the index of the first item with a trimmed number, or -1 exactly when there is none |
| Collections.FirstOfKeyIsFindIndex | App.tsx:101 | an item passes the batch filter exactly when `findIndex` of its trimmed number is its own index |
| Collections.KeptFromFacts | App.tsx:101 | the kept indices are ascending and are exactly the first occurrences of their keys |
| Collections.UniqueFromSubsequence | App.tsx:101 | the de-duplicated batch is an ordered subsequence of the batch |
| Collections.UniqueByFacts | App.tsx:101 | within a batch, exactly the first item of each trimmed number survives, in order, with distinct keys |
| Collections.UniqueBy | App.tsx:101 | the first item of each key in a batch, in batch order; stated by UniqueByFacts and UniqueByKeepsFirst |
| Collections.UniqueByKeepsFirst | App.tsx:101 | of two batch items with the same trimmed number only the first is kept |
| Collections.SurvivorsExact | App.tsx:98-102 | an item survives exactly when it is first of its key in the batch and no active deadline has its key |
| Collections.SurvivorsBy | App.tsx:98-102 | the de-duplicated batch items whose key no active record carries; stated by SurvivorsExact |
| Collections.ImportBy | App.tsx:100-104 | with no survivor the list is unchanged; otherwise it grows by the number of survivors |
| Collections.ImportDeadlines | App.tsx:100-104 | the same, for deadlines keyed by trimmed process number |
| Collections.ImportDeadlinesFacts | App.tsx:103 | the result is a permutation of old plus survivors, ascending by end date, stable |
| Collections.ArchivedNeverBlock | App.tsx:98-102 | adding archived records to the store never changes which batch items survive |
| Collections.ImportContains | App.tsx:103 | every old record and every survivor is in the imported list |
| Collections.ImportHoldsBatchKeys | App.tsx:98-103 | after importing active records, each of their keys is held by an active record |
| Collections.ReimportUnchanged | App.tsx:98-104 | importing the same active batch a second time changes nothing |
| Collections.Over | App.tsx:109 | a spread field takes the update's value when present and keeps the old one otherwise |
| Collections.MergeFacts | App.tsx:109 | merging is idempotent, a record merged with itself is unchanged, and the id is the update's |
| Collections.MergeDeadline | App.tsx:109 | `{ ...item, ...updated }` on a deadline: the update's required fields and its present optional ones, the old value where the update lacks one; stated by MergeFacts and MergeKeepsIds |
| Collections.MergeAudience | App.tsx:109 | the same spread on a hearing; stated by MergeFacts |
| Collections.MergeAdmin | App.tsx:109 | the same spread on an administrative procedure; stated by MergeFacts |
| Collections.MergeKeepsIds | App.tsx:106-117 | merging keeps the id for all three record kinds |
| Collections.ApplyUpdates | App.tsx:107-110 | each position is merged with the first update with its id, or kept; the length is kept |
| Collections.ApplyUpdatesFacts | App.tsx:107-110 | every position keeps its id, and records that no update names are unchanged |
| Collections.ApplySingleUpdate | App.tsx:107-110 | with unique ids, one update replaces exactly one position by its merge |
| Collections.IdSets | App.tsx:106-111 | a permutation of a list with the same ids position by position has the same id set |
| Collections.UpdateDeadlines | App.tsx:106-111 | a deadline update keeps the length |
| Collections.UpdateDeadlinesSorted | App.tsx:106-111 | the updated deadlines are a permutation of the merged list, in end-date order |
| Collections.UpdateKeepsIdSet | App.tsx:106-111 | merge and re-sort keep the set of ids: unknown ids are never inserted, none is lost |
| Collections.UpdateAudiences | App.tsx:115 | hearings keep their length and their id at each position |
| Collections.UpdateAdmin | App.tsx:117 | procedures keep their length and their id at each position |
| Collections.RemoveById | App.tsx:113-118 | no remaining record has the deleted id |
| Collections.RemoveByIdFacts | App.tsx:113-118 | the rest is an ordered subsequence holding every record with another id; the length drops by the number removed |
| Collections.RemoveByIdKeepsAscending | App.tsx:113 | a delete keeps an ordered list ordered |
| Collections.RemoveFreshFront | components/Tools.tsx:130-138 | deleting the id of a record just put in front, with an id unused behind it, gives back the old list |
| Collections.ImportAudiences | App.tsx:114 | the hearings become the old list followed by the whole batch |
| Collections.ImportAdmin | App.tsx:119-122 | the old procedures come first, followed by at most the batch |
| Collections.ImportAdminExact | App.tsx:119-122 | the added part is exactly the batch filtered to the procedures whose untrimmed number no existing procedure, archived or not, has; so it keeps the batch order and every copy of a duplicate |
| Collections.AdminKeepsBatchDuplicates | App.tsx:119-122 | two new procedures with the same number in one batch are both added |
| DeadlinesView.FilteredDeadlinesExact | components/Deadlines.tsx:47-59 | the view is an ordered subsequence, holding a record exactly when it is in view, matches the term and matches the system |
| DeadlinesView.FilteredDeadlines | components/Deadlines.tsx:47-59 | the view filter, then the term and system filter; stated by FilteredDeadlinesExact and EmptyFiltersKeepView |
| DeadlinesView.MatchesSystem | components/Deadlines.tsx:56 | an empty system filter passes every record; otherwise the record must carry that system, so one without a system fails; used by FilteredDeadlinesExact |
| DeadlinesView.EmptyFiltersKeepView | components/Deadlines.tsx:50-56 | an empty term and an empty system filter nothing beyond the view |
| DeadlinesView.ViewsPartition | components/Deadlines.tsx:48 | the active and archived views split the list: sizes and multisets add up, and each holds only its kind |
| DeadlinesView.ParseInputDate | components/Deadlines.tsx:42-45 | a valid date is kept, an invalid one becomes now |
| DeadlinesView.MapExtracted | components/Deadlines.tsx:69-74 | an imported record is active, with advisor status and decision Pendente; its id is the extracted one when present, else a fresh one; each date is the parse of its string when valid, else now; every other property is copied |
| DeadlinesView.ImportBatch | components/Deadlines.tsx:68-77 | a missing or empty extraction imports nothing; otherwise each record is mapped in order |
| DeadlinesView.ImportTwiceAddsNothing | components/Deadlines.tsx:68-75 | importing the same file twice adds nothing the second time |
| DeadlinesView.NewManualDeadline | components/Deadlines.tsx:82-98 | a new manual deadline is empty, active and pending, with medium priority, and is due five days after now |
| DeadlinesView.ManualSaveIsLost | components/Deadlines.tsx:113-119 | saving a record with an id not in the list only re-sorts the list, and the record is not in it |
| DeadlinesView.SaveEditAsWritten | components/Deadlines.tsx:113-119 | `saveEdit` as written: the edited record handed to the update handler; ManualSaveIsLost and NewManualDeadlineIsLost show a new record is dropped |
| DeadlinesView.NewManualDeadlineIsLost | components/Deadlines.tsx:82-119 | concretely, a new manual deadline saved into a one-record list is not in the result |
| DeadlinesView.SaveEdit | components/Deadlines.tsx:113-119 | corrected save: an existing id is updated as before, a new record grows the list by one |
| DeadlinesView.SaveEditAddsNew | components/Deadlines.tsx:113-119 | corrected save: the new record is in the list with all old records, in end-date order |
| DeadlinesView.UpdateOneRecord | App.tsx:106-111 | with unique ids, an update that keeps the end date replaces just that position |
| DeadlinesView.StatusUpdate | components/Deadlines.tsx:103-106 | no update when the id is absent; otherwise the first record with that id, as `find` returns it, with the one field set |
| DeadlinesView.StatusUpdateChangesOneField | components/Deadlines.tsx:103-106 | applying the status update changes exactly that field of that record and nothing else |
| DeadlinesView.GuidanceUpdate | components/Deadlines.tsx:137-145 | no update without a selected, present id; otherwise the first record with that id, with the new instruction |
| DeadlinesView.GuidanceChangesOneField | components/Deadlines.tsx:137-145 | applying the guidance changes exactly the instruction of that record |
| DeadlinesView.GuidanceEditor.constructor | components/Deadlines.tsx:28-30 | the dialog starts closed, with nothing selected and empty text |
| DeadlinesView.GuidanceEditor.Open | components/Deadlines.tsx:131-135 | opening selects the record and starts from its instruction or from "" |
| DeadlinesView.GuidanceEditor.Edit | components/Deadlines.tsx:30 | typing replaces the text and nothing else |
| DeadlinesView.GuidanceEditor.Save | components/Deadlines.tsx:137-145 | saving emits the guidance update of the held state, then closes and resets |
| DeadlinesView.OpenThenSave | components/Deadlines.tsx:131-145 | opening and saving without typing writes the instruction back unchanged |
| DeadlinesView.StatusColor | components/Deadlines.tsx:163-168 | each of the three colour groups exactly for its listed statuses; neutral exactly for an absent status or any other string |
| DeadlinesView.OptionColors | components/Deadlines.tsx:163-168 | the colour of every advisor option and every decision option, and that each decision option is a decision |
| DeadlinesView.AdvisorOptionsOutsideType | components/Deadlines.tsx:9 | four of the five advisor options are not advisor statuses of the record type |
| EventsView.ParseLocalDate | components/Events.tsx:40-44 | an empty input yields now |
| EventsView.ParseDigitFields | components/Events.tsx:40-44 | "Y-M-D" with digit fields builds the local date (Y, M-1, D) |
| EventsView.ParseIsoFields | components/Events.tsx:40-44 | a YYYY-MM-DD string builds the local date of its fields |
| EventsView.ParseIsoDate | components/Events.tsx:40-44 | that date is the valid local midnight of the calendar day |
| EventsView.ParsedIsoOnUtc | components/Events.tsx:40-44 | at offset 0 the parsed date falls on the same calendar day |
| EventsView.Pad2 | components/Events.tsx:47 | a two-digit field is at least two digits with the right value |
| EventsView.Pad3 | components/Events.tsx:47 | a milliseconds field is at least three digits |
| EventsView.FormatDateForInput | components/Events.tsx:46-49 | an invalid date formats as "" |
| EventsView.FormatIsIsoDate | components/Events.tsx:46-49 | a valid date formats as the YYYY-MM-DD of its UTC calendar day |
| EventsView.FormatOfCivil | components/Events.tsx:46-49 | the same, for a calendar day already known |
| EventsView.FormatParseRoundTrip | components/Events.tsx:40-49 | formatting the parse of a YYYY-MM-DD input gives the input back (offset 0) |
| EventsView.ViewsPartitionStatuses | components/Events.tsx:60 | every hearing is in exactly one of the two views |
| EventsView.FilteredAudiencesExact | components/Events.tsx:58-66 | the view is an ordered subsequence holding exactly the hearings in view that match both filters; empty filters keep the whole view |
| EventsView.FilteredAudiences | components/Events.tsx:58-66 | the status view, then the process and date filters; stated by FilteredAudiencesExact |
| EventsView.ViewsPartition | components/Events.tsx:60 | the sizes of the two views add up to the number of hearings |
| EventsView.SortedAudiences | components/Events.tsx:68-75 | sorting keeps the length |
| EventsView.SortedAudiencesFacts | components/Events.tsx:68-75 | the sorted hearings are a permutation, by date and then by time, stable |
| EventsView.OrElse | components/Events.tsx:80-83 | `x \|\| fallback` for a text field |
| EventsView.ManualSubmit | components/Events.tsx:77-87 | nothing without a number or a date; otherwise one scheduled hearing with the form's values, and the defaults for time, type, mode, court division, link and system |
| EventsView.ManualSubmitDefaults | components/Events.tsx:80-83 | an otherwise empty form gets 09:00, Audiência, Presencial, the single court and PROJUDI |
| EventsView.ManualSubmitIsoDate | components/Events.tsx:81 | a YYYY-MM-DD date field gives the local midnight of that day |
| EventsView.DayPadded | components/Events.tsx:91 | padding a day number gives two digits with its value |
| EventsView.FormattedDateParts | components/Events.tsx:89-95 | placeholders for an invalid date; otherwise a two-digit day equal to the local day of the month, and the local year in decimal |
| EventsView.IntToString | components/Events.tsx:94 | the decimal digits of the number read back as it, after a '-' when negative |
| AdministrativeView.FilteredProcessesExact | components/Administrative.tsx:18-27 | the view is an ordered subsequence holding exactly the procedures in view that match the term |
| AdministrativeView.FilteredProcesses | components/Administrative.tsx:18-27 | the archive view, then the term filter; stated by FilteredProcessesExact and EmptyTermKeepsView |
| AdministrativeView.EmptyTermKeepsView | components/Administrative.tsx:22 | an empty term keeps the whole view |
| AdministrativeView.ViewsPartition | components/Administrative.tsx:20-21 | the active and archived views split the procedures by their flag |
| AdministrativeView.Badge | components/Administrative.tsx:31-34 | a badge carries its colour |
| AdministrativeView.StatusBadge | components/Administrative.tsx:29-36 | each status gets its colour and anything else the neutral badge |
| AdministrativeView.StatusBadgeDistinguishes | components/Administrative.tsx:29-36 | two statuses share a badge exactly when they are equal or both unknown |
| DashboardView.RealPercentage | components/Dashboard.tsx:52-54 | 0 when there is nothing; otherwise active·100/total rounded half up, within 0..100, and 100 when all are active |
| DashboardView.DashboardStats | components/Dashboard.tsx:46-54 | active counts the unarchived deadlines and archived the archived ones, together the total; urgent counts the active urgent ones; next hearings the scheduled ones; the percentage is `RealPercentage` of active over total |
| DashboardView.ActiveDeadlines | components/Dashboard.tsx:46 | the unarchived deadlines, in order; DashboardStats and ViewsPartition state its count and its complement |
| DashboardView.TallyFacts | components/Dashboard.tsx:57-61 | the tally has distinct names and positive counts, each counting its label, and its counts sum to the input length |
| DashboardView.Tally | components/Dashboard.tsx:57-61 | the `reduce` that counts each label, new labels appended in first-seen order (the order of `Object.entries` for labels that are not array indices); stated by TallyFacts, TallyEntry and BumpCountOf |
| DashboardView.TallyEntry | components/Dashboard.tsx:57-61 | each tally entry counts the items with its label |
| DashboardView.BumpCountOf | components/Dashboard.tsx:59 | incrementing one label adds one to that label only |
| DashboardView.PurposeLabel | components/Dashboard.tsx:58 | a missing or empty purpose is counted as Outros |
| DashboardView.PurposeTallyFacts | components/Dashboard.tsx:57-61 | the purpose counts sum to the number of active deadlines |
| DashboardView.DescendingCounts | components/Dashboard.tsx:64 | sorted entries have non-increasing counts |
| DashboardView.WorkloadFacts | components/Dashboard.tsx:62-65 | at most five entries, in non-increasing count order, a sub-multiset of the tally, so no entry repeats |
| DashboardView.WorkloadData | components/Dashboard.tsx:62-65 | the purpose tally sorted by descending count and cut to five, ties in first-seen order; stated by WorkloadFacts and WorkloadIsTopFive |
| DashboardView.WorkloadIsTopFive | components/Dashboard.tsx:62-65 | an entry left out counts no more than any entry shown |
| DashboardView.SystemsCover | components/Dashboard.tsx:68-72 | the four system counts and the count of deadlines without a system add up to the number of deadlines |
| DashboardView.SystemCount | components/Dashboard.tsx:68-72 | the tally under a system's name counts the deadlines of that system |
| DashboardView.SystemlessCount | components/Dashboard.tsx:68-72 | the tally under 'Outros' counts the deadlines without a system |
| DashboardView.SystemRowCounts | components/Dashboard.tsx:73-76 | the three rows are PROJUDI, SEEU, and MPV plus SEI as OUTROS |
| DashboardView.SystemRowsFacts | components/Dashboard.tsx:73-77 | the three rows sum to the active count less the deadlines without a system |
| DashboardView.PositiveRows | components/Dashboard.tsx:77 | dropping zero rows keeps the sum and keeps exactly the positive rows |
| DashboardView.SystemDataFacts | components/Dashboard.tsx:73-77 | at most three positive rows summing to the active count less the deadlines without a system; OUTROS is shown exactly when positive |
| DashboardView.SystemLabel | components/Dashboard.tsx:69 | the system's name, or "Outros" for a deadline without one; stated by SystemCount and SystemlessCount |
| DashboardView.SystemData | components/Dashboard.tsx:68-77 | the PROJUDI, SEEU and MPV-plus-SEI rows, zero rows dropped; stated by SystemRowCounts, PositiveRows and SystemDataFacts |
| DashboardView.DefendantsCover | components/Dashboard.tsx:80-81 | the three defendant counts add up to the number of deadlines |
| DashboardView.PrisonDataFacts | components/Dashboard.tsx:79-82 | at most two positive rows, which with the uninformed count add up to the active count |
| DashboardView.PrisonData | components/Dashboard.tsx:79-82 | the in-custody and at-liberty rows, zero rows dropped; stated by PrisonDataFacts |
| DashboardView.UpcomingFacts | components/Dashboard.tsx:183 | the first ten active deadlines, in list order, none due after one not shown |
| DashboardView.Upcoming | components/Dashboard.tsx:183 | `activeDeadlines.slice(0, 10)`; stated by UpcomingFacts |
| Parser.FitsSlice | services/parserService.ts:16 | a matched slice itself has the pattern's shape |
| Parser.FirstMatch | services/parserService.ts:26-28 | a match found is at or after the start and has the shape |
| Parser.FirstMatchLeftmost | services/parserService.ts:26-28 | the match is the leftmost one, and none is found only when nothing matches |
| Parser.NormalizeRow | services/parserService.ts:22-23 | normalising never lengthens the text |
| Parser.NormalizedRow | services/parserService.ts:23 | the text has no whitespace at either end, only single spaces, and the same visible characters |
| Parser.InferSystemPrecedence | services/parserService.ts:39-44 | seeu gives SEEU, else sei gives SEI, else mpv or simba gives MPV, else PROJUDI, case-insensitively |
| Parser.InferSystem | services/parserService.ts:39-44 | the lower-cased text's first matching keyword picks the system, PROJUDI when none matches; stated by InferSystemPrecedence |
| Parser.DigitField | services/parserService.ts:34-36 | `parseInt` of a digit field is its decimal value, below 10^width |
| Parser.ReadDate | services/parserService.ts:34-36 | the fields fit in two, two and four digits, with their values in ReadDateValues |
| Parser.ReadDateValues | services/parserService.ts:34-36 | the day, month and year are the decimal values of the DD, MM and YYYY digits of the match |
| Parser.EndDateOf | services/parserService.ts:34-37 | the end date is the valid `new Date(year, month-1, day)` |
| Parser.ParseRowWhen | services/parserService.ts:26-30 | a row yields a record exactly when its text has a CNJ number and a DD/MM/YYYY date |
| Parser.ParseRow | services/parserService.ts:20-62 | one row of the `forEach`: a record when both patterns match, nothing otherwise; stated by ParseRowWhen, ParseRowNumber, ParseRowEndDate and ParseRowDefaults |
| Parser.ParseRowNumber | services/parserService.ts:16-31 | the process number is the first CNJ-shaped slice of the text |
| Parser.ParseRowEndDate | services/parserService.ts:33-37 | the end date is `EndDateOf` the DD, MM and YYYY values `ReadDate` reads at the first date match, i.e. `new Date(year, MM-1, DD)` |
| Parser.ParseRowDefaults | services/parserService.ts:40-61 | the inferred system, the fresh id, start now, active, Manifestação, Média, Pendente, Não Informado |
| Parser.RowOutcomes | services/parserService.ts:20-63 | one outcome per row |
| Parser.ParseDeadlinesFromRows | services/parserService.ts:7-66 | the loop's output is exactly the records of the rows that yield one, in row order |
| Parser.ParseRows | services/parserService.ts:20-65 | the records of all rows, in row order; ParseDeadlinesFromRows proves the loop equal to it, and ParseRowsSnoc and ParseRowsAppend state how it grows |
| Parser.ParseRowsSnoc | services/parserService.ts:20-63 | one more row appends exactly that row's record, if any |
| Parser.ParseRowsOne | services/parserService.ts:20-63 | a single row gives its record or nothing |
| Parser.CollectAppend | services/parserService.ts:46 | collecting outcomes distributes over concatenation |
| Parser.ParseRowsAppend | services/parserService.ts:20-65 | the records of two row lists are the records of each, concatenated |
| Parser.CollectFrom | services/parserService.ts:46 | every collected record comes from some outcome, and there are no more records than outcomes |
| Parser.ParseRowsFrom | services/parserService.ts:20-65 | at most one record per row, each produced by some row |
| Text.ToLower | components/Deadlines.tsx:50 | lower-casing maps each character by `LowerChar` (ASCII and Latin-1 capitals) and keeps the length |
| Text.IndexOf | components/Deadlines.tsx:52 | -1 exactly when the text does not include the search string, else the first occurrence |
| Text.IndexOfChar | services/geminiService.ts:14 | -1 exactly when the character is absent, else its first position |
| Text.LastIndexOfChar | services/geminiService.ts:15 | -1 exactly when the character is absent, else its last position |
| Text.Substring | services/geminiService.ts:17 | the slice between the clamped bounds, swapped when the first is larger |
| Text.TrimStart | App.tsx:101 | only whitespace is removed from the front, and what remains does not start with it |
| Text.TrimEnd | App.tsx:101 | only whitespace is removed from the end, and what remains does not end with it |
| Text.TrimmedEnds | App.tsx:101 | the trimmed text is a contiguous part of the input with whitespace cut from both ends only |
| Text.Trim | App.tsx:101 | `trim()`: never longer than its input; TrimmedEnds and TrimVisible state what it removes |
| Text.TrimVisible | App.tsx:101 | a text without whitespace at its ends trims to itself |
| Text.CollapseSpacesFacts | services/parserService.ts:23 | collapsing leaves single spaces only and keeps the visible characters |
| Text.RemoveAll | services/geminiService.ts:13 | global removal never lengthens the text, with what remains in RemoveAllKeeps |
| Text.RemoveAllKeeps | services/geminiService.ts:13 | the kept characters are a subsequence of the text, shorter by a multiple of the pattern's length |
| Text.RemoveAllRunLeavesNone | services/geminiService.ts:13 | removing every run of n copies of a character leaves no such run |
| Text.SplitJoin | components/Events.tsx:42 | a first part without the separator, followed by the separator, is split off as the first part |
| Text.SplitRoundTrip | components/Events.tsx:42 | joining the parts with the separator gives the input back, and no part holds the separator |
| Text.Split | components/Events.tsx:42 | `split(sep)` yields at least one part; SplitRoundTrip states that the parts joined by the separator give the input back and hold no separator |
| Text.ToNumberDigits | components/Events.tsx:42 | `Number` of a digit string is its value |
| Text.ToNumber | components/Events.tsx:42 | `Number(s)` on a date-input field: blank text reads as 0, and any text it reads is all digits once trimmed; ToNumberDigits gives the value |
| Text.PadStart | components/Events.tsx:91 | padding reaches the width, ends with the input, and fills the front |
| Gemini.StripFences | services/geminiService.ts:13 | removing fences never lengthens the text |
| Gemini.StripFencesLeavesNoFence | services/geminiService.ts:13 | no fence is left after the two replaces |
| Gemini.RemoveAllAbsent | services/geminiService.ts:13 | removing a pattern that does not occur changes nothing |
| Gemini.StripFencesAbsent | services/geminiService.ts:13 | a fence-free text is unchanged by fence removal |
| Gemini.CutJsonObject | services/geminiService.ts:14-18 | braces in order: the slice from the first '{' through the last '}'; swapped: the brace-free text between them |
| Gemini.CutJson | services/geminiService.ts:14-24 | the brace cut, else the bracket cut, else "{}"; stated by CutJsonObject, CutJsonArray, CutJsonFallback and CutJsonSlice |
| Gemini.CutJsonArray | services/geminiService.ts:19-23 | without a brace pair: the slice from the first '[' through the last ']' when in order; when swapped, the text strictly between them, which holds no bracket |
| Gemini.CutJsonFallback | services/geminiService.ts:24 | with neither pair the result is "{}" |
| Gemini.CutJsonSlice | services/geminiService.ts:14-24 | the result is a slice of the cleaned text, or "{}" |
| Gemini.CleanJsonHasNoFence | services/geminiService.ts:11-28 | the cleaned text never contains a fence |
| Gemini.CleanJsonString | services/geminiService.ts:11-28 | fences stripped, then the brace or bracket cut; stated by CleanJsonHasNoFence and CleanJsonIdempotent |
| Gemini.CleanJsonIdempotent | services/geminiService.ts:11-28 | cleaning a cleaned text gives it back, when the cut was not a swapped one |
| Gemini.Base64Payload | services/geminiService.ts:42-43 | the payload is never longer than the data URL |
| Gemini.Base64PayloadSplit | services/geminiService.ts:42-43 | the whole text without a comma; otherwise the data URL is a comma-free header, a comma and the payload |
| Gemini.MimeType | services/geminiService.ts:45-50 | application/pdf exactly when the name ends in .pdf, the type is empty, or the type is already PDF; else the file's type |
| Gemini.FileToGenerativePart | services/geminiService.ts:30-61 | an error without an API key or with an empty read; otherwise the payload with its MIME type |
| Gemini.TruncateHtml | services/geminiService.ts:114 | the first 500000 characters, or the whole text when shorter |
| Gemini.Property | services/geminiService.ts:122 | absent exactly when no member has the key; else the value of the last member with it |
| Gemini.OrEmptyList | services/geminiService.ts:122 | a truthy value is kept, anything else becomes [] |
| Gemini.Truthy | services/geminiService.ts:250-251 | JavaScript truthiness: undefined, null, false, 0 and "" are falsy; used by OrEmptyList and ReadReplyNormalises |
| Gemini.LengthOf | services/geminiService.ts:251 | `x?.length`: the length of an array or a string, the `length` member of an object, undefined otherwise; stated through ReadReplyNormalises |
| Gemini.ReplyText | services/geminiService.ts:121 | a missing or empty reply reads as "{}" |
| Gemini.ReadReply | services/geminiService.ts:121-122 | the reply is read exactly when its cleaned text parses to something other than null |
| Gemini.ReadReplyNormalises | services/geminiService.ts:250-251 | an array field gives that array with its length as total; a missing field gives [] and 0 |
| ToolsView.LoadTranscriptions | components/Tools.tsx:24-38 | a missing entry or a failed parse leaves the list empty |
| ToolsView.ReviveTranscriptDates | components/Tools.tsx:29-32 | after loading, every member named "date", at any depth, holds a date |
| ToolsView.ReviveItemsDates | components/Tools.tsx:29-32 | the same for the elements of an array |
| ToolsView.ReviveMembersDates | components/Tools.tsx:29-32 | the same for the members of an object |
| ToolsView.NewTranscript | components/Tools.tsx:111-128 | refused exactly when the trimmed number or the trimmed text is blank, with the number's alert first; else the record with the untrimmed text, the tab's type, now and no link |
| ToolsView.SavedNumberIsTrimmed | components/Tools.tsx:123 | the saved number is non-empty, has no whitespace at its ends, and is a contiguous part of what was typed |
| ToolsView.RemoveTranscript | components/Tools.tsx:138 | no remaining transcription has the deleted id |
| ToolsView.RemoveTranscriptKeepsOthers | components/Tools.tsx:136-140 | every other transcription is kept, in order, and the list shrinks by exactly the number of records with that id |
| ToolsView.DeleteUndoesSave | components/Tools.tsx:130-138 | deleting a just-saved record with a fresh id restores the list |
| ToolsView.TranscriptionTool.Load | components/Tools.tsx:8-38 | the tool starts on the audio tab with empty fields and the loaded list |
| ToolsView.TranscriptionTool.Save | components/Tools.tsx:111-134 | on success the record is prepended and both fields are cleared; on refusal nothing changes |
| ToolsView.TranscriptionTool.Delete | components/Tools.tsx:136-140 | when confirmed, the records with that id are dropped; the fields are untouched |
| ToolsView.SafeFileName | components/Tools.tsx:155 | as many characters as the name has UTF-16 code units, each an ASCII letter, digit or '_' |
| ToolsView.SafeFileNameBmp | components/Tools.tsx:155 | on text within U+FFFF: same length, letters and digits kept, every other character '_' |
| ToolsView.SafeFileNameClean | components/Tools.tsx:155 | the result holds only letters, digits and '_', and sanitising it again changes nothing |
| ToolsView.DownloadName | components/Tools.tsx:156 | an error exactly when the record's date is invalid |
| ToolsView.DownloadNameDate | components/Tools.tsx:156 | the name is Transcricao_<safe number>_<UTC YYYY-MM-DD>.<extension> |

## Left out

- DashboardView.Tally: the tally lists labels in first-seen order. `Object.entries` lists
  array-index keys such as "2" first, in numeric order, then the others in insertion order.
  A purpose is free text, so with the active purposes "Parecer" and "2", once each, JavaScript
  charts "2" before "Parecer" and `WorkloadData` charts them the other way round. `acc[p] || 0`
  also reads inherited properties: a purpose named "toString" starts from a function, not 0,
  and its count becomes a string. Neither is modelled; the tally treats every label as a
  fresh own key.
- DeadlinesView.MapExtracted: an extracted deadline's other properties are a full `Deadline`,
  so `status`, `prosecutorOffice` and `deadlineDuration` always hold a value. The extraction
  schema (services/geminiService.ts:95-106) has none of these properties, and the spread at
  components/Deadlines.tsx:70 leaves them undefined on the imported record.
- Rendering, React state wiring, timers, `alert`/`confirm` and modals. A confirmation is a
  boolean parameter where it gates a change.
- The Gemini network calls: prompts, schemas, chat, drafting, search and transcription. Their
  replies are the `responseText` parameter.
- The FileReader, MediaRecorder, Blob/URL downloads and the clipboard.
- The localStorage writes after each change (`App.tsx:88-90`, `components/Tools.tsx:41-43`).
  The store's methods leave the writing to their caller.
- `Date.parse` of arbitrary strings, `new Date()`, fresh ids and `JSON.parse` are parameters.
  The reviver walk, `JSON.stringify` of dates and the `Date` constructor from fields are
  modelled.
- `toLocaleDateString`, `toLocaleString` and the month and weekday names of
  `getFormattedDateParts`, because they depend on the locale. The download text's header is
  left out for the same reason.
- Local time is UTC plus one fixed offset. Daylight-saving changes are not modelled.
- DashboardView.RealPercentage: `Math.round((active / total) * 100)` works in floating point,
  and the model rounds the exact fraction half up. The two can differ. With 29 active
  deadlines of 200, `29 / 200 * 100` is 14.499999999999998 in IEEE doubles, so `Math.round`
  gives 14, while `RealPercentage(29, 200)` is 15.
- JSON numbers are integers (`Persistence.Json.JNum(int)`), so a fractional number cannot be
  represented. Only `Gemini.Truthy` and `Gemini.LengthOf` (a fractional `length` member) and
  the `TimeClip` of a numeric "date" in `Persistence.TranscriptDateReviver` would see one;
  `TimeClip` would truncate it.
- EventsView.SortedAudiences: `localeCompare` on the time strings is modelled as comparison
  of character codes. The two agree on the "HH:mm" strings the form produces, but not on
  arbitrary text.
- Rules that no code enforces are not modelled: an archive gate on the promoter's decision,
  the automatic administrative status, the three-year CNMP deadline, and the purpose, advisor
  and end-date filters that are declared but never read.
- Deadline records keep `advisorStatus` and `promoterDecision` as strings, because the
  status select offers values outside the declared type (`components/Deadlines.tsx:9`,
  cast at line 105).
- The `try`/`catch` in `cleanJsonString` is not modelled: nothing in its body throws.
- Gemini.ReadReply gives every reply a `total`. The deadline extractors return only the list
  and ignore it.
- The text reading of a row (`textContent`) is not modelled: a row is given as its text.
- Parser.InferSystemPrecedence: `toLowerCase` is modelled for ASCII and the Latin-1 capitals
  only. Other scripts' case mappings are not modelled.
- Text.ToLower: the same Latin-1 mapping. It also drives the search filters of the three
  screens and Gemini.MimeType. JavaScript's full mapping can change the length (`"İ"` becomes
  two code units); the model keeps it.
- Strings are sequences of Unicode scalar values, while JavaScript counts UTF-16 code units.
  The two agree on text within U+0000..U+FFFF. A lone surrogate cannot be represented.
- Gemini.TruncateHtml: the cut is at 500000 characters rather than 500000 code units, so text
  with characters beyond U+FFFF is cut later than `substring` cuts it. A cut through a
  surrogate pair would leave a lone surrogate, which the model cannot hold.
- Persistence.TranscriptDateReviver: an array or object under "date" becomes an invalid date.
  JavaScript first converts it to text, which for an array holding one date string parses.

## Findings

| source | as written | input that shows it | evidently intended | confidence | as-written member | corrected member |
|---|---|---|---|---|---|---|
| components/Deadlines.tsx:113-119 | "Novo prazo" opens a record with a fresh id, and `saveEdit` hands it to the update handler. That handler (App.tsx:106-111) only merges into records that already carry the id, so the new deadline is dropped and the list is only re-sorted. | any list whose records all have ids other than the new record's, e.g. the seed list with id "1" and a new record "manual" | a record with a new id is added to the list, and the list is re-sorted by end date | high (not executed) | DeadlinesView.ManualSaveIsLost | DeadlinesView.SaveEditAddsNew |

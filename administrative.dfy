/** The administrative-procedure screen (components/Administrative.tsx): the filtered view of
    the procedures and the badge shown for a procedure's deadline status. */
module AdministrativeView {
  import opened Wrappers
  import opened Types
  import opened Seqs
  import Text

  // ---------------------------------------------------------------- filtered view

  /** `viewMode === 'active' ? !p.isArchived : p.isArchived`. */
  predicate InView(p: AdministrativeProcess, mode: ViewMode) {
    if mode == ActiveView then !p.isArchived else p.isArchived
  }

  /** The search term: empty matches everything; otherwise a case-insensitive substring of the
      procedure number or of the main subject. */
  predicate MatchesTerm(p: AdministrativeProcess, term: string) {
    var t := Text.ToLower(term);
    term == "" || Text.Includes(Text.ToLower(p.procedureNumber), t) ||
    Text.Includes(Text.ToLower(p.mainSubject), t)
  }

  /** `filteredProcesses`: one filter testing the view first and the term second. */
  function FilteredProcesses(ps: seq<AdministrativeProcess>, mode: ViewMode, term: string): seq<AdministrativeProcess> {
    Filter(ps, (p: AdministrativeProcess) => InView(p, mode) && MatchesTerm(p, term))
  }

  /** The filtered list is an order-preserving subsequence of the list and holds exactly the
      procedures of the chosen view that match the term. */
  lemma FilteredProcessesExact(ps: seq<AdministrativeProcess>, mode: ViewMode, term: string, x: AdministrativeProcess)
    ensures var r := FilteredProcesses(ps, mode, term);
            IsSubsequence(r, ps) &&
            (x in r <==> x in ps && InView(x, mode) && MatchesTerm(x, term))
  {
    var keep := (p: AdministrativeProcess) => InView(p, mode) && MatchesTerm(p, term);
    FilterIsSubsequence(ps, keep);
    FilterMembership(ps, keep, x);
  }

  /** With an empty term the screen shows the whole of the chosen view. */
  lemma EmptyTermKeepsView(ps: seq<AdministrativeProcess>, mode: ViewMode)
    ensures FilteredProcesses(ps, mode, "") == Filter(ps, (p: AdministrativeProcess) => InView(p, mode))
  {
    FilterCongruent(ps, (p: AdministrativeProcess) => InView(p, mode) && MatchesTerm(p, ""),
                    (p: AdministrativeProcess) => InView(p, mode));
  }

  /** The two tabs are disjoint and together hold every procedure, counted with multiplicity. */
  lemma ViewsPartition(ps: seq<AdministrativeProcess>)
    ensures var active := FilteredProcesses(ps, ActiveView, "");
            var archived := FilteredProcesses(ps, ArchivedView, "");
            |active| + |archived| == |ps| &&
            multiset(active) + multiset(archived) == multiset(ps) &&
            (forall x :: x in active ==> !x.isArchived) && (forall x :: x in archived ==> x.isArchived)
  {
    EmptyTermKeepsView(ps, ActiveView);
    EmptyTermKeepsView(ps, ArchivedView);
    FilterComplement(ps, (p: AdministrativeProcess) => InView(p, ActiveView),
                     (p: AdministrativeProcess) => InView(p, ArchivedView));
  }

  // ---------------------------------------------------------------- status badge

  /** The Tailwind classes of a badge in one colour: background shade 100, text shade 700 and,
      for the coloured badges, border shade 200. */
  function Badge(colour: string, bordered: bool): (r: string)
    ensures Text.Includes(r, colour)
  {
    var r := "bg-" + colour + "-100 text-" + colour + "-700" + (if bordered then " border-" + colour + "-200" else "");
    assert r[3..3 + |colour|] == colour;
    assert Text.OccursAt(r, colour, 3);
    r
  }

  const NeutralBadge: string := Badge("slate", false)

  /** `getStatusBadge`: a colour per known deadline status, the neutral badge for any other
      string. */
  function StatusBadge(status: string): (r: string)
    ensures ParseAdminStatus(status).None? ==> r == NeutralBadge
    ensures status == OnTime.Name() ==> Text.Includes(r, "emerald")
    ensures status == Late.Name() ==> Text.Includes(r, "red")
    ensures status == Extended.Name() ==> Text.Includes(r, "amber")
  {
    if status == "Em dia" then Badge("emerald", true)
    else if status == "Atrasado" then Badge("red", true)
    else if status == "Prorrogado" then Badge("amber", true)
    else NeutralBadge
  }

  /** The badge tells the statuses apart: two strings get the same badge exactly when they are
      the same status or neither is a status. */
  lemma StatusBadgeDistinguishes(a: string, b: string)
    ensures StatusBadge(a) == StatusBadge(b) <==>
            a == b || (ParseAdminStatus(a).None? && ParseAdminStatus(b).None?)
  {
  }
}

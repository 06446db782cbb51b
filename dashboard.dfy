/** The dashboard (components/Dashboard.tsx): counts over the deadlines and hearings, the share of
    active deadlines, the tallies behind the workload and system charts, the defendant-status
    panel and the list of upcoming deadlines. Every figure is a function of the two lists. */
module DashboardView {
  import opened Wrappers
  import opened Types
  import opened Seqs
  import opened Sorting
  import C = Collections

  // ---------------------------------------------------------------- counts

  function IsArchivedFlag(d: Deadline): bool { d.isArchived == Some(true) }
  function IsActiveDeadline(d: Deadline): bool { IsActive(d) }
  function IsUrgent(d: Deadline): bool { d.priority == Urgent }
  function IsScheduled(a: Audience): bool { a.status == Scheduled }

  /** `activeDeadlines`: the deadlines whose archive flag is not set, in collection order. */
  function ActiveDeadlines(ds: seq<Deadline>): seq<Deadline> {
    Filter(ds, IsActiveDeadline)
  }

  lemma MulMono(a: int, b: int, d: nat)
    ensures a <= b ==> d * a <= d * b
  {
    if a <= b {
      assert d * b == d * a + d * (b - a);
    }
  }

  /** `Math.round((active / total) * 100)` on exact rationals: the nearest integer, halves
      rounded up; 0 when there are no deadlines. */
  function RealPercentage(active: nat, total: nat): (r: nat)
    requires active <= total
    ensures total == 0 ==> r == 0
    ensures total > 0 ==> (2 * total) * r <= 200 * active + total < (2 * total) * r + 2 * total
    ensures r <= 100
    ensures total > 0 && active == total ==> r == 100
  {
    if total > 0 then
      var x, d := 200 * active + total, 2 * total;
      var r := x / d;
      assert d * r <= x < d * r + d;
      RoundBounds(active, total, r);
      r
    else 0
  }

  /** The rounded share lies within 0..100 and is 100 when every deadline is active. */
  lemma RoundBounds(active: nat, total: nat, r: int)
    requires 0 < total && active <= total
    requires (2 * total) * r <= 200 * active + total < (2 * total) * r + 2 * total
    ensures 0 <= r <= 100 && (active == total ==> r == 100)
  {
    var d := 2 * total;
    assert d * 101 == 202 * total && d * 100 == 200 * total && d * 0 == 0;
    if r > 100 { MulMono(101, r, d); }
    if r < 0 { MulMono(r, -1, d); }
    if active == total && r < 100 { MulMono(r, 99, d); }
  }

  /** The four headline figures and the share of active deadlines. */
  datatype Stats = Stats(
    active: nat, total: nat, archived: nat, urgent: nat, nextAudiences: nat, realPercentage: nat)

  /** The figures of components/Dashboard.tsx:46-54: active and archived deadlines split the
      list, urgent counts the active urgent ones, next hearings the scheduled ones. */
  function DashboardStats(ds: seq<Deadline>, audiences: seq<Audience>): (s: Stats)
    ensures s.active == |ActiveDeadlines(ds)| && s.archived == Count(ds, IsArchivedFlag)
    ensures s.active + s.archived == s.total == |ds|
    ensures s.nextAudiences == Count(audiences, IsScheduled)
    ensures s.realPercentage == RealPercentage(s.active, s.total)
    ensures s.urgent <= s.active
    ensures s.urgent == Count(ds, (d: Deadline) => IsActive(d) && d.priority == Urgent)
    ensures s.nextAudiences <= |audiences|
    ensures s.realPercentage <= 100
    ensures s.active == s.total > 0 ==> s.realPercentage == 100
  {
    var active := ActiveDeadlines(ds);
    FilterComplement(ds, IsActiveDeadline, IsArchivedFlag);
    FilterFilter(ds, IsActiveDeadline, IsUrgent, (d: Deadline) => IsActive(d) && d.priority == Urgent);
    Stats(|active|, |ds|, Count(ds, IsArchivedFlag), Count(active, IsUrgent),
          Count(audiences, IsScheduled), RealPercentage(|active|, |ds|))
  }

  // ---------------------------------------------------------------- tallies

  /** One property of the object built by a counting `reduce`: a key and how many records carry
      it. The chart rows `{ name, count }` and `{ name, value }` have the same shape. */
  datatype Entry = Entry(name: string, count: nat)

  function NamedAs(k: string): Entry -> bool {
    (e: Entry) => e.name == k
  }

  function HasLabel<T>(labelOf: T -> string, k: string): T -> bool {
    (x: T) => labelOf(x) == k
  }

  predicate DistinctEntryNames(t: seq<Entry>) {
    forall i, j :: 0 <= i < j < |t| ==> t[i].name != t[j].name
  }

  /** `acc[k] || 0`: the count under `k`, 0 for a key never seen. */
  function CountOf(t: seq<Entry>, k: string): nat {
    var i := FindIndex(t, NamedAs(k));
    if i == -1 then 0 else t[i].count
  }

  /** `acc[k] = (acc[k] || 0) + 1`: a key seen before keeps its place; a new key is added at the
      end. That is where `Object.entries` lists a new key that is not an array index; index-like
      keys such as "2" are not ordered first here, and inherited names such as "toString" are
      not set apart. */
  function Bump(t: seq<Entry>, k: string): (r: seq<Entry>)
    ensures |t| <= |r| <= |t| + 1
  {
    var i := FindIndex(t, NamedAs(k));
    if i == -1 then t + [Entry(k, 1)] else t[i := Entry(k, t[i].count + 1)]
  }

  /** `s.reduce((acc, x) => { acc[labelOf(x)] = (acc[labelOf(x)] || 0) + 1; return acc }, {})`,
      with the object's keys in insertion order (which `Object.entries` keeps for every key that
      is not an array index). */
  function Tally<T>(s: seq<T>, labelOf: T -> string): seq<Entry>
    decreases |s|
  {
    if s == [] then [] else Bump(Tally(s[..|s| - 1], labelOf), labelOf(s[|s| - 1]))
  }

  function SumCounts(t: seq<Entry>): nat {
    if t == [] then 0 else t[0].count + SumCounts(t[1..])
  }

  lemma {:induction false} SumSnoc(t: seq<Entry>, e: Entry)
    ensures SumCounts(t + [e]) == SumCounts(t) + e.count
  {
    if t == [] {
      assert [] + [e] == [e];
    } else {
      assert (t + [e])[1..] == t[1..] + [e];
      SumSnoc(t[1..], e);
    }
  }

  lemma {:induction false} SumUpdate(t: seq<Entry>, i: nat, e: Entry)
    requires i < |t|
    ensures SumCounts(t[i := e]) + t[i].count == SumCounts(t) + e.count
  {
    if i > 0 {
      assert t[i := e][1..] == t[1..][i - 1 := e];
      SumUpdate(t[1..], i - 1, e);
    }
  }

  /** With distinct names, the count under a name is that of the entry carrying it. */
  lemma CountOfAt(t: seq<Entry>, k: string, i: int)
    requires DistinctEntryNames(t) && 0 <= i < |t| && t[i].name == k
    ensures CountOf(t, k) == t[i].count
  {
    var j := FindIndex(t, NamedAs(k));
    assert NamedAs(k)(t[i]);
    assert j != -1 && NamedAs(k)(t[j]);
  }

  lemma CountOfAbsent(t: seq<Entry>, k: string)
    requires forall i :: 0 <= i < |t| ==> t[i].name != k
    ensures CountOf(t, k) == 0
  {
    assert forall i :: 0 <= i < |t| ==> !NamedAs(k)(t[i]);
  }

  lemma BumpShape(t: seq<Entry>, k: string)
    requires DistinctEntryNames(t)
    ensures var r := Bump(t, k);
            DistinctEntryNames(r) && SumCounts(r) == SumCounts(t) + 1 &&
            ((forall i :: 0 <= i < |t| ==> t[i].count >= 1) ==> forall i :: 0 <= i < |r| ==> r[i].count >= 1)
  {
    if FindIndex(t, NamedAs(k)) == -1 {
      AppendShape(t, k);
    } else {
      UpdateShape(t, k);
    }
  }

  /** `BumpShape` for a key not yet present. */
  lemma AppendShape(t: seq<Entry>, k: string)
    requires DistinctEntryNames(t) && FindIndex(t, NamedAs(k)) == -1
    ensures var r := Bump(t, k);
            DistinctEntryNames(r) && SumCounts(r) == SumCounts(t) + 1 &&
            ((forall i :: 0 <= i < |t| ==> t[i].count >= 1) ==> forall i :: 0 <= i < |r| ==> r[i].count >= 1)
  {
    assert forall j :: 0 <= j < |t| ==> !NamedAs(k)(t[j]);
    var r := t + [Entry(k, 1)];
    assert Bump(t, k) == r;
    SumSnoc(t, Entry(k, 1));
  }

  /** `BumpShape` for a key already present. */
  lemma UpdateShape(t: seq<Entry>, k: string)
    requires DistinctEntryNames(t) && FindIndex(t, NamedAs(k)) != -1
    ensures var r := Bump(t, k);
            DistinctEntryNames(r) && SumCounts(r) == SumCounts(t) + 1 &&
            ((forall i :: 0 <= i < |t| ==> t[i].count >= 1) ==> forall i :: 0 <= i < |r| ==> r[i].count >= 1)
  {
    var i := FindIndex(t, NamedAs(k));
    assert NamedAs(k)(t[i]);
    var r := t[i := Entry(k, t[i].count + 1)];
    assert Bump(t, k) == r;
    SumUpdate(t, i, Entry(k, t[i].count + 1));
  }

  /** Bumping `k` adds one to the count under `k` and leaves every other count alone. */
  lemma BumpCountOf(t: seq<Entry>, k: string, q: string)
    requires DistinctEntryNames(t)
    ensures CountOf(Bump(t, k), q) == CountOf(t, q) + (if q == k then 1 else 0)
  {
    var r := Bump(t, k);
    BumpShape(t, k);
    var i := FindIndex(t, NamedAs(k));
    if i != -1 {
      assert NamedAs(k)(t[i]);
    }
    if exists j :: 0 <= j < |t| && t[j].name == q {
      var j :| 0 <= j < |t| && t[j].name == q;
      CountOfAt(t, q, j);
      assert r[j].name == q;
      CountOfAt(r, q, j);
    } else if q == k {
      assert forall j :: 0 <= j < |t| ==> !NamedAs(k)(t[j]);
      assert r[|t|].name == q;
      CountOfAt(r, q, |t|);
      CountOfAbsent(t, q);
    } else {
      assert forall j :: 0 <= j < |r| ==> r[j].name != q by {
        forall j | 0 <= j < |r| ensures r[j].name != q {
          if j < |t| { assert r[j].name == t[j].name; }
        }
      }
      CountOfAbsent(t, q);
      CountOfAbsent(r, q);
    }
  }

  lemma CountSnoc<T>(s: seq<T>, x: T, p: T -> bool)
    ensures Count(s + [x], p) == Count(s, p) + (if p(x) then 1 else 0)
  {
    FilterAppend(s, [x], p);
    FilterCons(x, [], p);
    assert [x] + [] == [x];
  }

  /** The tally's keys are distinct, every count is positive, the count under any key is the
      number of records carrying that labelOf, and the counts add up to the number of records. */
  lemma {:induction false} TallyFacts<T>(s: seq<T>, labelOf: T -> string)
    ensures var t := Tally(s, labelOf);
            DistinctEntryNames(t) && SumCounts(t) == |s| &&
            (forall i :: 0 <= i < |t| ==> t[i].count >= 1) &&
            (forall k :: CountOf(t, k) == Count(s, HasLabel(labelOf, k)))
    decreases |s|
  {
    if s != [] {
      var init, x := s[..|s| - 1], s[|s| - 1];
      assert s == init + [x];
      TallyFacts(init, labelOf);
      var t := Tally(init, labelOf);
      BumpShape(t, labelOf(x));
      forall k ensures CountOf(Tally(s, labelOf), k) == Count(s, HasLabel(labelOf, k)) {
        BumpCountOf(t, labelOf(x), k);
        CountSnoc(init, x, HasLabel(labelOf, k));
      }
    }
  }

  /** Each entry of a tally counts exactly the records carrying its name. */
  lemma TallyEntry<T>(s: seq<T>, labelOf: T -> string, i: int)
    requires 0 <= i < |Tally(s, labelOf)|
    ensures var t := Tally(s, labelOf);
            t[i].count == Count(s, HasLabel(labelOf, t[i].name)) && t[i].count >= 1
  {
    TallyFacts(s, labelOf);
    CountOfAt(Tally(s, labelOf), Tally(s, labelOf)[i].name, i);
  }

  // ---------------------------------------------------------------- workload chart

  /** `curr.manifestationPurpose || 'Outros'`: an absent or empty purpose falls under 'Outros',
      together with the purpose literally named so. */
  function PurposeLabel(d: Deadline): (r: string)
    ensures r == "Outros" <==> d.manifestationPurpose.None? || d.manifestationPurpose.value in {"", "Outros"}
    ensures r != "Outros" ==> d.manifestationPurpose == Some(r)
  {
    if d.manifestationPurpose.Some? && d.manifestationPurpose.value != "" then d.manifestationPurpose.value
    else "Outros"
  }

  /** `purposeCounts` over the active deadlines. */
  function PurposeTally(ds: seq<Deadline>): seq<Entry> {
    Tally(ActiveDeadlines(ds), PurposeLabel)
  }

  /** The purpose counts add up to the number of active deadlines, and each purpose's count is
      the number of active deadlines with that purpose. */
  lemma PurposeTallyFacts(ds: seq<Deadline>)
    ensures var t := PurposeTally(ds);
            SumCounts(t) == |ActiveDeadlines(ds)| && DistinctEntryNames(t) &&
            forall k :: CountOf(t, k) == Count(ActiveDeadlines(ds), HasLabel(PurposeLabel, k))
  {
    TallyFacts(ActiveDeadlines(ds), PurposeLabel);
  }

  /** `b.count - a.count`: larger counts first. */
  function WorkloadKey(e: Entry): seq<int> {
    [-(e.count as int)]
  }

  /** `workloadData`: the tally sorted by count, largest first (stable), cut to five rows. */
  function WorkloadData(ds: seq<Deadline>): seq<Entry> {
    Take(SortBy(PurposeTally(ds), WorkloadKey), 5)
  }

  lemma DescendingCounts(r: seq<Entry>)
    requires SortedBy(r, WorkloadKey)
    ensures forall i, j :: 0 <= i < j < |r| ==> r[i].count >= r[j].count
  {
    forall i, j | 0 <= i < j < |r| ensures r[i].count >= r[j].count {
      assert LexLe(WorkloadKey(r[i]), WorkloadKey(r[j]));
      var a, b := -(r[i].count as int), -(r[j].count as int);
      assert WorkloadKey(r[i]) == [a] + [] && WorkloadKey(r[j]) == [b] + [];
      LexLeCons(a, [], b, []);
    }
  }

  /** The chart shows five purposes, or all of them when there are fewer, in non-increasing
      count order, taken from the tally without repeating any entry. */
  lemma WorkloadFacts(ds: seq<Deadline>)
    ensures var t := PurposeTally(ds);
            var w := WorkloadData(ds);
            |w| == (if |t| < 5 then |t| else 5) &&
            (forall i, j :: 0 <= i < j < |w| ==> w[i].count >= w[j].count) &&
            (forall e :: e in w ==> e in t) && multiset(w) <= multiset(t)
  {
    var t := PurposeTally(ds);
    var r := SortBy(t, WorkloadKey);
    var w := WorkloadData(ds);
    SortByFacts(t, WorkloadKey);
    DescendingCounts(r);
    assert w == r[..|w|];
    assert r == w + r[|w|..];
    assert multiset(w) <= multiset(r);
    forall e | e in w ensures e in t {
      assert e in multiset(r);
    }
  }

  /** Every purpose left out of the chart has a count no larger than any purpose shown. */
  lemma WorkloadIsTopFive(ds: seq<Deadline>, e: Entry)
    requires e in PurposeTally(ds) && e !in WorkloadData(ds)
    ensures forall i :: 0 <= i < |WorkloadData(ds)| ==> WorkloadData(ds)[i].count >= e.count
  {
    var t := PurposeTally(ds);
    var r := SortBy(t, WorkloadKey);
    var w := WorkloadData(ds);
    SortByFacts(t, WorkloadKey);
    DescendingCounts(r);
    assert w == r[..|w|];
    assert e in multiset(r);
    var j :| 0 <= j < |r| && r[j] == e;
    assert j >= |w|;
  }

  // ---------------------------------------------------------------- system chart

  /** `curr.system || 'Outros'`: a record without a system is counted under 'Outros', a key
      none of the chart's rows reads. */
  function SystemLabel(d: Deadline): string {
    if d.system.Some? then d.system.value.Name() else "Outros"
  }

  /** `systemCounts` over the active deadlines. */
  function SystemTally(ds: seq<Deadline>): seq<Entry> {
    Tally(ActiveDeadlines(ds), SystemLabel)
  }

  function Positive(e: Entry): bool { e.count > 0 }

  /** `systemData`: PROJUDI, SEEU, and MPV with SEI merged into OUTROS, rows of value 0 left out. */
  function SystemData(ds: seq<Deadline>): seq<Entry> {
    Filter(SystemRows(SystemTally(ds)), Positive)
  }

  /** The three rows before zero rows are dropped: `systemCounts[name] || 0`, MPV and SEI added. */
  function SystemRows(t: seq<Entry>): seq<Entry> {
    [Entry("PROJUDI", CountOf(t, PROJUDI.Name())), Entry("SEEU", CountOf(t, SEEU.Name())),
     Entry("OUTROS", CountOf(t, MPV.Name()) + CountOf(t, SEI.Name()))]
  }

  function OnSystem(s: SystemType): Deadline -> bool {
    (d: Deadline) => d.system == Some(s)
  }

  function NoSystem(d: Deadline): bool { d.system.None? }

  /** Every deadline is on one of the four systems or on none. */
  lemma {:induction false} SystemsCover(s: seq<Deadline>)
    ensures Count(s, OnSystem(PROJUDI)) + Count(s, OnSystem(SEEU)) +
            Count(s, OnSystem(MPV)) + Count(s, OnSystem(SEI)) + Count(s, NoSystem) == |s|
  {
    if s != [] {
      SystemsCover(s[1..]);
      CountHead(s, OnSystem(PROJUDI));
      CountHead(s, OnSystem(SEEU));
      CountHead(s, OnSystem(MPV));
      CountHead(s, OnSystem(SEI));
      CountHead(s, NoSystem);
      var d := s[0];
      assert NoSystem(d) || OnSystem(PROJUDI)(d) || OnSystem(SEEU)(d) || OnSystem(MPV)(d) || OnSystem(SEI)(d) by {
        if d.system.Some? { AllSystemsComplete(d.system.value); }
      }
    }
  }

  lemma CountHead<T>(s: seq<T>, p: T -> bool)
    requires s != []
    ensures Count(s, p) == (if p(s[0]) then 1 else 0) + Count(s[1..], p)
  {
  }

  /** A record's label is a system's name exactly when it is on that system. */
  lemma LabelOnSystem(d: Deadline, sys: SystemType)
    ensures HasLabel(SystemLabel, sys.Name())(d) == OnSystem(sys)(d)
    ensures HasLabel(SystemLabel, "Outros")(d) == NoSystem(d)
  {
    assert HasLabel(SystemLabel, sys.Name())(d) == (SystemLabel(d) == sys.Name());
    assert HasLabel(SystemLabel, "Outros")(d) == (SystemLabel(d) == "Outros");
    assert OnSystem(sys)(d) == (d.system == Some(sys));
    assert sys.Name()[0] != 'O';
    if d.system.Some? && d.system.value != sys {
      var a := d.system.value;
      assert a.Name() != sys.Name() by {
        SystemTypeClosed();
        assert ParseSystem(a.Name()) == Some(a) && ParseSystem(sys.Name()) == Some(sys);
      }
      assert a.Name()[0] != 'O';
    }
  }

  /** The tally under a system's name counts the deadlines on that system. */
  lemma SystemCount(s: seq<Deadline>, sys: SystemType)
    ensures CountOf(Tally(s, SystemLabel), sys.Name()) == Count(s, OnSystem(sys))
  {
    forall d | d in s ensures (SystemLabel(d) == sys.Name()) == OnSystem(sys)(d) {
      LabelOnSystem(d, sys);
    }
    LabelCount(s, SystemLabel, sys.Name(), OnSystem(sys));
  }

  /** The tally under 'Outros' counts the deadlines without a system. */
  lemma SystemlessCount(s: seq<Deadline>)
    ensures CountOf(Tally(s, SystemLabel), "Outros") == Count(s, NoSystem)
  {
    forall d | d in s ensures (SystemLabel(d) == "Outros") == NoSystem(d) {
      LabelOnSystem(d, PROJUDI);
    }
    LabelCount(s, SystemLabel, "Outros", NoSystem);
  }

  /** The tally under `k` counts the elements a predicate picks, when it picks exactly those
      labelled `k`. */
  lemma LabelCount<T>(s: seq<T>, labelOf: T -> string, k: string, q: T -> bool)
    requires forall x :: x in s ==> (labelOf(x) == k) == q(x)
    ensures CountOf(Tally(s, labelOf), k) == Count(s, q)
  {
    TallyFacts(s, labelOf);
    forall x | x in s ensures HasLabel(labelOf, k)(x) == q(x) {
      assert HasLabel(labelOf, k)(x) == (labelOf(x) == k);
    }
    FilterCongruent(s, HasLabel(labelOf, k), q);
  }

  lemma {:induction false} SumPositive(t: seq<Entry>)
    ensures SumCounts(Filter(t, Positive)) == SumCounts(t)
  {
    if t != [] {
      var r, f := Filter(t, Positive), Filter(t[1..], Positive);
      SumPositive(t[1..]);
      if Positive(t[0]) {
        assert r == [t[0]] + f;
        assert r[0] == t[0] && r[1..] == f;
      } else {
        assert r == f;
      }
    }
  }

  /** Dropping the zero rows keeps the total and every positive row. */
  lemma PositiveRows(rows: seq<Entry>, e: Entry)
    ensures SumCounts(Filter(rows, Positive)) == SumCounts(rows)
    ensures e in Filter(rows, Positive) <==> e in rows && e.count > 0
  {
    SumPositive(rows);
    FilterMembership(rows, Positive, e);
  }

  lemma SumTwo(a: Entry, b: Entry)
    ensures SumCounts([a, b]) == a.count + b.count
  {
    assert [a, b][1..] == [b];
    assert SumCounts([b]) == b.count by {
      assert [b][1..] == [];
    }
  }

  lemma SumThree(a: Entry, b: Entry, c: Entry)
    ensures SumCounts([a, b, c]) == a.count + b.count + c.count
  {
    assert [a, b, c][1..] == [b, c];
    SumTwo(b, c);
  }

  /** Before zero rows are dropped, the rows count the deadlines of each system, MPV and SEI
      together. */
  lemma SystemRowCounts(active: seq<Deadline>)
    ensures var rows := SystemRows(Tally(active, SystemLabel));
            |rows| == 3 &&
            rows[0].count == Count(active, OnSystem(PROJUDI)) &&
            rows[1].count == Count(active, OnSystem(SEEU)) &&
            rows[2] == Entry("OUTROS", Count(active, OnSystem(MPV)) + Count(active, OnSystem(SEI)))
  {
    SystemCount(active, PROJUDI);
    SystemCount(active, SEEU);
    SystemCount(active, MPV);
    SystemCount(active, SEI);
  }

  /** The rows add up to the number of deadlines that carry a system. */
  lemma SystemRowsFacts(active: seq<Deadline>)
    ensures var rows := SystemRows(Tally(active, SystemLabel));
            |rows| == 3 && SumCounts(rows) + Count(active, NoSystem) == |active| &&
            rows[2] == Entry("OUTROS", Count(active, OnSystem(MPV)) + Count(active, OnSystem(SEI)))
  {
    var rows := SystemRows(Tally(active, SystemLabel));
    SystemRowCounts(active);
    SystemsCover(active);
    SumThree(rows[0], rows[1], rows[2]);
    assert rows == [rows[0], rows[1], rows[2]];
  }

  /** The system chart's values are positive, OUTROS counts the MPV and SEI deadlines, and the
      values add up to the number of active deadlines that carry a system: those without one
      are in no row. */
  lemma SystemDataFacts(ds: seq<Deadline>)
    ensures var sd := SystemData(ds);
            var active := ActiveDeadlines(ds);
            var others := Count(active, OnSystem(MPV)) + Count(active, OnSystem(SEI));
            |sd| <= 3 && (forall i :: 0 <= i < |sd| ==> sd[i].count > 0) &&
            SumCounts(sd) + Count(active, NoSystem) == |active| &&
            (Entry("OUTROS", others) in sd <==> others > 0)
  {
    var active := ActiveDeadlines(ds);
    var rows := SystemRows(SystemTally(ds));
    SystemRowsFacts(active);
    PositiveRows(rows, rows[2]);
  }

  // ---------------------------------------------------------------- defendant-status panel

  function WithDefendant(s: DefendantStatus): Deadline -> bool {
    (d: Deadline) => d.defendantStatus == s
  }

  /** `prisonData`: imprisoned and at-liberty counts over the active deadlines, zero rows left
      out. */
  function PrisonData(ds: seq<Deadline>): seq<Entry> {
    Filter(PrisonRows(ActiveDeadlines(ds)), Positive)
  }

  function PrisonRows(active: seq<Deadline>): seq<Entry> {
    [Entry(Imprisoned.Name(), Count(active, WithDefendant(Imprisoned))),
     Entry(AtLiberty.Name(), Count(active, WithDefendant(AtLiberty)))]
  }

  lemma {:induction false} DefendantsCover(s: seq<Deadline>)
    ensures Count(s, WithDefendant(Imprisoned)) + Count(s, WithDefendant(AtLiberty)) +
            Count(s, WithDefendant(NotInformed)) == |s|
  {
    if s != [] {
      DefendantsCover(s[1..]);
    }
  }

  /** The panel's values are positive and, with the active deadlines whose defendant status is
      not informed, add up to the number of active deadlines. */
  lemma PrisonDataFacts(ds: seq<Deadline>)
    ensures var pd := PrisonData(ds);
            var active := ActiveDeadlines(ds);
            |pd| <= 2 && (forall i :: 0 <= i < |pd| ==> pd[i].count > 0) &&
            SumCounts(pd) + Count(active, WithDefendant(NotInformed)) == |active|
  {
    var active := ActiveDeadlines(ds);
    var rows := PrisonRows(active);
    SumPositive(rows);
    SumTwo(rows[0], rows[1]);
    DefendantsCover(active);
  }

  // ---------------------------------------------------------------- upcoming deadlines

  /** `activeDeadlines.slice(0, 10)`. */
  function Upcoming(ds: seq<Deadline>): seq<Deadline> {
    Take(ActiveDeadlines(ds), 10)
  }

  /** The list holds the first ten active deadlines in collection order. Since the collection
      is kept in end-date order, they are ascending by end date and end no later than any
      active deadline left out. */
  lemma UpcomingFacts(ds: seq<Deadline>)
    requires C.EndDatesAscending(ds)
    ensures var u := Upcoming(ds);
            var active := ActiveDeadlines(ds);
            |u| == (if |active| < 10 then |active| else 10) && u == active[..|u|] &&
            C.EndDatesAscending(u) &&
            forall i, j :: 0 <= i < |u| <= j < |active| ==> u[i].endDate <= active[j].endDate
  {
    var active := ActiveDeadlines(ds);
    FilterKeepsAscending(ds, IsActiveDeadline, C.EndDate);
    assert forall i, j :: 0 <= i < j < |active| ==> active[i].endDate <= active[j].endDate by {
      forall i, j | 0 <= i < j < |active| ensures active[i].endDate <= active[j].endDate {
        assert C.EndDate(active[i]) <= C.EndDate(active[j]);
      }
    }
  }
}

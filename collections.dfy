/** The transformations the collection store applies to its three lists (App.tsx): import with
    de-duplication, update by id with a spread merge, delete by id, and the re-sort of deadlines
    by end date. Each is a total function of the previous list and its argument. */
module Collections {
  import opened Wrappers
  import opened Types
  import opened Seqs
  import opened Sorting
  import Text

  // ---------------------------------------------------------------- sorting deadlines

  /** The de-duplication key of a deadline: its process number with surrounding whitespace removed. */
  function Key(d: Deadline): string {
    Text.Trim(d.processNumber)
  }

  function EndDateKey(d: Deadline): seq<int> {
    [d.endDate]
  }

  function EndDate(d: Deadline): int { d.endDate }

  /** Deadlines in ascending end-date order. */
  predicate EndDatesAscending(s: seq<Deadline>) {
    AscendingBy(s, EndDate)
  }

  /** `sortDeadlines`: a stable sort by end date. */
  function SortDeadlines(s: seq<Deadline>): (r: seq<Deadline>)
    ensures |r| == |s|
  {
    SortBy(s, EndDateKey)
  }

  /** The sorted list is a permutation of the input, ascending by end date, and deadlines with
      equal end dates keep their relative order. */
  lemma SortDeadlinesFacts(s: seq<Deadline>)
    ensures var r := SortDeadlines(s);
            multiset(r) == multiset(s) &&
            (forall i, j :: 0 <= i < j < |r| ==> r[i].endDate <= r[j].endDate) &&
            SameOrderWithinKeys(r, s, EndDateKey)
  {
    SortByFacts(s, EndDateKey);
  }

  /** Sorting a list that is already in end-date order leaves it as it is. */
  lemma SortAscendingIsIdentity(s: seq<Deadline>)
    requires EndDatesAscending(s)
    ensures SortDeadlines(s) == s
  {
    forall i, j | 0 <= i < j < |s| ensures LexLe(EndDateKey(s[i]), EndDateKey(s[j])) {
      assert EndDate(s[i]) <= EndDate(s[j]);
      assert EndDateKey(s[i])[1..] == [];
    }
    SortSortedIsIdentity(s, EndDateKey);
  }

  // ---------------------------------------------------------------- importing deadlines

  /** `self.findIndex(t => key(t) === k)` */
  function FirstWithKey<T>(s: seq<T>, key: T -> string, k: string): (f: int)
    ensures -1 <= f < |s|
    ensures f == -1 <==> forall i :: 0 <= i < |s| ==> key(s[i]) != k
    ensures f != -1 ==> key(s[f]) == k && forall i :: 0 <= i < f ==> key(s[i]) != k
  {
    FindIndex(s, (t: T) => key(t) == k)
  }

  /** No item before index `i` has the key of the item at `i`. */
  predicate IsFirstOfKey<T>(s: seq<T>, key: T -> string, i: int)
    requires 0 <= i < |s|
  {
    forall j :: 0 <= j < i ==> key(s[j]) != key(s[i])
  }

  /** `index === self.findIndex(t => key(t) === key(item))` holds exactly for first items. */
  lemma FirstOfKeyIsFindIndex<T>(s: seq<T>, key: T -> string, i: int)
    requires 0 <= i < |s|
    ensures IsFirstOfKey(s, key, i) <==> FirstWithKey(s, key, key(s[i])) == i
  {
    var f := FirstWithKey(s, key, key(s[i]));
    assert f != -1 && f <= i;
  }

  function UniqueFrom<T>(s: seq<T>, key: T -> string, i: nat): seq<T>
    requires i <= |s|
    decreases |s| - i
  {
    if i == |s| then []
    else (if IsFirstOfKey(s, key, i) then [s[i]] else []) + UniqueFrom(s, key, i + 1)
  }

  /** `s.filter((item, index, self) => index === self.findIndex(t => key(t) === key(item)))` */
  function UniqueBy<T>(s: seq<T>, key: T -> string): seq<T> {
    UniqueFrom(s, key, 0)
  }

  /** The first pass of the deadline import: an item survives when it is the first of the
      batch with its trimmed process number. */
  function UniqueBatch(batch: seq<Deadline>): seq<Deadline> {
    UniqueBy(batch, Key)
  }

  /** The indices `UniqueFrom` keeps. */
  function KeptFrom<T>(s: seq<T>, key: T -> string, i: nat): seq<int>
    requires i <= |s|
    decreases |s| - i
  {
    if i == |s| then []
    else (if IsFirstOfKey(s, key, i) then [i] else []) + KeptFrom(s, key, i + 1)
  }

  lemma KeptFromFacts<T>(s: seq<T>, key: T -> string, i: nat)
    requires i <= |s|
    ensures var k := KeptFrom(s, key, i);
            |UniqueFrom(s, key, i)| == |k| &&
            (forall p :: 0 <= p < |k| ==> i <= k[p] < |s| && IsFirstOfKey(s, key, k[p]) &&
                                          UniqueFrom(s, key, i)[p] == s[k[p]]) &&
            (forall p, q :: 0 <= p < q < |k| ==> k[p] < k[q]) &&
            (forall j :: i <= j < |s| && IsFirstOfKey(s, key, j) ==> j in k)
  {
    KeptFromValues(s, key, i);
    KeptFromAscending(s, key, i);
    KeptFromComplete(s, key, i);
  }

  /** Each kept index is a first occurrence at or after `i`, and holds the item kept there. */
  lemma {:induction false} KeptFromValues<T>(s: seq<T>, key: T -> string, i: nat)
    requires i <= |s|
    ensures var k := KeptFrom(s, key, i);
            |UniqueFrom(s, key, i)| == |k| &&
            (forall p :: 0 <= p < |k| ==> i <= k[p] < |s| && IsFirstOfKey(s, key, k[p]) &&
                                          UniqueFrom(s, key, i)[p] == s[k[p]])
    decreases |s| - i
  {
    if i < |s| {
      KeptFromValues(s, key, i + 1);
      var k, k' := KeptFrom(s, key, i), KeptFrom(s, key, i + 1);
      var u, u' := UniqueFrom(s, key, i), UniqueFrom(s, key, i + 1);
      if IsFirstOfKey(s, key, i) {
        assert k == [i] + k' && u == [s[i]] + u';
        forall p | 1 <= p < |k| ensures k[p] == k'[p - 1] && u[p] == u'[p - 1] { }
      } else {
        assert k == k' && u == u';
      }
    }
  }

  /** The kept indices lie in `i..|s|`. */
  lemma {:induction false} KeptFromBounds<T>(s: seq<T>, key: T -> string, i: nat)
    requires i <= |s|
    ensures forall p :: 0 <= p < |KeptFrom(s, key, i)| ==> i <= KeptFrom(s, key, i)[p] < |s|
    decreases |s| - i
  {
    if i < |s| {
      KeptFromBounds(s, key, i + 1);
      var k, k' := KeptFrom(s, key, i), KeptFrom(s, key, i + 1);
      if IsFirstOfKey(s, key, i) {
        assert k == [i] + k';
        forall p | 0 < p < |k| ensures i <= k[p] < |s| {
          assert k[p] == k'[p - 1];
        }
      } else {
        assert k == k';
      }
    }
  }

  /** The kept indices are strictly ascending. */
  lemma {:induction false} KeptFromAscending<T>(s: seq<T>, key: T -> string, i: nat)
    requires i <= |s|
    ensures forall p, q :: 0 <= p < q < |KeptFrom(s, key, i)| ==> KeptFrom(s, key, i)[p] < KeptFrom(s, key, i)[q]
    decreases |s| - i
  {
    if i < |s| {
      KeptFromAscending(s, key, i + 1);
      KeptFromBounds(s, key, i + 1);
      var k, k' := KeptFrom(s, key, i), KeptFrom(s, key, i + 1);
      if IsFirstOfKey(s, key, i) {
        assert k == [i] + k';
        forall p, q | 0 <= p < q < |k| ensures k[p] < k[q] {
          assert k[q] == k'[q - 1] && i + 1 <= k'[q - 1];
          if p > 0 {
            assert k[p] == k'[p - 1];
          } else {
            assert k[p] == i;
          }
        }
      } else {
        assert k == k';
        forall p, q | 0 <= p < q < |k| ensures k[p] < k[q] {
          assert k[p] == k'[p] && k[q] == k'[q];
        }
      }
    }
  }

  /** Every first occurrence at or after `i` is kept. */
  lemma {:induction false} KeptFromComplete<T>(s: seq<T>, key: T -> string, i: nat)
    requires i <= |s|
    ensures var k := KeptFrom(s, key, i);
            forall j :: i <= j < |s| && IsFirstOfKey(s, key, j) ==> j in k
    decreases |s| - i
  {
    if i < |s| {
      KeptFromComplete(s, key, i + 1);
      var k, k' := KeptFrom(s, key, i), KeptFrom(s, key, i + 1);
      if IsFirstOfKey(s, key, i) {
        assert k == [i] + k';
      } else {
        assert k == k';
      }
    }
  }

  lemma {:induction false} UniqueFromSubsequence<T>(s: seq<T>, key: T -> string, i: nat)
    requires i <= |s|
    ensures IsSubsequence(UniqueFrom(s, key, i), s[i..])
    decreases |s| - i
  {
    if i < |s| {
      UniqueFromSubsequence(s, key, i + 1);
      var t := UniqueFrom(s, key, i + 1);
      assert s[i..] == [s[i]] + s[i + 1..];
      if IsFirstOfKey(s, key, i) {
        assert UniqueFrom(s, key, i) == [s[i]] + t;
        assert ([s[i]] + t)[1..] == t;
      } else {
        assert UniqueFrom(s, key, i) == t;
        SubsequenceCons(t, s[i], s[i + 1..]);
      }
    }
  }

  /** First occurrence wins: the surviving items are a subsequence of the batch with pairwise
      distinct keys, each the first item of the batch with its key, and every key of the batch
      is represented. */
  lemma UniqueByFacts<T>(s: seq<T>, key: T -> string)
    ensures var r := UniqueBy(s, key);
            IsSubsequence(r, s) &&
            (forall p :: 0 <= p < |r| ==>
               0 <= FirstWithKey(s, key, key(r[p])) && r[p] == s[FirstWithKey(s, key, key(r[p]))]) &&
            (forall p, q :: 0 <= p < q < |r| ==> key(r[p]) != key(r[q])) &&
            (forall j :: 0 <= j < |s| ==> s[FirstWithKey(s, key, key(s[j]))] in r)
  {
    var r := UniqueBy(s, key);
    var k := KeptFrom(s, key, 0);
    UniqueFromSubsequence(s, key, 0);
    assert s[0..] == s;
    KeptFromFacts(s, key, 0);
    forall p | 0 <= p < |r|
      ensures 0 <= FirstWithKey(s, key, key(r[p])) && r[p] == s[FirstWithKey(s, key, key(r[p]))]
    {
      FirstOfKeyIsFindIndex(s, key, k[p]);
    }
    forall p, q | 0 <= p < q < |r| ensures key(r[p]) != key(r[q]) {
      assert k[p] < k[q] && IsFirstOfKey(s, key, k[q]);
    }
    forall j | 0 <= j < |s| ensures s[FirstWithKey(s, key, key(s[j]))] in r {
      var f := FirstWithKey(s, key, key(s[j]));
      FirstOfKeyIsFindIndex(s, key, f);
      var p :| 0 <= p < |k| && k[p] == f;
      assert r[p] == s[f];
    }
  }

  /** Some record of `store` with `active` set has key `k` (`activeDeadlines.some(...)`). */
  predicate HasActiveWith<T>(store: seq<T>, key: T -> string, active: T -> bool, k: string) {
    exists i :: 0 <= i < |store| && active(store[i]) && key(store[i]) == k
  }

  /** The second pass: the first-occurrence items whose key no active record carries. */
  function SurvivorsBy<T>(store: seq<T>, batch: seq<T>, key: T -> string, active: T -> bool): seq<T> {
    Filter(UniqueBy(batch, key), (x: T) => !HasActiveWith(store, key, active, key(x)))
  }

  /** Nothing changes when no item survives; otherwise the survivors are appended and the whole
      list stably re-sorted. */
  function ImportBy<T>(store: seq<T>, batch: seq<T>, key: T -> string, active: T -> bool,
                       sortKey: T -> seq<int>): (r: seq<T>)
    ensures SurvivorsBy(store, batch, key, active) == [] ==> r == store
    ensures |r| == |store| + |SurvivorsBy(store, batch, key, active)|
  {
    var sv := SurvivorsBy(store, batch, key, active);
    if |sv| > 0 then SortBy(store + sv, sortKey) else store
  }

  function Survivors(store: seq<Deadline>, batch: seq<Deadline>): seq<Deadline> {
    SurvivorsBy(store, batch, Key, IsActive)
  }

  /** `handleImportDeadlines`. */
  function ImportDeadlines(store: seq<Deadline>, batch: seq<Deadline>): (r: seq<Deadline>)
    ensures Survivors(store, batch) == [] ==> r == store
    ensures |r| == |store| + |Survivors(store, batch)|
  {
    ImportBy(store, batch, Key, IsActive, EndDateKey)
  }

  /** An item of the batch survives exactly when it is the first with its key and no active
      record of the store has that key. */
  lemma SurvivorsExact<T>(store: seq<T>, batch: seq<T>, key: T -> string, active: T -> bool, x: T)
    ensures x in SurvivorsBy(store, batch, key, active) <==>
              x in UniqueBy(batch, key) && !HasActiveWith(store, key, active, key(x))
  {
    FilterMembership(UniqueBy(batch, key), (x: T) => !HasActiveWith(store, key, active, key(x)), x);
  }

  /** After a deadline import the list is a permutation of the old list followed by the
      survivors, sorted by end date, with equal end dates in their old relative order. */
  lemma ImportDeadlinesFacts(store: seq<Deadline>, batch: seq<Deadline>)
    ensures var sv := Survivors(store, batch);
            var r := ImportDeadlines(store, batch);
            multiset(r) == multiset(store) + multiset(sv) &&
            (sv != [] ==> (forall i, j :: 0 <= i < j < |r| ==> r[i].endDate <= r[j].endDate) &&
                          SameOrderWithinKeys(r, store + sv, EndDateKey))
  {
    var sv := Survivors(store, batch);
    SortDeadlinesFacts(store + sv);
  }

  /** Archived records never block an import: adding archived records to the store does not
      change which items survive. */
  lemma ArchivedNeverBlock<T>(store: seq<T>, archived: seq<T>, batch: seq<T>, key: T -> string, active: T -> bool)
    requires forall i :: 0 <= i < |archived| ==> !active(archived[i])
    ensures SurvivorsBy(store + archived, batch, key, active) == SurvivorsBy(store, batch, key, active)
  {
    var both := store + archived;
    forall k ensures HasActiveWith(both, key, active, k) == HasActiveWith(store, key, active, k) {
      if HasActiveWith(both, key, active, k) {
        var i :| 0 <= i < |both| && active(both[i]) && key(both[i]) == k;
        assert i < |store| && both[i] == store[i];
      }
      if HasActiveWith(store, key, active, k) {
        var i :| 0 <= i < |store| && active(store[i]) && key(store[i]) == k;
        assert both[i] == store[i];
      }
    }
    FilterCongruent(UniqueBy(batch, key), (x: T) => !HasActiveWith(both, key, active, key(x)),
                    (x: T) => !HasActiveWith(store, key, active, key(x)));
  }

  /** The imported list holds every old record and every survivor. */
  lemma ImportContains<T>(store: seq<T>, batch: seq<T>, key: T -> string, active: T -> bool,
                          sortKey: T -> seq<int>)
    ensures var once := ImportBy(store, batch, key, active, sortKey);
            (forall x :: x in store ==> x in once) &&
            (forall x :: x in SurvivorsBy(store, batch, key, active) ==> x in once)
  {
    var sv := SurvivorsBy(store, batch, key, active);
    if |sv| > 0 {
      SortByFacts(store + sv, sortKey);
      var once := SortBy(store + sv, sortKey);
      forall x | x in store + sv ensures x in once {
        assert x in multiset(store + sv);
      }
    }
  }

  /** After an import of active records, the key of every first-occurrence item of the batch is
      held by an active record of the store. */
  lemma ImportHoldsBatchKeys<T>(store: seq<T>, batch: seq<T>, key: T -> string, active: T -> bool,
                                sortKey: T -> seq<int>, y: T)
    requires forall i :: 0 <= i < |batch| ==> active(batch[i])
    requires y in UniqueBy(batch, key)
    ensures HasActiveWith(ImportBy(store, batch, key, active, sortKey), key, active, key(y))
  {
    var once := ImportBy(store, batch, key, active, sortKey);
    var ub := UniqueBy(batch, key);
    ImportContains(store, batch, key, active, sortKey);
    UniqueByFacts(batch, key);
    var p :| 0 <= p < |ub| && ub[p] == y;
    var f := FirstWithKey(batch, key, key(y));
    assert y == batch[f] && active(y);
    if HasActiveWith(store, key, active, key(y)) {
      var i :| 0 <= i < |store| && active(store[i]) && key(store[i]) == key(y);
      assert store[i] in once;
      var j :| 0 <= j < |once| && once[j] == store[i];
    } else {
      SurvivorsExact(store, batch, key, active, y);
      assert y in once;
      var j :| 0 <= j < |once| && once[j] == y;
    }
  }

  /** Importing the same batch of active records a second time changes nothing: every key it
      carries is then held by an active record of the store. */
  lemma ReimportUnchanged<T>(store: seq<T>, batch: seq<T>, key: T -> string, active: T -> bool,
                             sortKey: T -> seq<int>)
    requires forall i :: 0 <= i < |batch| ==> active(batch[i])
    ensures var once := ImportBy(store, batch, key, active, sortKey);
            ImportBy(once, batch, key, active, sortKey) == once
  {
    var once := ImportBy(store, batch, key, active, sortKey);
    var ub := UniqueBy(batch, key);
    forall y | y in ub ensures HasActiveWith(once, key, active, key(y)) {
      ImportHoldsBatchKeys(store, batch, key, active, sortKey, y);
    }
    FilterNone(ub, (x: T) => !HasActiveWith(once, key, active, key(x)));
  }

  // ---------------------------------------------------------------- updates

  /** Spread semantics for an optional property: present in the update wins, absent keeps.
      `None` stands for a property the update does not carry; spread would copy a property that
      is present with the value `undefined`, which no caller of the update handlers builds. */
  function Over<T>(old_: Option<T>, upd: Option<T>): (r: Option<T>)
    ensures upd.Some? ==> r == upd
    ensures upd.None? ==> r == old_
  {
    if upd.Some? then upd else old_
  }

  /** `{ ...item, ...updated }` on deadlines. */
  function MergeDeadline(item: Deadline, u: Deadline): Deadline {
    Deadline(
      u.id, u.processNumber, Over(item.courtDivision, u.courtDivision), Over(item.system, u.system),
      Over(item.proceduralClass, u.proceduralClass), Over(item.mainSubject, u.mainSubject),
      Over(item.manifestationPurpose, u.manifestationPurpose), u.defendantStatus,
      u.prosecutorOffice, u.deadlineDuration, u.startDate, u.endDate, u.priority, u.status,
      Over(item.isArchived, u.isArchived), Over(item.advisorDraftType, u.advisorDraftType),
      Over(item.advisorStatus, u.advisorStatus), Over(item.promoterDecision, u.promoterDecision),
      Over(item.returnReason, u.returnReason), Over(item.instruction, u.instruction),
      Over(item.parties, u.parties))
  }

  /** `{ ...item, ...updated }` on hearings. */
  function MergeAudience(item: Audience, u: Audience): Audience {
    Audience(
      u.id, u.processNumber, Over(item.system, u.system), Over(item.courtDivision, u.courtDivision),
      Over(item.proceduralClass, u.proceduralClass), Over(item.mainSubject, u.mainSubject),
      u.date, u.time, u.hearingType, u.mode, Over(item.parties, u.parties), u.status,
      Over(item.link, u.link), Over(item.notes, u.notes))
  }

  /** `{ ...p, ...updated }` on administrative procedures. */
  function MergeAdmin(item: AdministrativeProcess, u: AdministrativeProcess): AdministrativeProcess {
    AdministrativeProcess(
      u.id, u.procedureNumber, u.proceduralClass, u.mainSubject, Over(item.originNumber, u.originNumber),
      u.currentSector, u.registrationDate, u.secrecyLevel, u.legalDeadline, u.cnmpDeadline,
      u.status, u.interestedParties, u.isArchived, Over(item.notes, u.notes))
  }

  /** Merging is idempotent, a record merged with itself is unchanged, and a merged record
      carries the update's id. */
  lemma MergeFacts(item: Deadline, u: Deadline, a: Audience, v: Audience,
                   p: AdministrativeProcess, w: AdministrativeProcess)
    ensures MergeDeadline(item, item) == item && MergeDeadline(MergeDeadline(item, u), u) == MergeDeadline(item, u)
    ensures MergeDeadline(item, u).id == u.id
    ensures MergeAudience(a, a) == a && MergeAudience(MergeAudience(a, v), v) == MergeAudience(a, v)
    ensures MergeAudience(a, v).id == v.id
    ensures MergeAdmin(p, p) == p && MergeAdmin(MergeAdmin(p, w), w) == MergeAdmin(p, w)
    ensures MergeAdmin(p, w).id == w.id
  {
  }

  /** `prev.map(item => { const u = updates.find(u => u.id === item.id); return u ? merge(item, u) : item; })` */
  function ApplyUpdates<T>(prev: seq<T>, updates: seq<T>, id: T -> string, merge: (T, T) -> T): (r: seq<T>)
    ensures |r| == |prev|
    ensures forall i :: 0 <= i < |prev| ==>
              var k := FindIndex(updates, (u: T) => id(u) == id(prev[i]));
              (k == -1 ==> r[i] == prev[i]) && (k != -1 ==> r[i] == merge(prev[i], updates[k]))
  {
    seq(|prev|, i requires 0 <= i < |prev| =>
      var k := FindIndex(updates, (u: T) => id(u) == id(prev[i]));
      if k == -1 then prev[i] else merge(prev[i], updates[k]))
  }

  /** Updating keeps every position's id when the merge of two equal-id records keeps that
      id, and leaves a record that no update names as it was. */
  lemma ApplyUpdatesFacts<T>(prev: seq<T>, updates: seq<T>, id: T -> string, merge: (T, T) -> T)
    requires forall a, b :: id(a) == id(b) ==> id(merge(a, b)) == id(b)
    ensures var r := ApplyUpdates(prev, updates, id, merge);
            (forall i :: 0 <= i < |r| ==> id(r[i]) == id(prev[i])) &&
            (forall i :: 0 <= i < |r| && (forall u :: u in updates ==> id(u) != id(prev[i])) ==> r[i] == prev[i])
  {
    var r := ApplyUpdates(prev, updates, id, merge);
    forall i | 0 <= i < |r| ensures id(r[i]) == id(prev[i]) {
      var k := FindIndex(updates, (u: T) => id(u) == id(prev[i]));
      if k != -1 {
        assert id(updates[k]) == id(prev[i]);
      }
    }
    forall i | 0 <= i < |r| && (forall u :: u in updates ==> id(u) != id(prev[i])) ensures r[i] == prev[i] {
      forall j | 0 <= j < |updates| ensures id(updates[j]) != id(prev[i]) {
        assert updates[j] in updates;
      }
    }
  }

  /** The ids of a list are pairwise distinct. */
  predicate DistinctIds<T>(s: seq<T>, id: T -> string) {
    forall a, b :: 0 <= a < b < |s| ==> id(s[a]) != id(s[b])
  }

  /** A single update naming the id of one record of a list with distinct ids merges into that
      record and touches no other. */
  lemma ApplySingleUpdate<T>(prev: seq<T>, u: T, id: T -> string, merge: (T, T) -> T, i: int)
    requires DistinctIds(prev, id) && 0 <= i < |prev| && id(u) == id(prev[i])
    ensures ApplyUpdates(prev, [u], id, merge) == prev[i := merge(prev[i], u)]
  {
    var r := ApplyUpdates(prev, [u], id, merge);
    forall k | 0 <= k < |prev| ensures r[k] == prev[i := merge(prev[i], u)][k] {
      var f := FindIndex([u], (x: T) => id(x) == id(prev[k]));
      if k == i {
        assert f == 0;
      } else {
        assert id(prev[k]) != id(prev[i]);
        assert f == -1;
      }
    }
  }

  /** Position-wise equal ids give equal id sets, and so does a permutation. */
  lemma IdSets<T>(a: seq<T>, b: seq<T>, c: seq<T>, id: T -> string)
    requires |a| == |b| && forall i :: 0 <= i < |a| ==> id(a[i]) == id(b[i])
    requires multiset(c) == multiset(a)
    ensures (set x | x in c :: id(x)) == (set x | x in b :: id(x))
  {
    forall x | x in c ensures id(x) in (set y | y in b :: id(y)) {
      assert x in multiset(a);
      var i :| 0 <= i < |a| && a[i] == x;
      assert b[i] in b;
    }
    forall y | y in b ensures id(y) in (set x | x in c :: id(x)) {
      var i :| 0 <= i < |b| && b[i] == y;
      assert a[i] in multiset(c);
    }
  }

  function DeadlineId(d: Deadline): string { d.id }

  lemma MergeKeepsIds()
    ensures forall a, b :: DeadlineId(MergeDeadline(a, b)) == DeadlineId(b)
    ensures forall a, b :: AudienceId(MergeAudience(a, b)) == AudienceId(b)
    ensures forall a, b :: AdminId(MergeAdmin(a, b)) == AdminId(b)
  {
  }

  function AudienceId(a: Audience): string { a.id }
  function AdminId(p: AdministrativeProcess): string { p.id }

  /** `handleUpdateDeadlines`: merge, then re-sort by end date. */
  function UpdateDeadlines(prev: seq<Deadline>, updates: seq<Deadline>): (r: seq<Deadline>)
    ensures |r| == |prev|
  {
    SortDeadlines(ApplyUpdates(prev, updates, DeadlineId, MergeDeadline))
  }

  /** Updating deadlines yields the merged list, permuted into end-date order. */
  lemma UpdateDeadlinesSorted(prev: seq<Deadline>, updates: seq<Deadline>)
    ensures var r := UpdateDeadlines(prev, updates);
            multiset(r) == multiset(ApplyUpdates(prev, updates, DeadlineId, MergeDeadline)) &&
            forall i, j :: 0 <= i < j < |r| ==> r[i].endDate <= r[j].endDate
  {
    SortDeadlinesFacts(ApplyUpdates(prev, updates, DeadlineId, MergeDeadline));
  }

  /** Merging and then re-sorting keeps the set of ids: no update with an unknown id is
      inserted and no record is lost. */
  lemma UpdateKeepsIdSet<T>(prev: seq<T>, updates: seq<T>, id: T -> string, merge: (T, T) -> T,
                            sortKey: T -> seq<int>)
    requires forall a, b :: id(a) == id(b) ==> id(merge(a, b)) == id(b)
    ensures (set x | x in SortBy(ApplyUpdates(prev, updates, id, merge), sortKey) :: id(x)) ==
            (set x | x in prev :: id(x))
  {
    var m := ApplyUpdates(prev, updates, id, merge);
    SortByFacts(m, sortKey);
    ApplyUpdatesFacts(prev, updates, id, merge);
    IdSets(m, prev, SortBy(m, sortKey), id);
  }

  /** `handleUpdateAudiences`: merge in place, order kept. */
  function UpdateAudiences(prev: seq<Audience>, updates: seq<Audience>): (r: seq<Audience>)
    ensures |r| == |prev|
    ensures forall i :: 0 <= i < |r| ==> r[i].id == prev[i].id
  {
    MergeKeepsIds();
    ApplyUpdatesFacts(prev, updates, AudienceId, MergeAudience);
    ApplyUpdates(prev, updates, AudienceId, MergeAudience)
  }

  /** `handleUpdateAdmin`: merge in place, order kept. */
  function UpdateAdmin(prev: seq<AdministrativeProcess>, updates: seq<AdministrativeProcess>): (r: seq<AdministrativeProcess>)
    ensures |r| == |prev|
    ensures forall i :: 0 <= i < |r| ==> r[i].id == prev[i].id
  {
    MergeKeepsIds();
    ApplyUpdatesFacts(prev, updates, AdminId, MergeAdmin);
    ApplyUpdates(prev, updates, AdminId, MergeAdmin)
  }

  // ---------------------------------------------------------------- deletes

  /** The records whose id is `target`. */
  function IdIs<T>(id: T -> string, target: string): T -> bool {
    (x: T) => id(x) == target
  }

  /** `prev.filter(x => x.id !== target)` */
  function RemoveById<T>(prev: seq<T>, target: string, id: T -> string): (r: seq<T>)
    ensures forall i :: 0 <= i < |r| ==> id(r[i]) != target
  {
    Filter(prev, (x: T) => id(x) != target)
  }

  /** Delete removes exactly the records with the given id and keeps the others in order; the
      length drops by the number of records that had the id. */
  lemma RemoveByIdFacts<T>(prev: seq<T>, target: string, id: T -> string)
    ensures var r := RemoveById(prev, target, id);
            IsSubsequence(r, prev) &&
            (forall x :: x in prev && id(x) != target ==> x in r) &&
            |r| + Count(prev, IdIs(id, target)) == |prev|
  {
    var r := RemoveById(prev, target, id);
    FilterIsSubsequence(prev, (x: T) => id(x) != target);
    forall x | x in prev && id(x) != target ensures x in r {
      FilterMembership(prev, (x: T) => id(x) != target, x);
    }
    FilterComplement(prev, (x: T) => id(x) != target, IdIs(id, target));
  }

  /** Deleting an id that the record at the front carries, and no record behind it does,
      removes exactly that front record. */
  lemma RemoveFreshFront<T>(x: T, prev: seq<T>, id: T -> string)
    requires forall i :: 0 <= i < |prev| ==> id(prev[i]) != id(x)
    ensures RemoveById([x] + prev, id(x), id) == prev
  {
    var p := (y: T) => id(y) != id(x);
    FilterCons(x, prev, p);
    FilterAll(prev, p);
  }

  /** Deleting keeps the remaining records in their order, so a list ascending by some key
      stays ascending. */
  lemma RemoveByIdKeepsAscending<T>(prev: seq<T>, target: string, id: T -> string, key: T -> int)
    requires AscendingBy(prev, key)
    ensures AscendingBy(RemoveById(prev, target, id), key)
  {
    FilterKeepsAscending(prev, (x: T) => id(x) != target, key);
  }

  function DeleteDeadline(prev: seq<Deadline>, target: string): seq<Deadline> {
    RemoveById(prev, target, DeadlineId)
  }

  function DeleteAudience(prev: seq<Audience>, target: string): seq<Audience> {
    RemoveById(prev, target, AudienceId)
  }

  function DeleteAdmin(prev: seq<AdministrativeProcess>, target: string): seq<AdministrativeProcess> {
    RemoveById(prev, target, AdminId)
  }

  // ---------------------------------------------------------------- other imports

  /** `handleImportAudiences`: every new hearing is appended, without any check. */
  function ImportAudiences(prev: seq<Audience>, batch: seq<Audience>): (r: seq<Audience>)
    ensures |r| == |prev| + |batch|
    ensures r[..|prev|] == prev && r[|prev|..] == batch
  {
    prev + batch
  }

  /** Some existing procedure, archived or not, has exactly this procedure number. */
  predicate HasProcedureNumber(prev: seq<AdministrativeProcess>, n: string) {
    exists i :: 0 <= i < |prev| && prev[i].procedureNumber == n
  }

  /** `handleImportAdmin`: a new procedure is dropped when its untrimmed number equals that of
      any existing one; there is no pass within the batch. */
  function ImportAdmin(prev: seq<AdministrativeProcess>, batch: seq<AdministrativeProcess>): (r: seq<AdministrativeProcess>)
    ensures |prev| <= |r| <= |prev| + |batch| && r[..|prev|] == prev
  {
    prev + Filter(batch, (np: AdministrativeProcess) => !HasProcedureNumber(prev, np.procedureNumber))
  }

  /** A batch procedure is added exactly when no existing procedure has its number, and what is
      added keeps the batch's order. */
  lemma ImportAdminExact(prev: seq<AdministrativeProcess>, batch: seq<AdministrativeProcess>, x: AdministrativeProcess)
    requires x in batch
    ensures var added := ImportAdmin(prev, batch)[|prev|..];
            added == Filter(batch, (np: AdministrativeProcess) => !HasProcedureNumber(prev, np.procedureNumber)) &&
            IsSubsequence(added, batch) &&
            (x in added <==> !HasProcedureNumber(prev, x.procedureNumber))
  {
    var p := (np: AdministrativeProcess) => !HasProcedureNumber(prev, np.procedureNumber);
    assert ImportAdmin(prev, batch)[|prev|..] == Filter(batch, p);
    FilterMembership(batch, p, x);
    FilterIsSubsequence(batch, p);
  }

  /** Two new procedures with the same number in one batch are both added. */
  lemma AdminKeepsBatchDuplicates(prev: seq<AdministrativeProcess>, a: AdministrativeProcess, b: AdministrativeProcess)
    requires a.procedureNumber == b.procedureNumber && !HasProcedureNumber(prev, a.procedureNumber)
    ensures ImportAdmin(prev, [a, b]) == prev + [a, b]
  {
    var batch := [a, b];
    assert batch[0] == a && batch[1] == b;
    FilterAll(batch, (np: AdministrativeProcess) => !HasProcedureNumber(prev, np.procedureNumber));
  }

  /** Whereas of two batch items with the same key only the first survives the first pass. */
  lemma UniqueByKeepsFirst<T>(d: T, e: T, key: T -> string)
    requires key(d) == key(e)
    ensures UniqueBy([d, e], key) == [d]
  {
    var s := [d, e];
    assert s[0] == d && s[1] == e;
    assert !IsFirstOfKey(s, key, 1);
    assert UniqueFrom(s, key, 1) == [];
  }
}

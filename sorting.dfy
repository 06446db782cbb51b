/** Stable sorting, as JavaScript's `Array.prototype.sort` has been required to be since ES2019.
    Every comparator the application passes to `sort` compares a key: a number (a time value,
    a count) possibly followed by a string, so the model sorts by a key of type `seq<int>`
    under lexicographic order. The sort is specified by three facts — sorted, a permutation,
    and for every key the records carrying it keep their relative order — and `SortedUnique`
    shows those facts determine the result, so any stable sort (the engine's TimSort or the
    insertion sort below) gives the same sequence. */
module Sorting {

  /** Lexicographic order on integer sequences (a proper prefix comes first). */
  predicate LexLe(a: seq<int>, b: seq<int>)
    decreases |a|
  {
    if a == [] then true
    else if b == [] then false
    else a[0] < b[0] || (a[0] == b[0] && LexLe(a[1..], b[1..]))
  }

  lemma {:induction false} LexLeTotal(a: seq<int>, b: seq<int>)
    ensures LexLe(a, b) || LexLe(b, a)
    decreases |a|
  {
    if a != [] && b != [] && a[0] == b[0] {
      LexLeTotal(a[1..], b[1..]);
    }
  }

  lemma {:induction false} LexLeAntisymmetric(a: seq<int>, b: seq<int>)
    requires LexLe(a, b) && LexLe(b, a)
    ensures a == b
    decreases |a|
  {
    if a != [] {
      LexLeAntisymmetric(a[1..], b[1..]);
      assert a == [a[0]] + a[1..] && b == [b[0]] + b[1..];
    }
  }

  lemma {:induction false} LexLeTransitive(a: seq<int>, b: seq<int>, c: seq<int>)
    requires LexLe(a, b) && LexLe(b, c)
    ensures LexLe(a, c)
    decreases |a|
  {
    if a != [] && a[0] == b[0] && b[0] == c[0] {
      LexLeTransitive(a[1..], b[1..], c[1..]);
    }
  }

  /** Keys that start with a number are ordered by that number first, then by the rest. */
  lemma LexLeCons(a: int, x: seq<int>, b: int, y: seq<int>)
    requires LexLe([a] + x, [b] + y)
    ensures a <= b && (a == b ==> LexLe(x, y))
  {
    assert ([a] + x)[1..] == x && ([b] + y)[1..] == y;
  }

  /** Every element's key is at most the key of every later element. */
  ghost predicate SortedBy<T>(s: seq<T>, key: T -> seq<int>) {
    forall i, j :: 0 <= i < j < |s| ==> LexLe(key(s[i]), key(s[j]))
  }

  /** The elements of `s` whose key is `k`, in order: one equivalence class of the comparator. */
  function WithKey<T>(s: seq<T>, key: T -> seq<int>, k: seq<int>): (r: seq<T>)
    ensures |r| <= |s|
    ensures forall i :: 0 <= i < |r| ==> key(r[i]) == k
  {
    if s == [] then []
    else (if key(s[0]) == k then [s[0]] else []) + WithKey(s[1..], key, k)
  }

  lemma WithKeyCons<T>(h: T, rest: seq<T>, key: T -> seq<int>, k: seq<int>)
    ensures WithKey([h] + rest, key, k) == (if key(h) == k then [h] else []) + WithKey(rest, key, k)
  {
    assert ([h] + rest)[0] == h && ([h] + rest)[1..] == rest;
  }

  /** Stability: for every key, the records carrying it appear in the same relative order. */
  ghost predicate SameOrderWithinKeys<T>(r: seq<T>, s: seq<T>, key: T -> seq<int>) {
    forall k :: WithKey(r, key, k) == WithKey(s, key, k)
  }

  /** Insert `x`, which came before every element of `t`, in front of the first element whose
      key is not smaller than its own. */
  function Insert<T>(x: T, t: seq<T>, key: T -> seq<int>): (r: seq<T>)
    ensures |r| == |t| + 1
  {
    if t == [] then [x]
    else if LexLe(key(x), key(t[0])) then [x] + t
    else [t[0]] + Insert(x, t[1..], key)
  }

  /** `[...s].sort(cmp)` for a comparator that orders by `key`. */
  function SortBy<T>(s: seq<T>, key: T -> seq<int>): (r: seq<T>)
    ensures |r| == |s|
  {
    if s == [] then [] else Insert(s[0], SortBy(s[1..], key), key)
  }

  lemma {:induction false} LexLeReflexive(a: seq<int>)
    ensures LexLe(a, a)
    decreases |a|
  {
    if a != [] { LexLeReflexive(a[1..]); }
  }

  /** When `x` is not placed first, the head of `t` has a strictly smaller key. */
  lemma HeadBelow<T>(x: T, t: seq<T>, key: T -> seq<int>)
    requires t != [] && !LexLe(key(x), key(t[0]))
    ensures LexLe(key(t[0]), key(x)) && key(x) != key(t[0])
  {
    LexLeTotal(key(x), key(t[0]));
    if key(x) == key(t[0]) { LexLeReflexive(key(x)); }
  }

  lemma {:induction false} InsertMultiset<T>(x: T, t: seq<T>, key: T -> seq<int>)
    ensures multiset(Insert(x, t, key)) == multiset(t) + multiset{x}
  {
    if t != [] && !LexLe(key(x), key(t[0])) {
      InsertMultiset(x, t[1..], key);
      assert t == [t[0]] + t[1..];
    }
  }

  lemma {:induction false} InsertSorted<T>(x: T, t: seq<T>, key: T -> seq<int>)
    requires SortedBy(t, key)
    ensures SortedBy(Insert(x, t, key), key)
  {
    if t == [] {
    } else if LexLe(key(x), key(t[0])) {
      forall j | 0 <= j < |t| ensures LexLe(key(x), key(t[j])) {
        if j > 0 {
          LexLeTransitive(key(x), key(t[0]), key(t[j]));
        }
      }
      ConsSorted(x, t, key);
    } else {
      var t' := t[1..];
      InsertSorted(x, t', key);
      HeadBelow(x, t, key);
      forall i | 0 <= i < |t'| ensures LexLe(key(t[0]), key(t'[i])) {
        assert t'[i] == t[i + 1];
      }
      var ins := Insert(x, t', key);
      InsertAbove(x, t', key, key(t[0]));
      ConsSorted(t[0], ins, key);
    }
  }

  /** A sorted sequence stays sorted behind an element no greater than any of it. */
  lemma ConsSorted<T>(h: T, s: seq<T>, key: T -> seq<int>)
    requires SortedBy(s, key) && forall j :: 0 <= j < |s| ==> LexLe(key(h), key(s[j]))
    ensures SortedBy([h] + s, key)
  {
    var r := [h] + s;
    forall i, j | 0 <= i < j < |r| ensures LexLe(key(r[i]), key(r[j])) {
      assert r[j] == s[j - 1];
      if i > 0 {
        assert r[i] == s[i - 1];
      }
    }
  }

  /** A lower bound of `x` and of every element of `t` bounds every element of the insertion. */
  lemma InsertAbove<T>(x: T, t: seq<T>, key: T -> seq<int>, lo: seq<int>)
    requires LexLe(lo, key(x)) && forall i :: 0 <= i < |t| ==> LexLe(lo, key(t[i]))
    ensures forall j :: 0 <= j < |Insert(x, t, key)| ==> LexLe(lo, key(Insert(x, t, key)[j]))
  {
    var r := Insert(x, t, key);
    InsertMultiset(x, t, key);
    forall j | 0 <= j < |r| ensures LexLe(lo, key(r[j])) {
      assert r[j] in multiset(r);
      if r[j] != x {
        assert r[j] in multiset(t);
        var m :| 0 <= m < |t| && t[m] == r[j];
      }
    }
  }

  lemma {:induction false} InsertWithKey<T>(x: T, t: seq<T>, key: T -> seq<int>, k: seq<int>)
    ensures WithKey(Insert(x, t, key), key, k) == (if key(x) == k then [x] else []) + WithKey(t, key, k)
  {
    if t == [] {
    } else if LexLe(key(x), key(t[0])) {
      WithKeyCons(x, t, key, k);
    } else {
      var t' := t[1..];
      var ins := Insert(x, t', key);
      assert t == [t[0]] + t';
      assert Insert(x, t, key) == [t[0]] + ins;
      InsertWithKey(x, t', key, k);
      HeadBelow(x, t, key);
      WithKeyCons(t[0], ins, key, k);
      WithKeyCons(t[0], t', key, k);
      if key(x) == k {
        assert key(t[0]) != k;
      }
    }
  }

  /** The sort's result is sorted, a permutation of its input, and stable. */
  lemma {:induction false} SortByFacts<T>(s: seq<T>, key: T -> seq<int>)
    ensures SortedBy(SortBy(s, key), key)
    ensures multiset(SortBy(s, key)) == multiset(s)
    ensures SameOrderWithinKeys(SortBy(s, key), s, key)
  {
    if s != [] {
      SortByFacts(s[1..], key);
      InsertSorted(s[0], SortBy(s[1..], key), key);
      InsertMultiset(s[0], SortBy(s[1..], key), key);
      assert s == [s[0]] + s[1..];
      forall k ensures WithKey(SortBy(s, key), key, k) == WithKey(s, key, k) {
        InsertWithKey(s[0], SortBy(s[1..], key), key, k);
        assert WithKey(s, key, k) == (if key(s[0]) == k then [s[0]] else []) + WithKey(s[1..], key, k);
      }
    }
  }

  /** The class of the first element's key starts with that element. */
  lemma ClassOfHead<T>(s: seq<T>, key: T -> seq<int>)
    ensures s != [] ==> WithKey(s, key, key(s[0])) != [] && WithKey(s, key, key(s[0]))[0] == s[0]
  {
  }

  /** Two sorted sequences whose key classes agree are equal: sorted-and-stable pins the result down. */
  lemma {:induction false} SortedUnique<T>(a: seq<T>, b: seq<T>, key: T -> seq<int>)
    requires SortedBy(a, key) && SortedBy(b, key)
    requires SameOrderWithinKeys(a, b, key)
    ensures a == b
    decreases |a|
  {
    ClassOfHead(a, key);
    ClassOfHead(b, key);
    if a == [] || b == [] {
      assert forall k :: WithKey(a, key, k) == WithKey(b, key, k);
    } else {
      var ka, kb := key(a[0]), key(b[0]);
      var wa := WithKey(b, key, ka);
      assert WithKey(a, key, ka)[0] == a[0];
      assert wa != [];
      var m := WithKeyIndex(b, key, ka);
      if m > 0 { assert LexLe(kb, key(b[m])); } else { LexLeReflexive(kb); }
      assert WithKey(b, key, kb)[0] == b[0];
      var n := WithKeyIndex(a, key, kb);
      if n > 0 { assert LexLe(ka, key(a[n])); } else { LexLeReflexive(ka); }
      LexLeAntisymmetric(ka, kb);
      assert WithKey(a, key, ka)[0] == a[0] && WithKey(b, key, ka)[0] == b[0];
      assert a[0] == b[0];
      forall k ensures WithKey(a[1..], key, k) == WithKey(b[1..], key, k) {
        assert WithKey(a, key, k) == WithKey(b, key, k);
        var h := if ka == k then [a[0]] else [];
        assert WithKey(a, key, k) == h + WithKey(a[1..], key, k);
        assert WithKey(b, key, k) == h + WithKey(b[1..], key, k);
        assert WithKey(a[1..], key, k) == WithKey(a, key, k)[|h|..];
        assert WithKey(b[1..], key, k) == WithKey(b, key, k)[|h|..];
      }
      SortedUnique(a[1..], b[1..], key);
      assert a == [a[0]] + a[1..] && b == [b[0]] + b[1..];
    }
  }

  /** Some element of `s` carries key `k` when its class is non-empty. */
  lemma {:induction false} WithKeyIndexLemma<T>(s: seq<T>, key: T -> seq<int>, k: seq<int>)
    requires WithKey(s, key, k) != []
    ensures exists m :: 0 <= m < |s| && key(s[m]) == k
  {
    if key(s[0]) != k {
      WithKeyIndexLemma(s[1..], key, k);
      var m :| 0 <= m < |s[1..]| && key(s[1..][m]) == k;
      assert key(s[m + 1]) == k;
    }
  }

  ghost function WithKeyIndex<T>(s: seq<T>, key: T -> seq<int>, k: seq<int>): (m: nat)
    requires WithKey(s, key, k) != []
    ensures m < |s| && key(s[m]) == k
  {
    WithKeyIndexLemma(s, key, k);
    var m :| 0 <= m < |s| && key(s[m]) == k; m
  }

  /** Sorting an already sorted sequence changes nothing. */
  lemma SortSortedIsIdentity<T>(s: seq<T>, key: T -> seq<int>)
    requires SortedBy(s, key)
    ensures SortBy(s, key) == s
  {
    SortByFacts(s, key);
    SortedUnique(SortBy(s, key), s, key);
  }
}

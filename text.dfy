/** The string operations the application relies on, with JavaScript's semantics written out:
    the `\s` class and `trim`, `toLowerCase`, `includes`/`indexOf`/`lastIndexOf`, `substring`,
    global `replace` with an empty replacement, `endsWith`, `split`, `padStart` and decimal
    digit strings. Strings are sequences of Unicode scalar values, where JavaScript's are
    sequences of UTF-16 code units: the two agree on text without characters beyond U+FFFF. */
module Text {
  import opened Wrappers
  import Seqs
  import Calendar

  /** ECMAScript WhiteSpace and LineTerminator code points: what `\s` matches and `trim` removes. */
  predicate IsSpace(c: char) {
    c == ' ' || c == '\t' || c == '\n' || c == '\r' || c == '\U{000B}' || c == '\U{000C}' ||
    c == '\U{00A0}' || c == '\U{1680}' || ('\U{2000}' <= c <= '\U{200A}') ||
    c == '\U{2028}' || c == '\U{2029}' || c == '\U{202F}' || c == '\U{205F}' ||
    c == '\U{3000}' || c == '\U{FEFF}'
  }

  /** `\d` in a regular expression without the `u` flag: ASCII digits only. */
  predicate IsDigit(c: char) {
    '0' <= c <= '9'
  }

  /** The class `[a-z0-9]` under the `i` flag. */
  predicate IsAsciiAlnum(c: char) {
    IsDigit(c) || ('a' <= c <= 'z') || ('A' <= c <= 'Z')
  }

  /** Lower-case mapping of one character: ASCII and Latin-1 capitals (the letters of Portuguese). */
  function LowerChar(c: char): (r: char)
    ensures 'A' <= c <= 'Z' ==> r as int == c as int + 32
    ensures !('A' <= c <= 'Z') && !('\U{00C0}' <= c <= '\U{00DE}') ==> r == c
  {
    if 'A' <= c <= 'Z' || ('\U{00C0}' <= c <= '\U{00DE}' && c != '\U{00D7}') then (c as int + 32) as char
    else c
  }

  /** `s.toLowerCase()`, one character at a time. */
  function ToLower(s: string): (r: string)
    ensures |r| == |s|
    ensures forall i :: 0 <= i < |s| ==> r[i] == LowerChar(s[i])
  {
    seq(|s|, i requires 0 <= i < |s| => LowerChar(s[i]))
  }

  /** `sub` occurs in `s` starting at index `i`. */
  predicate OccursAt(s: string, sub: string, i: int) {
    0 <= i && i + |sub| <= |s| && s[i..i + |sub|] == sub
  }

  /** `s.includes(sub)`. */
  predicate Includes(s: string, sub: string) {
    exists i | 0 <= i <= |s| - |sub| :: OccursAt(s, sub, i)
  }

  function IndexOfFrom(s: string, sub: string, from: nat): (r: int)
    requires from <= |s| + 1
    ensures r == -1 || (from <= r && OccursAt(s, sub, r))
    ensures r == -1 ==> forall i :: from <= i ==> !OccursAt(s, sub, i)
    ensures r != -1 ==> forall i :: from <= i < r ==> !OccursAt(s, sub, i)
    decreases |s| + 1 - from
  {
    if from + |sub| > |s| then -1
    else if s[from..from + |sub|] == sub then from
    else IndexOfFrom(s, sub, from + 1)
  }

  /** `s.indexOf(sub)`: the first index where `sub` occurs, or -1. */
  function IndexOf(s: string, sub: string): (r: int)
    ensures r == -1 <==> !Includes(s, sub)
    ensures r != -1 ==> OccursAt(s, sub, r) && forall i :: 0 <= i < r ==> !OccursAt(s, sub, i)
  {
    IndexOfFrom(s, sub, 0)
  }

  /** `s.indexOf(c)` for a one-character search string. */
  function IndexOfChar(s: string, c: char): (r: int)
    ensures -1 <= r < |s|
    ensures r == -1 <==> c !in s
    ensures r != -1 ==> s[r] == c && forall k :: 0 <= k < r ==> s[k] != c
  {
    FirstFrom(s, c, 0)
  }

  /** The first index at or after `i` holding `c`, or -1. */
  function FirstFrom(s: string, c: char, i: nat): (r: int)
    requires i <= |s|
    ensures r == -1 || (i <= r < |s| && s[r] == c)
    ensures r == -1 ==> forall k :: i <= k < |s| ==> s[k] != c
    ensures r != -1 ==> forall k :: i <= k < r ==> s[k] != c
    decreases |s| - i
  {
    if i == |s| then -1 else if s[i] == c then i else FirstFrom(s, c, i + 1)
  }

  /** `s.lastIndexOf(c)` for a one-character search string. */
  function LastIndexOfChar(s: string, c: char): (r: int)
    ensures -1 <= r < |s|
    ensures r == -1 <==> c !in s
    ensures r != -1 ==> s[r] == c && forall k :: r < k < |s| ==> s[k] != c
  {
    LastBefore(s, c, |s|)
  }

  /** The last index below `n` holding `c`, or -1. */
  function LastBefore(s: string, c: char, n: nat): (r: int)
    requires n <= |s|
    ensures r == -1 || (0 <= r < n && s[r] == c)
    ensures r == -1 ==> forall k :: 0 <= k < n ==> s[k] != c
    ensures r != -1 ==> forall k :: r < k < n ==> s[k] != c
  {
    if n == 0 then -1 else if s[n - 1] == c then n - 1 else LastBefore(s, c, n - 1)
  }

  /** `s.substring(a, b)`: both ends clamped to `[0, |s|]`, then swapped when `a > b`. */
  function Substring(s: string, a: int, b: int): (r: string)
    ensures var lo := Clamp(if a <= b then a else b, |s|);
            var hi := Clamp(if a <= b then b else a, |s|);
            lo <= hi && r == s[lo..hi]
  {
    var x, y := Clamp(a, |s|), Clamp(b, |s|);
    if x <= y then s[x..y] else s[y..x]
  }

  function Clamp(i: int, n: nat): (r: nat)
    ensures r <= n
    ensures 0 <= i <= n ==> r == i
  {
    if i < 0 then 0 else if i > n then n else i
  }

  /** `s.endsWith(suffix)`. */
  predicate EndsWith(s: string, suffix: string) {
    |suffix| <= |s| && s[|s| - |suffix|..] == suffix
  }

  /** `s.trimStart()`: the leading whitespace removed. */
  function TrimStart(s: string): (r: string)
    ensures |r| <= |s|
    ensures r == [] || !IsSpace(r[0])
    ensures forall i :: 0 <= i < |s| - |r| ==> IsSpace(s[i])
  {
    if s == [] || !IsSpace(s[0]) then s else TrimStart(s[1..])
  }

  /** `s.trimEnd()`: the trailing whitespace removed. */
  function TrimEnd(s: string): (r: string)
    ensures |r| <= |s|
    ensures r == [] || !IsSpace(r[|r| - 1])
    ensures forall i :: |r| <= i < |s| ==> IsSpace(s[i])
  {
    if s == [] || !IsSpace(s[|s| - 1]) then s else TrimEnd(s[..|s| - 1])
  }

  /** What `trimStart` keeps is a suffix of its input. */
  lemma {:induction false} TrimStartSuffix(s: string)
    ensures TrimStart(s) == s[|s| - |TrimStart(s)|..]
  {
    if s != [] && IsSpace(s[0]) {
      TrimStartSuffix(s[1..]);
    }
  }

  /** What `trimEnd` keeps is a prefix of its input. */
  lemma {:induction false} TrimEndPrefix(s: string)
    ensures TrimEnd(s) == s[..|TrimEnd(s)|]
  {
    if s != [] && IsSpace(s[|s| - 1]) {
      TrimEndPrefix(s[..|s| - 1]);
    }
  }

  /** `s.trim()`: whitespace removed from both ends. */
  function Trim(s: string): (r: string)
    ensures |r| <= |s|
  {
    TrimEnd(TrimStart(s))
  }

  /** A trimmed string is the slice of its input that starts after the leading whitespace; it
      neither starts nor ends with whitespace, and only whitespace was cut away on either side. */
  lemma TrimmedEnds(s: string)
    ensures var r, k := Trim(s), |s| - |TrimStart(s)|;
            (r == [] || (!IsSpace(r[0]) && !IsSpace(r[|r| - 1]))) &&
            k + |r| <= |s| && r == s[k..k + |r|] &&
            (forall i :: 0 <= i < k ==> IsSpace(s[i])) &&
            (forall i :: k + |r| <= i < |s| ==> IsSpace(s[i]))
  {
    var t := TrimStart(s);
    TrimStartSuffix(s);
    TrimEndPrefix(t);
    TrimSlices(s, t, TrimEnd(t));
  }

  /** The slice facts behind `TrimmedEnds`, stated for any suffix `t` of `s` and prefix `r`
      of `t` whose cut-off tail is whitespace. */
  lemma TrimSlices(s: string, t: string, r: string)
    requires |t| <= |s| && t == s[|s| - |t|..]
    requires |r| <= |t| && r == t[..|r|]
    requires t == [] || !IsSpace(t[0])
    requires r == [] || !IsSpace(r[|r| - 1])
    requires forall i :: |r| <= i < |t| ==> IsSpace(t[i])
    ensures var k := |s| - |t|;
            (r == [] || (!IsSpace(r[0]) && !IsSpace(r[|r| - 1]))) &&
            k + |r| <= |s| && r == s[k..k + |r|] &&
            (forall i :: k + |r| <= i < |s| ==> IsSpace(s[i]))
  {
    var k := |s| - |t|;
    if r != [] {
      assert r[0] == t[0];
    }
    forall i | k + |r| <= i < |s| ensures IsSpace(s[i]) {
      assert s[i] == t[i - k];
    }
  }

  /** Trimming a string that starts and ends with a visible character leaves it unchanged. */
  lemma TrimVisible(s: string)
    requires s != [] && !IsSpace(s[0]) && !IsSpace(s[|s| - 1])
    ensures Trim(s) == s
  {
    assert TrimStart(s) == s;
  }

  /** `s.replace(/\s+/g, ' ')`: every maximal run of whitespace becomes one space. */
  function CollapseSpaces(s: string): (r: string)
    ensures |r| <= |s|
    ensures s != [] && !IsSpace(s[0]) ==> r != [] && r[0] == s[0]
    ensures s != [] && IsSpace(s[0]) ==> r != [] && r[0] == ' '
    decreases |s|
  {
    if s == [] then []
    else if IsSpace(s[0]) then [' '] + CollapseSpaces(TrimStart(s[1..]))
    else [s[0]] + CollapseSpaces(s[1..])
  }

  /** The characters of `s` that are not whitespace, in order. */
  function Visible(s: string): string {
    if s == [] then [] else (if IsSpace(s[0]) then [] else [s[0]]) + Visible(s[1..])
  }

  lemma {:induction false} VisibleAppend(a: string, b: string)
    ensures Visible(a + b) == Visible(a) + Visible(b)
    decreases |a|
  {
    if a == [] {
      assert a + b == b;
    } else {
      var head := if IsSpace(a[0]) then [] else [a[0]];
      assert (a + b)[0] == a[0] && (a + b)[1..] == a[1..] + b;
      assert Visible(a + b) == head + Visible(a[1..] + b);
      VisibleAppend(a[1..], b);
      assert Visible(a) == head + Visible(a[1..]);
    }
  }

  lemma {:induction false} VisibleOfSpaces(a: string)
    requires forall i :: 0 <= i < |a| ==> IsSpace(a[i])
    ensures Visible(a) == []
    decreases |a|
  {
    if a != [] {
      VisibleOfSpaces(a[1..]);
    }
  }

  /** Cutting an invisible front and an invisible back off a text keeps its visible characters. */
  lemma VisibleSlice(s: string, k: nat, j: nat)
    requires k <= j <= |s| && Visible(s[..k]) == [] && Visible(s[j..]) == []
    ensures Visible(s[k..j]) == Visible(s)
  {
    var pre, mid, post := s[..k], s[k..j], s[j..];
    assert s[k..] == mid + post;
    assert s == pre + s[k..];
    VisibleAppend(pre, s[k..]);
    VisibleAppend(mid, post);
  }

  /** Whitespace before `k` and from `j` on is invisible. */
  lemma SpacesAround(s: string, k: nat, j: nat)
    requires k <= j <= |s|
    requires forall i :: 0 <= i < k ==> IsSpace(s[i])
    requires forall i :: j <= i < |s| ==> IsSpace(s[i])
    ensures Visible(s[..k]) == [] && Visible(s[j..]) == []
  {
    var pre, post := s[..k], s[j..];
    forall i | 0 <= i < |pre| ensures IsSpace(pre[i]) {
      assert pre[i] == s[i];
    }
    forall i | 0 <= i < |post| ensures IsSpace(post[i]) {
      assert post[i] == s[j + i];
    }
    VisibleOfSpaces(pre);
    VisibleOfSpaces(post);
  }

  /** After collapsing, the only whitespace is a single space, never two in a row, and the
      visible characters are those of the input, in order. */
  lemma {:induction false} CollapseSpacesFacts(s: string)
    ensures var r := CollapseSpaces(s);
            (forall i :: 0 <= i < |r| && IsSpace(r[i]) ==> r[i] == ' ') &&
            (forall i :: 0 <= i < |r| - 1 ==> !(r[i] == ' ' && r[i + 1] == ' ')) &&
            Visible(r) == Visible(s)
    decreases |s|
  {
    if s == [] {
    } else if IsSpace(s[0]) {
      var t := TrimStart(s[1..]);
      CollapseSpacesFacts(t);
      VisibleTrimStart(s[1..]);
      var r := CollapseSpaces(s);
      assert r == [' '] + CollapseSpaces(t);
      assert Visible(r) == Visible(CollapseSpaces(t));
    } else {
      CollapseSpacesFacts(s[1..]);
      var r := CollapseSpaces(s);
      assert r == [s[0]] + CollapseSpaces(s[1..]);
      assert r[1..] == CollapseSpaces(s[1..]);
    }
  }

  lemma {:induction false} VisibleTrimStart(s: string)
    ensures Visible(TrimStart(s)) == Visible(s)
  {
    if s != [] && IsSpace(s[0]) {
      VisibleTrimStart(s[1..]);
    }
  }

  /** `s.replace(/pat/g, '')`: scanning left to right, every match is removed and the scan
      resumes after it; characters where no match starts are kept. */
  function RemoveAll(s: string, pat: string): (r: string)
    requires pat != []
    ensures |r| <= |s|
    decreases |s|
  {
    if |s| < |pat| then s
    else if s[..|pat|] == pat then RemoveAll(s[|pat|..], pat)
    else [s[0]] + RemoveAll(s[1..], pat)
  }

  /** What the removal leaves is the text with whole copies of the pattern taken out: the kept
      characters in their original order, fewer by a multiple of the pattern's length. */
  lemma RemoveAllKeeps(s: string, pat: string)
    requires pat != []
    ensures Seqs.IsSubsequence(RemoveAll(s, pat), s)
    ensures (|s| - |RemoveAll(s, pat)|) % |pat| == 0
  {
    RemoveAllSubsequence(s, pat);
    RemoveAllMultiple(s, pat);
  }

  lemma {:induction false} RemoveAllSubsequence(s: string, pat: string)
    requires pat != []
    ensures Seqs.IsSubsequence(RemoveAll(s, pat), s)
    decreases |s|
  {
    var r := RemoveAll(s, pat);
    if |s| < |pat| {
      Seqs.SubsequenceRefl(s);
    } else if s[..|pat|] == pat {
      RemoveAllSubsequence(s[|pat|..], pat);
      Seqs.SubsequenceOfSuffix(r, s, |pat|);
    } else {
      var r' := RemoveAll(s[1..], pat);
      RemoveAllSubsequence(s[1..], pat);
      assert r == [s[0]] + r';
      assert r[0] == s[0] && r[1..] == r';
    }
  }

  lemma {:induction false} RemoveAllMultiple(s: string, pat: string)
    requires pat != []
    ensures (|s| - |RemoveAll(s, pat)|) % |pat| == 0
    decreases |s|
  {
    if |s| >= |pat| {
      if s[..|pat|] == pat {
        RemoveAllMultiple(s[|pat|..], pat);
        MultipleStep(|s[|pat|..]| - |RemoveAll(s[|pat|..], pat)|, |pat|);
      } else {
        RemoveAllMultiple(s[1..], pat);
      }
    }
  }

  /** Adding `p` to a multiple of `p` gives a multiple of `p`. */
  lemma MultipleStep(x: int, p: int)
    requires p > 0 && x % p == 0
    ensures (x + p) % p == 0
  {
    var q := x / p;
    assert x == q * p;
    assert x + p == (q + 1) * p + 0;
    Calendar.DivUnique(x + p, p, q + 1, 0);
  }

  /** The number of copies of `c` at the front of `s`. */
  function LeadingRun(s: string, c: char): (n: nat)
    ensures n <= |s|
    ensures forall i :: 0 <= i < n ==> s[i] == c
    ensures n < |s| ==> s[n] != c
  {
    if s == [] || s[0] != c then 0 else 1 + LeadingRun(s[1..], c)
  }

  /** A string of `n` copies of `c`. */
  function Run(c: char, n: nat): (r: string)
    ensures |r| == n && forall i :: 0 <= i < n ==> r[i] == c
  {
    seq(n, _ => c)
  }

  /** Removing a run of one repeated character leaves the shorter runs in front untouched. */
  lemma {:induction false} RemoveAllKeepsShortRun(t: string, c: char, n: nat)
    requires n >= 1 && LeadingRun(t, c) < n
    ensures LeadingRun(RemoveAll(t, Run(c, n)), c) == LeadingRun(t, c)
    decreases |t|
  {
    var pat := Run(c, n);
    var m := LeadingRun(t, c);
    if |t| >= n {
      assert t[..n] != pat by { assert t[m] != c && pat[m] == c; }
    }
    if m > 0 {
      assert |t| >= n ==> RemoveAll(t, pat) == [t[0]] + RemoveAll(t[1..], pat);
      RemoveAllKeepsShortRun(t[1..], c, n);
    } else if |t| >= n {
      assert RemoveAll(t, pat) == [t[0]] + RemoveAll(t[1..], pat);
    }
  }

  lemma LongRunIsPrefix(s: string, c: char, n: nat)
    requires n <= |s|
    ensures LeadingRun(s, c) >= n ==> s[..n] == Run(c, n)
  {
  }

  /** Where no match starts, the kept character does not begin a new match either. */
  lemma {:induction false} RemoveAllNoMatchAtHead(s: string, c: char, n: nat)
    requires n >= 1 && |s| >= n && s[..n] != Run(c, n)
    ensures !OccursAt(RemoveAll(s, Run(c, n)), Run(c, n), 0)
  {
    var pat := Run(c, n);
    var t := s[1..];
    var rt := RemoveAll(t, pat);
    var r := RemoveAll(s, pat);
    assert r == [s[0]] + rt;
    if s[0] == c {
      var m := LeadingRun(s, c);
      LongRunIsPrefix(s, c, n);
      assert LeadingRun(t, c) == m - 1;
      RemoveAllKeepsShortRun(t, c, n);
      assert m < n;
      if m < |r| {
        assert r[m] == rt[m - 1] != c;
        assert r[m] != pat[m];
      }
    } else {
      assert r[0] != pat[0];
    }
  }

  /** Removing every match of a run of one character leaves no such run behind: in particular
      no code fence "```" survives its global removal. */
  lemma {:induction false} RemoveAllRunLeavesNone(s: string, c: char, n: nat)
    requires n >= 1
    ensures !Includes(RemoveAll(s, Run(c, n)), Run(c, n))
    decreases |s|
  {
    var pat := Run(c, n);
    if |s| < n {
    } else if s[..n] == pat {
      RemoveAllRunLeavesNone(s[n..], c, n);
    } else {
      var t := s[1..];
      RemoveAllRunLeavesNone(t, c, n);
      var rt := RemoveAll(t, pat);
      var r := RemoveAll(s, pat);
      assert r == [s[0]] + rt;
      RemoveAllNoMatchAtHead(s, c, n);
      forall i | 0 <= i <= |r| - n ensures !OccursAt(r, pat, i) {
        if i > 0 {
          assert r[i..i + n] == rt[i - 1..i - 1 + n];
          assert !OccursAt(rt, pat, i - 1);
        }
      }
    }
  }

  /** `s.split(sep)` for a one-character separator. */
  function Split(s: string, sep: char): (parts: seq<string>)
    ensures |parts| >= 1
  {
    var k := IndexOfChar(s, sep);
    if k == -1 then [s] else [s[..k]] + Split(s[k + 1..], sep)
  }

  /** `parts.join(sep)`: the parts with one separator between each two. */
  function Join(parts: seq<string>, sep: char): string
  {
    if |parts| <= 1 then (if parts == [] then "" else parts[0])
    else parts[0] + [sep] + Join(parts[1..], sep)
  }

  /** Splitting is undone by joining with the same separator, and no part holds the
      separator. */
  lemma {:induction false} SplitRoundTrip(s: string, sep: char)
    ensures Join(Split(s, sep), sep) == s
    ensures forall p :: p in Split(s, sep) ==> sep !in p
    decreases |s|
  {
    var k := IndexOfChar(s, sep);
    if k != -1 {
      SplitRoundTrip(s[k + 1..], sep);
      SplitAtFirst(s, sep, k);
      JoinCons(s[..k], Split(s[k + 1..], sep), sep);
    }
  }

  /** At the first separator the text splits into the part before it and the split of the rest. */
  lemma SplitAtFirst(s: string, sep: char, k: int)
    requires k == IndexOfChar(s, sep) && k != -1
    ensures Split(s, sep) == [s[..k]] + Split(s[k + 1..], sep)
    ensures s == s[..k] + [sep] + s[k + 1..] && sep !in s[..k]
  {
    HeadFreeOf(s, sep, k);
  }

  /** The text before the first separator holds none. */
  lemma HeadFreeOf(s: string, sep: char, k: int)
    requires 0 <= k < |s| && s[k] == sep && forall i :: 0 <= i < k ==> s[i] != sep
    ensures s == s[..k] + [sep] + s[k + 1..] && sep !in s[..k]
  {
    var head := s[..k];
    forall i | 0 <= i < |head| ensures head[i] != sep {
      assert head[i] == s[i];
    }
  }

  /** Joining a part in front of at least one more adds it and a separator. */
  lemma JoinCons(head: string, rest: seq<string>, sep: char)
    requires |rest| >= 1
    ensures Join([head] + rest, sep) == head + [sep] + Join(rest, sep)
  {
    assert ([head] + rest)[1..] == rest;
  }

  /** A string without the separator splits into itself. */
  lemma SplitSingle(s: string, sep: char)
    requires sep !in s
    ensures Split(s, sep) == [s]
  {
  }

  /** A first part free of the separator is split off at the separator that follows it. */
  lemma SplitJoin(a: string, rest: string, sep: char)
    requires sep !in a
    ensures Split(a + [sep] + rest, sep) == [a] + Split(rest, sep)
  {
    var s := a + [sep] + rest;
    assert s[..|a|] == a && s[|a|] == sep;
    var k := IndexOfChar(s, sep);
    assert k == |a|;
    assert s[k + 1..] == rest;
  }

  /** A leading zero does not change the value of a digit string. */
  lemma {:induction false} LeadingZero(s: string)
    requires forall i :: 0 <= i < |s| ==> IsDigit(s[i])
    ensures DigitsValue("0" + s) == DigitsValue(s)
    decreases |s|
  {
    if s != [] {
      LeadingZero(s[..|s| - 1]);
      assert ("0" + s)[..|"0" + s| - 1] == "0" + s[..|s| - 1];
    }
  }

  /** `Number(s)` for the strings the model reads numbers from, which are the digit fields of a
      `YYYY-MM-DD` date-input value: surrounding whitespace is ignored, an empty string is 0, a
      run of ASCII digits is its decimal value, and anything else is not a number (`None`).
      Decimal points, exponents and hexadecimal prefixes, which `Number` accepts, never reach it. */
  function ToNumber(s: string): (r: Option<int>)
    ensures Trim(s) == "" ==> r == Some(0)
    ensures r.Some? && Trim(s) != "" ==> forall i :: 0 <= i < |Trim(s)| ==> IsDigit(Trim(s)[i])
  {
    var t := Trim(s);
    if t == "" then Some(0)
    else if forall i :: 0 <= i < |t| ==> IsDigit(t[i]) then Some(DigitsValue(t))
    else None
  }

  /** A digit string reads as its value. */
  lemma ToNumberDigits(s: string)
    requires s != [] && forall i :: 0 <= i < |s| ==> IsDigit(s[i])
    ensures ToNumber(s) == Some(DigitsValue(s))
  {
    TrimVisible(s);
  }

  /** The value of a non-empty string of ASCII digits (what `parseInt(s, 10)` gives for it). */
  function DigitsValue(s: string): (v: nat)
    requires forall i :: 0 <= i < |s| ==> IsDigit(s[i])
    decreases |s|
  {
    if s == [] then 0
    else
      assert IsDigit(s[|s| - 1]);
      DigitsValue(s[..|s| - 1]) * 10 + (s[|s| - 1] as int - '0' as int)
  }

  lemma {:induction false} DigitsValueBound(s: string)
    requires forall i :: 0 <= i < |s| ==> IsDigit(s[i])
    ensures DigitsValue(s) < Pow10(|s|)
    decreases |s|
  {
    if s != [] { DigitsValueBound(s[..|s| - 1]); }
  }

  function Pow10(n: nat): (p: nat)
    ensures p >= 1
  {
    if n == 0 then 1 else 10 * Pow10(n - 1)
  }

  /** Decimal representation of a natural number, without leading zeros. */
  function NatToString(n: nat): (s: string)
    ensures |s| >= 1
    ensures forall i :: 0 <= i < |s| ==> IsDigit(s[i])
    ensures DigitsValue(s) == n
  {
    if n < 10 then [('0' as int + n) as char]
    else
      var h := NatToString(n / 10);
      var d := [('0' as int + n % 10) as char];
      assert (h + d)[..|h + d| - 1] == h;
      h + d
  }

  /** `s.padStart(width, fill)`. */
  function PadStart(s: string, width: nat, fill: char): (r: string)
    ensures |r| == if |s| >= width then |s| else width
    ensures EndsWith(r, s)
    ensures forall i :: 0 <= i < |r| - |s| ==> r[i] == fill
  {
    if |s| >= width then s else Run(fill, width - |s|) + s
  }

  /** How many UTF-16 code units a character takes: two beyond U+FFFF, one otherwise. */
  function Utf16Units(c: char): nat {
    if c as int > 0xFFFF then 2 else 1
  }

  /** A string's JavaScript `length`: its count of UTF-16 code units. */
  function Utf16Length(s: string): (n: nat)
    ensures n >= |s|
  {
    if s == [] then 0 else Utf16Length(s[..|s| - 1]) + Utf16Units(s[|s| - 1])
  }

  /** The code-unit count split after the first character. */
  lemma {:induction false} Utf16LengthCons(s: string)
    requires s != []
    ensures Utf16Length(s) == Utf16Units(s[0]) + Utf16Length(s[1..])
    decreases |s|
  {
    if |s| > 1 {
      Utf16LengthCons(s[..|s| - 1]);
      assert s[..|s| - 1][1..] == s[1..][..|s[1..]| - 1];
      assert s[..|s| - 1][0] == s[0];
    } else {
      assert s[1..] == [] && s[..0] == [];
    }
  }

  /** The code points of a string as integers (for code-point string comparison, which agrees
      with JavaScript's code-unit comparison on text within U+0000..U+FFFF). */
  function Codes(s: string): (r: seq<int>)
    ensures |r| == |s| && forall i :: 0 <= i < |s| ==> r[i] == s[i] as int
  {
    seq(|s|, i requires 0 <= i < |s| => s[i] as int)
  }
}

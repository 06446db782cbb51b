/** The fallback parser of deadline tables (services/parserService.ts): each table row's text is
    normalised, searched for a CNJ process number and a DD/MM/YYYY date, and a row holding both
    becomes a deadline with fixed defaults. The rows arrive as their extracted texts; the fresh
    identifiers, the current time and the local time-zone offset are parameters. */
module Parser {
  import opened Wrappers
  import opened Types
  import opened Calendar
  import Text

  /** The browser's local time-zone offset from UTC, in milliseconds: within a day either way. */
  type TzOffset = o: int | -MsPerDay <= o <= MsPerDay

  // ---------------------------------------------------------------- patterns

  /** A fixed-length pattern: 'd' stands for `\d`, every other character for itself. */
  predicate FitsAt(s: string, i: nat, shape: string) {
    i + |shape| <= |s| &&
    forall k {:trigger shape[k]} :: 0 <= k < |shape| ==> (if shape[k] == 'd' then Text.IsDigit(s[i + k]) else s[i + k] == shape[k])
  }

  /** `/\d{7}-\d{2}\.\d{4}\.\d\.\d{2}\.\d{4}/`, the CNJ numbering NNNNNNN-DD.YYYY.J.TR.OOOO. */
  const CnjShape: string := "ddddddd-dd.dddd.d.dd.dddd"

  /** `/(\d{2})\/(\d{2})\/(\d{4})/`. */
  const DateShape: string := "dd/dd/dddd"

  /** The text a fit covers fits the pattern on its own. */
  lemma FitsSlice(s: string, i: nat, shape: string)
    requires FitsAt(s, i, shape)
    ensures FitsAt(s[i..i + |shape|], 0, shape)
  {
    var t := s[i..i + |shape|];
    forall k | 0 <= k < |shape|
      ensures if shape[k] == 'd' then Text.IsDigit(t[k]) else t[k] == shape[k]
    {
      assert t[k] == s[i + k];
    }
  }

  /** `s.match(re)` for a fixed-length pattern: the leftmost position, at or after `from`, where
      it fits. */
  function FirstMatch(s: string, shape: string, from: nat): (r: Option<nat>)
    ensures r.Some? ==> from <= r.value && FitsAt(s, r.value, shape)
    decreases |s| - from
  {
    if from + |shape| > |s| then None
    else if FitsAt(s, from, shape) then Some(from)
    else FirstMatch(s, shape, from + 1)
  }

  /** The match found is the leftmost fit at or after `from`, and there is none exactly when the
      pattern fits nowhere from `from` on. */
  lemma {:induction false} FirstMatchLeftmost(s: string, shape: string, from: nat)
    ensures var r := FirstMatch(s, shape, from);
            (r.Some? ==> forall j :: from <= j < r.value ==> !FitsAt(s, j, shape)) &&
            (r.None? ==> forall j :: from <= j ==> !FitsAt(s, j, shape))
    decreases |s| - from
  {
    if from + |shape| <= |s| && !FitsAt(s, from, shape) {
      FirstMatchLeftmost(s, shape, from + 1);
    }
  }

  /** `text.replace(/\s+/g, ' ').trim()`. */
  function NormalizeRow(raw: string): (text: string)
    ensures |text| <= |raw|
  {
    Text.Trim(Text.CollapseSpaces(raw))
  }

  /** The normalised text has no whitespace at either end, its only whitespace is single
      spaces, never two in a row, and its visible characters are those of the row, in order. */
  lemma NormalizedRow(raw: string)
    ensures var text := NormalizeRow(raw);
            (text == [] || (!Text.IsSpace(text[0]) && !Text.IsSpace(text[|text| - 1]))) &&
            (forall i :: 0 <= i < |text| && Text.IsSpace(text[i]) ==> text[i] == ' ') &&
            (forall i :: 0 <= i < |text| - 1 ==> !(text[i] == ' ' && text[i + 1] == ' ')) &&
            Text.Visible(text) == Text.Visible(raw)
  {
    var c := Text.CollapseSpaces(raw);
    Text.CollapseSpacesFacts(raw);
    Text.TrimmedEnds(c);
    var text := Text.Trim(c);
    var k := |c| - |Text.TrimStart(c)|;
    SingleSpacedSlice(c, k, k + |text|);
    Text.SpacesAround(c, k, k + |text|);
    Text.VisibleSlice(c, k, k + |text|);
  }

  /** A slice of a text whose only whitespace is single spaces has only single spaces too. */
  lemma SingleSpacedSlice(c: string, a: nat, b: nat)
    requires a <= b <= |c|
    requires forall i :: 0 <= i < |c| && Text.IsSpace(c[i]) ==> c[i] == ' '
    requires forall i :: 0 <= i < |c| - 1 ==> !(c[i] == ' ' && c[i + 1] == ' ')
    ensures var t := c[a..b];
            (forall i :: 0 <= i < |t| && Text.IsSpace(t[i]) ==> t[i] == ' ') &&
            (forall i :: 0 <= i < |t| - 1 ==> !(t[i] == ' ' && t[i + 1] == ' '))
  {
    var t := c[a..b];
    forall i | 0 <= i < |t| ensures t[i] == c[a + i] { }
  }

  // ---------------------------------------------------------------- one row

  /** The system named in the row, compared case-insensitively: 'seeu' before 'sei', 'sei'
      before 'mpv' or 'simba', PROJUDI when none occurs. */
  function InferSystem(text: string): SystemType {
    var lower := Text.ToLower(text);
    if Text.Includes(lower, "seeu") then SEEU
    else if Text.Includes(lower, "sei") then SEI
    else if Text.Includes(lower, "mpv") || Text.Includes(lower, "simba") then MPV
    else PROJUDI
  }

  /** Each system is inferred exactly under its keyword condition, earlier keywords taking
      precedence over later ones. */
  lemma InferSystemPrecedence(text: string)
    ensures var r := InferSystem(text);
            var lower := Text.ToLower(text);
            (r == SEEU <==> Text.Includes(lower, "seeu")) &&
            (r == SEI <==> !Text.Includes(lower, "seeu") && Text.Includes(lower, "sei")) &&
            (r == MPV <==> !Text.Includes(lower, "seeu") && !Text.Includes(lower, "sei") &&
                           (Text.Includes(lower, "mpv") || Text.Includes(lower, "simba"))) &&
            (r == PROJUDI <==> !Text.Includes(lower, "seeu") && !Text.Includes(lower, "sei") &&
                               !Text.Includes(lower, "mpv") && !Text.Includes(lower, "simba"))
  {
  }

  /** `parseInt(field, 10)` of a field the pattern made all digits: its decimal value. */
  function DigitField(s: string, a: nat, b: nat): (v: nat)
    requires a <= b <= |s| && forall k :: a <= k < b ==> Text.IsDigit(s[k])
    ensures forall k :: 0 <= k < b - a ==> Text.IsDigit(s[a..b][k])
    ensures v == Text.DigitsValue(s[a..b]) && v < Text.Pow10(b - a)
  {
    var f := s[a..b];
    assert forall k :: 0 <= k < |f| ==> Text.IsDigit(f[k]) by {
      forall k | 0 <= k < |f| ensures Text.IsDigit(f[k]) {
        assert f[k] == s[a + k];
      }
    }
    Text.DigitsValueBound(f);
    Text.DigitsValue(f)
  }

  /** The day, month and year of the date found at `k`. */
  datatype DateFields = DateFields(day: nat, month: nat, year: nat)

  predicate AllDigits(s: string) {
    forall k :: 0 <= k < |s| ==> Text.IsDigit(s[k])
  }

  /** The value of an ASCII digit. */
  function DigitValue(c: char): int {
    c as int - '0' as int
  }

  /** The three capture groups of a DD/MM/YYYY match at `k`, read as decimal numbers (their
      values are stated by `ReadDateValues`). */
  function ReadDate(text: string, k: nat): (f: DateFields)
    requires FitsAt(text, k, DateShape)
    ensures f.day <= 99 && f.month <= 99 && f.year <= 9999
  {
    assert forall j :: 0 <= j < 10 ==> (if DateShape[j] == 'd' then Text.IsDigit(text[k + j]) else text[k + j] == DateShape[j]);
    assert DateShape[0] == 'd' && DateShape[1] == 'd' && DateShape[3] == 'd' && DateShape[4] == 'd';
    assert DateShape[6] == 'd' && DateShape[7] == 'd' && DateShape[8] == 'd' && DateShape[9] == 'd';
    assert Text.Pow10(2) == 100 && Text.Pow10(4) == 10000;
    DateFields(DigitField(text, k, k + 2), DigitField(text, k + 3, k + 5), DigitField(text, k + 6, k + 10))
  }

  /** The day, month and year read at a match are the decimal values of its DD, MM and YYYY
      digits. */
  lemma ReadDateValues(text: string, k: nat)
    requires FitsAt(text, k, DateShape)
    ensures var f := ReadDate(text, k);
            f.day == 10 * DigitValue(text[k]) + DigitValue(text[k + 1]) &&
            f.month == 10 * DigitValue(text[k + 3]) + DigitValue(text[k + 4]) &&
            f.year == 1000 * DigitValue(text[k + 6]) + 100 * DigitValue(text[k + 7]) +
                      10 * DigitValue(text[k + 8]) + DigitValue(text[k + 9])
  {
    assert forall j :: 0 <= j < 10 ==> (if DateShape[j] == 'd' then Text.IsDigit(text[k + j]) else text[k + j] == DateShape[j]);
    assert DateShape[0] == 'd' && DateShape[1] == 'd' && DateShape[3] == 'd' && DateShape[4] == 'd';
    assert DateShape[6] == 'd' && DateShape[7] == 'd' && DateShape[8] == 'd' && DateShape[9] == 'd';
    TwoDigits(text, k);
    TwoDigits(text, k + 3);
    FourDigits(text, k + 6);
  }

  /** The value of two digits. */
  lemma TwoDigits(s: string, a: nat)
    requires a + 2 <= |s| && Text.IsDigit(s[a]) && Text.IsDigit(s[a + 1])
    ensures AllDigits(s[a..a + 2])
    ensures Text.DigitsValue(s[a..a + 2]) == 10 * DigitValue(s[a]) + DigitValue(s[a + 1])
  {
    var f := s[a..a + 2];
    assert f[..1] == [s[a]] && f[1] == s[a + 1];
    assert Text.DigitsValue([s[a]]) == DigitValue(s[a]) by {
      assert [s[a]][..0] == [];
    }
    assert Text.DigitsValue(f) == Text.DigitsValue(f[..1]) * 10 + DigitValue(f[1]);
  }

  /** The value of four digits. */
  lemma FourDigits(s: string, a: nat)
    requires a + 4 <= |s| && forall k :: a <= k < a + 4 ==> Text.IsDigit(s[k])
    ensures AllDigits(s[a..a + 4])
    ensures Text.DigitsValue(s[a..a + 4]) ==
            1000 * DigitValue(s[a]) + 100 * DigitValue(s[a + 1]) + 10 * DigitValue(s[a + 2]) + DigitValue(s[a + 3])
  {
    var f := s[a..a + 4];
    assert f[..3] == s[a..a + 3];
    TwoDigitsPrefix(s, a);
    assert f[..3][..2] == s[a..a + 2];
    TwoDigits(s, a);
  }

  lemma TwoDigitsPrefix(s: string, a: nat)
    requires a + 3 <= |s| && forall k :: a <= k < a + 3 ==> Text.IsDigit(s[k])
    ensures AllDigits(s[a..a + 3])
    ensures Text.DigitsValue(s[a..a + 3]) == Text.DigitsValue(s[a..a + 2]) * 10 + DigitValue(s[a + 2])
  {
    assert s[a..a + 3][..2] == s[a..a + 2];
  }

  /** `new Date(year, month - 1, day)` at local midnight: a four-digit year always gives a valid
      date, whatever the day and month overflow. */
  function EndDateOf(f: DateFields, offset: TzOffset): (t: int)
    requires f.day <= 99 && f.month <= 99 && f.year <= 9999
    ensures NewLocalDate(f.year, f.month - 1, f.day, offset) == Valid(t)
    ensures t + offset == MakeDay(FullYear(f.year), f.month - 1, f.day) * 86400000
  {
    SmallFieldsGiveValidDate(f.year, f.month - 1, f.day, offset);
    NewLocalDate(f.year, f.month - 1, f.day, offset).time
  }

  /** The record a matching row yields, with the parser's fixed defaults. */
  function RowRecord(id: string, processNumber: string, system: SystemType, now: int, endDate: int): Deadline {
    Deadline(
      id := id, processNumber := processNumber, courtDivision := None, system := Some(system),
      proceduralClass := Some("Extraído via Regex"), mainSubject := Some("Geral"),
      manifestationPurpose := Some("Manifestação"), defendantStatus := NotInformed,
      prosecutorOffice := "Promotoria da Comarca de Nhamundá", deadlineDuration := "?",
      startDate := now, endDate := endDate, priority := Medium, status := Pending,
      isArchived := None, advisorDraftType := None, advisorStatus := None, promoterDecision := None,
      returnReason := None, instruction := None, parties := Some("Verificar nos autos"))
  }

  /** The body of `rows.forEach`: a record when the normalised text holds both a CNJ number and
      a date, nothing otherwise. */
  function ParseRow(raw: string, id: string, now: int, offset: TzOffset): Option<Deadline>
  {
    var text := NormalizeRow(raw);
    var pm, dm := FirstMatch(text, CnjShape, 0), FirstMatch(text, DateShape, 0);
    if pm.Some? && dm.Some? then
      Some(RowRecord(id, text[pm.value..pm.value + |CnjShape|], InferSystem(text), now,
                     EndDateOf(ReadDate(text, dm.value), offset)))
    else None
  }

  /** A row yields a record exactly when the CNJ pattern and the date pattern both occur
      somewhere in its normalised text. */
  lemma ParseRowWhen(raw: string, id: string, now: int, offset: TzOffset)
    ensures var text := NormalizeRow(raw);
            ParseRow(raw, id, now, offset).Some? <==>
            (exists j :: FitsAt(text, j, CnjShape)) && (exists j :: FitsAt(text, j, DateShape))
  {
    var text := NormalizeRow(raw);
    FirstMatchLeftmost(text, CnjShape, 0);
    FirstMatchLeftmost(text, DateShape, 0);
  }

  /** The process number of a matching row's record is the first CNJ match of its normalised
      text, so it has the CNJ shape. */
  lemma ParseRowNumber(raw: string, id: string, now: int, offset: TzOffset)
    requires ParseRow(raw, id, now, offset).Some?
    ensures var text := NormalizeRow(raw);
            var p := FirstMatch(text, CnjShape, 0).value;
            var number := ParseRow(raw, id, now, offset).value.processNumber;
            number == text[p..p + |CnjShape|] && FitsAt(number, 0, CnjShape)
  {
    var text := NormalizeRow(raw);
    var p := FirstMatch(text, CnjShape, 0).value;
    ParseRowSlice(raw, id, now, offset);
    MatchSlice(text, p, CnjShape);
  }

  /** The process number of a matching row's record is the text of the first CNJ match. */
  lemma ParseRowSlice(raw: string, id: string, now: int, offset: TzOffset)
    requires ParseRow(raw, id, now, offset).Some?
    ensures var text := NormalizeRow(raw);
            var p := FirstMatch(text, CnjShape, 0);
            p.Some? && p.value + |CnjShape| <= |text| &&
            ParseRow(raw, id, now, offset).value.processNumber == text[p.value..p.value + |CnjShape|]
  {
  }

  /** The text of a leftmost match fits the pattern on its own. */
  lemma MatchSlice(text: string, p: nat, shape: string)
    requires FirstMatch(text, shape, 0) == Some(p)
    ensures p + |shape| <= |text| && FitsAt(text[p..p + |shape|], 0, shape)
  {
    FitsSlice(text, p, shape);
  }

  /** The end date of a matching row's record is `EndDateOf` the first DD/MM/YYYY date of its
      normalised text: local midnight of that day, with the month read as MM − 1. */
  lemma ParseRowEndDate(raw: string, id: string, now: int, offset: TzOffset)
    requires ParseRow(raw, id, now, offset).Some?
    ensures var text := NormalizeRow(raw);
            ParseRow(raw, id, now, offset).value.endDate ==
            EndDateOf(ReadDate(text, FirstMatch(text, DateShape, 0).value), offset)
  {
  }

  /** A matching row's record carries the inferred system, the drawn id, "now" as its start, and
      the parser's fixed defaults: active, purpose 'Manifestação', priority Média, status
      'Pendente', defendant status 'Não Informado'. */
  lemma ParseRowDefaults(raw: string, id: string, now: int, offset: TzOffset)
    requires ParseRow(raw, id, now, offset).Some?
    ensures var r := ParseRow(raw, id, now, offset).value;
            r.system == Some(InferSystem(NormalizeRow(raw))) &&
            r.id == id && r.startDate == now && IsActive(r) &&
            r.manifestationPurpose == Some(ManifestationPurpose.Manifestation.Name()) &&
            r.priority == Medium && r.status == Pending && r.defendantStatus == NotInformed
  {
  }

  // ---------------------------------------------------------------- all rows

  function Produced(r: Option<Deadline>): seq<Deadline> {
    if r.Some? then [r.value] else []
  }

  /** The records carried by a sequence of per-row outcomes, in row order. */
  function Collect(rs: seq<Option<Deadline>>): seq<Deadline>
    decreases |rs|
  {
    if rs == [] then [] else Collect(rs[..|rs| - 1]) + Produced(rs[|rs| - 1])
  }

  /** The outcome of every row; `ids[i]` is the identifier drawn for row `i`. */
  function RowOutcomes(rows: seq<string>, ids: seq<string>, now: int, offset: TzOffset): (rs: seq<Option<Deadline>>)
    requires |ids| == |rows|
    ensures |rs| == |rows|
  {
    seq(|rows|, i requires 0 <= i < |rows| => ParseRow(rows[i], ids[i], now, offset))
  }

  /** What `parseDeadlinesFromHtml` returns for the given row texts: the records of the
      matching rows, in row order. */
  function ParseRows(rows: seq<string>, ids: seq<string>, now: int, offset: TzOffset): seq<Deadline>
    requires |ids| == |rows|
  {
    Collect(RowOutcomes(rows, ids, now, offset))
  }

  /** `rows.forEach(row => { …; if (processMatch && dateMatch) extractedDeadlines.push(…) })`. */
  method ParseDeadlinesFromRows(rows: seq<string>, ids: seq<string>, now: int, offset: TzOffset)
    returns (extracted: seq<Deadline>)
    requires |ids| == |rows|
    ensures extracted == ParseRows(rows, ids, now, offset)
  {
    extracted := [];
    var i := 0;
    while i < |rows|
      invariant 0 <= i <= |rows|
      invariant extracted == ParseRows(rows[..i], ids[..i], now, offset)
    {
      var r := ParseRow(rows[i], ids[i], now, offset);
      if r.Some? {
        extracted := extracted + [r.value];
      }
      ParseRowsSnoc(rows, ids, i, now, offset);
      i := i + 1;
    }
    assert rows[..i] == rows && ids[..i] == ids;
  }

  /** Parsing one more row appends what that row yields. */
  lemma ParseRowsSnoc(rows: seq<string>, ids: seq<string>, i: nat, now: int, offset: TzOffset)
    requires |ids| == |rows| && i < |rows|
    ensures ParseRows(rows[..i + 1], ids[..i + 1], now, offset) ==
            ParseRows(rows[..i], ids[..i], now, offset) + Produced(ParseRow(rows[i], ids[i], now, offset))
  {
    assert rows[..i] + [rows[i]] == rows[..i + 1] && ids[..i] + [ids[i]] == ids[..i + 1];
    ParseRowsAppend(rows[..i], ids[..i], [rows[i]], [ids[i]], now, offset);
    ParseRowsOne(rows[i], ids[i], now, offset);
  }

  /** One row gives the record it yields, or nothing. */
  lemma ParseRowsOne(row: string, id: string, now: int, offset: TzOffset)
    ensures ParseRows([row], [id], now, offset) == Produced(ParseRow(row, id, now, offset))
  {
    var o := ParseRow(row, id, now, offset);
    var rs := RowOutcomes([row], [id], now, offset);
    assert |rs| == 1 && rs[0] == o;
    assert rs[..0] == [];
    assert ParseRows([row], [id], now, offset) == Collect(rs) == Collect(rs[..0]) + Produced(o);
  }

  /** Collecting two blocks of outcomes gives the records of the first block followed by those
      of the second. */
  lemma {:induction false} CollectAppend(a: seq<Option<Deadline>>, b: seq<Option<Deadline>>)
    ensures Collect(a + b) == Collect(a) + Collect(b)
    decreases |b|
  {
    if b == [] {
      assert a + b == a;
    } else {
      var n := |b| - 1;
      assert (a + b)[..|a + b| - 1] == a + b[..n];
      assert (a + b)[|a + b| - 1] == b[n];
      CollectAppend(a, b[..n]);
    }
  }

  /** Parsing two blocks of rows gives the records of the first block followed by those of the
      second: records keep the order of their rows. */
  lemma ParseRowsAppend(a: seq<string>, ia: seq<string>, b: seq<string>, ib: seq<string>, now: int, offset: TzOffset)
    requires |ia| == |a| && |ib| == |b|
    ensures ParseRows(a + b, ia + ib, now, offset) ==
            ParseRows(a, ia, now, offset) + ParseRows(b, ib, now, offset)
  {
    var ra, rb := RowOutcomes(a, ia, now, offset), RowOutcomes(b, ib, now, offset);
    assert RowOutcomes(a + b, ia + ib, now, offset) == ra + rb by {
      forall k | 0 <= k < |a| + |b|
        ensures RowOutcomes(a + b, ia + ib, now, offset)[k] == (ra + rb)[k]
      {
        if k < |a| {
          assert (a + b)[k] == a[k] && (ia + ib)[k] == ia[k];
        } else {
          assert (a + b)[k] == b[k - |a|] && (ia + ib)[k] == ib[k - |a|];
        }
      }
    }
    CollectAppend(ra, rb);
  }

  /** Every collected record is carried by some outcome, and there are at most as many records
      as outcomes. */
  lemma {:induction false} CollectFrom(rs: seq<Option<Deadline>>)
    ensures |Collect(rs)| <= |rs|
    ensures forall x :: x in Collect(rs) ==> exists i :: 0 <= i < |rs| && rs[i] == Some(x)
    decreases |rs|
  {
    if rs != [] {
      var n := |rs| - 1;
      CollectFrom(rs[..n]);
      forall x | x in Collect(rs) ensures exists i :: 0 <= i < |rs| && rs[i] == Some(x) {
        if x in Collect(rs[..n]) {
          var i :| 0 <= i < n && rs[..n][i] == Some(x);
          assert rs[i] == Some(x);
        } else {
          assert rs[n] == Some(x);
        }
      }
    }
  }

  /** Each row yields at most one record, and every record is the one its row yields. */
  lemma ParseRowsFrom(rows: seq<string>, ids: seq<string>, now: int, offset: TzOffset)
    requires |ids| == |rows|
    ensures var out := ParseRows(rows, ids, now, offset);
            |out| <= |rows| &&
            forall x :: x in out ==> exists i :: 0 <= i < |rows| && ParseRow(rows[i], ids[i], now, offset) == Some(x)
  {
    var rs := RowOutcomes(rows, ids, now, offset);
    CollectFrom(rs);
    forall x | x in ParseRows(rows, ids, now, offset)
      ensures exists i :: 0 <= i < |rows| && ParseRow(rows[i], ids[i], now, offset) == Some(x)
    {
      var i :| 0 <= i < |rs| && rs[i] == Some(x);
      assert ParseRow(rows[i], ids[i], now, offset) == Some(x);
    }
  }
}

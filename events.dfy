/** The hearings screen (components/Events.tsx): reading and writing the date of a date input,
    the status views, the date-then-time order of the list, the record a manual entry creates
    and the day shown on each card. */
module EventsView {
  import opened Wrappers
  import opened Types
  import opened Calendar
  import opened Seqs
  import opened Sorting
  import Text

  // ---------------------------------------------------------------- date input strings

  /** `parseLocalDate`: an empty string is "now"; otherwise the text is split at '-' and the
      three parts, read as numbers, give local midnight of (year, month − 1, day). A missing
      part or one that is not a number gives an invalid date. */
  function ParseLocalDate(s: string, now: int, offset: int): (r: JsDate)
    ensures s == "" ==> r == Valid(now)
  {
    if s == "" then Valid(now)
    else
      var parts := Text.Split(s, '-');
      if |parts| < 3 then Invalid
      else
        var y, m, d := Text.ToNumber(parts[0]), Text.ToNumber(parts[1]), Text.ToNumber(parts[2]);
        if y.None? || m.None? || d.None? then Invalid
        else NewLocalDate(y.value, m.value - 1, d.value, offset)
  }

  /** A string of ASCII digits. */
  predicate Digits(s: string) {
    forall i :: 0 <= i < |s| ==> Text.IsDigit(s[i])
  }

  /** A number written with at least two digits. */
  function Pad2(n: nat): (s: string)
    ensures |s| >= 2 && Digits(s) && Text.DigitsValue(s) == n
  {
    var t := Text.NatToString(n);
    if n < 10 then
      Text.LeadingZero(t);
      "0" + t
    else
      Text.DigitsValueBound(t);
      t
  }

  /** A number written with at least three digits. */
  function Pad3(n: nat): (s: string)
    ensures |s| >= 3 && Digits(s)
  {
    if n < 10 then "00" + Text.NatToString(n)
    else if n < 100 then "0" + Text.NatToString(n)
    else
      Text.DigitsValueBound(Text.NatToString(n));
      Text.NatToString(n)
  }

  /** A year as `toISOString` writes it: four digits in 0..9999, otherwise a sign and six digits. */
  function IsoYear(y: int): string {
    if 0 <= y <= 9999 then Text.PadStart(Text.NatToString(y), 4, '0')
    else if y < 0 then "-" + Text.PadStart(Text.NatToString(-y), 6, '0')
    else "+" + Text.PadStart(Text.NatToString(y), 6, '0')
  }

  /** `YYYY-MM-DD` of a calendar date: the date part of an ISO string and the value format of a
      date input. */
  function CivilIso(c: Civil): string
    requires IsCivil(c)
  {
    JoinDate(IsoYear(c.year), Pad2(c.month + 1), Pad2(c.day))
  }

  /** Year, month and day joined by '-'. */
  function JoinDate(y: string, m: string, d: string): string {
    y + "-" + m + "-" + d
  }

  /** `HH:mm:ss.sssZ` of a time value, in UTC. */
  function IsoTime(t: int): string {
    var ms := t % MsPerDay;
    Pad2(ms / 3600000) + ":" + Pad2(ms / 60000 % 60) + ":" + Pad2(ms / 1000 % 60) + "." +
    Pad3(ms % 1000) + "Z"
  }

  /** `Date.prototype.toISOString` of a valid date. */
  function IsoString(t: int): string {
    CivilIso(CivilOfTime(t)) + "T" + IsoTime(t)
  }

  /** `formatDateForInput`: empty for an invalid date, otherwise the ISO string up to its 'T'. */
  function FormatDateForInput(d: JsDate): (r: string)
    ensures d.Invalid? ==> r == ""
  {
    if d.IsNaN() then "" else Text.Split(IsoString(d.time), 'T')[0]
  }

  /** Zero padding keeps a digit string a digit string. */
  lemma PadDigits(s: string, w: nat)
    requires Digits(s)
    ensures Digits(Text.PadStart(s, w, '0'))
  {
    var r := Text.PadStart(s, w, '0');
    forall i | 0 <= i < |r| ensures Text.IsDigit(r[i]) {
      if i >= |r| - |s| {
        assert r[i] == r[|r| - |s|..][i - (|r| - |s|)];
      }
    }
  }

  /** A written year holds digits and possibly a sign. */
  lemma IsoYearChars(y: int)
    ensures 'T' !in IsoYear(y) && '-' !in IsoYear(y)[1..]
  {
    var n := if y < 0 then -y else y;
    var t := Text.NatToString(n);
    var w := if 0 <= y <= 9999 then 4 else 6;
    PadDigits(t, w);
    var p := Text.PadStart(t, w, '0');
    assert forall i :: 0 <= i < |p| ==> p[i] != 'T' && p[i] != '-';
    assert IsoYear(y) == p || IsoYear(y) == "-" + p || IsoYear(y) == "+" + p;
  }

  /** Digit strings hold neither separator. */
  lemma DigitsHaveNoSeparators(s: string)
    requires Digits(s)
    ensures 'T' !in s && '-' !in s
  {
    assert forall i :: 0 <= i < |s| ==> s[i] != 'T' && s[i] != '-';
  }

  /** The date part of an ISO string has no 'T' in it. */
  lemma NoTInIsoDate(c: Civil)
    requires IsCivil(c)
    ensures 'T' !in CivilIso(c)
  {
    IsoYearChars(c.year);
    DigitsHaveNoSeparators(Pad2(c.month + 1));
    DigitsHaveNoSeparators(Pad2(c.day));
  }

  /** A valid date is formatted as the `YYYY-MM-DD` of its UTC calendar date. */
  lemma FormatIsIsoDate(t: int)
    ensures FormatDateForInput(Valid(t)) == CivilIso(CivilOfTime(t))
  {
    var c := CivilOfTime(t);
    NoTInIsoDate(c);
    assert IsoString(t) == CivilIso(c) + ['T'] + IsoTime(t);
    Text.SplitJoin(CivilIso(c), IsoTime(t), 'T');
  }

  /** The same, for a calendar date already known. */
  lemma FormatOfCivil(t: int, c: Civil)
    requires c == CivilOfTime(t)
    ensures FormatDateForInput(Valid(t)) == CivilIso(c)
  {
    FormatIsIsoDate(t);
  }

  lemma Pow10Small(k: nat)
    ensures k <= 3 ==> Text.Pow10(k) <= 1000
  {
    if k > 0 { Pow10Small(k - 1); }
  }

  /** A year of four digits is written without padding. */
  lemma FourDigitYear(y: int)
    requires 1000 <= y <= 9999
    ensures IsoYear(y) == Text.NatToString(y)
  {
    var s := Text.NatToString(y);
    Text.DigitsValueBound(s);
    Pow10Small(|s|);
  }

  /** A year of four digits is written as a digit string whose value is the year. */
  lemma FourDigitYearValue(y: int)
    requires 1000 <= y <= 9999
    ensures var s := IsoYear(y); s != [] && Digits(s) && Text.DigitsValue(s) == y
  {
    FourDigitYear(y);
  }

  /** Three parts free of '-' joined by '-' split back into those parts. */
  lemma SplitThreeParts(y: string, m: string, d: string)
    requires '-' !in y && '-' !in m && '-' !in d
    ensures Text.Split(JoinDate(y, m, d), '-') == [y, m, d]
  {
    Text.SplitSingle(d, '-');
    Text.SplitJoin(m, d, '-');
    assert JoinDate(y, m, d) == y + ['-'] + (m + ['-'] + d);
    Text.SplitJoin(y, m + ['-'] + d, '-');
  }

  /** A string that splits into three digit strings is read as local midnight of their values,
      the month counted from 1. */
  lemma ParseDigitFields(s: string, y: string, m: string, d: string, year: int, month: int, day: int,
                         now: int, offset: int)
    requires s != "" && Text.Split(s, '-') == [y, m, d]
    requires y != [] && m != [] && d != [] && Digits(y) && Digits(m) && Digits(d)
    requires year == Text.DigitsValue(y) && month == Text.DigitsValue(m) - 1 && day == Text.DigitsValue(d)
    ensures ParseLocalDate(s, now, offset) == NewLocalDate(year, month, day, offset)
  {
    var parts := Text.Split(s, '-');
    assert parts[0] == y && parts[1] == m && parts[2] == d;
    Text.ToNumberDigits(y);
    Text.ToNumberDigits(m);
    Text.ToNumberDigits(d);
  }

  /** A `YYYY-MM-DD` with a four-digit year splits at '-' into its three numbers. */
  lemma IsoSplit(c: Civil, y: string, m: string, d: string)
    requires IsCivil(c) && 1000 <= c.year <= 9999
    requires y == IsoYear(c.year) && m == Pad2(c.month + 1) && d == Pad2(c.day)
    ensures Text.Split(CivilIso(c), '-') == [y, m, d]
  {
    IsoPartsHaveNoDash(c);
    SplitJoined(CivilIso(c), y, m, d);
  }

  lemma IsoPartsHaveNoDash(c: Civil)
    requires IsCivil(c) && 1000 <= c.year <= 9999
    ensures '-' !in IsoYear(c.year) && '-' !in Pad2(c.month + 1) && '-' !in Pad2(c.day)
  {
    FourDigitYearValue(c.year);
    DigitsHaveNoSeparators(IsoYear(c.year));
    DigitsHaveNoSeparators(Pad2(c.month + 1));
    DigitsHaveNoSeparators(Pad2(c.day));
  }

  lemma SplitJoined(s: string, y: string, m: string, d: string)
    requires s == JoinDate(y, m, d) && '-' !in y && '-' !in m && '-' !in d
    ensures Text.Split(s, '-') == [y, m, d]
  {
    SplitThreeParts(y, m, d);
  }

  /** Reading the three numbers back out of a `YYYY-MM-DD` string. */
  lemma ParseIsoFields(c: Civil, now: int, offset: int)
    requires IsCivil(c) && 1000 <= c.year <= 9999
    ensures ParseLocalDate(CivilIso(c), now, offset) == NewLocalDate(c.year, c.month, c.day, offset)
  {
    var y, m, d := IsoYear(c.year), Pad2(c.month + 1), Pad2(c.day);
    IsoSplit(c, y, m, d);
    NonEmptyIso(c);
    FourDigitYearValue(c.year);
    ParseDigitFields(CivilIso(c), y, m, d, c.year, c.month, c.day, now, offset);
  }

  /** The `YYYY-MM-DD` of a calendar date is never empty. */
  lemma NonEmptyIso(c: Civil)
    requires IsCivil(c)
    ensures CivilIso(c) != ""
  {
    assert |CivilIso(c)| >= 1 + |Pad2(c.month + 1)|;
  }

  /** A date input's `YYYY-MM-DD` of a calendar date with a four-digit year is read as local
      midnight of that date (whose calendar date is that date again, by
      `Calendar.MidnightCivil`). */
  lemma ParseIsoDate(c: Civil, now: int, offset: int)
    requires IsCivil(c) && 1000 <= c.year <= 9999 && -MsPerDay <= offset <= MsPerDay
    ensures ParseLocalDate(CivilIso(c), now, offset) ==
            Valid(MakeDay(c.year, c.month, c.day) * 86400000 - offset)
  {
    ParseIsoFields(c, now, offset);
    CivilMidnightValid(c, offset);
  }

  /** In a browser on UTC, a parsed `YYYY-MM-DD` is a valid date on that calendar date. */
  lemma ParsedIsoOnUtc(c: Civil, now: int)
    requires IsCivil(c) && 1000 <= c.year <= 9999
    ensures var r := ParseLocalDate(CivilIso(c), now, 0); r.Valid? && CivilOfTime(r.time) == c
  {
    var r := ParseLocalDate(CivilIso(c), now, 0);
    ParseIsoDate(c, now, 0);
    MidnightCivil(c, r.time);
  }

  /** In a browser on UTC, formatting a parsed `YYYY-MM-DD` gives the same string back. */
  lemma FormatParseRoundTrip(c: Civil, now: int)
    requires IsCivil(c) && 1000 <= c.year <= 9999
    ensures FormatDateForInput(ParseLocalDate(CivilIso(c), now, 0)) == CivilIso(c)
  {
    var r := ParseLocalDate(CivilIso(c), now, 0);
    ParsedIsoOnUtc(c, now);
    FormatOfCivil(r.time, c);
  }

  // ---------------------------------------------------------------- status views

  /** Active hearings are the scheduled and rescheduled ones; held and cancelled ones are
      archived. */
  predicate InView(a: Audience, mode: ViewMode) {
    if mode == ActiveView then a.status == Scheduled || a.status == Rescheduled
    else a.status == Held || a.status == Cancelled
  }

  /** Every status belongs to exactly one of the two views. */
  lemma ViewsPartitionStatuses(a: Audience)
    ensures InView(a, ActiveView) != InView(a, ArchivedView)
  {
  }

  /** The process and date filters: an empty filter keeps everything. */
  predicate MatchesFilters(a: Audience, process: string, date: string) {
    (process == "" || Text.Includes(Text.ToLower(a.processNumber), Text.ToLower(process))) &&
    (date == "" || FormatDateForInput(a.date) == date)
  }

  /** `filteredAudiences`. The screen's filters are fixed at their empty initial value. */
  function FilteredAudiences(audiences: seq<Audience>, mode: ViewMode, process: string, date: string): seq<Audience> {
    Filter(audiences, (a: Audience) => InView(a, mode) && MatchesFilters(a, process, date))
  }

  /** The filtered list is an order-preserving subsequence holding exactly the hearings of the
      view that pass the filters; with the screen's empty filters, exactly the view. */
  lemma FilteredAudiencesExact(audiences: seq<Audience>, mode: ViewMode, process: string, date: string, x: Audience)
    ensures var r := FilteredAudiences(audiences, mode, process, date);
            IsSubsequence(r, audiences) &&
            (x in r <==> x in audiences && InView(x, mode) && MatchesFilters(x, process, date)) &&
            (process == "" && date == "" ==> (x in r <==> x in audiences && InView(x, mode)))
  {
    var p := (a: Audience) => InView(a, mode) && MatchesFilters(a, process, date);
    FilterIsSubsequence(audiences, p);
    FilterMembership(audiences, p, x);
  }

  /** The two views split the list: their sizes add up to its size. */
  lemma ViewsPartition(audiences: seq<Audience>)
    ensures |FilteredAudiences(audiences, ActiveView, "", "")| +
            |FilteredAudiences(audiences, ArchivedView, "", "")| == |audiences|
  {
    FilterComplement(audiences, (a: Audience) => InView(a, ActiveView) && MatchesFilters(a, "", ""),
                     (a: Audience) => InView(a, ArchivedView) && MatchesFilters(a, "", ""));
  }

  // ---------------------------------------------------------------- order

  /** The comparator's key: the time value, then the code units of the `time` string. An
      invalid date has no time value; the comparator gives no order for it. */
  function AudienceKey(a: Audience): seq<int> {
    [TimeOf(a)] + Text.Codes(a.time)
  }

  function TimeOf(a: Audience): int {
    if a.date.Valid? then a.date.time else 0
  }

  /** `sortedAudiences`: a stable sort of the filtered list by date, then by time. */
  function SortedAudiences(filtered: seq<Audience>): (r: seq<Audience>)
    ensures |r| == |filtered|
  {
    SortBy(filtered, AudienceKey)
  }

  /** For hearings with valid dates, the sorted list is a permutation of the filtered one,
      ascending by date, hearings on the same instant ascending by time, and hearings that
      compare equal keep their order. */
  lemma SortedAudiencesFacts(filtered: seq<Audience>)
    requires forall i :: 0 <= i < |filtered| ==> filtered[i].date.Valid?
    ensures var r := SortedAudiences(filtered);
            multiset(r) == multiset(filtered) &&
            SameOrderWithinKeys(r, filtered, AudienceKey) &&
            (forall i :: 0 <= i < |r| ==> r[i].date.Valid? && TimeOf(r[i]) == r[i].date.time) &&
            forall i, j :: 0 <= i < j < |r| ==>
              TimeOf(r[i]) <= TimeOf(r[j]) &&
              (TimeOf(r[i]) == TimeOf(r[j]) ==> LexLe(Text.Codes(r[i].time), Text.Codes(r[j].time)))
  {
    var r := SortedAudiences(filtered);
    SortByFacts(filtered, AudienceKey);
    forall i | 0 <= i < |r| ensures r[i].date.Valid? {
      assert r[i] in multiset(filtered);
    }
    forall i, j | 0 <= i < j < |r|
      ensures TimeOf(r[i]) <= TimeOf(r[j]) &&
              (TimeOf(r[i]) == TimeOf(r[j]) ==> LexLe(Text.Codes(r[i].time), Text.Codes(r[j].time)))
    {
      LexLeCons(TimeOf(r[i]), Text.Codes(r[i].time), TimeOf(r[j]), Text.Codes(r[j].time));
    }
  }

  // ---------------------------------------------------------------- manual entry

  /** The value of the form's date field: absent, the text of a date input, or a `Date`. */
  datatype FormDate = NoDate | DateText(text: string) | DateValue(value: JsDate)

  /** The manual-entry form; every field may be absent. */
  datatype ManualForm = ManualForm(
    processNumber: Option<string>, courtDivision: Option<string>, date: FormDate,
    time: Option<string>, hearingType: Option<string>, mode: Option<AudienceMode>,
    link: Option<string>, system: Option<string>)

  /** The form's initial value. */
  const InitialForm: ManualForm := ManualForm(
    None, Some("Vara Única de Nhamundá"), NoDate, Some("09:00"), Some("Audiência"),
    Some(InPerson), None, Some("PROJUDI"))

  /** `value || fallback` on an optional string: absent and empty both give the fallback. */
  function OrElse(value: Option<string>, fallback: string): (r: string)
    ensures value.Some? && value.value != "" ==> r == value.value
    ensures value.None? || value.value == "" ==> r == fallback
  {
    if value.Some? && value.value != "" then value.value else fallback
  }

  /** `!manualForm.date`: absent, or an empty date-input text. A `Date` object is always present. */
  predicate MissingDate(d: FormDate) {
    d.NoDate? || d == DateText("")
  }

  /** `handleManualSubmit`: nothing without a process number and a date; otherwise one
      scheduled hearing, with defaults for the empty fields. */
  function ManualSubmit(form: ManualForm, id: string, now: int, offset: int): (r: Option<Audience>)
    ensures r.None? <==> OrElse(form.processNumber, "") == "" || MissingDate(form.date)
    ensures r.Some? ==> r.value.id == id && r.value.status == Scheduled &&
                        r.value.processNumber == form.processNumber.value && r.value.processNumber != ""
    ensures r.Some? ==> r.value.time == OrElse(form.time, "09:00") &&
                        r.value.hearingType == OrElse(form.hearingType, "Audiência") &&
                        r.value.mode == form.mode.GetOr(InPerson)
    ensures r.Some? ==> r.value.courtDivision == Some(OrElse(form.courtDivision, "Vara Única de Nhamundá")) &&
                        r.value.link == Some(OrElse(form.link, "")) &&
                        r.value.system == Some(OrElse(form.system, "PROJUDI"))
    ensures r.Some? && form.date.DateText? ==> r.value.date == ParseLocalDate(form.date.text, now, offset)
    ensures r.Some? && form.date.DateValue? ==> r.value.date == form.date.value
  {
    if OrElse(form.processNumber, "") == "" || MissingDate(form.date) then None
    else
      var date := match form.date
        case DateText(text) => ParseLocalDate(text, now, offset)
        case DateValue(value) => value
        case NoDate => Valid(now);
      Some(Audience(
        id, form.processNumber.value, Some(OrElse(form.system, "PROJUDI")),
        Some(OrElse(form.courtDivision, "Vara Única de Nhamundá")), None, None, date,
        OrElse(form.time, "09:00"), OrElse(form.hearingType, "Audiência"), form.mode.GetOr(InPerson),
        None, Scheduled, Some(OrElse(form.link, "")), None))
  }

  /** Filling in only the process number and a date on the initial form gives a hearing at
      09:00, in person, in the single court division and on PROJUDI. */
  lemma ManualSubmitDefaults(p: string, date: FormDate, id: string, now: int, offset: int)
    requires p != "" && !MissingDate(date)
    ensures var r := ManualSubmit(InitialForm.(processNumber := Some(p), date := date), id, now, offset);
            r.Some? && r.value.time == "09:00" && r.value.hearingType == "Audiência" &&
            r.value.mode == InPerson && r.value.status == Scheduled &&
            r.value.courtDivision == Some("Vara Única de Nhamundá") && r.value.system == Some("PROJUDI")
  {
  }

  /** A hearing entered with a typed `YYYY-MM-DD` is set at local midnight of that date. */
  lemma ManualSubmitIsoDate(form: ManualForm, c: Civil, id: string, now: int, offset: int)
    requires IsCivil(c) && 1000 <= c.year <= 9999 && -MsPerDay <= offset <= MsPerDay
    requires OrElse(form.processNumber, "") != "" && form.date == DateText(CivilIso(c))
    ensures var r := ManualSubmit(form, id, now, offset);
            r.Some? && r.value.date == Valid(MakeDay(c.year, c.month, c.day) * 86400000 - offset)
  {
    ParseIsoDate(c, now, offset);
    NonEmptyIso(c);
  }

  // ---------------------------------------------------------------- card date

  /** The day and year shown on a hearing card (the month and weekday names come from the
      locale and are not modelled). */
  datatype DateParts = DateParts(day: string, year: string)

  /** A signed whole number in decimal: digits reading back as the number, after a '-' when it
      is negative. */
  function IntToString(n: int): (s: string)
    ensures n >= 0 ==> Digits(s) && Text.DigitsValue(s) == n
    ensures n < 0 ==> |s| >= 2 && s[0] == '-' && Digits(s[1..]) && Text.DigitsValue(s[1..]) == -n
  {
    if n < 0 then
      var t := Text.NatToString(-n);
      assert ("-" + t)[1..] == t;
      "-" + t
    else Text.NatToString(n)
  }

  /** A day of the month padded to two digits reads back as that day. */
  lemma DayPadded(n: nat)
    requires n <= 99
    ensures var s := Text.PadStart(Text.NatToString(n), 2, '0');
            |s| == 2 && Digits(s) && Text.DigitsValue(s) == n
  {
    var t := Text.NatToString(n);
    PadDigits(t, 2);
    if n < 10 {
      DayPaddedOne(n);
    } else {
      TwoDigitLength(n);
    }
  }

  lemma DayPaddedOne(n: nat)
    requires n < 10
    ensures var t := Text.NatToString(n);
            |t| == 1 && Text.PadStart(t, 2, '0') == "0" + t && Text.DigitsValue("0" + t) == n
  {
    var t := Text.NatToString(n);
    assert t == [('0' as int + n) as char];
    Text.LeadingZero(t);
  }

  lemma TwoDigitLength(n: nat)
    requires 10 <= n <= 99
    ensures |Text.NatToString(n)| == 2
  {
    var q := n / 10;
    assert q < 10;
    assert |Text.NatToString(q)| == 1;
  }

  /** `getFormattedDateParts`: placeholders for an invalid date; otherwise the local day of
      the month padded to two digits, and the local year. */
  function FormattedDateParts(d: JsDate, offset: int): (r: DateParts)
    ensures d.Invalid? ==> r == DateParts("--", "----")
    ensures d.Valid? ==> |r.day| == 2 && Digits(r.day) &&
                         Text.DigitsValue(r.day) == CivilOfTime(d.time + offset).day
    ensures d.Valid? ==> r.year == IntToString(CivilOfTime(d.time + offset).year)
  {
    if d.IsNaN() then DateParts("--", "----")
    else
      var c := CivilOfTime(d.time + offset);
      DaysBeforeMonthNext(c.year, c.month);
      DayPadded(c.day);
      DateParts(Text.PadStart(Text.NatToString(c.day), 2, '0'), IntToString(c.year))
  }
}

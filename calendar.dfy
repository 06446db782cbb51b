/** JavaScript `Date` arithmetic as ECMAScript defines it: a date is a time value in
    milliseconds since 1970-01-01T00:00:00Z, or the invalid date (NaN). Local time is UTC shifted
    by a fixed offset in milliseconds, which the caller supplies. */
module Calendar {

  /** Milliseconds in a day. Products of a day number with it are written with the literal
      86400000, which keeps them linear arithmetic. */
  const MsPerDay: int := 86400000
  /** The largest magnitude of a valid time value (TimeClip). */
  const MaxTime: int := 8640000000000000

  datatype JsDate = Valid(time: int) | Invalid {
    /** `isNaN(d.getTime())` */
    predicate IsNaN() { this.Invalid? }
  }

  /** TimeClip: a time value beyond 8.64e15 ms in either direction is the invalid date. */
  function TimeClip(t: int): (d: JsDate)
    ensures d.Valid? <==> -MaxTime <= t <= MaxTime
    ensures d.Valid? ==> d.time == t
  {
    if t < -MaxTime || t > MaxTime then Invalid else Valid(t)
  }

  /** Floor division by a positive constant; Dafny's `/` already floors for positive divisors. */
  function DayFromYear(y: int): int {
    365 * (y - 1970) + (y - 1969) / 4 - (y - 1901) / 100 + (y - 1601) / 400
  }

  predicate IsLeap(y: int) {
    y % 4 == 0 && (y % 100 != 0 || y % 400 == 0)
  }

  function DaysInYear(y: int): (n: int)
    ensures n == 365 || n == 366
  {
    if IsLeap(y) then 366 else 365
  }

  /** Consecutive years start DaysInYear apart: the leap-year rule and the day count agree. */
  lemma DayFromYearStep(y: int)
    ensures DayFromYear(y + 1) == DayFromYear(y) + DaysInYear(y)
  {
    LeapStep(y, 4, 1969, 492);
    LeapStep(y, 100, 1901, 19);
    LeapStep(y, 400, 1601, 4);
    var a, b, c := (if y % 4 == 0 then 1 else 0), (if y % 100 == 0 then 1 else 0),
                   (if y % 400 == 0 then 1 else 0);
    assert DayFromYear(y + 1) == DayFromYear(y) + 365 + a - b + c;
    if y % 400 == 0 {
      DivUnique(y, 100, 4 * (y / 400), 0);
    }
    if y % 100 == 0 {
      DivUnique(y, 4, 25 * (y / 100), 0);
    }
  }

  /** One more year adds one to a count of multiples of `k` exactly when the year is one. */
  lemma LeapStep(y: int, k: int, base: int, c: int)
    requires k > 0 && base == c * k + 1
    ensures (y + 1 - base) / k == (y - base) / k + (if y % k == 0 then 1 else 0)
  {
    DivStep(y - base, k);
    ModShift(y, k, c);
    assert y + 1 - base == y - c * k;
  }

  /** A year has 365 or 366 days. */
  lemma YearLength(y: int)
    ensures DayFromYear(y) + 365 <= DayFromYear(y + 1) <= DayFromYear(y) + 366
  {
    DayFromYearStep(y);
  }

  lemma DivStep(x: int, k: int)
    requires k > 0
    ensures (x + 1) / k == x / k + (if (x + 1) % k == 0 then 1 else 0)
  {
    var q, r := x / k, x % k;
    assert x == q * k + r && 0 <= r < k;
    if r == k - 1 {
      assert x + 1 == (q + 1) * k;
      DivUnique(x + 1, k, q + 1, 0);
    } else {
      DivUnique(x + 1, k, q, r + 1);
    }
  }
  lemma DivUnique(a: int, k: int, q: int, r: int)
    requires k > 0 && a == q * k + r && 0 <= r < k
    ensures a / k == q && a % k == r
  {
    var q', r' := a / k, a % k;
    assert a == q' * k + r';
    MulSign(q - q', k);
    assert (q - q') * k == q * k - q' * k;
  }
  lemma MulSign(m: int, k: int)
    requires k > 0
    ensures m >= 1 ==> m * k >= k
    ensures m <= -1 ==> m * k <= -k
  {
  }
  lemma ModShift(y: int, k: int, c: int)
    requires k > 0
    ensures (y - c * k) % k == y % k
  {
    DivUnique(y - c * k, k, y / k - c, y % k);
  }

  /** Later years start later. */
  lemma {:induction false} DayFromYearMonotone(a: int, b: int)
    requires a <= b
    ensures DayFromYear(a) <= DayFromYear(b)
    decreases b - a
  {
    if a < b {
      YearLength(a);
      DayFromYearMonotone(a + 1, b);
    }
  }

  /** Days of each month in a common year (0 = January). */
  const MonthDays: seq<int> := [31, 28, 31, 30, 31, 30, 31, 31, 30, 31, 30, 31]

  /** Days of a common year before each month, and the whole year at the end. */
  const DaysBefore: seq<int> := [0, 31, 59, 90, 120, 151, 181, 212, 243, 273, 304, 334, 365]

  function DaysInMonth(y: int, m: int): (n: int)
    requires 0 <= m < 12
  {
    MonthDays[m] + (if m == 1 && IsLeap(y) then 1 else 0)
  }

  /** Days of the year before month `m` (0 = January). */
  function DaysBeforeMonth(y: int, m: int): (n: int)
    requires 0 <= m <= 12
    ensures m == 0 ==> n == 0
    ensures m == 12 ==> n == DaysInYear(y)
  {
    DaysBefore[m] + (if m >= 2 && IsLeap(y) then 1 else 0)
  }

  lemma DaysBeforeMonthNext(y: int, m: int)
    requires 0 <= m < 12
    ensures DaysBeforeMonth(y, m + 1) == DaysBeforeMonth(y, m) + DaysInMonth(y, m)
    ensures 28 <= DaysInMonth(y, m) <= 31
  {
    if m == 0 {} else if m == 1 {} else if m == 2 {} else if m == 3 {} else if m == 4 {}
    else if m == 5 {} else if m == 6 {} else if m == 7 {} else if m == 8 {} else if m == 9 {}
    else if m == 10 {} else {}
  }

  /** MakeDay(year, month, date): the month may be any integer and carries into the year; the
      date counts from the first of that month and may run past its end or below 1. */
  function MakeDay(year: int, month: int, date: int): int {
    var ym := year + month / 12;
    var mn := month % 12;
    DayFromYear(ym) + DaysBeforeMonth(ym, mn) + date - 1
  }

  /** `new Date(y, m, d)` on the fields as numbers: a year in 0..99 means 1900 + year, the result
      is local midnight converted to UTC, then clipped. */
  function NewLocalDate(y: int, m: int, d: int, offset: int): (r: JsDate)
    ensures r.Valid? ==> r.time + offset == MakeDay(FullYear(y), m, d) * 86400000
  {
    TimeClip(MakeDay(FullYear(y), m, d) * 86400000 - offset)
  }

  /** The two-digit year rule of the `Date` constructor. */
  function FullYear(y: int): (r: int)
    ensures 0 <= y <= 99 ==> r == 1900 + y
    ensures !(0 <= y <= 99) ==> r == y
  {
    if 0 <= y <= 99 then 1900 + y else y
  }

  /** A local date built from a year of at most four digits, any month and day of at most two
      digits is always a valid date. */
  lemma SmallFieldsGiveValidDate(y: int, m: int, d: int, offset: int)
    requires 0 <= y <= 9999 && -1 <= m <= 98 && 0 <= d <= 99
    requires -MsPerDay <= offset <= MsPerDay
    ensures NewLocalDate(y, m, d, offset).Valid?
  {
    var fy := FullYear(y);
    var ym := fy + m / 12;
    assert 0 <= ym <= 10008;
    DayFromYearMonotone(0, ym);
    DayFromYearMonotone(ym, 10008);
    var day := MakeDay(fy, m, d);
    assert -800000 <= day <= 3000000;
  }

  /** The year containing day number `d` (days since the epoch). */
  function YearOfDay(d: int): (y: int)
    ensures DayFromYear(y) <= d < DayFromYear(y + 1)
  {
    if d >= 0 then YearAtOrAfter(d, 1970) else YearBefore(d, 1970)
  }

  function YearAtOrAfter(d: int, y: int): (r: int)
    requires DayFromYear(y) <= d
    ensures DayFromYear(r) <= d < DayFromYear(r + 1)
    decreases d - DayFromYear(y)
  {
    YearLength(y);
    if d < DayFromYear(y + 1) then y else YearAtOrAfter(d, y + 1)
  }

  function YearBefore(d: int, y: int): (r: int)
    requires d < DayFromYear(y)
    ensures DayFromYear(r) <= d < DayFromYear(r + 1)
    decreases DayFromYear(y) - d
  {
    YearLength(y - 1);
    if DayFromYear(y - 1) <= d then y - 1 else YearBefore(d, y - 1)
  }

  /** The month (0-based) containing day `k` of year `y`. */
  function MonthOfDayInYear(y: int, k: int, m: int): (r: int)
    requires 0 <= m < 12 && DaysBeforeMonth(y, m) <= k < DaysInYear(y)
    ensures m <= r < 12 && DaysBeforeMonth(y, r) <= k < DaysBeforeMonth(y, r + 1)
    decreases 12 - m
  {
    if k < DaysBeforeMonth(y, m + 1) then m else MonthOfDayInYear(y, k, m + 1)
  }

  /** A calendar date: year, month 0..11 and day of month 1..31. */
  datatype Civil = Civil(year: int, month: int, day: int)

  predicate IsCivil(c: Civil) {
    0 <= c.month < 12 && 1 <= c.day <= DaysInMonth(c.year, c.month)
  }

  /** The calendar date of day number `d`: YearFromTime, MonthFromTime and DateFromTime. */
  function CivilOfDay(d: int): (c: Civil)
    ensures IsCivil(c)
    ensures MakeDay(c.year, c.month, c.day) == d
  {
    var y := YearOfDay(d);
    var k := d - DayFromYear(y);
    DayInYear(y, d);
    var m := MonthOfDayInYear(y, k, 0);
    DayInMonth(y, k, m);
    Civil(y, m, k - DaysBeforeMonth(y, m) + 1)
  }

  /** A day of a year is numbered from 0 up to the year's length. */
  lemma DayInYear(y: int, d: int)
    requires DayFromYear(y) <= d < DayFromYear(y + 1)
    ensures 0 <= d - DayFromYear(y) < DaysInYear(y)
  {
    DayFromYearStep(y);
  }

  /** Day `k` of year `y`, in month `m`, is a calendar date whose MakeDay is that day. */
  lemma DayInMonth(y: int, k: int, m: int)
    requires 0 <= m < 12 && DaysBeforeMonth(y, m) <= k < DaysBeforeMonth(y, m + 1)
    ensures IsCivil(Civil(y, m, k - DaysBeforeMonth(y, m) + 1))
    ensures MakeDay(y, m, k - DaysBeforeMonth(y, m) + 1) == DayFromYear(y) + k
  {
    DaysBeforeMonthNext(y, m);
    MakeDayInYear(y, m, k - DaysBeforeMonth(y, m) + 1);
  }

  lemma MakeDayInYear(y: int, m: int, day: int)
    requires 0 <= m < 12
    ensures MakeDay(y, m, day) == DayFromYear(y) + DaysBeforeMonth(y, m) + day - 1
  {
    DivUnique(m, 12, 0, m);
    var ym, mn := y + m / 12, m % 12;
    assert ym == y && mn == m;
    assert DayFromYear(ym) == DayFromYear(y);
    assert DaysBeforeMonth(ym, mn) == DaysBeforeMonth(y, m);
  }

  /** The calendar date of time `t` (in whatever time zone `t` is expressed). */
  function CivilOfTime(t: int): Civil {
    CivilOfDay(Floor(t, MsPerDay))
  }

  function Floor(a: int, b: int): int
    requires b > 0
  {
    a / b
  }

  lemma {:induction false} YearUnique(y: int, z: int, d: int)
    requires DayFromYear(y) <= d < DayFromYear(y + 1)
    requires DayFromYear(z) <= d < DayFromYear(z + 1)
    ensures y == z
  {
    if y < z {
      DayFromYearMonotone(y + 1, z);
    } else if z < y {
      DayFromYearMonotone(z + 1, y);
    }
  }

  lemma {:induction false} DaysBeforeMonthMonotone(y: int, a: int, b: int)
    requires 0 <= a <= b <= 12
    ensures DaysBeforeMonth(y, a) + 28 * (b - a) <= DaysBeforeMonth(y, b)
    decreases b - a
  {
    if a < b {
      DaysBeforeMonthNext(y, a);
      DaysBeforeMonthMonotone(y, a + 1, b);
    }
  }

  /** Reading a calendar date back from the day number MakeDay gives for it returns the same
      date: day numbers and calendar dates correspond one to one. */
  lemma CivilRoundTrip(c: Civil)
    requires IsCivil(c)
    ensures CivilOfDay(MakeDay(c.year, c.month, c.day)) == c
  {
    var r := CivilOfDay(MakeDay(c.year, c.month, c.day));
    MakeDayInjective(r, c);
  }

  /** The calendar date of the midnight that starts a calendar date is that date. */
  lemma MidnightCivil(c: Civil, t: int)
    requires IsCivil(c) && t == MakeDay(c.year, c.month, c.day) * 86400000
    ensures CivilOfTime(t) == c
  {
    var n := MakeDay(c.year, c.month, c.day);
    DivUnique(t, MsPerDay, n, 0);
    CivilRoundTrip(c);
  }

  /** Local midnight of a calendar date with a four-digit year is a valid date. */
  lemma CivilMidnightValid(c: Civil, offset: int)
    requires IsCivil(c) && 1000 <= c.year <= 9999 && -MsPerDay <= offset <= MsPerDay
    ensures NewLocalDate(c.year, c.month, c.day, offset) ==
            Valid(MakeDay(c.year, c.month, c.day) * 86400000 - offset)
  {
    DaysBeforeMonthNext(c.year, c.month);
    SmallFieldsGiveValidDate(c.year, c.month, c.day, offset);
  }

  /** Distinct calendar dates have distinct day numbers. */
  lemma MakeDayInjective(a: Civil, b: Civil)
    requires IsCivil(a) && IsCivil(b)
    requires MakeDay(a.year, a.month, a.day) == MakeDay(b.year, b.month, b.day)
    ensures a == b
  {
    MakeDayInYear(a.year, a.month, a.day);
    MakeDayInYear(b.year, b.month, b.day);
    DayNumberInjective(a, b);
  }

  /** The day number of a calendar date, counted through its year and month. */
  function DayNumber(c: Civil): int
    requires IsCivil(c)
  {
    DayFromYear(c.year) + DaysBeforeMonth(c.year, c.month) + c.day - 1
  }

  lemma DayNumberInjective(a: Civil, b: Civil)
    requires IsCivil(a) && IsCivil(b) && DayNumber(a) == DayNumber(b)
    ensures a == b
  {
    SameYear(a, b);
    var y := a.year;
    MonthBound(y, a.month, a.day);
    MonthBound(y, b.month, b.day);
    MonthUnique(y, DaysBeforeMonth(y, a.month) + a.day - 1, a.month, b.month);
  }

  lemma SameYear(a: Civil, b: Civil)
    requires IsCivil(a) && IsCivil(b) && DayNumber(a) == DayNumber(b)
    ensures a.year == b.year
  {
    var d := DayNumber(a);
    CivilInYear(a, d);
    CivilInYear(b, d);
    YearUnique(a.year, b.year, d);
  }

  /** A day of a month lies before the start of the next month. */
  lemma MonthBound(y: int, m: int, day: int)
    requires 0 <= m < 12 && 1 <= day <= DaysInMonth(y, m)
    ensures DaysBeforeMonth(y, m) + day - 1 < DaysBeforeMonth(y, m + 1)
  {
    DaysBeforeMonthNext(y, m);
  }

  /** The day number of a calendar date lies in its year. */
  lemma CivilInYear(c: Civil, d: int)
    requires IsCivil(c) && d == DayNumber(c)
    ensures DayFromYear(c.year) <= d < DayFromYear(c.year + 1)
  {
    MonthBound(c.year, c.month, c.day);
    DaysBeforeMonthMonotone(c.year, c.month + 1, 12);
    DayFromYearStep(c.year);
  }

  lemma MonthUnique(y: int, k: int, a: int, b: int)
    requires 0 <= a < 12 && 0 <= b < 12
    requires DaysBeforeMonth(y, a) <= k < DaysBeforeMonth(y, a + 1)
    requires DaysBeforeMonth(y, b) <= k < DaysBeforeMonth(y, b + 1)
    ensures a == b
  {
    if a < b {
      DaysBeforeMonthMonotone(y, a + 1, b);
    } else if b < a {
      DaysBeforeMonthMonotone(y, b + 1, a);
    }
  }
}

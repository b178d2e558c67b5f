/** Calendar dates as the pages use them: local (year, month, day) triples
    in the proleptic Gregorian calendar, a day count from which the weekday
    is computed, stepping by days (`setDate(getDate() + n)`), the date
    constructor's roll-over of out-of-range months and days, and the
    `YYYY-MM-DD` date key of RFC 3339 section 5.6 (`full-date`). Months run
    1..12 here; JavaScript numbers them 0..11. */
module Dates {
  import opened Base
  import opened Text

  datatype Ymd = Ymd(year: int, month: int, day: int)

  predicate IsLeapYear(y: int)
  {
    y % 4 == 0 && (y % 100 != 0 || y % 400 == 0)
  }

  function DaysInMonth(y: int, m: int): (n: int)
    requires 1 <= m <= 12
    ensures 28 <= n <= 31
    ensures m == 2 ==> (n == 29 <==> IsLeapYear(y))
  {
    if m == 2 then (if IsLeapYear(y) then 29 else 28)
    else if m == 4 || m == 6 || m == 9 || m == 11 then 30
    else 31
  }

  predicate IsValid(d: Ymd)
  {
    1 <= d.month <= 12 && 1 <= d.day <= DaysInMonth(d.year, d.month)
  }

  /** A day that exists in the calendar. */
  type Date = d: Ymd | IsValid(d) witness Ymd(1970, 1, 1)

  function DaysInYear(y: int): int
  {
    if IsLeapYear(y) then 366 else 365
  }

  /** Days from 0001-01-01 to the first of January of year `y`. */
  function DaysBeforeYear(y: int): int
  {
    var p := y - 1;
    365 * p + p / 4 - p / 100 + p / 400
  }

  /** Days from the first of January to the first of month `m`. */
  function DaysBeforeMonth(y: int, m: int): int
    requires 1 <= m <= 12
  {
    var leap := if IsLeapYear(y) then 1 else 0;
    if m == 1 then 0
    else if m == 2 then 31
    else if m == 3 then 59 + leap
    else if m == 4 then 90 + leap
    else if m == 5 then 120 + leap
    else if m == 6 then 151 + leap
    else if m == 7 then 181 + leap
    else if m == 8 then 212 + leap
    else if m == 9 then 243 + leap
    else if m == 10 then 273 + leap
    else if m == 11 then 304 + leap
    else 334 + leap
  }

  /** The day count: days since 0001-01-01, which is day 0. */
  function DayNumber(d: Date): int
  {
    DaysBeforeYear(d.year) + DaysBeforeMonth(d.year, d.month) + d.day - 1
  }

  /** `getDay()`: 0 is Sunday and 6 is Saturday (0001-01-01 was a Monday). */
  function Weekday(d: Date): (w: nat)
    ensures w < 7
  {
    (DayNumber(d) + 1) % 7
  }

  lemma DivStep4(y: int)
    ensures y / 4 - (y - 1) / 4 == if y % 4 == 0 then 1 else 0
  {}

  lemma DivStep100(y: int)
    ensures y / 100 - (y - 1) / 100 == if y % 100 == 0 then 1 else 0
  {}

  lemma DivStep400(y: int)
    ensures y / 400 - (y - 1) / 400 == if y % 400 == 0 then 1 else 0
  {}

  /** Consecutive years start DaysInYear apart: the leap-year rule and the
      closed form of the day count agree. */
  lemma YearLength(y: int)
    ensures DaysBeforeYear(y + 1) == DaysBeforeYear(y) + DaysInYear(y)
  {
    DivStep4(y);
    DivStep100(y);
    DivStep400(y);
  }

  lemma MonthLength(y: int, m: int)
    requires 1 <= m <= 12
    ensures m < 12 ==> DaysBeforeMonth(y, m + 1) == DaysBeforeMonth(y, m) + DaysInMonth(y, m)
    ensures m == 12 ==> DaysBeforeMonth(y, m) + DaysInMonth(y, m) == DaysInYear(y)
  {}

  lemma MonthOrder(y: int, m1: int, m2: int)
    requires 1 <= m1 < m2 <= 12
    ensures DaysBeforeMonth(y, m1) + DaysInMonth(y, m1) <= DaysBeforeMonth(y, m2)
  {}

  /** The day after `d`. */
  function Next(d: Date): (r: Date)
    ensures DayNumber(r) == DayNumber(d) + 1
  {
    MonthLength(d.year, d.month);
    YearLength(d.year);
    if d.day < DaysInMonth(d.year, d.month) then Ymd(d.year, d.month, d.day + 1)
    else if d.month < 12 then Ymd(d.year, d.month + 1, 1)
    else Ymd(d.year + 1, 1, 1)
  }

  /** The day before `d`. */
  function Prev(d: Date): (r: Date)
    ensures DayNumber(r) == DayNumber(d) - 1
  {
    if d.day > 1 then Ymd(d.year, d.month, d.day - 1)
    else if d.month > 1 then
      MonthLength(d.year, d.month - 1);
      Ymd(d.year, d.month - 1, DaysInMonth(d.year, d.month - 1))
    else
      MonthLength(d.year - 1, 12);
      YearLength(d.year - 1);
      Ymd(d.year - 1, 12, 31)
  }

  /** `setDate(getDate() + n)`: the date `n` days later, or `-n` days
      earlier when `n` is negative. */
  function AddDays(d: Date, n: int): (r: Date)
    ensures DayNumber(r) == DayNumber(d) + n
    decreases if n < 0 then -n else n
  {
    if n == 0 then d
    else if n > 0 then AddDays(Next(d), n - 1)
    else AddDays(Prev(d), n + 1)
  }

  /** Calendar order: earlier year, then earlier month, then earlier day. */
  predicate Before(a: Ymd, b: Ymd)
  {
    a.year < b.year || (a.year == b.year && (a.month < b.month || (a.month == b.month && a.day < b.day)))
  }

  lemma {:induction false} DaysBeforeYearMonotone(a: int, b: int)
    requires a <= b
    ensures DaysBeforeYear(a) + 365 * (b - a) <= DaysBeforeYear(b)
    decreases b - a
  {
    if a < b {
      YearLength(a);
      DaysBeforeYearMonotone(a + 1, b);
    }
  }

  lemma DayNumberWithinYear(d: Date)
    ensures DaysBeforeYear(d.year) <= DayNumber(d) < DaysBeforeYear(d.year + 1)
  {
    YearLength(d.year);
    if d.month < 12 {
      MonthOrder(d.year, d.month, 12);
    }
    MonthLength(d.year, 12);
  }

  lemma BeforeDayNumber(a: Date, b: Date)
    requires Before(a, b)
    ensures DayNumber(a) < DayNumber(b)
  {
    if a.year < b.year {
      DayNumberWithinYear(a);
      DayNumberWithinYear(b);
      DaysBeforeYearMonotone(a.year + 1, b.year);
    } else if a.month < b.month {
      MonthOrder(a.year, a.month, b.month);
    }
  }

  /** The day count orders dates as the calendar does, and two dates with
      the same day count are the same date. */
  lemma DayNumberOrder(a: Date, b: Date)
    ensures DayNumber(a) < DayNumber(b) <==> Before(a, b)
    ensures DayNumber(a) == DayNumber(b) <==> a == b
  {
    if Before(a, b) {
      BeforeDayNumber(a, b);
    } else if Before(b, a) {
      BeforeDayNumber(b, a);
    }
  }

  /** Stepping forward and back by the same number of days returns to the start. */
  lemma AddDaysInverse(d: Date, n: int)
    ensures AddDays(AddDays(d, n), -n) == d
  {
    DayNumberOrder(AddDays(AddDays(d, n), -n), d);
  }

  /** `new Date(year, monthIndex, day)`: the month index counts from 0 and
      may fall outside 0..11 (it then moves the year), and a day outside the
      month rolls into the neighbouring months. Years are taken as given:
      the mapping of years 0..99 to 1900 onwards and the range limit of a
      JavaScript date are not part of this model. */
  function MakeDate(year: int, monthIndex: int, day: int): (r: Date)
  {
    AddDays(Ymd(year + monthIndex / 12, monthIndex % 12 + 1, 1), day - 1)
  }

  /** A day that exists in the normalised month is kept as it is. */
  lemma MakeDateInMonth(year: int, monthIndex: int, day: int)
    requires 1 <= day <= DaysInMonth(year + monthIndex / 12, monthIndex % 12 + 1)
    ensures MakeDate(year, monthIndex, day) == Ymd(year + monthIndex / 12, monthIndex % 12 + 1, day)
  {
    DayInMonth(year + monthIndex / 12, monthIndex % 12 + 1, day);
  }

  /** Counting on from the 1st of a month to a day the month has. */
  lemma DayInMonth(y: int, m: int, day: int)
    requires 1 <= m <= 12 && 1 <= day <= DaysInMonth(y, m)
    ensures AddDays(Ymd(y, m, 1), day - 1) == Ymd(y, m, day)
  {
    DayNumberOrder(AddDays(Ymd(y, m, 1), day - 1), Ymd(y, m, day));
  }

  /** `new Date(y, m, 0).getDate()` (month index `m` is the month after the
      1-based month `m`) is the length of month `m`. */
  lemma MakeDateDayZero(y: int, m: int)
    requires 1 <= m <= 12
    ensures MakeDate(y, m, 0) == Ymd(y, m, DaysInMonth(y, m))
  {
    var last: Date := Ymd(y, m, DaysInMonth(y, m));
    var first: Date := Ymd(y + m / 12, m % 12 + 1, 1);
    MonthLength(y, m);
    if m < 12 {
      assert first == Ymd(y, m + 1, 1);
    } else {
      assert first == Ymd(y + 1, 1, 1);
      YearLength(y);
    }
    assert DayNumber(last) == DayNumber(first) - 1;
    var r := MakeDate(y, m, 0);
    assert r == AddDays(first, -1);
    DayNumberOrder(r, last);
  }

  /** The year as `toISOString()` writes it: four digits for years 0..9999,
      otherwise a sign and at least six digits. */
  function YearText(y: int): string
  {
    if 0 <= y <= 9999 then PadStart(NatToString(y), 4, '0')
    else (if y < 0 then "-" else "+") + PadStart(NatToString(if y < 0 then -y else y), 6, '0')
  }

  function TwoDigits(n: nat): string
  {
    PadStart(NatToString(n), 2, '0')
  }

  /** The date key `YYYY-MM-DD` (`full-date`, RFC 3339 section 5.6). */
  function DateKey(d: Date): string
  {
    YearText(d.year) + "-" + TwoDigits(d.month) + "-" + TwoDigits(d.day)
  }

  function ParseYearText(t: string): Option<int>
  {
    if |t| == 4 && AllDigits(t) then Some(DigitsValue(t))
    else if |t| >= 7 && (t[0] == '+' || t[0] == '-') && AllDigits(t[1..]) then
      Some(if t[0] == '-' then 0 - DigitsValue(t[1..]) else DigitsValue(t[1..]))
    else None
  }

  /** Reads a date key back; `None` for text that is not the key of a day. */
  function ParseDateKey(key: string): Option<Date>
  {
    var n := |key|;
    if n >= 10 && key[n - 6] == '-' && key[n - 3] == '-'
       && AllDigits(key[n - 5..n - 3]) && AllDigits(key[n - 2..]) then
      match ParseYearText(key[..n - 6])
      case None => None
      case Some(y) =>
        var m := DigitsValue(key[n - 5..n - 3]);
        var d := DigitsValue(key[n - 2..]);
        if 1 <= m <= 12 && 1 <= d <= DaysInMonth(y, m) then Some(Ymd(y, m, d)) else None
    else None
  }

  lemma TwoDigitsExact(n: nat)
    requires n < 100
    ensures |TwoDigits(n)| == 2 && AllDigits(TwoDigits(n)) && DigitsValue(TwoDigits(n)) == n
  {
    NatToStringLength(n, 2);
    PaddedNatValue(n, 2);
  }

  lemma YearTextRoundTrip(y: int)
    ensures ParseYearText(YearText(y)) == Some(y)
    ensures |YearText(y)| >= 4
  {
    if 0 <= y <= 9999 {
      ShortYearText(y);
    } else {
      LongYearText(y);
    }
  }

  lemma ShortYearText(y: int)
    requires 0 <= y <= 9999
    ensures ParseYearText(YearText(y)) == Some(y) && |YearText(y)| == 4
  {
    var t := PadStart(NatToString(y), 4, '0');
    assert YearText(y) == t;
    assert Pow10(4) == 10000 by {
      assert Pow10(1) == 10;
      assert Pow10(2) == 100;
      assert Pow10(3) == 1000;
    }
    NatToStringLength(y, 4);
    PaddedNatValue(y, 4);
    assert |t| == 4 && AllDigits(t) && DigitsValue(t) == y;
  }

  lemma LongYearText(y: int)
    requires y < 0 || 9999 < y
    ensures ParseYearText(YearText(y)) == Some(y) && |YearText(y)| >= 7
  {
    PaddedNatValue(if y < 0 then -y else y, 6);
    SignedYear(if y < 0 then '-' else '+', PadStart(NatToString(if y < 0 then -y else y), 6, '0'), y);
  }

  /** A sign followed by at least six digits reads back as the signed year. */
  lemma SignedYear(sign: char, digits: string, y: int)
    requires |digits| >= 6 && AllDigits(digits)
    requires sign == (if y < 0 then '-' else '+')
    requires DigitsValue(digits) == (if y < 0 then -y else y)
    ensures ParseYearText([sign] + digits) == Some(y) && |[sign] + digits| >= 7
  {
    assert ([sign] + digits)[1..] == digits;
  }

  /** Every date key reads back as its date, so distinct days have
      distinct keys. */
  lemma DateKeyRoundTrip(d: Date)
    ensures ParseDateKey(DateKey(d)) == Some(d)
  {
    var yt := YearText(d.year);
    var mt := TwoDigits(d.month);
    var dt := TwoDigits(d.day);
    var key := yt + "-" + mt + "-" + dt;
    assert DateKey(d) == key;
    YearTextRoundTrip(d.year);
    TwoDigitsExact(d.month);
    TwoDigitsExact(d.day);
    ParseKeyFields(yt, mt, dt, d.year, d.month, d.day);
  }

  lemma ParseKeyFields(yt: string, mt: string, dt: string, y: int, m: int, d: int)
    requires |yt| >= 4 && ParseYearText(yt) == Some(y)
    requires |mt| == 2 && AllDigits(mt) && DigitsValue(mt) == m
    requires |dt| == 2 && AllDigits(dt) && DigitsValue(dt) == d
    requires 1 <= m <= 12 && 1 <= d <= DaysInMonth(y, m)
    ensures ParseDateKey(yt + "-" + mt + "-" + dt) == Some(Ymd(y, m, d))
  {
    KeyFields(yt, mt, dt);
  }

  lemma KeyFields(yt: string, mt: string, dt: string)
    requires |mt| == 2 && |dt| == 2
    ensures var key := yt + "-" + mt + "-" + dt;
      var n := |key|;
      n == |yt| + 6 && key[..n - 6] == yt && key[n - 6] == '-' && key[n - 5..n - 3] == mt
      && key[n - 3] == '-' && key[n - 2..] == dt
  {
    var key := yt + "-" + mt + "-" + dt;
    var n := |key|;
    assert key[..n - 6] == yt;
    assert key[n - 5..n - 3] == mt;
    assert key[n - 2..] == dt;
  }

  lemma DateKeyInjective(a: Date, b: Date)
    ensures DateKey(a) == DateKey(b) <==> a == b
  {
    DateKeyRoundTrip(a);
    DateKeyRoundTrip(b);
  }

  /** Month navigation AS WRITTEN: `setMonth(getMonth() + delta)` keeps the
      day of the month, so it lands in the month `delta` months away exactly
      when that month has the day; otherwise it rolls over into the month
      after it. */
  function ChangeMonthAsWritten(d: Date, delta: int): (r: Date)
    ensures (r.year == d.year + (d.month - 1 + delta) / 12 && r.month == (d.month - 1 + delta) % 12 + 1)
        <==> d.day <= DaysInMonth(d.year + (d.month - 1 + delta) / 12, (d.month - 1 + delta) % 12 + 1)
  {
    RollDays(d.year + (d.month - 1 + delta) / 12, (d.month - 1 + delta) % 12 + 1, d.day)
  }

  /** The day `day` counted on from the 1st of month `m` of year `y`: that
      day of the month when the month has it, otherwise a day of a later
      month. */
  function RollDays(y: int, m: int, day: int): (r: Date)
    requires 1 <= m <= 12 && day >= 1
    ensures (r.year == y && r.month == m) <==> day <= DaysInMonth(y, m)
  {
    var first: Date := Ymd(y, m, 1);
    var r := AddDays(first, day - 1);
    SameMonthOffset(r, first, day - 1);
    if day <= DaysInMonth(y, m) then
      var kept: Date := Ymd(y, m, day);
      DayNumberOrder(r, kept);
      r
    else r
  }

  /** Within one month, the day count moves with the day of the month. */
  lemma SameMonthOffset(r: Date, first: Date, n: int)
    requires first.day == 1 && DayNumber(r) == DayNumber(first) + n
    ensures r.year == first.year && r.month == first.month ==> r.day == n + 1
  {
  }

  /** The 31st of January moved one month on shows the 3rd of March (the
      2nd in a leap year): February is skipped. */
  lemma ChangeMonthSkipsFebruary(y: int)
    ensures ChangeMonthAsWritten(Ymd(y, 1, 31), 1) == Ymd(y, 3, if IsLeapYear(y) then 2 else 3)
  {
    var r := ChangeMonthAsWritten(Ymd(y, 1, 31), 1);
    var first: Date := Ymd(y, 2, 1);
    var want: Date := Ymd(y, 3, if IsLeapYear(y) then 2 else 3);
    assert r == AddDays(first, 30);
    assert DayNumber(want) == DayNumber(first) + 30;
    DayNumberOrder(r, want);
  }

  /** Month navigation as intended: the first day of the month `delta`
      months away. */
  function ShiftMonth(d: Date, delta: int): (r: Date)
    ensures r.day == 1
    ensures 12 * r.year + r.month == 12 * d.year + d.month + delta
  {
    var index := d.month - 1 + delta;
    MakeDateInMonth(d.year, index, 1);
    MakeDate(d.year, index, 1)
  }

  /** Moving back by as many months as were moved forward returns to the
      first day of the starting month. */
  lemma ShiftMonthInverse(d: Date, delta: int)
    ensures ShiftMonth(ShiftMonth(d, delta), -delta) == Ymd(d.year, d.month, 1)
  {
    var r := ShiftMonth(ShiftMonth(d, delta), -delta);
    assert 12 * r.year + r.month == 12 * d.year + d.month;
  }
}

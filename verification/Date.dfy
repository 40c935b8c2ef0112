/** Julian day numbers (arale/base/Date.cc) against the proleptic Gregorian calendar. */
module Date {
  import opened CInt

  const DAYS_PER_WEEK := 7
  const JULIAN_DAY_1970 := 2440588

  datatype YMD = YMD(year: int, month: int, day: int)

  function JulianDayNumber(d: YMD): int {
    var a := Quot(14 - d.month, 12);
    var y := d.year + 4800 - a;
    var m := d.month + 12 * a - 3;
    d.day + Quot(153 * m + 2, 5) + y * 365 + Quot(y, 4) - Quot(y, 100) + Quot(y, 400) - 32045
  }

  function YearMonthDay(julianDayNumber: int): YMD {
    var a := julianDayNumber + 32044;
    var b := Quot(4 * a + 3, 146097);
    var c := a - Quot(b * 146097, 4);
    var d := Quot(4 * c + 3, 1461);
    var e := c - Quot(1461 * d, 4);
    var m := Quot(5 * e + 2, 153);
    YMD(b * 100 + d - 4800 + Quot(m, 10),
        m + 3 - 12 * Quot(m, 10),
        e - Quot(153 * m + 2, 5) + 1)
  }

  lemma EpochDay()
    ensures JulianDayNumber(YMD(1970, 1, 1)) == 2440588 == JULIAN_DAY_1970
  {
  }

  /** [0..6] is [Sunday..Saturday]; the C++ `%` goes negative below day -1. */
  function WeekDay(julianDayNumber: int): int {
    Rem(julianDayNumber + 1, DAYS_PER_WEEK)
  }

  // ---- The calendar, written down without any day numbers ----

  predicate IsLeap(year: int) {
    year % 4 == 0 && (year % 100 != 0 || year % 400 == 0)
  }

  function DaysInMonth(year: int, month: int): int
    requires 1 <= month <= 12
  {
    if month == 2 then (if IsLeap(year) then 29 else 28)
    else if month == 4 || month == 6 || month == 9 || month == 11 then 30
    else 31
  }

  predicate IsDate(d: YMD) {
    1 <= d.month <= 12 && 1 <= d.day <= DaysInMonth(d.year, d.month)
  }

  function NextDay(d: YMD): (n: YMD)
    requires IsDate(d)
    ensures IsDate(n)
  {
    if d.day < DaysInMonth(d.year, d.month) then d.(day := d.day + 1)
    else if d.month < 12 then YMD(d.year, d.month + 1, 1)
    else YMD(d.year + 1, 1, 1)
  }

  /** From 1 March -4800 on (astronomical years) no dividend in the formulas is negative. */
  predicate Covered(d: YMD) {
    IsDate(d) && (d.year > -4800 || (d.year == -4800 && d.month >= 3))
  }

  // ---- A date as (century, year of century, month, day), years starting on 1 March ----

  /** Days before month `m` of a year that starts in March. */
  function MonthStart(m: int): int { (153 * m + 2) / 5 }

  /** Days before year `yoc` of a century that starts in March. */
  function YearStart(yoc: int): int { 1461 * yoc / 4 }

  /** Days before a century that starts in March. */
  function CenturyStart(century: int): int { 146097 * century / 4 }

  function DayCount(century: int, yoc: int, m: int, day: int): int {
    CenturyStart(century) + YearStart(yoc) + MonthStart(m) + day - 1
  }

  lemma Starts(century: int, yoc: int)
    ensures 4 * YearStart(yoc) == 1461 * yoc - yoc % 4
    ensures 4 * CenturyStart(century) == 146097 * century - century % 4
  {
  }

  /** A year of the century that ends on 29 February. */
  predicate EndsLeap(century: int, yoc: int) {
    yoc % 4 == 3 && (yoc != 99 || century % 4 == 3)
  }

  predicate InRange(century: int, yoc: int, m: int) {
    century >= 0 && 0 <= yoc < 100 && 0 <= m <= 11
  }

  predicate IsMarchDate(d: YMD, century: int, yoc: int, m: int) {
    && InRange(century, yoc, m)
    && d.month == (if m >= 10 then m - 9 else m + 3)
    && d.year == 100 * century + yoc - 4800 + (if m >= 10 then 1 else 0)
  }

  lemma MarchDate(d: YMD) returns (century: int, yoc: int, m: int)
    requires Covered(d)
    ensures IsMarchDate(d, century, yoc, m)
  {
    var y := d.year + 4800 - (if d.month <= 2 then 1 else 0);
    century, yoc := y / 100, y % 100;
    m := if d.month <= 2 then d.month + 9 else d.month - 3;
  }

  lemma DivMod4(q: int, r: int)
    requires 0 <= r < 4
    ensures (4 * q + r) / 4 == q && (4 * q + r) % 4 == r
  {
  }

  lemma DivMod100(q: int, r: int)
    requires 0 <= r < 100
    ensures (100 * q + r) / 100 == q && (100 * q + r) % 100 == r
  {
  }

  lemma DivMod400(q: int, r: int)
    requires 0 <= r < 400
    ensures (400 * q + r) / 400 == q && (400 * q + r) % 400 == r
  {
  }

  /** The years y that the formula divides by 4, 100 and 400, read off the split. */
  lemma YearQuotients(century: int, yoc: int)
    requires 0 <= yoc < 100
    ensures var y := 100 * century + yoc;
            y / 100 == century && y / 4 == 25 * century + yoc / 4 && y / 400 == century / 4
  {
    DivMod100(century, yoc);
    DivMod4(25 * century + yoc / 4, yoc % 4);
    DivMod400(century / 4, 100 * (century % 4) + yoc);
  }

  lemma JulianDayOfMarchDate(d: YMD, century: int, yoc: int, m: int)
    requires IsMarchDate(d, century, yoc, m)
    ensures JulianDayNumber(d) + 32044 == DayCount(century, yoc, m, d.day)
  {
    YearQuotients(century, yoc);
    Starts(century, yoc);
    assert Quot(14 - d.month, 12) == if d.month <= 2 then 1 else 0;
  }

  lemma LeapByDigits(q: int, r: int, u: int, v: int)
    requires 0 <= r < 4 && 0 <= u < 25 && 0 <= v < 4
    ensures IsLeap(400 * q + 100 * r + 4 * u + v) <==> v == 0 && (u != 0 || r == 0)
  {
    DivMod4(100 * q + 25 * r + u, v);
    DivMod100(4 * q + r, 4 * u + v);
    DivMod400(q, 100 * r + 4 * u + v);
  }

  /** A March-based year runs into February of the next calendar year. */
  lemma LeapOfMarchYear(century: int, yoc: int)
    requires 0 <= yoc < 100
    ensures IsLeap(100 * century + yoc - 4800 + 1) <==> EndsLeap(century, yoc)
  {
    var q, r := century / 4, century % 4;
    if yoc == 99 && r == 3 {
      LeapByDigits(q - 11, 0, 0, 0);
    } else if yoc == 99 {
      LeapByDigits(q - 12, r + 1, 0, 0);
    } else if yoc % 4 == 3 {
      LeapByDigits(q - 12, r, yoc / 4 + 1, 0);
    } else {
      LeapByDigits(q - 12, r, yoc / 4, yoc % 4 + 1);
    }
  }

  /** Month length in a March-based year. */
  function MarchMonthLength(century: int, yoc: int, m: int): int {
    if m < 11 then MonthStart(m + 1) - MonthStart(m)
    else if EndsLeap(century, yoc) then 29 else 28
  }

  lemma MonthLengths(d: YMD, century: int, yoc: int, m: int)
    requires IsMarchDate(d, century, yoc, m)
    ensures DaysInMonth(d.year, d.month) == MarchMonthLength(century, yoc, m)
  {
    LeapOfMarchYear(century, yoc);
  }

  /** The day of the year determines month and day of the month. */
  lemma SplitDayOfYear(century: int, yoc: int, m: int, day: int)
    requires 0 <= m <= 11 && 1 <= day <= MarchMonthLength(century, yoc, m)
    ensures var doy := MonthStart(m) + day - 1;
            (5 * doy + 2) / 153 == m && 0 <= doy <= 365 && (doy == 365 ==> EndsLeap(century, yoc))
  {
  }

  /** The day count determines century, year of the century and day of the year. */
  lemma SplitDayCount(century: int, yoc: int, doy: int)
    requires century >= 0 && 0 <= yoc < 100 && 0 <= doy <= 365
    requires doy == 365 ==> EndsLeap(century, yoc)
    ensures var c := YearStart(yoc) + doy;
            (4 * (CenturyStart(century) + c) + 3) / 146097 == century && (4 * c + 3) / 1461 == yoc
  {
    Starts(century, yoc);
    SplitDividends(century, yoc, doy, YearStart(yoc), CenturyStart(century));
  }

  lemma SplitDividends(century: int, yoc: int, doy: int, x: int, y: int)
    requires century >= 0 && 0 <= yoc < 100 && 0 <= doy <= 365
    requires doy == 365 ==> EndsLeap(century, yoc)
    requires 4 * x == 1461 * yoc - yoc % 4 && 4 * y == 146097 * century - century % 4
    ensures var c := x + doy;
            (4 * (y + c) + 3) / 146097 == century && (4 * c + 3) / 1461 == yoc
  {
    var c := x + doy;
    var r := 4 * c + 3 - century % 4;
    var s := 4 * doy + 3 - yoc % 4;
    assert 0 <= s < 1461 && 4 * c + 3 == 1461 * yoc + s;
    assert 0 <= r < 146097 && 4 * (y + c) + 3 == 146097 * century + r;
  }

  // ---- The two functions are inverse to each other ----

  /** What YearMonthDay computes from a day count split into its levels. */
  lemma ReadMarchDate(n: int, century: int, yoc: int, m: int, doy: int)
    requires InRange(century, yoc, m) && 0 <= doy <= 365
    requires n + 32044 == CenturyStart(century) + YearStart(yoc) + doy
    requires (5 * doy + 2) / 153 == m
    requires doy == 365 ==> EndsLeap(century, yoc)
    ensures IsMarchDate(YearMonthDay(n), century, yoc, m)
    ensures YearMonthDay(n).day == doy - MonthStart(m) + 1
  {
    SplitDayCount(century, yoc, doy);
    var c := YearStart(yoc) + doy;
    assert Quot(4 * (n + 32044) + 3, 146097) == century;
    assert n + 32044 - Quot(century * 146097, 4) == c;
    assert Quot(4 * c + 3, 1461) == yoc && c - Quot(1461 * yoc, 4) == doy;
    assert Quot(m, 10) == if m >= 10 then 1 else 0;
  }

  /** A March date whose day count is known reads back as itself. */
  lemma MarchDateReads(d: YMD, n: int, century: int, yoc: int, m: int)
    requires IsDate(d) && IsMarchDate(d, century, yoc, m)
    requires n + 32044 == DayCount(century, yoc, m, d.day)
    ensures YearMonthDay(n) == d && n >= -32044
  {
    hide JulianDayNumber, YearMonthDay;
    MonthLengths(d, century, yoc, m);
    SplitDayOfYear(century, yoc, m, d.day);
    ReadMarchDate(n, century, yoc, m, MonthStart(m) + d.day - 1);
  }

  lemma SplitCentury(a: int) returns (century: int, c: int)
    requires a >= 0
    ensures century >= 0 && a == CenturyStart(century) + c
    ensures 0 <= c <= 36524 && (c == 36524 ==> century % 4 == 3)
  {
    century := (4 * a + 3) / 146097;
    Starts(century, 0);
    c := a - CenturyStart(century);
  }

  lemma SplitYear(century: int, c: int) returns (yoc: int, doy: int)
    requires 0 <= c <= 36524 && (c == 36524 ==> century % 4 == 3)
    ensures 0 <= yoc < 100 && c == YearStart(yoc) + doy
    ensures 0 <= doy <= 365 && (doy == 365 ==> EndsLeap(century, yoc))
  {
    yoc := (4 * c + 3) / 1461;
    Starts(century, yoc);
    doy := c - YearStart(yoc);
  }

  /** Every day count from 0 on splits into century, year of century, month and day. */
  lemma SplitDay(n: int) returns (century: int, yoc: int, m: int, day: int)
    requires n >= -32044
    ensures InRange(century, yoc, m) && 1 <= day <= MarchMonthLength(century, yoc, m)
    ensures n + 32044 == DayCount(century, yoc, m, day)
  {
    var c, doy;
    century, c := SplitCentury(n + 32044);
    yoc, doy := SplitYear(century, c);
    m := (5 * doy + 2) / 153;
    day := doy - MonthStart(m) + 1;
  }

  /** Converting a covered date to its day number and back gives the date. */
  lemma CoveredRoundTrip(d: YMD)
    requires Covered(d)
    ensures YearMonthDay(JulianDayNumber(d)) == d
    ensures JulianDayNumber(d) >= -32044
  {
    hide JulianDayNumber, YearMonthDay;
    var century, yoc, m := MarchDate(d);
    JulianDayOfMarchDate(d, century, yoc, m);
    MarchDateReads(d, JulianDayNumber(d), century, yoc, m);
  }

  /** Converting a day number to a date gives a calendar date with that day number. */
  lemma DayRoundTrip(n: int)
    requires n >= -32044
    ensures Covered(YearMonthDay(n))
    ensures JulianDayNumber(YearMonthDay(n)) == n
  {
    hide JulianDayNumber, YearMonthDay;
    var century, yoc, m, day := SplitDay(n);
    var d := YMD(100 * century + yoc - 4800 + (if m >= 10 then 1 else 0), if m >= 10 then m - 9 else m + 3, day);
    MonthLengths(d, century, yoc, m);
    MarchDateReads(d, n, century, yoc, m);
    JulianDayOfMarchDate(d, century, yoc, m);
  }

  /** Negative day counts come back with a day of the month below 1. */
  lemma BelowRange(n: int)
    requires n < -32044
    ensures YearMonthDay(n).day <= 0
  {
    var a := n + 32044;
    var b := Quot(4 * a + 3, 146097);
    var c := a - Quot(b * 146097, 4);
    assert c < 0;
    var d := Quot(4 * c + 3, 1461);
    var e := c - Quot(1461 * d, 4);
    assert e < 0;
    var m := Quot(5 * e + 2, 153);
    assert e - Quot(153 * m + 2, 5) + 1 <= 0;
  }

  lemma EarlierDaysAreNotPositive(d: YMD)
    requires IsDate(d) && !Covered(d)
    ensures JulianDayNumber(d) <= -32044
  {
    var a := Quot(14 - d.month, 12);
    var k := -(d.year + 4800 - a);
    assert k >= 1 && Quot(-k, 4) - Quot(-k, 100) + Quot(-k, 400) <= 0;
    assert d.day + Quot(153 * (d.month + 12 * a - 3) + 2, 5) <= 366;
  }

  /** Exactly the dates from 1 March -4800 on survive the trip to a day number and back. */
  lemma DateRoundTrip(d: YMD)
    requires IsDate(d)
    ensures YearMonthDay(JulianDayNumber(d)) == d <==> Covered(d)
  {
    hide JulianDayNumber, YearMonthDay;
    if Covered(d) {
      CoveredRoundTrip(d);
    } else {
      EarlierDaysAreNotPositive(d);
      if JulianDayNumber(d) < -32044 {
        BelowRange(JulianDayNumber(d));
      } else {
        DayRoundTrip(-32044);
      }
    }
  }

  /** The month after a month of a March year, in the split count. */
  lemma NextMarchMonth(century: int, yoc: int, m: int, days: int)
    returns (century': int, yoc': int, m': int)
    requires InRange(century, yoc, m) && days == MarchMonthLength(century, yoc, m)
    ensures InRange(century', yoc', m')
    ensures m < 11 ==> century' == century && yoc' == yoc && m' == m + 1
    ensures m == 11 ==> m' == 0 && 100 * century' + yoc' == 100 * century + yoc + 1
    ensures DayCount(century', yoc', m', 1) == DayCount(century, yoc, m, days) + 1
  {
    century', yoc', m' := century, yoc, m + 1;
    if m == 11 {
      century', yoc', m' := if yoc < 99 then century else century + 1, if yoc < 99 then yoc + 1 else 0, 0;
      Starts(century, yoc);
      Starts(century', yoc');
    }
  }

  /** The next date of a March date, one day further in the split count. */
  lemma NextMarchDate(d: YMD, century: int, yoc: int, m: int)
    returns (century': int, yoc': int, m': int)
    requires IsDate(d) && IsMarchDate(d, century, yoc, m)
    ensures IsMarchDate(NextDay(d), century', yoc', m')
    ensures DayCount(century', yoc', m', NextDay(d).day) == DayCount(century, yoc, m, d.day) + 1
  {
    MonthLengths(d, century, yoc, m);
    century', yoc', m' := century, yoc, m;
    if d.day == DaysInMonth(d.year, d.month) {
      century', yoc', m' := NextMarchMonth(century, yoc, m, d.day);
    }
  }

  /** The calendar's next date has the next day number. */
  lemma NextDayNumber(d: YMD)
    requires Covered(d)
    ensures Covered(NextDay(d))
    ensures JulianDayNumber(NextDay(d)) == JulianDayNumber(d) + 1
  {
    hide JulianDayNumber, YearMonthDay;
    var century, yoc, m := MarchDate(d);
    JulianDayOfMarchDate(d, century, yoc, m);
    var century', yoc', m' := NextMarchDate(d, century, yoc, m);
    JulianDayOfMarchDate(NextDay(d), century', yoc', m');
  }

  /** The date `days` steps after `d`. */
  function DaysAfter(d: YMD, days: nat): (r: YMD)
    requires IsDate(d)
    ensures IsDate(r)
  {
    if days == 0 then d else NextDay(DaysAfter(d, days - 1))
  }

  /** Day numbers count calendar steps, from any covered date. */
  lemma {:induction false} DayNumbersCountDays(d: YMD, days: nat)
    requires Covered(d)
    ensures Covered(DaysAfter(d, days))
    ensures JulianDayNumber(DaysAfter(d, days)) == JulianDayNumber(d) + days
  {
    hide JulianDayNumber, YearMonthDay;
    if days > 0 {
      DayNumbersCountDays(d, days - 1);
      NextDayNumber(DaysAfter(d, days - 1));
    }
  }

  // ---- 32-bit int ----

  const LAST_DAY := 536838867

  predicate DayNumberFits(d: YMD) {
    var a := Quot(14 - d.month, 12);
    var y := d.year + 4800 - a;
    var m := d.month + 12 * a - 3;
    && FitsInt(14 - d.month) && FitsInt(d.year + 4800) && FitsInt(y) && FitsInt(153 * m + 2)
    && FitsInt(d.day + Quot(153 * m + 2, 5)) && FitsInt(y * 365)
    && FitsInt(d.day + Quot(153 * m + 2, 5) + y * 365)
    && FitsInt(d.day + Quot(153 * m + 2, 5) + y * 365 + Quot(y, 4))
    && FitsInt(d.day + Quot(153 * m + 2, 5) + y * 365 + Quot(y, 4) - Quot(y, 100))
    && FitsInt(JulianDayNumber(d) + 32045) && FitsInt(JulianDayNumber(d))
  }

  predicate YearMonthDayFits(n: int) {
    var a := n + 32044;
    var b := Quot(4 * a + 3, 146097);
    var c := a - Quot(b * 146097, 4);
    var d := Quot(4 * c + 3, 1461);
    var e := c - Quot(1461 * d, 4);
    var m := Quot(5 * e + 2, 153);
    && FitsInt(a) && FitsInt(4 * a) && FitsInt(4 * a + 3) && FitsInt(b * 146097) && FitsInt(c)
    && FitsInt(4 * c + 3) && FitsInt(1461 * d) && FitsInt(e) && FitsInt(5 * e + 2)
    && FitsInt(153 * m + 2) && FitsInt(b * 100 + d)
  }

  /** From day -32044 on, no intermediate int overflows exactly up to LAST_DAY. */
  lemma YearMonthDayFitsInt(n: int)
    requires n >= -32044
    ensures YearMonthDayFits(n) <==> n <= LAST_DAY
  {
    var a := n + 32044;
    var b := (4 * a + 3) / 146097;
    assert 0 <= a - b * 146097 / 4 <= 36524;
  }

  predicate NotAfter(d: YMD, e: YMD) {
    d.year < e.year || (d.year == e.year && (d.month < e.month || (d.month == e.month && d.day <= e.day)))
  }

  const LAST_DATE := YMD(5874689, 12, 15)

  /** The day number of a covered date is computed without overflow exactly up to 15 December 5874689. */
  lemma DayNumberFitsInt(d: YMD)
    requires Covered(d)
    ensures DayNumberFits(d) <==> NotAfter(d, LAST_DATE)
  {
    var century, yoc, m := MarchDate(d);
    var y := 100 * century + yoc;
    YearQuotients(century, yoc);
    assert Quot(14 - d.month, 12) == if d.month <= 2 then 1 else 0;
    assert 1 <= d.day + Quot(153 * m + 2, 5) <= 367;
    assert y <= 5879488 ==> y * 365 + Quot(y, 4) <= INT_MAX - 367;
    assert y >= 5879490 ==> y * 365 + Quot(y, 4) > INT_MAX;
    assert y == 5879489 ==> y * 365 + Quot(y, 4) == INT_MAX - 290;
  }
}

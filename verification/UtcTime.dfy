/** Broken-down UTC times (arale/base/TimeZone.cc, the parts that need no zone table). */
module UtcTime {
  import opened CInt
  import opened Date

  const SECONDS_PER_DAY := 86400

  /** `struct tm` without the zone name; `year` counts from 1900 and `mon` from 0. */
  datatype Tm = Tm(sec: int, min: int, hour: int, mday: int, mon: int, year: int,
                   wday: int, yday: int, isdst: bool, gmtoff: int)

  // ---- UTC ----

  function DateOf(tm: Tm): YMD { YMD(tm.year + 1900, tm.mon + 1, tm.mday) }

  function DayOf(t: int): int { t / SECONDS_PER_DAY + JULIAN_DAY_1970 }

  /** The instants whose date stays inside the range of the calendar formulas. */
  predicate InUtcRange(t: int) {
    -32044 <= DayOf(t) <= LAST_DAY
  }

  /** The broken-down time at second `s` of day number `n`. */
  function TmAt(n: int, s: int, yday: bool): Tm {
    var date := YearMonthDay(n);
    Tm(s % 60, s / 60 % 60, s / 3600, date.day, date.month - 1, date.year - 1900, WeekDay(n),
       if yday then n - JulianDayNumber(YMD(date.year, 1, 1)) else 0, false, 0)
  }

  /** The broken-down time of an instant: whole days since the epoch and the rest of the day. */
  function UtcOf(t: int, yday: bool): Tm {
    TmAt(DayOf(t), t % SECONDS_PER_DAY, yday)
  }

  function FromUtc(year: int, month: int, day: int, hour: int, minute: int, seconds: int): int {
    var secondsInDay := hour * 3600 + minute * 60 + seconds;
    var days := JulianDayNumber(YMD(year, month, day)) - JULIAN_DAY_1970;
    days * SECONDS_PER_DAY + secondsInDay
  }

  function FromUtcTm(utc: Tm): int {
    FromUtc(utc.year + 1900, utc.mon + 1, utc.mday, utc.hour, utc.min, utc.sec)
  }

  predicate IsTimeOfDay(tm: Tm) {
    0 <= tm.sec < 60 && 0 <= tm.min < 60 && 0 <= tm.hour < 24
  }

  method FillHMS(seconds: nat, utc: Tm) returns (r: Tm)
    ensures r == utc.(sec := seconds % 60, min := seconds / 60 % 60, hour := seconds / 3600)
  {
    r := utc.(sec := seconds % 60);
    var minutes := seconds / 60;
    r := r.(min := minutes % 60);
    r := r.(hour := minutes / 60);
  }

  /** The casts to int lose nothing in range, and the repaired remainder is a second of the day. */
  lemma SplitInstant(t: int)
    ensures var seconds := CastInt(Rem(t, SECONDS_PER_DAY));
            if seconds < 0 then seconds + SECONDS_PER_DAY == t % SECONDS_PER_DAY
            else seconds == t % SECONDS_PER_DAY
    ensures InUtcRange(t) ==>
              var days := CastInt(Quot(t, SECONDS_PER_DAY));
              DayOf(t) == (if Rem(t, SECONDS_PER_DAY) < 0 then days - 1 else days) + JULIAN_DAY_1970
    ensures CastInt(Rem(t, SECONDS_PER_DAY)) == Rem(t, SECONDS_PER_DAY)
  {
    RepairedDivision(t, SECONDS_PER_DAY);
  }

  method ToUtcTime(secondsSinceEpoch: int, yday: bool) returns (utc: Tm)
    ensures InUtcRange(secondsSinceEpoch) ==> utc == UtcOf(secondsSinceEpoch, yday)
  {
    hide JulianDayNumber, YearMonthDay;
    utc := Tm(0, 0, 0, 0, 0, 0, 0, 0, false, 0);
    var seconds := CastInt(Rem(secondsSinceEpoch, SECONDS_PER_DAY));
    var days := CastInt(Quot(secondsSinceEpoch, SECONDS_PER_DAY));
    SplitInstant(secondsSinceEpoch);
    if seconds < 0 {
      seconds := seconds + SECONDS_PER_DAY;
      days := days - 1;
    }
    utc := FillHMS(seconds, utc);
    var date := days + JULIAN_DAY_1970;
    assert InUtcRange(secondsSinceEpoch) ==> date == DayOf(secondsSinceEpoch);
    var ymd := YearMonthDay(date);
    utc := utc.(year := ymd.year - 1900, mon := ymd.month - 1, mday := ymd.day, wday := WeekDay(date));
    if yday {
      var startOfYear := JulianDayNumber(YMD(ymd.year, 1, 1));
      utc := utc.(yday := date - startOfYear);
    }
  }

  /** A time of day is determined by its seconds, and the other way round. */
  lemma TimeOfDay(hour: int, min: int, sec: int)
    requires 0 <= sec < 60 && 0 <= min < 60 && 0 <= hour < 24
    ensures var s := hour * 3600 + min * 60 + sec;
            0 <= s < SECONDS_PER_DAY && s % 60 == sec && s / 60 % 60 == min && s / 3600 == hour
  {
    var s := hour * 3600 + min * 60 + sec;
    FloorUnique(s, 60, hour * 60 + min, sec);
    FloorUnique(hour * 60 + min, 60, hour, min);
    FloorUnique(s, 3600, hour, min * 60 + sec);
  }

  lemma SecondsOfDay(s: int)
    requires 0 <= s < SECONDS_PER_DAY
    ensures 0 <= s / 3600 < 24 && s == s / 3600 * 3600 + s / 60 % 60 * 60 + s % 60
  {
  }

  /** Breaking an instant down and putting it together again gives the instant. */
  lemma UtcRoundTrip(t: int, yday: bool)
    requires InUtcRange(t)
    ensures IsTimeOfDay(UtcOf(t, yday)) && Covered(DateOf(UtcOf(t, yday)))
    ensures FromUtcTm(UtcOf(t, yday)) == t
  {
    hide JulianDayNumber, YearMonthDay, WeekDay;
    DayRoundTrip(DayOf(t));
    SecondsOfDay(t % SECONDS_PER_DAY);
  }

  /** What the fields of a broken-down time say, counted out in seconds: it is the instant. */
  lemma FieldsAreInstant(t: int, yday: bool)
    requires InUtcRange(t)
    ensures var u := UtcOf(t, yday);
            && 0 <= u.sec <= 59 && 0 <= u.min <= 59 && 0 <= u.hour <= 23 && 0 <= u.mon <= 11
            && (JulianDayNumber(YMD(u.year + 1900, u.mon + 1, u.mday)) - 2440588) * 86400
               + u.hour * 3600 + u.min * 60 + u.sec == t
            && !u.isdst && u.gmtoff == 0 && (!yday ==> u.yday == 0)
  {
    hide JulianDayNumber, YearMonthDay, WeekDay;
    UtcRoundTrip(t, yday);
  }

  /** The epoch: 00:00:00 on Thursday, 1 January 1970. */
  lemma EpochFields()
    ensures UtcOf(0, true) == Tm(0, 0, 0, 1, 0, 70, 4, 0, false, 0)
  {
    hide JulianDayNumber, YearMonthDay;
    EpochDay();
    CoveredRoundTrip(YMD(1970, 1, 1));
    WeekDayAdvances(2440588, 0, true);
  }

  /** Putting a broken-down time together and breaking it down gives its date and time of day. */
  lemma TmRoundTrip(tm: Tm, yday: bool)
    requires IsTimeOfDay(tm) && Covered(DateOf(tm))
    ensures var u := UtcOf(FromUtcTm(tm), yday);
            && u.hour == tm.hour && u.min == tm.min && u.sec == tm.sec && DateOf(u) == DateOf(tm)
  {
    hide JulianDayNumber, YearMonthDay, WeekDay;
    CoveredRoundTrip(DateOf(tm));
    TimeOfDay(tm.hour, tm.min, tm.sec);
    var s := tm.hour * 3600 + tm.min * 60 + tm.sec;
    FloorUnique(FromUtcTm(tm), SECONDS_PER_DAY, JulianDayNumber(DateOf(tm)) - JULIAN_DAY_1970, s);
  }

  /** The week day is one of 0..6 from Julian day -1 on, and before that only on every seventh day. */
  lemma WeekDayRange(n: int)
    ensures 0 <= WeekDay(n) <= 6 <==> n >= -1 || (n + 1) % 7 == 0
    ensures n >= -1 ==> WeekDay(n + 1) == (WeekDay(n) + 1) % 7
  {
    RepairedDivision(n + 1, DAYS_PER_WEEK);
  }

  /** One day later it is the next day of the week; 1 January 1970 is a Thursday. */
  lemma WeekDayAdvances(n: int, s: int, yday: bool)
    requires n >= -1
    ensures 0 <= TmAt(n, s, yday).wday <= 6
    ensures TmAt(n + 1, s, yday).wday == (TmAt(n, s, yday).wday + 1) % 7
    ensures TmAt(JULIAN_DAY_1970, s, yday).wday == 4
  {
    WeekDayRange(n);
    assert WeekDay(JULIAN_DAY_1970) == 4;
  }

  /** Adding a day's worth of seconds moves an instant to the same second of the next day. */
  lemma NextDaySameTime(t: int)
    ensures DayOf(t + SECONDS_PER_DAY) == DayOf(t) + 1
    ensures (t + SECONDS_PER_DAY) % SECONDS_PER_DAY == t % SECONDS_PER_DAY
  {
    FloorUnique(t + SECONDS_PER_DAY, SECONDS_PER_DAY, t / SECONDS_PER_DAY + 1, t % SECONDS_PER_DAY);
  }

  lemma {:induction false} DaysWithinMonth(d: YMD, k: nat)
    requires IsDate(d) && d.day + k <= DaysInMonth(d.year, d.month)
    ensures DaysAfter(d, k) == d.(day := d.day + k)
  {
    if k > 0 {
      DaysWithinMonth(d, k - 1);
    }
  }

  lemma {:induction false} DaysAfterAdd(d: YMD, i: nat, k: nat)
    requires IsDate(d)
    ensures DaysAfter(DaysAfter(d, i), k) == DaysAfter(d, i + k)
  {
    if k > 0 {
      DaysAfterAdd(d, i, k - 1);
    }
  }

  /** In a leap year 29 February is 59 days after 1 January, and 1 March one more. */
  lemma LeapYearStart(year: int, k: nat)
    requires IsLeap(year) && k == 30
    ensures DaysAfter(YMD(year, 1, 1), k + 29) == YMD(year, 2, 29)
    ensures DaysAfter(YMD(year, 1, 1), k + 30) == YMD(year, 3, 1)
  {
    var jan1, feb1 := YMD(year, 1, 1), YMD(year, 2, 1);
    DaysWithinMonth(jan1, k);
    assert DaysAfter(jan1, k + 1) == feb1;
    DaysWithinMonth(feb1, k - 2);
    DaysAfterAdd(jan1, k + 1, k - 2);
    assert DaysAfter(jan1, k + 29) == YMD(year, 2, 29);
  }

  /** Day numbers count calendar steps, so they read back as the date so many steps on. */
  lemma ReadDaysAfter(d: YMD, n: int, days: nat)
    requires Covered(d) && JulianDayNumber(d) == n
    ensures YearMonthDay(n + days) == DaysAfter(d, days)
  {
    hide JulianDayNumber, YearMonthDay;
    DayNumbersCountDays(d, days);
    var e := DaysAfter(d, days);
    CoveredRoundTrip(e);
  }

  lemma FirstYearNumbers()
    ensures JulianDayNumber(YMD(-4800, 1, 1)) == -32103
    ensures JulianDayNumber(YMD(-4800, 3, 1)) == -32044
  {
  }

  /** In year -4800 the date of day `n` is one day further from 1 January than the day numbers say. */
  lemma FirstYearDayCount(n: int, k: nat)
    requires n >= -32044 && k == n + 32103
    ensures YearMonthDay(n) == DaysAfter(YMD(-4800, 1, 1), k + 1)
  {
    hide JulianDayNumber, YearMonthDay, DaysAfter;
    var jan1, mar1 := YMD(-4800, 1, 1), YMD(-4800, 3, 1);
    LeapYearStart(-4800, 30);
    DaysAfterAdd(jan1, 60, k - 59);
    FirstYearNumbers();
    ReadDaysAfter(mar1, -32044, k - 59);
  }

  lemma FirstYearOffByOne(n: int, k: nat)
    requires n >= -32044 && k == n + 32103
    ensures YearMonthDay(n) != DaysAfter(YMD(-4800, 1, 1), k)
  {
    hide JulianDayNumber, YearMonthDay, DaysAfter;
    FirstYearDayCount(n, k);
    if n > -32044 {
      FirstYearDayCount(n - 1, k - 1);
      DayRoundTrip(n - 1);
      DayRoundTrip(n);
    } else {
      LeapYearStart(-4800, 30);
    }
  }

  lemma LaterYears(n: int, d: YMD, start: YMD)
    requires n >= -32044 && d == YearMonthDay(n) && start == YMD(d.year, 1, 1) && d.year >= -4799
    ensures IsDate(start) && n >= JulianDayNumber(start)
    ensures d == DaysAfter(start, n - JulianDayNumber(start))
  {
    hide JulianDayNumber, YearMonthDay;
    DayRoundTrip(n);
    StartOfYear(d);
    var j := JulianDayNumber(start);
    ReadDaysAfter(start, j, n - j);
  }

  /** The day numbers of a year count the days since 1 January, exactly from year -4799 on. */
  lemma DayOfYear(n: int, d: YMD, start: YMD)
    requires n >= -32044 && d == YearMonthDay(n) && start == YMD(d.year, 1, 1)
    ensures IsDate(start) && n >= JulianDayNumber(start)
    ensures d == DaysAfter(start, n - JulianDayNumber(start)) <==> d.year >= -4799
  {
    hide JulianDayNumber, YearMonthDay;
    if d.year >= -4799 {
      LaterYears(n, d, start);
    } else {
      DayRoundTrip(n);
      FirstYearNumbers();
      FirstYearOffByOne(n, n + 32103);
    }
  }

  /** `tm_yday` counts the days since 1 January of the same year, exactly from year -4799 on. */
  lemma TmYday(t: int)
    requires InUtcRange(t)
    ensures var u := UtcOf(t, true);
            var start := YMD(u.year + 1900, 1, 1);
            u.yday >= 0 && (DateOf(u) == DaysAfter(start, u.yday) <==> u.year + 1900 >= -4799)
  {
    hide JulianDayNumber, YearMonthDay;
    var n := DayOf(t);
    var d := YearMonthDay(n);
    DayOfYear(n, d, YMD(d.year, 1, 1));
  }

  /** 1 January is not after any date of its year. */
  lemma StartOfYear(d: YMD)
    requires IsDate(d) && d.year >= -4799
    ensures Covered(YMD(d.year, 1, 1)) && JulianDayNumber(YMD(d.year, 1, 1)) <= JulianDayNumber(d)
  {
    var start := YMD(d.year, 1, 1);
    var century, yoc, m := MarchDate(start);
    var century', yoc', m' := MarchDate(d);
    JulianDayOfMarchDate(start, century, yoc, m);
    JulianDayOfMarchDate(d, century', yoc', m');
    Starts(century, yoc);
    Starts(century', yoc');
  }
}

/** Instants to calendars and back (nth_time_to_calendar and nth_time_from_calendar). */
module Instants {
  import opened CivilTime
  import opened CivilTheorems

  datatype Calendar = Calendar(
    year: I32, month: U8, day: U8, hour: U8, minute: U8, second: U8, nanosecond: U32,
    weekday: U8, yearday: U16, offset: I32)

  datatype Outcome = Instant(ns: int) | Trap | Overflow

  function CastU8(x: int): U8 { x % 0x100 }

  function CastU16(x: int): U16 { x % 0x1_0000 }

  function CastI32(x: int): I32 {
    (x + 0x8000_0000) % U32_SIZE - 0x8000_0000
  }

  // The offset is left as the caller had it.
  function ToCalendar(ns: I64, offset: I32): Calendar {
    var days0 := TruncDiv(ns, NS_PER_DAY);
    var rest0 := TruncMod(ns, NS_PER_DAY);
    var rest := if rest0 < 0 then rest0 + NS_PER_DAY else rest0;
    var days := if rest0 < 0 then days0 - 1 else days0;
    var t := CivilFromDays(days);
    var sec := TruncDiv(rest, NS_PER_SEC);
    Calendar(
      CastI32(t.year), CastU8(t.month), CastU8(t.day),
      CastU8(TruncDiv(sec, 3600)), CastU8(TruncMod(TruncDiv(sec, 60), 60)), CastU8(TruncMod(sec, 60)),
      Wrap(TruncMod(rest, NS_PER_SEC)),
      CastU8(WeekdayFromDays(days)), CastU16(days - DaysFromCivil(t.year, 1, 1)), offset)
  }

  function SecondOfDay(c: Calendar): int {
    c.hour * 3600 + c.minute * 60 + c.second
  }

  predicate FitsI64(x: int) { I64_MIN <= x <= I64_MAX }

  // A failed assertion stops the program; a sum out of range has no defined value.
  function FromCalendar(c: Calendar): Outcome {
    if !(1 <= c.month <= 12 && 1 <= c.day <= 31) then Trap
    else
      var days := DaysFromCivil(c.year, c.month, c.day);
      if !(-106750 < days < 106750) then Trap
      else
        var a := days * NS_PER_DAY;
        var b := a + SecondOfDay(c) * NS_PER_SEC;
        if FitsI64(a) && FitsI64(b) && FitsI64(b + c.nanosecond) then Instant(b + c.nanosecond) else Overflow
  }

  function DateOf(c: Calendar): Date {
    Date(c.year, c.month, c.day)
  }

  // Fields that name a moment and agree with one another.
  predicate WellFormed(c: Calendar) {
    && IsDate(DateOf(c)) && c.hour < 24 && c.minute < 60 && c.second < 60 && c.nanosecond < NS_PER_SEC
    && c.weekday == WeekdayFromDays(Number(DateOf(c)))
    && c.yearday == DaysBefore(c.year, c.month) + c.day - 1
  }

  /* ------------------------------------------------------------------ */
  /*  From instants                                                      */
  /* ------------------------------------------------------------------ */

  lemma FloorOfDay(ns: I64)
    ensures var days0 := TruncDiv(ns, NS_PER_DAY); var rest0 := TruncMod(ns, NS_PER_DAY);
            && (if rest0 < 0 then days0 - 1 else days0) == ns / NS_PER_DAY
            && (if rest0 < 0 then rest0 + NS_PER_DAY else rest0) == ns % NS_PER_DAY
            && -106752 <= ns / NS_PER_DAY <= 106751
  {
  }

  lemma TimeOfDay(rest: int)
    requires 0 <= rest < NS_PER_DAY
    ensures var sec := TruncDiv(rest, NS_PER_SEC);
            && CastU8(TruncDiv(sec, 3600)) == sec / 3600 < 24
            && CastU8(TruncMod(TruncDiv(sec, 60), 60)) == sec / 60 % 60
            && CastU8(TruncMod(sec, 60)) == sec % 60
            && (sec / 3600) * 3600 + (sec / 60 % 60) * 60 + sec % 60 == sec
            && Wrap(TruncMod(rest, NS_PER_SEC)) == rest - sec * NS_PER_SEC < NS_PER_SEC
  {
    SecondsOfDay(rest);
    hide TruncDiv, TruncMod, Wrap, CastU8;
    ClockOfSeconds(TruncDiv(rest, NS_PER_SEC));
  }

  lemma SecondsOfDay(rest: int)
    requires 0 <= rest < NS_PER_DAY
    ensures var sec := TruncDiv(rest, NS_PER_SEC);
            0 <= sec < SEC_PER_DAY && Wrap(TruncMod(rest, NS_PER_SEC)) == rest - sec * NS_PER_SEC < NS_PER_SEC
  {
  }

  lemma ClockOfSeconds(sec: int)
    requires 0 <= sec < SEC_PER_DAY
    ensures CastU8(TruncDiv(sec, 3600)) == sec / 3600 < 24
    ensures CastU8(TruncMod(TruncDiv(sec, 60), 60)) == sec / 60 % 60
    ensures CastU8(TruncMod(sec, 60)) == sec % 60
    ensures (sec / 3600) * 3600 + (sec / 60 % 60) * 60 + sec % 60 == sec
  {
    var m, s := sec / 60, sec % 60;
    var h, r := m / 60, m % 60;
    assert sec == h * 3600 + r * 60 + s;
    QuotientIs(sec, 3600, h);
  }

  lemma YearBound(z: int)
    requires -106752 <= z <= 106751
    ensures 1600 <= CivilFromDays(z).year <= 2301
  {
    hide CivilFromDays, YearBase, YearLength, MarchDay;
    var y := MarchYear(CivilFromDays(z));
    CivilFromDaysIs(z);
    assert YearBase(1600) == 584388 && YearBase(2300) == 840057 by {
      YearBases();
    }
    if y < 1600 {
      YearBaseGrows(y, 1600);
    } else if y > 2300 {
      YearBaseGrows(2300, y);
      LengthIsPositive(2300);
    }
  }

  lemma YearBases()
    ensures YearBase(1600) == 584388 && YearBase(2300) == 840057
  {
  }

  lemma LengthIsPositive(y: int)
    ensures YearLength(y) > 0
  {
  }

  // Nothing is lost to a narrowing cast: the fields are those of the day and the time of day.
  lemma ToCalendarIs(ns: I64, offset: I32)
    ensures var c := ToCalendar(ns, offset); var days := ns / NS_PER_DAY;
            && DateOf(c) == CivilFromDays(days)
            && c.hour < 24 && c.minute < 60 && c.second < 60 && c.nanosecond < NS_PER_SEC
            && SecondOfDay(c) * NS_PER_SEC + c.nanosecond == ns % NS_PER_DAY
            && c.weekday == WeekdayFromDays(days)
            && c.yearday == days - DaysFromCivil(c.year, 1, 1)
            && c.offset == offset
  {
    hide CivilFromDays, DaysFromCivil, WeekdayFromDays, TruncDiv, TruncMod, Wrap;
    var days := ns / NS_PER_DAY;
    var t := CivilFromDays(days);
    FloorOfDay(ns);
    TimeOfDay(ns % NS_PER_DAY);
    YearBound(days);
    CivilThenDays(days);
    YearDay(t);
    Weekdays(days);
  }

  lemma ToCalendarWellFormed(ns: I64, offset: I32)
    ensures WellFormed(ToCalendar(ns, offset))
  {
    hide CivilFromDays, DaysFromCivil, WeekdayFromDays, ToCalendar, DaysBefore;
    ToCalendarIs(ns, offset);
    CivilThenDays(ns / NS_PER_DAY);
    YearDay(CivilFromDays(ns / NS_PER_DAY));
  }

  /* ------------------------------------------------------------------ */
  /*  Round trips                                                        */
  /* ------------------------------------------------------------------ */

  // There and back is the identity exactly on the days the assertion admits.
  lemma InstantRoundTrip(ns: I64, offset: I32)
    ensures FromCalendar(ToCalendar(ns, offset))
            == if -106750 < ns / NS_PER_DAY < 106750 then Instant(ns) else Trap
  {
    hide CivilFromDays, DaysFromCivil, WeekdayFromDays, ToCalendar;
    var c := ToCalendar(ns, offset);
    ToCalendarIs(ns, offset);
    CivilThenDays(ns / NS_PER_DAY);
    assert ns == (ns / NS_PER_DAY) * NS_PER_DAY + ns % NS_PER_DAY;
    assert IsDate(DateOf(c)) && Number(DateOf(c)) == ns / NS_PER_DAY;
  }

  // The last instant of the range is one that does not come back.
  lemma LastInstantTraps(offset: I32)
    ensures FromCalendar(ToCalendar(I64_MAX, offset)) == Trap
  {
    hide ToCalendar, FromCalendar;
    InstantRoundTrip(I64_MAX, offset);
    assert I64_MAX / NS_PER_DAY == 106751;
  }

  lemma SplitInstant(days: int, rest: int)
    requires 0 <= rest < NS_PER_DAY
    ensures (days * NS_PER_DAY + rest) / NS_PER_DAY == days && (days * NS_PER_DAY + rest) % NS_PER_DAY == rest
  {
    RemainderOf(days, NS_PER_DAY, rest);
  }

  lemma TimeUnique(h: int, m: int, s: int, n: int, h': int, m': int, s': int, n': int)
    requires 0 <= m < 60 && 0 <= s < 60 && 0 <= n < NS_PER_SEC
    requires 0 <= m' < 60 && 0 <= s' < 60 && 0 <= n' < NS_PER_SEC
    requires (h * 3600 + m * 60 + s) * NS_PER_SEC + n == (h' * 3600 + m' * 60 + s') * NS_PER_SEC + n'
    ensures h == h' && m == m' && s == s' && n == n'
  {
    var a, b := h * 3600 + m * 60 + s, h' * 3600 + m' * 60 + s';
    assert a == b;
    assert h * 60 + m == h' * 60 + m';
  }

  // A real date and a time of day in range, whatever the fields that are not read hold, is an instant
  // whose calendar is that date and time.
  lemma DateAndTimeComeBack(c: Calendar)
    requires FromCalendar(c).Instant? && IsDate(DateOf(c))
    requires c.hour < 24 && c.minute < 60 && c.second < 60 && c.nanosecond < NS_PER_SEC
    ensures FitsI64(FromCalendar(c).ns)
    ensures ToCalendar(FromCalendar(c).ns, c.offset).(weekday := c.weekday, yearday := c.yearday) == c
  {
    hide CivilFromDays, DaysFromCivil, WeekdayFromDays, ToCalendar;
    var ns := FromCalendar(c).ns;
    var days := DaysFromCivil(c.year, c.month, c.day);
    var rest := SecondOfDay(c) * NS_PER_SEC + c.nanosecond;
    SplitInstant(days, rest);
    ToCalendarIs(ns, c.offset);
    DaysThenCivil(DateOf(c));
    var d := ToCalendar(ns, c.offset);
    TimeUnique(c.hour, c.minute, c.second, c.nanosecond, d.hour, d.minute, d.second, d.nanosecond);
  }

  // Back and there is the identity exactly on the well-formed calendars.
  lemma CalendarRoundTrip(c: Calendar)
    requires FromCalendar(c).Instant?
    ensures FitsI64(FromCalendar(c).ns)
    ensures ToCalendar(FromCalendar(c).ns, c.offset) == c <==> WellFormed(c)
  {
    var ns := FromCalendar(c).ns;
    ToCalendarWellFormed(ns, c.offset);
    hide CivilFromDays, DaysFromCivil, WeekdayFromDays, FromCalendar, ToCalendar, DaysBefore;
    if WellFormed(c) {
      DateAndTimeComeBack(c);
    }
  }

  // With a time of day in range nothing overflows, and a calendar is accepted exactly when its month
  // and day are in range and its day is within the asserted bound.
  lemma AcceptedIff(c: Calendar)
    requires c.hour < 24 && c.minute < 60 && c.second < 60 && c.nanosecond < NS_PER_SEC
    ensures FromCalendar(c) != Overflow
    ensures FromCalendar(c).Instant? <==>
              && 1 <= c.month <= 12 && 1 <= c.day <= 31
              && -106750 < DaysFromCivil(c.year, c.month, c.day) < 106750
  {
    hide DaysFromCivil;
  }

  // The assertions are the month, the day and the day number, and nothing else is asserted.
  lemma TrapIff(c: Calendar)
    ensures FromCalendar(c) == Trap <==>
              !(1 <= c.month <= 12 && 1 <= c.day <= 31 && -106750 < DaysFromCivil(c.year, c.month, c.day) < 106750)
  {
    hide DaysFromCivil;
  }

  // The weekday, the day of the year and the offset are not read.
  lemma FieldsNotRead(c: Calendar, weekday: U8, yearday: U16, offset: I32)
    ensures FromCalendar(c.(weekday := weekday, yearday := yearday, offset := offset)) == FromCalendar(c)
  {
    hide DaysFromCivil;
  }

  // Within a month the fields add up: each day, hour, minute, second and nanosecond more is that much
  // later, checked or not: the 30th of February, an hour of 25, a second of 60.
  lemma FieldsAddUp(c: Calendar, d: Calendar)
    requires FromCalendar(c).Instant? && FromCalendar(d).Instant? && c.year == d.year && c.month == d.month
    ensures FromCalendar(d).ns - FromCalendar(c).ns
            == (((d.day - c.day) * 24 + (d.hour - c.hour)) * 60 + (d.minute - c.minute)) * 60 * NS_PER_SEC
               + (d.second - c.second) * NS_PER_SEC + (d.nanosecond - c.nanosecond)
  {
    DaysAddUp(c.year, c.month, c.day, d.day);
    hide DaysFromCivil;
  }

  lemma DaysAddUp(year: I32, month: nat, a: nat, b: nat)
    requires 1 <= month <= 12 && 1 <= a <= 31 && 1 <= b <= 31
    ensures DaysFromCivil(year, month, b) - DaysFromCivil(year, month, a) == b - a
  {
    DaysFromCivilIs(year, month, a);
    DaysFromCivilIs(year, month, b);
    hide DaysFromCivil, MonthStart, YearStart;
  }

  // Out of range hours are not checked, and near the end of the range they overflow.
  lemma OverflowIff(c: Calendar)
    requires 1 <= c.month <= 12 && 1 <= c.day <= 31
    ensures FromCalendar(c) == Overflow <==>
              var days := DaysFromCivil(c.year, c.month, c.day);
              && -106750 < days < 106750
              && SecondOfDay(c) * NS_PER_SEC + c.nanosecond > I64_MAX - days * NS_PER_DAY
    ensures FromCalendar(Calendar(2262, 4, 9, 255, 0, 0, 0, 0, 0, 0)) == Overflow
  {
    OverflowExample();
    hide DaysFromCivil;
  }

  lemma OverflowExample()
    ensures FromCalendar(Calendar(2262, 4, 9, 255, 0, 0, 0, 0, 0, 0)) == Overflow
  {
    DayNumber(Date(2262, 4, 9));
    hide DaysFromCivil;
  }

  // Later instants never have earlier dates.
  lemma DatesFollowInstants(a: I64, b: I64, offset: I32)
    requires a <= b
    ensures !Before(DateOf(ToCalendar(b, offset)), DateOf(ToCalendar(a, offset)))
  {
    hide CivilFromDays, DaysFromCivil, ToCalendar;
    ToCalendarIs(a, offset);
    ToCalendarIs(b, offset);
    CivilThenDays(a / NS_PER_DAY);
    CivilThenDays(b / NS_PER_DAY);
    NumberOrders(DateOf(ToCalendar(b, offset)), DateOf(ToCalendar(a, offset)));
    DaysGrow(a, b);
  }

  lemma DaysGrow(a: int, b: int)
    requires a <= b
    ensures a / NS_PER_DAY <= b / NS_PER_DAY
  {
  }

  /* ------------------------------------------------------------------ */
  /*  Seconds since the Epoch                                            */
  /* ------------------------------------------------------------------ */

  // Section 4.16 of IEEE Std 1003.1-2017 XBD, over the fields of a broken-down time.
  function PosixSeconds(c: Calendar): int {
    var tmYear := c.year - 1900;
    c.second + c.minute * 60 + c.hour * 3600 + c.yearday * 86400
    + (tmYear - 70) * 31536000 + TruncDiv(tmYear - 69, 4) * 86400
    - TruncDiv(tmYear - 1, 100) * 86400 + TruncDiv(tmYear + 299, 400) * 86400
  }

  lemma PosixYear(y: int)
    requires y >= 1970
    ensures DaysFromCivil(y, 1, 1)
            == (y - 1970) * 365 + TruncDiv(y - 1969, 4) - TruncDiv(y - 1901, 100) + TruncDiv(y - 1601, 400)
  {
    DayNumber(Date(y, 1, 1));
    hide DaysFromCivil;
    ShiftedQuotients(y - 1);
  }

  lemma ShiftedQuotients(y: int)
    requires y >= 1969
    ensures TruncDiv(y - 1968, 4) == y / 4 - 492
    ensures TruncDiv(y - 1900, 100) == y / 100 - 19
    ensures TruncDiv(y - 1600, 400) == y / 400 - 4
  {
  }

  // From 1970 on, the calendar of an instant gives its whole seconds by the standard's formula.
  lemma PosixEpoch(ns: I64, offset: I32)
    requires ToCalendar(ns, offset).year >= 1970
    ensures PosixSeconds(ToCalendar(ns, offset)) == ns / NS_PER_SEC
  {
    hide CivilFromDays, DaysFromCivil, WeekdayFromDays, ToCalendar, TruncDiv;
    var c := ToCalendar(ns, offset);
    ToCalendarIs(ns, offset);
    PosixYear(c.year);
    var days := ns / NS_PER_DAY;
    assert ns == days * NS_PER_DAY + ns % NS_PER_DAY;
    QuotientIs(ns, NS_PER_SEC, days * SEC_PER_DAY + SecondOfDay(c));
  }
}

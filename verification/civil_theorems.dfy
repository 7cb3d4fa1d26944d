/** What the day and calendar conversions compute, over all integers and all Gregorian dates. */
module CivilTheorems {
  import opened CivilTime

  /* ------------------------------------------------------------------ */
  /*  Day numbers of dates                                               */
  /* ------------------------------------------------------------------ */

  // Days before a March-based year, counted from 0000-03-01.
  function YearBase(y: int): int {
    365 * y + y / 4 - y / 100 + y / 400
  }

  lemma YearBaseInEra(y: int)
    ensures (y / 400) * 146097 + YearStart(y % 400) == YearBase(y)
  {
    var e, r := y / 400, y % 400;
    assert y == 400 * e + r;
    assert y / 4 == 100 * e + r / 4;
    assert y / 100 == 4 * e + r / 100;
  }

  lemma YearBaseStep(y: int)
    ensures YearBase(y + 1) == YearBase(y) + YearLength(y)
  {
    NextQuotients(y);
    var z := y + 1;
    if z % 400 == 0 {
      RemainderOf(4 * (z / 400), 100, 0);
    }
    if z % 100 == 0 {
      RemainderOf(25 * (z / 100), 4, 0);
    }
  }

  lemma NextQuotients(y: int)
    ensures (y + 1) / 4 == y / 4 + if (y + 1) % 4 == 0 then 1 else 0
    ensures (y + 1) / 100 == y / 100 + if (y + 1) % 100 == 0 then 1 else 0
    ensures (y + 1) / 400 == y / 400 + if (y + 1) % 400 == 0 then 1 else 0
  {
  }

  lemma YearBaseGrows(y: int, z: int)
    requires y < z
    ensures YearBase(y) + YearLength(y) <= YearBase(z)
  {
    YearBaseStep(y);
    assert (y + 1) / 4 <= z / 4 && (y + 1) / 400 <= z / 400;
    assert z / 100 - (y + 1) / 100 <= z - (y + 1);
  }

  function MarchYear(t: Date): int {
    t.year - if t.month <= 2 then 1 else 0
  }

  function MarchDay(t: Date): int {
    MonthStart(MarchBased(t.month)) + t.day - 1
  }

  // A date's number is the days before its March-based year and its day in that year.
  lemma DayNumber(t: Date)
    requires 1 <= t.month <= 12 && 1 <= t.day <= 31
    ensures DaysFromCivil(t.year, t.month, t.day) == YearBase(MarchYear(t)) + MarchDay(t) - 719468
  {
    hide DaysFromCivil, YearBase, YearStart, MonthStart, MarchBased;
    DaysFromCivilIs(t.year, t.month, t.day);
    YearBaseInEra(MarchYear(t));
  }

  lemma MarchDayInYear(t: Date)
    requires IsDate(t)
    ensures 0 <= MarchDay(t) < YearLength(MarchYear(t))
  {
  }

  function Number(t: Date): int
    requires IsDate(t)
  {
    DaysFromCivil(t.year, t.month, t.day)
  }

  predicate Before(t: Date, u: Date) {
    t.year < u.year || (t.year == u.year && (t.month < u.month || (t.month == u.month && t.day < u.day)))
  }

  // Day numbers order dates as the calendar does.
  lemma NumberOrders(t: Date, u: Date)
    requires IsDate(t) && IsDate(u)
    ensures Number(t) < Number(u) <==> Before(t, u)
  {
    if Before(t, u) {
      NumberGrows(t, u);
    } else if t != u {
      NumberGrows(u, t);
    }
  }

  lemma NumberGrows(t: Date, u: Date)
    requires IsDate(t) && IsDate(u) && Before(t, u)
    ensures Number(t) < Number(u)
  {
    DayNumber(t);
    DayNumber(u);
    MarchDayInYear(t);
    MarchDayInYear(u);
    if MarchYear(t) < MarchYear(u) {
      hide YearBase, YearLength, DaysFromCivil;
      YearBaseGrows(MarchYear(t), MarchYear(u));
    } else {
      hide YearBase, YearLength, DaysFromCivil;
      MarchDayGrows(t, u);
    }
  }

  lemma MarchDayGrows(t: Date, u: Date)
    requires IsDate(t) && IsDate(u) && Before(t, u) && MarchYear(t) >= MarchYear(u)
    ensures MarchYear(t) == MarchYear(u) && MarchDay(t) < MarchDay(u)
  {
  }

  // The day after a date has the next number.
  lemma NumberOfNext(t: Date)
    requires IsDate(t)
    ensures IsDate(Next(t)) && Number(Next(t)) == Number(t) + 1
  {
    hide YearBase, DaysFromCivil, MarchDay, MarchYear, YearLength, IsLeap;
    DayNumber(t);
    NextInYear(t);
    DayNumber(Next(t));
    YearBaseStep(MarchYear(t));
  }

  lemma NextInYear(t: Date)
    requires IsDate(t)
    ensures IsDate(Next(t))
    ensures if MarchYear(Next(t)) == MarchYear(t)
            then MarchDay(Next(t)) == MarchDay(t) + 1
            else MarchYear(Next(t)) == MarchYear(t) + 1 && MarchDay(Next(t)) == 0
                 && MarchDay(t) == YearLength(MarchYear(t)) - 1
  {
    hide IsLeap;
  }

  /* ------------------------------------------------------------------ */
  /*  Dates of day numbers                                               */
  /* ------------------------------------------------------------------ */

  lemma CivilFromDaysIs(z: int)
    ensures var t := CivilFromDays(z);
            && 1 <= t.month <= 12 && 1 <= t.day
            && 0 <= MarchDay(t) < YearLength(MarchYear(t))
            && MarchDay(t) < MonthStart(MarchBased(t.month) + 1)
            && YearBase(MarchYear(t)) + MarchDay(t) == z + 719468
  {
    hide YearOfEra, DayOfYear, MarchMonth, EraOfDay, YearBase, YearStart, IsLeap, MonthStart, Wrap;
    var w := z + 719468;
    EraOfDayIsFloor(w);
    var doe: U32 := w % 146097;
    YearOfEraIs(doe);
    var yoe := YearOfEra(doe);
    var doy := DayOfYear(doe);
    MarchMonthIs(doy);
    MonthOf(MarchMonth(doy), doy);
    var y := yoe + (w / 146097) * 400;
    RemainderOf(w / 146097, 400, yoe);
    YearBaseInEra(y);
    YearLengthInEra(y);
    var t := CivilFromDays(z);
    assert MarchYear(t) == y;
  }

  lemma YearLengthInEra(y: int)
    ensures YearLength(y) == YearLength(y % 400)
  {
    var e, r := y / 400, y % 400 + 1;
    assert y + 1 == 400 * e + r;
    Remainders(e, r);
  }

  lemma Remainders(e: int, r: int)
    ensures (400 * e + r) % 4 == r % 4
    ensures (400 * e + r) % 100 == r % 100
    ensures (400 * e + r) % 400 == r % 400
  {
    RemainderOf(100 * e, 4, r);
    RemainderOf(4 * e, 100, r);
    RemainderOf(e, 400, r);
  }

  lemma RemainderOf(q: int, n: int, r: int)
    requires n > 0
    ensures (q * n + r) % n == r % n && (q * n + r) / n == q + r / n
  {
    assert q * n + r == (q + r / n) * n + r % n;
    QuotientIs(q * n + r, n, q + r / n);
  }

  lemma MonthOf(mp: U32, doy: U32)
    requires mp < 12 && MonthStart(mp) <= doy < MonthStart(mp + 1) && doy <= 365
    ensures var m := Wrap(mp + if mp < 10 then 3 else -9); 1 <= m <= 12 && MarchBased(m) == mp
    ensures Wrap(doy - Wrap(153 * mp + 2) / 5 + 1) == doy - MonthStart(mp) + 1
  {
    WrapIs(153 * mp + 2);
    hide Wrap;
    WrapIs(mp + if mp < 10 then 3 else -9);
    WrapIs(doy - MonthStart(mp) + 1);
  }

  // Every integer names a date of the calendar, and that date's number is the integer.
  lemma CivilThenDays(z: int)
    ensures IsDate(CivilFromDays(z)) && Number(CivilFromDays(z)) == z
  {
    var t := CivilFromDays(z);
    CivilFromDaysIs(z);
    DayWithinMonth(t);
    DayNumber(t);
  }

  lemma DayWithinMonth(t: Date)
    requires 1 <= t.month <= 12 && 1 <= t.day
    requires MarchDay(t) < YearLength(MarchYear(t)) && MarchDay(t) < MonthStart(MarchBased(t.month) + 1)
    ensures IsDate(t)
  {
  }

  // Every date of the calendar comes back from its number.
  lemma DaysThenCivil(t: Date)
    requires IsDate(t)
    ensures CivilFromDays(Number(t)) == t
  {
    var u := CivilFromDays(Number(t));
    CivilThenDays(Number(t));
    hide CivilFromDays, DaysFromCivil;
    NumberOrders(t, u);
    NumberOrders(u, t);
  }

  // Counting up one day is moving to the next date of the calendar, from 1970-01-01 at zero.
  lemma Successor(z: int)
    ensures CivilFromDays(0) == EPOCH
    ensures CivilFromDays(z + 1) == Next(CivilFromDays(z))
  {
    hide CivilFromDays, DaysFromCivil;
    CivilThenDays(z);
    NumberOfNext(CivilFromDays(z));
    DaysThenCivil(Next(CivilFromDays(z)));
    DaysThenCivil(EPOCH);
    EpochIsZero();
  }

  lemma EpochIsZero()
    ensures Number(EPOCH) == 0
  {
    DayNumber(EPOCH);
  }

  function Later(t: Date, n: nat): Date {
    if n == 0 then t else Next(Later(t, n - 1))
  }

  // The conversions count the days of the calendar, forward and back from any day.
  lemma {:induction false} CountsDays(z: int, n: nat)
    ensures CivilFromDays(z + n) == Later(CivilFromDays(z), n)
  {
    hide CivilFromDays;
    if n > 0 {
      CountsDays(z, n - 1);
      Successor(z + n - 1);
    }
  }

  // The ranges the source notes beside its intermediate results.
  lemma Ranges(t: Date, z: int)
    requires IsDate(t)
    ensures Wrap(MarchYear(t) - EraOfYear(MarchYear(t)) * 400) <= 399
    ensures DayOfMarchYear(t.month, t.day) <= 365
    ensures DayOfEra(Wrap(MarchYear(t) - EraOfYear(MarchYear(t)) * 400), DayOfMarchYear(t.month, t.day)) <= 146096
    ensures var doe := Wrap(z - EraOfDay(z) * 146097);
            doe <= 146096 && YearOfEra(doe) <= 399 && DayOfYear(doe) <= 365 && MarchMonth(DayOfYear(doe)) <= 11
  {
    EraOfYearIsFloor(MarchYear(t));
    DayOfMarchYearIs(t.month, t.day);
    MarchDayInYear(t);
    DayOfEraIs(MarchYear(t) % 400, DayOfMarchYear(t.month, t.day));
    YearLengthInEra(MarchYear(t));
    LastDayOfEra(MarchYear(t) % 400);
    EraOfDayIsFloor(z);
    YearOfEraIs(z % 146097);
    MarchMonthIs(DayOfYear(z % 146097));
    hide YearOfEra, DayOfYear, MarchMonth, EraOfDay, YearStart, DayOfMarchYear, DayOfEra, EraOfYear, Wrap, MonthStart;
  }

  lemma LastDayOfEra(yoe: int)
    requires 0 <= yoe < 400
    ensures YearStart(yoe) + YearLength(yoe) <= 146097
  {
  }

  // Weekdays follow one another, 1970-01-01 being a Thursday.
  lemma Weekdays(z: int)
    ensures 0 <= WeekdayFromDays(z) < 7
    ensures WeekdayFromDays(0) == 4
    ensures WeekdayFromDays(z + 1) == (WeekdayFromDays(z) + 1) % 7
  {
    WeekdayIs(z);
    WeekdayIs(z + 1);
    WeekdayIs(0);
    hide WeekdayFromDays;
    var w := (z + 4) % 7;
    assert z + 4 == (z + 4) / 7 * 7 + w;
    RemainderOf((z + 4) / 7, 7, w + 1);
  }

  lemma WeekdayIs(z: int)
    ensures WeekdayFromDays(z) == (z + 4) % 7
  {
    if z < -4 {
      var q, r := -(z + 5) / 7, -(z + 5) % 7;
      assert z + 4 == (-q - 1) * 7 + (6 - r);
      RemainderOf(-q - 1, 7, 6 - r);
    }
  }

  function DaysBefore(y: int, m: int): int
    requires 1 <= m <= 12
  {
    if m == 1 then 0 else DaysBefore(y, m - 1) + DaysInMonth(y, m - 1)
  }

  // The day of the year counts the days of the months gone by.
  lemma YearDay(t: Date)
    requires IsDate(t)
    ensures Number(t) - DaysFromCivil(t.year, 1, 1) == DaysBefore(t.year, t.month) + t.day - 1
    ensures 0 <= Number(t) - DaysFromCivil(t.year, 1, 1) <= 365
  {
    hide YearBase, DaysFromCivil, DaysBefore, MonthStart;
    var first := Date(t.year, 1, 1);
    DayNumber(t);
    DayNumber(first);
    YearBaseStep(MarchYear(first));
    MonthsGoneBy(t.year, t.month);
    assert MonthStart(10) == 306 && MonthStart(11) == 337 by {
      MonthStarts();
    }
    DaysBeforeBound(t);
  }

  lemma MonthStarts()
    ensures MonthStart(10) == 306 && MonthStart(11) == 337
  {
  }

  lemma DaysBeforeBound(t: Date)
    requires IsDate(t)
    ensures 0 <= DaysBefore(t.year, t.month) + t.day - 1 <= 365
  {
    MonthsGoneBy(t.year, t.month);
    hide DaysBefore;
  }

  lemma MonthsGoneBy(y: int, m: int)
    requires 1 <= m <= 12
    ensures DaysBefore(y, m) == if m == 1 then 0 else if m == 2 then 31
                                else MonthStart(m - 3) + 59 + if IsLeap(y) then 1 else 0
  {
    hide IsLeap;
    if m > 1 {
      MonthsGoneBy(y, m - 1);
    }
  }
}

/** Civil dates and instants (src/nth_time.c), with the widths and the rounding of the source's
    integers: `/` and `%` on signed operands truncate toward zero, nth_u32 wraps modulo 2^32.
  */
module CivilTime {

  const U32_SIZE: int := 0x1_0000_0000
  const I64_MIN: int := -0x8000_0000_0000_0000
  const I64_MAX: int := 0x7FFF_FFFF_FFFF_FFFF

  const NS_PER_SEC: int := 1_000_000_000
  const SEC_PER_DAY: int := 86_400
  const NS_PER_DAY: int := 86_400_000_000_000

  type I64 = x: int | I64_MIN <= x <= I64_MAX
  type I32 = x: int | -0x8000_0000 <= x < 0x8000_0000
  type U32 = x: int | 0 <= x < U32_SIZE
  type U16 = x: int | 0 <= x < 0x1_0000
  type U8 = x: int | 0 <= x < 0x100

  function TruncDiv(a: int, b: int): int
    requires b > 0
  {
    if a >= 0 then a / b else -(-a / b)
  }

  function TruncMod(a: int, b: int): int
    requires b > 0
  {
    a - TruncDiv(a, b) * b
  }

  function Wrap(x: int): U32 {
    x % U32_SIZE
  }

  /* ------------------------------------------------------------------ */
  /*  The source's conversions                                           */
  /* ------------------------------------------------------------------ */

  datatype Date = Date(year: int, month: int, day: int)

  function EraOfYear(y: int): int {
    TruncDiv(if y >= 0 then y else y - 399, 400)
  }

  function DayOfMarchYear(m: U32, d: U32): U32 {
    Wrap(Wrap(Wrap(153 * Wrap(m + (if m > 2 then -3 else 9))) + 2) / 5 + d - 1)
  }

  function DayOfEra(yoe: U32, doy: U32): U32 {
    Wrap(yoe * 365 + yoe / 4 - yoe / 100 + doy)
  }

  function DaysFromCivil(year: int, m: U32, d: U32): int {
    var y := year - if m <= 2 then 1 else 0;
    var era := EraOfYear(y);
    era * 146097 + DayOfEra(Wrap(y - era * 400), DayOfMarchYear(m, d)) - 719468
  }

  function EraOfDay(z: int): int {
    TruncDiv(if z >= 0 then z else z - 146096, 146097)
  }

  function YearOfEra(doe: U32): U32 {
    Wrap(doe - doe / 1460 + doe / 36524 - doe / 146096) / 365
  }

  function DayOfYear(doe: U32): U32 {
    var yoe := YearOfEra(doe);
    Wrap(doe - Wrap(365 * yoe + yoe / 4 - yoe / 100))
  }

  function MarchMonth(doy: U32): U32 {
    Wrap(5 * doy + 2) / 153
  }

  function CivilFromDays(z: int): Date {
    var era := EraOfDay(z + 719468);
    var doe := Wrap(z + 719468 - era * 146097);
    var doy := DayOfYear(doe);
    var mp := MarchMonth(doy);
    var d := Wrap(doy - Wrap(153 * mp + 2) / 5 + 1);
    var m := Wrap(mp + if mp < 10 then 3 else -9);
    Date(YearOfEra(doe) + era * 400 + (if m <= 2 then 1 else 0), m, d)
  }

  function WeekdayFromDays(z: int): int {
    if z >= -4 then TruncMod(z + 4, 7) else TruncMod(z + 5, 7) + 6
  }

  /* ------------------------------------------------------------------ */
  /*  The calendar itself                                                */
  /* ------------------------------------------------------------------ */

  predicate IsLeap(y: int) {
    y % 4 == 0 && (y % 100 != 0 || y % 400 == 0)
  }

  function DaysInMonth(y: int, m: int): int {
    if m == 2 then (if IsLeap(y) then 29 else 28)
    else if m == 4 || m == 6 || m == 9 || m == 11 then 30
    else 31
  }

  predicate IsDate(t: Date) {
    1 <= t.month <= 12 && 1 <= t.day <= DaysInMonth(t.year, t.month)
  }

  function Next(t: Date): Date {
    if t.day < DaysInMonth(t.year, t.month) then t.(day := t.day + 1)
    else if t.month < 12 then Date(t.year, t.month + 1, 1)
    else Date(t.year + 1, 1, 1)
  }

  const EPOCH: Date := Date(1970, 1, 1)

  /* ------------------------------------------------------------------ */
  /*  The arithmetic never wraps                                         */
  /* ------------------------------------------------------------------ */

  lemma EraOfYearIsFloor(y: int)
    ensures EraOfYear(y) == y / 400 && Wrap(y - EraOfYear(y) * 400) == y % 400
  {
  }

  lemma EraOfDayIsFloor(z: int)
    ensures EraOfDay(z) == z / 146097 && Wrap(z - EraOfDay(z) * 146097) == z % 146097
  {
  }

  // Days before a March-based month, and before a March-based year of an era.
  function MonthStart(mp: int): int {
    (153 * mp + 2) / 5
  }

  function YearStart(yoe: int): int {
    365 * yoe + yoe / 4 - yoe / 100
  }

  // Length of the March-based year: it ends with February of the next calendar year.
  function YearLength(y: int): int {
    if IsLeap(y + 1) then 366 else 365
  }

  function MarchBased(m: int): int {
    if m > 2 then m - 3 else m + 9
  }

  // The day number without eras or wrapping.
  lemma DaysFromCivilIs(year: int, m: U32, d: U32)
    requires 1 <= m <= 12 && 1 <= d <= 31
    ensures var y := year - if m <= 2 then 1 else 0;
            && 0 <= MonthStart(MarchBased(m)) + d - 1 <= 367
            && DaysFromCivil(year, m, d)
               == (y / 400) * 146097 + YearStart(y % 400) + MonthStart(MarchBased(m)) + d - 1 - 719468
  {
    var y := year - if m <= 2 then 1 else 0;
    EraOfYearIsFloor(y);
    DayOfMarchYearIs(m, d);
    DayOfEraIs(y % 400, DayOfMarchYear(m, d));
    hide EraOfYear, DayOfMarchYear, DayOfEra, YearStart, MonthStart, MarchBased, Wrap;
  }

  lemma DayOfEraIs(yoe: U32, doy: U32)
    requires yoe < 400 && doy <= 367
    ensures DayOfEra(yoe, doy) == YearStart(yoe) + doy
  {
  }

  lemma DayOfMarchYearIs(m: U32, d: U32)
    requires 1 <= m <= 12 && 1 <= d <= 31
    ensures DayOfMarchYear(m, d) == MonthStart(MarchBased(m)) + d - 1 <= 367
  {
    hide Wrap;
    var mp := MarchBased(m);
    WrapIs(m + if m > 2 then -3 else 9);
    WrapIs(153 * mp);
    WrapIs(153 * mp + 2);
    MonthStartBound(mp);
    WrapIs(MonthStart(mp) + d - 1);
  }

  lemma MonthStartBound(mp: int)
    requires 0 <= mp <= 11
    ensures 0 <= MonthStart(mp) <= 337
  {
  }

  lemma WrapIs(x: int)
    requires 0 <= x < U32_SIZE
    ensures Wrap(x) == x
  {
  }

  // The year and the day of year that a day of an era falls in.
  lemma YearOfEraIs(doe: U32)
    requires doe < 146097
    ensures 0 <= YearOfEra(doe) < 400
    ensures YearStart(YearOfEra(doe)) <= doe < YearStart(YearOfEra(doe)) + YearLength(YearOfEra(doe))
    ensures DayOfYear(doe) == doe - YearStart(YearOfEra(doe))
  {
    hide YearOfEra, YearStart, YearLength, DayOfYear;
    var c := if doe == 146096 then 3 else doe / 36524;
    var k := doe - 36524 * c;
    var b := k / 1461;
    var j := k - 1461 * b;
    var r := if j == 1460 then 3 else j / 365;
    PartsInRange(doe, c, b, j, r);
    YearOfParts(doe, c, b, j, r);
    YearStartIs(c, b, r);
    DayOfYearIs(doe);
  }

  lemma PartsInRange(doe: U32, c: int, b: int, j: int, r: int)
    requires doe < 146097 && c == (if doe == 146096 then 3 else doe / 36524)
    requires var k := doe - 36524 * c; b == k / 1461 && j == k - 1461 * b
    requires r == if j == 1460 then 3 else j / 365
    ensures 0 <= c < 4 && 0 <= b < 25 && 0 <= j < 1461 && 0 <= r < 4
    ensures 0 <= j - 365 * r < if r == 3 && (b < 24 || c == 3) then 366 else 365
  {
    assert 0 <= c < 4 && 0 <= doe - 36524 * c <= 36524;
    assert c < 3 ==> doe - 36524 * c < 36524;
  }

  lemma DayOfYearIs(doe: U32)
    requires 0 <= YearOfEra(doe) < 400 && YearStart(YearOfEra(doe)) <= doe
    ensures DayOfYear(doe) == doe - YearStart(YearOfEra(doe))
  {
    hide YearOfEra, Wrap;
    WrapIs(YearStart(YearOfEra(doe)));
    WrapIs(doe - YearStart(YearOfEra(doe)));
  }

  // A day's century, its four-year cycle and the day within that give its year.
  lemma YearOfParts(doe: U32, c: int, b: int, j: int, r: int)
    requires doe < 146097 && c == (if doe == 146096 then 3 else doe / 36524)
    requires doe == 36524 * c + 1461 * b + j && 0 <= b < 25 && 0 <= j < 1461
    requires r == (if j == 1460 then 3 else j / 365)
    ensures YearOfEra(doe) == 100 * c + 4 * b + r
  {
    var t := if 24 * c + b + j >= 1460 then 1 else 0;
    QuotientIs(doe, 1460, 25 * c + b + t);
    var e := if doe == 146096 then 1 else 0;
    QuotientIs(doe, 36524, c + e);
    QuotientIs(doe, 146096, e);
    var x := doe - doe / 1460 + doe / 36524 - e;
    assert x == 36500 * c + 1460 * b + j - t;
    WrapIs(x);
    hide Wrap;
    QuotientIs(x, 365, 100 * c + 4 * b + r);
  }

  lemma QuotientIs(x: int, n: int, q: int)
    requires n > 0 && q * n <= x < q * n + n
    ensures x / n == q
  {
    var d := x / n - q;
    assert (x / n) * n <= x < (x / n) * n + n;
    assert d * n == (x / n) * n - q * n;
    assert d >= 1 ==> d * n >= n;
    assert d <= -1 ==> d * n <= -n;
  }

  lemma YearStartIs(c: int, b: int, r: int)
    requires 0 <= c < 4 && 0 <= b < 25 && 0 <= r < 4
    ensures var yoe := 100 * c + 4 * b + r;
            && YearStart(yoe) == 36524 * c + 1461 * b + 365 * r
            && YearLength(yoe) == if r == 3 && (b < 24 || c == 3) then 366 else 365
  {
    var yoe := 100 * c + 4 * b + r;
    assert yoe / 4 == 25 * c + b && yoe / 100 == c;
  }

  // The month that a day of a March-based year falls in.
  lemma MarchMonthIs(doy: U32)
    requires doy <= 365
    ensures 0 <= MarchMonth(doy) < 12
    ensures MonthStart(MarchMonth(doy)) <= doy < MonthStart(MarchMonth(doy) + 1)
  {
  }
}

/** Broken-down times, Julian day numbers, and the order of both. */
module Calendar {
  /** A broken-down time. */
  datatype Tm = Tm(year: int, month: nat, day: nat, hour: nat, minute: nat, second: nat)

  predicate Leap(y: int) { y % 400 == 0 || (y % 100 != 0 && y % 4 == 0) }

  function MonthDays(y: int, m: nat): nat {
    if m == 2 then (if Leap(y) then 29 else 28)
    else if m in {4, 6, 9, 11} then 30 else 31
  }

  predicate ValidTm(t: Tm) {
    && 1 <= t.month <= 12 && 1 <= t.day <= 31 && t.day <= MonthDays(t.year, t.month)
    && t.hour <= 23 && t.minute <= 59 && t.second <= 59
  }

  /** Division of C, which drops the fraction. */
  function Quotient(a: int, b: int): int
    requires b > 0
  {
    if a < 0 then -((-a) / b) else a / b
  }

  function Julian(t: Tm): int {
    var m := Quotient(t.month - 14, 12);
    Quotient(1461 * (t.year + 4800 + m), 4) + Quotient(367 * (t.month - 2 - 12 * m), 12)
    - Quotient(3 * Quotient(t.year + 4900 + m, 100), 4) + t.day - 32075
  }

  function JulianYear(jd: int): int {
    var l := jd + 68569;
    var n := Quotient(4 * l, 146097);
    var l1 := l - Quotient(146097 * n + 3, 4);
    var i := Quotient(4000 * (l1 + 1), 1461001);
    var l2 := l1 - Quotient(1461 * i, 4) + 31;
    100 * (n - 49) + i + Quotient(Quotient(80 * l2, 2447), 11)
  }

  const DAY := 86400

  /** Seconds on one line for all times. */
  function Seconds(t: Tm): int {
    Julian(t) * DAY + t.hour * 3600 + t.minute * 60 + t.second
  }

  // ----- later dates have larger day numbers -----

  /** Days before a year that begins in March, up to a constant. */
  function MarchYear(z: int): int
    requires z >= 0
  {
    1461 * z / 4 - 3 * ((z + 100) / 100) / 4
  }

  /** Days from the first of March to the beginning of a month, March being the first, up to a constant. */
  function MonthStart(m: nat): nat { 367 * m / 12 }

  /** Years counted from March, from the year -4800 on, and months likewise. */
  function ShiftedYear(t: Tm): int { t.year + 4800 - if t.month <= 2 then 1 else 0 }

  function ShiftedMonth(t: Tm): int { if t.month <= 2 then t.month + 10 else t.month - 2 }

  lemma JulianParts(t: Tm)
    requires 1 <= t.month <= 12 && t.year >= -4700
    ensures Julian(t) == MarchYear(ShiftedYear(t)) + MonthStart(ShiftedMonth(t)) + t.day - 32075
  {
    assert Quotient(t.month - 14, 12) == if t.month <= 2 then -1 else 0;
  }

  lemma LeapDays(z: int)
    requires z >= 0
    ensures 1461 * (z + 1) / 4 == 1461 * z / 4 + if (z + 1) % 4 == 0 then 366 else 365
  {
  }

  /** Three of four centuries lose a leap day. */
  lemma LostDays(c: int)
    requires c >= 0
    ensures 3 * (c + 1) / 4 == 3 * c / 4 + if c % 4 == 0 then 0 else 1
  {
  }

  lemma CenturyStep(z: int)
    requires z >= 0
    ensures (z + 101) / 100 == (z + 100) / 100 + if (z + 1) % 100 == 0 then 1 else 0
  {
  }

  /** Of the centuries every fourth has its leap day. */
  lemma FourthCentury(y: int, c: int)
    requires y == 100 * c
    ensures y % 400 == 0 <==> c % 4 == 0
  {
    var e, f := c / 4, c % 4;
    assert y == 400 * e + 100 * f;
  }

  lemma CenturyIsQuarter(y: int)
    requires y % 100 == 0
    ensures y % 4 == 0
  {
    assert y == 100 * (y / 100);
  }

  lemma By400(y: int)
    ensures (y - 4800) % 400 == y % 400
  {
    assert y == 400 * (y / 400) + y % 400;
  }

  lemma By100(y: int)
    ensures (y - 4800) % 100 == y % 100
  {
    assert y == 100 * (y / 100) + y % 100;
  }

  lemma By4(y: int)
    ensures (y - 4800) % 4 == y % 4
  {
    assert y == 4 * (y / 4) + y % 4;
  }

  lemma LeapCases(y: int)
    ensures Leap(y - 4800) <==> if y % 100 == 0 then y % 400 == 0 else y % 4 == 0
  {
    By400(y);
    By100(y);
    By4(y);
    assert y % 400 == 0 ==> y == 100 * (4 * (y / 400));
  }

  /** A year that begins in March has the days of the year of its February. */
  lemma MarchYearStep(z: int)
    requires z >= 0
    ensures MarchYear(z + 1) == MarchYear(z) + if Leap(z + 1 - 4800) then 366 else 365
  {
    LeapDays(z);
    CenturyStep(z);
    LeapCases(z + 1);
    hide Leap;
    var c := (z + 100) / 100;
    LostDays(c);
    if (z + 1) % 100 == 0 {
      CenturyIsQuarter(z + 1);
      WholeCentury(z, c);
      FourthCentury(z + 1, c);
    }
  }

  lemma WholeCentury(z: int, c: int)
    requires z >= 0 && (z + 1) % 100 == 0 && c == (z + 100) / 100
    ensures z + 1 == 100 * c
  {
    var d := (z + 1) / 100;
    assert z + 1 == 100 * d;
  }

  lemma {:induction false} MarchYearsGrow(y: int, z: int)
    requires 0 <= y <= z
    ensures MarchYear(y) <= MarchYear(z)
    decreases z
  {
    if y < z {
      MarchYearsGrow(y, z - 1);
      MarchYearStep(z - 1);
    }
  }

  /** Calendar order of two days. */
  predicate EarlierDay(s: Tm, t: Tm) {
    s.year < t.year || (s.year == t.year && (s.month < t.month || (s.month == t.month && s.day < t.day)))
  }

  lemma LaterMonthIsLarger(s: Tm, t: Tm)
    requires ValidTm(s) && ValidTm(t) && s.year >= 0 && EarlierDay(s, t) && ShiftedYear(s) == ShiftedYear(t)
    ensures MonthStart(ShiftedMonth(s)) + s.day < MonthStart(ShiftedMonth(t)) + t.day
  {
    MonthsGrow(s, ShiftedMonth(s), ShiftedMonth(t));
    assert ShiftedMonth(s) < ShiftedMonth(t) || (ShiftedMonth(s) == ShiftedMonth(t) && s.day < t.day);
    hide MonthStart, MonthDays;
  }

  lemma LaterYearIsLarger(s: Tm, t: Tm)
    requires ValidTm(s) && ValidTm(t) && 0 <= ShiftedYear(s) < ShiftedYear(t)
    ensures MarchYear(ShiftedYear(s)) + MonthStart(ShiftedMonth(s)) + s.day
          < MarchYear(ShiftedYear(t)) + MonthStart(ShiftedMonth(t)) + t.day
  {
    MonthsGrow(s, ShiftedMonth(s), ShiftedMonth(t));
    MarchYearStep(ShiftedYear(s));
    MarchYearsGrow(ShiftedYear(s) + 1, ShiftedYear(t));
    hide MonthStart, MonthDays, MarchYear, Leap;
  }

  lemma LaterDayIsLarger(s: Tm, t: Tm)
    requires ValidTm(s) && ValidTm(t) && s.year >= 0 && EarlierDay(s, t)
    ensures Julian(s) < Julian(t)
  {
    JulianParts(s);
    JulianParts(t);
    hide Julian, MarchYear, MonthStart, MonthDays, Leap;
    if ShiftedYear(s) == ShiftedYear(t) { LaterMonthIsLarger(s, t); } else { LaterYearIsLarger(s, t); }
  }

  /** A day stands before the beginning of every later month of its year, and no year is longer than its days. */
  lemma MonthsGrow(s: Tm, m: nat, n: nat)
    requires ValidTm(s) && m == ShiftedMonth(s) && n <= 12
    ensures m < n ==> MonthStart(m) + s.day <= MonthStart(n)
    ensures MonthStart(m) + s.day <= MonthStart(1) + if Leap(ShiftedYear(s) + 1 - 4800) then 366 else 365
    ensures 1 <= n ==> MonthStart(1) <= MonthStart(n)
  {
  }

  /** Calendar order of two times. */
  predicate Earlier(s: Tm, t: Tm) {
    var a, b := s.hour * 3600 + s.minute * 60 + s.second, t.hour * 3600 + t.minute * 60 + t.second;
    EarlierDay(s, t) || (s.year == t.year && s.month == t.month && s.day == t.day && a < b)
  }

  lemma Trichotomy(s: Tm, t: Tm)
    requires ValidTm(s) && ValidTm(t)
    ensures s == t || Earlier(s, t) || Earlier(t, s)
  {
    if s.hour * 3600 + s.minute * 60 + s.second == t.hour * 3600 + t.minute * 60 + t.second { SecondOfDay(s, t); }
    hide MonthDays;
  }

  /** The seconds of a day determine hour, minute and second. */
  lemma SecondOfDay(s: Tm, t: Tm)
    requires s.minute <= 59 && s.second <= 59 && t.minute <= 59 && t.second <= 59
    requires s.hour * 3600 + s.minute * 60 + s.second == t.hour * 3600 + t.minute * 60 + t.second
    ensures s.hour == t.hour && s.minute == t.minute && s.second == t.second
  {
  }

  /** The seconds of two times stand in the order of the times. */
  lemma SecondsFollowTheCalendar(s: Tm, t: Tm)
    requires ValidTm(s) && ValidTm(t) && s.year >= 0 && t.year >= 0
    ensures Seconds(s) < Seconds(t) <==> Earlier(s, t)
  {
    Trichotomy(s, t);
    if EarlierDay(s, t) { LaterDayIsLarger(s, t); }
    if EarlierDay(t, s) { LaterDayIsLarger(t, s); }
    hide Julian;
  }

  // ----- day numbers back to years -----

  /** The parts of the year of a day number: centuries, years of the century, and whether March has not come round. */
  lemma YearParts(jd: int) returns (n: int, l1: int, i: int, l2: int, j: int)
    requires jd >= 0
    ensures n == 4 * (jd + 68569) / 146097 && l1 == jd + 68569 - (146097 * n + 3) / 4
    ensures i == 4000 * (l1 + 1) / 1461001 && l2 == l1 - 1461 * i / 4 + 31 && j == 80 * l2 / 2447 / 11
    ensures 0 <= l1 <= 36524 && 0 <= i <= 99 && 31 <= l2 <= 397 && 0 <= j <= 1
    ensures JulianYear(jd) == 100 * (n - 49) + i + j
  {
    n := 4 * (jd + 68569) / 146097;
    l1 := jd + 68569 - (146097 * n + 3) / 4;
    i := 4000 * (l1 + 1) / 1461001;
    l2 := l1 - 1461 * i / 4 + 31;
    j := 80 * l2 / 2447 / 11;
  }

  lemma YearsGrow(a: int, b: int)
    requires 0 <= a <= b
    ensures JulianYear(a) <= JulianYear(b)
  {
    var n, l1, i, l2, j := YearParts(a);
    var m, k1, h, k2, g := YearParts(b);
    hide JulianYear;
    assert n <= m;
    if n == m {
      assert l1 <= k1;
      assert i <= h;
      if i == h { assert l2 <= k2 && j <= g; }
    }
  }

  const FIRST_DAY := Julian(Tm(1900, 1, 1, 0, 0, 0))

  const END_DAY := Julian(Tm(10000, 1, 1, 0, 0, 0))

  lemma NewYear(y: int)
    requires y >= 0
    ensures Julian(Tm(y, 1, 1, 0, 0, 0)) == MarchYear(y + 4799) + 337 - 32075
  {
    JulianParts(Tm(y, 1, 1, 0, 0, 0));
    hide Julian, MarchYear;
  }

  lemma NewYearsEve(t: Tm)
    requires t.year >= 0 && t.month == 12 && t.day == 31
    ensures Julian(t) + 1 == Julian(Tm(t.year + 1, 1, 1, 0, 0, 0))
  {
    JulianParts(t);
    NewYear(t.year + 1);
    hide Julian, MarchYear;
  }

  lemma BoundaryDays()
    ensures FIRST_DAY == 2415021 && END_DAY == 5373485
  {
    NewYear(1900);
    NewYear(10000);
    hide Julian;
  }

  lemma YearFromParts(jd: int, n: int, l1: int, i: int, l2: int, j: int)
    requires jd >= 0 && 146097 * n <= 4 * (jd + 68569) < 146097 * (n + 1)
    requires l1 >= 0 && 4 * (jd + 68569 - l1) <= 146097 * n + 3 < 4 * (jd + 68569 - l1 + 1)
    requires i >= 0 && 1461001 * i <= 4000 * (l1 + 1) < 1461001 * (i + 1)
    requires l2 >= 0 && 4 * (l1 - l2 + 31) <= 1461 * i < 4 * (l1 - l2 + 32)
    requires 11 * j <= 80 * l2 / 2447 < 11 * (j + 1)
    ensures JulianYear(jd) == 100 * (n - 49) + i + j
  {
    var n1, k1, i1, k2, j1 := YearParts(jd);
    hide JulianYear;
    assert n1 == n;
    assert k1 == l1;
    assert i1 == i;
    assert k2 == l2;
  }

  lemma BoundaryYears()
    ensures JulianYear(2415020) == 1899 && JulianYear(2415021) == 1900
    ensures JulianYear(5373484) == 9999 && JulianYear(5373485) == 10000
  {
    hide JulianYear;
    YearFromParts(2415020, 67, 36464, 99, 336, 0);
    YearFromParts(2415021, 67, 36465, 99, 337, 1);
    YearFromParts(5373484, 148, 36464, 99, 336, 0);
    YearFromParts(5373485, 148, 36465, 99, 337, 1);
  }

  /** The years from 1900 to 9999 are exactly the days from the first of 1900 up to the last of 9999. */
  lemma FourDigitYears(jd: int)
    requires jd >= 0
    ensures 1900 <= JulianYear(jd) <= 9999 <==> FIRST_DAY <= jd < END_DAY
  {
    BoundaryDays();
    BoundaryYears();
    hide JulianYear;
    if jd < FIRST_DAY { YearsGrow(jd, 2415020); } else { YearsGrow(2415021, jd); }
    if jd < END_DAY { YearsGrow(jd, 5373484); } else { YearsGrow(5373485, jd); }
  }
}

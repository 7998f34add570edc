/** Calendar arithmetic of crypto/o_time.c: Julian day numbers by the Fliegel
    and Van Flandern formulas, and the adjustment of a broken-down time. */
module CalendarTime {

  datatype Date = Date(y: int, m: int, d: int)

  /** Division truncating toward zero, as in C. */
  function Quot(a: int, b: int): int
    requires b > 0
  {
    if a >= 0 then a / b else -((-a) / b)
  }

  /** date_to_julian */
  function DateToJulian(t: Date): int {
    Quot(1461 * (t.y + 4800 + Quot(t.m - 14, 12)), 4)
    + Quot(367 * (t.m - 2 - 12 * Quot(t.m - 14, 12)), 12)
    - Quot(3 * Quot(t.y + 4900 + Quot(t.m - 14, 12), 100), 4)
    + t.d - 32075
  }

  // ---------- the Gregorian calendar ----------

  predicate IsLeap(y: int) {
    y % 4 == 0 && (y % 100 != 0 || y % 400 == 0)
  }

  function DaysInMonth(y: int, m: int): int {
    if m == 2 then (if IsLeap(y) then 29 else 28)
    else if m == 4 || m == 6 || m == 9 || m == 11 then 30
    else 31
  }

  predicate IsDate(t: Date) {
    1 <= t.m <= 12 && 1 <= t.d <= DaysInMonth(t.y, t.m)
  }

  function NextDay(t: Date): Date {
    if t.d < DaysInMonth(t.y, t.m) then t.(d := t.d + 1)
    else if t.m < 12 then Date(t.y, t.m + 1, 1)
    else Date(t.y + 1, 1, 1)
  }

  // ---------- years that start in March ----------

  /** The March-based year, counted from March of -4800. */
  function MarchYear(t: Date): int { t.y + 4800 - if t.m <= 2 then 1 else 0 }

  /** March is month 1, February month 12. */
  function MarchMonth(t: Date): int { if t.m <= 2 then t.m + 10 else t.m - 2 }

  /** Days before a March-based year. */
  function YearStart(n: int): int { 365 * n + n / 4 - n / 100 + n / 400 }

  /** Days before a month of a March-based year, plus 30. */
  function MonthStart(k: int): int { 367 * k / 12 }

  function DayNumber(t: Date): int { YearStart(MarchYear(t)) + MonthStart(MarchMonth(t)) + t.d - 32075 }

  lemma CenturyQuotient(n: int)
    requires n >= 0
    ensures 3 * ((n + 100) / 100) / 4 == n / 100 - n / 400
  {
    var q := n / 100;
    assert (n + 100) / 100 == q + 1;
    assert n / 400 == q / 4 by { assert n / 400 == n / 100 / 4; }
  }

  lemma JulianByMarchYear(t: Date)
    requires 1 <= t.m <= 12 && MarchYear(t) >= 0
    ensures DateToJulian(t) == DayNumber(t)
  {
    var n := MarchYear(t);
    assert Quot(t.m - 14, 12) == if t.m <= 2 then -1 else 0;
    CenturyQuotient(n);
    assert 1461 * n / 4 == 365 * n + n / 4;
  }

  // ---------- day numbers count days ----------

  lemma FourYears(n: int)
    ensures (n + 1) / 4 == n / 4 + if (n + 1) % 4 == 0 then 1 else 0
  {
  }

  lemma Century(n: int)
    ensures (n + 1) / 100 == n / 100 + if (n + 1) % 100 == 0 then 1 else 0
    ensures (n + 1) % 100 == 0 ==> (n + 1) % 4 == 0
  {
  }

  lemma FourCenturies(n: int)
    ensures (n + 1) / 400 == n / 400 + if (n + 1) % 400 == 0 then 1 else 0
    ensures (n + 1) % 400 == 0 ==> (n + 1) % 100 == 0
  {
  }

  lemma LeapShift(y: int)
    ensures IsLeap(y - 4800) == IsLeap(y)
  {
    var q, r := y / 400, y % 400;
    assert y == 400 * q + r && y - 4800 == 400 * (q - 12) + r;
    LeapByRest(y, q, r);
    LeapByRest(y - 4800, q - 12, r);
  }

  lemma LeapByRest(y: int, q: int, r: int)
    requires y == 400 * q + r && 0 <= r < 400
    ensures IsLeap(y) <==> r % 4 == 0 && (r % 100 != 0 || r == 0)
  {
    Remainder(y, 400, q, r);
    Remainder(y, 100, 4 * q + r / 100, r % 100);
    Remainder(y, 4, 100 * q + r / 4, r % 4);
  }

  lemma Remainder(y: int, m: nat, q: int, r: int)
    requires m > 0 && y == m * q + r && 0 <= r < m
    ensures y % m == r
  {
    assert y / m == q by {
      var k := y / m;
      assert m * k <= y < m * k + m;
      assert k < q ==> m * (k + 1) <= m * q;
      assert k > q ==> m * k >= m * (q + 1);
    }
  }

  lemma YearLength(n: int)
    ensures YearStart(n + 1) == YearStart(n) + if IsLeap(n + 1 - 4800) then 366 else 365
  {
    LeapShift(n + 1);
    FourYears(n);
    Century(n);
    FourCenturies(n);
  }

  lemma MonthLength(t: Date)
    requires 1 <= t.m <= 12 && t.m != 2
    ensures MonthStart(MarchMonth(t) + 1) - MonthStart(MarchMonth(t)) == DaysInMonth(t.y, t.m)
  {
  }

  lemma NextDayNumber(t: Date)
    requires IsDate(t)
    ensures IsDate(NextDay(t)) && MarchYear(t) <= MarchYear(NextDay(t))
    ensures DayNumber(NextDay(t)) == DayNumber(t) + 1
  {
    if t.d == DaysInMonth(t.y, t.m) {
      if t.m == 2 {
        YearLength(MarchYear(t));
      } else {
        MonthLength(t);
      }
    }
  }

  /** The number of the next day is one more. */
  lemma NextDayIsNextNumber(t: Date)
    requires IsDate(t) && MarchYear(t) >= 0
    ensures IsDate(NextDay(t)) && MarchYear(NextDay(t)) >= 0
    ensures DateToJulian(NextDay(t)) == DateToJulian(t) + 1
  {
    NextDayNumber(t);
    JulianByMarchYear(t);
    JulianByMarchYear(NextDay(t));
  }

  predicate Before(a: Date, b: Date) {
    a.y < b.y || (a.y == b.y && (a.m < b.m || (a.m == b.m && a.d < b.d)))
  }

  lemma {:induction false} YearStartMonotone(a: int, b: int)
    requires 0 <= a < b
    ensures YearStart(b) >= YearStart(a) + (if IsLeap(a + 1 - 4800) then 366 else 365)
    decreases b - a
  {
    YearLength(a);
    if a + 1 < b {
      YearStartMonotone(a + 1, b);
    }
  }

  /** Where a date lies in its March-based year. */
  lemma InYear(t: Date)
    requires IsDate(t)
    ensures 31 <= MonthStart(MarchMonth(t)) + t.d <= 30 + if IsLeap(MarchYear(t) + 1 - 4800) then 366 else 365
  {
  }

  lemma MonthsApart(a: Date, b: Date)
    requires IsDate(a) && IsDate(b) && MarchYear(a) == MarchYear(b)
    requires MarchMonth(a) < MarchMonth(b)
    ensures MonthStart(MarchMonth(a)) + a.d < MonthStart(MarchMonth(b)) + b.d
  {
    MonthLength(a);
  }

  /** Earlier dates have smaller numbers, so a number determines the date. */
  lemma JulianMonotone(a: Date, b: Date)
    requires IsDate(a) && IsDate(b) && MarchYear(a) >= 0 && MarchYear(b) >= 0
    requires Before(a, b)
    ensures DateToJulian(a) < DateToJulian(b)
  {
    JulianByMarchYear(a);
    JulianByMarchYear(b);
    if MarchYear(a) < MarchYear(b) {
      YearStartMonotone(MarchYear(a), MarchYear(b));
      InYear(a);
      InYear(b);
    } else if MarchMonth(a) < MarchMonth(b) {
      MonthsApart(a, b);
    }
  }

  lemma JulianInjective(a: Date, b: Date)
    requires IsDate(a) && IsDate(b) && MarchYear(a) >= 0 && MarchYear(b) >= 0
    requires DateToJulian(a) == DateToJulian(b)
    ensures a == b
  {
    if Before(a, b) {
      JulianMonotone(a, b);
    } else if Before(b, a) {
      JulianMonotone(b, a);
    }
  }

  /** The anchor: 1 January 2000 is day 2451545. */
  lemma Anchor()
    ensures DateToJulian(Date(2000, 1, 1)) == 2451545
  {
    JulianByMarchYear(Date(2000, 1, 1));
    assert YearStart(6799) == 2483283 && MonthStart(11) == 336;
  }

  // ---------- from day numbers back to dates ----------

  /** `n` is the century (from March of -4900 on) that contains day `l`, and `l2` the day in it. */
  lemma CenturyOf(l: int) returns (n: int, l2: int)
    requires l >= 68569
    ensures n == 4 * l / 146097 && l2 == l - (146097 * n + 3) / 4
    ensures n >= 1 && 0 <= l2 <= 36523 + if n % 4 == 0 then 1 else 0
    ensures (146097 * n + 3) / 4 == 36524 * n + (n + 3) / 4
  {
    n := 4 * l / 146097;
    l2 := l - (146097 * n + 3) / 4;
    assert 146097 * n == 4 * (36524 * n) + n;
    assert (146097 * n + 3) / 4 == 36524 * n + (n + 3) / 4;
  }

  /** The year of the century that contains day `l2`. */
  lemma YearOf(l2: int) returns (i: int)
    requires 0 <= l2 <= 36524
    ensures i == 4000 * (l2 + 1) / 1461001 && 0 <= i <= 99
    ensures 1461 * i / 4 <= l2 < 1461 * (i + 1) / 4
  {
    i := 4000 * (l2 + 1) / 1461001;
    assert 1461001 * i <= 4000 * (l2 + 1) < 1461001 * (i + 1);
  }

  /** The month that contains day `l3`, and the day in it. */
  lemma MonthOf(l3: int) returns (j: int, d: int)
    requires 31 <= l3 <= 396
    ensures j == 80 * l3 / 2447 && d == l3 - 2447 * j / 80
    ensures 1 <= j <= 12 && MonthStart(j) == 2447 * j / 80
    ensures d >= 1 && (j < 12 ==> d <= MonthStart(j + 1) - MonthStart(j)) && (j == 12 ==> d == l3 - 367)
  {
    j := 80 * l3 / 2447;
    d := l3 - 2447 * j / 80;
    assert 2447 * j <= 80 * l3 < 2447 * (j + 1);
  }

  /** The day number of the date assembled from century, year, month and day. */
  lemma AssembledNumber(n: int, i: int, j: int, d: int)
    requires n >= 1 && 0 <= i <= 99 && 1 <= j <= 12
    ensures var t := Date(100 * (n - 49) + i + j / 11, j + 2 - 12 * (j / 11), d);
            && 1 <= t.m <= 12 && MarchYear(t) == 100 * (n - 1) + i && MarchMonth(t) == j
            && DayNumber(t) == 36524 * (n - 1) + (n - 1) / 4 + 1461 * i / 4 + MonthStart(j) + d - 32075
  {
    var k := 100 * (n - 1) + i;
    assert k / 100 == n - 1;
    assert k / 4 == 25 * (n - 1) + i / 4;
    assert k / 400 == (n - 1) / 4 by { assert k / 400 == k / 100 / 4; }
  }

  /** The assembled date exists, also at the end of February. */
  lemma AssembledDate(n: int, l2: int, i: int, j: int, d: int)
    requires n >= 1 && 0 <= i <= 99 && 1 <= j <= 12 && d >= 1
    requires 0 <= l2 <= 36523 + if n % 4 == 0 then 1 else 0
    requires 1461 * i / 4 <= l2 < 1461 * (i + 1) / 4
    requires j < 12 ==> d <= MonthStart(j + 1) - MonthStart(j)
    requires j == 12 ==> d == l2 - 1461 * i / 4 + 31 - 367
    ensures IsDate(Date(100 * (n - 49) + i + j / 11, j + 2 - 12 * (j / 11), d))
  {
    var t := Date(100 * (n - 49) + i + j / 11, j + 2 - 12 * (j / 11), d);
    if j == 12 {
      FebruaryLength(n, l2, i);
    }
  }

  lemma FebruaryLength(n: int, l2: int, i: int)
    requires n >= 1 && 0 <= i <= 99
    requires 0 <= l2 <= 36523 + if n % 4 == 0 then 1 else 0
    requires 1461 * i / 4 <= l2 < 1461 * (i + 1) / 4
    ensures l2 - 1461 * i / 4 <= 364 + if IsLeap(100 * (n - 49) + i + 1) then 1 else 0
  {
    QuarterDays(i);
    if i == 99 {
      CenturyLeap(n);
    } else {
      InnerLeap(n, i);
    }
  }

  lemma QuarterDays(i: int)
    ensures 1461 * (i + 1) / 4 - 1461 * i / 4 == 365 + if (i + 1) % 4 == 0 then 1 else 0
  {
  }

  lemma CenturyLeap(n: int)
    ensures IsLeap(100 * (n - 49) + 100) <==> n % 4 == 0
  {
    var y, q, r := 100 * (n - 48), n / 4, n % 4;
    assert y == 400 * (q - 12) + 100 * r;
    assert y % 400 == 100 * r;
    assert y == 4 * (25 * (n - 48));
  }

  lemma InnerLeap(n: int, i: int)
    requires 0 <= i < 99
    ensures IsLeap(100 * (n - 49) + i + 1) <==> (i + 1) % 4 == 0
  {
    var y := 100 * (n - 49) + i + 1;
    assert y % 100 == i + 1;
    assert y % 4 == (i + 1) % 4;
  }

  /** A valid date, not before the count begins, whose day number is `jd`. */
  predicate Named(t: Date, jd: int) {
    IsDate(t) && MarchYear(t) >= 0 && DateToJulian(t) == jd
  }

  lemma Assembled(jd: int, n: int, l2: int, i: int, j: int, d: int)
    requires n >= 1 && 0 <= i <= 99 && 1 <= j <= 12 && d >= 1
    requires l2 == jd + 68569 - (36524 * n + (n + 3) / 4)
    requires 0 <= l2 <= 36523 + if n % 4 == 0 then 1 else 0
    requires 1461 * i / 4 <= l2 < 1461 * (i + 1) / 4
    requires j < 12 ==> d <= MonthStart(j + 1) - MonthStart(j)
    requires d == l2 - 1461 * i / 4 + 31 - MonthStart(j)
    ensures var t := Date(100 * (n - 49) + i + j / 11, j + 2 - 12 * (j / 11), d);
            Named(t, jd)
  {
    var t := Date(100 * (n - 49) + i + j / 11, j + 2 - 12 * (j / 11), d);
    AssembledNumber(n, i, j, d);
    AssembledDate(n, l2, i, j, d);
    JulianByMarchYear(t);
    assert (n + 3) / 4 == (n - 1) / 4 + 1;
  }

  /** julian_to_date: the date whose number is `jd`. */
  method JulianToDate(jd: int) returns (y: int, m: int, d: int)
    requires jd >= 0
    ensures Named(Date(y, m, d), jd)
    ensures jd < 0x1_0000_0000 ==> FitsInt(y)
  {
    var l := jd + 68569;
    ghost var n', l2 := CenturyOf(l);
    var n := Quot(4 * l, 146097);
    CenturyFits(jd, n);
    l := l - Quot(146097 * n + 3, 4);
    ghost var i' := YearOf(l);
    var i := Quot(4000 * (l + 1), 1461001);
    l := l - Quot(1461 * i, 4) + 31;
    ghost var j', d' := MonthOf(l);
    var j := Quot(80 * l, 2447);
    d := l - Quot(2447 * j, 80);
    Assembled(jd, n, l2, i, j, d);
    assert FitsInt(4000 * (l2 + 1)) && FitsInt(1461 * i) && FitsInt(80 * l) && FitsInt(2447 * j);
    y, m := FromMarch(n, i, j, d, jd);
  }

  /** The products of julian_to_date with the whole day number fit a long. */
  lemma CenturyFits(jd: int, n: int)
    requires jd >= 0 && n == Quot(4 * (jd + 68569), 146097)
    ensures jd < 0x1_0000_0000 ==> FitsLong(4 * (jd + 68569)) && FitsLong(146097 * n + 3) && 0 <= n < 0x2_0000
  {
  }

  /** From months counted from March to the calendar year. */
  method FromMarch(n: int, i: int, j: int, d: int, ghost jd: int) returns (y: int, m: int)
    requires j >= 0 && Named(Date(100 * (n - 49) + i + j / 11, j + 2 - 12 * (j / 11), d), jd)
    ensures Named(Date(y, m, d), jd) && y == 100 * (n - 49) + i + j / 11
  {
    var l := Quot(j, 11);
    m := j + 2 - 12 * l;
    y := 100 * (n - 49) + i + l;
  }

  /** The two conversions invert each other: starting from a date, the way back finds the same date. */
  method RoundTrip(t: Date) returns (u: Date)
    requires IsDate(t) && MarchYear(t) >= 0 && DateToJulian(t) >= 0
    ensures u == t
  {
    var y, m, d := JulianToDate(DateToJulian(t));
    u := Date(y, m, d);
    JulianInjective(t, u);
  }

  // ---------- what fits the C types ----------

  /** int, and long where it has 64 bits. */
  type int32 = x: int | -0x8000_0000 <= x < 0x8000_0000
  type int64 = x: int | -0x8000_0000_0000_0000 <= x < 0x8000_0000_0000_0000

  predicate FitsInt(x: int) { -0x8000_0000 <= x < 0x8000_0000 }

  predicate FitsLong(x: int) { -0x8000_0000_0000_0000 <= x < 0x8000_0000_0000_0000 }

  /** The offsets that OPENSSL_gmtime_adj can split without overflow: the seconds are in range, and the days fit an int
      both before and after the carry from the seconds of the day. */
  predicate OffsetsFit(offDay: int, offsetSec: int, secondsOfDay: int) {
    -2147558400 < offsetSec < 2147558400 && FitsInt(offDay + Quot(offsetSec, 86400))
    && FitsInt((86400 * offDay + offsetSec + secondsOfDay) / 86400)
  }

  /** Every intermediate result of the splitting fits its type exactly for these offsets. */
  lemma SplitFits(offDay: int32, offsetSec: int64, secondsOfDay: int32)
    requires 0 <= secondsOfDay <= 86400
    ensures var q := Quot(offsetSec, 86400);
            var day, hms := q + offDay, offsetSec - q * 86400 + secondsOfDay;
            OffsetsFit(offDay, offsetSec, secondsOfDay) <==>
              FitsInt(q * 86400) && FitsInt(day) && FitsInt(if hms >= 86400 then day + 1 else if hms < 0 then day - 1 else day)
  {
    SecondsFit(offsetSec);
    var q := Quot(offsetSec, 86400);
    var day, hms := q + offDay, offsetSec - q * 86400 + secondsOfDay;
    CarriedDay(day, hms, 86400 * offDay + offsetSec + secondsOfDay);
  }

  lemma CarriedDay(day: int, hms: int, total: int)
    requires total == 86400 * day + hms && -86400 < hms < 172800
    ensures total / 86400 == if hms >= 86400 then day + 1 else if hms < 0 then day - 1 else day
  {
  }

  /** The product that takes the days out of the seconds fits an int exactly for these offsets. */
  lemma SecondsFit(offsetSec: int)
    ensures FitsInt(Quot(offsetSec, 86400) * 86400) <==> -2147558400 < offsetSec < 2147558400
  {
    var q := if offsetSec >= 0 then offsetSec / 86400 else (-offsetSec) / 86400;
    assert q * 86400 < 0x8000_0000 <==> q <= 24855;
  }

  /** The years that date_to_julian can take without overflow. */
  predicate YearFits(t: Date) {
    -1469872 <= t.y + 4800 + Quot(t.m - 14, 12) <= 1469872
  }

  /** Every intermediate result of date_to_julian fits an int exactly for these years. */
  lemma JulianFits(t: Date)
    requires 1 <= t.m <= 12 && 1 <= t.d <= 31
    ensures var q := Quot(t.m - 14, 12);
            var a, b, c := 1461 * (t.y + 4800 + q), 367 * (t.m - 2 - 12 * q), 3 * Quot(t.y + 4900 + q, 100);
            YearFits(t) <==>
              FitsInt(t.y + 4800) && FitsInt(t.y + 4900 + q) && FitsInt(a) && FitsInt(b) && FitsInt(c)
              && FitsInt(Quot(a, 4) + Quot(b, 12)) && FitsInt(Quot(a, 4) + Quot(b, 12) - Quot(c, 4))
              && FitsInt(Quot(a, 4) + Quot(b, 12) - Quot(c, 4) + t.d) && FitsInt(DateToJulian(t))
  {
  }

  lemma JulianIsInt(t: Date)
    requires IsDate(t) && YearFits(t)
    ensures FitsInt(DateToJulian(t))
  {
    JulianFits(t);
  }

  // ---------- adjusting a broken-down time ----------

  /** Seconds since day 0 of the Julian count. */
  function Seconds(t: Date, hour: int, min: int, sec: int): int {
    86400 * DateToJulian(t) + 3600 * hour + 60 * min + sec
  }

  /** The offset, added to the seconds of the day, as whole days and the seconds of a day. */
  method SplitOffset(offDay: int32, offsetSec: int64, secondsOfDay: int32) returns (offsetDay: int32, offsetHms: int32)
    requires 0 <= secondsOfDay <= 86400 && OffsetsFit(offDay, offsetSec, secondsOfDay)
    ensures 0 <= offsetHms < 86400
    ensures 86400 * offsetDay + offsetHms == 86400 * offDay + offsetSec + secondsOfDay
  {
    SplitFits(offDay, offsetSec, secondsOfDay);
    offsetDay := Quot(offsetSec, 86400);
    var days: int32 := offsetDay * 86400;
    offsetHms := offsetSec - days;
    offsetDay := offsetDay + offDay;
    offsetHms := offsetHms + secondsOfDay;
    if offsetHms >= 86400 {
      offsetDay := offsetDay + 1;
      offsetHms := offsetHms - 86400;
    } else if offsetHms < 0 {
      offsetDay := offsetDay - 1;
      offsetHms := offsetHms + 86400;
    }
  }

  lemma SplitDay(s: int)
    requires 0 <= s < 86400
    ensures 0 <= s / 3600 < 24 && s == 3600 * (s / 3600) + 60 * (s / 60 % 60) + s % 60
  {
    assert s / 3600 == s / 60 / 60;
  }

  /** Seconds of the years 1900 to 9999: days 2415021 to 5373484. */
  predicate InRange(total: int) {
    86400 * 2415021 <= total < 86400 * 5373485
  }

  lemma YearsInRange(t: Date, jd: int)
    requires Named(t, jd)
    ensures 1900 <= t.y <= 9999 <==> 2415021 <= jd < 5373485
  {
    var first, beyond := Date(1900, 1, 1), Date(10000, 1, 1);
    RangeEnds();
    if t.y < 1900 {
      JulianMonotone(t, first);
    } else if t != first {
      JulianMonotone(first, t);
    }
    if t.y <= 9999 {
      JulianMonotone(t, beyond);
    } else if t != beyond {
      JulianMonotone(beyond, t);
    }
  }

  lemma RangeEnds()
    ensures DateToJulian(Date(1900, 1, 1)) == 2415021 && DateToJulian(Date(10000, 1, 1)) == 5373485
  {
    assert Quot(-13, 12) == -1 && Quot(367 * 11, 12) == 336;
    assert Quot(1461 * 6699, 4) == 2446809 && Quot(6799, 100) == 67 && Quot(201, 4) == 50;
    assert Quot(1461 * 14799, 4) == 5405334 && Quot(14899, 100) == 148 && Quot(444, 4) == 111;
  }

  class Tm {
    var year: int
    var mon: int
    var mday: int
    var hour: int
    var min: int
    var sec: int

    function Day(): Date
      reads this
    {
      Date(year + 1900, mon + 1, mday)
    }

    function Total(): int
      reads this
    {
      Seconds(Day(), hour, min, sec)
    }

    /** OPENSSL_gmtime_adj, as far as no int overflows: it succeeds exactly when the new time lies in the years 1900
        to 9999, and then the time has moved by exactly the given offset. */
    method GmtimeAdj(offDay: int32, offsetSec: int64) returns (ok: bool)
      requires IsDate(Day()) && 0 <= hour < 24 && 0 <= min < 60 && 0 <= sec <= 60
      requires OffsetsFit(offDay, offsetSec, hour * 3600 + min * 60 + sec) && YearFits(Day())
      modifies this
      ensures ok <==> InRange(old(Total()) + 86400 * offDay + offsetSec)
      ensures ok ==> Total() == old(Total()) + 86400 * offDay + offsetSec
      ensures ok ==> IsDate(Day()) && 0 <= hour < 24 && 0 <= min < 60 && 0 <= sec < 60 && 0 <= year <= 8099
      ensures !ok ==> Day() == old(Day()) && hour == old(hour) && min == old(min) && sec == old(sec)
    {
      var offsetDay, offsetHms := SplitOffset(offDay, offsetSec, hour * 3600 + min * 60 + sec);
      JulianIsInt(Day());
      var startJd: int32 := DateToJulian(Day());
      var timeJd: int64 := startJd + offsetDay;
      if timeJd < 0 {
        return false;
      }
      var y, m, d := JulianToDate(timeJd);
      YearsInRange(Date(y, m, d), timeJd);
      if y < 1900 || y > 9999 {
        return false;
      }
      SetTime(y, m, d, offsetHms);
      return true;
    }

    /** The new date and time are filled in. */
    method SetTime(y: int, m: int, d: int, offsetHms: int)
      requires 0 <= offsetHms < 86400
      modifies this
      ensures Day() == Date(y, m, d) && year == y - 1900 && Total() == 86400 * DateToJulian(Date(y, m, d)) + offsetHms
      ensures 0 <= hour < 24 && 0 <= min < 60 && 0 <= sec < 60
    {
      year, mon, mday := y - 1900, m - 1, d;
      SplitDay(offsetHms);
      hour := offsetHms / 3600;
      min := offsetHms / 60 % 60;
      sec := offsetHms % 60;
      assert Day() == Date(y, m, d);
    }
  }
}

/** The Gregorian/Jalali conversions of Tools.c against two day counts: days since 1600-01-01 in the
    Gregorian calendar and days since 979-01-01 in the Jalali calendar with its 33-year leap rule. */
module Calendar {

  datatype Date = Date(y: int, m: int, d: int)

  const G_DAYS_IN_MONTH: seq<nat> := [31, 28, 31, 30, 31, 30, 31, 31, 30, 31, 30, 31]
  const J_DAYS_IN_MONTH: seq<nat> := [31, 31, 31, 31, 31, 31, 30, 30, 30, 30, 30, 29]

  // ---------- the two calendars ----------

  predicate GregorianLeap(y: int) { (y % 4 == 0 && y % 100 != 0) || y % 400 == 0 }

  function GregorianMonthLength(y: int, m: int): nat
    requires 1 <= m <= 12
  {
    G_DAYS_IN_MONTH[m - 1] + (if m == 2 && GregorianLeap(y) then 1 else 0)
  }

  predicate ValidGregorian(g: Date) {
    1 <= g.m <= 12 && 1 <= g.d <= GregorianMonthLength(g.y, g.m)
  }

  function NextGregorian(g: Date): Date
    requires ValidGregorian(g)
  {
    if g.d < GregorianMonthLength(g.y, g.m) then g.(d := g.d + 1)
    else if g.m < 12 then Date(g.y, g.m + 1, 1)
    else Date(g.y + 1, 1, 1)
  }

  /** Leap years sit at offsets 0, 4, .., 28 of the 33-year cycle anchored at 979. */
  predicate JalaliLeap(y: int) { (y - 979) % 33 % 4 == 0 && (y - 979) % 33 != 32 }

  function JalaliMonthLength(y: int, m: int): nat
    requires 1 <= m <= 12
  {
    J_DAYS_IN_MONTH[m - 1] + (if m == 12 && JalaliLeap(y) then 1 else 0)
  }

  predicate ValidJalali(j: Date) {
    1 <= j.m <= 12 && 1 <= j.d <= JalaliMonthLength(j.y, j.m)
  }

  function NextJalali(j: Date): Date
    requires ValidJalali(j)
  {
    if j.d < JalaliMonthLength(j.y, j.m) then j.(d := j.d + 1)
    else if j.m < 12 then Date(j.y, j.m + 1, 1)
    else Date(j.y + 1, 1, 1)
  }

  ghost predicate Before(a: Date, b: Date) {
    a.y < b.y || (a.y == b.y && (a.m < b.m || (a.m == b.m && a.d < b.d)))
  }

  // ---------- day counts ----------

  function SumTo(lengths: seq<nat>, n: nat): nat
    requires n <= |lengths|
  {
    if n == 0 then 0 else SumTo(lengths, n - 1) + lengths[n - 1]
  }

  /** Days from 1600-01-01 to the first day of year `y`. */
  function GregorianYearDay(y: int): int {
    var gy := y - 1600;
    365 * gy + (gy + 3) / 4 - (gy + 99) / 100 + (gy + 399) / 400
  }

  /** Days from 1600-01-01; total in the day number, as the source's counter is. */
  function GregorianDay(g: Date): int
    requires 1 <= g.m <= 12
  {
    GregorianYearDay(g.y) + SumTo(G_DAYS_IN_MONTH, g.m - 1)
    + (if g.m > 2 && GregorianLeap(g.y) then 1 else 0) + g.d - 1
  }

  /** Days from 979-01-01 to the first day of Jalali year `y`. */
  function JalaliYearDay(y: int): int {
    var cycle, rest := (y - 979) / 33, (y - 979) % 33;
    12053 * cycle + 365 * rest + (rest + 3) / 4
  }

  function JalaliDay(j: Date): int
    requires 1 <= j.m <= 12
  {
    JalaliYearDay(j.y) + SumTo(J_DAYS_IN_MONTH, j.m - 1) + j.d - 1
  }

  /** 979-01-01 Jalali is 20 March 1600, the day the source subtracts. */
  const EPOCH_SHIFT := 79

  // ---------- both counts advance by one from day to day ----------

  lemma Ceil4(n: int)
    ensures (n + 4) / 4 == (n + 3) / 4 + (if n % 4 == 0 then 1 else 0)
  {
  }

  lemma Ceil100(n: int)
    ensures (n + 100) / 100 == (n + 99) / 100 + (if n % 100 == 0 then 1 else 0)
  {
  }

  lemma Ceil400(n: int)
    ensures (n + 400) / 400 == (n + 399) / 400 + (if n % 400 == 0 then 1 else 0)
  {
  }

  lemma CenturyRemainders(y: int)
    ensures (y - 1600) % 4 == y % 4 && (y - 1600) % 100 == y % 100 && (y - 1600) % 400 == y % 400
    ensures y % 400 == 0 ==> y % 100 == 0
    ensures y % 100 == 0 ==> y % 4 == 0
  {
    SameRemainders(y, y / 4, y / 100, y / 400);
  }

  lemma SameRemainders(y: int, fours: int, hundreds: int, fourHundreds: int)
    requires fours == y / 4 && hundreds == y / 100 && fourHundreds == y / 400
    ensures (y - 1600) % 4 == y % 4 && (y - 1600) % 100 == y % 100 && (y - 1600) % 400 == y % 400
  {
    assert y - 1600 == 4 * (fours - 400) + y % 4;
    assert y - 1600 == 100 * (hundreds - 16) + y % 100;
    assert y - 1600 == 400 * (fourHundreds - 4) + y % 400;
  }

  lemma GregorianYearLength(y: int)
    ensures GregorianYearDay(y + 1) == GregorianYearDay(y) + 365 + (if GregorianLeap(y) then 1 else 0)
  {
    CenturyRemainders(y);
    Ceil4(y - 1600);
    Ceil100(y - 1600);
    Ceil400(y - 1600);
  }

  lemma GregorianMonths()
    ensures SumTo(G_DAYS_IN_MONTH, 0) == 0 && SumTo(G_DAYS_IN_MONTH, 1) == 31 && SumTo(G_DAYS_IN_MONTH, 2) == 59
    ensures SumTo(G_DAYS_IN_MONTH, 3) == 90 && SumTo(G_DAYS_IN_MONTH, 4) == 120 && SumTo(G_DAYS_IN_MONTH, 5) == 151
    ensures SumTo(G_DAYS_IN_MONTH, 6) == 181 && SumTo(G_DAYS_IN_MONTH, 7) == 212 && SumTo(G_DAYS_IN_MONTH, 8) == 243
    ensures SumTo(G_DAYS_IN_MONTH, 9) == 273 && SumTo(G_DAYS_IN_MONTH, 10) == 304 && SumTo(G_DAYS_IN_MONTH, 11) == 334
    ensures SumTo(G_DAYS_IN_MONTH, 12) == 365
  {
  }

  lemma JalaliMonths()
    ensures SumTo(J_DAYS_IN_MONTH, 0) == 0 && SumTo(J_DAYS_IN_MONTH, 1) == 31 && SumTo(J_DAYS_IN_MONTH, 2) == 62
    ensures SumTo(J_DAYS_IN_MONTH, 3) == 93 && SumTo(J_DAYS_IN_MONTH, 4) == 124 && SumTo(J_DAYS_IN_MONTH, 5) == 155
    ensures SumTo(J_DAYS_IN_MONTH, 6) == 186 && SumTo(J_DAYS_IN_MONTH, 7) == 216 && SumTo(J_DAYS_IN_MONTH, 8) == 246
    ensures SumTo(J_DAYS_IN_MONTH, 9) == 276 && SumTo(J_DAYS_IN_MONTH, 10) == 306 && SumTo(J_DAYS_IN_MONTH, 11) == 336
    ensures SumTo(J_DAYS_IN_MONTH, 12) == 365
  {
  }

  lemma JalaliYearLength(y: int)
    ensures JalaliYearDay(y + 1) == JalaliYearDay(y) + 365 + (if JalaliLeap(y) then 1 else 0)
  {
    var c, r := (y - 979) / 33, (y - 979) % 33;
    if r == 32 {
      assert (y + 1 - 979) / 33 == c + 1 && (y + 1 - 979) % 33 == 0;
    } else {
      assert (y + 1 - 979) / 33 == c && (y + 1 - 979) % 33 == r + 1;
    }
  }

  lemma NextGregorianDay(g: Date)
    requires ValidGregorian(g)
    ensures ValidGregorian(NextGregorian(g)) && GregorianDay(NextGregorian(g)) == GregorianDay(g) + 1
  {
    hide GregorianYearDay, GregorianLeap;
    GregorianMonths();
    GregorianYearLength(g.y);
  }

  lemma NextJalaliDay(j: Date)
    requires ValidJalali(j)
    ensures ValidJalali(NextJalali(j)) && JalaliDay(NextJalali(j)) == JalaliDay(j) + 1
  {
    hide JalaliYearDay, JalaliLeap;
    JalaliMonths();
    JalaliYearLength(j.y);
  }

  // ---------- both counts are strictly monotone, hence injective ----------

  lemma {:induction false} GregorianYearsGrow(y: int, z: int)
    requires y <= z
    ensures GregorianYearDay(y) + 365 * (z - y) <= GregorianYearDay(z)
    decreases z - y
  {
    if y < z {
      GregorianYearLength(y);
      GregorianYearsGrow(y + 1, z);
    }
  }

  lemma {:induction false} JalaliYearsGrow(y: int, z: int)
    requires y <= z
    ensures JalaliYearDay(y) + 365 * (z - y) <= JalaliYearDay(z)
    decreases z - y
  {
    if y < z {
      JalaliYearLength(y);
      JalaliYearsGrow(y + 1, z);
    }
  }

  /** A valid date lies within its year. */
  lemma GregorianInYear(g: Date)
    requires ValidGregorian(g)
    ensures GregorianYearDay(g.y) <= GregorianDay(g) < GregorianYearDay(g.y + 1)
  {
    GregorianMonths();
    GregorianYearLength(g.y);
  }

  lemma JalaliInYear(j: Date)
    requires ValidJalali(j)
    ensures JalaliYearDay(j.y) <= JalaliDay(j) < JalaliYearDay(j.y + 1)
  {
    hide JalaliYearDay, JalaliLeap;
    JalaliMonths();
    JalaliYearLength(j.y);
  }

  lemma GregorianMonotone(a: Date, b: Date)
    requires ValidGregorian(a) && ValidGregorian(b) && Before(a, b)
    ensures GregorianDay(a) < GregorianDay(b)
  {
    hide GregorianYearDay;
    if a.y < b.y {
      GregorianInYear(a);
      GregorianInYear(b);
      GregorianYearsGrow(a.y + 1, b.y);
    } else {
      GregorianMonths();
    }
  }

  lemma JalaliMonotone(a: Date, b: Date)
    requires ValidJalali(a) && ValidJalali(b) && Before(a, b)
    ensures JalaliDay(a) < JalaliDay(b)
  {
    if a.y < b.y {
      JalaliInYear(a);
      JalaliInYear(b);
      JalaliYearsGrow(a.y + 1, b.y);
    } else {
      JalaliMonths();
    }
  }

  lemma SameGregorian(a: Date, b: Date)
    requires ValidGregorian(a) && ValidGregorian(b) && GregorianDay(a) == GregorianDay(b)
    ensures a == b
  {
    if Before(a, b) { GregorianMonotone(a, b); }
    if Before(b, a) { GregorianMonotone(b, a); }
  }

  lemma SameJalali(a: Date, b: Date)
    requires ValidJalali(a) && ValidJalali(b) && JalaliDay(a) == JalaliDay(b)
    ensures a == b
  {
    if Before(a, b) { JalaliMonotone(a, b); }
    if Before(b, a) { JalaliMonotone(b, a); }
  }

  // ---------- the calendars counted day by day ----------

  /** The Jalali date `n` days after 979-01-01, reached one day at a time. */
  ghost function JalaliOf(n: int): (j: Date)
    requires n >= 0
    ensures ValidJalali(j) && JalaliDay(j) == n && j.y >= 979
    decreases n
  {
    if n == 0 then Date(979, 1, 1)
    else NextJalaliDay(JalaliOf(n - 1)); NextJalali(JalaliOf(n - 1))
  }

  const YEAR_ZERO_DAY := -584388

  /** The Gregorian date `n` days after 1600-01-01, reached one day at a time from year 0. */
  ghost function GregorianOf(n: int): (g: Date)
    requires n >= YEAR_ZERO_DAY
    ensures ValidGregorian(g) && GregorianDay(g) == n && g.y >= 0
    decreases n - YEAR_ZERO_DAY
  {
    if n == YEAR_ZERO_DAY then Date(0, 1, 1)
    else NextGregorianDay(GregorianOf(n - 1)); NextGregorian(GregorianOf(n - 1))
  }

  // ---------- Gregorian to Jalali ----------

  /** The year the source works with: years it does not accept become 2012. */
  function ClampYear(y: int): int { if y < 2000 || y > 2100 then 2012 else y }

  function ClampMonth(m: int): int { if m == 0 || m > 12 then 1 else m }

  function ClampDay(d: int): int { if d == 0 || d > 31 then 1 else d }

  function Clamp(g: Date): Date { Date(ClampYear(g.y), ClampMonth(g.m), ClampDay(g.d)) }

  /** The year arithmetic of M2Sh: `n` days split by cycles, four-year groups and years. */
  lemma JalaliYearSplit(n: nat, cycle: nat, group: nat, rest: nat, year: nat, day: nat)
    requires cycle == n / 12053 && group == n % 12053 / 1461 && rest == n % 12053 % 1461
    requires year == 979 + 33 * cycle + 4 * group + (if rest >= 366 then (rest - 1) / 365 else 0)
    requires day == if rest >= 366 then (rest - 1) % 365 else rest
    ensures n == JalaliYearDay(year) + day
    ensures day < 365 + (if JalaliLeap(year) then 1 else 0)
  {
    var k := if rest >= 366 then (rest - 1) / 365 else 0;
    assert k <= 3 && group <= 8 && (group == 8 ==> rest < 365);
    assert 4 * group + k < 33;
    assert (year - 979) / 33 == cycle && (year - 979) % 33 == 4 * group + k;
    assert n == 12053 * cycle + 1461 * group + rest;
  }

  /** The first half of M2Sh: the day number of a Gregorian date, whatever the month's length. */
  method CountGregorianDays(year: int, month: int, day: int) returns (gDayNo: int)
    requires 1600 <= year && 1 <= month <= 12 && 1 <= day <= 31
    ensures gDayNo == GregorianDay(Date(year, month, day))
  {
    var gy, gm, gd := year - 1600, month - 1, day - 1;
    gDayNo := 365 * gy + (gy + 3) / 4 - (gy + 99) / 100 + (gy + 399) / 400;
    var i := 0;
    while i < gm
      invariant 0 <= i <= gm
      invariant gDayNo == GregorianYearDay(year) + SumTo(G_DAYS_IN_MONTH, i)
    {
      gDayNo := gDayNo + G_DAYS_IN_MONTH[i];
      i := i + 1;
    }
    CenturyRemainders(year);
    if gm > 1 && ((gy % 4 == 0 && gy % 100 != 0) || gy % 400 == 0) {
      gDayNo := gDayNo + 1;
    }
    gDayNo := gDayNo + gd;
  }

  /** The month loop of M2Sh. */
  method TakeJalaliMonths(ghost year: int, dayOfYear: nat) returns (jMonth: int, jDay: int)
    requires dayOfYear < 365 + (if JalaliLeap(year) then 1 else 0)
    ensures ValidJalali(Date(year, jMonth, jDay)) && JalaliDay(Date(year, jMonth, jDay)) == JalaliYearDay(year) + dayOfYear
  {
    hide JalaliLeap, JalaliYearDay;
    var jDayNo, i := dayOfYear, 0;
    while i < 11 && jDayNo >= J_DAYS_IN_MONTH[i]
      invariant 0 <= i <= 11
      invariant 0 <= jDayNo == dayOfYear - SumTo(J_DAYS_IN_MONTH, i)
    {
      jDayNo := jDayNo - J_DAYS_IN_MONTH[i];
      i := i + 1;
    }
    jMonth, jDay := i + 1, jDayNo + 1;
    JalaliMonths();
  }

  /** The year of a day number and the days left in it. */
  method TakeJalaliYears(n: nat) returns (jYear: nat, jDayNo: nat)
    ensures n == JalaliYearDay(jYear) + jDayNo && jDayNo < 365 + (if JalaliLeap(jYear) then 1 else 0)
  {
    hide JalaliLeap, JalaliYearDay;
    jDayNo := n;
    var jNp := jDayNo / 12053;
    jDayNo := jDayNo % 12053;
    ghost var group := jDayNo / 1461;
    jYear := 979 + 33 * jNp + 4 * (jDayNo / 1461);
    jDayNo := jDayNo % 1461;
    ghost var rest := jDayNo;
    if jDayNo >= 366 {
      jYear := jYear + (jDayNo - 1) / 365;
      jDayNo := (jDayNo - 1) % 365;
    }
    JalaliYearSplit(n, jNp, group, rest, jYear, jDayNo);
  }

  /** The second half of M2Sh: the Jalali date of a day number. */
  method SplitJalaliDays(n: nat) returns (jYear: int, jMonth: int, jDay: int)
    ensures Date(jYear, jMonth, jDay) == JalaliOf(n)
  {
    hide JalaliLeap, JalaliYearDay, JalaliDay, ValidJalali, JalaliOf;
    var jDayNo;
    jYear, jDayNo := TakeJalaliYears(n);
    jMonth, jDay := TakeJalaliMonths(jYear, jDayNo);
    SameJalali(Date(jYear, jMonth, jDay), JalaliOf(n));
  }

  /** Clamped Gregorian days start after the Jalali epoch. */
  lemma ClampedDayIsLate(g: Date)
    requires 0 <= g.m && 0 <= g.d
    ensures GregorianDay(Clamp(g)) >= GregorianYearDay(2000) >= EPOCH_SHIFT
  {
    GregorianYearsGrow(2000, Clamp(g).y);
    GregorianMonths();
  }

  ghost predicate ConvertibleDay(g: Date) {
    ValidGregorian(g) && GregorianDay(g) >= EPOCH_SHIFT
  }

  /** What M2Sh computes below its clamp. */
  ghost function ToJalali(g: Date): (j: Date)
    requires ConvertibleDay(g)
    ensures ValidJalali(j) && JalaliDay(j) == GregorianDay(g) - EPOCH_SHIFT
  {
    JalaliOf(GregorianDay(g) - EPOCH_SHIFT)
  }

  lemma LateYear(g: Date)
    requires 1 <= g.m <= 12 && 1 <= g.d <= 31 && GregorianDay(g) >= 0
    ensures g.y >= 1600
  {
    if g.y < 1600 {
      GregorianMonths();
      GregorianYearLength(g.y);
      GregorianYearsGrow(g.y + 1, 1600);
    }
  }

  /** M2Sh behind its clamp, on every date from the Jalali epoch on; February may have up to 31 days. */
  method ConvertDate(year: int, month: int, day: int) returns (jYear: int, jMonth: int, jDay: int)
    requires 1 <= month <= 12 && 1 <= day <= 31 && GregorianDay(Date(year, month, day)) >= EPOCH_SHIFT
    ensures Date(jYear, jMonth, jDay) == JalaliOf(GregorianDay(Date(year, month, day)) - EPOCH_SHIFT)
    ensures ConvertibleDay(Date(year, month, day)) ==> Date(jYear, jMonth, jDay) == ToJalali(Date(year, month, day))
  {
    hide JalaliOf, GregorianDay;
    LateYear(Date(year, month, day));
    var gDayNo := CountGregorianDays(year, month, day);
    jYear, jMonth, jDay := SplitJalaliDays(gDayNo - 79);
  }

  /** What M2Sh returns, clamp included. */
  ghost function StoredJalali(g: Date): (j: Date)
    requires 0 <= g.m && 0 <= g.d
    ensures ValidJalali(j) && JalaliDay(j) == GregorianDay(Clamp(g)) - EPOCH_SHIFT && j.y >= 979
  {
    ClampedDayIsLate(g);
    JalaliOf(GregorianDay(Clamp(g)) - EPOCH_SHIFT)
  }

  /** M2Sh: the Jalali date of the clamped Gregorian date. */
  method M2Sh(gYear: int, gMonth: int, gDay: int) returns (jYear: int, jMonth: int, jDay: int)
    requires 0 <= gYear < 65536 && 0 <= gMonth < 256 && 0 <= gDay < 256
    ensures Date(jYear, jMonth, jDay) == StoredJalali(Date(gYear, gMonth, gDay))
  {
    hide JalaliOf, GregorianDay, ConvertibleDay;
    var year, month, day := gYear, gMonth, gDay;
    if year < 2000 || year > 2100 { year := 2012; }
    if month == 0 || month > 12 { month := 1; }
    if day == 0 || day > 31 { day := 1; }
    ghost var given := Date(gYear, gMonth, gDay);
    assert Clamp(given) == Date(year, month, day);
    ClampedDayIsLate(given);
    jYear, jMonth, jDay := ConvertDate(year, month, day);
  }

  // ---------- Jalali to Gregorian ----------

  /** The day counter SH2M starts from counts days from year 0. */
  function Sh2mCounter(jy: int, jm: int, jd: int): int {
    var y := jy + 1595;
    -355668 + 365 * y + y / 33 * 8 + (y % 33 + 3) / 4 + jd
    + (if jm < 7 then (jm - 1) * 31 else (jm - 7) * 30 + 186)
  }

  lemma Sh2mCounterIsDay(j: Date)
    requires ValidJalali(j)
    ensures Sh2mCounter(j.y, j.m, j.d) == JalaliDay(j) + EPOCH_SHIFT - YEAR_ZERO_DAY
  {
    JalaliMonths();
    var y := j.y + 1595;
    assert y == j.y - 979 + 33 * 78;
    assert y / 33 == (j.y - 979) / 33 + 78 && y % 33 == (j.y - 979) % 33;
  }

  lemma UpToFours(x: int, r: int)
    requires 0 <= r < 4
    ensures (4 * x + r + 3) / 4 == x + (if r > 0 then 1 else 0) && (4 * x + r) % 4 == r
  {
  }

  lemma UpToHundreds(x: int, r: int)
    requires 0 <= r < 100
    ensures (100 * x + r + 99) / 100 == x + (if r > 0 then 1 else 0) && (100 * x + r) % 100 == r
  {
  }

  lemma UpToFourHundreds(x: int, r: int)
    requires 0 <= r < 400
    ensures (400 * x + r + 399) / 400 == x + (if r > 0 then 1 else 0) && (400 * x + r) % 400 == r
  {
  }

  /** The rounded quotients of a year count, and its remainders, from any way to split it up. */
  lemma Quotients(n: int, fours: int, r4: int, hundreds: int, r100: int, fourHundreds: int, r400: int)
    requires n == 4 * fours + r4 == 100 * hundreds + r100 == 400 * fourHundreds + r400
    requires 0 <= r4 < 4 && 0 <= r100 < 100 && 0 <= r400 < 400
    ensures (n + 3) / 4 == fours + (if r4 > 0 then 1 else 0) && n % 4 == r4
    ensures (n + 99) / 100 == hundreds + (if r100 > 0 then 1 else 0) && n % 100 == r100
    ensures (n + 399) / 400 == fourHundreds + (if r400 > 0 then 1 else 0) && n % 400 == r400
  {
    UpToFours(fours, r4);
    UpToHundreds(hundreds, r100);
    UpToFourHundreds(fourHundreds, r400);
  }

  /** Days from year 0 to year 400 m + 100 c + 4 g + k. */
  lemma YearZeroDays(m: nat, c: nat, g: nat, k: nat, y: nat)
    requires c <= 3 && g <= 24 && k <= 3 && y == 400 * m + 100 * c + 4 * g + k
    ensures GregorianYearDay(y) - YEAR_ZERO_DAY
         == 146097 * m + 36524 * c + 1461 * g + 365 * k
            + (if k > 0 then 1 else 0) - (if 4 * g + k > 0 then 1 else 0) + (if 100 * c + 4 * g + k > 0 then 1 else 0)
    ensures GregorianLeap(y) <==> k == 0 && (g > 0 || c == 0)
  {
    hide GregorianLeap;
    Quotients(y - 1600, 100 * m + 25 * c + g - 400, k, 4 * m + c - 16, 4 * g + k, m - 4, 100 * c + 4 * g + k);
    YearZeroLeap(m, c, g, k, y);
  }

  lemma YearZeroLeap(m: nat, c: nat, g: nat, k: nat, y: nat)
    requires c <= 3 && g <= 24 && k <= 3 && y == 400 * m + 100 * c + 4 * g + k
    ensures GregorianLeap(y) <==> k == 0 && (g > 0 || c == 0)
  {
    Quotients(y, 100 * m + 25 * c + g, k, 4 * m + c, 4 * g + k, m, 100 * c + 4 * g + k);
  }

  /** The year arithmetic of SH2M: `n` days from year 0 split by 400, 100, 4 and single years. */
  lemma GregorianYearSplit(n: nat, m: nat, r: nat, c: nat, s: nat, g: nat, q: nat, k: nat, day: nat)
    requires m == n / 146097 && r == n % 146097
    requires if r > 36524 then c == (r - 1) / 36524 && s == (r - 1) % 36524 + (if (r - 1) % 36524 >= 365 then 1 else 0)
             else c == 0 && s == r
    requires g == s / 1461 && q == s % 1461
    requires if q > 365 then k == (q - 1) / 365 && day == (q - 1) % 365 else k == 0 && day == q
    ensures n + YEAR_ZERO_DAY == GregorianYearDay(400 * m + 100 * c + 4 * g + k) + day
    ensures day < 365 + (if GregorianLeap(400 * m + 100 * c + 4 * g + k) then 1 else 0)
  {
    assert c <= 3 && s <= 36524;
    assert g <= 24 && q <= 1460;
    assert k <= 3;
    YearZeroDays(m, c, g, k, 400 * m + 100 * c + 4 * g + k);
    assert s == 1461 * g + q;
    assert n == 146097 * m + r;
    if q > 365 {
      assert q - 1 == 365 * k + day;
      assert k >= 1;
    }
    if r > 36524 {
      assert r - 1 == 36524 * c + (r - 1) % 36524;
      assert c >= 1;
    }
  }

  /** The middle of SH2M: the year and the day of the year of day `n` after year 0. */
  method SplitGregorianDays(n: nat) returns (out0: nat, out2: nat)
    ensures n + YEAR_ZERO_DAY == GregorianYearDay(out0) + out2
    ensures out2 < 365 + (if GregorianLeap(out0) then 1 else 0)
  {
    hide GregorianYearDay, GregorianLeap;
    out0, out2 := 400 * (n / 146097), n % 146097;
    ghost var r, c := out2, 0;
    if out2 > 36524 {
      out2 := out2 - 1;
      c := out2 / 36524;
      out0 := out0 + 100 * (out2 / 36524);
      out2 := out2 % 36524;
      if out2 >= 365 { out2 := out2 + 1; }
    }
    ghost var s := out2;
    out0 := out0 + 4 * (out2 / 1461);
    out2 := out2 % 1461;
    ghost var q, k := out2, 0;
    if out2 > 365 {
      k := (out2 - 1) / 365;
      out0 := out0 + (out2 - 1) / 365;
      out2 := (out2 - 1) % 365;
    }
    GregorianYearSplit(n, n / 146097, r, c, s, s / 1461, q, k, out2);
  }

  /** Days of a year before its month `m`. */
  function MonthStart(y: int, m: int): int
    requires 1 <= m <= 13
  {
    SumTo(G_DAYS_IN_MONTH, m - 1) + (if m > 2 && GregorianLeap(y) then 1 else 0)
  }

  lemma MonthStartStep(y: int, m: int)
    requires 1 <= m <= 12
    ensures MonthStart(y, m + 1) == MonthStart(y, m) + GregorianMonthLength(y, m)
    ensures MonthStart(y, 1) == 0
  {
  }

  lemma YearEnd(y: int)
    ensures MonthStart(y, 13) == 365 + (if GregorianLeap(y) then 1 else 0)
  {
    GregorianMonths();
  }

  /** The closing loop of SH2M over the month lengths of the year found. */
  method TakeMonths(out0: nat, dayOfYear: nat) returns (mm: int, md: int)
    requires dayOfYear < 365 + (if GregorianLeap(out0) then 1 else 0)
    ensures ValidGregorian(Date(out0, mm, md))
    ensures GregorianDay(Date(out0, mm, md)) == GregorianYearDay(out0) + dayOfYear
  {
    var february := if (out0 % 4 == 0 && out0 % 100 != 0) || out0 % 400 == 0 then 29 else 28;
    var salA := [0, 31, february, 31, 30, 31, 30, 31, 31, 30, 31, 30, 31];
    assert forall i :: 1 <= i <= 12 ==> salA[i] == GregorianMonthLength(out0, i);
    var out2, out1 := dayOfYear + 1, 0;
    MonthStartStep(out0, 1);
    YearEnd(out0);
    while out1 < 13 && out2 > salA[out1]
      invariant 0 <= out1 <= 12 && 1 <= out2
      invariant out2 == dayOfYear + 1 - (if out1 == 0 then 0 else MonthStart(out0, out1))
    {
      if out1 > 0 { MonthStartStep(out0, out1); }
      out2 := out2 - salA[out1];
      out1 := out1 + 1;
    }
    mm, md := out1, out2;
  }

  /** The Gregorian date of a day counter, as SH2M goes on from it. */
  method ConvertDays(n: nat) returns (my: int, mm: int, md: int)
    ensures var g := GregorianOf(n + YEAR_ZERO_DAY); my == g.y % 65536 && mm == g.m && md == g.d
  {
    var out0, out2 := SplitGregorianDays(n);
    mm, md := TakeMonths(out0, out2);
    my := out0 % 65536;
    SameGregorian(Date(out0, mm, md), GregorianOf(n + YEAR_ZERO_DAY));
  }

  /** SH2M, for every month and day that leave its counter non-negative. */
  method SH2M(jy: int, jm: int, jd: int) returns (my: int, mm: int, md: int)
    requires jy + 1595 >= 0 && Sh2mCounter(jy, jm, jd) >= 0
    ensures var g := GregorianOf(Sh2mCounter(jy, jm, jd) + YEAR_ZERO_DAY);
            my == g.y % 65536 && mm == g.m && md == g.d
  {
    hide GregorianOf;
    var y := jy + 1595;
    var n := -355668 + 365 * y + y / 33 * 8 + (y % 33 + 3) / 4 + jd
             + (if jm < 7 then (jm - 1) * 31 else (jm - 7) * 30 + 186);
    my, mm, md := ConvertDays(n);
  }

  // ---------- the two conversions are inverse ----------

  lemma JalaliDayBound(j: Date)
    requires ValidJalali(j) && j.y >= 0
    ensures JalaliDay(j) >= YEAR_ZERO_DAY
  {
    JalaliInYear(j);
    JalaliYearsGrow(0, j.y);
  }

  /** What SH2M computes before its year is stored in 16 bits. */
  ghost function ToGregorian(j: Date): (g: Date)
    requires ValidJalali(j) && j.y >= 0
    ensures ValidGregorian(g) && GregorianDay(g) == JalaliDay(j) + EPOCH_SHIFT && g.y >= 0
  {
    JalaliDayBound(j);
    GregorianOf(JalaliDay(j) + EPOCH_SHIFT)
  }

  lemma Sh2mComputesToGregorian(j: Date)
    requires ValidJalali(j) && j.y >= 0
    ensures Sh2mCounter(j.y, j.m, j.d) >= 0
    ensures GregorianOf(Sh2mCounter(j.y, j.m, j.d) + YEAR_ZERO_DAY) == ToGregorian(j)
  {
    hide Sh2mCounter, JalaliYearDay, JalaliLeap, GregorianOf;
    Sh2mCounterIsDay(j);
    JalaliDayBound(j);
  }

  /** SH2M undoes M2Sh on every Gregorian date from 20 March 1600 on. */
  lemma GregorianRoundTrip(g: Date)
    requires ConvertibleDay(g)
    ensures ToJalali(g).y >= 979 && ToGregorian(ToJalali(g)) == g
  {
    SameGregorian(ToGregorian(ToJalali(g)), g);
  }

  /** M2Sh undoes SH2M on every Jalali date from 979 on. */
  lemma JalaliRoundTrip(j: Date)
    requires ValidJalali(j) && j.y >= 979
    ensures ConvertibleDay(ToGregorian(j)) && ToJalali(ToGregorian(j)) == j
  {
    JalaliInYear(j);
    JalaliYearsGrow(979, j.y);
    SameJalali(ToJalali(ToGregorian(j)), j);
  }

  /** The next Gregorian day is always the next Jalali day. */
  lemma NextDay(g: Date)
    requires ConvertibleDay(g)
    ensures ConvertibleDay(NextGregorian(g)) && ToJalali(NextGregorian(g)) == NextJalali(ToJalali(g))
  {
    NextGregorianDay(g);
    NextJalaliDay(ToJalali(g));
    SameJalali(ToJalali(NextGregorian(g)), NextJalali(ToJalali(g)));
  }

  lemma ConversionKeepsOrder(a: Date, b: Date)
    requires ConvertibleDay(a) && ConvertibleDay(b) && Before(a, b)
    ensures Before(ToJalali(a), ToJalali(b))
  {
    var x, y := ToJalali(a), ToJalali(b);
    GregorianMonotone(a, b);
    if Before(y, x) { JalaliMonotone(y, x); }
    assert Before(x, y) || x == y || Before(y, x);
  }

  /** The conversion is strictly monotone in both directions. */
  lemma ConversionMonotone(a: Date, b: Date)
    requires ConvertibleDay(a) && ConvertibleDay(b)
    ensures Before(a, b) <==> Before(ToJalali(a), ToJalali(b))
  {
    if Before(a, b) {
      ConversionKeepsOrder(a, b);
    } else if Before(b, a) {
      ConversionKeepsOrder(b, a);
    } else {
      assert a == b;
    }
  }

  /** The anchor that fixes the correspondence: Nowruz of 1379 fell on 20 March 2000. */
  lemma Nowruz1379()
    ensures ConvertibleDay(Date(2000, 3, 20)) && ToJalali(Date(2000, 3, 20)) == Date(1379, 1, 1)
  {
    GregorianMonths();
    JalaliMonths();
    SameJalali(ToJalali(Date(2000, 3, 20)), Date(1379, 1, 1));
  }

  // ---------- the clamp decides when the stored functions invert each other ----------

  lemma YearOfDay(g: Date, lo: int, hi: int)
    requires ValidGregorian(g) && lo <= hi
    ensures lo <= g.y <= hi <==> GregorianYearDay(lo) <= GregorianDay(g) < GregorianYearDay(hi + 1)
  {
    GregorianInYear(g);
    if g.y < lo { GregorianYearsGrow(g.y + 1, lo); } else { GregorianYearsGrow(lo, g.y); }
    if g.y > hi { GregorianYearsGrow(hi + 1, g.y); } else { GregorianYearsGrow(g.y + 1, hi + 1); }
  }

  /** Clamped days fall into the years 2000 to 2100, whatever month and day were asked for. */
  lemma ClampedDayInRange(g: Date)
    requires 0 <= g.m && 0 <= g.d
    ensures GregorianYearDay(2000) <= GregorianDay(Clamp(g)) < GregorianYearDay(2101)
  {
    var c := Clamp(g);
    GregorianMonths();
    GregorianYearLength(c.y);
    GregorianYearsGrow(2000, c.y);
    GregorianYearsGrow(c.y, 2100);
    GregorianYearLength(2100);
  }

  /** On a valid date M2Sh is invertible exactly when its year is not clamped. */
  lemma ClampedRoundTrip(g: Date)
    requires ValidGregorian(g) && 0 <= g.y < 65536
    ensures ToGregorian(StoredJalali(g)) == g <==> 2000 <= g.y <= 2100
  {
    if 2000 <= g.y <= 2100 {
      assert Clamp(g) == g;
      SameGregorian(ToGregorian(StoredJalali(g)), g);
    } else {
      ClampedDayInRange(g);
      YearOfDay(ToGregorian(StoredJalali(g)), 2000, 2100);
    }
  }
}

/** The proleptic Gregorian calendar by naive counting, and the closed-form
    conversion of a second count to a civil date and time. */
module Calendar {

  datatype Date = Date(year: int, month: int, day: int)

  datatype Civil = Civil(date: Date, hour: int, minute: int, second: int)

  // ----- Naive counting -----

  predicate IsLeap(y: int) {
    y % 4 == 0 && (y % 100 != 0 || y % 400 == 0)
  }

  function YearLength(y: int): nat {
    if IsLeap(y) then 366 else 365
  }

  function DaysInMonth(y: int, m: int): nat
    requires 1 <= m <= 12
  {
    if m == 2 then (if IsLeap(y) then 29 else 28)
    else if m in {4, 6, 9, 11} then 30
    else 31
  }

  predicate ValidDate(d: Date) {
    d.year >= 1 && 1 <= d.month <= 12 && 1 <= d.day <= DaysInMonth(d.year, d.month)
  }

  predicate ValidCivil(c: Civil) {
    ValidDate(c.date) && 0 <= c.hour < 24 && 0 <= c.minute < 60 && 0 <= c.second < 60
  }

  /** The lengths of the years `lo`, ..., `hi - 1`, added up. */
  function YearsLength(lo: int, hi: int): nat
    requires lo <= hi
    decreases hi - lo
  {
    if lo == hi then 0 else YearsLength(lo, hi - 1) + YearLength(hi - 1)
  }

  /** The lengths of the months before `m`, added up. */
  function MonthsLength(y: int, m: int): nat
    requires 1 <= m <= 12
  {
    if m == 1 then 0 else MonthsLength(y, m - 1) + DaysInMonth(y, m - 1)
  }

  /** Days since 0001-01-01, counted year by year and month by month. */
  function DayNumber(d: Date): nat
    requires ValidDate(d)
  {
    YearsLength(1, d.year) + MonthsLength(d.year, d.month) + d.day - 1
  }

  /** Days since 1970-01-01, counted the same way from there. */
  function DaysSince1970(d: Date): int
    requires ValidDate(d) && d.year >= 1970
  {
    YearsLength(1970, d.year) + MonthsLength(d.year, d.month) + d.day - 1
  }

  /** The day number of 1970-01-01. */
  const EPOCH_DAY := 719162

  // ----- The closed form -----

  /** The year of an era a day of it falls in, by corrected division. */
  function YearOfEra(doe: int): int {
    (doe - doe / 1460 + doe / 36524 - doe / 146096) / 365
  }

  /** Days of an era before its year `yoe`. */
  function EraDays(yoe: int): int {
    365 * yoe + yoe / 4 - yoe / 100
  }

  /** A year that starts on 1 March and a day of it, as a date. */
  function MarchDate(y: int, doy: int): Date {
    var mp := (5 * doy + 2) / 153;
    var d := doy - (153 * mp + 2) / 5 + 1;
    var m := if mp < 10 then mp + 3 else mp - 9;
    Date(if m <= 2 then y + 1 else y, m, d)
  }

  /** A day count relative to 1970-01-01 to its civil date; eras of 400 years
      that start on 1 March, with the 153-day trick for the months. */
  function CivilFromDays(days: int): Date {
    var z := days + 719468;
    var era := (if z >= 0 then z else z - 146096) / 146097;
    var doe := z - era * 146097;
    var yoe := YearOfEra(doe);
    MarchDate(yoe + era * 400, doe - EraDays(yoe))
  }

  /** A second count since 1970-01-01T00:00:00 to civil date and time. */
  function CivilFromEpoch(secs: nat): Civil {
    var days := secs / 86400;
    var rem := secs % 86400;
    Civil(CivilFromDays(days), rem / 3600, (rem % 3600) / 60, rem % 60)
  }

  // ----- The closed form of naive counting -----

  /** Leap days up to and including year `n`. */
  function Leaps(n: int): int {
    n / 4 - n / 100 + n / 400
  }

  lemma LeapsStep(n: nat)
    requires n >= 1
    ensures Leaps(n) == Leaps(n - 1) + if IsLeap(n) then 1 else 0
  {
    DivStep(n, 4);
    DivStep(n, 100);
    DivStep(n, 400);
    Multiples(n);
    LeapSum(n % 4 == 0, n % 100 == 0, n % 400 == 0, (n - 1) / 4, (n - 1) / 100, (n - 1) / 400);
    assert IsLeap(n) <==> n % 4 == 0 && (n % 100 != 0 || n % 400 == 0);
    hide IsLeap;
  }

  lemma Multiples(n: nat)
    ensures n % 400 == 0 ==> n % 100 == 0
    ensures n % 100 == 0 ==> n % 4 == 0
  {
    MultipleOf(4 * (n / 400));
    MultipleOf(25 * (n / 100));
  }

  lemma MultipleOf(k: nat)
    ensures (4 * k) % 4 == 0 && (100 * k) % 100 == 0
  {
  }

  lemma LeapSum(by4: bool, by100: bool, by400: bool, p4: int, p100: int, p400: int)
    requires (by100 ==> by4) && (by400 ==> by100)
    ensures (p4 + if by4 then 1 else 0) - (p100 + if by100 then 1 else 0) + (p400 + if by400 then 1 else 0)
            == p4 - p100 + p400 + if by4 && (!by100 || by400) then 1 else 0
  {
  }

  lemma DivStep(n: nat, k: nat)
    requires n >= 1 && k in {4, 100, 400}
    ensures n / k == (n - 1) / k + if n % k == 0 then 1 else 0
  {
  }

  lemma {:induction false} YearsClosed(y: int)
    requires y >= 1
    ensures YearsLength(1, y) == 365 * (y - 1) + Leaps(y - 1)
    decreases y
  {
    if y > 1 {
      YearsClosed(y - 1);
      LeapsStep(y - 1);
    }
  }

  lemma {:induction false} YearsSplit(a: int, b: int, c: int)
    requires a <= b <= c
    ensures YearsLength(a, c) == YearsLength(a, b) + YearsLength(b, c)
    decreases c - b
  {
    if b < c {
      YearsSplit(a, b, c - 1);
    }
  }

  lemma MonthsTable(y: int, m: int)
    requires 1 <= m <= 12
    ensures m <= 2 ==> MonthsLength(y, m) == if m == 1 then 0 else 31
    ensures m >= 3 ==> MonthsLength(y, m) == 59 + (if IsLeap(y) then 1 else 0) + (153 * (m - 3) + 2) / 5
  {
    assert MonthsLength(y, 1) == 0;
    assert MonthsLength(y, 2) == 31;
    assert MonthsLength(y, 3) == 31 + DaysInMonth(y, 2);
    assert MonthsLength(y, 4) == MonthsLength(y, 3) + 31;
    assert MonthsLength(y, 5) == MonthsLength(y, 4) + 30;
    assert MonthsLength(y, 6) == MonthsLength(y, 5) + 31;
    assert MonthsLength(y, 7) == MonthsLength(y, 6) + 30;
    assert MonthsLength(y, 8) == MonthsLength(y, 7) + 31;
    assert MonthsLength(y, 9) == MonthsLength(y, 8) + 31;
    assert MonthsLength(y, 10) == MonthsLength(y, 9) + 30;
    assert MonthsLength(y, 11) == MonthsLength(y, 10) + 31;
    assert MonthsLength(y, 12) == MonthsLength(y, 11) + 30;
  }

  // ----- The 400-year era: 146097 days as centuries, four-years and days -----

  lemma EraParts(doe: int) returns (c: int, q: int, t: int)
    requires 0 <= doe < 146097
    ensures 0 <= c <= 3 && 0 <= q <= 24 && 0 <= t <= 1460
    ensures c < 3 && q == 24 ==> t <= 1459
    ensures doe == 36524 * c + 1461 * q + t
  {
    c := if doe == 146096 then 3 else doe / 36524;
    var r := doe - 36524 * c;
    q := if r == 36524 then 24 else r / 1461;
    t := r - 1461 * q;
  }

  lemma FourYearCorrection(c: int, q: int, t: int)
    requires 0 <= c <= 3 && 0 <= q <= 24 && 0 <= t <= 1460
    ensures (36524 * c + 1461 * q + t) / 1460 == 25 * c + q + if 24 * c + q + t >= 1460 then 1 else 0
  {
  }

  lemma CenturyCorrection(c: int, q: int, t: int)
    requires 0 <= c <= 3 && 0 <= q <= 24 && 0 <= t <= 1460
    requires c < 3 && q == 24 ==> t <= 1459
    ensures var doe := 36524 * c + 1461 * q + t;
            doe / 36524 - doe / 146096 == c
  {
  }

  lemma YearOfParts(c: int, q: int, t: int)
    requires 0 <= c <= 3 && 0 <= q <= 24 && 0 <= t <= 1460
    requires c < 3 && q == 24 ==> t <= 1459
    ensures var j := if t == 1460 then 3 else t / 365;
            YearOfEra(36524 * c + 1461 * q + t) == 100 * c + 4 * q + j
  {
    FourYearCorrection(c, q, t);
    CenturyCorrection(c, q, t);
  }

  /** The corrected division finds the year of the era: what remains is a day of
      that year, and a 366th day only before a leap February. */
  lemma YearOfEraExact(doe: int)
    requires 0 <= doe < 146097
    ensures 0 <= YearOfEra(doe) <= 399
    ensures 0 <= doe - EraDays(YearOfEra(doe)) <= 365
    ensures doe - EraDays(YearOfEra(doe)) == 365 ==>
              (YearOfEra(doe) + 1) % 4 == 0 && ((YearOfEra(doe) + 1) % 100 != 0 || YearOfEra(doe) == 399)
  {
    var c, q, t := EraParts(doe);
    var j := if t == 1460 then 3 else t / 365;
    YearOfParts(c, q, t);
    EraDaysOf(c, q, j);
    hide YearOfEra, EraDays;
    assert 365 * j <= t <= 365 * j + 365 && (t - 365 * j == 365 ==> t == 1460);
  }

  lemma EraDaysOf(c: int, q: int, j: int)
    requires 0 <= c <= 3 && 0 <= q <= 24 && 0 <= j <= 3
    ensures var yoe := 100 * c + 4 * q + j;
            && 0 <= yoe <= 399 && EraDays(yoe) == 36524 * c + 1461 * q + 365 * j
            && (j == 3 && (q < 24 || c == 3) ==> (yoe + 1) % 4 == 0 && ((yoe + 1) % 100 != 0 || yoe == 399))
  {
    var yoe := 100 * c + 4 * q + j;
    assert yoe / 4 == 25 * c + q;
    assert yoe / 100 == c;
    if j == 3 && q < 24 {
      assert (yoe + 1) % 100 == 4 * q + 4;
    }
  }

  // ----- The year that starts on 1 March -----

  /** Month index 0 is March; 31, 30, 31, 30, 31 repeats. */
  lemma MarchMonths(doy: int)
    requires 0 <= doy <= 365
    ensures var mp := (5 * doy + 2) / 153;
            && 0 <= mp <= 11
            && 0 <= doy - (153 * mp + 2) / 5
            && doy - (153 * mp + 2) / 5 < (if mp in {1, 3, 6, 8} then 30 else if mp == 11 then 29 else 31)
  {
  }

  /** The day number of the date with March-based year, month index and offset. */
  lemma MarchDayNumber(y: int, mp: int, d: int)
    requires y >= 0 && 0 <= mp <= 11 && (mp < 10 ==> y >= 1)
    requires var m := if mp < 10 then mp + 3 else mp - 9;
             ValidDate(Date(if m <= 2 then y + 1 else y, m, d))
    ensures var m := if mp < 10 then mp + 3 else mp - 9;
            DayNumber(Date(if m <= 2 then y + 1 else y, m, d)) == 365 * y + Leaps(y) - 306 + (153 * mp + 2) / 5 + d - 1
  {
    var m := if mp < 10 then mp + 3 else mp - 9;
    if m <= 2 {
      YearsClosed(y + 1);
      MonthsTable(y + 1, m);
    } else {
      YearsClosed(y);
      MonthsTable(y, m);
      LeapsStep(y);
    }
    hide YearsLength, MonthsLength, IsLeap, Leaps;
  }

  lemma EraLeaps(era: int, yoe: int)
    requires 0 <= yoe <= 399
    ensures Leaps(yoe + era * 400) == 97 * era + yoe / 4 - yoe / 100
  {
    assert (yoe + era * 400) / 4 == yoe / 4 + era * 100;
    assert (yoe + era * 400) / 100 == yoe / 100 + era * 4;
    assert (yoe + era * 400) / 400 == era;
  }

  lemma EraLeapYear(era: int, yoe: int)
    requires 0 <= yoe <= 399
    ensures IsLeap(yoe + era * 400 + 1) <==> (yoe + 1) % 4 == 0 && ((yoe + 1) % 100 != 0 || yoe == 399)
  {
    Shift4(100 * era, yoe + 1);
    Shift100(4 * era, yoe + 1);
    Shift400(era, yoe + 1);
    var y := yoe + era * 400 + 1;
    assert y == 4 * (100 * era) + (yoe + 1);
    assert y == 100 * (4 * era) + (yoe + 1);
    assert y == 400 * era + (yoe + 1);
  }

  lemma Shift4(q: int, r: int)
    ensures (4 * q + r) % 4 == r % 4
  {
    assert (4 * q + r) / 4 == q + r / 4;
  }

  lemma Shift100(q: int, r: int)
    ensures (100 * q + r) % 100 == r % 100
  {
    assert (100 * q + r) / 100 == q + r / 100;
  }

  lemma Shift400(q: int, r: int)
    ensures (400 * q + r) % 400 == r % 400
  {
    assert (400 * q + r) / 400 == q + r / 400;
  }

  /** The parts the closed form computes on the way. */
  lemma CivilFromDaysParts(days: int) returns (era: int, yoe: int, doy: int)
    requires days >= -EPOCH_DAY
    ensures era >= 0 && 0 <= yoe <= 399 && 0 <= doy <= 365
    ensures days + 719468 == era * 146097 + EraDays(yoe) + doy
    ensures doy == 365 ==> IsLeap(yoe + era * 400 + 1)
    ensures CivilFromDays(days) == MarchDate(yoe + era * 400, doy)
  {
    hide YearOfEra, EraDays, IsLeap, MarchDate;
    var z := days + 719468;
    era := z / 146097;
    var doe := z - era * 146097;
    yoe := YearOfEra(doe);
    doy := doe - EraDays(yoe);
    YearOfEraExact(doe);
    EraLeapYear(era, yoe);
  }

  /** The conversion theorem: the closed form yields a valid date, and naive
      counting from 0001-01-01 gives the day count back. */
  lemma CivilFromDaysCounts(days: int)
    requires days >= -EPOCH_DAY
    ensures ValidDate(CivilFromDays(days))
    ensures DayNumber(CivilFromDays(days)) == days + EPOCH_DAY
  {
    hide CivilFromDays, DayNumber, IsLeap, Leaps, EraDays;
    var era, yoe, doy := CivilFromDaysParts(days);
    var y, mp := yoe + era * 400, (5 * doy + 2) / 153;
    var d := doy - (153 * mp + 2) / 5 + 1;
    MarchMonths(doy);
    FebruaryFits(y, mp, doy, d);
    MarchYearPositive(era, yoe, mp, doy);
    MarchDayNumber(y, mp, d);
    DaysOfEra(era, yoe);
  }

  lemma DaysOfEra(era: int, yoe: int)
    requires 0 <= yoe <= 399
    ensures era * 146097 + EraDays(yoe) == 365 * (yoe + era * 400) + Leaps(yoe + era * 400)
  {
    EraLeaps(era, yoe);
  }

  /** The last month index is February: 29 days only when the next year is leap. */
  lemma FebruaryFits(y: int, mp: int, doy: int, d: int)
    requires 0 <= doy <= 365 && mp == (5 * doy + 2) / 153 && d == doy - (153 * mp + 2) / 5 + 1
    requires doy == 365 ==> IsLeap(y + 1)
    ensures var m := if mp < 10 then mp + 3 else mp - 9;
            1 <= m <= 12 && 1 <= d <= DaysInMonth(if m <= 2 then y + 1 else y, m)
  {
    hide IsLeap;
    MarchMonths(doy);
  }

  lemma MarchYearPositive(era: int, yoe: int, mp: int, doy: int)
    requires era >= 0 && 0 <= yoe <= 399 && era * 146097 + EraDays(yoe) + doy >= 306
    requires 0 <= doy <= 365 && mp == (5 * doy + 2) / 153
    ensures var y := yoe + era * 400; y >= 0 && (mp < 10 ==> y >= 1)
  {
  }

  // ----- Day numbers order dates -----

  predicate Before(a: Date, b: Date) {
    a.year < b.year || (a.year == b.year && (a.month < b.month || (a.month == b.month && a.day < b.day)))
  }

  lemma {:induction false} MonthsGrow(y: int, m: int, n: int)
    requires 1 <= m <= n <= 12
    ensures MonthsLength(y, m) <= MonthsLength(y, n)
    ensures m < n ==> MonthsLength(y, m) + DaysInMonth(y, m) <= MonthsLength(y, n)
    decreases n
  {
    if m < n {
      MonthsGrow(y, m, n - 1);
    }
  }

  lemma DayWithinYear(d: Date)
    requires ValidDate(d)
    ensures YearsLength(1, d.year) <= DayNumber(d) < YearsLength(1, d.year + 1)
  {
    MonthsGrow(d.year, d.month, 12);
    MonthsTable(d.year, 12);
  }

  lemma BeforeIsSmaller(a: Date, b: Date)
    requires ValidDate(a) && ValidDate(b)
    ensures Before(a, b) <==> DayNumber(a) < DayNumber(b)
  {
    if Before(a, b) {
      EarlierIsSmaller(a, b);
    } else if Before(b, a) {
      EarlierIsSmaller(b, a);
    } else {
      assert a == b;
    }
  }

  lemma EarlierIsSmaller(a: Date, b: Date)
    requires ValidDate(a) && ValidDate(b) && Before(a, b)
    ensures DayNumber(a) < DayNumber(b)
  {
    hide YearsLength, MonthsLength, DaysInMonth;
    if a.year < b.year {
      DayWithinYear(a);
      DayWithinYear(b);
      YearsSplit(1, a.year + 1, b.year);
    } else if a.month < b.month {
      MonthsGrow(a.year, a.month, b.month);
    }
  }

  /** The conversion inverts naive counting: together with the theorem above,
      day counts and valid dates correspond one to one. */
  lemma CivilRoundTrip(d: Date)
    requires ValidDate(d)
    ensures CivilFromDays(DayNumber(d) - EPOCH_DAY) == d
  {
    hide CivilFromDays, DayNumber, ValidDate, DaysInMonth;
    var c := CivilFromDays(DayNumber(d) - EPOCH_DAY);
    CivilFromDaysCounts(DayNumber(d) - EPOCH_DAY);
    BeforeIsSmaller(c, d);
    BeforeIsSmaller(d, c);
  }

  lemma EpochDay(d: Date)
    requires ValidDate(d) && d.year >= 1970
    ensures DayNumber(d) == DaysSince1970(d) + EPOCH_DAY
  {
    YearsSplit(1, 1970, d.year);
    YearsClosed(1970);
  }

  lemma TimeFields(rem: int)
    requires 0 <= rem < 86400
    ensures 0 <= rem / 3600 < 24 && 0 <= (rem % 3600) / 60 < 60 && 0 <= rem % 60 < 60
    ensures 3600 * (rem / 3600) + 60 * ((rem % 3600) / 60) + rem % 60 == rem
  {
  }

  lemma EpochDate()
    ensures ValidDate(Date(1970, 1, 1)) && DayNumber(Date(1970, 1, 1)) == EPOCH_DAY
  {
    YearsClosed(1970);
    assert MonthsLength(1970, 1) == 0;
  }

  lemma DaysFromEpoch(days: nat)
    ensures var d := CivilFromDays(days);
            ValidDate(d) && d.year >= 1970 && DaysSince1970(d) == days
  {
    var d, epoch := CivilFromDays(days), Date(1970, 1, 1);
    CivilFromDaysCounts(days);
    EpochDate();
    hide CivilFromDays, DayNumber, DaysSince1970, DaysInMonth;
    BeforeIsSmaller(d, epoch);
    EpochDay(d);
  }

  /** For every second count: a valid date and time; counting years and months
      from 1970-01-01 gives the days back, and the time fields the rest. */
  lemma CivilFromEpochCounts(secs: nat)
    ensures var c := CivilFromEpoch(secs);
            && ValidCivil(c) && c.date.year >= 1970
            && DaysSince1970(c.date) == secs / 86400
            && 3600 * c.hour + 60 * c.minute + c.second == secs % 86400
  {
    hide CivilFromDays, DaysSince1970, ValidDate;
    DaysFromEpoch(secs / 86400);
    TimeFields(secs % 86400);
  }

  /** A civil moment back to its second count, by naive counting. */
  function EpochSeconds(c: Civil): int
    requires ValidCivil(c) && c.date.year >= 1970
  {
    86400 * DaysSince1970(c.date) + 3600 * c.hour + 60 * c.minute + c.second
  }

  /** Every civil moment from 1970 on is the image of exactly its second count. */
  lemma EpochRoundTrip(c: Civil, secs: nat)
    requires ValidCivil(c) && c.date.year >= 1970
    ensures CivilFromEpoch(secs) == c <==> secs == EpochSeconds(c)
  {
    hide CivilFromDays, DayNumber, DaysSince1970, ValidDate;
    CivilFromEpochCounts(secs);
    var days, rem := DaysSince1970(c.date), 3600 * c.hour + 60 * c.minute + c.second;
    if CivilFromEpoch(secs) == c {
      assert secs == 86400 * (secs / 86400) + secs % 86400;
    }
    if secs == EpochSeconds(c) {
      SplitDays(days, rem);
      SameTime(c.hour, c.minute, c.second);
      EpochDay(c.date);
      CivilRoundTrip(c.date);
    }
  }

  lemma SplitDays(days: int, rem: int)
    requires 0 <= rem < 86400
    ensures (86400 * days + rem) / 86400 == days && (86400 * days + rem) % 86400 == rem
  {
  }

  lemma SameTime(h: int, mi: int, s: int)
    requires 0 <= h < 24 && 0 <= mi < 60 && 0 <= s < 60
    ensures var rem := 3600 * h + 60 * mi + s;
            0 <= rem < 86400 && rem / 3600 == h && (rem % 3600) / 60 == mi && rem % 60 == s
  {
  }
}

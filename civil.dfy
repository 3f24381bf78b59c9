/**
 * Calendar arithmetic on day numbers (days since 1970-01-01, proleptic
 * Gregorian calendar) and the two date layouts the program writes and
 * reads: "2006-01-02" and "Monday, 02 January 2006".
 */
module Civil {

  datatype Option<+T> = None | Some(value: T)

  /** A calendar date: year, month 1..12, day of month. */
  datatype Ymd = Ymd(year: int, month: int, day: int)

  predicate IsLeap(y: int)
  {
    y % 4 == 0 && (y % 100 != 0 || y % 400 == 0)
  }

  function DaysInMonth(y: int, m: int): (n: int)
    ensures 1 <= m <= 12 ==> 28 <= n <= 31
  {
    if m == 2 then (if IsLeap(y) then 29 else 28)
    else if m == 4 || m == 6 || m == 9 || m == 11 then 30
    else 31
  }

  predicate ValidYmd(c: Ymd)
  {
    1 <= c.month <= 12 && 1 <= c.day <= DaysInMonth(c.year, c.month)
  }

  /** The day number of a date (Hinnant's days_from_civil; `/` floors for positive divisors). */
  function DaysFromCivil(c: Ymd): int
  {
    var mp := if c.month > 2 then c.month - 3 else c.month + 9;
    DaysFromMarch(if c.month <= 2 then c.year - 1 else c.year, (153 * mp + 2) / 5 + c.day - 1)
  }

  /** The day number of the `doy`-th day of the year that starts on March 1 of `y`. */
  function DaysFromMarch(y: int, doy: int): int
  {
    var era := y / 400;
    var yoe := y - era * 400;
    var doe := yoe * 365 + yoe / 4 - yoe / 100 + doy;
    era * 146097 + doe - 719468
  }

  /** The date of a day number (Hinnant's civil_from_days). */
  function CivilFromDays(n: int): Ymd
  {
    var z := n + 719468;
    var era := z / 146097;
    var doe := z - era * 146097;
    var yoe := YearOfEra(doe);
    DateInEra(era * 400 + yoe, doe - (365 * yoe + yoe / 4 - yoe / 100))
  }

  /** The year within a 400-year era of the `doe`-th day of that era (eras start on March 1). */
  function YearOfEra(doe: int): int
  {
    (doe - doe / 1460 + doe / 36524 - doe / 146096) / 365
  }

  /** The date of the `doy`-th day of the March-based year `y`. */
  function DateInEra(y: int, doy: int): Ymd
  {
    var mp := (5 * doy + 2) / 153;
    var m := if mp < 10 then mp + 3 else mp - 9;
    Ymd(y + (if m <= 2 then 1 else 0), m, doy - (153 * mp + 2) / 5 + 1)
  }

  /** Day of the week, 0 = Sunday … 6 = Saturday; 1970-01-01 was a Thursday. */
  function Weekday(n: int): (w: int)
    ensures 0 <= w < 7
  {
    (n + 4) % 7
  }

  /** Consecutive days of one month have consecutive day numbers. */
  lemma NextDayOfMonth(c: Ymd)
    ensures DaysFromCivil(c.(day := c.day + 1)) == DaysFromCivil(c) + 1
  {
  }

  /** Evaluates `CivilFromDays` one stage at a time. */
  lemma CivilFromDaysAt(n: int, era: int, doe: int, yoe: int, doy: int)
    requires (n + 719468) / 146097 == era && doe == n + 719468 - era * 146097
    requires YearOfEra(doe) == yoe && doy == doe - (365 * yoe + yoe / 4 - yoe / 100)
    ensures CivilFromDays(n) == DateInEra(era * 400 + yoe, doy)
  {
  }

  lemma EpochDays()
    ensures DaysFromCivil(Ymd(1970, 1, 1)) == 0 && Weekday(0) == 4
  {
  }

  lemma EpochDate()
    ensures CivilFromDays(0) == Ymd(1970, 1, 1)
  {
    assert YearOfEra(135080) == 369;
    CivilFromDaysAt(0, 4, 135080, 369, 306);
    assert DateInEra(1969, 306) == Ymd(1970, 1, 1);
  }

  /** 1970-01-01 is day 0, a Thursday. */
  lemma Epoch()
    ensures DaysFromCivil(Ymd(1970, 1, 1)) == 0 && Weekday(0) == 4
    ensures CivilFromDays(0) == Ymd(1970, 1, 1)
  {
    EpochDays();
    EpochDate();
  }

  lemma FridayExampleDays()
    ensures DaysFromCivil(Ymd(2023, 10, 27)) == 19657 && Weekday(19657) == 5
  {
  }

  lemma FridayExampleDate()
    ensures CivilFromDays(19657) == Ymd(2023, 10, 27)
  {
    assert YearOfEra(8640) == 23;
    CivilFromDaysAt(19657, 5, 8640, 23, 240);
    assert DateInEra(2023, 240) == Ymd(2023, 10, 27);
  }

  /** 2023-10-27 is day 19657, a Friday. */
  lemma FridayExample()
    ensures DaysFromCivil(Ymd(2023, 10, 27)) == 19657 && Weekday(19657) == 5
    ensures CivilFromDays(19657) == Ymd(2023, 10, 27)
  {
    FridayExampleDays();
    FridayExampleDate();
  }

  lemma SaturdayExampleDays()
    ensures DaysFromCivil(Ymd(2023, 10, 28)) == 19658 && Weekday(19658) == 6
  {
  }

  lemma SaturdayExampleDate()
    ensures CivilFromDays(19658) == Ymd(2023, 10, 28)
  {
    assert YearOfEra(8641) == 23;
    CivilFromDaysAt(19658, 5, 8641, 23, 241);
    assert DateInEra(2023, 241) == Ymd(2023, 10, 28);
  }

  /** 2023-10-28 is day 19658, a Saturday. */
  lemma SaturdayExample()
    ensures DaysFromCivil(Ymd(2023, 10, 28)) == 19658 && Weekday(19658) == 6
    ensures CivilFromDays(19658) == Ymd(2023, 10, 28)
  {
    SaturdayExampleDays();
    SaturdayExampleDate();
  }

  lemma LeapDayExampleDays()
    ensures DaysFromCivil(Ymd(2024, 2, 29)) == 19782
  {
  }

  lemma LeapDayExampleDate()
    ensures CivilFromDays(19782) == Ymd(2024, 2, 29)
  {
    assert YearOfEra(8765) == 23;
    CivilFromDaysAt(19782, 5, 8765, 23, 365);
    assert DateInEra(2023, 365) == Ymd(2024, 2, 29);
  }

  /** 2024-02-29 is day 19782. */
  lemma LeapDayExample()
    ensures DaysFromCivil(Ymd(2024, 2, 29)) == 19782
    ensures CivilFromDays(19782) == Ymd(2024, 2, 29)
  {
    LeapDayExampleDays();
    LeapDayExampleDate();
  }

  // ---------------------------------------------------------------------
  // The two conversions are inverse, and months end where the next begins
  // ---------------------------------------------------------------------

  /** The date of the first day of the month after `m` of year `y`. */
  function NextMonthFirst(y: int, m: int): Ymd
  {
    if m == 12 then Ymd(y + 1, 1, 1) else Ymd(y, m + 1, 1)
  }

  /**
   * A year of an era, 0..399, split as 100 * c + 4 * q + r; its first day
   * (a March 1) is day 36524 * c + 1461 * q + 365 * r of the era.
   */
  lemma SplitYearOfEra(yoe: int)
    requires 0 <= yoe < 400
    ensures 0 <= yoe / 100 <= 3 && 0 <= yoe % 100 / 4 <= 24 && 0 <= yoe % 4 <= 3
    ensures yoe == 100 * (yoe / 100) + 4 * (yoe % 100 / 4) + yoe % 4
    ensures 365 * yoe + yoe / 4 - yoe / 100 == 36524 * (yoe / 100) + 1461 * (yoe % 100 / 4) + 365 * (yoe % 4)
  {
    assert yoe / 4 == 25 * (yoe / 100) + yoe % 100 / 4;
  }

  lemma ShiftMod4(k: int, a: int)
    ensures (4 * k + a) % 4 == a % 4
  {
  }

  lemma ShiftMod100(k: int, a: int)
    ensures (100 * k + a) % 100 == a % 100
  {
  }

  lemma ShiftMod400(k: int, a: int)
    ensures (400 * k + a) % 400 == a % 400
  {
  }

  /** Leap years repeat every 400 years. */
  lemma LeapShift(era: int, k: int)
    ensures IsLeap(era * 400 + k) <==> IsLeap(k)
  {
    ShiftMod4(100 * era, k);
    ShiftMod100(4 * era, k);
    ShiftMod400(era, k);
  }

  /** Within an era, the year `yoe + 1` is leap exactly when the split of `yoe` ends in the last slot of a 4-year cycle that has a leap day. */
  lemma LeapInEra(yoe: int)
    requires 0 <= yoe < 400
    ensures IsLeap(yoe + 1) <==> yoe % 4 == 3 && (yoe % 100 / 4 < 24 || yoe / 100 == 3)
  {
    SplitYearOfEra(yoe);
    var c, q, r := yoe / 100, yoe % 100 / 4, yoe % 4;
    assert (yoe + 1) % 4 == 0 <==> r == 3;
    assert (yoe + 1) % 100 == 0 <==> r == 3 && q == 24;
    assert (yoe + 1) % 400 == 0 <==> yoe == 399;
  }

  /** The calendar year that ends the March-based year `yoe` of an era is a leap year exactly when its February is in the split's last slot. */
  lemma LeapOfEraYear(era: int, yoe: int)
    requires 0 <= yoe < 400
    ensures IsLeap(era * 400 + yoe + 1) <==> yoe % 4 == 3 && (yoe % 100 / 4 < 24 || yoe / 100 == 3)
  {
    LeapShift(era, yoe + 1);
    LeapInEra(yoe);
  }

  /** The day number of March 1 of year `yoe` of an era. */
  lemma MarchFirst(era: int, yoe: int)
    requires 0 <= yoe < 400
    ensures DaysFromMarch(era * 400 + yoe, 0) == era * 146097 + 365 * yoe + yoe / 4 - yoe / 100 - 719468
  {
    assert (era * 400 + yoe) / 400 == era;
  }

  /** `YearOfEra` recovers the year from a day of the era, given as split year plus day of year. */
  lemma YearOfEraInverse(c: int, q: int, r: int, doy: int)
    requires 0 <= c <= 3 && 0 <= q <= 24 && 0 <= r <= 3 && 0 <= doy <= 365
    requires doy == 365 ==> r == 3 && (q < 24 || c == 3)
    ensures YearOfEra(36524 * c + 1461 * q + 365 * r + doy) == 100 * c + 4 * q + r
  {
    var doe := 36524 * c + 1461 * q + 365 * r + doy;
    var rest := 24 * c + q + 365 * r + doy;
    assert doe == 1460 * (25 * c + q) + rest;
    assert doe / 1460 == 25 * c + q + (if rest >= 1460 then 1 else 0);
    var last := q == 24 && r == 3 && doy == 365;
    assert doe / 36524 == c + (if last then 1 else 0);
    assert doe / 146096 == (if last then 1 else 0);
    assert doe - doe / 1460 + doe / 36524 - doe / 146096
        == 365 * (100 * c + 4 * q + r) + doy - (if rest >= 1460 then 1 else 0);
  }

  /** The length of the `mp`-th month of a March-based year (the last one, February, at most 29). */
  function MarchMonthLength(mp: int): int
    requires 0 <= mp <= 11
  {
    [31, 30, 31, 30, 31, 31, 30, 31, 30, 31, 31, 29][mp]
  }

  /** The month and day are recovered from the day of a March-based year. */
  lemma MonthOfDoy(mp: int, d: int)
    requires 0 <= mp <= 11 && 1 <= d <= MarchMonthLength(mp)
    ensures var doy := (153 * mp + 2) / 5 + d - 1;
            (5 * doy + 2) / 153 == mp && doy - (153 * mp + 2) / 5 + 1 == d
  {
  }

  /** Every day of a March-based year lies in one of its months. */
  lemma DoyInMonth(doy: int)
    requires 0 <= doy <= 365
    ensures var mp := (5 * doy + 2) / 153;
            0 <= mp <= 11 && 1 <= doy - (153 * mp + 2) / 5 + 1 <= MarchMonthLength(mp)
            && (doy - (153 * mp + 2) / 5 + 1 == 29 && mp == 11 <==> doy == 365)
  {
  }

  /** A day of a March-based year is a real date; February 29 only when the year that ends it is leap. */
  lemma DateInEraValid(y: int, doy: int)
    requires 0 <= doy <= 365 && (doy == 365 ==> IsLeap(y + 1))
    ensures ValidYmd(DateInEra(y, doy))
  {
    DoyInMonth(doy);
  }

  /** `CivilFromDays` inverts `DaysFromMarch` on the days of a March-based year. */
  lemma CivilOfMarchDay(y: int, doy: int)
    requires 0 <= doy <= 365 && (doy == 365 ==> IsLeap(y + 1))
    ensures CivilFromDays(DaysFromMarch(y, doy)) == DateInEra(y, doy)
  {
    var era := y / 400;
    var yoe := y - era * 400;
    assert era * 400 + yoe == y;
    SplitYearOfEra(yoe);
    LeapOfEraYear(era, yoe);
    YearOfEraInverse(yoe / 100, yoe % 100 / 4, yoe % 4, doy);
    var doe := 365 * yoe + yoe / 4 - yoe / 100 + doy;
    assert YearOfEra(doe) == yoe;
    assert 0 <= doe < 146097;
    var n := DaysFromMarch(y, doy);
    assert n + 719468 == era * 146097 + doe;
    assert (n + 719468) / 146097 == era;
    CivilFromDaysAt(n, era, doe, yoe, doy);
  }

  /** The `d`-th day of the `mp`-th month of a March-based year. */
  lemma DateInEraOfMonthDay(y: int, mp: int, d: int)
    requires 0 <= mp <= 11 && 1 <= d <= MarchMonthLength(mp)
    ensures DateInEra(y, (153 * mp + 2) / 5 + d - 1) == Ymd(y + (if mp >= 10 then 1 else 0), if mp < 10 then mp + 3 else mp - 9, d)
  {
    MonthOfDoy(mp, d);
  }

  /** A real date is the `doy`-th day of its March-based year `y`, and only February 29 is day 365. */
  lemma MarchDate(c: Ymd, y: int, doy: int)
    requires ValidYmd(c)
    requires y == if c.month <= 2 then c.year - 1 else c.year
    requires doy == (153 * (if c.month > 2 then c.month - 3 else c.month + 9) + 2) / 5 + c.day - 1
    ensures 0 <= doy <= 365 && (doy == 365 ==> IsLeap(y + 1))
    ensures DateInEra(y, doy) == c
  {
    var mp := if c.month > 2 then c.month - 3 else c.month + 9;
    assert c.day <= MarchMonthLength(mp);
    MonthOfDoy(mp, c.day);
    DateInEraOfMonthDay(y, mp, c.day);
  }

  /** Converting a real date to its day number and back gives the date. */
  lemma CivilDaysRoundTrip(c: Ymd)
    requires ValidYmd(c)
    ensures CivilFromDays(DaysFromCivil(c)) == c
  {
    var y := if c.month <= 2 then c.year - 1 else c.year;
    var doy := (153 * (if c.month > 2 then c.month - 3 else c.month + 9) + 2) / 5 + c.day - 1;
    MarchDate(c, y, doy);
    CivilOfMarchDay(y, doy);
    assert DaysFromCivil(c) == DaysFromMarch(y, doy);
  }

  /** A day of an era, 0..146096, as a split year (see `SplitYearOfEra`) and a day of that year. */
  lemma SplitDayOfEra(doe: int) returns (c: int, q: int, r: int, doy: int)
    requires 0 <= doe < 146097
    ensures 0 <= c <= 3 && 0 <= q <= 24 && 0 <= r <= 3 && 0 <= doy <= 365
    ensures doy == 365 ==> r == 3 && (q < 24 || c == 3)
    ensures doe == 36524 * c + 1461 * q + 365 * r + doy
  {
    c := if doe / 36524 < 3 then doe / 36524 else 3;
    var rest := doe - 36524 * c;
    q := rest / 1461;
    var rest2 := rest - 1461 * q;
    r := if rest2 / 365 < 3 then rest2 / 365 else 3;
    doy := rest2 - 365 * r;
  }

  /** Every day number names a real date. */
  lemma CivilFromDaysValid(n: int)
    ensures ValidYmd(CivilFromDays(n))
  {
    var era := (n + 719468) / 146097;
    var doe := n + 719468 - era * 146097;
    var c, q, r, doy := SplitDayOfEra(doe);
    YearOfEraInverse(c, q, r, doy);
    var yoe := 100 * c + 4 * q + r;
    SplitYearOfEra(yoe);
    assert yoe / 100 == c && yoe % 100 / 4 == q && yoe % 4 == r;
    LeapOfEraYear(era, yoe);
    DateInEraValid(era * 400 + yoe, doy);
    CivilFromDaysAt(n, era, doe, yoe, doy);
  }

  /** Within an era, a March-based year has 366 days exactly when the year that ends it is leap. */
  lemma NextYearOfEra(yoe: int)
    requires 0 <= yoe < 399
    ensures (365 * (yoe + 1) + (yoe + 1) / 4 - (yoe + 1) / 100) - (365 * yoe + yoe / 4 - yoe / 100)
            == if yoe % 4 == 3 && (yoe % 100 / 4 < 24 || yoe / 100 == 3) then 366 else 365
  {
    SplitYearOfEra(yoe);
    SplitYearOfEra(yoe + 1);
    var c, q, r := yoe / 100, yoe % 100 / 4, yoe % 4;
    if r < 3 {
      assert (yoe + 1) / 100 == c && (yoe + 1) % 100 / 4 == q && (yoe + 1) % 4 == r + 1;
    } else if q < 24 {
      assert (yoe + 1) / 100 == c && (yoe + 1) % 100 / 4 == q + 1 && (yoe + 1) % 4 == 0;
    } else {
      assert (yoe + 1) / 100 == c + 1 && (yoe + 1) % 100 / 4 == 0 && (yoe + 1) % 4 == 0;
    }
  }

  /** The day number of the `doy`-th day of a March-based year counts on from its March 1. */
  lemma MarchDayOffset(y: int, doy: int)
    ensures DaysFromMarch(y, doy) == DaysFromMarch(y, 0) + doy
  {
  }

  /** The March 1 day numbers of two consecutive years differ by the length of the March-based year between them. */
  lemma MarchFirstsApart(y: int)
    ensures DaysFromMarch(y, 0) - DaysFromMarch(y - 1, 0) == if IsLeap(y) then 366 else 365
  {
    var era := (y - 1) / 400;
    var yoe := y - 1 - era * 400;
    LeapOfEraYear(era, yoe);
    assert era * 400 + yoe + 1 == y;
    MarchFirst(era, yoe);
    assert era * 400 + yoe == y - 1;
    if yoe < 399 {
      MarchFirst(era, yoe + 1);
      assert era * 400 + (yoe + 1) == y;
      NextYearOfEra(yoe);
    } else {
      MarchFirst(era + 1, 0);
      assert (era + 1) * 400 + 0 == y;
    }
  }

  /** Month `mp` of a March-based year other than February starts `MarchMonthLength(mp)` days before month `mp + 1`. */
  lemma MarchMonthStarts(mp: int)
    requires 0 <= mp <= 10
    ensures (153 * (mp + 1) + 2) / 5 - (153 * mp + 2) / 5 == MarchMonthLength(mp)
  {
  }

  /** The last day of February is the day before March 1. */
  lemma FebruaryEnd(y: int)
    ensures DaysFromCivil(Ymd(y, 2, DaysInMonth(y, 2))) + 1 == DaysFromCivil(Ymd(y, 3, 1))
  {
    var last := DaysInMonth(y, 2);
    assert DaysFromCivil(Ymd(y, 2, last)) == DaysFromMarch(y - 1, 336 + last);
    MarchDayOffset(y - 1, 336 + last);
    assert DaysFromCivil(Ymd(y, 3, 1)) == DaysFromMarch(y, 0);
    MarchFirstsApart(y);
  }

  /** The last day of a month other than February is the day before the first of the next month. */
  lemma OtherMonthEnd(y: int, m: int)
    requires 1 <= m <= 12 && m != 2
    ensures DaysFromCivil(Ymd(y, m, DaysInMonth(y, m))) + 1 == DaysFromCivil(NextMonthFirst(y, m))
  {
    var my := if m <= 2 then y - 1 else y;
    var mp := if m > 2 then m - 3 else m + 9;
    assert DaysInMonth(y, m) == MarchMonthLength(mp);
    MarchMonthStarts(mp);
    var start := (153 * mp + 2) / 5;
    assert DaysFromCivil(Ymd(y, m, DaysInMonth(y, m))) == DaysFromMarch(my, start + MarchMonthLength(mp) - 1);
    assert DaysFromCivil(NextMonthFirst(y, m)) == DaysFromMarch(my, start + MarchMonthLength(mp));
    MarchDayOffset(my, start + MarchMonthLength(mp) - 1);
    MarchDayOffset(my, start + MarchMonthLength(mp));
  }

  /**
   * The last day of a month, `DaysInMonth`, is the day before the first of
   * the next month, and every day up to it is a real date.
   */
  lemma MonthEnd(y: int, m: int)
    requires 1 <= m <= 12
    ensures DaysFromCivil(Ymd(y, m, DaysInMonth(y, m))) + 1 == DaysFromCivil(NextMonthFirst(y, m))
    ensures ValidYmd(Ymd(y, m, DaysInMonth(y, m))) && !ValidYmd(Ymd(y, m, DaysInMonth(y, m) + 1))
  {
    if m == 2 {
      FebruaryEnd(y);
    } else {
      OtherMonthEnd(y, m);
    }
  }

  // ---------------------------------------------------------------------
  // Decimal digits
  // ---------------------------------------------------------------------

  predicate IsDigit(c: char)
  {
    '0' <= c <= '9'
  }

  function DigitChar(d: int): (c: char)
    requires 0 <= d < 10
    ensures IsDigit(c) && DigitValue(c) == d
  {
    ('0' as int + d) as char
  }

  function DigitValue(c: char): int
    requires IsDigit(c)
  {
    c as int - '0' as int
  }

  /** The decimal digits of `n`, without leading zeros. */
  function Digits(n: nat): (s: string)
    ensures |s| > 0 && forall i :: 0 <= i < |s| ==> IsDigit(s[i])
  {
    if n < 10 then [DigitChar(n)] else Digits(n / 10) + [DigitChar(n % 10)]
  }

  /** The value of a string of decimal digits. */
  function ValueOf(s: string): int
    requires forall i :: 0 <= i < |s| ==> IsDigit(s[i])
  {
    if |s| == 0 then 0 else ValueOf(s[..|s| - 1]) * 10 + DigitValue(s[|s| - 1])
  }

  function Zeros(k: nat): (s: string)
    ensures |s| == k && forall i :: 0 <= i < k ==> s[i] == '0'
  {
    if k == 0 then "" else "0" + Zeros(k - 1)
  }

  /** `n` in decimal, zero-padded to at least `width` digits, with a leading '-' when negative. */
  function PadInt(n: int, width: nat): string
  {
    var digits := if n < 0 then Digits(-n) else Digits(n);
    (if n < 0 then "-" else "") + (if |digits| < width then Zeros(width - |digits|) else "") + digits
  }

  /** `n` in decimal, without padding. */
  function IntToString(n: int): string
  {
    PadInt(n, 0)
  }

  /** Reading back the digits of a number gives the number. */
  lemma {:induction false} ValueOfDigits(n: nat)
    ensures ValueOf(Digits(n)) == n
  {
    if n >= 10 {
      ValueOfDigits(n / 10);
      var s := Digits(n);
      assert s[..|s| - 1] == Digits(n / 10);
    }
  }

  lemma DivTens(n: int)
    requires 0 <= n
    ensures n / 10 / 10 == n / 100 && n / 100 / 10 == n / 1000
    ensures n / 10 % 10 == n / 10 - n / 100 * 10 && n / 100 % 10 == n / 100 - n / 1000 * 10
  {
  }

  /** The digits of a number of one to four digits. */
  lemma DigitsUpTo(n: int)
    requires 0 <= n < 10000
    ensures n < 10 ==> Digits(n) == [DigitChar(n)]
    ensures 10 <= n < 100 ==> Digits(n) == [DigitChar(n / 10), DigitChar(n % 10)]
    ensures 100 <= n < 1000 ==> Digits(n) == [DigitChar(n / 100), DigitChar(n / 10 % 10), DigitChar(n % 10)]
    ensures 1000 <= n ==> Digits(n) == [DigitChar(n / 1000), DigitChar(n / 100 % 10), DigitChar(n / 10 % 10), DigitChar(n % 10)]
  {
    DivTens(n);
    if n >= 10 {
      DigitsUpTo(n / 10);
    }
  }

  /** Below 10000 a zero-padded number is its four digits. */
  lemma PadFour(n: int)
    requires 0 <= n < 10000
    ensures PadInt(n, 4) == [DigitChar(n / 1000), DigitChar(n / 100 % 10), DigitChar(n / 10 % 10), DigitChar(n % 10)]
  {
    DigitsUpTo(n);
    assert DigitChar(0) == '0';
    if n < 10 {
      assert Zeros(3) == "000";
    } else if n < 100 {
      assert Zeros(2) == "00";
    } else if n < 1000 {
      assert Zeros(1) == "0";
    }
  }

  /** Below 100 a zero-padded number is its two digits. */
  lemma PadTwo(n: int)
    requires 0 <= n < 100
    ensures PadInt(n, 2) == [DigitChar(n / 10), DigitChar(n % 10)]
  {
    if n < 10 {
      assert Digits(n) == [DigitChar(n)];
      assert Zeros(1) == "0";
    } else {
      assert Digits(n) == Digits(n / 10) + [DigitChar(n % 10)];
      assert Digits(n / 10) == [DigitChar(n / 10)];
    }
  }

  // ---------------------------------------------------------------------
  // The "2006-01-02" layout
  // ---------------------------------------------------------------------

  /** A date in the "2006-01-02" layout. */
  function FormatIso(c: Ymd): string
  {
    PadInt(c.year, 4) + "-" + PadInt(c.month, 2) + "-" + PadInt(c.day, 2)
  }

  predicate AllDigits(s: string)
  {
    forall i :: 0 <= i < |s| ==> IsDigit(s[i])
  }

  /** Four digits, '-', two digits, '-', two digits, and nothing else. */
  predicate IsoShaped(s: string)
  {
    |s| == 10 && s[4] == '-' && s[7] == '-' && forall i :: 0 <= i < 10 && i != 4 && i != 7 ==> IsDigit(s[i])
  }

  function IsoFields(s: string): (c: Ymd)
    requires IsoShaped(s)
    ensures 0 <= c.year <= 9999
  {
    FourDigitsBound([s[0], s[1], s[2], s[3]]);
    Ymd(ValueOf([s[0], s[1], s[2], s[3]]), ValueOf([s[5], s[6]]), ValueOf([s[8], s[9]]))
  }

  /**
   * Parsing in the "2006-01-02" layout: four digits of year, two of month,
   * two of day, separated by '-', nothing else; the month must lie in 1..12
   * and the day in the month.
   */
  function ParseIso(s: string): (r: Option<Ymd>)
    ensures r.Some? ==> ValidYmd(r.value) && 0 <= r.value.year <= 9999
  {
    if IsoShaped(s) && ValidYmd(IsoFields(s)) then Some(IsoFields(s)) else None
  }

  function Pow10(k: nat): (p: nat)
    ensures p > 0
  {
    if k == 0 then 1 else 10 * Pow10(k - 1)
  }

  /** A string of k digits has a value below 10^k. */
  lemma {:induction false} ValueOfBound(s: string)
    requires AllDigits(s)
    ensures 0 <= ValueOf(s) < Pow10(|s|)
  {
    if |s| > 0 {
      ValueOfBound(s[..|s| - 1]);
    }
  }

  lemma FourDigitsBound(s: string)
    requires |s| == 4 && AllDigits(s)
    ensures 0 <= ValueOf(s) <= 9999
  {
    ValueOfBound(s);
    assert Pow10(4) == 10000;
  }

  lemma ValueOfFour(a: int, b: int, c: int, d: int)
    requires 0 <= a < 10 && 0 <= b < 10 && 0 <= c < 10 && 0 <= d < 10
    ensures ValueOf([DigitChar(a), DigitChar(b), DigitChar(c), DigitChar(d)]) == 1000 * a + 100 * b + 10 * c + d
  {
    var s := [DigitChar(a), DigitChar(b), DigitChar(c), DigitChar(d)];
    assert s[..3] == [DigitChar(a), DigitChar(b), DigitChar(c)];
    assert s[..3][..2] == [DigitChar(a), DigitChar(b)];
    ValueOfTwo(a, b);
    assert ValueOf(s[..3]) == 100 * a + 10 * b + c;
  }

  lemma ValueOfTwo(a: int, b: int)
    requires 0 <= a < 10 && 0 <= b < 10
    ensures ValueOf([DigitChar(a), DigitChar(b)]) == 10 * a + b
  {
    var s := [DigitChar(a), DigitChar(b)];
    assert s[..1] == [DigitChar(a)];
    assert s[..1][..0] == [];
    assert ValueOf(s[..1]) == a;
  }

  /** The ten characters of a date whose eight digits are given. */
  function IsoChars(v: seq<int>): (s: string)
    requires |v| == 8 && forall i :: 0 <= i < 8 ==> 0 <= v[i] < 10
    ensures |s| == 10
  {
    [DigitChar(v[0]), DigitChar(v[1]), DigitChar(v[2]), DigitChar(v[3]), '-',
     DigitChar(v[4]), DigitChar(v[5]), '-', DigitChar(v[6]), DigitChar(v[7])]
  }

  lemma IsoCharsFields(v: seq<int>)
    requires |v| == 8 && forall i :: 0 <= i < 8 ==> 0 <= v[i] < 10
    ensures IsoShaped(IsoChars(v))
    ensures IsoFields(IsoChars(v)) == Ymd(1000 * v[0] + 100 * v[1] + 10 * v[2] + v[3], 10 * v[4] + v[5], 10 * v[6] + v[7])
  {
    var s := IsoChars(v);
    assert [s[0], s[1], s[2], s[3]] == [DigitChar(v[0]), DigitChar(v[1]), DigitChar(v[2]), DigitChar(v[3])];
    assert [s[5], s[6]] == [DigitChar(v[4]), DigitChar(v[5])];
    assert [s[8], s[9]] == [DigitChar(v[6]), DigitChar(v[7])];
    ValueOfFour(v[0], v[1], v[2], v[3]);
    ValueOfTwo(v[4], v[5]);
    ValueOfTwo(v[6], v[7]);
  }

  /** The eight digits of a date with a year in 0..9999. */
  function DigitsOf(c: Ymd): (v: seq<int>)
    requires ValidYmd(c) && 0 <= c.year <= 9999
    ensures |v| == 8 && forall i :: 0 <= i < 8 ==> 0 <= v[i] < 10
  {
    [c.year / 1000, c.year / 100 % 10, c.year / 10 % 10, c.year % 10,
     c.month / 10, c.month % 10, c.day / 10, c.day % 10]
  }

  lemma FormatIsoChars(c: Ymd)
    requires ValidYmd(c) && 0 <= c.year <= 9999
    ensures FormatIso(c) == IsoChars(DigitsOf(c))
  {
    PadFour(c.year);
    PadTwo(c.month);
    PadTwo(c.day);
  }

  lemma JoinDigits(n: int)
    requires 0 <= n < 10000
    ensures 1000 * (n / 1000) + 100 * (n / 100 % 10) + 10 * (n / 10 % 10) + n % 10 == n
    ensures n < 100 ==> 10 * (n / 10) + n % 10 == n
  {
    assert n == 10 * (n / 10) + n % 10;
    assert n / 10 == 10 * (n / 100) + n / 10 % 10;
    assert n / 100 == 10 * (n / 1000) + n / 100 % 10;
  }

  /** Formatting then parsing gives the date back (years 0..9999). */
  lemma ParseFormatIso(c: Ymd)
    requires ValidYmd(c) && 0 <= c.year <= 9999
    ensures ParseIso(FormatIso(c)) == Some(c)
  {
    FormatIsoChars(c);
    IsoCharsFields(DigitsOf(c));
    JoinDigits(c.year);
    JoinDigits(c.month);
    JoinDigits(c.day);
    assert IsoFields(FormatIso(c)) == c;
  }

  lemma DigitCharOfValue(ch: char)
    requires IsDigit(ch)
    ensures DigitChar(DigitValue(ch)) == ch
  {
  }

  lemma SplitFour(a: int, b: int, c: int, d: int)
    requires 0 <= a < 10 && 0 <= b < 10 && 0 <= c < 10 && 0 <= d < 10
    ensures var n := 1000 * a + 100 * b + 10 * c + d;
            n / 1000 == a && n / 100 % 10 == b && n / 10 % 10 == c && n % 10 == d
  {
    var n := 1000 * a + 100 * b + 10 * c + d;
    assert n / 10 == 100 * a + 10 * b + c;
    assert n / 100 == 10 * a + b;
  }

  /** The eight digit values of a string of the shape "dddd-dd-dd". */
  function DigitValues(s: string): (v: seq<int>)
    requires IsoShaped(s)
    ensures |v| == 8 && forall i :: 0 <= i < 8 ==> 0 <= v[i] < 10
  {
    [DigitValue(s[0]), DigitValue(s[1]), DigitValue(s[2]), DigitValue(s[3]),
     DigitValue(s[5]), DigitValue(s[6]), DigitValue(s[8]), DigitValue(s[9])]
  }

  lemma IsoCharsOfValues(s: string)
    requires IsoShaped(s)
    ensures IsoChars(DigitValues(s)) == s
  {
    forall i | 0 <= i < 10 && i != 4 && i != 7
      ensures DigitChar(DigitValue(s[i])) == s[i]
    {
      DigitCharOfValue(s[i]);
    }
  }

  lemma SplitTwo(a: int, b: int)
    requires 0 <= a < 10 && 0 <= b < 10
    ensures (10 * a + b) / 10 == a && (10 * a + b) % 10 == b
  {
  }

  /** A string that parses is exactly the formatting of what it parses to. */
  lemma FormatParseIso(s: string)
    requires ParseIso(s).Some?
    ensures FormatIso(ParseIso(s).value) == s
  {
    var c := ParseIso(s).value;
    var v := DigitValues(s);
    IsoCharsOfValues(s);
    IsoCharsFields(v);
    SplitFour(v[0], v[1], v[2], v[3]);
    SplitTwo(v[4], v[5]);
    SplitTwo(v[6], v[7]);
    assert DigitsOf(c) == v;
    FormatIsoChars(c);
  }

  // ---------------------------------------------------------------------
  // Names
  // ---------------------------------------------------------------------

  function WeekdayName(w: int): string
    requires 0 <= w < 7
  {
    ["Sunday", "Monday", "Tuesday", "Wednesday", "Thursday", "Friday", "Saturday"][w]
  }

  function MonthName(m: int): string
    requires 1 <= m <= 12
  {
    ["January", "February", "March", "April", "May", "June", "July",
     "August", "September", "October", "November", "December"][m - 1]
  }

  /** The date of day `n` in the "Monday, 02 January 2006" layout. */
  function FormatLong(n: int): string
  {
    CivilFromDaysValid(n);
    var c := CivilFromDays(n);
    WeekdayName(Weekday(n)) + ", " + PadInt(c.day, 2) + " " + MonthName(c.month) + " " + PadInt(c.year, 4)
  }

  /** `FormatLong` of a day whose civil date is known. */
  lemma FormatLongOf(n: int, c: Ymd)
    requires CivilFromDays(n) == c && 1 <= c.month <= 12
    ensures FormatLong(n) == WeekdayName(Weekday(n)) + ", " + PadInt(c.day, 2) + " "
                             + MonthName(c.month) + " " + PadInt(c.year, 4)
  {
  }

  /** The month of a date in the "Jan 2006" layout. */
  function FormatMonthYear(year: int, month: int): string
    requires 1 <= month <= 12
  {
    MonthName(month)[..3] + " " + PadInt(year, 4)
  }
}

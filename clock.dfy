/** `toKST` of both source files: `new Date(t + 9h).toISOString()`, with the
    `T` replaced by a space and cut to 19 characters. Instants are ECMAScript
    time values: integer milliseconds since 1970-01-01T00:00:00Z. The
    calendar is the proleptic Gregorian one that ECMAScript uses. */
module Clock {
  import opened Common
  import opened Text

  const MsPerSecond := 1000
  const MsPerMinute := 60_000
  const MsPerHour := 3_600_000
  const MsPerDay := 86_400_000
  /** `9*60*60*1000`: Korea Standard Time is UTC+9. */
  const KstOffset := 32_400_000
  /** A `Date` holds a time value of magnitude at most 8.64e15 ms; any other
      value makes it an Invalid Date. */
  const MaxTimeValue := 8_640_000_000_000_000

  datatype Date = Date(year: int, month: int, day: int)
  datatype DateTime = DateTime(date: Date, hour: int, minute: int, second: int, millisecond: int)

  predicate IsLeapYear(y: int)
  {
    y % 4 == 0 && (y % 100 != 0 || y % 400 == 0)
  }

  function DaysInMonth(y: int, m: int): int
    requires 1 <= m <= 12
  {
    if m == 2 then (if IsLeapYear(y) then 29 else 28)
    else if m == 4 || m == 6 || m == 9 || m == 11 then 30
    else 31
  }

  predicate ValidDate(d: Date)
  {
    1 <= d.month <= 12 && 1 <= d.day <= DaysInMonth(d.year, d.month)
  }

  predicate ValidDateTime(dt: DateTime)
  {
    && ValidDate(dt.date)
    && 0 <= dt.hour < 24 && 0 <= dt.minute < 60 && 0 <= dt.second < 60
    && 0 <= dt.millisecond < 1000
  }

  /** The calendar date after `d`. */
  function NextDay(d: Date): Date
    requires ValidDate(d)
  {
    if d.day < DaysInMonth(d.year, d.month) then Date(d.year, d.month, d.day + 1)
    else if d.month < 12 then Date(d.year, d.month + 1, 1)
    else Date(d.year + 1, 1, 1)
  }

  // The day-number arithmetic counts years from March, so that a leap day
  // ends its year; 400 Gregorian years are exactly 146097 days.

  /** Euclidean division by a positive divisor, pinned down by its bounds. */
  lemma DivIs(n: int, d: int, q: int)
    requires 0 < d && d * q <= n < d * q + d
    ensures n / d == q && n % d == n - d * q
  {
    var q' := n / d;
    if q' > q {
      MulStep(d, q, q');
    } else if q' < q {
      MulStep(d, q', q);
    }
  }

  /** Multiples of a positive number grow by at least that number. */
  lemma {:induction false} MulStep(d: int, a: int, b: int)
    requires 0 < d && a < b
    ensures d * a + d <= d * b
    decreases b - a
  {
    if a + 1 < b {
      MulStep(d, a, b - 1);
      assert d * b == d * (b - 1) + d;
    } else {
      assert d * b == d * a + d;
    }
  }

  /** Days from the start of a 400-year era to the start of its year `yoe`. */
  function EraDays(yoe: int): int
  {
    365 * yoe + yoe / 4 - yoe / 100
  }

  /** Days from March 1 to the first day of month `mp` (0 is March). */
  function MonthStart(mp: int): int
  {
    (153 * mp + 2) / 5
  }

  /** The day number of March 1 of the March-based year `y`, the year whose
      February belongs to calendar year `y + 1`. */
  function YearStart(y: int): int
  {
    var era := y / 400;
    era * 146097 + EraDays(y - era * 400) - 719468
  }

  /** The day number of a date, day 0 being 1970-01-01. */
  function DaysFromCivil(d: Date): int
  {
    var y := d.year - (if d.month <= 2 then 1 else 0);
    var mp := if d.month > 2 then d.month - 3 else d.month + 9;
    YearStart(y) + MonthStart(mp) + d.day - 1
  }

  /** The whole centuries before day `doe` of an era: 36524 days each, the
      fourth one 36525. */
  function Century(doe: int): int
  {
    if doe < 3 * 36524 then doe / 36524 else 3
  }

  /** The whole four-year blocks of 1461 days before day `doe` within its
      century. */
  function Block(doe: int): int
  {
    (doe - 36524 * Century(doe)) / 1461
  }

  /** The day of its four-year block that day `doe` of an era is. */
  function DayOfBlock(doe: int): int
  {
    doe - 36524 * Century(doe) - 1461 * Block(doe)
  }

  /** The whole years of 365 days before day `doe` within its block; the
      fourth year may have 366. */
  function YearOfBlock(doe: int): int
  {
    if DayOfBlock(doe) < 3 * 365 then DayOfBlock(doe) / 365 else 3
  }

  /** The year of an era that day `doe` of the era falls in. */
  function YearOfEra(doe: int): int
  {
    100 * Century(doe) + 4 * Block(doe) + YearOfBlock(doe)
  }

  /** The month (0 is March) that day `doy` of a March-based year falls in. */
  function MonthOfYear(doy: int): int
  {
    (5 * doy + 2) / 153
  }

  /** The date of day `doy` of the March-based year `yoe` of era `era`. */
  function DateInEra(era: int, yoe: int, doy: int): Date
  {
    var mp := MonthOfYear(doy);
    var month := if mp < 10 then mp + 3 else mp - 9;
    Date(yoe + era * 400 + (if month <= 2 then 1 else 0), month, doy - MonthStart(mp) + 1)
  }

  /** The 400-year era that day number `z` falls in. */
  function EraOfDay(z: int): int
  {
    (z + 719468) / 146097
  }

  /** The day of its era that day number `z` is. */
  function DayOfEraOf(z: int): int
  {
    z + 719468 - EraOfDay(z) * 146097
  }

  /** The date of day number `z`: YearFromTime, MonthFromTime and
      DateFromTime of ECMAScript, applied to day `z`. */
  function CivilFromDays(z: int): Date
  {
    DateInEra(EraOfDay(z), YearOfEra(DayOfEraOf(z)), DayOfEraOf(z) - EraDays(YearOfEra(DayOfEraOf(z))))
  }

  /** The days before year `100 * cent + 4 * block + year` of an era. */
  lemma EraDaysAt(cent: int, block: int, year: int)
    requires 0 <= cent < 4 && 0 <= block < 25 && 0 <= year < 4
    ensures EraDays(100 * cent + 4 * block + year) == 36524 * cent + 1461 * block + 365 * year
  {
    var yoe := 100 * cent + 4 * block + year;
    DivIs(yoe, 4, 25 * cent + block);
    DivIs(yoe, 100, cent);
  }

  /** A March-based year of an era has 366 days when the calendar year its
      February belongs to is a leap year; the era's last year always does. */
  lemma EraYearLength(yoe: int)
    requires 0 <= yoe < 399
    ensures EraDays(yoe + 1) - EraDays(yoe) == (if IsLeapYear(yoe + 1) then 366 else 365)
  {
    var q, c := yoe / 4, yoe / 100;
    if yoe - 4 * q < 3 {
      CommonYear(yoe, q, c);
    } else if yoe + 1 == 100 * (c + 1) {
      CenturyYear(yoe, q, c);
    } else {
      FourthYear(yoe, q, c);
    }
  }

  /** A year whose February is not in a multiple of 4 has 365 days. */
  lemma CommonYear(yoe: int, q: int, c: int)
    requires 0 <= yoe < 399 && 4 * q <= yoe < 4 * q + 3 && 100 * c <= yoe < 100 * c + 100
    ensures !IsLeapYear(yoe + 1)
    ensures EraDays(yoe + 1) - EraDays(yoe) == 365
  {
    DivIs(yoe, 4, q);
    DivIs(yoe, 100, c);
    DivIs(yoe + 1, 4, q);
    DivIs(yoe + 1, 100, c);
  }

  /** A year whose February is in a century year other than the era's last
      has 365 days. */
  lemma CenturyYear(yoe: int, q: int, c: int)
    requires 0 <= yoe < 399 && yoe == 4 * q + 3 && yoe + 1 == 100 * (c + 1)
    ensures !IsLeapYear(yoe + 1)
    ensures EraDays(yoe + 1) - EraDays(yoe) == 365
  {
    DivIs(yoe, 4, q);
    DivIs(yoe, 100, c);
    DivIs(yoe + 1, 4, q + 1);
    DivIs(yoe + 1, 100, c + 1);
    DivIs(yoe + 1, 400, 0);
  }

  /** A year whose February is in another multiple of 4 has 366 days. */
  lemma FourthYear(yoe: int, q: int, c: int)
    requires 0 <= yoe < 399 && yoe == 4 * q + 3 && 100 * c <= yoe && yoe + 1 < 100 * (c + 1)
    ensures IsLeapYear(yoe + 1)
    ensures EraDays(yoe + 1) - EraDays(yoe) == 366
  {
    DivIs(yoe, 4, q);
    DivIs(yoe, 100, c);
    DivIs(yoe + 1, 4, q + 1);
    DivIs(yoe + 1, 100, c);
  }

  lemma ShiftMod(d: int, j: int, y: int)
    requires 0 < d
    ensures (y + d * j) % d == y % d
  {
    DivIs(y + d * j, d, y / d + j);
  }

  /** The leap-year rule repeats every 400 years. */
  lemma LeapYearPeriod(era: int, y: int)
    ensures IsLeapYear(y) <==> IsLeapYear(y + era * 400)
  {
    ShiftMod(4, era * 100, y);
    ShiftMod(100, era * 4, y);
    ShiftMod(400, era, y);
  }

  lemma CenturyFacts(doe: int)
    requires 0 <= doe < 146097
    ensures 0 <= Century(doe) < 4
    ensures 0 <= doe - 36524 * Century(doe) < 36525
    ensures doe - 36524 * Century(doe) == 36524 ==> Century(doe) == 3
  {
    if doe < 3 * 36524 {
      DivIs(doe, 36524, doe / 36524);
    }
  }

  lemma BlockFacts(doe: int)
    requires 0 <= doe < 146097
    ensures 0 <= Block(doe) < 25 && 0 <= DayOfBlock(doe) < 1461
    ensures DayOfBlock(doe) == 1460 ==> Block(doe) < 24 || Century(doe) == 3
  {
    CenturyFacts(doe);
    DivIs(doe - 36524 * Century(doe), 1461, Block(doe));
  }

  lemma YearOfBlockFacts(doe: int)
    requires 0 <= doe < 146097
    ensures 0 <= YearOfBlock(doe) < 4
    ensures 0 <= DayOfBlock(doe) - 365 * YearOfBlock(doe) < 366
    ensures DayOfBlock(doe) - 365 * YearOfBlock(doe) == 365 ==> YearOfBlock(doe) == 3 && DayOfBlock(doe) == 1460
  {
    BlockFacts(doe);
    if DayOfBlock(doe) < 3 * 365 {
      DivIs(DayOfBlock(doe), 365, YearOfBlock(doe));
    }
  }

  /** Where day `doe` of an era falls: its year of the era, and its day of
      that year, which is the 366th only in a leap year. */
  lemma DayOfEra(doe: int)
    requires 0 <= doe < 146097
    ensures 0 <= YearOfEra(doe) < 400
    ensures 0 <= doe - EraDays(YearOfEra(doe)) < 366
    ensures doe - EraDays(YearOfEra(doe)) == 365 ==> IsLeapYear(YearOfEra(doe) + 1)
  {
    var cent, block, year := Century(doe), Block(doe), YearOfBlock(doe);
    CenturyFacts(doe);
    BlockFacts(doe);
    YearOfBlockFacts(doe);
    EraDaysAt(cent, block, year);
    if DayOfBlock(doe) - 365 * year == 365 {
      LeapFebruary(cent, block);
    }
  }

  /** The February that ends the last year of a four-year block is a leap
      day, except at the end of a century other than the era's last. */
  lemma LeapFebruary(cent: int, block: int)
    requires 0 <= cent < 4 && 0 <= block < 25 && (block < 24 || cent == 3)
    ensures IsLeapYear(100 * cent + 4 * block + 4)
  {
    var n := 100 * cent + 4 * block + 4;
    DivIs(n, 4, 25 * cent + block + 1);
    if block < 24 {
      DivIs(n, 100, cent);
    } else {
      assert n == 400;
    }
  }

  /** Day `doy` of a March-based year falls in month `MonthOfYear(doy)`, on a
      day that the month's length allows (February gets its 29th day only as
      the 366th day of the year). */
  lemma DayOfYear(doy: int)
    requires 0 <= doy < 366
    ensures 0 <= MonthOfYear(doy) < 12
    ensures var mp := MonthOfYear(doy); var day := doy - MonthStart(mp) + 1;
      1 <= day <= (if mp == 11 then (if doy == 365 then 29 else 28)
                   else if mp == 1 || mp == 3 || mp == 6 || mp == 8 then 30 else 31)
  {
  }

  /** The start of the year `yoe` of era `era`. */
  lemma YearStartAt(era: int, yoe: int)
    requires 0 <= yoe < 400
    ensures YearStart(yoe + era * 400) == era * 146097 + EraDays(yoe) - 719468
  {
    DivIs(yoe + era * 400, 400, era);
  }

  /** Consecutive March-based years start 365 days apart, or 366 when the
      February in between has a 29th day. */
  lemma YearStartStep(y: int)
    ensures YearStart(y + 1) == YearStart(y) + (if IsLeapYear(y + 1) then 366 else 365)
  {
    var era := y / 400;
    var yoe := y - era * 400;
    DivIs(y, 400, era);
    YearStartAt(era, yoe);
    LeapYearPeriod(era, yoe + 1);
    if yoe < 399 {
      YearStartAt(era, yoe + 1);
      EraYearLength(yoe);
    } else {
      YearStartAt(era + 1, 0);
      assert EraDays(399) == 145731;
      assert IsLeapYear(400);
    }
  }

  /** Day `doy` of the March-based year whose February belongs to calendar
      year `y` is a real calendar date. */
  lemma DateOfYearDay(y: int, doy: int)
    requires 0 <= doy < 366 && (doy == 365 ==> IsLeapYear(y))
    ensures 0 <= MonthOfYear(doy) < 12
    ensures var mp := MonthOfYear(doy); var month := if mp < 10 then mp + 3 else mp - 9;
      ValidDate(Date(if month <= 2 then y else y - 1, month, doy - MonthStart(mp) + 1))
  {
    DayOfYear(doy);
  }

  /** The date of day `doy` of year `yoe` of era `era` is a real calendar
      date, and counted back it is that day, day number `z`. */
  lemma CountBack(z: int, era: int, yoe: int, doy: int)
    requires 0 <= yoe < 400 && 0 <= doy < 366 && (doy == 365 ==> IsLeapYear(yoe + 1))
    requires z == era * 146097 + EraDays(yoe) + doy - 719468
    ensures ValidDate(DateInEra(era, yoe, doy))
    ensures DaysFromCivil(DateInEra(era, yoe, doy)) == z
  {
    LeapYearPeriod(era, yoe + 1);
    DateOfYearDay(yoe + era * 400 + 1, doy);
    YearStartAt(era, yoe);
  }

  /** Day number `z` is its era's days, its year's days and its day of the
      year. */
  lemma DayNumberParts(z: int)
    ensures z == EraOfDay(z) * 146097 + EraDays(YearOfEra(DayOfEraOf(z)))
                 + (DayOfEraOf(z) - EraDays(YearOfEra(DayOfEraOf(z)))) - 719468
  {
  }

  /** Reading a day number as a date and counting the date back gives the
      same day number, and the date is a real calendar date. */
  lemma CivilRoundTrip(z: int)
    ensures ValidDate(CivilFromDays(z))
    ensures DaysFromCivil(CivilFromDays(z)) == z
  {
    DivIs(z + 719468, 146097, EraOfDay(z));
    DayOfEra(DayOfEraOf(z));
    DayNumberParts(z);
    CountBack(z, EraOfDay(z), YearOfEra(DayOfEraOf(z)), DayOfEraOf(z) - EraDays(YearOfEra(DayOfEraOf(z))));
  }

  /** Month `mp` (0 is March) of a March-based year, other than February, has
      as many days as its successor starts later. */
  lemma MonthStartStep(mp: int)
    requires 0 <= mp < 11
    ensures MonthStart(mp + 1) - MonthStart(mp)
         == (if mp == 1 || mp == 3 || mp == 6 || mp == 8 then 30 else 31)
  {
  }

  /** 1970-01-01 is day 0. */
  lemma DayZero()
    ensures DaysFromCivil(Date(1970, 1, 1)) == 0
  {
    YearStartAt(4, 369);
    assert EraDays(369) == 134774 && MonthStart(10) == 306;
  }

  /** The day after a day of a month other than its last. */
  lemma NextDayInMonth(d: Date)
    requires ValidDate(d) && d.day < DaysInMonth(d.year, d.month)
    ensures DaysFromCivil(NextDay(d)) == DaysFromCivil(d) + 1
  {
    assert NextDay(d) == Date(d.year, d.month, d.day + 1);
  }

  /** The first of the month after a month other than February and December. */
  lemma NextDayNewMonth(d: Date)
    requires ValidDate(d) && d.day == DaysInMonth(d.year, d.month) && d.month != 2 && d.month < 12
    ensures DaysFromCivil(NextDay(d)) == DaysFromCivil(d) + 1
  {
    assert NextDay(d) == Date(d.year, d.month + 1, 1);
    MonthStartStep(if d.month > 2 then d.month - 3 else d.month + 9);
  }

  /** March 1 after the last day of February. */
  lemma NextDayMarch(d: Date)
    requires ValidDate(d) && d.day == DaysInMonth(d.year, d.month) && d.month == 2
    ensures DaysFromCivil(NextDay(d)) == DaysFromCivil(d) + 1
  {
    assert NextDay(d) == Date(d.year, 3, 1);
    YearStartStep(d.year - 1);
    assert MonthStart(11) == 337 && MonthStart(0) == 0;
  }

  /** January 1 after December 31. */
  lemma NextDayNewYear(d: Date)
    requires ValidDate(d) && d.day == DaysInMonth(d.year, d.month) && d.month == 12
    ensures DaysFromCivil(NextDay(d)) == DaysFromCivil(d) + 1
  {
    assert NextDay(d) == Date(d.year + 1, 1, 1);
    assert MonthStart(10) == 306 && MonthStart(9) == 275;
  }

  /** Day numbers count calendar days: 1970-01-01 is day 0, and each date's
      successor has the next day number. */
  lemma DaysFromCivilCountsDays(d: Date)
    requires ValidDate(d)
    ensures DaysFromCivil(Date(1970, 1, 1)) == 0
    ensures DaysFromCivil(NextDay(d)) == DaysFromCivil(d) + 1
  {
    DayZero();
    if d.day < DaysInMonth(d.year, d.month) {
      NextDayInMonth(d);
    } else if d.month == 2 {
      NextDayMarch(d);
    } else if d.month < 12 {
      NextDayNewMonth(d);
    } else {
      NextDayNewYear(d);
    }
  }

  /** The date and time of day, in UTC, of time value `t`. */
  function FromTimeValue(t: int): DateTime
  {
    var ms := t % MsPerDay;
    DateTime(CivilFromDays(t / MsPerDay), ms / MsPerHour, ms / MsPerMinute % 60,
             ms / MsPerSecond % 60, ms % MsPerSecond)
  }

  /** The time value of a date and time of day: MakeDate of ECMAScript. */
  function TimeValueOf(dt: DateTime): int
  {
    DaysFromCivil(dt.date) * MsPerDay + dt.hour * MsPerHour + dt.minute * MsPerMinute
      + dt.second * MsPerSecond + dt.millisecond
  }

  /** Splitting a time value into date and time of day loses nothing, and
      every field is within its calendar or clock range. */
  lemma {:induction false} TimeValueRoundTrip(t: int)
    ensures ValidDateTime(FromTimeValue(t))
    ensures TimeValueOf(FromTimeValue(t)) == t
  {
    var days, ms := t / MsPerDay, t % MsPerDay;
    CivilRoundTrip(days);
    TimeOfDay(ms);
    var dt := FromTimeValue(t);
    assert DaysFromCivil(dt.date) == days;
    assert t == days * MsPerDay + ms;
  }

  lemma TimeOfDay(ms: int)
    requires 0 <= ms < MsPerDay
    ensures 0 <= ms / MsPerHour < 24 && 0 <= ms / MsPerMinute % 60 < 60 && 0 <= ms / MsPerSecond % 60 < 60
    ensures ms == ms / MsPerHour * MsPerHour + ms / MsPerMinute % 60 * MsPerMinute
                  + ms / MsPerSecond % 60 * MsPerSecond + ms % MsPerSecond
  {
    var sec, milli := ms / 1000, ms % 1000;
    var min, s := sec / 60, sec % 60;
    var hour, m := min / 60, min % 60;
    assert ms == hour * MsPerHour + m * MsPerMinute + s * MsPerSecond + milli;
    DivIs(ms, MsPerMinute, min);
    DivIs(ms, MsPerHour, hour);
  }

  function DigitChar(d: int): (c: char)
    requires 0 <= d < 10
    ensures '0' <= c <= '9'
  {
    ('0' as int + d) as char
  }

  function Pow10(w: nat): nat
  {
    if w == 0 then 1 else 10 * Pow10(w - 1)
  }

  /** The last `width` decimal digits of `n`, padded with zeros. */
  function Digits(n: nat, width: nat): (s: string)
    ensures |s| == width
    ensures forall i :: 0 <= i < |s| ==> '0' <= s[i] <= '9'
  {
    if width == 0 then [] else Digits(n / 10, width - 1) + [DigitChar(n % 10)]
  }

  /** The number a string of decimal digits denotes. */
  function DigitsValue(s: string): int
  {
    if s == [] then 0 else DigitsValue(s[..|s| - 1]) * 10 + (s[|s| - 1] as int - '0' as int)
  }

  /** Digits read back as the number they were written from. */
  lemma {:induction false} DigitsRoundTrip(n: nat, width: nat)
    requires n < Pow10(width)
    ensures DigitsValue(Digits(n, width)) == n
  {
    if width > 0 {
      var s := Digits(n, width);
      assert s[..|s| - 1] == Digits(n / 10, width - 1);
      DigitsRoundTrip(n / 10, width - 1);
    }
  }

  /** The year as `toISOString` writes it: four digits for years 0 to 9999,
      otherwise a sign and six digits. */
  function YearString(y: int): (s: string)
    ensures |s| == if 0 <= y <= 9999 then 4 else 7
    ensures y < 0 ==> s[0] == '-'
    ensures y > 9999 ==> s[0] == '+'
    ensures forall i :: (if 0 <= y <= 9999 then 0 else 1) <= i < |s| ==> '0' <= s[i] <= '9'
    ensures forall i :: 0 <= i < |s| ==> s[i] != 'T'
  {
    if 0 <= y <= 9999 then Digits(y, 4)
    else if y < 0 then "-" + Digits(-y, 6)
    else "+" + Digits(y, 6)
  }

  /** The date part of an ISO 8601 text: `YYYY-MM-DD` (or an extended year). */
  function DateText(d: Date): (s: string)
    requires ValidDate(d)
    ensures 'T' !in s && |s| >= 10
    ensures 0 <= d.year <= 9999 ==> |s| == 10
  {
    YearString(d.year) + "-" + Digits(d.month, 2) + "-" + Digits(d.day, 2)
  }

  /** The time part `HH:mm:ss`. */
  function ClockText(dt: DateTime): (s: string)
    requires ValidDateTime(dt)
    ensures |s| == 8
  {
    Digits(dt.hour, 2) + ":" + Digits(dt.minute, 2) + ":" + Digits(dt.second, 2)
  }

  /** The time part with its fraction and zone: `HH:mm:ss.sssZ`. */
  function TimeText(dt: DateTime): (s: string)
    requires ValidDateTime(dt)
    ensures |s| == 13
  {
    ClockText(dt) + ("." + Digits(dt.millisecond, 3) + "Z")
  }

  /** `YYYY-MM-DDTHH:mm:ss.sssZ` for a valid date and time. */
  function IsoText(dt: DateTime): (s: string)
    requires ValidDateTime(dt)
    ensures |s| >= 24
  {
    DateText(dt.date) + "T" + TimeText(dt)
  }

  /** `new Date(t).toISOString()`: `YYYY-MM-DDTHH:mm:ss.sssZ` in UTC, or a
      RangeError for an Invalid Date. */
  function IsoString(t: int): (r: Result<string>)
    ensures r.Err? <==> t < -MaxTimeValue || t > MaxTimeValue
    ensures r.Ok? ==> |r.value| >= 24
    ensures r.Err? ==> r.error == RangeError
  {
    if t < -MaxTimeValue || t > MaxTimeValue then Err(RangeError)
    else
      TimeValueRoundTrip(t);
      Ok(IsoText(FromTimeValue(t)))
  }

  /** `toKST` once the input is a time value: shift by nine hours, format,
      replace the first `T` by a space, keep the first 19 characters. A time
      value outside the range of `Date` (which parsing never yields) reads as
      an Invalid Date. */
  function KstString(t: int): (r: Result<string>)
    ensures r.Err? <==> (t < -MaxTimeValue || t > MaxTimeValue
                         || t + KstOffset < -MaxTimeValue || t + KstOffset > MaxTimeValue)
    ensures r.Ok? ==> |r.value| == 19
    ensures r.Err? ==> r.error == RangeError
  {
    if t < -MaxTimeValue || t > MaxTimeValue then Err(RangeError)
    else
      match IsoString(t + KstOffset)
      case Err(e) => Err(e)
      case Ok(iso) => Ok(ReplaceFirst(iso, 'T', ' ')[..19])
  }

  /** Reads `YYYY-MM-DD HH:MM:SS` as a wall-clock reading on the scale of time
      values. */
  function ReadWallClock(s: string): Option<int>
  {
    if |s| == 19 && s[4] == '-' && s[7] == '-' && s[10] == ' ' && s[13] == ':' && s[16] == ':' then
      Some(TimeValueOf(WallClockFields(s)))
    else
      None
  }

  /** The date and time fields of `YYYY-MM-DD HH:MM:SS`, at whole seconds. */
  function WallClockFields(s: string): DateTime
    requires |s| == 19
  {
    DateTime(Date(DigitsValue(s[0..4]), DigitsValue(s[5..7]), DigitsValue(s[8..10])),
             DigitsValue(s[11..13]), DigitsValue(s[14..16]), DigitsValue(s[17..19]), 0)
  }

  /** `YYYY-MM-DD HH:MM:SS` for a date and time whose year has four digits. */
  function WallClockText(dt: DateTime): (s: string)
    requires ValidDateTime(dt) && 0 <= dt.date.year <= 9999
  {
    DateText(dt.date) + " " + ClockText(dt)
  }

  /** A slice within the left operand of a concatenation. */
  lemma SliceLeft(a: string, b: string, i: nat, j: nat)
    requires i <= j <= |a|
    ensures (a + b)[i..j] == a[i..j]
  {
  }

  /** A slice within the right operand of a concatenation. */
  lemma SliceRight(a: string, b: string, i: nat, j: nat)
    requires |a| <= i <= j <= |a| + |b|
    ensures (a + b)[i..j] == b[i - |a|..j - |a|]
  {
  }

  /** Replacing the first `from` of a text whose first `from` follows
      `prefix` changes exactly that character. */
  lemma ReplaceAfter(prefix: string, from: char, to: char, tail: string)
    requires from !in prefix
    ensures ReplaceFirst(prefix + [from] + tail, from, to) == prefix + [to] + tail
  {
    var s := prefix + [from] + tail;
    assert s[..|prefix|] == prefix && s[|prefix| + 1..] == tail;
    ReplaceFirstAt(s, from, to, |prefix|);
  }

  /** Replacing the `T` of an ISO text by a space and cutting it at 19
      characters leaves the wall-clock text. */
  lemma IsoTextCut(dt: DateTime)
    requires ValidDateTime(dt) && 0 <= dt.date.year <= 9999
    ensures ReplaceFirst(IsoText(dt), 'T', ' ')[..19] == WallClockText(dt)
  {
    var date, time := DateText(dt.date), TimeText(dt);
    ReplaceAfter(date, 'T', ' ', time);
    SliceRight(date + " ", time, 11, 19);
    SliceLeft(ClockText(dt), "." + Digits(dt.millisecond, 3) + "Z", 0, 8);
    assert (date + " " + time)[..19] == (date + " ") + time[..8];
  }

  /** `toKST` writes the wall-clock text of the shifted instant. */
  lemma KstIsWallClockText(t: int)
    requires -MaxTimeValue <= t <= MaxTimeValue && -MaxTimeValue <= t + KstOffset <= MaxTimeValue
    requires 0 <= FromTimeValue(t + KstOffset).date.year <= 9999
    ensures ValidDateTime(FromTimeValue(t + KstOffset))
    ensures KstString(t) == Ok(WallClockText(FromTimeValue(t + KstOffset)))
  {
    TimeValueRoundTrip(t + KstOffset);
    IsoTextCut(FromTimeValue(t + KstOffset));
  }

  /** The fields of a date text, at their places. */
  lemma DateTextFields(d: Date)
    requires ValidDate(d) && 0 <= d.year <= 9999
    ensures var s := DateText(d);
      && s[4] == '-' && s[7] == '-'
      && s[0..4] == Digits(d.year, 4) && s[5..7] == Digits(d.month, 2) && s[8..10] == Digits(d.day, 2)
  {
    var y, m := Digits(d.year, 4), Digits(d.month, 2);
    SliceLeft(y + "-" + m + "-", Digits(d.day, 2), 0, 4);
    SliceLeft(y + "-" + m, "-", 0, 4);
    SliceLeft(y + "-", m, 0, 4);
    SliceLeft(y, "-", 0, 4);
    SliceLeft(y + "-" + m + "-", Digits(d.day, 2), 5, 7);
    SliceLeft(y + "-" + m, "-", 5, 7);
    SliceRight(y + "-", m, 5, 7);
    SliceRight(y + "-" + m + "-", Digits(d.day, 2), 8, 10);
  }

  /** The fields of a clock text, at their places. */
  lemma ClockTextFields(dt: DateTime)
    requires ValidDateTime(dt)
    ensures var s := ClockText(dt);
      && s[2] == ':' && s[5] == ':'
      && s[0..2] == Digits(dt.hour, 2) && s[3..5] == Digits(dt.minute, 2) && s[6..8] == Digits(dt.second, 2)
  {
    var h, m := Digits(dt.hour, 2), Digits(dt.minute, 2);
    SliceLeft(h + ":" + m + ":", Digits(dt.second, 2), 0, 2);
    SliceLeft(h + ":" + m, ":", 0, 2);
    SliceLeft(h + ":", m, 0, 2);
    SliceLeft(h, ":", 0, 2);
    SliceLeft(h + ":" + m + ":", Digits(dt.second, 2), 3, 5);
    SliceLeft(h + ":" + m, ":", 3, 5);
    SliceRight(h + ":", m, 3, 5);
    SliceRight(h + ":" + m + ":", Digits(dt.second, 2), 6, 8);
  }

  /** The wall-clock text of a date and time has its separators in place,
      and its fields read back as the date and time at whole seconds. */
  lemma WallClockFieldsReadBack(dt: DateTime)
    requires ValidDateTime(dt) && 0 <= dt.date.year <= 9999
    ensures |WallClockText(dt)| == 19
    ensures var s := WallClockText(dt);
      s[4] == '-' && s[7] == '-' && s[10] == ' ' && s[13] == ':' && s[16] == ':'
    ensures WallClockFields(WallClockText(dt)) == dt.(millisecond := 0)
  {
    var date, clock := DateText(dt.date), ClockText(dt);
    DateTextFields(dt.date);
    ClockTextFields(dt);
    SliceLeft(date + " ", clock, 0, 4);
    SliceLeft(date, " ", 0, 4);
    SliceLeft(date + " ", clock, 5, 7);
    SliceLeft(date, " ", 5, 7);
    SliceLeft(date + " ", clock, 8, 10);
    SliceLeft(date, " ", 8, 10);
    SliceRight(date + " ", clock, 11, 13);
    SliceRight(date + " ", clock, 14, 16);
    SliceRight(date + " ", clock, 17, 19);
    DigitsRoundTrip(dt.date.year, 4);
    DigitsRoundTrip(dt.date.month, 2);
    DigitsRoundTrip(dt.date.day, 2);
    DigitsRoundTrip(dt.hour, 2);
    DigitsRoundTrip(dt.minute, 2);
    DigitsRoundTrip(dt.second, 2);
  }

  /** The wall-clock text of a date and time reads back as its time value
      without the milliseconds. */
  lemma WallClockTextReadsBack(dt: DateTime)
    requires ValidDateTime(dt) && 0 <= dt.date.year <= 9999
    ensures ReadWallClock(WallClockText(dt)) == Some(TimeValueOf(dt) - dt.millisecond)
  {
    WallClockFieldsReadBack(dt);
    ReadFields(WallClockText(dt), dt);
  }

  /** A text with the separators in place whose fields are those of `dt` at
      whole seconds reads back as the time value of `dt` without the
      milliseconds. */
  lemma ReadFields(s: string, dt: DateTime)
    requires |s| == 19 && s[4] == '-' && s[7] == '-' && s[10] == ' ' && s[13] == ':' && s[16] == ':'
    requires WallClockFields(s) == dt.(millisecond := 0)
    ensures ReadWallClock(s) == Some(TimeValueOf(dt) - dt.millisecond)
  {
    TimeValueAtSecond(dt);
  }

  /** Dropping the milliseconds of a date and time takes them off its time
      value. */
  lemma TimeValueAtSecond(dt: DateTime)
    ensures TimeValueOf(dt.(millisecond := 0)) == TimeValueOf(dt) - dt.millisecond
  {
    assert dt.(millisecond := 0).date == dt.date;
  }

  /** The instant `u` with its milliseconds dropped. */
  function FloorToSecond(u: int): int
  {
    u - u % MsPerSecond
  }

  /** For a year that `toISOString` writes with four digits, the `toKST` text
      read back as a wall clock is the input instant plus exactly nine hours,
      down to the second. */
  lemma KstReadsBack(t: int)
    requires -MaxTimeValue <= t <= MaxTimeValue && -MaxTimeValue <= t + KstOffset <= MaxTimeValue
    requires 0 <= FromTimeValue(t + KstOffset).date.year <= 9999
    ensures KstString(t).Ok?
    ensures ReadWallClock(KstString(t).value) == Some(FloorToSecond(t + KstOffset))
  {
    KstIsWallClockText(t);
    InstantReadsBack(t + KstOffset);
  }

  /** The wall-clock text of an instant reads back as the instant truncated
      to the second. */
  lemma InstantReadsBack(u: int)
    requires ValidDateTime(FromTimeValue(u)) && 0 <= FromTimeValue(u).date.year <= 9999
    ensures ReadWallClock(WallClockText(FromTimeValue(u))) == Some(FloorToSecond(u))
  {
    TimeValueRoundTrip(u);
    MillisecondOf(u);
    ReadsBackAt(u, FromTimeValue(u));
  }

  /** The wall-clock text of the date and time of instant `u` reads back as
      `u` truncated to the second. */
  lemma ReadsBackAt(u: int, dt: DateTime)
    requires ValidDateTime(dt) && 0 <= dt.date.year <= 9999
    requires TimeValueOf(dt) == u && dt.millisecond == u % MsPerSecond
    ensures ReadWallClock(WallClockText(dt)) == Some(FloorToSecond(u))
  {
    WallClockTextReadsBack(dt);
  }

  /** The millisecond field of an instant is its remainder modulo a second. */
  lemma MillisecondOf(u: int)
    ensures FromTimeValue(u).millisecond == u % MsPerSecond
  {
    var q, r := u / MsPerDay, u % MsPerDay;
    DivIs(u, 1000, q * 86_400 + r / 1000);
  }
}

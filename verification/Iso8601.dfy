/** The proleptic Gregorian calendar, one day at a time. */
module Gregorian {

  datatype Date = Date(year: int, month: int, day: int)

  /** The leap rule of RFC 3339, Appendix C. */
  predicate Leap(year: int) {
    year % 4 == 0 && (year % 100 != 0 || year % 400 == 0)
  }

  function DaysInMonth(year: int, month: int): int {
    if month == 2 then (if Leap(year) then 29 else 28)
    else if month in {4, 6, 9, 11} then 30
    else 31
  }

  predicate ValidDate(date: Date) {
    1 <= date.month <= 12 && 1 <= date.day <= DaysInMonth(date.year, date.month)
  }

  function NextDay(date: Date): (next: Date)
    requires ValidDate(date)
    ensures ValidDate(next)
  {
    if date.day < DaysInMonth(date.year, date.month) then date.(day := date.day + 1)
    else if date.month < 12 then Date(date.year, date.month + 1, 1)
    else Date(date.year + 1, 1, 1)
  }

  /** The date reached by stepping `days` days from 1970-01-01. */
  function DateAfter(days: nat): (date: Date)
    ensures ValidDate(date) && date.year >= 1970
  {
    if days == 0 then Date(1970, 1, 1) else NextDay(DateAfter(days - 1))
  }

  predicate Earlier(a: Date, b: Date) {
    || a.year < b.year
    || (a.year == b.year && a.month < b.month)
    || (a.year == b.year && a.month == b.month && a.day < b.day)
  }

  ghost predicate Steps(dates: nat -> Date, k: nat) {
    ValidDate(dates(k)) && dates(k + 1) == NextDay(dates(k))
  }

  /** Whatever starts at the epoch and steps day by day is the calendar. */
  lemma {:induction false} StepwiseUnique(dates: nat -> Date, days: nat)
    requires dates(0) == Date(1970, 1, 1) && forall k: nat :: Steps(dates, k)
    ensures dates(days) == DateAfter(days)
  {
    if days > 0 {
      StepwiseUnique(dates, days - 1);
      assert Steps(dates, days - 1);
    }
  }

  lemma {:induction false} DatesAscend(a: nat, b: nat)
    requires a < b
    ensures Earlier(DateAfter(a), DateAfter(b))
    decreases b
  {
    if a < b - 1 { DatesAscend(a, b - 1); }
  }
}

/** `format_unix_secs_iso`: Unix seconds to `YYYY-MM-DDTHH:MM:SSZ` in closed form. */
module Iso8601 {
  import opened Wrappers
  import opened Gregorian
  import opened Text

  newtype u64 = x: int | 0 <= x < 0x1_0000_0000_0000_0000
  newtype i64 = x: int | -0x8000_0000_0000_0000 <= x < 0x8000_0000_0000_0000

  const ERA_DAYS := 146_097
  const DAY_SECS := 86_400
  /** The first second of year 10000. */
  const YEAR_10000 := 253_402_300_800

  // ---------------------------------------------------------------- years that start in March

  /** Days of the era before its year `y`, years running from 1 March. */
  function YearStart(y: int): int {
    365 * y + y / 4 - y / 100
  }

  /** Length of that year: it ends with the February of the next calendar year. */
  function YearLength(y: int): int {
    if y == 399 || ((y + 1) % 4 == 0 && (y + 1) % 100 != 0) then 366 else 365
  }

  function YearOfEra(doe: int): int {
    (doe - doe / 1460 + doe / 36_524 - doe / 146_096) / 365
  }

  predicate InEra(y: int, doy: int) {
    0 <= y < 400 && 0 <= doy < YearLength(y)
  }

  lemma YearStartStep(y: int)
    requires 0 <= y < 399
    ensures YearStart(y + 1) == YearStart(y) + YearLength(y)
  {
    assert (y + 1) / 4 == y / 4 + if (y + 1) % 4 == 0 then 1 else 0;
    assert (y + 1) / 100 == y / 100 + if (y + 1) % 100 == 0 then 1 else 0;
  }

  /** The closed form recovers the year from any day of it. */
  lemma YearOfEraExact(y: int, doy: int)
    requires InEra(y, doy)
    ensures YearOfEra(YearStart(y) + doy) == y
    ensures 0 <= YearStart(y) + doy < ERA_DAYS
  {
    var h, k, r := y / 100, y % 100 / 4, y % 4;
    assert y == 100 * h + 4 * k + r;
    assert YearLength(y) == 366 <==> r == 3 && (k < 24 || h == 3);
    var doe := YearStart(y) + doy;
    assert doe == 36_524 * h + 1461 * k + 365 * r + doy;
    // 36524 = 25 * 1460 + 24, so whole 1460-day blocks split off with remainder u.
    var u := 24 * h + k + 365 * r + doy;
    BlockQuotient(doe, 25 * h + k, u);
    CenturyQuotient(doe, h, 1461 * k + 365 * r + doy);
    assert 365 * y <= doe - doe / 1460 + doe / 36_524 - doe / 146_096 < 365 * y + 365;
  }

  lemma BlockQuotient(doe: int, blocks: int, u: int)
    requires doe == 1460 * blocks + u
    ensures doe / 1460 == blocks + u / 1460
  {
  }

  /** Whole centuries, and whole eras less one day: both quotients count the era's last day once too often. */
  lemma CenturyQuotient(doe: int, h: int, rest: int)
    requires 0 <= h <= 3 && 0 <= rest <= 36_524 && doe == 36_524 * h + rest && (rest == 36_524 ==> h == 3)
    ensures doe / 36_524 - doe / 146_096 == h
  {
  }

  /** Every day of an era lies in exactly one of its years. */
  lemma {:induction false} EraDay(doe: nat) returns (y: int, doy: int)
    requires doe < ERA_DAYS
    ensures InEra(y, doy) && doe == YearStart(y) + doy
  {
    if doe == 0 {
      y, doy := 0, 0;
    } else {
      y, doy := EraDay(doe - 1);
      if doy + 1 < YearLength(y) {
        doy := doy + 1;
      } else {
        if y < 399 { YearStartStep(y); }
        y, doy := y + 1, 0;
      }
    }
  }

  // ---------------------------------------------------------------- months that start in March

  function MonthIndex(doy: int): int {
    (5 * doy + 2) / 153
  }

  function DayOfMonth(doy: int): int {
    doy - (153 * MonthIndex(doy) + 2) / 5 + 1
  }

  function CalendarMonth(mp: int): int {
    if mp < 10 then mp + 3 else mp - 9
  }

  /** Days in the month with index `mp`, February counted as leap. */
  function LongestMonth(mp: int): int {
    if mp == 11 then 29 else if mp in {1, 3, 6, 8} then 30 else 31
  }

  lemma MonthBounds(doy: int)
    requires 0 <= doy <= 365
    ensures 0 <= MonthIndex(doy) <= 11
    ensures 1 <= DayOfMonth(doy) <= LongestMonth(MonthIndex(doy))
  {
    var mp := MonthIndex(doy);
    if mp <= 5 {
      assert mp in {0, 1, 2, 3, 4, 5};
    } else {
      assert mp in {6, 7, 8, 9, 10, 11};
    }
  }

  /** Within a year the next day is the next day of the month, or the first of the next month. */
  lemma MonthStep(doy: int)
    requires 0 <= doy < 365
    ensures if DayOfMonth(doy) < LongestMonth(MonthIndex(doy))
            then MonthIndex(doy + 1) == MonthIndex(doy) && DayOfMonth(doy + 1) == DayOfMonth(doy) + 1
            else MonthIndex(doy + 1) == MonthIndex(doy) + 1 && DayOfMonth(doy + 1) == 1
  {
    MonthBounds(doy);
    MonthBounds(doy + 1);
    var mp := MonthIndex(doy);
    if mp <= 5 {
      assert mp in {0, 1, 2, 3, 4, 5};
    } else {
      assert mp in {6, 7, 8, 9, 10, 11};
    }
  }

  // ---------------------------------------------------------------- the closed form is the calendar

  /** The date of day `doy` of year `y` (both from 1 March) of `era`. */
  function MarchDate(era: int, y: int, doy: int): Date {
    var m := CalendarMonth(MonthIndex(doy));
    var year := y + era * 400;
    Date(if m <= 2 then year + 1 else year, m, DayOfMonth(doy))
  }

  /** The date of day `doe` of `era`. */
  function EraCivil(era: int, doe: int): Date {
    var y := YearOfEra(doe);
    MarchDate(era, y, doe - YearStart(y))
  }

  /** The date the formatter computes for the day `days` after the epoch. */
  function CivilFromDays(days: nat): Date {
    var z := days + 719_468;
    EraCivil(z / ERA_DAYS, z % ERA_DAYS)
  }

  lemma ShiftMod4(a: int, k: int)
    ensures (a + 4 * k) % 4 == a % 4
  {
  }

  lemma ShiftMod100(a: int, k: int)
    ensures (a + 100 * k) % 100 == a % 100
  {
  }

  lemma ShiftMod400(a: int, k: int)
    ensures (a + 400 * k) % 400 == a % 400
  {
  }

  lemma LeapFebruary(era: int, y: int)
    requires 0 <= y < 400
    ensures YearLength(y) == 366 <==> Leap(y + era * 400 + 1)
  {
    ShiftMod4(y + 1, 100 * era);
    ShiftMod100(y + 1, 4 * era);
    ShiftMod400(y + 1, era);
  }

  lemma MarchDateStep(era: int, y: int, doy: int)
    requires InEra(y, doy)
    ensures ValidDate(MarchDate(era, y, doy))
    ensures doy + 1 < YearLength(y) ==> NextDay(MarchDate(era, y, doy)) == MarchDate(era, y, doy + 1)
    ensures doy + 1 == YearLength(y) ==> NextDay(MarchDate(era, y, doy)) == MarchDate(era, y + 1, 0)
  {
    MonthBounds(doy);
    LeapFebruary(era, y);
    var mp, d := MonthIndex(doy), DayOfMonth(doy);
    assert mp == 11 ==> d == doy - 336;
    assert mp < 11 ==> doy < 337;
    if doy + 1 < YearLength(y) {
      MonthStep(doy);
    }
  }

  /** Any decomposition of a day into era and day of era is the one the closed form uses. */
  lemma CivilParts(days: nat, era: int, doe: int)
    requires days + 719_468 == era * ERA_DAYS + doe && 0 <= doe < ERA_DAYS
    ensures CivilFromDays(days) == EraCivil(era, doe)
  {
    DivModUnique(days + 719_468, era, doe);
  }

  lemma EraCivilAt(era: int, y: int, doy: int, doe: int)
    requires YearOfEra(doe) == y && doe == YearStart(y) + doy
    ensures EraCivil(era, doe) == MarchDate(era, y, doy)
  {
    assert doe - YearStart(y) == doy;
  }

  lemma CivilAtDay(days: nat, era: int, y: int, doy: int, doe: int)
    requires days + 719_468 == era * ERA_DAYS + doe && 0 <= doe < ERA_DAYS
    requires YearOfEra(doe) == y && doe == YearStart(y) + doy
    ensures CivilFromDays(days) == MarchDate(era, y, doy)
  {
    CivilParts(days, era, doe);
    EraCivilAt(era, y, doy, doe);
  }

  /** Any decomposition of a day into era, year and day of year is the one the closed form finds. */
  lemma CivilAt(days: nat, era: int, y: int, doy: int)
    requires InEra(y, doy) && days + 719_468 == era * ERA_DAYS + YearStart(y) + doy
    ensures CivilFromDays(days) == MarchDate(era, y, doy)
  {
    YearOfEraExact(y, doy);
    CivilAtDay(days, era, y, doy, YearStart(y) + doy);
  }

  lemma DivModUnique(z: int, era: int, doe: int)
    requires z == era * ERA_DAYS + doe && 0 <= doe < ERA_DAYS
    ensures z / ERA_DAYS == era && z % ERA_DAYS == doe
  {
  }

  lemma CivilStep(days: nat)
    ensures ValidDate(CivilFromDays(days))
    ensures CivilFromDays(days + 1) == NextDay(CivilFromDays(days))
  {
    var z := days + 719_468;
    var era := z / ERA_DAYS;
    var y, doy := EraDay(z % ERA_DAYS);
    CivilAt(days, era, y, doy);
    MarchDateStep(era, y, doy);
    if doy + 1 < YearLength(y) {
      CivilAt(days + 1, era, y, doy + 1);
    } else if y < 399 {
      YearStartStep(y);
      CivilAt(days + 1, era, y + 1, 0);
    } else {
      CivilAt(days + 1, era + 1, 0, 0);
    }
  }

  lemma CivilEpoch()
    ensures CivilFromDays(0) == Date(1970, 1, 1)
  {
    CivilAt(0, 4, 369, 306);
  }

  /** For every day count the closed form gives the date reached one day at a time. */
  lemma CivilIsCalendar(days: nat)
    ensures CivilFromDays(days) == DateAfter(days)
  {
    CivilEpoch();
    forall k: nat ensures Steps(CivilFromDays, k) {
      CivilStep(k);
    }
    StepwiseUnique(CivilFromDays, days);
  }

  // ---------------------------------------------------------------- the machine-word computation

  datatype Timestamp = Timestamp(year: i64, month: u64, day: u64, hour: u64, minute: u64, second: u64)

  function I64OrZero(x: u64): i64 {
    if x <= 0x7fff_ffff_ffff_ffff then x as i64 else 0
  }

  function U64OrZero(x: i64): u64 {
    if x >= 0 then x as u64 else 0
  }

  /** Facts that keep every machine-word step of `CivilWords` in range. */
  lemma EraDayBounds(doe: int)
    requires 0 <= doe < ERA_DAYS
    ensures 0 <= YearOfEra(doe) <= 399
    ensures 0 <= doe - YearStart(YearOfEra(doe)) <= 365
  {
    var y, doy := EraDay(doe);
    YearOfEraExact(y, doy);
    assert YearOfEra(doe) == y;
  }

  /** Rounding an `i64` day number down to its era; machine division truncates towards zero. */
  function EraOf(z: i64): (era: i64)
    requires z >= -0x7fff_ffff_0000_0000
    ensures era as int * ERA_DAYS <= z as int < era as int * ERA_DAYS + ERA_DAYS
  {
    if z >= 0 then z / 146_097 else -((146_096 - z) / 146_097)
  }

  function DateOf(words: (i64, u64, u64)): Date {
    Date(words.0 as int, words.1 as int, words.2 as int)
  }

  /** The date part of the formatter within an era. Each operation is on 64-bit words, so no
      subtraction underflows and no operation overflows. */
  function EraDate(era: i64, doe: u64): (date: (i64, u64, u64))
    requires 0 <= era <= 0xffff_ffff && doe < 146_097
    ensures DateOf(date) == EraCivil(era as int, doe as int)
  {
    EraDayBounds(doe as int);
    var yoe := (doe - doe / 1460 + doe / 36_524 - doe / 146_096) / 365;
    var y := I64OrZero(yoe) + era * 400;
    var doy := doe - (365 * yoe + yoe / 4 - yoe / 100);
    MonthBounds(doy as int);
    var mp := (5 * doy + 2) / 153;
    var d := doy - (153 * mp + 2) / 5 + 1;
    var m := if mp < 10 then mp + 3 else mp - 9;
    (if m <= 2 then y + 1 else y, m, d)
  }

  function CivilWords(days: i64): (date: (i64, u64, u64))
    requires 0 <= days <= 0xffff_ffff_ffff
    ensures DateOf(date) == CivilFromDays(days as int)
  {
    var z := days + 719_468;
    var era := EraOf(z);
    CivilParts(days as int, era as int, (z - era * 146_097) as int);
    EraDate(era, U64OrZero(z - era * 146_097))
  }

  /** The formatter up to printing, for every `u64`. */
  function Breakdown(secs: u64): Timestamp {
    var (year, m, d) := CivilWords(I64OrZero(secs / 86_400));
    var time := secs % 86_400;
    Timestamp(year, m, d, time / 3_600, (time % 3_600) / 60, time % 60)
  }

  /** For every `u64`, the date is the calendar's and the clock fields add up to the second of the day. */
  lemma BreakdownIsCalendar(secs: u64)
    ensures var t, n := Breakdown(secs), secs as int;
            && DateAfter(n / DAY_SECS) == DateOf((t.year, t.month, t.day))
            && 3600 * (t.hour as int) + 60 * (t.minute as int) + (t.second as int) == n % DAY_SECS
            && t.hour < 24 && t.minute < 60 && t.second < 60
  {
    CivilIsCalendar(secs as int / DAY_SECS);
    assert I64OrZero(secs / 86_400) as int == secs as int / DAY_SECS;
    ClockSplit(secs as int % DAY_SECS);
  }

  lemma ClockSplit(time: int)
    requires 0 <= time < DAY_SECS
    ensures 3600 * (time / 3600) + 60 * (time % 3600 / 60) + time % 60 == time
    ensures time / 3600 < 24 && time % 3600 / 60 < 60
  {
  }

  /** No `unwrap_or(0)` fallback is ever taken: each of the three conversions keeps its value. */
  lemma NoFallbackTaken(secs: u64)
    ensures I64OrZero(secs / 86_400) as int == secs as int / 86_400
    ensures var z := I64OrZero(secs / 86_400) + 719_468;
            var doe := z as int % ERA_DAYS;
            && U64OrZero(z - EraOf(z) * 146_097) as int == doe
            && 0 <= YearOfEra(doe) <= 399 && I64OrZero(YearOfEra(doe) as u64) as int == YearOfEra(doe)
  {
    var z := I64OrZero(secs / 86_400) + 719_468;
    DivModUnique(z as int, EraOf(z) as int, (z - EraOf(z) * 146_097) as int);
    EraDayBounds(z as int % ERA_DAYS);
  }

  // ---------------------------------------------------------------- the printed form

  /** The six printed fields as plain numbers. */
  datatype Stamp = Stamp(year: nat, month: nat, day: nat, hour: nat, minute: nat, second: nat)

  predicate TwoDigitFields(p: Stamp) {
    p.month < 100 && p.day < 100 && p.hour < 100 && p.minute < 100 && p.second < 100
  }

  predicate Less(p: Stamp, q: Stamp) {
    p.year < q.year || (p.year == q.year && LessInYear(p, q))
  }

  predicate LessInYear(p: Stamp, q: Stamp) {
    || p.month < q.month
    || (p.month == q.month && (p.day < q.day || (p.day == q.day && LessInDay(p, q))))
  }

  predicate LessInDay(p: Stamp, q: Stamp) {
    || p.hour < q.hour
    || (p.hour == q.hour && (p.minute < q.minute || (p.minute == q.minute && p.second < q.second)))
  }

  function ClockText(p: Stamp): string {
    "T" + (Padded(p.hour, 2) + (":" + (Padded(p.minute, 2) + (":" + (Padded(p.second, 2) + "Z")))))
  }

  function AfterYear(p: Stamp): string {
    "-" + (Padded(p.month, 2) + ("-" + (Padded(p.day, 2) + ClockText(p))))
  }

  /** `YYYY-MM-DDTHH:MM:SSZ`, with more digits for years past 9999. */
  function Print(p: Stamp): string {
    Padded(p.year, 4) + AfterYear(p)
  }

  lemma TwoDigits(n: nat)
    requires n < 100
    ensures |Padded(n, 2)| == 2
  {
    DigitsLength(n, 2);
    assert Pow10(2) == 100;
  }

  /** A separator followed by a two-digit field is compared by that field first. */
  lemma FieldOrder(separator: char, a: nat, x: string, b: nat, y: string)
    requires a < 100 && b < 100
    ensures Before([separator] + (Padded(a, 2) + x), [separator] + (Padded(b, 2) + y))
            <==> a < b || (a == b && Before(x, y))
  {
    BeforeConcat([separator], Padded(a, 2) + x, [separator], Padded(b, 2) + y);
    TwoDigits(a);
    TwoDigits(b);
    BeforeConcat(Padded(a, 2), x, Padded(b, 2), y);
    BeforeIsLess(Padded(a, 2), Padded(b, 2));
    ValueOfPadded(a, 2);
    ValueOfPadded(b, 2);
  }

  lemma ClockOrder(p: Stamp, q: Stamp)
    requires TwoDigitFields(p) && TwoDigitFields(q)
    ensures Before(ClockText(p), ClockText(q)) <==> LessInDay(p, q)
  {
    var a, b := ":" + (Padded(p.second, 2) + "Z"), ":" + (Padded(q.second, 2) + "Z");
    FieldOrder(':', p.second, "Z", q.second, "Z");
    FieldOrder(':', p.minute, a, q.minute, b);
    FieldOrder('T', p.hour, ":" + (Padded(p.minute, 2) + a), q.hour, ":" + (Padded(q.minute, 2) + b));
  }

  lemma AfterYearOrder(p: Stamp, q: Stamp)
    requires TwoDigitFields(p) && TwoDigitFields(q)
    ensures Before(AfterYear(p), AfterYear(q)) <==> LessInYear(p, q)
  {
    ClockOrder(p, q);
    FieldOrder('-', p.day, ClockText(p), q.day, ClockText(q));
    FieldOrder('-', p.month, "-" + (Padded(p.day, 2) + ClockText(p)),
               q.month, "-" + (Padded(q.day, 2) + ClockText(q)));
  }

  lemma PrintLength(p: Stamp)
    requires TwoDigitFields(p)
    ensures |Print(p)| == |Padded(p.year, 4)| + 16
  {
    TwoDigits(p.month);
    TwoDigits(p.day);
    TwoDigits(p.hour);
    TwoDigits(p.minute);
    TwoDigits(p.second);
  }

  lemma YearTextGrows(y: nat, z: nat)
    requires y <= z
    ensures |Padded(y, 4)| <= |Padded(z, 4)|
  {
    DigitsLength(y, |Digits(z)|);
    DigitsLength(z, |Digits(z)|);
  }

  /** A prefix of a numeral denotes the number with its last digits divided away. */
  lemma {:induction false} ValueOfPrefix(s: string, k: nat)
    requires AllDigits(s) && k <= |s|
    ensures Value(s[..k]) == Value(s) / Pow10(|s| - k)
  {
    if k == |s| {
      assert s[..k] == s;
    } else {
      var init := s[..|s| - 1];
      ValueOfPrefix(init, k);
      assert init[..k] == s[..k];
      DivDiv(Value(s), Pow10(|s| - 1 - k));
    }
  }

  lemma DivDiv(n: nat, p: nat)
    requires p > 0
    ensures n / 10 / p == n / (10 * p)
  {
    var q := n / 10 / p;
    assert n / 10 == p * q + n / 10 % p;
    assert n == (10 * p) * q + (10 * (n / 10 % p) + n % 10);
    DivUnique(n, 10 * p, q, 10 * (n / 10 % p) + n % 10);
  }

  lemma DivUnique(n: nat, d: nat, q: nat, r: nat)
    requires d > 0 && n == d * q + r && r < d
    ensures n / d == q
  {
    MulMonotone(d, n / d + 1, q);
    MulMonotone(d, q + 1, n / d);
  }

  lemma MulMonotone(d: nat, a: int, b: int)
    ensures a <= b ==> d * a <= d * b
  {
  }

  lemma DashBeforeDigit(p: Stamp, rest: string)
    requires rest != [] && IsDigit(rest[0])
    ensures Before(AfterYear(p), rest)
  {
    assert AfterYear(p)[0] == '-';
  }

  lemma RestOrder(p: Stamp, q: Stamp, low: string)
    requires TwoDigitFields(p) && TwoDigitFields(q) && AllDigits(low) && (low == [] ==> LessInYear(p, q))
    ensures Before(AfterYear(p), low + AfterYear(q))
  {
    if low == [] {
      assert low + AfterYear(q) == AfterYear(q);
      AfterYearOrder(p, q);
    } else {
      DashBeforeDigit(p, low + AfterYear(q));
    }
  }

  /** Year text `y` against the year text `high + low`, each followed by the rest of its stamp. */
  lemma YearTextOrder(p: Stamp, q: Stamp, y: string, high: string, low: string)
    requires TwoDigitFields(p) && TwoDigitFields(q) && AllDigits(low) && |y| == |high|
    requires low == [] ==> Before(y, high) || Before(high, y) || LessInYear(p, q)
    ensures Before(y + AfterYear(p), high + low + AfterYear(q)) <==> Before(y, high) || y == high
  {
    var rest := low + AfterYear(q);
    assert high + low + AfterYear(q) == high + rest;
    BeforeConcat(y, AfterYear(p), high, rest);
    if y == high {
      BeforeIrreflexive(y);
      RestOrder(p, q, low);
    }
  }

  /** Year `y` does not exceed the leading digits of year `z`. */
  predicate YearReaches(y: nat, z: nat) {
    && |Padded(y, 4)| <= |Padded(z, 4)|
    && y <= z / Pow10(|Padded(z, 4)| - |Padded(y, 4)|)
  }

  lemma OrderByValue(s: string, t: string, value: nat)
    requires AllDigits(s) && AllDigits(t) && |s| == |t| && Value(t) == value
    ensures Value(s) <= value <==> Before(s, t) || s == t
  {
    BeforeIsLess(s, t);
  }

  lemma PrefixOrder(s: string, t: string)
    requires AllDigits(s) && AllDigits(t) && |s| <= |t|
    ensures Value(s) <= Value(t) / Pow10(|t| - |s|) <==> Before(s, t[..|s|]) || s == t[..|s|]
  {
    ValueOfPrefix(t, |s|);
    OrderByValue(s, t[..|s|], Value(t) / Pow10(|t| - |s|));
  }

  /** Year text against the equally many leading digits of a text at least as long. */
  lemma LeadingDigits(y: nat, z: nat)
    requires |Padded(y, 4)| <= |Padded(z, 4)|
    ensures var s, t := Padded(y, 4), Padded(z, 4);
            && AllDigits(t[|s|..])
            && (YearReaches(y, z) <==> Before(s, t[..|s|]) || s == t[..|s|])
            && (y < z && |s| == |t| ==> Before(s, t[..|s|]))
  {
    var s, t := Padded(y, 4), Padded(z, 4);
    ValueOfPadded(y, 4);
    ValueOfPadded(z, 4);
    PrefixOrder(s, t);
    if |s| == |t| {
      BeforeIsLess(s, t);
      assert t[..|s|] == t;
    }
  }

  /** The smaller stamp prints first exactly when its year does not exceed the leading digits of the other's. */
  lemma PrintOrder(p: Stamp, q: Stamp)
    requires TwoDigitFields(p) && TwoDigitFields(q) && Less(p, q)
    ensures Before(Print(p), Print(q)) <==> YearReaches(p.year, q.year)
  {
    YearTextGrows(p.year, q.year);
    var y, z := Padded(p.year, 4), Padded(q.year, 4);
    var high, low := z[..|y|], z[|y|..];
    assert z == high + low;
    LeadingDigits(p.year, q.year);
    YearTextOrder(p, q, y, high, low);
  }

  lemma PrintsDiffer(p: Stamp, q: Stamp)
    requires TwoDigitFields(p) && TwoDigitFields(q) && Less(p, q)
    ensures Print(p) != Print(q)
  {
    if Print(p) == Print(q) {
      PrintLength(p);
      PrintLength(q);
      PrintOrder(p, q);
      YearTextGrows(p.year, q.year);
      assert Pow10(0) == 1;
      BeforeIrreflexive(Print(p));
    }
  }

  lemma FourDigitYears(p: Stamp)
    requires TwoDigitFields(p)
    ensures |Print(p)| >= 20 && (|Print(p)| == 20 <==> p.year < 10_000)
  {
    PrintLength(p);
    DigitsLength(p.year, 4);
    assert Pow10(4) == 10_000;
  }

  lemma FourDigitOrder(p: Stamp, q: Stamp)
    requires TwoDigitFields(p) && TwoDigitFields(q) && Less(p, q)
    requires p.year < 10_000 && q.year < 10_000
    ensures Before(Print(p), Print(q)) && !Before(Print(q), Print(p))
  {
    FourDigitYears(p);
    FourDigitYears(q);
    PrintLength(p);
    PrintLength(q);
    PrintOrder(p, q);
    assert Pow10(0) == 1;
    if Before(Print(q), Print(p)) {
      BeforeTransitive(Print(q), Print(p), Print(q));
      BeforeIrreflexive(Print(q));
    }
  }

  // ---------------------------------------------------------------- reading the printed form

  /** Two digits at a position of a text. */
  function ReadTwo(s: string, at: nat): Option<nat> {
    if at + 2 <= |s| && IsDigit(s[at]) && IsDigit(s[at + 1])
    then Some(10 * DigitValue(s[at]) + DigitValue(s[at + 1])) else None
  }

  predicate Marks(s: string, at: nat, c: char) {
    at < |s| && s[at] == c
  }

  /** A year of four digits, or of more without a leading zero. */
  predicate YearShape(year: string) {
    AllDigits(year) && (|year| == 4 || (|year| > 4 && year[0] != '0'))
  }

  /** The separators of section 5.6 of RFC 3339, for a year of n characters and the zone `Z`. */
  predicate Separators(s: string, n: nat) {
    && Marks(s, n, '-') && Marks(s, n + 3, '-') && Marks(s, n + 6, 'T')
    && Marks(s, n + 9, ':') && Marks(s, n + 12, ':') && Marks(s, n + 15, 'Z')
  }

  /** A reader of RFC 3339 times in UTC, with longer years allowed; it knows nothing of the printer. */
  function Read(s: string): Option<Stamp> {
    var n := |s| - 16;
    if n < 4 || !YearShape(s[..n]) || !Separators(s, n) then None else
      match (ReadTwo(s, n + 1), ReadTwo(s, n + 4), ReadTwo(s, n + 7), ReadTwo(s, n + 10), ReadTwo(s, n + 13))
      case (Some(month), Some(day), Some(hour), Some(minute), Some(second)) =>
        Some(Stamp(Value(s[..n]), month, day, hour, minute, second))
      case _ => None
  }

  lemma TwoDigitText(n: nat)
    requires n < 100
    ensures Padded(n, 2) == [DigitChar(n / 10), DigitChar(n % 10)]
  {
    TwoDigits(n);
    ValueOfPadded(n, 2);
    var t := Padded(n, 2);
    assert t == [t[0], t[1]];
    assert t[..1] == [t[0]] && [t[0]][..0] == [];
    assert Value(t) == 10 * Value([t[0]]) + DigitValue(t[1]) && Value([t[0]]) == DigitValue(t[0]);
    SameDigit(t[0], DigitChar(n / 10));
    SameDigit(t[1], DigitChar(n % 10));
  }

  lemma SameDigit(a: char, b: char)
    requires IsDigit(a) && IsDigit(b) && DigitValue(a) == DigitValue(b)
    ensures a == b
  {
  }

  /** The text of two digits and a separator before them, inside a longer text. */
  lemma FieldAt(front: string, separator: char, n: nat, back: string)
    requires n < 100
    ensures var s := front + ([separator] + (Padded(n, 2) + back));
            && Marks(s, |front|, separator) && ReadTwo(s, |front| + 1) == Some(n)
            && s == front + ([separator] + Padded(n, 2)) + back && |front + ([separator] + Padded(n, 2))| == |front| + 3
  {
    TwoDigitText(n);
    var s := front + ([separator] + (Padded(n, 2) + back));
    assert s[|front|] == separator && s[|front| + 1] == DigitChar(n / 10) && s[|front| + 2] == DigitChar(n % 10);
  }

  /** The date part read back. */
  lemma DateAt(year: string, p: Stamp)
    requires TwoDigitFields(p)
    ensures var s, n := year + AfterYear(p), |year|;
            && Marks(s, n, '-') && ReadTwo(s, n + 1) == Some(p.month)
            && Marks(s, n + 3, '-') && ReadTwo(s, n + 4) == Some(p.day)
            && s[n + 6..] == ClockText(p)
  {
    var rest := "-" + (Padded(p.day, 2) + ClockText(p));
    FieldAt(year, '-', p.month, rest);
    var front := year + ("-" + Padded(p.month, 2));
    FieldAt(front, '-', p.day, ClockText(p));
    assert front + rest == year + AfterYear(p);
    assert (front + ("-" + Padded(p.day, 2)) + ClockText(p))[|year| + 6..] == ClockText(p);
  }

  /** The clock part read back. */
  lemma ClockAt(p: Stamp)
    requires TwoDigitFields(p)
    ensures var s := ClockText(p);
            && |s| == 10 && Marks(s, 0, 'T') && ReadTwo(s, 1) == Some(p.hour)
            && Marks(s, 3, ':') && ReadTwo(s, 4) == Some(p.minute)
            && Marks(s, 6, ':') && ReadTwo(s, 7) == Some(p.second) && Marks(s, 9, 'Z')
  {
    TwoDigitText(p.hour);
    TwoDigitText(p.minute);
    TwoDigitText(p.second);
  }

  lemma ClockInside(s: string, n: nat, clock: string)
    requires n + 16 == |s| && s[n + 6..] == clock
    ensures forall i: nat :: i < 10 ==> s[n + 6 + i] == clock[i]
    ensures ReadTwo(s, n + 7) == ReadTwo(clock, 1) && ReadTwo(s, n + 10) == ReadTwo(clock, 4)
    ensures ReadTwo(s, n + 13) == ReadTwo(clock, 7)
  {
    assert clock[1] == s[n + 7] && clock[2] == s[n + 8] && clock[4] == s[n + 10] && clock[5] == s[n + 11];
    assert clock[7] == s[n + 13] && clock[8] == s[n + 14];
  }

  /** Year texts have the shape a reader expects. */
  lemma YearTextShape(y: nat)
    ensures YearShape(Padded(y, 4)) && Value(Padded(y, 4)) == y
  {
    ValueOfPadded(y, 4);
    if |Digits(y)| > 4 {
      FirstDigit(y);
    }
  }

  lemma {:induction false} FirstDigit(n: nat)
    requires n > 0
    ensures Digits(n)[0] != '0'
  {
    if n >= 10 { FirstDigit(n / 10); }
  }

  /** All fields and separators in their places. */
  ghost predicate Laid(s: string, n: nat, p: Stamp) {
    && |s| == n + 16 && Separators(s, n)
    && ReadTwo(s, n + 1) == Some(p.month) && ReadTwo(s, n + 4) == Some(p.day) && ReadTwo(s, n + 7) == Some(p.hour)
    && ReadTwo(s, n + 10) == Some(p.minute) && ReadTwo(s, n + 13) == Some(p.second)
  }

  lemma PrintIsLaid(p: Stamp)
    requires TwoDigitFields(p)
    ensures Laid(Print(p), |Padded(p.year, 4)|, p)
  {
    var s, n := Print(p), |Padded(p.year, 4)|;
    PrintLength(p);
    DateAt(Padded(p.year, 4), p);
    ClockLaid(s, n, p);
  }

  lemma ClockLaid(s: string, n: nat, p: Stamp)
    requires TwoDigitFields(p) && |s| == n + 16 && s[n + 6..] == ClockText(p)
    ensures Marks(s, n + 6, 'T') && Marks(s, n + 9, ':') && Marks(s, n + 12, ':') && Marks(s, n + 15, 'Z')
    ensures ReadTwo(s, n + 7) == Some(p.hour) && ReadTwo(s, n + 10) == Some(p.minute)
    ensures ReadTwo(s, n + 13) == Some(p.second)
  {
    ClockAt(p);
    ClockInside(s, n, s[n + 6..]);
    assert s[n + 6 + 0] == 'T' && s[n + 6 + 3] == ':' && s[n + 6 + 6] == ':' && s[n + 6 + 9] == 'Z';
  }

  lemma ReadLaid(s: string, n: nat, p: Stamp)
    requires Laid(s, n, p) && YearShape(s[..n]) && Value(s[..n]) == p.year
    ensures Read(s) == Some(p)
  {
  }

  /** Reading undoes printing. */
  lemma ReadUndoesPrint(p: Stamp)
    requires TwoDigitFields(p)
    ensures Read(Print(p)) == Some(p)
  {
    PrintIsLaid(p);
    YearTextShape(p.year);
    assert Print(p)[..|Padded(p.year, 4)|] == Padded(p.year, 4);
    ReadLaid(Print(p), |Padded(p.year, 4)|, p);
  }

  // ---------------------------------------------------------------- no other text reads the same

  lemma {:induction false} ValueBound(s: string)
    requires AllDigits(s)
    ensures Value(s) < Pow10(|s|)
    ensures s != [] && s[0] != '0' ==> Value(s) >= Pow10(|s| - 1)
  {
    if s != [] {
      var init := s[..|s| - 1];
      ValueBound(init);
      if s[0] != '0' && |s| > 1 {
        assert init[0] == s[0];
        assert Pow10(|s| - 1) == 10 * Pow10(|s| - 2);
      } else if |s| == 1 {
        assert Pow10(0) == 1 && Value(init) == 0;
      }
    }
  }

  /** A year text is the padded numeral of its value. */
  lemma YearTextUnique(year: string)
    requires YearShape(year)
    ensures year == Padded(Value(year), 4)
  {
    var y, k := Value(year), |year|;
    ValueBound(year);
    DigitsLength(y, k);
    DigitsLength(y, 4);
    if k > 4 {
      DigitsLength(y, k - 1);
    }
    ValueOfPadded(y, 4);
    BeforeIsLess(year, Padded(y, 4));
  }

  lemma TwoDigitsUnique(s: string, at: nat, n: nat)
    requires ReadTwo(s, at) == Some(n)
    ensures n < 100 && s[at..at + 2] == Padded(n, 2)
  {
    TwoDigitText(n);
    SameDigit(s[at], DigitChar(n / 10));
    SameDigit(s[at + 1], DigitChar(n % 10));
  }

  lemma LaidIsPrinted(s: string, n: nat, p: Stamp)
    requires Laid(s, n, p) && s[..n] == Padded(p.year, 4)
    ensures TwoDigitFields(p) && s == Print(p)
  {
    TwoDigitsUnique(s, n + 1, p.month);
    TwoDigitsUnique(s, n + 4, p.day);
    TwoDigitsUnique(s, n + 7, p.hour);
    TwoDigitsUnique(s, n + 10, p.minute);
    TwoDigitsUnique(s, n + 13, p.second);
    CutClock(s, n);
    CutDate(s, n);
    assert s == s[..n] + s[n..];
  }

  lemma CutClock(s: string, n: nat)
    requires |s| == n + 16 && Separators(s, n)
    ensures s[n + 6..] == "T" + (s[n + 7..n + 9] + (":" + (s[n + 10..n + 12] + (":" + (s[n + 13..n + 15] + "Z")))))
  {
  }

  lemma CutDate(s: string, n: nat)
    requires |s| == n + 16 && Separators(s, n)
    ensures s[n..] == "-" + (s[n + 1..n + 3] + ("-" + (s[n + 4..n + 6] + s[n + 6..])))
  {
  }

  /** Whatever reads as a stamp is what the printer makes of it. */
  lemma PrintUndoesRead(s: string)
    requires Read(s).Some?
    ensures TwoDigitFields(Read(s).value) && Print(Read(s).value) == s
  {
    var n, p := |s| - 16, Read(s).value;
    YearTextUnique(s[..n]);
    LaidIsPrinted(s, n, p);
  }

  // ---------------------------------------------------------------- the formatter, on all of u64

  function Fields(secs: u64): Stamp {
    BreakdownIsCalendar(secs);
    var t := Breakdown(secs);
    Stamp(t.year as int, t.month as int, t.day as int, t.hour as int, t.minute as int, t.second as int)
  }

  /** `format_unix_secs_iso`. */
  function Format(secs: u64): string {
    Print(Fields(secs))
  }

  /** Stamp `p` names second `n` after the epoch: the calendar's date and the clock of that day. */
  predicate Names(n: nat, p: Stamp) {
    && TwoDigitFields(p)
    && DateAfter(n / DAY_SECS) == Date(p.year, p.month, p.day)
    && 3600 * p.hour + 60 * p.minute + p.second == n % DAY_SECS
    && p.hour < 24 && p.minute < 60 && p.second < 60
  }

  /** The formatter's fields name the instant, for every `u64`. */
  lemma FieldsName(secs: u64)
    ensures Names(secs as int, Fields(secs))
  {
    BreakdownIsCalendar(secs);
  }

  lemma NamesUnique(n: nat, p: Stamp, q: Stamp)
    requires Names(n, p) && Names(n, q)
    ensures p == q
  {
  }

  /** Main theorem on the text: a text reads, as RFC 3339, as a stamp that names the instant if and only if it is
      the formatted one. */
  lemma FormatExact(secs: u64, s: string)
    ensures Read(s).Some? && Names(secs as int, Read(s).value) <==> s == Format(secs)
  {
    FieldsName(secs);
    ReadUndoesPrint(Fields(secs));
    if Read(s).Some? && Names(secs as int, Read(s).value) {
      PrintUndoesRead(s);
      NamesUnique(secs as int, Read(s).value, Fields(secs));
    }
  }

  /** Later instants have larger stamps. */
  lemma NamesAscend(a: nat, b: nat, p: Stamp, q: Stamp)
    requires Names(a, p) && Names(b, q) && a < b
    ensures Less(p, q)
  {
    if a / DAY_SECS < b / DAY_SECS {
      DatesAscend(a / DAY_SECS, b / DAY_SECS);
    }
  }

  lemma LastDayOf9999(day: nat)
    requires day == 2_932_896
    ensures CivilFromDays(day) == Date(9999, 12, 31)
  {
    CivilAt(day, 24, 399, 305);
  }

  lemma FirstDayOf10000(day: nat)
    requires day == 2_932_897
    ensures CivilFromDays(day) == Date(10_000, 1, 1)
  {
    CivilAt(day, 24, 399, 306);
  }

  lemma DayYear10000(day: nat)
    requires day == 2_932_897
    ensures DateAfter(day - 1) == Date(9999, 12, 31)
    ensures DateAfter(day) == Date(10_000, 1, 1)
  {
    LastDayOf9999(day - 1);
    CivilIsCalendar(day - 1);
    FirstDayOf10000(day);
    CivilIsCalendar(day);
  }

  lemma NamesYear(n: nat, p: Stamp)
    requires Names(n, p)
    ensures p.year < 10_000 <==> n < YEAR_10000
  {
    var day, k := 2_932_897, n / DAY_SECS;
    DayYear10000(day);
    if k < day {
      DatesAscend(k, day);
    } else if k > day {
      DatesAscend(day, k);
    }
  }

  lemma NamesOrder(a: nat, b: nat, p: Stamp, q: Stamp)
    requires Names(a, p) && Names(b, q) && a < b < YEAR_10000
    ensures Before(Print(p), Print(q)) && !Before(Print(q), Print(p))
  {
    NamesAscend(a, b, p, q);
    NamesYear(a, p);
    NamesYear(b, q);
    FourDigitOrder(p, q);
  }

  lemma PrintOrderBreaks(p: Stamp, q: Stamp)
    requires TwoDigitFields(p) && TwoDigitFields(q) && p.year == 9_999 && q.year == 10_000
    ensures !Before(Print(p), Print(q))
  {
    PrintOrder(p, q);
    DigitsLength(9_999, 4);
    DigitsLength(10_000, 4);
    DigitsLength(10_000, 5);
    assert Pow10(1) == 10;
    assert Pow10(4) == 10_000;
    assert Pow10(5) == 100_000;
  }

  /** The text has 20 characters exactly until the end of year 9999. */
  lemma LengthExact(secs: u64)
    ensures |Format(secs)| == 20 <==> secs as int < YEAR_10000
    ensures |Format(secs)| >= 20
  {
    FieldsName(secs);
    NamesYear(secs as int, Fields(secs));
    FourDigitYears(Fields(secs));
  }

  /** Distinct instants print differently, for all of `u64`. */
  lemma FormatInjective(a: u64, b: u64)
    ensures a != b ==> Format(a) != Format(b)
  {
    if b < a {
      FormatInjective(b, a);
    } else if a < b {
      FieldsName(a);
      FieldsName(b);
      NamesAscend(a as int, b as int, Fields(a), Fields(b));
      PrintsDiffer(Fields(a), Fields(b));
    }
  }

  /** Through year 9999 string order is time order. */
  lemma StringOrderIsTimeOrder(a: u64, b: u64)
    requires a as int < YEAR_10000 && b as int < YEAR_10000
    ensures Before(Format(a), Format(b)) <==> a < b
  {
    FieldsName(a);
    if a == b {
      BeforeIrreflexive(Format(a));
    } else {
      FieldsName(b);
      if a < b {
        NamesOrder(a as int, b as int, Fields(a), Fields(b));
      } else {
        NamesOrder(b as int, a as int, Fields(b), Fields(a));
      }
    }
  }

  /** The calendar year of second `n` after the epoch. */
  function YearAt(n: nat): nat {
    DateAfter(n / DAY_SECS).year
  }

  /** Exact condition on all of `u64`: the earlier of two instants prints before the later one exactly
      when its calendar year does not exceed the leading digits of the later year. */
  lemma OrderExact(a: u64, b: u64)
    requires a < b
    ensures Before(Format(a), Format(b)) <==> YearReaches(YearAt(a as int), YearAt(b as int))
  {
    FieldsName(a);
    FieldsName(b);
    NamesAscend(a as int, b as int, Fields(a), Fields(b));
    PrintOrder(Fields(a), Fields(b));
  }

  /** The last second of year 9999 does not print before the first second of year 10000. */
  lemma OrderBreaksAtYear10000()
    ensures !Before(Format(253_402_300_799), Format(253_402_300_800))
  {
    DayYear10000(2_932_897);
    FieldsName(253_402_300_799);
    FieldsName(253_402_300_800);
    PrintOrderBreaks(Fields(253_402_300_799), Fields(253_402_300_800));
  }
}

/** Dates from day numbers (`backend/src/config.rs`, `backend/src/http.rs`). */
module Calendar {
  import opened Bits

  datatype Date = Date(year: int, month: int, day: int)

  // ---- The proleptic Gregorian calendar ----

  predicate IsLeap(y: int) {
    y % 4 == 0 && (y % 100 != 0 || y % 400 == 0)
  }

  function DaysInMonth(y: int, m: int): int {
    if m == 2 then (if IsLeap(y) then 29 else 28)
    else if m == 4 || m == 6 || m == 9 || m == 11 then 30
    else 31
  }

  predicate IsDate(d: Date) {
    1 <= d.month <= 12 && 1 <= d.day <= DaysInMonth(d.year, d.month)
  }

  function DaysInYear(y: int): int {
    if IsLeap(y) then 366 else 365
  }

  /** Days from 1 January 1970 to 1 January of a year, one year's length at a time. */
  function DaysBeforeYear(y: int): int
    decreases if y >= 1970 then y - 1970 else 1970 - y
  {
    if y == 1970 then 0
    else if y > 1970 then DaysBeforeYear(y - 1) + DaysInYear(y - 1)
    else DaysBeforeYear(y + 1) - DaysInYear(y)
  }

  /** Days from 1 January to the first of a month. */
  function DaysBeforeMonth(y: int, m: int): int
    requires 1 <= m <= 12
  {
    if m == 1 then 0 else DaysBeforeMonth(y, m - 1) + DaysInMonth(y, m - 1)
  }

  /** Days from 1 January 1970, counted by the calendar. */
  function DayNumber(d: Date): int
    requires IsDate(d)
  {
    DaysBeforeYear(d.year) + DaysBeforeMonth(d.year, d.month) + d.day - 1
  }

  function NextDay(d: Date): Date {
    if d.day < DaysInMonth(d.year, d.month) then Date(d.year, d.month, d.day + 1)
    else if d.month < 12 then Date(d.year, d.month + 1, 1)
    else Date(d.year + 1, 1, 1)
  }

  predicate Earlier(a: Date, b: Date) {
    || a.year < b.year
    || (a.year == b.year && (a.month < b.month || (a.month == b.month && a.day < b.day)))
  }

  // ---- The closed forms in the program ----

  const EPOCH_SHIFT: int := 719_468
  const ERA: int := 146_097

  /** `civil_from_days` in `http.rs`. */
  function CivilFromDays(z: int): Date {
    var z' := z + EPOCH_SHIFT;
    var era := z' / ERA;
    var doe := z' % ERA;
    var yoe := (doe - doe / 1460 + doe / 36_524 - doe / 146_096) / 365;
    var y := yoe + era * 400;
    var doy := doe - (365 * yoe + yoe / 4 - yoe / 100);
    var mp := (5 * doy + 2) / 153;
    var d := doy - (153 * mp + 2) / 5 + 1;
    var m := if mp < 10 then mp + 3 else mp - 9;
    Date(if m <= 2 then y + 1 else y, m, d)
  }

  /** The copy in `config.rs`, which narrows the month and the day to 32 unsigned bits. */
  function CivilFromDaysNarrow(z: int): Date {
    var z' := z + EPOCH_SHIFT;
    var era := z' / ERA;
    var doe := z' % ERA;
    var yoe := (doe - doe / 1460 + doe / 36_524 - doe / 146_096) / 365;
    var y := yoe + era * 400;
    var doy := doe - (365 * yoe + yoe / 4 - yoe / 100);
    var mp := (5 * doy + 2) / 153;
    var d := AsU32(doy - (153 * mp + 2) / 5 + 1);
    var m := AsU32(if mp < 10 then mp + 3 else mp - 9);
    Date(if m <= 2 then y + 1 else y, m, d)
  }

  /** `as u32`. */
  function AsU32(x: int): u32 {
    x % 0x1_0000_0000
  }

  /** The year of the era, counted from March. */
  function YearOfEra(doe: int): int {
    (doe - doe / 1460 + doe / 36_524 - doe / 146_096) / 365
  }

  /** The day of the era on which its year `k` starts. */
  function YearStart(k: int): int {
    365 * k + k / 4 - k / 100
  }

  function MonthIndex(doy: int): int {
    (5 * doy + 2) / 153
  }

  function MonthStart(mp: int): int {
    (153 * mp + 2) / 5
  }

  /** Leap days of the years 1 .. n. */
  function LeapDays(n: int): int {
    n / 4 - n / 100 + n / 400
  }

  lemma LeapDaysStep(n: int)
    ensures LeapDays(n) - LeapDays(n - 1) == if IsLeap(n) then 1 else 0
  {
    StepDiv(n, 4);
    StepDiv(n, 100);
    StepDiv(n, 400);
    MultiplesOfFour(n);
  }

  lemma MultiplesOfFour(n: int)
    ensures n % 100 == 0 ==> n % 4 == 0
    ensures n % 400 == 0 ==> n % 100 == 0
  {
    if n % 100 == 0 {
      DivModUnique(n, 4, 25 * (n / 100), 0);
    }
    if n % 400 == 0 {
      DivModUnique(n, 100, 4 * (n / 400), 0);
    }
  }

  lemma StepDiv(n: int, k: int)
    requires k > 1
    ensures n / k - (n - 1) / k == if n % k == 0 then 1 else 0
  {
    var q, r := n / k, n % k;
    assert n == q * k + r;
    if r == 0 {
      assert n - 1 == (q - 1) * k + (k - 1);
      DivModUnique(n - 1, k, q - 1, k - 1);
    } else {
      DivModUnique(n - 1, k, q, r - 1);
    }
  }

  lemma {:induction false} DaysBeforeYearClosed(y: int)
    ensures DaysBeforeYear(y) == 365 * (y - 1970) + LeapDays(y - 1) - 477
    decreases if y >= 1970 then y - 1970 else 1970 - y
  {
    if y > 1970 {
      DaysBeforeYearClosed(y - 1);
      LeapDaysStep(y - 1);
    } else if y < 1970 {
      DaysBeforeYearClosed(y + 1);
      LeapDaysStep(y);
    }
  }

  // ---- The year ----

  /** Within one century of an era the closed form counts whole years. */
  lemma YearWithinCentury(c: int, q: int, s: int)
    requires 0 <= c <= 3 && 0 <= q <= 24 && 0 <= s <= 1460
    requires q == 24 ==> s < 1460
    ensures YearOfEra(36_524 * c + 1461 * q + s) == 100 * c + 4 * q + (if s == 1460 then 3 else s / 365)
  {
    var r := 1461 * q + s;
    var doe := 36_524 * c + r;
    assert 0 <= r < 36_524;
    DivModUnique(doe, 36_524, c, r);
    assert doe / 146_096 == 0;
    var e := if 24 * c + q + s >= 1460 then 1 else 0;
    DivModUnique(doe, 1460, 25 * c + q + e, 24 * c + q + s - 1460 * e);
    var k := if s == 1460 then 3 else s / 365;
    DivModUnique(doe - doe / 1460 + c, 365, 100 * c + 4 * q + k, s - e - 365 * k);
  }

  /** The day falls in the year the closed form gives. */
  lemma YearOfEraIsRight(doe: int)
    requires 0 <= doe < ERA
    ensures var k := YearOfEra(doe);
            && 0 <= k < 400 && YearStart(k) <= doe
            && doe - YearStart(k) <= 365
            && (doe - YearStart(k) == 365 ==> IsLeap(k + 1))
  {
    var c := doe / 36_524;
    if c < 4 {
      CenturyDay(c, doe % 36_524);
    } else {
      LastDayOfEra();
    }
    hide YearOfEra, YearStart, IsLeap;
  }

  lemma LastDayOfEra()
    ensures YearOfEra(146_096) == 399 && YearStart(399) == 145_731 && IsLeap(400)
  {
  }

  lemma CenturyDay(c: int, r: int)
    requires 0 <= c <= 3 && 0 <= r < 36_524
    ensures var doe := 36_524 * c + r;
            var k := YearOfEra(doe);
            && 0 <= k < 400 && 0 <= doe - YearStart(k) <= 365
            && (doe - YearStart(k) == 365 ==> IsLeap(k + 1))
  {
    var q, s := r / 1461, r % 1461;
    YearWithinCentury(c, q, s);
    var k := if s == 1460 then 3 else s / 365;
    CenturyYears(c, q, k);
    hide YearOfEra, YearStart;
  }

  lemma CenturyYears(c: int, q: int, k: int)
    requires 0 <= c <= 3 && 0 <= q <= 24 && 0 <= k <= 3
    ensures YearStart(100 * c + 4 * q + k) == 36_524 * c + 1461 * q + 365 * k
    ensures k == 3 && q < 24 ==> IsLeap(100 * c + 4 * q + k + 1)
  {
    var y := 100 * c + 4 * q + k;
    DivModUnique(y, 4, 25 * c + q, k);
    DivModUnique(y, 100, c, 4 * q + k);
    if k == 3 && q < 24 {
      DivModUnique(y + 1, 4, 25 * c + q + 1, 0);
      DivModUnique(y + 1, 100, c, 4 * q + 4);
    }
  }

  // ---- The month ----

  /** Months counted from March start where the closed form says. */
  lemma MonthIsRight(doy: int)
    requires 0 <= doy <= 365
    ensures var mp := MonthIndex(doy);
            0 <= mp <= 11 && MonthStart(mp) <= doy < (if mp == 11 then 366 else MonthStart(mp + 1))
  {
  }

  /** From March on, the days before a month are those of the closed form. */
  lemma MonthsFromMarch(y: int, mp: int)
    requires 0 <= mp <= 11
    ensures mp < 10 ==> DaysBeforeMonth(y, mp + 3) == (if IsLeap(y) then 60 else 59) + MonthStart(mp)
    ensures mp < 10 ==> DaysInMonth(y, mp + 3) == MonthStart(mp + 1) - MonthStart(mp)
    ensures mp >= 10 ==> DaysBeforeMonth(y, mp - 9) == MonthStart(mp) - 306
    ensures mp == 10 ==> DaysInMonth(y, 1) == MonthStart(11) - MonthStart(10)
  {
    FirstMonths(y);
    LaterMonths(y);
  }

  lemma FirstMonths(y: int)
    ensures DaysBeforeMonth(y, 1) == 0 && DaysBeforeMonth(y, 2) == 31
    ensures DaysBeforeMonth(y, 3) == if IsLeap(y) then 60 else 59
  {
    assert DaysBeforeMonth(y, 2) == 31;
  }

  lemma LaterMonths(y: int)
    ensures var f := DaysBeforeMonth(y, 3);
            && DaysBeforeMonth(y, 4) == f + 31 && DaysBeforeMonth(y, 5) == f + 61 && DaysBeforeMonth(y, 6) == f + 92
            && DaysBeforeMonth(y, 7) == f + 122 && DaysBeforeMonth(y, 8) == f + 153 && DaysBeforeMonth(y, 9) == f + 184
            && DaysBeforeMonth(y, 10) == f + 214 && DaysBeforeMonth(y, 11) == f + 245
            && DaysBeforeMonth(y, 12) == f + 275
  {
    var f := DaysBeforeMonth(y, 3);
    assert DaysBeforeMonth(y, 5) == f + 61;
    assert DaysBeforeMonth(y, 7) == f + 122;
    assert DaysBeforeMonth(y, 9) == f + 184;
    assert DaysBeforeMonth(y, 11) == f + 245;
  }

  // ---- The date ----

  lemma CivilUnfolded(z: int, era: int, doe: int, y: int, doy: int, mp: int)
    requires era == (z + EPOCH_SHIFT) / ERA && doe == (z + EPOCH_SHIFT) % ERA
    requires y == YearOfEra(doe) + era * 400 && doy == doe - YearStart(YearOfEra(doe)) && mp == MonthIndex(doy)
    ensures CivilFromDays(z)
            == Date(if mp < 10 then y else y + 1, if mp < 10 then mp + 3 else mp - 9, doy - MonthStart(mp) + 1)
    ensures z + EPOCH_SHIFT == ERA * era + doe
  {
    DayInRange(doe);
    MonthIsRight(doy);
    hide YearOfEra, YearStart, MonthIndex, MonthStart;
  }

  lemma DayInRange(doe: int)
    requires 0 <= doe < ERA
    ensures 0 <= doe - YearStart(YearOfEra(doe)) <= 365
  {
    hide YearStart, YearOfEra;
    YearOfEraIsRight(doe);
  }

  /** The parts the closed form goes through. */
  lemma CivilParts(z: int) returns (y: int, doy: int)
    ensures 0 <= doy <= 365 && (doy == 365 ==> IsLeap(y + 1))
    ensures z + EPOCH_SHIFT == 365 * y + LeapDays(y) + doy
    ensures var mp := MonthIndex(doy);
            CivilFromDays(z)
            == Date(if mp < 10 then y else y + 1, if mp < 10 then mp + 3 else mp - 9, doy - MonthStart(mp) + 1)
  {
    hide LeapDays, YearOfEra, CivilFromDays, MonthIndex, MonthStart, IsLeap;
    var era, doe := (z + EPOCH_SHIFT) / ERA, (z + EPOCH_SHIFT) % ERA;
    var yoe := YearOfEra(doe);
    YearOfEraIsRight(doe);
    doy := doe - YearStart(yoe);
    y := yoe + era * 400;
    EraYears(yoe, era);
    CivilUnfolded(z, era, doe, y, doy, MonthIndex(doy));
  }

  lemma CivilCounts(y: int, doy: int)
    requires 0 <= doy <= 365 && (doy == 365 ==> IsLeap(y + 1))
    ensures var mp := MonthIndex(doy);
            var d := Date(if mp < 10 then y else y + 1, if mp < 10 then mp + 3 else mp - 9, doy - MonthStart(mp) + 1);
            IsDate(d) && DayNumber(d) == 365 * y + LeapDays(y) + doy - EPOCH_SHIFT
  {
    var mp := MonthIndex(doy);
    MonthIsRight(doy);
    var y' := if mp < 10 then y else y + 1;
    MonthsFromMarch(y', mp);
    DaysBeforeYearClosed(y');
    LeapDaysStep(y);
    hide LeapDays, MonthIndex, DaysBeforeYear, IsLeap;
  }

  /** Every day number yields a date of the calendar, and the calendar counts that date to the same number. */
  lemma CivilIsTheDate(z: int)
    ensures IsDate(CivilFromDays(z)) && DayNumber(CivilFromDays(z)) == z
  {
    var y, doy := CivilParts(z);
    CivilCounts(y, doy);
    hide CivilFromDays, IsDate, DayNumber, LeapDays, MonthIndex;
  }

  lemma EraYears(yoe: int, era: int)
    requires 0 <= yoe < 400
    ensures LeapDays(yoe + era * 400) == yoe / 4 - yoe / 100 + 97 * era
    ensures IsLeap(yoe + era * 400 + 1) == IsLeap(yoe + 1)
  {
    var y := yoe + era * 400;
    DivModUnique(y, 4, yoe / 4 + 100 * era, yoe % 4);
    DivModUnique(y, 100, yoe / 100 + 4 * era, yoe % 100);
    DivModUnique(y, 400, era, yoe);
    ShiftMod(yoe + 1, era * 100, 4);
    ShiftMod(yoe + 1, era * 4, 100);
    ShiftMod(yoe + 1, era, 400);
  }

  lemma ShiftMod(n: int, t: int, k: int)
    requires k > 0
    ensures (n + t * k) % k == n % k
  {
    DivModUnique(n + t * k, k, n / k + t, n % k);
  }

  // ---- One date to a number ----

  lemma NextDayCounts(d: Date)
    requires IsDate(d)
    ensures IsDate(NextDay(d)) && DayNumber(NextDay(d)) == DayNumber(d) + 1
  {
    if d.day == DaysInMonth(d.year, d.month) && d.month == 12 {
      YearLength(d.year);
      assert DaysBeforeMonth(d.year + 1, 1) == 0;
      hide DaysBeforeYear, IsLeap, DaysBeforeMonth;
    } else {
      hide DaysBeforeYear, IsLeap;
    }
  }

  lemma YearLength(y: int)
    ensures DaysBeforeYear(y + 1) == DaysBeforeYear(y) + DaysBeforeMonth(y, 12) + 31
  {
    DaysBeforeYearClosed(y);
    DaysBeforeYearClosed(y + 1);
    LeapDaysStep(y);
    FirstMonths(y);
    LaterMonths(y);
    hide DaysBeforeYear, DaysBeforeMonth, LeapDays;
  }

  lemma {:induction false} LaterYears(a: int, b: int)
    requires a < b
    ensures DaysBeforeYear(a) + DaysInYear(a) <= DaysBeforeYear(b)
    decreases b - a
  {
    DaysBeforeYearClosed(b - 1);
    DaysBeforeYearClosed(b);
    LeapDaysStep(b - 1);
    if a < b - 1 {
      LaterYears(a, b - 1);
    }
  }

  lemma {:induction false} LaterMonth(y: int, a: int, b: int)
    requires 1 <= a < b <= 12
    ensures DaysBeforeMonth(y, a) + DaysInMonth(y, a) <= DaysBeforeMonth(y, b)
    decreases b - a
  {
    if a < b - 1 {
      LaterMonth(y, a, b - 1);
    }
  }

  lemma WithinYear(d: Date)
    requires IsDate(d)
    ensures 0 <= DaysBeforeMonth(d.year, d.month) + d.day - 1 < DaysInYear(d.year)
  {
    FirstMonths(d.year);
    LaterMonths(d.year);
  }

  /** The calendar counts later dates to larger numbers. */
  lemma DayNumberIsMonotone(a: Date, b: Date)
    requires IsDate(a) && IsDate(b) && Earlier(a, b)
    ensures DayNumber(a) < DayNumber(b)
  {
    if a.year < b.year {
      LaterYears(a.year, b.year);
      WithinYear(a);
      WithinYear(b);
    } else if a.month < b.month {
      LaterMonth(a.year, a.month, b.month);
    }
  }

  /** `civil_from_days` is a bijection from day numbers to dates, with the calendar's count as inverse. */
  lemma CivilIsBijective(d: Date)
    requires IsDate(d)
    ensures forall z :: CivilFromDays(z) == d <==> z == DayNumber(d)
  {
    hide CivilFromDays, DayNumber, IsDate;
    var c := CivilFromDays(DayNumber(d));
    CivilIsTheDate(DayNumber(d));
    if c != d {
      if Earlier(c, d) {
        DayNumberIsMonotone(c, d);
      } else {
        DayNumberIsMonotone(d, c);
      }
    }
    forall z
      ensures CivilFromDays(z) == d <==> z == DayNumber(d)
    {
      CivilIsTheDate(z);
    }
  }

  /** Each day is followed by the calendar's next day, for every day number, and day 0 is 1 January 1970. */
  lemma CivilSuccessor(z: int)
    ensures CivilFromDays(z + 1) == NextDay(CivilFromDays(z))
    ensures CivilFromDays(0) == Date(1970, 1, 1)
  {
    EpochIsDayZero();
    hide CivilFromDays, DayNumber, IsDate, NextDay;
    CivilIsTheDate(z);
    NextDayCounts(CivilFromDays(z));
    CivilIsBijective(NextDay(CivilFromDays(z)));
  }

  lemma EpochIsDayZero()
    ensures CivilFromDays(0) == Date(1970, 1, 1)
  {
    assert EPOCH_SHIFT / ERA == 4 && EPOCH_SHIFT % ERA == 135_080;
    assert 135_080 / 1460 == 92 && 135_080 / 36_524 == 3 && 135_080 / 146_096 == 0 && 134_991 / 365 == 369;
    assert 369 / 4 == 92 && 369 / 100 == 3 && 1532 / 153 == 10 && 1532 / 5 == 306;
  }

  /** Later day numbers are later dates. */
  lemma CivilIsMonotone(z: int, w: int)
    requires z < w
    ensures Earlier(CivilFromDays(z), CivilFromDays(w))
  {
    hide CivilFromDays, DayNumber, IsDate;
    CivilIsTheDate(z);
    CivilIsTheDate(w);
    var a, b := CivilFromDays(z), CivilFromDays(w);
    if !Earlier(a, b) && a != b {
      DayNumberIsMonotone(b, a);
    }
  }

  /** The two copies agree: no month or day is lost in the narrowing. */
  lemma CopiesAgree(z: int)
    ensures CivilFromDaysNarrow(z) == CivilFromDays(z)
  {
    CivilIsTheDate(z);
    var d := CivilFromDays(z);
    Narrow(d.month);
    Narrow(d.day);
    hide DayNumber, AsU32, IsDate;
  }

  lemma Narrow(x: int)
    requires 0 <= x < 0x1_0000_0000
    ensures AsU32(x) == x
  {
  }

  // ---- Time of day ----

  datatype Stamp = Stamp(date: Date, hour: int, minute: int, second: int, millis: int)

  /** The fields `iso_from_ms` prints. */
  function IsoFields(ms: int): Stamp {
    var rem := ms % 86_400_000;
    var secs := rem / 1000;
    Stamp(CivilFromDaysNarrow(ms / 86_400_000), secs / 3600, secs % 3600 / 60, secs % 60, rem % 1000)
  }

  /** The moment a stamp names, counted by the calendar and the clock. */
  function Moment(s: Stamp): int
    requires IsDate(s.date)
  {
    86_400_000 * DayNumber(s.date) + 3_600_000 * s.hour + 60_000 * s.minute + 1000 * s.second + s.millis
  }

  /** The printed fields are those of a calendar date and a clock, and they name the moment given. */
  lemma IsoNamesTheMoment(ms: int)
    ensures var s := IsoFields(ms);
            && IsDate(s.date) && 0 <= s.hour < 24 && 0 <= s.minute < 60 && 0 <= s.second < 60 && 0 <= s.millis < 1000
            && Moment(s) == ms
  {
    hide CivilFromDays, CivilFromDaysNarrow, DayNumber, IsDate;
    CopiesAgree(ms / 86_400_000);
    CivilIsTheDate(ms / 86_400_000);
  }

  /** The fields `http_date` prints for a time in seconds, with the index of the weekday from Sunday. */
  function HttpFields(secs: int): (Stamp, int) {
    var t := if secs < 0 then 0 else secs;
    var days, rem := t / 86_400, t % 86_400;
    (Stamp(CivilFromDays(days), rem / 3600, rem % 3600 / 60, rem % 60, 0), (days + 4) % 7)
  }

  /** 1 January 1970 was a Thursday. */
  lemma HttpNamesTheMoment(secs: int)
    requires secs >= 0
    ensures var (s, weekday) := HttpFields(secs);
            && IsDate(s.date) && 0 <= s.hour < 24 && 0 <= s.minute < 60 && 0 <= s.second < 60
            && Moment(s) == 1000 * secs
            && weekday == (DayNumber(s.date) - DayNumber(Date(1970, 1, 1)) + 4) % 7
  {
    EpochIsDayZero();
    hide CivilFromDays, DayNumber, IsDate, Moment;
    CivilIsTheDate(0);
    CivilIsTheDate(secs / 86_400);
    ClockSplits(secs % 86_400);
    MomentOf(HttpFields(secs).0, secs / 86_400, secs % 86_400);
  }

  lemma MomentOf(s: Stamp, days: int, rem: int)
    requires IsDate(s.date) && DayNumber(s.date) == days && s.millis == 0
    requires 3600 * s.hour + 60 * s.minute + s.second == rem
    ensures Moment(s) == 1000 * (86_400 * days + rem)
  {
    hide DayNumber, IsDate;
  }

  lemma ClockSplits(rem: int)
    requires 0 <= rem < 86_400
    ensures 0 <= rem / 3600 < 24 && 0 <= rem % 3600 / 60 < 60
    ensures 3600 * (rem / 3600) + 60 * (rem % 3600 / 60) + rem % 60 == rem
  {
    var r := rem % 3600;
    assert rem % 60 == r % 60;
  }
}

/**
  FILETIME ticks and Gregorian fields (WinPort/src/APITime.cpp).

  Both conversions are closed formulas over magic constants. The reference they are proved
  against counts days one at a time from 1 January 1601.
  */
module Calendar {
  import opened Wrappers

  const TICKS_PER_SEC := 10000000
  const TICKS_PER_MSEC := 10000
  const SECS_PER_DAY := 86400
  const SECS_PER_HOUR := 3600
  const SECS_PER_MIN := 60
  const EPOCH_WEEKDAY := 1
  const DAYS_PER_WEEK := 7
  const DAYS_PER_QUADRICENTENNIUM := 365 * 400 + 97
  const DAYS_PER_NORMAL_QUADRENNIUM := 365 * 4 + 1

  const TWO_TO_THE_31 := 0x8000_0000
  const TWO_TO_THE_32 := 0x1_0000_0000
  const TWO_TO_THE_63 := 0x8000_0000_0000_0000
  const TWO_TO_THE_64 := 0x1_0000_0000_0000_0000

  // The last whole year whose ticks fit a signed 64-bit integer.
  const LAST_YEAR := 30827

  // The last year, counted from March, for which 36525 * year fits a signed 32-bit integer.
  const LAST_INT_YEAR := 58794

  const MONTH_LENGTHS := [
    [31, 28, 31, 30, 31, 30, 31, 31, 30, 31, 30, 31],
    [31, 29, 31, 30, 31, 30, 31, 31, 30, 31, 30, 31]
  ]

  datatype SystemTime = SystemTime(
    year: nat, month: nat, dayOfWeek: nat, day: nat,
    hour: nat, minute: nat, second: nat, milliseconds: nat)

  // The 64-bit tick count, split into two unsigned 32-bit halves.
  datatype FileTime = FileTime(low: nat, high: nat)

  predicate IsLeapYear(year: nat) {
    year % 4 == 0 && (year % 100 != 0 || year % 400 == 0)
  }

  function MonthLength(longFebruary: bool, month: nat): (length: nat)
    requires 1 <= month <= 12
    ensures 28 <= length <= 31
  {
    MONTH_LENGTHS[if longFebruary then 1 else 0][month - 1]
  }

  // ---------------------------------------------------------------------------------
  // The code
  // ---------------------------------------------------------------------------------

  // The validator. February is always looked up in the leap-year row.
  predicate Accepts(st: SystemTime) {
    && st.milliseconds <= 999
    && st.second <= 59
    && st.minute <= 59
    && st.hour <= 23
    && 1 <= st.month <= 12
    && 1 <= st.day <= MonthLength(st.month == 2 || IsLeapYear(st.year), st.month)
    && 1601 <= st.year
  }

  function ClosedFormDay(year: nat, month: nat, day: nat): int {
    var (m, y) := if month < 3 then (month + 13, year - 1) else (month + 1, year);
    var cleaps := (3 * (y / 100) + 3) / 4;
    (36525 * y) / 100 - cleaps + (1959 * m) / 64 + day - 584817
  }

  function TicksOfFields(st: SystemTime): int {
    var day := ClosedFormDay(st.year, st.month, st.day);
    ((((day * 24 + st.hour) * 60 + st.minute) * 60 + st.second) * 1000 + st.milliseconds) * TICKS_PER_MSEC
  }

  // A signed 32-bit integer that wraps around, which C++ leaves undefined.
  function AsInt(x: int): int {
    (x + TWO_TO_THE_31) % TWO_TO_THE_32 - TWO_TO_THE_31
  }

  // Division of the language, toward zero.
  function Quotient(a: int, b: nat): int
    requires b > 0
  {
    if a >= 0 then a / b else -(-a / b)
  }

  // The day as the program computes it, in ints.
  function IntDay(year: nat, month: nat, day: nat): int {
    var (m, y) := if month < 3 then (month + 13, year - 1) else (month + 1, year);
    var cleaps := (3 * (y / 100) + 3) / 4;
    Quotient(AsInt(36525 * y), 100) - cleaps + (1959 * m) / 64 + day - 584817
  }

  // liTime.QuadPart, its 64 bits read without a sign.
  function QuadPart(st: SystemTime): (ticks: nat)
    ensures ticks < TWO_TO_THE_64
  {
    var day := IntDay(st.year, st.month, st.day);
    var milliseconds := (((day * 24 + st.hour) * 60 + st.minute) * 60 + st.second) * 1000 + st.milliseconds;
    milliseconds * TICKS_PER_MSEC % TWO_TO_THE_64
  }

  function Split(ticks: int): FileTime
    requires 0 <= ticks < TWO_TO_THE_64
  {
    FileTime(ticks % TWO_TO_THE_32, ticks / TWO_TO_THE_32)
  }

  function Join(ft: FileTime): nat {
    ft.high * TWO_TO_THE_32 + ft.low
  }

  predicate IsFileTime(ft: FileTime) {
    ft.low < TWO_TO_THE_32 && ft.high < TWO_TO_THE_32
  }

  // The product for the year fits an int.
  predicate DayFits(st: SystemTime) {
    (if st.month < 3 then st.year - 1 else st.year) <= LAST_INT_YEAR
  }

  function SystemTimeToFileTime(st: SystemTime): (r: Option<FileTime>)
    ensures r.Some? <==> Accepts(st)
    ensures r.Some? ==> IsFileTime(r.value)
    ensures r.Some? && st.year < 0x1_0000 ==> (Join(r.value) == TicksOfFields(st) <==> DayFits(st))
  {
    if Accepts(st) then
      QuadPartExactlyWhen(st);
      Some(Split(QuadPart(st)))
    else
      None
  }

  // Year, month and day of a day number.
  function DateOfDay(day: nat): (int, int, int) {
    var cleaps := (3 * ((4 * day + 1227) / DAYS_PER_QUADRICENTENNIUM) + 3) / 4;
    var days := day + 28188 + cleaps;
    var years := (20 * days - 2442) / (5 * DAYS_PER_NORMAL_QUADRENNIUM);
    DateOfMarchDay(years, days - (years * DAYS_PER_NORMAL_QUADRENNIUM) / 4)
  }

  // The result is based on a year starting on March.
  function DateOfMarchDay(years: int, yearday: int): (int, int, int) {
    var months := (64 * yearday) / 1959;
    var dayOfMonth := yearday - (1959 * months) / 64;
    if months < 14 then (years + 1524, months - 1, dayOfMonth)
    else (years + 1525, months - 13, dayOfMonth)
  }

  function AsWord(x: int): nat { x % 0x1_0000 }

  function FieldsOfTicks(ticks: nat): SystemTime {
    var time := ticks / TICKS_PER_SEC;
    var days := time / SECS_PER_DAY;
    Fields(DateOfDay(days), (EPOCH_WEEKDAY + days) % DAYS_PER_WEEK,
           time % SECS_PER_DAY, ticks % TICKS_PER_SEC / TICKS_PER_MSEC)
  }

  function Fields(date: (int, int, int), weekday: nat, secondsInDay: nat, milliseconds: nat): SystemTime {
    SystemTime(
      AsWord(date.0), AsWord(date.1), AsWord(weekday), AsWord(date.2),
      AsWord(secondsInDay / SECS_PER_HOUR),
      AsWord(secondsInDay % SECS_PER_HOUR / SECS_PER_MIN),
      AsWord(secondsInDay % SECS_PER_HOUR % SECS_PER_MIN),
      AsWord(milliseconds))
  }

  function FileTimeToSystemTime(ft: FileTime): SystemTime
    requires IsFileTime(ft)
  {
    FieldsOfTicks(Join(ft))
  }

  // None stands for a null pointer.
  function CompareFileTime(a: Option<FileTime>, b: Option<FileTime>): int {
    if a.Some? && b.None? then 1
    else if a.None? && b.Some? then -1
    else if a.None? && b.None? then 0
    else if a.value.high > b.value.high then 1
    else if a.value.high < b.value.high then -1
    else if a.value.low > b.value.low then 1
    else if a.value.low < b.value.low then -1
    else 0
  }

  // ---------------------------------------------------------------------------------
  // The reference: counting days
  // ---------------------------------------------------------------------------------

  datatype Date = Date(year: nat, month: nat, day: nat)

  predicate ValidDate(d: Date) {
    1601 <= d.year && 1 <= d.month <= 12 && 1 <= d.day <= MonthLength(IsLeapYear(d.year), d.month)
  }

  predicate ValidTime(st: SystemTime) {
    st.hour <= 23 && st.minute <= 59 && st.second <= 59 && st.milliseconds <= 999
  }

  function DateOf(st: SystemTime): Date {
    Date(st.year, st.month, st.day)
  }

  function Tomorrow(d: Date): Date
    requires ValidDate(d)
  {
    if d.day < MonthLength(IsLeapYear(d.year), d.month) then Date(d.year, d.month, d.day + 1)
    else if d.month < 12 then Date(d.year, d.month + 1, 1)
    else Date(d.year + 1, 1, 1)
  }

  // The date n days after 1 January 1601.
  function DateAfter(n: nat): (d: Date)
    ensures ValidDate(d)
  {
    if n == 0 then Date(1601, 1, 1) else Tomorrow(DateAfter(n - 1))
  }

  // 1 January 1601 was a Monday.
  function WeekdayAfter(n: nat): nat {
    if n == 0 then 1 else if WeekdayAfter(n - 1) == 6 then 0 else WeekdayAfter(n - 1) + 1
  }

  function DaysBeforeYear(year: nat): nat {
    if year <= 1601 then 0
    else DaysBeforeYear(year - 1) + if IsLeapYear(year - 1) then 366 else 365
  }

  function DaysBeforeMonth(leap: bool, month: nat): nat
    requires month <= 12
  {
    if month <= 1 then 0 else DaysBeforeMonth(leap, month - 1) + MonthLength(leap, month - 1)
  }

  // The number of days from 1 January 1601 to d.
  function CountDays(d: Date): nat
    requires ValidDate(d)
  {
    DaysBeforeYear(d.year) + DaysBeforeMonth(IsLeapYear(d.year), d.month) + d.day - 1
  }

  // Each divisor gains one exactly when the year is its multiple.
  lemma LeapStep(n: nat)
    requires n >= 1
    ensures n / 4 == (n - 1) / 4 + if n % 4 == 0 then 1 else 0
    ensures n / 100 == (n - 1) / 100 + if n % 100 == 0 then 1 else 0
    ensures n / 400 == (n - 1) / 400 + if n % 400 == 0 then 1 else 0
    ensures n % 400 == 0 ==> n % 100 == 0
    ensures n % 100 == 0 ==> n % 4 == 0
  {
  }

  function LeapsThrough(year: nat): int {
    year / 4 - year / 100 + year / 400
  }

  lemma LeapsThroughStep(year: nat)
    requires year >= 1
    ensures LeapsThrough(year) == LeapsThrough(year - 1) + if IsLeapYear(year) then 1 else 0
  {
    LeapStep(year);
  }

  lemma {:induction false} YearFormula(year: nat)
    requires year >= 1601
    ensures DaysBeforeYear(year) == 365 * (year - 1601) + LeapsThrough(year - 1) - 388
  {
    if year > 1601 {
      YearFormula(year - 1);
      LeapsThroughStep(year - 1);
    }
  }

  // The closed form counts leap days by quarters of 36525 and a correction per century.
  lemma YearTerm(y: nat)
    ensures (36525 * y) / 100 - (3 * (y / 100) + 3) / 4 == 365 * y + LeapsThrough(y)
  {
    assert (36525 * y) / 100 == 365 * y + y / 4;
    var c := y / 100;
    assert (3 * c + 3) / 4 == c - c / 4;
    assert c / 4 == y / 400;
  }

  // INT(n * 30.6) reproduces the lengths of March to December.
  lemma MonthTermStep(leap: bool, month: nat)
    requires 4 <= month <= 12
    ensures (1959 * (month + 1)) / 64 == (1959 * month) / 64 + MonthLength(leap, month - 1)
  {
  }

  lemma {:induction false} MonthFormula(leap: bool, month: nat)
    requires 1 <= month <= 12
    ensures DaysBeforeMonth(leap, month) ==
            if month == 1 then 0 else if month == 2 then 31
            else (1959 * (month + 1)) / 64 - 63 + if leap then 1 else 0
  {
    if month == 3 {
      assert DaysBeforeMonth(leap, 2) == 31;
    } else if month > 3 {
      MonthFormula(leap, month - 1);
      MonthTermStep(leap, month);
    }
  }

  // Years counted from March: the day of such a year, from 123 (1 March) to 488 (29 February).
  function MarchDay(month: nat, day: nat): nat {
    (1959 * (if month < 3 then month + 13 else month + 1)) / 64 + day
  }

  function MarchYear(year: nat, month: nat): nat
    requires year >= 1
  {
    if month < 3 then year - 1 else year
  }

  lemma ClosedFormByYear(d: Date)
    requires ValidDate(d)
    ensures ClosedFormDay(d.year, d.month, d.day) ==
            365 * MarchYear(d.year, d.month) + LeapsThrough(MarchYear(d.year, d.month)) +
            MarchDay(d.month, d.day) - 584817
  {
    YearTerm(MarchYear(d.year, d.month));
  }

  // The closed formula counts days.
  lemma ClosedFormCountsDays(d: Date)
    requires ValidDate(d)
    ensures ClosedFormDay(d.year, d.month, d.day) == CountDays(d)
  {
    ClosedFormByYear(d);
    YearFormula(d.year);
    MonthFormula(IsLeapYear(d.year), d.month);
    LeapsThroughStep(d.year);
  }

  // ---------------------------------------------------------------------------------
  // Inverting the closed form
  // ---------------------------------------------------------------------------------

  lemma MarchDayRange(d: Date)
    requires ValidDate(d)
    ensures 123 <= MarchDay(d.month, d.day) <= 488
    ensures MarchDay(d.month, d.day) == 488 ==> IsLeapYear(MarchYear(d.year, d.month) + 1)
    ensures (64 * MarchDay(d.month, d.day)) / 1959 == if d.month < 3 then d.month + 13 else d.month + 1
  {
  }

  lemma LeapsByCentury(c: nat, r: nat)
    requires r < 100
    ensures LeapsThrough(100 * c + r) == 25 * c + r / 4 - c + c / 4
  {
    var y := 100 * c + r;
    assert y / 4 == 25 * c + r / 4;
    assert y / 100 == c;
    assert y / 400 == c / 4;
  }

  // The century is recovered from the day number alone.
  lemma CenturyRecovered(c: nat, r: nat, yearday: nat, n: nat)
    requires r < 100 && 123 <= yearday <= 488
    requires yearday == 488 ==> IsLeapYear(100 * c + r + 1)
    requires n == 365 * (100 * c + r) + LeapsThrough(100 * c + r) + yearday - 584817
    ensures (4 * n + 1227) / DAYS_PER_QUADRICENTENNIUM == c - 16
  {
    LeapsByCentury(c, r);
    if yearday == 488 {
      LastDayOfCentury(c, r);
    }
    var rest := 4 * (365 * r + r / 4 + yearday) - c % 4 - 489;
    assert 4 * n + 1227 == 146097 * (c - 16) + rest;
    assert 0 <= rest < 146097;
  }

  lemma LastDayOfCentury(c: nat, r: nat)
    requires r < 100 && IsLeapYear(100 * c + r + 1)
    ensures r == 99 ==> c % 4 == 3
  {
  }

  lemma YearRecovered(y: nat, yearday: nat, days: nat)
    requires 123 <= yearday <= 488
    requires yearday == 488 ==> IsLeapYear(y + 1)
    requires days == 365 * y + y / 4 + yearday - 556641
    ensures (20 * days - 2442) / (5 * DAYS_PER_NORMAL_QUADRENNIUM) == y - 1524
    ensures days - ((y - 1524) * DAYS_PER_NORMAL_QUADRENNIUM) / 4 == yearday
  {
    var rest := 20 * yearday - 5 * (y % 4) - 2442;
    assert 20 * days - 2442 == 7305 * (y - 1524) + rest;
    assert 0 <= rest < 7305;
    assert ((y - 1524) * 1461) / 4 == 365 * (y - 1524) + (y - 1524) / 4;
  }

  lemma DateOfDayInvertsCount(d: Date)
    requires ValidDate(d)
    ensures DateOfDay(CountDays(d)) == (d.year, d.month, d.day)
  {
    ClosedFormCountsDays(d);
    MarchDayRange(d);
    var y, yearday := MarchYear(d.year, d.month), MarchDay(d.month, d.day);
    ClosedFormByYear(d);
    MarchDateRecovered(y, yearday, CountDays(d));
  }

  lemma MarchDateRecovered(y: nat, yearday: nat, n: nat)
    requires 123 <= yearday <= 488
    requires yearday == 488 ==> IsLeapYear(y + 1)
    requires n == 365 * y + LeapsThrough(y) + yearday - 584817
    ensures DateOfDay(n) == DateOfMarchDay(y - 1524, yearday)
  {
    assert y == 100 * (y / 100) + y % 100;
    CenturyRecovered(y / 100, y % 100, yearday, n);
    CenturyLeaps(y);
    YearRecovered(y, yearday, n + 28188 + y / 100 - y / 400 - 12);
  }

  lemma CenturyLeaps(y: nat)
    ensures (3 * (y / 100 - 16) + 3) / 4 == y / 100 - y / 400 - 12
  {
    var c := y / 100;
    assert (3 * c + 3) / 4 == c - c / 4;
    assert c / 4 == y / 400;
  }

  lemma TomorrowCounts(d: Date)
    requires ValidDate(d)
    ensures ValidDate(Tomorrow(d)) && CountDays(Tomorrow(d)) == CountDays(d) + 1
  {
    var leap := IsLeapYear(d.year);
    if d.month == 12 {
      MonthFormula(leap, 12);
    }
  }

  lemma {:induction false} CountOfDateAfter(n: nat)
    ensures CountDays(DateAfter(n)) == n
  {
    if n > 0 {
      CountOfDateAfter(n - 1);
      TomorrowCounts(DateAfter(n - 1));
    }
  }

  // The closed formula finds the date reached by counting n days one at a time.
  lemma DateOfDayIsDateAfter(n: nat)
    ensures var d := DateAfter(n); DateOfDay(n) == (d.year, d.month, d.day)
  {
    CountOfDateAfter(n);
    DateOfDayInvertsCount(DateAfter(n));
  }

  lemma {:induction false} WeekdayFormula(n: nat)
    ensures (EPOCH_WEEKDAY + n) % DAYS_PER_WEEK == WeekdayAfter(n)
  {
    if n > 0 {
      WeekdayFormula(n - 1);
    }
  }

  // Every valid date is reached by counting, and only once.
  lemma DateAfterIsOnto(d: Date)
    requires ValidDate(d)
    ensures DateAfter(CountDays(d)) == d
  {
    DateOfDayIsDateAfter(CountDays(d));
    DateOfDayInvertsCount(d);
  }

  // ---------------------------------------------------------------------------------
  // Size of the results
  // ---------------------------------------------------------------------------------

  lemma CountDaysBounds(d: Date)
    requires ValidDate(d)
    ensures 365 * (d.year - 1601) <= CountDays(d) < 366 * (d.year - 1600)
    ensures d.year <= LAST_YEAR ==> CountDays(d) < 10675110
  {
    YearFormula(d.year);
    DayWithinYear(d);
  }

  // What the validator accepts.
  lemma AcceptedDates(st: SystemTime)
    ensures Accepts(st) <==>
            ValidTime(st) &&
              (ValidDate(DateOf(st)) || (st.year >= 1601 && !IsLeapYear(st.year) && st.month == 2 && st.day == 29))
  {
  }

  // 29 February of a common year gets the number of 1 March.
  lemma PhantomLeapDay(year: nat)
    requires year >= 1601 && !IsLeapYear(year)
    ensures ClosedFormDay(year, 2, 29) == CountDays(Date(year, 3, 1))
  {
    var feb28 := Date(year, 2, 28);
    assert Tomorrow(feb28) == Date(year, 3, 1);
    TomorrowCounts(feb28);
    ClosedFormCountsDays(feb28);
  }

  // The proper date an accepted SYSTEMTIME stands for.
  function Canonical(st: SystemTime): Date
    requires Accepts(st)
  {
    if ValidDate(DateOf(st)) then DateOf(st) else Date(st.year, 3, 1)
  }

  lemma AcceptedDayNumber(st: SystemTime)
    requires Accepts(st)
    ensures ValidDate(Canonical(st))
    ensures ClosedFormDay(st.year, st.month, st.day) == CountDays(Canonical(st))
  {
    if ValidDate(DateOf(st)) {
      ClosedFormCountsDays(DateOf(st));
    } else {
      AcceptedDates(st);
      PhantomLeapDay(st.year);
    }
  }

  // How far the wrapped day is off.
  lemma DayOff(year: nat, month: nat, day: nat)
    requires 1601 <= year < 0x1_0000
    ensures var off := ClosedFormDay(year, month, day) - IntDay(year, month, day);
            if (if month < 3 then year - 1 else year) <= LAST_INT_YEAR then off == 0 else 42949671 <= off <= 42949672
  {
    var y := if month < 3 then year - 1 else year;
    WrappedProduct(36525 * y);
  }

  lemma WrappedProduct(p: nat)
    requires p < TWO_TO_THE_32
    ensures p < TWO_TO_THE_31 ==> Quotient(AsInt(p), 100) == p / 100
    ensures p >= TWO_TO_THE_31 ==> 42949671 <= p / 100 - Quotient(AsInt(p), 100) <= 42949672
  {
    if p < TWO_TO_THE_31 {
      assert AsInt(p) == p;
    } else {
      assert AsInt(p) == p - TWO_TO_THE_32;
      QuotientsAddUp(p, TWO_TO_THE_32 - p);
    }
  }

  lemma QuotientsAddUp(a: nat, b: nat)
    requires a + b == TWO_TO_THE_32
    ensures 42949671 <= a / 100 + b / 100 <= 42949672
  {
  }

  lemma QuadPartExactlyWhen(st: SystemTime)
    requires Accepts(st)
    ensures st.year < 0x1_0000 ==> (QuadPart(st) == TicksOfFields(st) <==> DayFits(st))
  {
    if st.year < 0x1_0000 {
      DayOff(st.year, st.month, st.day);
      AcceptedDayNumber(st);
      CountDaysBounds(Canonical(st));
      TicksByDay(st);
      QuadPartByDay(st);
      WrapExactlyWhen(ClosedFormDay(st.year, st.month, st.day), IntDay(st.year, st.month, st.day),
        MillisecondsOfDay(st));
    }
  }

  lemma WrapExactlyWhen(day: nat, intDay: int, ms: nat)
    requires ms < 86400000 && (day == intDay || 42949671 <= day - intDay <= 42949672)
    requires day == intDay ==> day < 366 * 57195
    ensures day * TICKS_PER_DAY + ms * TICKS_PER_MSEC ==
            (intDay * TICKS_PER_DAY + ms * TICKS_PER_MSEC) % TWO_TO_THE_64 <==>
            day == intDay
  {
  }

  lemma QuadPartByDay(st: SystemTime)
    ensures QuadPart(st) ==
            (IntDay(st.year, st.month, st.day) * TICKS_PER_DAY + MillisecondsOfDay(st) * TICKS_PER_MSEC) % TWO_TO_THE_64
  {
  }

  // Up to LAST_YEAR no intermediate value overflows: 36525 * year is an int, the ticks are a LONGLONG.
  lemma TicksFit(st: SystemTime)
    requires Accepts(st) && st.year <= LAST_YEAR
    ensures 36525 * st.year < TWO_TO_THE_31
    ensures 0 <= TicksOfFields(st) < TWO_TO_THE_63
  {
    AcceptedDayNumber(st);
    CountDaysBounds(Canonical(st));
  }

  // ---------------------------------------------------------------------------------
  // Ticks to fields and back
  // ---------------------------------------------------------------------------------

  function MillisecondsOfDay(st: SystemTime): nat {
    ((st.hour * 60 + st.minute) * 60 + st.second) * 1000 + st.milliseconds
  }

  const TICKS_PER_DAY := 864000000000

  lemma TicksByDay(st: SystemTime)
    ensures TicksOfFields(st) ==
            ClosedFormDay(st.year, st.month, st.day) * TICKS_PER_DAY + MillisecondsOfDay(st) * TICKS_PER_MSEC
  {
  }

  lemma TimeOfDayFields(date: (int, int, int), weekday: nat, s: nat, milliseconds: nat)
    requires s < SECS_PER_DAY && milliseconds <= 999
    ensures var st := Fields(date, weekday, s, milliseconds);
            ValidTime(st) && MillisecondsOfDay(st) == s * 1000 + milliseconds
  {
    SecondsArePositional(s);
  }

  lemma SplitSeconds(ticks: nat)
    ensures ticks % TICKS_PER_DAY == (ticks / TICKS_PER_SEC % SECS_PER_DAY) * TICKS_PER_SEC + ticks % TICKS_PER_SEC
  {
  }

  lemma SecondsArePositional(s: nat)
    requires s < SECS_PER_DAY
    ensures s / 3600 <= 23 && s % 3600 / 60 <= 59 && s % 3600 % 60 <= 59
    ensures s == (s / 3600 * 60 + s % 3600 / 60) * 60 + s % 3600 % 60
  {
  }

  // Ticks of one day, split off.
  lemma DayOfTicks(ticks: nat)
    ensures ticks / TICKS_PER_SEC / SECS_PER_DAY == ticks / TICKS_PER_DAY
  {
  }

  // For any 64-bit tick count, the fields are the counted date, the counted weekday and the
  // time of day, and they pass the validator.
  lemma FieldsOfTicksAreTheDate(ticks: nat)
    requires ticks < TWO_TO_THE_64
    ensures var st := FieldsOfTicks(ticks); var n := ticks / TICKS_PER_DAY;
            && DateOf(st) == DateAfter(n)
            && st.dayOfWeek == WeekdayAfter(n)
            && ValidTime(st)
            && MillisecondsOfDay(st) == ticks % TICKS_PER_DAY / TICKS_PER_MSEC
            && Accepts(st)
  {
    var n, s, f := ticks / TICKS_PER_DAY, ticks / TICKS_PER_SEC % SECS_PER_DAY, ticks % TICKS_PER_SEC;
    DayOfTicks(ticks);
    SplitSeconds(ticks);
    DateOfDayIsDateAfter(n);
    WeekdayFormula(n);
    CountOfDateAfter(n);
    CountDaysBounds(DateAfter(n));
    FieldsOfDate(DateAfter(n), WeekdayAfter(n), s, f / TICKS_PER_MSEC);
    TimeOfDayFields(DateOfDay(n), WeekdayAfter(n), s, f / TICKS_PER_MSEC);
    AcceptedDates(FieldsOfTicks(ticks));
  }

  // Nothing is lost in the 16-bit fields.
  lemma FieldsOfDate(d: Date, weekday: nat, s: nat, milliseconds: nat)
    requires ValidDate(d) && CountDays(d) < 23000000 && weekday <= 6
    ensures var st := Fields((d.year, d.month, d.day), weekday, s, milliseconds);
            DateOf(st) == d && st.dayOfWeek == weekday
  {
    CountDaysBounds(d);
    assert d.day <= 31;
  }

  lemma TicksOfDate(st: SystemTime, d: Date)
    requires Accepts(st) && ValidDate(d) && DateOf(st) == d
    ensures TicksOfFields(st) == CountDays(d) * TICKS_PER_DAY + MillisecondsOfDay(st) * TICKS_PER_MSEC
  {
    TicksByDay(st);
    ClosedFormCountsDays(d);
  }

  lemma RoundDown(ticks: nat)
    ensures ticks / TICKS_PER_DAY * TICKS_PER_DAY + ticks % TICKS_PER_DAY / TICKS_PER_MSEC * TICKS_PER_MSEC
            == ticks - ticks % TICKS_PER_MSEC
  {
  }

  // Ticks to fields to ticks rounds down to a whole millisecond.
  lemma TicksRoundTrip(ticks: nat)
    requires ticks < TWO_TO_THE_64
    ensures var st := FieldsOfTicks(ticks);
            Accepts(st) && TicksOfFields(st) == ticks - ticks % TICKS_PER_MSEC
  {
    var n := ticks / TICKS_PER_DAY;
    FieldsOfTicksAreTheDate(ticks);
    CountOfDateAfter(n);
    TicksOfDate(FieldsOfTicks(ticks), DateAfter(n));
    RoundDown(ticks);
  }

  // Fields to ticks to fields gives the date and time that the fields stand for, and its weekday.
  lemma FieldsThroughTicks(st: SystemTime)
    requires Accepts(st) && DayFits(st)
    ensures var back := FieldsOfTicks(QuadPart(st));
            && DateOf(back) == Canonical(st)
            && TimeOf(back) == TimeOf(st)
            && back.dayOfWeek == WeekdayAfter(CountDays(Canonical(st)))
  {
    QuadPartExactlyWhen(st);
    TicksByDay(st);
    AcceptedDayNumber(st);
    var ticks := TicksOfFields(st);
    var n := CountDays(Canonical(st));
    assert MillisecondsOfDay(st) < 86400000;
    assert ticks / TICKS_PER_DAY == n;
    FieldsOfTicksAreTheDate(ticks);
    DateAfterIsOnto(Canonical(st));
    TimeIsPositional(st, FieldsOfTicks(ticks));
  }

  function TimeOf(st: SystemTime): (nat, nat, nat, nat) {
    (st.hour, st.minute, st.second, st.milliseconds)
  }

  // It is the identity, whatever the weekday was, exactly for the real dates whose day fits an int.
  lemma FieldsRoundTripExactlyWhen(st: SystemTime)
    requires Accepts(st) && st.year < 0x1_0000
    ensures var back := FileTimeToSystemTime(SystemTimeToFileTime(st).value);
            && (DayFits(st) ==> DateOf(back) == Canonical(st) && TimeOf(back) == TimeOf(st)
                                && back.dayOfWeek == WeekdayAfter(CountDays(Canonical(st))))
            && ((DateOf(back), TimeOf(back)) == (DateOf(st), TimeOf(st)) <==> ValidDate(DateOf(st)) && DayFits(st))
  {
    var ticks := QuadPart(st);
    ThroughHalves(st);
    if DayFits(st) {
      FieldsThroughTicks(st);
    } else {
      WrappedIsFarOff(st);
      TicksRoundTrip(ticks);
    }
  }

  lemma ThroughHalves(st: SystemTime)
    requires Accepts(st)
    ensures FileTimeToSystemTime(SystemTimeToFileTime(st).value) == FieldsOfTicks(QuadPart(st))
  {
  }

  // With a wrapped day even the whole milliseconds are others.
  lemma WrappedIsFarOff(st: SystemTime)
    requires Accepts(st) && st.year < 0x1_0000 && !DayFits(st)
    ensures QuadPart(st) - QuadPart(st) % TICKS_PER_MSEC != TicksOfFields(st)
  {
    DayOff(st.year, st.month, st.day);
    TicksByDay(st);
    QuadPartByDay(st);
  }

  lemma TimeIsPositional(a: SystemTime, b: SystemTime)
    requires ValidTime(a) && ValidTime(b) && MillisecondsOfDay(a) == MillisecondsOfDay(b)
    ensures (a.hour, a.minute, a.second, a.milliseconds) == (b.hour, b.minute, b.second, b.milliseconds)
  {
    var minutesA, minutesB := a.hour * 60 + a.minute, b.hour * 60 + b.minute;
    var secondsA, secondsB := minutesA * 60 + a.second, minutesB * 60 + b.second;
    LowDigit(1000, secondsA, a.milliseconds, secondsB, b.milliseconds);
    LowDigit(60, minutesA, a.second, minutesB, b.second);
    LowDigit(60, a.hour, a.minute, b.hour, b.minute);
  }

  lemma LowDigit(base: nat, x: nat, a: nat, y: nat, b: nat)
    requires a < base && b < base && x * base + a == y * base + b
    ensures x == y && a == b
  {
    if x > y {
      AtLeastOnce(x - y, base);
    } else if y > x {
      AtLeastOnce(y - x, base);
    }
  }

  lemma AtLeastOnce(n: nat, base: nat)
    requires n >= 1
    ensures n * base >= base
  {
  }

  // ---------------------------------------------------------------------------------
  // Order
  // ---------------------------------------------------------------------------------

  // Lexicographic order on year, month, day and time of day.
  predicate DateBefore(a: Date, b: Date) {
    a.year < b.year || (a.year == b.year && (a.month < b.month || (a.month == b.month && a.day < b.day)))
  }

  predicate Before(a: SystemTime, b: SystemTime) {
    || DateBefore(DateOf(a), DateOf(b))
    || (DateOf(a) == DateOf(b) && (a.hour < b.hour || (a.hour == b.hour && (a.minute < b.minute || (a.minute == b.minute
        && (a.second < b.second || (a.second == b.second && a.milliseconds < b.milliseconds)))))))
  }

  lemma YearsGrow(a: nat, b: nat)
    requires 1601 <= a < b
    ensures DaysBeforeYear(a) + (if IsLeapYear(a) then 366 else 365) <= DaysBeforeYear(b)
    decreases b
  {
    assert DaysBeforeYear(b) == DaysBeforeYear(b - 1) + if IsLeapYear(b - 1) then 366 else 365;
    if a + 1 < b {
      YearsGrow(a, b - 1);
    }
  }

  lemma MonthsGrow(leap: bool, a: nat, b: nat)
    requires 1 <= a < b <= 12
    ensures DaysBeforeMonth(leap, a) + MonthLength(leap, a) <= DaysBeforeMonth(leap, b)
    decreases b
  {
    if a + 1 < b {
      MonthsGrow(leap, a, b - 1);
    }
  }

  lemma DayWithinYear(d: Date)
    requires ValidDate(d)
    ensures CountDays(d) < DaysBeforeYear(d.year) + if IsLeapYear(d.year) then 366 else 365
  {
    var leap := IsLeapYear(d.year);
    MonthFormula(leap, 12);
    if d.month < 12 {
      MonthsGrow(leap, d.month, 12);
    }
  }

  lemma LaterDatesCountMore(a: Date, b: Date)
    requires ValidDate(a) && ValidDate(b) && DateBefore(a, b)
    ensures CountDays(a) < CountDays(b)
  {
    if a.year < b.year {
      DayWithinYear(a);
      YearsGrow(a.year, b.year);
    } else if a.month < b.month {
      MonthsGrow(IsLeapYear(a.year), a.month, b.month);
    }
  }

  lemma EarlierHasFewerTicks(a: SystemTime, b: SystemTime)
    requires Accepts(a) && Accepts(b) && ValidDate(DateOf(a)) && ValidDate(DateOf(b)) && Before(a, b)
    ensures TicksOfFields(a) < TicksOfFields(b)
  {
    TicksByDay(a);
    TicksByDay(b);
    ClosedFormCountsDays(DateOf(a));
    ClosedFormCountsDays(DateOf(b));
    assert MillisecondsOfDay(a) < 86400000;
    if DateBefore(DateOf(a), DateOf(b)) {
      LaterDatesCountMore(DateOf(a), DateOf(b));
    } else {
      assert MillisecondsOfDay(a) < MillisecondsOfDay(b);
    }
  }

  lemma SplitIsOrdered(s: nat, t: nat)
    requires s < TWO_TO_THE_64 && t < TWO_TO_THE_64
    ensures CompareFileTime(Some(Split(s)), Some(Split(t))) == if s < t then -1 else if s > t then 1 else 0
  {
  }

  // Comparing converted times compares the dates.
  // A null pointer comes before every time, and two are the same.
  lemma NullIsFirst(ft: FileTime)
    ensures CompareFileTime(None, Some(ft)) == -1 && CompareFileTime(Some(ft), None) == 1
    ensures CompareFileTime(None, None) == 0
  {
  }

  lemma ComparisonIsDateOrder(a: SystemTime, b: SystemTime)
    requires Accepts(a) && Accepts(b) && ValidDate(DateOf(a)) && ValidDate(DateOf(b))
    requires DayFits(a) && DayFits(b)
    ensures CompareFileTime(SystemTimeToFileTime(a), SystemTimeToFileTime(b)) ==
            if Before(a, b) then -1 else if Before(b, a) then 1 else 0
  {
    QuadPartExactlyWhen(a);
    QuadPartExactlyWhen(b);
    SplitIsOrdered(TicksOfFields(a), TicksOfFields(b));
    if Before(a, b) {
      EarlierHasFewerTicks(a, b);
    } else if Before(b, a) {
      EarlierHasFewerTicks(b, a);
    }
  }
}

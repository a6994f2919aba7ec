/** infra/timer/PartitionedTime.cpp: seconds since 1970 to a date and time of the proleptic Gregorian
    calendar and back, in closed form. Inside both conversions years are counted from March. */
module PartitionedTime {

  const DAY := 86400
  const ERA := 146097
  const EPOCH := 719468

  /** `years` is a 16-bit unsigned field. */
  datatype PartitionedTime = PartitionedTime(seconds: int, minutes: int, hours: int, days: int, months: int, years: int)

  // ---------------------------------------------------------------------------------------------
  // The source
  // ---------------------------------------------------------------------------------------------

  /** Division of C++: toward zero. */
  function Div(a: int, b: int): int
    requires b > 0
  {
    if a >= 0 then a / b else -((-a) / b)
  }

  /** The day number of the constructor and of WeekDay. */
  function DayOf(unixTime: int): int {
    if unixTime >= 0 then Div(unixTime, DAY) else Div(unixTime - (DAY - 1), DAY)
  }

  function EraOf(z: int): int { Div(if z >= 0 then z else z - (ERA - 1), ERA) }

  function YearOfEra(doe: int): int { (doe - doe / 1460 + doe / 36524 - doe / 146096) / 365 }

  function DaysBeforeYear(yoe: int): int { 365 * yoe + yoe / 4 - yoe / 100 }

  function MonthOf(doy: int): int { (5 * doy + 2) / 153 }

  function DaysBeforeMonth(mp: int): int { (153 * mp + 2) / 5 }

  /** A date counted from March: `month` 0 is March of the year 400 * era + yoe. */
  datatype MarchDate = MarchDate(era: int, yoe: int, month: int, day: int)

  function FromDays(z: int): MarchDate {
    var era := EraOf(z);
    var doe := z - era * ERA;
    var yoe := YearOfEra(doe);
    var doy := doe - DaysBeforeYear(yoe);
    var mp := MonthOf(doy);
    MarchDate(era, yoe, mp, doy - DaysBeforeMonth(mp) + 1)
  }

  function CivilMonth(mp: int): int { if mp < 10 then mp + 3 else mp - 9 }

  /** The calendar year, before it is cut to 16 bits. */
  function CivilYear(date: MarchDate): int {
    date.yoe + 400 * date.era + if CivilMonth(date.month) <= 2 then 1 else 0
  }

  /** The constructor. */
  function FromTimeT(unixTime: int): PartitionedTime {
    var z := DayOf(unixTime);
    var t := unixTime - z * DAY;
    var date := FromDays(z + EPOCH);
    PartitionedTime(t % 60, t / 60 % 60, t / 60 / 60 % 24, date.day, CivilMonth(date.month), CivilYear(date) % 0x1_0000)
  }

  function Int16(n: int): int { (n + 0x8000) % 0x1_0000 - 0x8000 }

  /** The year counted from March, in the 16-bit signed variable of ToTimeT. */
  function MarchYear(p: PartitionedTime): int {
    Int16(Int16(p.years) - if p.months <= 2 then 1 else 0)
  }

  function ToDays(y: int, m: int, d: int): int {
    var era := Div(if y >= 0 then y else y - 399, 400);
    var yoe := y - era * 400;
    var doy := DaysBeforeMonth(m + if m > 2 then -3 else 9) + d - 1;
    era * ERA + (DaysBeforeYear(yoe) + doy) - EPOCH
  }

  function ToTimeT(p: PartitionedTime): int {
    ToDays(MarchYear(p), p.months, p.days) * DAY + p.seconds + (p.minutes + p.hours * 60) * 60
  }

  function WeekDay(p: PartitionedTime): int {
    var day := DayOf(ToTimeT(p));
    if day >= -4 then (day + 4) - Div(day + 4, 7) * 7
    else (day + 5) - Div(day + 5, 7) * 7 + 6
  }

  // ---------------------------------------------------------------------------------------------
  // The calendar
  // ---------------------------------------------------------------------------------------------

  predicate Leap(year: int) { year % 4 == 0 && (year % 100 != 0 || year % 400 == 0) }

  function DaysInMonth(year: int, month: int): int {
    if month == 2 then (if Leap(year) then 29 else 28)
    else if month in {4, 6, 9, 11} then 30
    else 31
  }

  datatype Date = Date(year: int, month: int, day: int)

  predicate ValidDate(d: Date) { 1 <= d.month <= 12 && 1 <= d.day <= DaysInMonth(d.year, d.month) }

  function NextDay(d: Date): Date {
    if d.day < DaysInMonth(d.year, d.month) then d.(day := d.day + 1)
    else if d.month < 12 then Date(d.year, d.month + 1, 1)
    else Date(d.year + 1, 1, 1)
  }

  function DateOf(z: int): Date {
    var date := FromDays(z + EPOCH);
    Date(CivilYear(date), CivilMonth(date.month), date.day)
  }

  // ---------------------------------------------------------------------------------------------
  // Lemmas
  // ---------------------------------------------------------------------------------------------

  lemma DayIsFloor(t: int)
    ensures DayOf(t) == t / DAY && DayOf(t) * DAY <= t < (DayOf(t) + 1) * DAY
  {
  }

  lemma EraIsFloor(z: int)
    ensures EraOf(z) == z / ERA && 0 <= z - EraOf(z) * ERA < ERA
  {
  }

  function YearEnd(yoe: int): int { if yoe == 399 then ERA else DaysBeforeYear(yoe + 1) }

  /** A day of an era by century, cycle of four years and day of that cycle. */
  predicate Cycle(doe: int, c: int, q: int, s: int) {
    && 0 <= c <= 3 && 0 <= q <= 24 && 0 <= s <= 1460
    && doe == 36524 * c + 1461 * q + s
    && (q == 24 && s == 1460 ==> c == 3)
  }

  lemma CycleOf(doe: int) returns (c: int, q: int, s: int)
    requires 0 <= doe < ERA
    ensures Cycle(doe, c, q, s) && c == doe / 36524 - doe / 146096
  {
    c := if doe == 146096 then 3 else doe / 36524;
    var r := doe - 36524 * c;
    q := r / 1461;
    s := r - 1461 * q;
  }

  lemma CycleQuotient(doe: int, c: int, q: int, s: int)
    requires Cycle(doe, c, q, s)
    ensures doe / 1460 == 25 * c + q + if 24 * c + q + s >= 1460 then 1 else 0
  {
    var e := if 24 * c + q + s >= 1460 then 1 else 0;
    assert (25 * c + q + e) * 1460 <= doe < (25 * c + q + e + 1) * 1460;
  }

  lemma CycleYear(doe: int, c: int, q: int, s: int)
    requires Cycle(doe, c, q, s) && c == doe / 36524 - doe / 146096
    ensures YearOfEra(doe) == 100 * c + 4 * q + (if s == 1460 then 3 else s / 365)
  {
    CycleQuotient(doe, c, q, s);
    var k := if s == 1460 then 3 else s / 365;
    var n := doe - doe / 1460 + doe / 36524 - doe / 146096;
    assert (100 * c + 4 * q + k) * 365 <= n < (100 * c + 4 * q + k + 1) * 365;
  }

  /** The closed form finds the year the day lies in. */
  lemma YearOfEraIsRight(doe: int)
    requires 0 <= doe < ERA
    ensures 0 <= YearOfEra(doe) <= 399
    ensures DaysBeforeYear(YearOfEra(doe)) <= doe < YearEnd(YearOfEra(doe))
  {
    var c, q, s := CycleOf(doe);
    CycleYear(doe, c, q, s);
    var k := if s == 1460 then 3 else s / 365;
    var yoe := 100 * c + 4 * q + k;
    hide YearOfEra;
    assert 365 * k <= s < 365 * (k + 1) + if k == 3 then 1 else 0;
    assert yoe / 4 == 25 * c + q && yoe / 100 == c;
    assert DaysBeforeYear(yoe) == 36524 * c + 1461 * q + 365 * k;
    assert k < 3 ==> (yoe + 1) / 4 == 25 * c + q && (yoe + 1) / 100 == c;
    assert k == 3 ==> (yoe + 1) / 4 == 25 * c + q + 1;
    assert k == 3 ==> (yoe + 1) / 100 == if q == 24 then c + 1 else c;
  }

  lemma MonthIsRight(doy: int)
    requires 0 <= doy < 366
    ensures 0 <= MonthOf(doy) <= 11
    ensures DaysBeforeMonth(MonthOf(doy)) <= doy < DaysBeforeMonth(MonthOf(doy) + 1)
  {
  }

  // Years from March, in both directions.

  /** A year from March has the length that the leap rule gives to the February at its end. */
  lemma YearLength(era: int, yoe: int)
    requires 0 <= yoe <= 399
    ensures YearEnd(yoe) - DaysBeforeYear(yoe) == if Leap(400 * era + yoe + 1) then 366 else 365
  {
    LeapOfEra(era, yoe + 1);
    var k := yoe + 1;
    assert yoe % 4 == 3 <==> k % 4 == 0;
    assert yoe % 100 == 99 <==> k % 100 == 0;
    assert k / 4 == yoe / 4 + if k % 4 == 0 then 1 else 0;
    assert k / 100 == yoe / 100 + if k % 100 == 0 then 1 else 0;
  }

  lemma EraModulo4(era: int, k: int)
    ensures (400 * era + k) % 4 == k % 4
  {
    assert 400 * era + k == 4 * (100 * era + k / 4) + k % 4;
  }

  lemma EraModulo100(era: int, k: int)
    ensures (400 * era + k) % 100 == k % 100
  {
    assert 400 * era + k == 100 * (4 * era + k / 100) + k % 100;
  }

  lemma EraModulo400(era: int, k: int)
    ensures (400 * era + k) % 400 == k % 400
  {
    assert 400 * era + k == 400 * (era + k / 400) + k % 400;
  }

  lemma LeapOfEra(era: int, k: int)
    ensures Leap(400 * era + k) == Leap(k)
  {
    EraModulo4(era, k);
    EraModulo100(era, k);
    EraModulo400(era, k);
  }

  /** The day number of a March date, as ToTimeT adds it up. */
  function DayNumber(date: MarchDate): int {
    date.era * ERA + DaysBeforeYear(date.yoe) + DaysBeforeMonth(date.month) + date.day - 1
  }

  /** A date of the calendar, counted from March. */
  predicate ValidMarchDate(date: MarchDate) {
    && 0 <= date.yoe <= 399 && 0 <= date.month <= 11
    && 1 <= date.day <= DaysInMonth(CivilYear(date), CivilMonth(date.month))
  }

  lemma MonthLength(mp: int)
    requires 0 <= mp < 11
    ensures forall year :: DaysInMonth(year, CivilMonth(mp)) == DaysBeforeMonth(mp + 1) - DaysBeforeMonth(mp)
    ensures DaysBeforeMonth(11) == 337 && DaysBeforeMonth(mp) < DaysBeforeMonth(mp + 1) <= 337
  {
  }

  /** The day of the year counted from March. */
  lemma ValidDayOfYear(date: MarchDate)
    requires ValidMarchDate(date)
    ensures var doy := DaysBeforeMonth(date.month) + date.day - 1;
      && 0 <= doy < YearEnd(date.yoe) - DaysBeforeYear(date.yoe)
      && DaysBeforeMonth(date.month) <= doy < DaysBeforeMonth(date.month + 1)
  {
    YearLength(date.era, date.yoe);
    if date.month < 11 { MonthLength(date.month); }
  }

  /** The month and the day of a day of the year. */
  lemma DayOfYear(era: int, yoe: int, doy: int)
    requires 0 <= yoe <= 399 && 0 <= doy < YearEnd(yoe) - DaysBeforeYear(yoe)
    ensures 0 <= MonthOf(doy) <= 11
    ensures ValidMarchDate(MarchDate(era, yoe, MonthOf(doy), doy - DaysBeforeMonth(MonthOf(doy)) + 1))
  {
    YearLength(era, yoe);
    hide YearEnd, DaysBeforeYear, Leap;
    MonthIsRight(doy);
    var mp := MonthOf(doy);
    hide MonthOf;
    if mp < 11 { MonthLength(mp); }
  }

  /** FromDays yields a date of the calendar, and its day number. */
  lemma FromDaysIsValid(z: int)
    ensures ValidMarchDate(FromDays(z)) && DayNumber(FromDays(z)) == z
  {
    hide YearOfEra, EraOf, DaysBeforeYear, ValidMarchDate, MonthOf, DaysBeforeMonth, YearEnd;
    EraIsFloor(z);
    var era := EraOf(z);
    var doe := z - era * ERA;
    YearOfEraIsRight(doe);
    var yoe := YearOfEra(doe);
    DayOfYear(era, yoe, doe - DaysBeforeYear(yoe));
  }

  lemma YearUnique(x: int, y: int, doe: int)
    requires 0 <= x <= 399 && 0 <= y <= 399
    requires DaysBeforeYear(x) <= doe < YearEnd(x) && DaysBeforeYear(y) <= doe < YearEnd(y)
    ensures x == y
  {
  }

  lemma MonthUnique(m: int, n: int, doy: int)
    requires 0 <= m <= 11 && 0 <= n <= 11
    requires DaysBeforeMonth(m) <= doy < DaysBeforeMonth(m + 1) && DaysBeforeMonth(n) <= doy < DaysBeforeMonth(n + 1)
    ensures m == n
  {
  }

  lemma YearWithinEra(yoe: int)
    requires 0 <= yoe <= 399
    ensures 0 <= DaysBeforeYear(yoe) < YearEnd(yoe) <= ERA
  {
  }

  /** The calendar has one date for each day number. */
  lemma DateUnique(a: MarchDate, b: MarchDate)
    requires ValidMarchDate(a) && ValidMarchDate(b) && DayNumber(a) == DayNumber(b)
    ensures a == b
  {
    ValidDayOfYear(a);
    ValidDayOfYear(b);
    YearWithinEra(a.yoe);
    YearWithinEra(b.yoe);
    var doe := DayNumber(a) - a.era * ERA;
    hide Leap, DaysInMonth;
    assert a.era == b.era;
    YearUnique(a.yoe, b.yoe, doe);
    hide DaysBeforeYear, YearEnd;
    MonthUnique(a.month, b.month, doe - DaysBeforeYear(a.yoe));
  }

  /** Any valid date is found again from its day number. */
  lemma FromDayNumber(date: MarchDate)
    requires ValidMarchDate(date)
    ensures FromDays(DayNumber(date)) == date
  {
    FromDaysIsValid(DayNumber(date));
    DateUnique(FromDays(DayNumber(date)), date);
  }

  // ---------------------------------------------------------------------------------------------
  // The conversions
  // ---------------------------------------------------------------------------------------------

  /** The date of every day is a date of the calendar, and each day is followed by the next date,
      before and after 1970. */
  lemma DateOfIsTheCalendar(z: int)
    ensures ValidDate(DateOf(z))
    ensures DateOf(z + 1) == NextDay(DateOf(z))
  {
    FromDaysIsValid(z + EPOCH);
    var date := FromDays(z + EPOCH);
    NextMarchDay(date);
    FromDayNumber(Following(date));
    assert DateOf(z) == Date(CivilYear(date), CivilMonth(date.month), date.day);
    assert ValidDate(DateOf(z));
    hide FromDays, DayNumber, Following, NextDay, ValidDate, ValidMarchDate;
    assert FromDays(z + 1 + EPOCH) == Following(date);
  }

  /** Day 0 is 1 January 1970. */
  lemma EpochDate()
    ensures DateOf(0) == Date(1970, 1, 1)
  {
    hide FromDays;
    var date := MarchDate(4, 369, 10, 1);
    assert ValidMarchDate(date) && DayNumber(date) == 0 + EPOCH;
    FromDayNumber(date);
    hide DayNumber, ValidMarchDate;
  }

  /** The day after, counted from March. */
  function Following(date: MarchDate): MarchDate {
    if date.day < DaysInMonth(CivilYear(date), CivilMonth(date.month)) then date.(day := date.day + 1)
    else if date.month < 11 then date.(month := date.month + 1, day := 1)
    else if date.yoe < 399 then MarchDate(date.era, date.yoe + 1, 0, 1)
    else MarchDate(date.era + 1, 0, 0, 1)
  }

  lemma NextMarchDay(date: MarchDate)
    requires ValidMarchDate(date)
    ensures var next := Following(date);
      && ValidMarchDate(next) && DayNumber(next) == DayNumber(date) + 1
      && Date(CivilYear(next), CivilMonth(next.month), next.day)
         == NextDay(Date(CivilYear(date), CivilMonth(date.month), date.day))
  {
    YearLength(date.era, date.yoe);
    if date.month < 11 { MonthLength(date.month); }
  }

  /** The days that the 32-bit variable `z` of the constructor can hold. */
  predicate DayFits(t: int) { -0x8000_0000 <= t / DAY && t / DAY + EPOCH <= 0x7FFF_FFFF }

  lemma TimeOfDay(t: int)
    requires 0 <= t < DAY
    ensures 0 <= t / 60 / 60 < 24 && t / 60 / 60 % 24 == t / 60 / 60
    ensures t % 60 + (t / 60 % 60 + t / 60 / 60 * 60) * 60 == t
  {
  }

  lemma TimeFields(t: int)
    ensures var p := FromTimeT(t);
      && 0 <= p.seconds < 60 && 0 <= p.minutes < 60 && 0 <= p.hours < 24
      && p.seconds + (p.minutes + p.hours * 60) * 60 == t - (t / DAY) * DAY
  {
    DayIsFloor(t);
    hide FromDays, DayOf;
    TimeOfDay(t - DayOf(t) * DAY);
  }

  /** Every field is in its range, and the date is the calendar's. */
  lemma FieldsInRange(t: int)
    requires DayFits(t)
    ensures var p := FromTimeT(t); var date := DateOf(t / DAY);
      && 0 <= p.seconds < 60 && 0 <= p.minutes < 60 && 0 <= p.hours < 24
      && p.seconds + (p.minutes + p.hours * 60) * 60 == t - (t / DAY) * DAY
      && ValidDate(date) && p.months == date.month && p.days == date.day && p.years == date.year % 0x1_0000
  {
    TimeFields(t);
    DateOfMembers(t);
    DateOfIsTheCalendar(t / DAY);
    hide DateOf, FromTimeT;
  }

  lemma DateOfMembers(t: int)
    ensures var p := FromTimeT(t); var date := DateOf(t / DAY);
      p.months == date.month && p.days == date.day && p.years == date.year % 0x1_0000
  {
    DayIsFloor(t);
    hide FromDays, DayOf;
  }

  lemma Int16Range(n: int)
    ensures -0x8000 <= Int16(n) <= 0x7FFF && (Int16(n) == n <==> -0x8000 <= n <= 0x7FFF)
    ensures Int16(n % 0x1_0000) == Int16(n)
    ensures Int16(Int16(n) - 1) == Int16(n - 1)
  {
  }

  lemma MarchYearInt16(civil: int, step: int)
    requires step == 0 || step == 1
    ensures Int16(Int16(civil % 0x1_0000) - step) == Int16(civil - step)
  {
    Int16Range(civil);
    Int16Range(Int16(civil));
    hide Int16;
  }

  /** ToTimeT finds the March year of a date again, as far as it fits 16 signed bits. */
  lemma MarchYearOf(t: int)
    ensures var date := FromDays(t / DAY + EPOCH);
      MarchYear(FromTimeT(t)) == Int16(date.yoe + 400 * date.era)
  {
    DayIsFloor(t);
    hide FromDays, DayOf, Int16;
    var date := FromDays(t / DAY + EPOCH);
    MarchYearInt16(CivilYear(date), if CivilMonth(date.month) <= 2 then 1 else 0);
  }

  lemma ToDaysIsDayNumber(y: int, m: int, d: int)
    requires 1 <= m <= 12
    ensures var mp := if m > 2 then m - 3 else m + 9;
      ToDays(y, m, d) == DayNumber(MarchDate(y / 400, y % 400, mp, d)) - EPOCH
  {
    assert Div(if y >= 0 then y else y - 399, 400) == y / 400;
  }

  /** ToDays with any March year that agrees with the date's year gives the day, and no other does. */
  lemma ToDaysOfDate(date: MarchDate, y: int)
    requires ValidMarchDate(date)
    ensures var year := date.yoe + 400 * date.era;
      ToDays(y, CivilMonth(date.month), date.day) == DayNumber(date) - EPOCH <==> y == year
  {
    var year := date.yoe + 400 * date.era;
    assert year / 400 == date.era && year % 400 == date.yoe;
    ToDaysIsDayNumber(y, CivilMonth(date.month), date.day);
    hide ToDays;
    if y != year {
      DifferentYears(year, y, date.month, date.day);
    }
  }

  /** The first day of a year counted from March. */
  function YearStart(y: int): int { (y / 400) * ERA + DaysBeforeYear(y % 400) - EPOCH }

  lemma DayInYear(date: MarchDate, bound: int)
    requires ValidMarchDate(date)
    ensures DayNumber(date) - EPOCH < YearStart(bound) <==> date.yoe + 400 * date.era < bound
  {
    var y := date.yoe + 400 * date.era;
    assert y / 400 == date.era && y % 400 == date.yoe;
    ValidDayOfYear(date);
    NextYearStart(date.era, date.yoe);
    hide ValidMarchDate, DaysBeforeYear, YearEnd, DaysBeforeMonth;
    if y + 1 < bound {
      YearsMonotone(y + 1, bound);
    } else if bound < y {
      YearsMonotone(bound, y);
    }
  }

  lemma NextYearStart(era: int, yoe: int)
    requires 0 <= yoe <= 399
    ensures YearStart(400 * era + yoe + 1) == era * ERA + YearEnd(yoe) - EPOCH
  {
    if yoe < 399 {
      assert (400 * era + yoe + 1) / 400 == era && (400 * era + yoe + 1) % 400 == yoe + 1;
    } else {
      assert (400 * era + yoe + 1) / 400 == era + 1 && (400 * era + yoe + 1) % 400 == 0;
    }
  }

  /** The times from 1 March of the year -32768 up to, not including, 1 March of the year 32768. */
  predicate YearFits(t: int) { -12687734 * DAY <= t < 11248798 * DAY }

  /** ToTimeT undoes the constructor exactly for these times: outside them the year no longer fits the
      16-bit variable of ToTimeT. */
  lemma RoundTripRange(t: int)
    requires DayFits(t)
    ensures ToTimeT(FromTimeT(t)) == t <==> YearFits(t)
  {
    hide FromDays, ToTimeT, FromTimeT, ValidMarchDate, DayNumber, YearStart;
    RoundTrip(t);
    var z := t / DAY;
    FromDaysIsValid(z + EPOCH);
    var date := FromDays(z + EPOCH);
    DayInYear(date, -0x8000);
    DayInYear(date, 0x8000);
    YearBounds();
    DayBounds(t, -12687734, 11248798);
  }

  lemma YearBounds()
    ensures YearStart(-0x8000) == -12687734 && YearStart(0x8000) == 11248798
  {
  }

  lemma DayBounds(t: int, low: int, high: int)
    ensures low <= t / DAY < high <==> low * DAY <= t < high * DAY
  {
  }

  /** ToTimeT undoes the constructor exactly when the year, counted from March, fits 16 signed bits. */
  lemma RoundTrip(t: int)
    requires DayFits(t)
    ensures var date := FromDays(t / DAY + EPOCH);
      ToTimeT(FromTimeT(t)) == t <==> -0x8000 <= date.yoe + 400 * date.era <= 0x7FFF
  {
    var date := FromDays(t / DAY + EPOCH);
    var y := date.yoe + 400 * date.era;
    FromDaysIsValid(t / DAY + EPOCH);
    TimeFields(t);
    MarchYearOf(t);
    Int16Range(y);
    DateOfMembers(t);
    ToDaysOfDate(date, Int16(y));
    hide FromDays, FromTimeT, MarchYear, Int16, ToDays, DayNumber, ValidMarchDate, CivilMonth, CivilYear;
    assert ToTimeT(FromTimeT(t)) == ToDays(Int16(y), CivilMonth(date.month), date.day) * DAY + (t - (t / DAY) * DAY);
  }

  lemma YearsMonotoneInEra(a: int, b: int)
    requires 0 <= a < b <= 399
    ensures DaysBeforeYear(a) + 365 <= DaysBeforeYear(b)
  {
    assert a / 4 <= b / 4 && b / 100 - a / 100 <= b / 4 - a / 4 + 1;
  }

  lemma YearsMonotone(x: int, y: int)
    requires x < y
    ensures (x / 400) * ERA + DaysBeforeYear(x % 400) + 365 <= (y / 400) * ERA + DaysBeforeYear(y % 400)
  {
    var a, b := x % 400, y % 400;
    assert x == 400 * (x / 400) + a && y == 400 * (y / 400) + b;
    YearWithinEra(a);
    YearWithinEra(b);
    YearLength(0, a);
    hide DaysBeforeYear, YearEnd, Leap;
    if x / 400 == y / 400 { YearsMonotoneInEra(a, b); }
  }

  lemma DifferentYears(x: int, y: int, mp: int, d: int)
    requires x != y
    ensures DayNumber(MarchDate(x / 400, x % 400, mp, d)) != DayNumber(MarchDate(y / 400, y % 400, mp, d))
  {
    if x < y { YearsMonotone(x, y); } else { YearsMonotone(y, x); }
  }

  /** A date and time as a caller may give it: in the year that the 16-bit field stands for. */
  predicate Valid(p: PartitionedTime) {
    && 0 <= p.years < 0x1_0000 && 1 <= p.months <= 12
    && 1 <= p.days <= DaysInMonth(MarchYear(p) + (if p.months <= 2 then 1 else 0), p.months)
    && 0 <= p.hours < 24 && 0 <= p.minutes < 60 && 0 <= p.seconds < 60
  }

  lemma DayOfSum(z: int, seconds: int)
    requires 0 <= seconds < DAY
    ensures DayOf(z * DAY + seconds) == z
  {
    DayIsFloor(z * DAY + seconds);
  }

  lemma TimeParts(seconds: int, minutes: int, hours: int)
    requires 0 <= seconds < 60 && 0 <= minutes < 60 && 0 <= hours < 24
    ensures var t := seconds + (minutes + hours * 60) * 60;
      && 0 <= t < DAY && t % 60 == seconds && t / 60 == minutes + hours * 60
      && t / 60 % 60 == minutes && t / 60 / 60 % 24 == hours
  {
    var t := seconds + (minutes + hours * 60) * 60;
    assert t / 60 == minutes + hours * 60;
  }

  lemma ValidMarch(p: PartitionedTime)
    requires Valid(p)
    ensures var y := MarchYear(p); var mp := if p.months > 2 then p.months - 3 else p.months + 9;
      var date := MarchDate(y / 400, y % 400, mp, p.days);
      && ValidMarchDate(date) && CivilMonth(mp) == p.months
      && CivilYear(date) == y + if p.months <= 2 then 1 else 0
  {
    var y := MarchYear(p);
    hide MarchYear, DaysInMonth;
    assert y == 400 * (y / 400) + y % 400;
  }

  lemma ToDaysMonth(p: PartitionedTime)
    requires Valid(p)
    ensures var y := MarchYear(p); var mp := if p.months > 2 then p.months - 3 else p.months + 9;
      ToDays(y, p.months, p.days) == DayNumber(MarchDate(y / 400, y % 400, mp, p.days)) - EPOCH
  {
    hide ToDays, MarchYear, DayNumber, DaysInMonth;
    ToDaysIsDayNumber(MarchYear(p), p.months, p.days);
  }

  /** The March date of a valid date has the number that ToTimeT computes. */
  lemma DateOfValid(p: PartitionedTime)
    requires Valid(p)
    ensures var date := FromDays(ToDays(MarchYear(p), p.months, p.days) + EPOCH);
      CivilMonth(date.month) == p.months && date.day == p.days && CivilYear(date) % 0x1_0000 == p.years
  {
    var y := MarchYear(p);
    var mp := if p.months > 2 then p.months - 3 else p.months + 9;
    ValidMarch(p);
    assert 0 <= p.years < 0x1_0000;
    StoredYear(p);
    ToDaysMonth(p);
    hide ToDays, MarchYear, DayNumber, FromDays, DaysInMonth, ValidMarchDate, CivilYear, CivilMonth, Valid;
    FromDayNumber(MarchDate(y / 400, y % 400, mp, p.days));
  }

  lemma StoredYear(p: PartitionedTime)
    requires 0 <= p.years < 0x1_0000
    ensures (MarchYear(p) + if p.months <= 2 then 1 else 0) % 0x1_0000 == p.years
  {
  }

  lemma FromSum(z: int, r: int)
    requires 0 <= r < DAY
    ensures var date := FromDays(z + EPOCH);
      FromTimeT(z * DAY + r)
      == PartitionedTime(r % 60, r / 60 % 60, r / 60 / 60 % 24,
                         date.day, CivilMonth(date.month), CivilYear(date) % 0x1_0000)
  {
    hide FromDays, DayOf, CivilMonth, CivilYear;
    DayOfSum(z, r);
    assert z * DAY + r - DayOf(z * DAY + r) * DAY == r;
  }

  lemma ToTimeTSum(p: PartitionedTime)
    ensures ToTimeT(p) == ToDays(MarchYear(p), p.months, p.days) * DAY + (p.seconds + (p.minutes + p.hours * 60) * 60)
  {
    hide ToDays, MarchYear;
  }

  lemma ValidTime(p: PartitionedTime)
    requires Valid(p)
    ensures 0 <= p.hours < 24 && 0 <= p.minutes < 60 && 0 <= p.seconds < 60
  {
  }

  /** The constructor undoes ToTimeT for every valid date and time. */
  lemma RoundTripBack(p: PartitionedTime)
    requires Valid(p)
    ensures FromTimeT(ToTimeT(p)) == p
  {
    hide ToDays, MarchYear, FromDays, FromTimeT, ToTimeT, CivilMonth, CivilYear, Valid;
    ValidTime(p);
    ToTimeTSum(p);
    DateOfValid(p);
    TimeParts(p.seconds, p.minutes, p.hours);
    FromSum(ToDays(MarchYear(p), p.months, p.days), p.seconds + (p.minutes + p.hours * 60) * 60);
  }

  /** WeekDay is the day number modulo 7, Sunday being 0 and 1 January 1970 a Thursday; so it advances
      by one modulo 7 from each day to the next. */
  lemma WeekDayAdvances(p: PartitionedTime)
    ensures 0 <= WeekDay(p) < 7 && WeekDay(p) == (ToTimeT(p) / DAY + 4) % 7
  {
    DayIsFloor(ToTimeT(p));
    hide DayOf, ToTimeT;
    var day := DayOf(ToTimeT(p));
    if day < -4 {
      assert (-(day + 5)) == 7 * ((-(day + 5)) / 7) + (-(day + 5)) % 7;
    }
  }
}

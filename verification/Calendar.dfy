/** Civil dates and RFC 3339 instants: `src/mcp.rs`, and the day buckets of `src/analytics.rs`. */
module Calendar {
  import opened Common

  const DAY_SECONDS: int := 86_400
  const NANOS: int := 1_000_000_000
  const I64_MAX: int := 0x7FFF_FFFF_FFFF_FFFF
  const I64_MIN: int := -0x8000_0000_0000_0000

  /** Integer division as the source's machine does it: towards zero. */
  function Quotient(a: int, b: int): int
    requires b > 0
  {
    if a >= 0 then a / b else -((-a) / b)
  }

  // ---------------------------------------------------------------- days and dates

  predicate IsLeap(year: int) {
    year % 4 == 0 && (year % 100 != 0 || year % 400 == 0)
  }

  function DaysInMonth(year: int, month: int): int {
    match month
    case 1 | 3 | 5 | 7 | 8 | 10 | 12 => 31
    case 4 | 6 | 9 | 11 => 30
    case 2 => if IsLeap(year) then 29 else 28
    case _ => 0
  }

  predicate OnCalendar(year: int, month: int, day: int) {
    1 <= month <= 12 && 1 <= day <= DaysInMonth(year, month)
  }

  function DaysFromCivil(year: int, month: int, day: int): int {
    var year := if month <= 2 then year - 1 else year;
    var era := Quotient(if year >= 0 then year else year - 399, 400);
    var yearOfEra := year - era * 400;
    var dayOfYear := (153 * (if month > 2 then month - 3 else month + 9) + 2) / 5 + day - 1;
    var dayOfEra := yearOfEra * 365 + yearOfEra / 4 - yearOfEra / 100 + dayOfYear;
    era * 146_097 + dayOfEra - 719_468
  }

  function CivilFromDays(days: int): (int, int, int) {
    var days := days + 719_468;
    var era := Quotient(if days >= 0 then days else days - 146_096, 146_097);
    CivilFromEra(era, days - era * 146_097)
  }

  function CivilFromEra(era: int, dayOfEra: int): (int, int, int) {
    var yearOfEra := YearOfEra(dayOfEra);
    var dayOfYear := dayOfEra - YearStart(yearOfEra);
    var monthPrime := (5 * dayOfYear + 2) / 153;
    var day := dayOfYear - (153 * monthPrime + 2) / 5 + 1;
    var month := if monthPrime < 10 then monthPrime + 3 else monthPrime - 9;
    var year := yearOfEra + era * 400;
    (if month <= 2 then year + 1 else year, month, day)
  }

  function YearOfEra(dayOfEra: int): int {
    (dayOfEra - dayOfEra / 1_460 + dayOfEra / 36_524 - dayOfEra / 146_096) / 365
  }

  /** The days of an era before its year `yearOfEra`, years counted from March. */
  function YearStart(yearOfEra: int): int {
    365 * yearOfEra + yearOfEra / 4 - yearOfEra / 100
  }

  /** A March-based year of an era has a 366th day exactly when the February it ends with is a leap one. */
  predicate HasLeapDay(yearOfEra: nat) {
    yearOfEra % 4 == 3 && (yearOfEra % 100 != 99 || yearOfEra == 399)
  }

  lemma YearStartSplit(c: nat, q: nat, s: nat)
    requires c < 4 && q < 25 && s < 4
    ensures YearStart(100 * c + 4 * q + s) == 36_524 * c + 1_461 * q + 365 * s
  {
    assert (100 * c + 4 * q + s) / 4 == 25 * c + q;
    assert (100 * c + 4 * q + s) / 100 == c;
  }

  lemma CenturyOfDay(c: nat, rest: nat)
    requires c < 4 && (rest < 36_524 || (c == 3 && rest == 36_524))
    ensures (36_524 * c + rest) / 36_524 - (36_524 * c + rest) / 146_096 == c
  {
  }

  lemma LeapGuess(c: nat, q: nat, s: nat, dayOfYear: nat)
    requires c < 4 && q < 25 && s < 4
    requires dayOfYear <= if s == 3 && (q != 24 || c == 3) then 365 else 364
    ensures var doe := 36_524 * c + 1_461 * q + 365 * s + dayOfYear;
            0 <= doe - doe / 1_460 + c - (36_500 * c + 1_460 * q + 365 * s) < 365
  {
    var over := 24 * c + q + 365 * s + dayOfYear;
    var carry := if over >= 1_460 then 1 else 0;
    var whole := 25 * c + q;
    assert 36_524 * c + 1_461 * q + 365 * s + dayOfYear == 1_460 * whole + over;
    QuotientIs(1_460 * whole + over, whole + carry, 1_460);
  }

  /** The year guess of the source is exact on every day of every year of an era. */
  lemma YearOfEraRecovered(yearOfEra: nat, dayOfYear: nat)
    requires yearOfEra < 400 && dayOfYear <= (if HasLeapDay(yearOfEra) then 365 else 364)
    ensures var doe := YearStart(yearOfEra) + dayOfYear;
            0 <= doe < 146_097 && YearOfEra(doe) == yearOfEra
  {
    var c, q, s := yearOfEra / 100, yearOfEra % 100 / 4, yearOfEra % 4;
    YearParts(yearOfEra);
    hide YearStart, HasLeapDay;
    YearStartSplit(c, q, s);
    YearGuessed(c, q, s, dayOfYear);
  }

  lemma YearParts(yearOfEra: nat)
    requires yearOfEra < 400
    ensures var c, q, s := yearOfEra / 100, yearOfEra % 100 / 4, yearOfEra % 4;
            && yearOfEra == 100 * c + 4 * q + s && c < 4 && q < 25 && s < 4
            && (HasLeapDay(yearOfEra) ==> s == 3 && (q != 24 || c == 3))
  {
  }

  lemma YearGuessed(c: nat, q: nat, s: nat, dayOfYear: nat)
    requires c < 4 && q < 25 && s < 4
    requires dayOfYear <= if s == 3 && (q != 24 || c == 3) then 365 else 364
    ensures var doe := 36_524 * c + 1_461 * q + 365 * s + dayOfYear;
            doe < 146_097 && YearOfEra(doe) == 100 * c + 4 * q + s
  {
    CenturyOfDay(c, 1_461 * q + 365 * s + dayOfYear);
    LeapGuess(c, q, s, dayOfYear);
    var doe := 36_524 * c + 1_461 * q + 365 * s + dayOfYear;
    var corrected := doe - doe / 1_460 + doe / 36_524 - doe / 146_096;
    assert 365 * (100 * c + 4 * q + s) <= corrected < 365 * (100 * c + 4 * q + s) + 365;
    QuotientIs(corrected, 100 * c + 4 * q + s, 365);
  }

  /** The two eras' floor divisions agree with plain floor division. */
  lemma EraIsFloor(value: int, era: int)
    requires era == 400 || era == 146_097
    ensures Quotient(if value >= 0 then value else value - (era - 1), era) == value / era
  {
  }

  /** The March-based position of a month. */
  lemma MonthRecovered(monthPrime: nat, day: nat)
    requires monthPrime < 12
    requires 1 <= day <= [31, 30, 31, 30, 31, 31, 30, 31, 30, 31, 31, 29][monthPrime]
    ensures var doy := (153 * monthPrime + 2) / 5 + day - 1;
            0 <= doy <= 365 && (5 * doy + 2) / 153 == monthPrime && doy - (153 * monthPrime + 2) / 5 + 1 == day
    ensures monthPrime < 11 || day <= 28 ==> (153 * monthPrime + 2) / 5 + day - 1 <= 364
  {
  }

  lemma LeapDayEndsYear(year: int)
    ensures HasLeapDay(year % 400) == IsLeap(year + 1)
  {
    var k, r := year / 400, year % 400;
    ModuloUnmoved(r + 1, k, 400);
    ModuloUnmoved(r + 1, 4 * k, 100);
    ModuloUnmoved(r + 1, 100 * k, 4);
    assert year + 1 == r + 1 + k * 400 == r + 1 + 4 * k * 100 == r + 1 + 100 * k * 4;
    LeapDayEndsYearOfEra(r);
  }

  lemma LeapDayEndsYearOfEra(r: nat)
    requires r < 400
    ensures HasLeapDay(r) == IsLeap(r + 1)
  {
    NextByFour(r);
    NextByHundred(r);
    assert (r + 1) % 400 == 0 <==> r == 399;
  }

  lemma NextByFour(r: nat)
    ensures (r + 1) % 4 == 0 <==> r % 4 == 3
  {
  }

  lemma NextByHundred(r: nat)
    ensures (r + 1) % 100 == 0 <==> r % 100 == 99
  {
  }

  lemma ModuloUnmoved(value: int, times: int, divisor: int)
    requires divisor > 0
    ensures (value + times * divisor) % divisor == value % divisor
  {
    QuotientIs(value + times * divisor, value / divisor + times, divisor);
  }

  /** The March-based coordinates of a date: what both algorithms pass through. */
  lemma DaysOfDate(year: int, month: int, day: int) returns (y: int, monthPrime: nat, doy: nat)
    requires OnCalendar(year, month, day)
    ensures y == (if month <= 2 then year - 1 else year) && monthPrime == if month > 2 then month - 3 else month + 9
    ensures doy == (153 * monthPrime + 2) / 5 + day - 1
    ensures (5 * doy + 2) / 153 == monthPrime
    ensures doy <= if HasLeapDay(y % 400) then 365 else 364
    ensures DaysFromCivil(year, month, day) == y / 400 * 146_097 + YearStart(y % 400) + doy - 719_468
  {
    y := if month <= 2 then year - 1 else year;
    monthPrime := if month > 2 then month - 3 else month + 9;
    MonthRecovered(monthPrime, day);
    doy := (153 * monthPrime + 2) / 5 + day - 1;
    DaysAre(year, month, day, y, monthPrime);
    hide DaysFromCivil, YearStart, HasLeapDay, IsLeap;
    LeapDayEndsYear(y);
  }

  lemma DaysAre(year: int, month: int, day: int, y: int, monthPrime: int)
    requires y == (if month <= 2 then year - 1 else year) && monthPrime == if month > 2 then month - 3 else month + 9
    ensures DaysFromCivil(year, month, day)
            == y / 400 * 146_097 + YearStart(y % 400) + ((153 * monthPrime + 2) / 5 + day - 1) - 719_468
  {
    hide Quotient;
    EraIsFloor(y, 400);
  }

  lemma DateOfDays(era: int, yearOfEra: nat, doy: nat)
    requires yearOfEra < 400 && doy <= if HasLeapDay(yearOfEra) then 365 else 364
    ensures CivilFromDays(era * 146_097 + YearStart(yearOfEra) + doy - 719_468) ==
            var monthPrime := (5 * doy + 2) / 153;
            var month := if monthPrime < 10 then monthPrime + 3 else monthPrime - 9;
            (yearOfEra + era * 400 + if month <= 2 then 1 else 0, month, doy - (153 * monthPrime + 2) / 5 + 1)
  {
    hide YearOfEra, YearStart, HasLeapDay, CivilFromDays;
    var doe := YearStart(yearOfEra) + doy;
    YearOfEraRecovered(yearOfEra, doy);
    EraOfDays(era, doe);
  }

  lemma EraOfDays(era: int, doe: nat)
    requires doe < 146_097
    ensures CivilFromDays(era * 146_097 + doe - 719_468) == CivilFromEra(era, doe)
  {
    hide CivilFromEra;
    EraIsFloor(era * 146_097 + doe, 146_097);
    QuotientIs(era * 146_097 + doe, era, 146_097);
  }

  /** The source's own inverse claim, on every date its calendar check admits, in any year. */
  lemma CivilInvertsDays(year: int, month: int, day: int)
    requires OnCalendar(year, month, day)
    ensures CivilFromDays(DaysFromCivil(year, month, day)) == (year, month, day)
  {
    hide CivilFromDays, DaysFromCivil, YearStart, HasLeapDay;
    var y, monthPrime, doy := DaysOfDate(year, month, day);
    DateOfDays(y / 400, y % 400, doy);
  }

  /** The date after a date on the calendar. */
  function Tomorrow(year: int, month: int, day: int): (int, int, int) {
    if OnCalendar(year, month, day + 1) then (year, month, day + 1)
    else if month < 12 then (year, month + 1, 1)
    else (year + 1, 1, 1)
  }

  /** Day numbers count the dates of the calendar from the first of January 1970 on. */
  lemma DaysCountFromTheEpoch(year: int, month: int, day: int)
    requires OnCalendar(year, month, day)
    ensures DaysFromCivil(1970, 1, 1) == 0
    ensures var (nextYear, nextMonth, nextDay) := Tomorrow(year, month, day);
            DaysFromCivil(nextYear, nextMonth, nextDay) == DaysFromCivil(year, month, day) + 1
  {
    assert DaysFromCivil(1970, 1, 1) == 0;
    hide DaysFromCivil;
    if !OnCalendar(year, month, day + 1) {
      assert day == DaysInMonth(year, month);
      if month == 2 {
        MarchFollows(year, day);
      } else {
        NextMonthFollows(year, month, day);
      }
    } else {
      var y, monthPrime := if month <= 2 then year - 1 else year, if month > 2 then month - 3 else month + 9;
      hide YearStart, OnCalendar;
      DaysAre(year, month, day, y, monthPrime);
      DaysAre(year, month, day + 1, y, monthPrime);
    }
  }

  lemma MarchFollows(year: int, day: int)
    requires day == DaysInMonth(year, 2)
    ensures DaysFromCivil(year, 3, 1) == DaysFromCivil(year, 2, day) + 1
  {
    hide DaysFromCivil, YearStart, HasLeapDay, IsLeap;
    DaysAre(year, 2, day, year - 1, 11);
    DaysAre(year, 3, 1, year, 0);
    YearFollows(year - 1);
    LeapDayEndsYear(year - 1);
  }

  lemma NextMonthFollows(year: int, month: int, day: int)
    requires 1 <= month <= 12 && month != 2 && day == DaysInMonth(year, month)
    ensures DaysFromCivil(if month < 12 then year else year + 1, if month < 12 then month + 1 else 1, 1)
            == DaysFromCivil(year, month, day) + 1
  {
    var y, monthPrime := if month <= 2 then year - 1 else year, if month > 2 then month - 3 else month + 9;
    MonthFollows(month, monthPrime);
    hide DaysFromCivil, YearStart, DaysInMonth;
    assert (153 * (monthPrime + 1) + 2) / 5 == (153 * monthPrime + 2) / 5 + DaysInMonth(year, month);
    DaysAre(year, month, day, y, monthPrime);
    if month < 12 {
      DaysAre(year, month + 1, 1, y, monthPrime + 1);
    } else {
      DaysAre(year + 1, 1, 1, y, monthPrime + 1);
    }
  }

  lemma MonthFollows(month: int, monthPrime: int)
    requires 1 <= month <= 12 && month != 2 && monthPrime == if month > 2 then month - 3 else month + 9
    ensures forall year :: (153 * (monthPrime + 1) + 2) / 5 == (153 * monthPrime + 2) / 5 + DaysInMonth(year, month)
  {
  }

  lemma YearFollows(y: int)
    ensures (y + 1) / 400 * 146_097 + YearStart((y + 1) % 400)
         == y / 400 * 146_097 + YearStart(y % 400) + if HasLeapDay(y % 400) then 366 else 365
  {
    var r := y % 400;
    if r == 399 {
      QuotientIs(y + 1, y / 400 + 1, 400);
    } else {
      QuotientIs(y + 1, y / 400, 400);
      NextByFour(r);
      NextByHundred(r);
      QuarterFollows(r, 4);
      QuarterFollows(r, 100);
    }
  }

  lemma QuarterFollows(r: nat, step: nat)
    requires step > 0
    ensures (r + 1) / step == r / step + if (r + 1) % step == 0 then 1 else 0
  {
    if r % step == step - 1 {
      QuotientIs(r + 1, r / step + 1, step);
    } else {
      QuotientIs(r + 1, r / step, step);
    }
  }

  /** Every day of an era is a day of exactly one of its years. */
  lemma YearOfDay(doe: nat) returns (yearOfEra: nat, doy: nat)
    requires doe < 146_097
    ensures yearOfEra < 400 && doy <= if HasLeapDay(yearOfEra) then 365 else 364
    ensures doe == YearStart(yearOfEra) + doy
  {
    var c := Min(doe / 36_524, 3);
    var inCentury := doe - 36_524 * c;
    var q := Min(inCentury / 1_461, 24);
    var inCycle := inCentury - 1_461 * q;
    var s := Min(inCycle / 365, 3);
    yearOfEra, doy := 100 * c + 4 * q + s, inCycle - 365 * s;
    YearStartSplit(c, q, s);
    assert inCentury <= 36_524 && (inCentury == 36_524 ==> c == 3);
    assert inCycle <= 1_460 && (inCycle == 1_460 ==> q < 24 || c == 3);
    assert yearOfEra % 4 == s && yearOfEra % 100 == 4 * q + s;
  }

  /** The month and day of a March-based day of the year. */
  lemma MonthOfDay(doy: nat)
    requires doy <= 365
    ensures var monthPrime := (5 * doy + 2) / 153;
            monthPrime < 12
            && 1 <= doy - (153 * monthPrime + 2) / 5 + 1 <= [31, 30, 31, 30, 31, 31, 30, 31, 30, 31, 31, 29][monthPrime]
            && (monthPrime == 11 && doy <= 364 ==> doy - (153 * monthPrime + 2) / 5 + 1 <= 28)
  {
  }

  /** The other direction: every day number has a date on the calendar, and that date has the day number. */
  lemma DaysInvertCivil(days: int)
    ensures var (year, month, day) := CivilFromDays(days);
            OnCalendar(year, month, day) && DaysFromCivil(year, month, day) == days
  {
    hide CivilFromDays, DaysFromCivil, YearStart, HasLeapDay, OnCalendar;
    var era, doe := (days + 719_468) / 146_097, (days + 719_468) % 146_097;
    var yearOfEra, doy := YearOfDay(doe);
    DateOfDays(era, yearOfEra, doy);
    MonthOfDay(doy);
    DateOnCalendar(era, yearOfEra, doy);
  }

  lemma DateOnCalendar(era: int, yearOfEra: nat, doy: nat)
    requires yearOfEra < 400 && doy <= if HasLeapDay(yearOfEra) then 365 else 364
    ensures var monthPrime := (5 * doy + 2) / 153;
            var month := if monthPrime < 10 then monthPrime + 3 else monthPrime - 9;
            var year := yearOfEra + era * 400 + if month <= 2 then 1 else 0;
            var day := doy - (153 * monthPrime + 2) / 5 + 1;
            OnCalendar(year, month, day)
            && DaysFromCivil(year, month, day) == era * 146_097 + YearStart(yearOfEra) + doy - 719_468
  {
    hide DaysFromCivil, YearStart;
    MonthOfDay(doy);
    var y := yearOfEra + era * 400;
    QuotientIs(y, era, 400);
    var monthPrime := (5 * doy + 2) / 153;
    var month := if monthPrime < 10 then monthPrime + 3 else monthPrime - 9;
    LeapDayEndsYear(y);
    hide IsLeap, HasLeapDay;
    var _, _, _ := DaysOfDate(if month <= 2 then y + 1 else y, month, doy - (153 * monthPrime + 2) / 5 + 1);
  }
}

/** RFC 3339 text (sections 5.6 and 5.7 of RFC 3339) as `src/mcp.rs` prints and reads it.

    Text is held as the bytes the source works on, one `char` a byte. */
module Instants {
  import opened Common
  import opened Calendar

  // ---------------------------------------------------------------- printing

  function DigitChar(value: nat): char
    requires value < 10
  {
    '0' + value as char
  }

  /** The source's `{value:0width}`. */
  function Padded(value: nat, width: nat): (text: string)
    ensures |text| >= 1
    decreases value + width
  {
    if value < 10 && width <= 1 then [DigitChar(value)]
    else Padded(value / 10, if width == 0 then 0 else width - 1) + [DigitChar(value % 10)]
  }

  lemma PaddedTwo(value: nat)
    requires value < 100
    ensures Padded(value, 2) == [DigitChar(value / 10), DigitChar(value % 10)]
  {
  }

  lemma PaddedFour(value: nat)
    requires value < 10_000
    ensures Padded(value, 4) == [DigitChar(value / 10 / 10 / 10), DigitChar(value / 10 / 10 % 10),
                                 DigitChar(value / 10 % 10), DigitChar(value % 10)]
  {
    hide DigitChar;
    var tens, hundreds := value / 10, value / 10 / 10;
    assert Padded(value, 4) == Padded(tens, 3) + [DigitChar(value % 10)];
    assert Padded(tens, 3) == Padded(hundreds, 2) + [DigitChar(tens % 10)];
    PaddedTwo(hundreds);
  }

  /** Every day a `u64` of nanoseconds can reach has a four-digit year. */
  lemma YearInRange(nanos: U64)
    ensures var (year, month, day) := CivilFromDays(nanos / 1_000_000_000 / 86_400);
            1600 <= year < 10_000 && 1 <= month <= 12 && 1 <= day <= 31
  {
    hide CivilFromEra;
    var days := nanos / 1_000_000_000 / 86_400;
    DaysInvertCivil(days);
    var era, doe := (days + 719_468) / 146_097, (days + 719_468) % 146_097;
    assert 4 <= era <= 6;
    EraOfDays(era, doe);
    YearOfEraBelow(era, doe);
  }

  lemma YearOfEraBelow(era: int, doe: nat)
    requires doe < 146_097
    ensures era * 400 <= CivilFromEra(era, doe).0 <= era * 400 + 400
  {
    var yearOfEra, doy := YearOfDay(doe);
    YearOfEraRecovered(yearOfEra, doy);
  }

  /** `2026-07-27T11:02:14Z`. */
  function Rfc3339(nanos: U64): string {
    var seconds := nanos / 1_000_000_000;
    var days, within := seconds / 86_400, seconds % 86_400;
    YearInRange(nanos);
    var (year, month, day) := CivilFromDays(days);
    Padded(year, 4) + "-" + Padded(month, 2) + "-" + Padded(day, 2) + "T" + Padded(within / 3_600, 2) + ":"
    + Padded(within % 3_600 / 60, 2) + ":" + Padded(within % 60, 2) + "Z"
  }

  // ---------------------------------------------------------------- reading

  datatype Part = Year | Month | Day | Hour | Minute | Seconds | FractionalSecond | Time | UtcOffset | TimeZone

  datatype TimeError =
    | Unrecognized
    | Unreadable(what: Part)
    | NotOnCalendar
    | NoSeparator
    | NotATimeOfDay
    | OffsetTooLarge
    | OutOfRange
    | BeforeEpoch

  predicate IsDigit(c: char) { '0' <= c <= '9' }

  function DigitValue(c: char): nat
    requires IsDigit(c)
  {
    c as int - '0' as int
  }

  predicate DigitAt(text: string, at: nat) {
    at < |text| && IsDigit(text[at])
  }

  predicate CharAt(text: string, at: nat, c: char) {
    at < |text| && text[at] == c
  }

  function Two(text: string, at: nat, what: Part): Result<nat, TimeError> {
    if DigitAt(text, at) && DigitAt(text, at + 1) then Ok(DigitValue(text[at]) * 10 + DigitValue(text[at + 1]))
    else Err(Unreadable(what))
  }

  predicate AllDigits(text: string, from: nat, to: nat) {
    from <= to <= |text| && forall i :: from <= i < to ==> IsDigit(text[i])
  }

  /** The number a run of digits spells. */
  function DigitsValue(text: string): nat
    requires AllDigits(text, 0, |text|)
  {
    if text == [] then 0 else DigitsValue(text[..|text| - 1]) * 10 + DigitValue(text[|text| - 1])
  }

  /** How many digits start at `at`. */
  function DigitRun(text: string, at: nat): (count: nat)
    ensures at + count <= Max(at, |text|)
    ensures forall i :: at <= i < at + count ==> i < |text| && IsDigit(text[i])
    ensures !DigitAt(text, at + count)
    decreases |text| - at
  {
    if DigitAt(text, at) then 1 + DigitRun(text, at + 1) else 0
  }

  function Pow10(exponent: nat): nat {
    if exponent == 0 then 1 else 10 * Pow10(exponent - 1)
  }

  /** `year`: exactly four digits. */
  function Four(text: string, at: nat, what: Part): Result<nat, TimeError> {
    if DigitRun(text, at) >= 4 then Ok(DigitsValue(text[at..at + 4])) else Err(Unreadable(what))
  }

  /** The nanoseconds after the point at `at`, and where the digits end: nine digits count, any more are skipped. */
  function Fraction(text: string, at: nat): Result<(nat, nat), TimeError> {
    var run := DigitRun(text, at + 1);
    var kept := Min(run, 9);
    if run == 0 then Err(Unreadable(FractionalSecond))
    else Ok((DigitsValue(text[at + 1..at + 1 + kept]) * Pow10(9 - kept), at + 1 + run))
  }

  /** The seconds a UTC offset takes off the local time. */
  function Zone(text: string, at: nat): Result<int, TimeError> {
    if at >= |text| then Ok(0)
    else if (text[at] == 'Z' || text[at] == 'z') && at + 1 == |text| then Ok(0)
    else if text[at] == '+' || text[at] == '-' then
      var sign := if text[at] == '+' then -1 else 1;
      var hours :- Two(text, at + 1, UtcOffset);
      var minuteAt := if CharAt(text, at + 3, ':') then at + 4 else at + 3;
      var minutes :- Two(text, minuteAt, UtcOffset);
      if |text| > minuteAt + 2 then Err(Unreadable(UtcOffset))
      else if hours > 23 || minutes > 59 then Err(OffsetTooLarge)
      else Ok(sign * (hours * 3_600 + minutes * 60))
    else Err(Unreadable(TimeZone))
  }

  /** The second field, when there is one: a leap second counts as the second before it. */
  function Second(text: string, at: nat): Result<(nat, nat), TimeError> {
    if !CharAt(text, at, ':') then Ok((0, at))
    else
      var second :- Two(text, at + 1, Seconds);
      if second > 60 then Err(NotATimeOfDay) else Ok((Min(second, 59), at + 3))
  }

  /** Everything after the date: seconds into the day in UTC, and nanoseconds. */
  function Clock(text: string): Result<(int, nat), TimeError>
    requires |text| > 10
  {
    if text[10] != 'T' && text[10] != 't' && text[10] != ' ' then Err(NoSeparator)
    else
      var hour :- Two(text, 11, Hour);
      if !CharAt(text, 13, ':') then Err(Unreadable(Time))
      else
        var minute :- Two(text, 14, Minute);
        if hour > 23 || minute > 59 then Err(NotATimeOfDay)
        else
          var (seconds, nanos) :- AfterMinute(text, 16);
          Ok((hour * 3_600 + minute * 60 + seconds, nanos))
  }

  /** The optional second, fraction and zone: seconds to add, and nanoseconds. */
  function AfterMinute(text: string, at: nat): Result<(int, nat), TimeError> {
    var (second, at') :- Second(text, at);
    var (nanos, at'') :- if CharAt(text, at', '.') then Fraction(text, at') else Ok((0, at'));
    var offset :- Zone(text, at'');
    Ok((second + offset, nanos))
  }

  /** The source's checked `i64` arithmetic, and its refusal of instants before the epoch. */
  function Total(seconds: int, nanos: nat): Result<nat, TimeError> {
    var scaled := seconds * NANOS;
    if !(I64_MIN <= scaled <= I64_MAX) || scaled + nanos > I64_MAX then Err(OutOfRange)
    else if scaled + nanos < 0 then Err(BeforeEpoch)
    else Ok(scaled + nanos)
  }

  function Parsed(text: string): Result<nat, TimeError> {
    if |text| < 10 || text[4] != '-' || text[7] != '-' then Err(Unrecognized)
    else
      var year :- Four(text, 0, Year);
      var month :- Two(text, 5, Month);
      var day :- Two(text, 8, Day);
      if !OnCalendar(year, month, day) then Err(NotOnCalendar)
      else
        var midnight := DaysFromCivil(year, month, day) * DAY_SECONDS;
        if |text| == 10 then Total(midnight, 0)
        else
          var (seconds, nanos) :- Clock(text);
          Total(midnight + seconds, nanos)
  }

  // ---------------------------------------------------------------- the loops of the source

  lemma DigitsValueStep(text: string, from: nat, to: nat)
    requires AllDigits(text, from, to + 1) && from <= to
    ensures AllDigits(text[from..to], 0, to - from) && AllDigits(text[from..to + 1], 0, to + 1 - from)
    ensures DigitsValue(text[from..to + 1]) == DigitsValue(text[from..to]) * 10 + DigitValue(text[to])
  {
    var run := text[from..to + 1];
    assert run[..|run| - 1] == text[from..to];
  }

  lemma DigitRunIs(text: string, at: nat, count: nat)
    requires forall i :: at <= i < at + count ==> i < |text| && IsDigit(text[i])
    ensures DigitRun(text, at) >= count
    ensures !DigitAt(text, at + count) ==> DigitRun(text, at) == count
    decreases count
  {
    if count > 0 {
      DigitRunIs(text, at + 1, count - 1);
    }
  }

  method ScanFour(text: string, at: nat, what: Part) returns (result: Result<nat, TimeError>)
    ensures result == Four(text, at, what)
  {
    var value := 0;
    for offset := 0 to 4
      invariant offset == 0 ==> value == 0
      invariant offset > 0 ==> AllDigits(text, at, at + offset) && value == DigitsValue(text[at..at + offset])
    {
      if !DigitAt(text, at + offset) {
        DigitRunIs(text, at, offset);
        return Err(Unreadable(what));
      }
      DigitsValueStep(text, at, at + offset);
      value := value * 10 + DigitValue(text[at + offset]);
    }
    DigitRunIs(text, at, 4);
    return Ok(value);
  }

  method ScanFraction(text: string, at: nat) returns (result: Result<(nat, nat), TimeError>)
    requires at < |text|
    ensures result == Fraction(text, at)
  {
    hide DigitValue, IsDigit, Pow10, Fraction, DigitRun;
    var digits := 0;
    var fraction := 0;
    while digits < 9 && DigitAt(text, at + 1 + digits)
      invariant digits <= 9 && AllDigits(text, at + 1, at + 1 + digits)
      invariant fraction == DigitsValue(text[at + 1..at + 1 + digits])
    {
      DigitsValueStep(text, at + 1, at + 1 + digits);
      fraction := fraction * 10 + DigitValue(text[at + 1 + digits]);
      digits := digits + 1;
    }
    FractionIs(text, at, digits);
    if digits == 0 {
      return Err(Unreadable(FractionalSecond));
    }
    var next := SkipDigits(text, at + 1 + digits, at + 1);
    return Ok((fraction * Pow10(9 - digits), next));
  }

  /** What the loop over at most nine digits has found when it stops. */
  lemma FractionIs(text: string, at: nat, digits: nat)
    requires digits <= 9 && AllDigits(text, at + 1, at + 1 + digits)
    requires digits == 9 || !DigitAt(text, at + 1 + digits)
    ensures Fraction(text, at)
            == if digits == 0 then Err(Unreadable(FractionalSecond))
               else Ok((DigitsValue(text[at + 1..at + 1 + digits]) * Pow10(9 - digits), at + 1
                        + DigitRun(text, at + 1)))
  {
    DigitRunIs(text, at + 1, digits);
    hide DigitValue, IsDigit, Pow10, DigitsValue, DigitRun;
  }

  method SkipDigits(text: string, from: nat, ghost start: nat) returns (next: nat)
    requires start <= from && AllDigits(text, start, from)
    ensures next == start + DigitRun(text, start)
  {
    next := from;
    while DigitAt(text, next)
      invariant from <= next && AllDigits(text, start, next)
      decreases |text| - next
    {
      next := next + 1;
    }
    DigitRunIs(text, start, next - start);
  }

  method ParseIso(text: string) returns (result: Result<nat, TimeError>)
    ensures result == Parsed(text)
  {
    hide Two, Four, OnCalendar, DaysFromCivil, Fraction, Zone, Total;
    if |text| < 10 || text[4] != '-' || text[7] != '-' {
      return Err(Unrecognized);
    }
    var year :- ScanFour(text, 0, Year);
    var month :- Two(text, 5, Month);
    var day :- Two(text, 8, Day);
    if !OnCalendar(year, month, day) {
      return Err(NotOnCalendar);
    }
    var seconds := DaysFromCivil(year, month, day) * DAY_SECONDS;
    var nanos := 0;
    var at := 10;
    if |text| > at {
      if text[at] != 'T' && text[at] != 't' && text[at] != ' ' {
        return Err(NoSeparator);
      }
      at := at + 1;
      var hour :- Two(text, at, Hour);
      if !CharAt(text, at + 2, ':') {
        return Err(Unreadable(Time));
      }
      var minute :- Two(text, at + 3, Minute);
      if hour > 23 || minute > 59 {
        return Err(NotATimeOfDay);
      }
      seconds := seconds + (hour * 3_600 + minute * 60);
      at := at + 5;
      if CharAt(text, at, ':') {
        var second :- Two(text, at + 1, Seconds);
        if second > 60 {
          return Err(NotATimeOfDay);
        }
        seconds := seconds + Min(second, 59);
        at := at + 3;
      }
      if CharAt(text, at, '.') {
        var scanned :- ScanFraction(text, at);
        nanos := scanned.0;
        at := scanned.1;
      }
      var offset :- Zone(text, at);
      seconds := seconds + offset;
    }
    return Total(seconds, nanos);
  }

  // ---------------------------------------------------------------- the grammar, and what the reader makes of it

  datatype ZoneSyntax =
    | Unstated
    | Utc(upper: bool)
    | Offset(east: bool, hours: nat, minutes: nat, colon: bool)

  /** A timestamp as it can be spelled: the second, the fraction and the zone may be missing. */
  datatype Stamp = Stamp(year: nat, month: nat, day: nat, separator: char, hour: nat, minute: nat,
                         second: Option<nat>, fraction: string, zone: ZoneSyntax)

  predicate WellSpelled(stamp: Stamp) {
    && stamp.year < 10_000 && OnCalendar(stamp.year, stamp.month, stamp.day)
    && (stamp.separator == 'T' || stamp.separator == 't' || stamp.separator == ' ')
    && stamp.hour <= 23 && stamp.minute <= 59
    && (stamp.second.Some? ==> stamp.second.value <= 60)
    && AllDigits(stamp.fraction, 0, |stamp.fraction|)
    && (stamp.zone.Offset? ==> stamp.zone.hours <= 23 && stamp.zone.minutes <= 59)
  }

  function DateText(year: nat, month: nat, day: nat): string {
    Padded(year, 4) + ("-" + (Padded(month, 2) + ("-" + Padded(day, 2))))
  }

  function ZoneText(zone: ZoneSyntax): string {
    match zone
    case Unstated => ""
    case Utc(upper) => if upper then "Z" else "z"
    case Offset(east, hours, minutes, colon) =>
      (if east then "+" else "-") + (Padded(hours, 2) + ((if colon then ":" else "") + Padded(minutes, 2)))
  }

  function FractionText(fraction: string): string {
    if fraction == "" then "" else "." + fraction
  }

  function SecondText(second: Option<nat>): string {
    if second.None? then "" else ":" + Padded(second.value, 2)
  }

  function Spelled(stamp: Stamp): string {
    DateText(stamp.year, stamp.month, stamp.day)
    + ([stamp.separator] + (Padded(stamp.hour, 2) + (":" + (Padded(stamp.minute, 2)
    + (SecondText(stamp.second) + (FractionText(stamp.fraction) + ZoneText(stamp.zone)))))))
  }

  /** The nanoseconds a fraction stands for, cut to nine digits. */
  function FractionNanos(fraction: string): nat
    requires AllDigits(fraction, 0, |fraction|)
  {
    if |fraction| <= 9 then DigitsValue(fraction) * Pow10(9 - |fraction|) else DigitsValue(fraction[..9])
  }

  /** The seconds a zone takes off, as a number to add. */
  function ZoneSeconds(zone: ZoneSyntax): int {
    match zone
    case Offset(east, hours, minutes, _) => (if east then -1 else 1) * (hours * 3_600 + minutes * 60)
    case _ => 0
  }

  /** Section 5.6: local time minus the offset; a leap second is the second before it. */
  function UtcSeconds(stamp: Stamp): int {
    DaysFromCivil(stamp.year, stamp.month, stamp.day) * DAY_SECONDS
    + stamp.hour * 3_600 + stamp.minute * 60 + Min(stamp.second.GetOr(0), 59)
    + ZoneSeconds(stamp.zone)
  }

  lemma TwoReads(text: string, at: nat, value: nat, rest: string, what: Part)
    requires value < 100 && at <= |text| && text[at..] == Padded(value, 2) + rest
    ensures Two(text, at, what) == Ok(value) && at + 2 <= |text| && text[at + 2..] == rest
  {
    PaddedTwo(value);
    assert text[at] == text[at..][0] && text[at + 1] == text[at..][1];
    assert text[at + 2..] == text[at..][2..];
  }

  lemma FourReads(text: string, value: nat, rest: string)
    requires value < 10_000 && text == Padded(value, 4) + rest
    ensures Four(text, 0, Year) == Ok(value) && 4 <= |text| && text[4..] == rest
  {
    PaddedFour(value);
    var digits := Padded(value, 4);
    assert text[..4] == digits && text[4..] == rest;
    assert forall i :: 0 <= i < 4 ==> text[i] == digits[i];
    hide Padded, DigitsValue, DigitRun;
    FourDigits(text);
    DigitRunIs(text, 0, 4);
    DigitsJoin(value);
  }

  lemma FourDigits(text: string)
    requires AllDigits(text, 0, 4)
    ensures AllDigits(text[0..4], 0, 4)
    ensures DigitsValue(text[0..4])
            == ((DigitValue(text[0]) * 10 + DigitValue(text[1])) * 10 + DigitValue(text[2])) * 10
                                       + DigitValue(text[3])
  {
    hide DigitValue;
    assert DigitsValue(text[0..0]) == 0;
    hide DigitsValue;
    DigitsValueStep(text, 0, 0);
    DigitsValueStep(text, 0, 1);
    DigitsValueStep(text, 0, 2);
    DigitsValueStep(text, 0, 3);
  }

  lemma DigitsJoin(value: nat)
    ensures (((value / 10 / 10 / 10) * 10 + value / 10 / 10 % 10) * 10 + value / 10 % 10) * 10 + value % 10 == value
  {
  }

  lemma FractionReads(text: string, at: nat, fraction: string, rest: string)
    requires at <= |text| && fraction != "" && text[at..] == "." + fraction + rest
    requires AllDigits(fraction, 0, |fraction|) && !DigitAt(rest, 0)
    ensures CharAt(text, at, '.') && Fraction(text, at) == Ok((FractionNanos(fraction), at + 1 + |fraction|))
    ensures at + 1 + |fraction| <= |text| && text[at + 1 + |fraction|..] == rest
  {
    var from := at + 1;
    assert text[at] == text[at..][0];
    PointThen(text, at, fraction, rest);
    DigitRunIs(text, from, |fraction|);
    var kept := Min(|fraction|, 9);
    assert text[from..from + kept] == fraction[..kept];
    assert fraction[..|fraction|] == fraction;
  }

  lemma PointThen(text: string, at: nat, fraction: string, rest: string)
    requires at <= |text| && text[at..] == "." + fraction + rest
    ensures var from := at + 1;
            && from + |fraction| <= |text| && text[from..from + |fraction|] == fraction
            && text[from + |fraction|..] == rest
            && forall i :: 0 <= i < |fraction| + |rest| ==> text[from + i] == (fraction + rest)[i]
  {
    var from, tail := at + 1, fraction + rest;
    assert "." + fraction + rest == "." + tail;
    assert text[from..] == text[at..][1..] == tail;
    assert text[from..from + |fraction|] == tail[..|fraction|];
    assert text[from + |fraction|..] == tail[|fraction|..];
  }

  lemma ZoneReads(text: string, at: nat, zone: ZoneSyntax)
    requires at <= |text| && text[at..] == ZoneText(zone)
    requires zone.Offset? ==> zone.hours <= 23 && zone.minutes <= 59
    ensures Zone(text, at) == Ok(ZoneSeconds(zone))
    ensures !CharAt(text, at, '.') && !CharAt(text, at, ':') && !DigitAt(ZoneText(zone), 0)
  {
    hide Padded;
    if at < |text| {
      assert text[at] == text[at..][0];
    }
    if zone.Offset? {
      var minuteText := Padded(zone.minutes, 2);
      var afterHours := (if zone.colon then ":" else "") + minuteText;
      assert text[at + 1..] == text[at..][1..];
      assert text[at + 1..] == Padded(zone.hours, 2) + afterHours;
      TwoReads(text, at + 1, zone.hours, afterHours, UtcOffset);
      PaddedTwo(zone.minutes);
      assert text[at + 3] == text[at + 3..][0];
      var minuteAt := if zone.colon then at + 4 else at + 3;
      assert text[minuteAt..] == minuteText + "";
      TwoReads(text, minuteAt, zone.minutes, "", UtcOffset);
    }
  }

  lemma SecondReads(text: string, at: nat, second: Option<nat>, rest: string) returns (next: nat)
    requires at <= |text| && text[at..] == SecondText(second) + rest
    requires second.Some? ==> second.value <= 60
    requires !CharAt(rest, 0, ':')
    ensures at <= next <= |text| && Second(text, at) == Ok((Min(second.GetOr(0), 59), next)) && text[next..] == rest
  {
    hide Padded;
    next := at;
    if at < |text| {
      assert text[at] == text[at..][0];
    }
    if second.Some? {
      assert text[at + 1..] == text[at..][1..] == Padded(second.value, 2) + rest;
      TwoReads(text, at + 1, second.value, rest, Seconds);
      next := at + 3;
    }
  }

  lemma ClockReads(text: string, stamp: Stamp)
    requires WellSpelled(stamp) && |text| > 10
    requires text[10..] == [stamp.separator] + (Padded(stamp.hour, 2) + (":" + (Padded(stamp.minute, 2)
                           + (SecondText(stamp.second) + (FractionText(stamp.fraction) + ZoneText(stamp.zone))))))
    ensures Clock(text) == Ok((UtcSeconds(stamp) - DaysFromCivil(stamp.year, stamp.month, stamp.day) * DAY_SECONDS,
                               FractionNanos(stamp.fraction)))
  {
    hide Padded, DaysFromCivil, OnCalendar, Two, AfterMinute, FractionNanos, SecondText, FractionText, ZoneText,
         AllDigits;
    var rest := SecondText(stamp.second) + (FractionText(stamp.fraction) + ZoneText(stamp.zone));
    var minute := ":" + (Padded(stamp.minute, 2) + rest);
    assert text[10] == text[10..][0];
    assert text[11..] == text[10..][1..] == Padded(stamp.hour, 2) + minute;
    TwoReads(text, 11, stamp.hour, minute, Hour);
    assert text[13] == text[13..][0];
    assert text[14..] == text[13..][1..] == Padded(stamp.minute, 2) + rest;
    TwoReads(text, 14, stamp.minute, rest, Minute);
    AfterMinuteReads(text, 16, stamp);
  }

  lemma AfterMinuteReads(text: string, at: nat, stamp: Stamp)
    requires WellSpelled(stamp) && at <= |text|
    requires text[at..] == SecondText(stamp.second) + (FractionText(stamp.fraction) + ZoneText(stamp.zone))
    ensures AfterMinute(text, at) ==
            Ok((Min(stamp.second.GetOr(0), 59) + ZoneSeconds(stamp.zone), FractionNanos(stamp.fraction)))
  {
    hide OnCalendar, Fraction, Zone, Second, FractionNanos, SecondText, AllDigits;
    var zone := ZoneText(stamp.zone);
    ZoneReads(zone, 0, stamp.zone);
    var at' := SecondReads(text, at, stamp.second, FractionText(stamp.fraction) + zone);
    FractionThenZone(text, at', stamp.fraction, stamp.zone);
  }

  lemma FractionThenZone(text: string, at: nat, fraction: string, zone: ZoneSyntax)
    requires at <= |text| && text[at..] == FractionText(fraction) + ZoneText(zone)
    requires AllDigits(fraction, 0, |fraction|)
    requires zone.Offset? ==> zone.hours <= 23 && zone.minutes <= 59
    ensures var after := if fraction == "" then at else at + 1 + |fraction|;
            && (if CharAt(text, at, '.') then Fraction(text, at) else Ok((0, at)))
               == Ok((FractionNanos(fraction), after))
            && Zone(text, after) == Ok(ZoneSeconds(zone))
  {
    hide Zone, Fraction;
    ZoneReads(ZoneText(zone), 0, zone);
    var after := if fraction == "" then at else at + 1 + |fraction|;
    if fraction == "" {
      assert text[at..] == ZoneText(zone);
      if at < |text| {
        assert text[at] == text[at..][0];
      }
      assert DigitsValue("") == 0;
    } else {
      FractionReads(text, at, fraction, ZoneText(zone));
    }
    assert text[after..] == ZoneText(zone);
    ZoneReads(text, after, zone);
  }

  /** The reader is right on the whole grammar, whatever is left out and however the offset is written. */
  lemma ReadsEveryStamp(stamp: Stamp)
    requires WellSpelled(stamp)
    ensures Parsed(Spelled(stamp)) == Total(UtcSeconds(stamp), FractionNanos(stamp.fraction))
  {
    hide Padded, DaysFromCivil, OnCalendar, Clock, Two, Four, Total, FractionNanos;
    var text := Spelled(stamp);
    var rest := [stamp.separator] + (Padded(stamp.hour, 2) + (":" + (Padded(stamp.minute, 2)
                + (SecondText(stamp.second) + (FractionText(stamp.fraction) + ZoneText(stamp.zone))))));
    assert text == DateText(stamp.year, stamp.month, stamp.day) + rest;
    DatePartsBelow(stamp);
    ReadsDate(text, stamp.year, stamp.month, stamp.day, rest);
    ClockReads(text, stamp);
  }

  lemma ReadsDate(text: string, year: nat, month: nat, day: nat, rest: string)
    requires year < 10_000 && month < 100 && day < 100
    requires text == DateText(year, month, day) + rest
    ensures 10 <= |text| && text[4] == text[7] == '-' && text[10..] == rest
    ensures Four(text, 0, Year) == Ok(year) && Two(text, 5, Month) == Ok(month) && Two(text, 8, Day) == Ok(day)
  {
    hide Padded;
    var dayText := Padded(day, 2) + rest;
    var monthText := Padded(month, 2) + ("-" + dayText);
    assert text == Padded(year, 4) + ("-" + monthText);
    FourReads(text, year, "-" + monthText);
    assert text[4] == text[4..][0];
    assert text[5..] == text[4..][1..] == monthText;
    TwoReads(text, 5, month, "-" + dayText, Month);
    assert text[7] == text[7..][0];
    assert text[8..] == text[7..][1..] == dayText;
    TwoReads(text, 8, day, rest, Day);
  }

  lemma DatePartsBelow(stamp: Stamp)
    requires WellSpelled(stamp)
    ensures stamp.month < 100 && stamp.day < 100
  {
  }

  // ---------------------------------------------------------------- the printer's own text

  /** The first instant whose whole seconds no longer fit the reader's `i64`: 2262-04-11T23:47:17Z. */
  const FIRST_UNREADABLE: nat := 9_223_372_037 * 1_000_000_000

  ghost function StampOf(nanos: U64): Stamp {
    var seconds := nanos / 1_000_000_000;
    var days, within := seconds / 86_400, seconds % 86_400;
    YearInRange(nanos);
    var (year, month, day) := CivilFromDays(days);
    Stamp(year, month, day, 'T', within / 3_600, within % 3_600 / 60, Some(within % 60), "", Utc(true))
  }

  lemma PrintsAStamp(nanos: U64)
    ensures WellSpelled(StampOf(nanos)) && Rfc3339(nanos) == Spelled(StampOf(nanos))
    ensures UtcSeconds(StampOf(nanos)) == nanos / 1_000_000_000
    ensures |Rfc3339(nanos)| >= 10
  {
    hide WellSpelled, StampOf, Rfc3339, Spelled;
    StampSeconds(nanos);
    StampText(nanos);
    ReadsEveryStampLength(StampOf(nanos));
  }

  lemma StampSeconds(nanos: U64)
    ensures WellSpelled(StampOf(nanos)) && UtcSeconds(StampOf(nanos)) == nanos / 1_000_000_000
  {
    hide CivilFromDays, DaysFromCivil, IsLeap;
    YearInRange(nanos);
    DaysInvertCivil(nanos / 1_000_000_000 / 86_400);
  }

  lemma StampText(nanos: U64)
    ensures Rfc3339(nanos) == Spelled(StampOf(nanos))
    ensures |Rfc3339(nanos)| >= |DateText(StampOf(nanos).year, StampOf(nanos).month, StampOf(nanos).day)|
  {
    hide Padded, CivilFromDays;
    var stamp := StampOf(nanos);
    YearInRange(nanos);
    var seconds2 := ":" + (Padded(stamp.minute, 2) + (":" + Padded(stamp.second.value, 2) + ("" + "Z")));
    assert SecondText(stamp.second) == ":" + Padded(stamp.second.value, 2);
    assert FractionText("") == "" && ZoneText(Utc(true)) == "Z";
    assert Spelled(stamp) == DateText(stamp.year, stamp.month, stamp.day)
                             + (['T'] + (Padded(stamp.hour, 2) + seconds2));
  }

  lemma ReadsEveryStampLength(stamp: Stamp)
    requires WellSpelled(stamp)
    ensures |DateText(stamp.year, stamp.month, stamp.day)| == 10
  {
    hide OnCalendar, AllDigits;
    DatePartsBelow(stamp);
    PaddedFour(stamp.year);
    PaddedTwo(stamp.month);
    PaddedTwo(stamp.day);
  }

  /** Printing and reading back loses exactly the fraction of a second, for exactly the instants before
      2262-04-11T23:47:17Z; every later `u64` prints as a timestamp the reader refuses as out of range. */
  lemma RoundTrip(nanos: U64)
    ensures Parsed(Rfc3339(nanos)) ==
            if nanos < FIRST_UNREADABLE then Ok(nanos - nanos % 1_000_000_000) else Err(OutOfRange)
    ensures Parsed(Rfc3339(nanos)) == Ok(nanos - nanos % 1_000_000_000) <==> nanos < FIRST_UNREADABLE
  {
    hide *;
    PrintsAStamp(nanos);
    var stamp := StampOf(nanos);
    ReadsEveryStamp(stamp);
    StampFraction(nanos);
    WholeSeconds(nanos);
  }

  lemma StampFraction(nanos: U64)
    ensures AllDigits(StampOf(nanos).fraction, 0, |StampOf(nanos).fraction|)
    ensures FractionNanos(StampOf(nanos).fraction) == 0
  {
    hide CivilFromDays;
    assert DigitsValue("") == 0;
  }

  lemma WholeSeconds(nanos: U64)
    ensures Total(nanos / 1_000_000_000, 0) ==
            if nanos < FIRST_UNREADABLE then Ok(nanos - nanos % 1_000_000_000) else Err(OutOfRange)
  {
    var seconds := nanos / 1_000_000_000;
    assert nanos == seconds * 1_000_000_000 + nanos % 1_000_000_000;
    assert nanos < FIRST_UNREADABLE <==> seconds < 9_223_372_037;
  }

  /** `day_bucket` of the analytics fold, with its own copy of the calendar arithmetic. */
  function DayBucket(startNs: U64): string {
    var z := startNs / 1_000_000_000 / 86_400 + 719_468;
    var era, doe := z / 146_097, z % 146_097;
    var yoe := YearOfEra(doe);
    var doy := doe - YearStart(yoe);
    var mp := (5 * doy + 2) / 153;
    var day := doy - (153 * mp + 2) / 5 + 1;
    var month := if mp < 10 then mp + 3 else mp - 9;
    var year := if month <= 2 then yoe + era * 400 + 1 else yoe + era * 400;
    DayBucketParts(startNs);
    DateText(year, month, day)
  }

  lemma DayBucketParts(startNs: U64)
    ensures var days := startNs / 1_000_000_000 / 86_400;
            var z := days + 719_468;
            CivilFromDays(days) == CivilFromEra(z / 146_097, z % 146_097)
    ensures var (year, month, day) := CivilFromDays(startNs / 1_000_000_000 / 86_400);
            1600 <= year && 1 <= month <= 12 && 1 <= day <= 31
  {
    hide CivilFromEra, CivilFromDays;
    var z := startNs / 1_000_000_000 / 86_400 + 719_468;
    EraOfDays(z / 146_097, z % 146_097);
    YearInRange(startNs);
  }

  /** A span's day group is the date its timestamp prints with. */
  lemma DayBucketIsDatePart(startNs: U64)
    ensures DayBucket(startNs) == Rfc3339(startNs)[..10]
  {
    hide Rfc3339, DayBucket, Padded, CivilFromDays, CivilFromEra, UtcSeconds;
    PrintsAStamp(startNs);
    var stamp := StampOf(startNs);
    ReadsEveryStampLength(stamp);
    assert Spelled(stamp)[..10] == DateText(stamp.year, stamp.month, stamp.day);
    DayBucketIsDateText(startNs);
  }

  lemma DayBucketIsDateText(startNs: U64)
    ensures DayBucket(startNs) == DateText(StampOf(startNs).year, StampOf(startNs).month, StampOf(startNs).day)
  {
    hide DateText, CivilFromDays, YearOfEra, YearStart;
    DayBucketParts(startNs);
  }
}

/** The daily trigger's time of day: `At` is appended to a fixed date and
    read with the RFC 3339 layout, so it must be a `full-time` of section
    5.6 of RFC 3339; it is then converted to UTC. Times are integers in
    nanoseconds, the unit of Go's time.Duration. */
module FullTime {
  import opened JobTypes

  const Second: int := 1_000_000_000
  const Day: int := 86400 * Second

  /** The `time-offset` of a full-time: "Z", "+hh:mm" or "-hh:mm". */
  datatype Offset = Zulu | Plus(hours: nat, minutes: nat) | Minus(hours: nat, minutes: nat)

  /** A parsed full-time: hour, minute, second, the digits of the optional
      fraction (empty when there is none) and the offset. */
  datatype Clock = Clock(hour: nat, minute: nat, second: nat, fraction: string, offset: Offset)

  predicate IsDigit(c: char)
  {
    '0' <= c <= '9'
  }

  function DigitValue(c: char): nat
    requires IsDigit(c)
  {
    c as int - '0' as int
  }

  function DigitChar(n: nat): char
    requires n < 10
  {
    ('0' as int + n) as char
  }

  /** Two decimal digits, as `time-hour`, `time-minute` and the like are written. */
  function TwoDigits(s: string): (r: Option<nat>)
    requires |s| == 2
    ensures r.Some? ==> r.value < 100
  {
    if IsDigit(s[0]) && IsDigit(s[1]) then Some(10 * DigitValue(s[0]) + DigitValue(s[1])) else None
  }

  function Pad2(n: nat): string
    requires n < 100
  {
    [DigitChar(n / 10), DigitChar(n % 10)]
  }

  predicate ValidOffset(o: Offset)
  {
    match o
    case Zulu => true
    case Plus(h, m) => h < 24 && m < 60
    case Minus(h, m) => h < 24 && m < 60
  }

  predicate AllDigits(s: string)
  {
    forall i :: 0 <= i < |s| ==> IsDigit(s[i])
  }

  /** The clocks RFC 3339 can write (leap second 60 excluded, as Go's parser excludes it). */
  predicate ValidClock(t: Clock)
  {
    t.hour < 24 && t.minute < 60 && t.second < 60 && AllDigits(t.fraction) && ValidOffset(t.offset)
  }

  function FormatOffset(o: Offset): string
    requires ValidOffset(o)
  {
    match o
    case Zulu => "Z"
    case Plus(h, m) => "+" + Pad2(h) + ":" + Pad2(m)
    case Minus(h, m) => "-" + Pad2(h) + ":" + Pad2(m)
  }

  /** The RFC 3339 text of a clock. */
  function Format(t: Clock): string
    requires ValidClock(t)
  {
    Pad2(t.hour) + ":" + Pad2(t.minute) + ":" + Pad2(t.second)
    + FractionText(t.fraction) + FormatOffset(t.offset)
  }

  function ParseOffset(s: string): (r: Option<Offset>)
    ensures r.Some? ==> ValidOffset(r.value)
  {
    if s == "Z" then Some(Zulu)
    else if |s| == 6 && (s[0] == '+' || s[0] == '-') && s[3] == ':' then
      match (TwoDigits(s[1..3]), TwoDigits(s[4..6]))
      case (Some(h), Some(m)) =>
        if h < 24 && m < 60 then Some(if s[0] == '+' then Plus(h, m) else Minus(h, m)) else None
      case _ => None
    else None
  }

  /** Length of the run of digits at the start of `s`. */
  function DigitRun(s: string): (n: nat)
    ensures n <= |s| && AllDigits(s[..n])
    ensures n < |s| ==> !IsDigit(s[n])
  {
    if s != [] && IsDigit(s[0]) then 1 + DigitRun(s[1..]) else 0
  }

  /** The text after "hh:mm:ss": an optional "." with one or more digits,
      then the offset. */
  function ParseTail(h: nat, m: nat, sec: nat, rest: string): (r: Option<Clock>)
    requires rest != []
    ensures r.Some? ==> r.value.hour == h && r.value.minute == m && r.value.second == sec
    ensures r.Some? ==> AllDigits(r.value.fraction) && ValidOffset(r.value.offset)
  {
    var dotted := rest[0] == '.';
    var n := if dotted then DigitRun(rest[1..]) else 0;
    if dotted && n == 0 then None
    else
      assert dotted ==> rest[1..][..n] == rest[1..1 + n];
      var fraction := if dotted then rest[1..1 + n] else [];
      var offsetText := if dotted then rest[1 + n..] else rest;
      match ParseOffset(offsetText)
      case Some(o) => Some(Clock(h, m, sec, fraction, o))
      case None => None
  }

  /** Reads a full-time: "hh:mm:ss", an optional "." and one or more
      digits, then the offset; anything else, or a field out of range, is
      a parse error. */
  function Parse(s: string): (r: Option<Clock>)
    ensures r.Some? ==> ValidClock(r.value)
  {
    if |s| < 9 || s[2] != ':' || s[5] != ':' then None
    else
      var h, m, sec := TwoDigits(s[0..2]), TwoDigits(s[3..5]), TwoDigits(s[6..8]);
      if h.None? || m.None? || sec.None? then None
      else if h.value >= 24 || m.value >= 60 || sec.value >= 60 then None
      else ParseTail(h.value, m.value, sec.value, s[8..])
  }

  lemma Pad2Reads(n: nat)
    requires n < 100
    ensures TwoDigits(Pad2(n)) == Some(n)
  {
  }

  lemma {:induction false} ParseOffsetFormat(o: Offset)
    requires ValidOffset(o)
    ensures ParseOffset(FormatOffset(o)) == Some(o)
  {
    match o
    case Zulu =>
    case Plus(h, m) =>
      var s := FormatOffset(o);
      assert s[1..3] == Pad2(h) && s[4..6] == Pad2(m);
      Pad2Reads(h);
      Pad2Reads(m);
    case Minus(h, m) =>
      var s := FormatOffset(o);
      assert s[1..3] == Pad2(h) && s[4..6] == Pad2(m);
      Pad2Reads(h);
      Pad2Reads(m);
  }

  lemma {:induction false} DigitRunOfDigits(d: string, tail: string)
    requires AllDigits(d)
    requires tail != [] && !IsDigit(tail[0])
    ensures DigitRun(d + tail) == |d|
  {
    if d != [] {
      assert (d + tail)[1..] == d[1..] + tail;
      DigitRunOfDigits(d[1..], tail);
    } else {
      assert d + tail == tail;
    }
  }

  function FractionText(fraction: string): string
  {
    if fraction == [] then "" else "." + fraction
  }

  lemma {:induction false} ParseTailFormat(t: Clock)
    requires ValidClock(t)
    ensures var tail := FractionText(t.fraction) + FormatOffset(t.offset);
            tail != [] && ParseTail(t.hour, t.minute, t.second, tail) == Some(t)
  {
    var off := FormatOffset(t.offset);
    assert off != [] && !IsDigit(off[0]);
    ParseOffsetFormat(t.offset);
    var rest := FractionText(t.fraction) + off;
    if t.fraction != [] {
      assert rest[0] == '.';
      assert rest[1..] == t.fraction + off;
      DigitRunOfDigits(t.fraction, off);
      assert rest[1..1 + |t.fraction|] == t.fraction;
      assert rest[1 + |t.fraction|..] == off;
    } else {
      assert rest == off;
    }
  }

  /** Reading the RFC 3339 text of any valid clock gives that clock back. */
  lemma {:induction false} ParseFormat(t: Clock)
    requires ValidClock(t)
    ensures Parse(Format(t)) == Some(t)
  {
    var head := Pad2(t.hour) + ":" + Pad2(t.minute) + ":" + Pad2(t.second);
    var tail := FractionText(t.fraction) + FormatOffset(t.offset);
    var s := Format(t);
    assert s == head + tail;
    ParseTailFormat(t);
    Pad2Reads(t.hour);
    Pad2Reads(t.minute);
    Pad2Reads(t.second);
    assert s[0..2] == Pad2(t.hour) && s[3..5] == Pad2(t.minute) && s[6..8] == Pad2(t.second);
    assert s[8..] == tail;
  }

  lemma Pad2OfTwoDigits(s: string)
    requires |s| == 2 && TwoDigits(s).Some?
    ensures Pad2(TwoDigits(s).value) == s
  {
  }

  lemma {:induction false} FormatParseOffset(s: string)
    requires ParseOffset(s).Some?
    ensures ValidOffset(ParseOffset(s).value) && FormatOffset(ParseOffset(s).value) == s
  {
    if s != "Z" {
      Pad2OfTwoDigits(s[1..3]);
      Pad2OfTwoDigits(s[4..6]);
      assert s == s[..1] + s[1..3] + ":" + s[4..6];
    }
  }

  /** Whatever text reads as a clock is exactly that clock's RFC 3339 text:
      the parser accepts nothing but full-times. */
  lemma {:induction false} FormatParse(s: string)
    requires Parse(s).Some?
    ensures ValidClock(Parse(s).value) && Format(Parse(s).value) == s
  {
    var t := Parse(s).value;
    Pad2OfTwoDigits(s[0..2]);
    Pad2OfTwoDigits(s[3..5]);
    Pad2OfTwoDigits(s[6..8]);
    var rest := s[8..];
    if rest[0] == '.' {
      var n := DigitRun(rest[1..]);
      assert AllDigits(rest[1..][..n]);
      assert rest[1..1 + n] == rest[1..][..n];
      FormatParseOffset(rest[1 + n..]);
      assert rest == "." + rest[1..1 + n] + rest[1 + n..];
    } else {
      FormatParseOffset(rest);
    }
    assert s == s[0..2] + ":" + s[3..5] + ":" + s[6..8] + rest;
  }

  /** The offset east of UTC, in seconds. */
  function OffsetSeconds(o: Offset): int
  {
    match o
    case Zulu => 0
    case Plus(h, m) => h * 3600 + m * 60
    case Minus(h, m) => -(h * 3600 + m * 60)
  }

  /** Local second of the day the clock names (its fraction is dropped:
      only hour, minute and second are used to build the fire time). */
  function LocalSecondOfDay(t: Clock): int
  {
    t.hour * 3600 + t.minute * 60 + t.second
  }

  /** Second of the UTC day of the instant the clock names. */
  function UtcSecondOfDay(t: Clock): (r: nat)
    ensures r < 86400
  {
    (LocalSecondOfDay(t) - OffsetSeconds(t.offset)) % 86400
  }

  /** Converting to UTC loses nothing: shifting the UTC time of day back
      by the offset gives the local time of day that was written. */
  lemma UtcShiftsBack(t: Clock)
    requires ValidClock(t)
    ensures (UtcSecondOfDay(t) + OffsetSeconds(t.offset)) % 86400 == LocalSecondOfDay(t)
  {
    var l := LocalSecondOfDay(t);
    var o := OffsetSeconds(t.offset);
    var q := (l - o) / 86400;
    assert l - o == q * 86400 + UtcSecondOfDay(t);
    assert UtcSecondOfDay(t) + o == l - q * 86400;
    ModShift(l, -q);
  }

  lemma ModShift(x: int, q: int)
    requires 0 <= x < 86400
    ensures (x + q * 86400) % 86400 == x
  {
  }

  /** The daily trigger's target: the UTC second of the day of `at`, or
      nothing when `at` is not a full-time. */
  function ParseAt(at: string): (r: Option<nat>)
    ensures r.Some? ==> r.value < 86400
  {
    match Parse(at)
    case Some(t) => Some(UtcSecondOfDay(t))
    case None => None
  }

  /** The target of a valid clock's RFC 3339 text is its UTC time of day. */
  lemma ParseAtFormat(t: Clock)
    requires ValidClock(t)
    ensures ParseAt(Format(t)) == Some(UtcSecondOfDay(t))
  {
    ParseFormat(t);
  }

  /** The delay before the first daily run, with `now` read in UTC: the
      distance from now to today's target instant, one day later when that
      instant has passed. It is the time until the next instant at or after
      now whose UTC time of day is the target. */
  function FirstDelay(now: int, target: nat): (d: int)
    requires target < 86400
    ensures 0 <= d < Day
    ensures (now + d) % Day == target * Second
  {
    var midnight := now - now % Day;
    var until := midnight + target * Second - now;
    if until < 0 then until + Day else until
  }

  /** No earlier instant qualifies: the first delay is the only delay below
      a day that lands on the target time of day. */
  lemma FirstDelayUnique(now: int, target: nat, d: int)
    requires target < 86400
    requires 0 <= d < Day && (now + d) % Day == target * Second
    ensures d == FirstDelay(now, target)
  {
    var f := FirstDelay(now, target);
    var q1 := (now + d) / Day;
    var q2 := (now + f) / Day;
    assert now + d == q1 * Day + target * Second;
    assert now + f == q2 * Day + target * Second;
    assert d - f == (q1 - q2) * Day;
    assert -Day < (q1 - q2) * Day < Day;
    assert q1 == q2;
  }

  /** The delay as lines 180-184 of jobs/jobs.go compute it: the date is
      taken from `now` in the local zone (`localOffset` east of UTC, in
      nanoseconds) but the hour, minute and second come from the UTC
      target and the instant is built in UTC. */
  function FirstDelayAsWritten(now: int, localOffset: int, target: nat): (until: int)
    requires target < 86400
    ensures (now + until) % Day == target * Second
  {
    var localDay := (now + localOffset) / Day;
    var until := localDay * Day + target * Second - now;
    if until < 0 then until + Day else until
  }

  /** With the local zone at UTC the code computes the intended delay. */
  lemma AsWrittenAgreesInUtc(now: int, target: nat)
    requires target < 86400
    ensures FirstDelayAsWritten(now, 0, target) == FirstDelay(now, target)
  {
    assert (now / Day) * Day == now - now % Day;
  }

  /** With the local zone twelve hours behind UTC, at 06:00 UTC and a 03:00
      UTC target, the code's delay is negative (the timer fires at once, at
      06:00); fourteen hours ahead, at 12:00 UTC and a 20:00 UTC target, it
      is more than a day (the run comes a day late). */
  lemma AsWrittenWrongOutsideUtc()
    ensures FirstDelayAsWritten(Day + 6 * 3600 * Second, -12 * 3600 * Second, 3 * 3600) < 0
    ensures FirstDelayAsWritten(Day + 12 * 3600 * Second, 14 * 3600 * Second, 20 * 3600) >= Day
    ensures FirstDelay(Day + 6 * 3600 * Second, 3 * 3600) == 21 * 3600 * Second
    ensures FirstDelay(Day + 12 * 3600 * Second, 20 * 3600) == 8 * 3600 * Second
  {
    assert (Day + 6 * 3600 * Second - 12 * 3600 * Second) / Day == 0;
    assert (Day + 12 * 3600 * Second + 14 * 3600 * Second) / Day == 2;
    assert (Day + 6 * 3600 * Second) % Day == 6 * 3600 * Second;
    assert (Day + 12 * 3600 * Second) % Day == 12 * 3600 * Second;
  }
}

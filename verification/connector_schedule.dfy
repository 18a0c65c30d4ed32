/**
 Connector schedules: wall-clock minutes to UTC under 64-bit arithmetic with a truncating
 remainder, HH:MM parsing, and the two request paths that store a schedule.
 */
module ConnectorSchedule {
  import opened Text
  import opened Tables

  const MIN64: int := -0x8000_0000_0000_0000
  const MAX64: int := 0x7FFF_FFFF_FFFF_FFFF
  const DAY: int := 1440

  predicate Int64(x: int) {
    MIN64 <= x <= MAX64
  }

  /** Two's complement wrap-around. */
  function Wrap(x: int): (r: int)
    ensures Int64(r)
    ensures Int64(x) ==> r == x
  {
    (x - MIN64) % 0x1_0000_0000_0000_0000 + MIN64
  }

  /** The remainder by 1440 that takes the sign of the dividend. */
  function TruncRem(a: int): (r: int)
    ensures -DAY < r < DAY
    ensures (r > 0 ==> a > 0) && (r < 0 ==> a < 0)
  {
    if a >= 0 then a % DAY else -((-a) % DAY)
  }

  function LocalMinuteToUTC(value: int, offset: int): int {
    var o := TruncRem(offset);
    TruncRem(Wrap(TruncRem(Wrap(value - o)) + DAY))
  }

  /** The subtraction of the reduced offset stays within 64 bits. */
  predicate NoOverflow(value: int, offset: int) {
    Int64(value - TruncRem(offset))
  }

  lemma TruncRemCongruent(a: int)
    ensures TruncRem(a) % DAY == a % DAY
  {
    if a < 0 {
      var q := (-a) / DAY;
      assert TruncRem(a) == a + q * DAY;
    }
  }

  lemma ModShift(a: int, k: int)
    ensures (a + k * DAY) % DAY == a % DAY
  {
  }

  lemma ModDifference(a: int, b: int, c: int)
    requires b % DAY == c % DAY
    ensures (a - b) % DAY == (a - c) % DAY
  {
    var k := b / DAY - c / DAY;
    assert b - c == k * DAY;
    ModShift(a - b, k);
  }

  /** For all 64-bit inputs the result is a minute of the day, the one the wrapped difference stands for. */
  lemma LandsInDay(value: int, offset: int)
    ensures 0 <= LocalMinuteToUTC(value, offset) < DAY
    ensures LocalMinuteToUTC(value, offset) == Wrap(value - TruncRem(offset)) % DAY
  {
    var d := Wrap(value - TruncRem(offset));
    TruncRemCongruent(d);
    ModShift(TruncRem(d), 1);
  }

  /**
   The result is congruent to value minus offset exactly when the subtraction does not
   overflow: 2^64 is not a multiple of 1440.
   */
  lemma CongruentIffNoOverflow(value: int, offset: int)
    requires Int64(value) && Int64(offset)
    ensures LocalMinuteToUTC(value, offset) == (value - offset) % DAY <==> NoOverflow(value, offset)
  {
    var o := TruncRem(offset);
    LandsInDay(value, offset);
    TruncRemCongruent(offset);
    ModDifference(value, o, offset);
    var d := value - o;
    if d > MAX64 {
      assert Wrap(d) == d - 0x1_0000_0000_0000_0000;
      WrapChangesMinute(d);
    } else if d < MIN64 {
      assert Wrap(d) == d + 0x1_0000_0000_0000_0000;
      WrapChangesMinute(Wrap(d));
    }
  }

  lemma WrapChangesMinute(d: int)
    ensures (d - 0x1_0000_0000_0000_0000) % DAY != d % DAY
  {
    assert 0x1_0000_0000_0000_0000 == 12810238940076077 * DAY + 736;
    ModShift(d - 736, -12810238940076077);
    assert (d - 736) % DAY != d % DAY;
  }

  /** Negation, which leaves the least number unchanged. */
  function Negate(x: int): int {
    Wrap(-x)
  }

  /**
   On minutes of the day the conversion is undone by the negated offset, for every 64-bit
   offset except the least one, whose negation is itself.
   */
  lemma UndoneByNegatedOffset(minute: int, offset: int)
    requires 0 <= minute < DAY && Int64(offset)
    ensures LocalMinuteToUTC(LocalMinuteToUTC(minute, offset), Negate(offset)) == minute <==> offset != MIN64
  {
    var utc := LocalMinuteToUTC(minute, offset);
    MinuteConversion(minute, offset);
    MinuteConversion(utc, Negate(offset));
    if offset != MIN64 {
      ShiftBack(minute, offset);
    } else {
      LeastOffset(minute);
    }
  }

  lemma ShiftBack(minute: int, offset: int)
    requires 0 <= minute < DAY
    ensures ((minute - offset) % DAY + offset) % DAY == minute
  {
    var k := (minute - offset) / DAY;
    ModShift(minute, -k);
    assert (minute - offset) % DAY + offset == minute + (-k) * DAY;
  }

  /** On minutes of the day nothing overflows: the conversion is the Euclidean remainder. */
  lemma MinuteConversion(minute: int, offset: int)
    requires 0 <= minute < DAY && Int64(offset)
    ensures LocalMinuteToUTC(minute, offset) == (minute - offset) % DAY
    ensures 0 <= LocalMinuteToUTC(minute, offset) < DAY
  {
    CongruentIffNoOverflow(minute, offset);
    LandsInDay(minute, offset);
  }

  lemma LeastOffset(minute: int)
    requires 0 <= minute < DAY
    ensures ((minute - MIN64) % DAY - Negate(MIN64)) % DAY != minute
  {
    var k := (minute - MIN64) / DAY;
    assert Negate(MIN64) == MIN64;
    assert -2 * MIN64 == 12810238940076077 * DAY + 736;
    assert (minute - MIN64) % DAY - MIN64 == minute + 736 + (12810238940076077 - k) * DAY;
    ModShift(minute + 736, 12810238940076077 - k);
  }

  /** Hence for every offset the conversion is injective on minutes of the day. */
  lemma ConversionIsInjective(a: int, b: int, offset: int)
    requires 0 <= a < DAY && 0 <= b < DAY && Int64(offset)
    requires LocalMinuteToUTC(a, offset) == LocalMinuteToUTC(b, offset)
    ensures a == b
  {
    CongruentIffNoOverflow(a, offset);
    CongruentIffNoOverflow(b, offset);
    var x, y := (a - offset) / DAY, (b - offset) / DAY;
    assert a - b == (x - y) * DAY;
  }

  // ---------- HH:MM ----------

  /** Integer syntax: an optional sign and at least one digit. */
  function Atoi(s: string): Option<int> {
    if s != "" && s[0] == '-' then (if |s| > 1 && AllDigits(s[1..]) then (var v: int := ValueOf(s[1..]); Some(-v)) else None)
    else if s != "" && s[0] == '+' then (if |s| > 1 && AllDigits(s[1..]) then Some(ValueOf(s[1..])) else None)
    else if s != "" && AllDigits(s) then Some(ValueOf(s)) else None
  }

  /** Every integer is read back from its decimal text. */
  lemma AtoiReadsBack(n: int)
    ensures Atoi(SignedNumeral(n)) == Some(n)
  {
    if n < 0 {
      AtoiReadsMinus(n);
    } else {
      NumeralRoundTrip(n);
    }
  }

  lemma AtoiReadsMinus(n: int)
    requires n < 0
    ensures Atoi("-" + Numeral(-n)) == Some(n)
  {
    NumeralRoundTrip(-n);
    var s := "-" + Numeral(-n);
    assert s[0] == '-' && s[1..] == Numeral(-n);
  }

  lemma AtoiReadsPlus(n: nat)
    ensures Atoi("+" + Numeral(n)) == Some(n)
  {
    NumeralRoundTrip(n);
    var s := "+" + Numeral(n);
    assert s[0] == '+' && s[1..] == Numeral(n);
  }

  /** A text without a digit, or with anything else behind the sign, is not a number. */
  lemma AtoiRejects(s: string)
    requires s == "" || exists i :: 0 < i < |s| && !('0' <= s[i] <= '9')
    ensures Atoi(s) == None
  {
    if s != "" {
      var i :| 0 < i < |s| && !('0' <= s[i] <= '9');
      assert s[1..][i - 1] == s[i];
    }
  }

  /** The position of the first colon, or the length. */
  function Colon(s: string): (i: nat)
    ensures i <= |s| && ':' !in s[..i]
    ensures i < |s| ==> s[i] == ':'
  {
    if s == "" || s[0] == ':' then 0 else
      var i := 1 + Colon(s[1..]);
      assert s[..i] == [s[0]] + s[1..][..i - 1];
      i
  }

  function ParseHHMM(v: string): (r: Option<int>)
    ensures r.Some? ==> 0 <= r.value < DAY
  {
    ParseTrimmed(TrimSpace(v))
  }

  function ParseTrimmed(s: string): (r: Option<int>)
    ensures r.Some? ==> 0 <= r.value < DAY
  {
    var i := Colon(s);
    if i == |s| then None else
      var h, m := Atoi(s[..i]), Atoi(s[i + 1..]);
      if h.None? || m.None? || h.value < 0 || h.value > 23 || m.value < 0 || m.value > 59 then None
      else Some(h.value * 60 + m.value)
  }

  /** Two integers, the first without a colon in its text, joined by a colon: an hour and a minute. */
  ghost predicate HourAndMinute(s: string, h: string, m: string, n: int) {
    && s == h + ":" + m && ':' !in h
    && Atoi(h).Some? && Atoi(m).Some?
    && 0 <= Atoi(h).value <= 23 && 0 <= Atoi(m).value <= 59
    && n == Atoi(h).value * 60 + Atoi(m).value
  }

  /** A text is parsed exactly when, trimmed, it is an hour and a minute around its first colon. */
  lemma ParsesIff(v: string, n: int)
    ensures ParseHHMM(v) == Some(n) <==> exists h, m :: HourAndMinute(TrimSpace(v), h, m, n)
  {
    var s := TrimSpace(v);
    if ParseTrimmed(s) == Some(n) {
      ParsedHasParts(s, n);
    }
    if h, m :| HourAndMinute(s, h, m, n) {
      PartsAreParsed(s, h, m, n);
    }
  }

  lemma ParsedHasParts(s: string, n: int)
    requires ParseTrimmed(s) == Some(n)
    ensures exists h, m :: HourAndMinute(s, h, m, n)
  {
    var i := Colon(s);
    assert s == s[..i] + ":" + s[i + 1..];
    assert HourAndMinute(s, s[..i], s[i + 1..], n);
  }

  lemma PartsAreParsed(s: string, h: string, m: string, n: int)
    requires HourAndMinute(s, h, m, n)
    ensures ParseTrimmed(s) == Some(n)
  {
    ColonAfterPrefix(h, m);
    assert s[..|h|] == h && s[|h| + 1..] == m;
  }

  function TwoDigits(n: nat): (s: string)
    requires n < 100
    ensures |s| == 2 && AllDigits(s)
  {
    [Digit(n / 10), Digit(n % 10)]
  }

  /** A minute of the day in the documented HH:MM form. */
  function FormatHHMM(minute: nat): string
    requires minute < DAY
  {
    TwoDigits(minute / 60) + ":" + TwoDigits(minute % 60)
  }

  lemma TwoDigitsRoundTrip(n: nat)
    requires n < 100
    ensures Atoi(TwoDigits(n)) == Some(n)
  {
    var s := TwoDigits(n);
    assert s[..1] == [Digit(n / 10)] && s[..1][..0] == "";
    assert ValueOf(s[..1]) == n / 10;
  }

  lemma {:induction false} ColonAfterPrefix(p: string, q: string)
    requires ':' !in p
    ensures Colon(p + ":" + q) == |p|
  {
    if p != "" {
      assert (p + ":" + q)[1..] == p[1..] + ":" + q;
      ColonAfterPrefix(p[1..], q);
    }
  }

  /** Every minute of the day is parsed back from its HH:MM form. */
  lemma HHMMRoundTrip(minute: nat)
    requires minute < DAY
    ensures ParseHHMM(FormatHHMM(minute)) == Some(minute)
  {
    var h, m, s := TwoDigits(minute / 60), TwoDigits(minute % 60), FormatHHMM(minute);
    assert TrimSpace(s) == s by {
      assert !IsSpace(s[0]) && !IsSpace(s[|s| - 1]);
    }
    TwoDigitsRoundTrip(minute / 60);
    TwoDigitsRoundTrip(minute % 60);
    PartsAreParsed(s, h, m, minute);
  }

  // ---------- the two request paths ----------

  /** A decoded JSON value as far as schedules look at it; numbers are already converted to 64-bit integers. */
  datatype Json = Null | Str(s: string) | Num(n: int) | Obj(fields: map<string, Json>) | Other

  datatype Stored = Stored(kind: string, value: int, offset: int)
  datatype Result = Ok(stored: Stored) | BadRequest

  const DEFAULT_OFFSET: int := 480

  function Field(fields: map<string, Json>, name: string): Json {
    if name in fields then fields[name] else Null
  }

  function KindOf(fields: map<string, Json>): string {
    if Field(fields, "kind").Str? then TrimSpace(Field(fields, "kind").s) else ""
  }

  /** Kind and value of a schedule: the string form keeps the fallback; the object form prefers minutes, value, hhmm. */
  function Normalize(raw: Json, fallback: int): (string, int) {
    match raw
    case Str(s) => (TrimSpace(s), fallback)
    case Obj(fields) => (KindOf(fields), ObjectValue(fields, fallback))
    case _ => ("", fallback)
  }

  function ObjectValue(fields: map<string, Json>, fallback: int): int {
    if Field(fields, "minutes").Num? then Field(fields, "minutes").n
    else if Field(fields, "value").Num? then Field(fields, "value").n
    else if Field(fields, "hhmm").Str? && ParseHHMM(Field(fields, "hhmm").s).Some? then ParseHHMM(Field(fields, "hhmm").s).value
    else fallback
  }

  /** The kind of an object form is its trimmed text; any other value counts as none. */
  lemma KindMeans(fields: map<string, Json>, fallback: int)
    ensures Normalize(Obj(fields), fallback).0 ==
            if "kind" in fields && fields["kind"].Str? then TrimSpace(fields["kind"].s) else ""
  {
    assert Normalize(Obj(fields), fallback).0 == KindOf(fields);
  }

  /** The string form is a kind and keeps the flat value; anything else has no kind. */
  lemma FlatFormMeans(raw: Json, fallback: int)
    ensures raw.Str? ==> Normalize(raw, fallback) == (TrimSpace(raw.s), fallback)
    ensures !raw.Str? && !raw.Obj? ==> Normalize(raw, fallback) == ("", fallback)
  {
  }

  /** The value of an object form: numeric minutes, else a numeric value, else a clock time that parses, else the fallback. */
  lemma ValueMeans(fields: map<string, Json>, fallback: int)
    ensures var v := Normalize(Obj(fields), fallback).1;
            var minutes, value := "minutes" in fields && fields["minutes"].Num?, "value" in fields && fields["value"].Num?;
            var clock := "hhmm" in fields && fields["hhmm"].Str? && ParseHHMM(fields["hhmm"].s).Some?;
            && (minutes ==> v == fields["minutes"].n)
            && (!minutes && value ==> v == fields["value"].n)
            && (!minutes && !value && clock ==> v == ParseHHMM(fields["hhmm"].s).value)
            && (!minutes && !value && !clock ==> v == fallback)
  {
  }

  /** The offset: the given one, else +08:00 for any schedule, else none. */
  lemma OffsetMeans(tz: Option<int>, schedule: Json)
    ensures tz.Some? ==> OffsetOr(tz, schedule) == tz.value
    ensures tz.None? ==> OffsetOr(tz, schedule) == if schedule == Null then 0 else 480
  {
  }

  /** What the create and update payload stores: only the object form of a daily schedule is converted. */
  lemma PayloadMeans(schedule: Json, value: int, tz: Option<int>)
    ensures var p := FromPayload(schedule, value, tz);
            && p.kind == Normalize(schedule, value).0 && p.offset == OffsetOr(tz, schedule)
            && (schedule.Obj? && p.kind == "daily" ==> p.value == LocalMinuteToUTC(Normalize(schedule, value).1, p.offset))
            && (!(schedule.Obj? && p.kind == "daily") ==> p.value == Normalize(schedule, value).1)
  {
  }

  /** What the endpoint stores: the clock time over positive minutes over the schedule over the flat value. */
  lemma EndpointMeans(kind0: string, value0: int, minutes: int, hhmm: string, schedule: Json, tz: Option<int>)
    ensures var r := FromEndpoint(kind0, value0, minutes, hhmm, schedule, tz);
            && (r == BadRequest <==> hhmm != "" && ParseHHMM(hhmm) == None)
            && (r != BadRequest ==>
                  var value := if hhmm != "" then ParseHHMM(hhmm).value else if minutes > 0 then minutes
                               else if schedule != Null then Normalize(schedule, value0).1 else value0;
                  && r.stored.offset == OffsetOr(tz, schedule)
                  && (schedule == Null ==> r.stored.kind == TrimSpace(kind0) && r.stored.value == value)
                  && (schedule != Null ==>
                        && r.stored.kind == Normalize(schedule, value0).0
                        && r.stored.value == if r.stored.kind == "daily" then LocalMinuteToUTC(value, r.stored.offset) else value))
  {
  }

  function OffsetOr(tz: Option<int>, schedule: Json): int {
    if tz.Some? then tz.value else if schedule.Null? then 0 else DEFAULT_OFFSET
  }

  /** The create and update payload: only the object form is wall-clock time. */
  function FromPayload(schedule: Json, value: int, tz: Option<int>): Stored {
    var offset := OffsetOr(tz, schedule);
    var (kind, v) := Normalize(schedule, value);
    Stored(kind, if kind == "daily" && schedule.Obj? then LocalMinuteToUTC(v, offset) else v, offset)
  }

  /** The value that wins: a clock time over positive minutes over the schedule object over the flat value. */
  function Winner(value0: int, minutes: int, hhmm: string, schedule: Json): int {
    if hhmm != "" && ParseHHMM(hhmm).Some? then ParseHHMM(hhmm).value
    else if minutes > 0 then minutes
    else Normalize(schedule, value0).1
  }

  /** What the schedule endpoint stores: every form of a schedule is wall-clock time. */
  function FromEndpoint(kind0: string, value0: int, minutes: int, hhmm: string, schedule: Json, tz: Option<int>): Result {
    if hhmm != "" && ParseHHMM(hhmm).None? then BadRequest
    else
      var kind := if schedule.Null? then TrimSpace(kind0) else Normalize(schedule, value0).0;
      var value, offset := Winner(value0, minutes, hhmm, schedule), OffsetOr(tz, schedule);
      Ok(Stored(kind, if !schedule.Null? && kind == "daily" then LocalMinuteToUTC(value, offset) else value, offset))
  }

  /** The schedule endpoint, reassigning kind, value and offset step by step. */
  method SetConnectorSchedule(kind0: string, value0: int, minutes: int, hhmm: string, schedule: Json, tz: Option<int>)
    returns (r: Result)
    ensures r == FromEndpoint(kind0, value0, minutes, hhmm, schedule, tz)
    ensures r.Ok? && !schedule.Null? && r.stored.kind == "daily" ==> 0 <= r.stored.value < DAY
  {
    var kind := TrimSpace(kind0);
    var value := value0;
    if !schedule.Null? {
      var kv := Normalize(schedule, value);
      kind, value := kv.0, kv.1;
    }
    if minutes > 0 {
      value := minutes;
    }
    if hhmm != "" {
      var n := ParseHHMM(hhmm);
      if n.None? {
        return BadRequest;
      }
      value := n.value;
    }
    var offset := 0;
    if tz.Some? {
      offset := tz.value;
    } else if !schedule.Null? {
      offset := DEFAULT_OFFSET;
    }
    if !schedule.Null? && kind == "daily" {
      LandsInDay(value, offset);
      value := LocalMinuteToUTC(value, offset);
    }
    return Ok(Stored(kind, value, offset));
  }

  /** A 64-bit value is its own conversion exactly when it is a minute of the day and the offset is whole days. */
  lemma UnchangedIff(value: int, offset: int)
    requires Int64(value) && Int64(offset)
    ensures LocalMinuteToUTC(value, offset) == value <==> 0 <= value < DAY && offset % DAY == 0
  {
    LandsInDay(value, offset);
    if 0 <= value < DAY {
      MinuteConversion(value, offset);
      ShiftIsWholeDaysIff(value, offset);
    }
  }

  lemma ShiftIsWholeDaysIff(minute: int, offset: int)
    requires 0 <= minute < DAY
    ensures (minute - offset) % DAY == minute <==> offset % DAY == 0
  {
    var q, k := offset / DAY, (minute - offset) / DAY;
    if offset % DAY == 0 {
      ModShift(minute, -q);
      assert minute - offset == minute + (-q) * DAY;
    }
    if (minute - offset) % DAY == minute {
      ModShift(0, -k);
      assert offset == 0 + (-k) * DAY;
    }
  }

  /**
   Without the two overrides, the endpoint stores what the create and update payload stores for
   the same schedule, for every 64-bit value and offset, if and only if the schedule is not the
   string form of a daily one, or its value is a minute of the day and the offset whole days.
   */
  lemma PathsAgreeIff(kind0: string, value: int, minutes: int, schedule: Json, tz: Option<int>)
    requires Int64(value) && (tz.Some? ==> Int64(tz.value))
    requires minutes <= 0 && !schedule.Null?
    ensures FromEndpoint(kind0, value, minutes, "", schedule, tz) == Ok(FromPayload(schedule, value, tz))
            <==> !StringDaily(schedule) || (0 <= value < DAY && OffsetOr(tz, schedule) % DAY == 0)
  {
    var offset, kv := OffsetOr(tz, schedule), Normalize(schedule, value);
    assert Winner(value, minutes, "", schedule) == kv.1;
    if kv.0 == "daily" && !schedule.Obj? {
      assert StringDaily(schedule) && kv.1 == value;
      UnchangedIff(value, offset);
    }
  }

  /** A daily schedule in string form at 01:00 with the default offset: kept by one path, moved to 17:00 by the other. */
  lemma PathsDisagree(schedule: Json)
    requires StringDaily(schedule)
    ensures FromPayload(schedule, 60, None) == Stored("daily", 60, 480)
    ensures FromEndpoint("", 60, 0, "", schedule, None) == Ok(Stored("daily", 1020, 480))
  {
    MinuteConversion(60, 480);
  }

  /** The flat form of a daily schedule. */
  predicate StringDaily(schedule: Json) {
    schedule.Str? && TrimSpace(schedule.s) == "daily"
  }
}

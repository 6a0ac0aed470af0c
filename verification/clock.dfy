/**
 The SRT clock `HH:MM:SS,mmm` produced by `format_time`.

 The Python function builds a `datetime.timedelta` from its argument and
 reads the normalised `seconds` (0..86399) and `microseconds` (0..999999)
 attributes. Whole days live in the separate `days` attribute, which is
 never read, so the hour field stays in 0..23 and a negative offset wraps
 around within one day. The model takes the offset as the integer number
 of microseconds that a `timedelta` stores.
 */
module Clock {
  import opened Decimal
  import opened Options

  const MicrosPerSecond: nat := 1_000_000
  const SecondsPerDay: nat := 86_400
  const MicrosPerDay: nat := 86_400_000_000
  const MillisPerDay: nat := 86_400_000

  /** `datetime.timedelta`'s three stored attributes. */
  datatype TimeDelta = TimeDelta(days: int, seconds: int, microseconds: int)

  /** The range invariant `timedelta` keeps for its attributes. */
  predicate Normalized(t: TimeDelta) {
    0 <= t.seconds < SecondsPerDay && 0 <= t.microseconds < MicrosPerSecond
  }

  function TotalMicros(t: TimeDelta): int {
    t.days * MicrosPerDay + t.seconds * MicrosPerSecond + t.microseconds
  }

  lemma MulAtLeast(k: int, d: int)
    requires k >= 1 && d > 0
    ensures k * d >= d
  {
    assert k * d == (k - 1) * d + d;
  }

  /** q*d + r, with 0 <= r < d, splits back into q and r. */
  lemma DivModOf(q: int, r: int, d: int)
    requires d > 0 && 0 <= r < d
    ensures (q * d + r) / d == q && (q * d + r) % d == r
  {
    var n := q * d + r;
    var q', r' := n / d, n % d;
    assert n == q' * d + r';
    var k := q' - q;
    assert k * d == q' * d - q * d;
    assert k * d == r - r';
    if k >= 1 {
      MulAtLeast(k, d);
    } else if k <= -1 {
      MulAtLeast(-k, d);
    }
  }

  /** `timedelta(microseconds=u)`: days are floored, so the seconds and
      microseconds are never negative, whatever the sign of `u`. */
  function FromMicros(u: int): TimeDelta {
    var w := u % MicrosPerDay;
    TimeDelta(u / MicrosPerDay, w / MicrosPerSecond, w % MicrosPerSecond)
  }

  /** The normalised value keeps the range invariant and the total. */
  lemma FromMicrosSpec(u: int)
    ensures Normalized(FromMicros(u))
    ensures TotalMicros(FromMicros(u)) == u
  {
    var w := u % MicrosPerDay;
    DivModOf(w / MicrosPerSecond, w % MicrosPerSecond, MicrosPerSecond);
  }

  /** Two normalised values with the same total are the same value, so
      `FromMicros` is the only normalisation of `u`. */
  lemma NormalizedUnique(t: TimeDelta, t': TimeDelta)
    requires Normalized(t) && Normalized(t')
    requires TotalMicros(t) == TotalMicros(t')
    ensures t == t'
  {
    var w := t.seconds * MicrosPerSecond + t.microseconds;
    var w' := t'.seconds * MicrosPerSecond + t'.microseconds;
    assert 0 <= w < MicrosPerDay && 0 <= w' < MicrosPerDay;
    DivModOf(t.days, w, MicrosPerDay);
    DivModOf(t'.days, w', MicrosPerDay);
    DivModOf(t.seconds, t.microseconds, MicrosPerSecond);
    DivModOf(t'.seconds, t'.microseconds, MicrosPerSecond);
  }

  /** The four numbers `format_time` prints. */
  datatype ClockFields = ClockFields(hours: nat, minutes: nat, seconds: nat, millis: nat)

  predicate InRange(f: ClockFields) {
    f.hours < 24 && f.minutes < 60 && f.seconds < 60 && f.millis < 1000
  }

  /** The millisecond count the fields stand for. */
  function FieldsValue(f: ClockFields): nat {
    f.hours * 3_600_000 + f.minutes * 60_000 + f.seconds * 1000 + f.millis
  }

  /** The time of day of offset `u`, truncated to whole milliseconds. */
  function MillisOfDay(u: int): (ms: nat)
    ensures ms < MillisPerDay
  {
    (u % MicrosPerDay) / 1000
  }

  /** The two `divmod` steps and the millisecond truncation of
      `format_time`, applied to the normalised `timedelta`. */
  function Fields(u: int): ClockFields {
    var t := FromMicros(u);
    var hours := t.seconds / 3600;
    var remainder := t.seconds % 3600;
    var minutes := remainder / 60;
    var seconds := remainder % 60;
    // Truncating float division agrees with integer division here,
    // since the microseconds are never negative.
    var millis := t.microseconds / 1000;
    ClockFields(hours, minutes, seconds, millis)
  }

  /** Each printed field is in range, and together they spell the time of
      day to the millisecond. */
  lemma FieldsSpec(u: int)
    ensures InRange(Fields(u))
    ensures FieldsValue(Fields(u)) == MillisOfDay(u)
  {
    var t := FromMicros(u);
    FromMicrosSpec(u);
    FieldsSum(t.seconds, t.microseconds, u % MicrosPerDay);
  }

  lemma FieldsSum(secs: int, micros: int, w: int)
    requires 0 <= secs < SecondsPerDay && 0 <= micros < MicrosPerSecond
    requires w == secs * MicrosPerSecond + micros
    ensures (secs / 3600) * 3_600_000 + ((secs % 3600) / 60) * 60_000
            + ((secs % 3600) % 60) * 1000 + micros / 1000 == w / 1000
  {
    DivModOf(secs * 1000 + micros / 1000, micros % 1000, 1000);
    assert secs == (secs / 3600) * 3600 + ((secs % 3600) / 60) * 60 + (secs % 3600) % 60;
  }

  /** With minutes, seconds and milliseconds in range, the value is below
      one day exactly when the hours are, and its last three decimal
      places are the milliseconds. */
  lemma FieldsValueParts(f: ClockFields)
    requires f.minutes < 60 && f.seconds < 60 && f.millis < 1000
    ensures FieldsValue(f) < MillisPerDay <==> f.hours < 24
    ensures FieldsValue(f) % 1000 == f.millis
  {
    DivModOf(f.hours * 3600 + f.minutes * 60 + f.seconds, f.millis, 1000);
  }

  /** Different in-range fields stand for different millisecond counts. */
  lemma FieldsUnique(f: ClockFields, g: ClockFields)
    requires InRange(f) && InRange(g)
    requires FieldsValue(f) == FieldsValue(g)
    ensures f == g
  {
    var a := f.hours * 60 + f.minutes;
    var b := g.hours * 60 + g.minutes;
    DivModOf(a * 60 + f.seconds, f.millis, 1000);
    DivModOf(b * 60 + g.seconds, g.millis, 1000);
    DivModOf(a, f.seconds, 60);
    DivModOf(b, g.seconds, 60);
    DivModOf(f.hours, f.minutes, 60);
    DivModOf(g.hours, g.minutes, 60);
  }

  /** A 12-character clock: `:` at 2 and 5, `,` at 8, digits elsewhere. */
  predicate IsClockShape(s: string) {
    && |s| == 12
    && s[2] == ':' && s[5] == ':' && s[8] == ','
    && AllDigits(s[0..2]) && AllDigits(s[3..5]) && AllDigits(s[6..8]) && AllDigits(s[9..12])
  }

  /** Joins the four printed fields with the clock's separators. */
  function Assemble(hh: string, mm: string, ss: string, mmm: string): string {
    hh + [':'] + mm + [':'] + ss + [','] + mmm
  }

  lemma AssembleSlices(hh: string, mm: string, ss: string, mmm: string)
    requires |hh| == 2 && |mm| == 2 && |ss| == 2 && |mmm| == 3
    ensures var r := Assemble(hh, mm, ss, mmm);
      && |r| == 12 && r[2] == ':' && r[5] == ':' && r[8] == ','
      && r[0..2] == hh && r[3..5] == mm && r[6..8] == ss && r[9..12] == mmm
  {
  }

  /** A 12-character string with the clock's separators is the assembly
      of its four digit groups. */
  lemma AssembleOfSlices(s: string)
    requires |s| == 12 && s[2] == ':' && s[5] == ':' && s[8] == ','
    ensures Assemble(s[0..2], s[3..5], s[6..8], s[9..12]) == s
  {
  }

  /** Zero-padded two-digit hours, minutes and seconds separated by ':',
      then a comma and three-digit milliseconds. */
  function FormatFields(f: ClockFields): string {
    Assemble(Padded(f.hours, 2), Padded(f.minutes, 2), Padded(f.seconds, 2), Padded(f.millis, 3))
  }

  /** `format_time`. */
  function FormatTime(u: int): string {
    FormatFields(Fields(u))
  }

  /** The clock is always 12 characters: two-digit hours, minutes and
      seconds and three-digit milliseconds, separated by ':', ':' and ','. */
  lemma FormatTimeShape(u: int)
    ensures IsClockShape(FormatTime(u))
  {
    var f := Fields(u);
    FieldsSpec(u);
    PaddedField(f.hours, 2);
    PaddedField(f.minutes, 2);
    PaddedField(f.seconds, 2);
    PaddedField(f.millis, 3);
    AssembleSlices(Padded(f.hours, 2), Padded(f.minutes, 2), Padded(f.seconds, 2), Padded(f.millis, 3));
  }

  /** The four fields written in a clock string. */
  function ReadFields(s: string): (f: ClockFields)
    requires IsClockShape(s)
  {
    ClockFields(DecimalValue(s[0..2]), DecimalValue(s[3..5]), DecimalValue(s[6..8]),
                DecimalValue(s[9..12]))
  }

  /** Reads an SRT clock back into milliseconds; minutes and seconds
      above 59 are rejected. The hour field is read as written, so the
      value lies within one day exactly when the hours are below 24, and
      the last three digits are the value's milliseconds. */
  function ParseClock(s: string): (r: Option<nat>)
    ensures r.Some? <==> IsClockShape(s) && ReadFields(s).minutes < 60 && ReadFields(s).seconds < 60
    ensures r.Some? ==> (r.value < MillisPerDay <==> ReadFields(s).hours < 24)
    ensures r.Some? ==> r.value % 1000 == ReadFields(s).millis
  {
    if IsClockShape(s) then
      var f := ReadFields(s);
      if f.minutes < 60 && f.seconds < 60 then
        assert f.millis < 1000 by {
          assert Pow10(3) == 1000;
        }
        FieldsValueParts(f);
        Some(FieldsValue(f))
      else None
    else None
  }

  /** The printed fields are the computed fields. */
  lemma ReadFormattedFields(u: int)
    ensures IsClockShape(FormatTime(u)) && ReadFields(FormatTime(u)) == Fields(u)
  {
    var f := Fields(u);
    FieldsSpec(u);
    PaddedField(f.hours, 2);
    PaddedField(f.minutes, 2);
    PaddedField(f.seconds, 2);
    PaddedField(f.millis, 3);
    AssembleSlices(Padded(f.hours, 2), Padded(f.minutes, 2), Padded(f.seconds, 2), Padded(f.millis, 3));
  }

  /** Reading a formatted clock recovers the time of day to the millisecond. */
  lemma ParseFormatRoundTrip(u: int)
    ensures ParseClock(FormatTime(u)) == Some(MillisOfDay(u))
  {
    ReadFormattedFields(u);
    FieldsSpec(u);
  }

  /** Two offsets print the same clock exactly when they fall on the same
      millisecond of the day. */
  lemma FormatTimeEqIff(u: int, v: int)
    ensures FormatTime(u) == FormatTime(v) <==> MillisOfDay(u) == MillisOfDay(v)
  {
    ParseFormatRoundTrip(u);
    ParseFormatRoundTrip(v);
    if MillisOfDay(u) == MillisOfDay(v) {
      FieldsSpec(u);
      FieldsSpec(v);
      FieldsUnique(Fields(u), Fields(v));
    }
  }

  /** The time of day in milliseconds is the millisecond count modulo
      one day. */
  lemma MillisOfDayAlt(u: int)
    ensures MillisOfDay(u) == (u / 1000) % MillisPerDay
  {
    var q, r := u / 1000, u % 1000;
    var a, b := q / MillisPerDay, q % MillisPerDay;
    assert u == a * MicrosPerDay + (b * 1000 + r);
    DivModOf(a, b * 1000 + r, MicrosPerDay);
    DivModOf(b, r, 1000);
  }

  lemma DayShift(u: int, k: int)
    ensures MillisOfDay(u + k * MicrosPerDay) == MillisOfDay(u)
  {
    var v := u + k * MicrosPerDay;
    MillisOfDayAlt(u);
    MillisOfDayAlt(v);
    var q := u / 1000;
    DivModOf(q, u % 1000, 1000);
    assert v == (q + k * MillisPerDay) * 1000 + u % 1000;
    DivModOf(q + k * MillisPerDay, u % 1000, 1000);
    DivModOf(q / MillisPerDay, q % MillisPerDay, MillisPerDay);
    DivModOf(q / MillisPerDay + k, q % MillisPerDay, MillisPerDay);
  }

  /** Whole days are dropped: shifting by any number of days, in either
      direction, prints the same clock. */
  lemma DropsWholeDays(u: int, k: int)
    ensures FormatTime(u + k * MicrosPerDay) == FormatTime(u)
  {
    DayShift(u, k);
    FormatTimeEqIff(u + k * MicrosPerDay, u);
  }

  lemma DropMicros(u: int, k: int)
    requires 0 <= k < 1000
    ensures MillisOfDay(u - u % 1000 + k) == MillisOfDay(u)
  {
    var v := u - u % 1000 + k;
    assert v == (u / 1000) * 1000 + k;
    DivModOf(u / 1000, k, 1000);
    MillisOfDayAlt(u);
    MillisOfDayAlt(v);
  }

  /** Milliseconds are truncated: the sub-millisecond microseconds never
      change the clock. */
  lemma TruncatesMicros(u: int, k: int)
    requires 0 <= k < 1000
    ensures FormatTime(u - u % 1000 + k) == FormatTime(u)
  {
    DropMicros(u, k);
    FormatTimeEqIff(u - u % 1000 + k, u);
  }

  /** Fields read from an accepted clock below 24 hours are in range and
      are the fields computed for that clock's own offset. */
  lemma ParsedFields(s: string)
    requires ParseClock(s).Some? && ParseClock(s).value < MillisPerDay
    ensures InRange(ReadFields(s))
    ensures Fields(ParseClock(s).value * 1000) == ReadFields(s)
  {
    var f := ReadFields(s);
    var v := FieldsValue(f);
    assert ParseClock(s).value == v;
    assert f.millis < 1000 by {
      assert Pow10(3) == 1000;
    }
    DivModOf(v, 0, 1000);
    DivModOf(0, v, MillisPerDay);
    MillisOfDayAlt(v * 1000);
    FieldsSpec(v * 1000);
    FieldsUnique(Fields(v * 1000), f);
  }

  /** A clock-shaped string is the padded spelling of the fields it holds. */
  lemma ReassembleClock(s: string)
    requires IsClockShape(s)
    ensures FormatFields(ReadFields(s)) == s
  {
    PaddedDigits(s[0..2], 2);
    PaddedDigits(s[3..5], 2);
    PaddedDigits(s[6..8], 2);
    PaddedDigits(s[9..12], 3);
    AssembleOfSlices(s);
  }

  /** The clock for `u` is the padded spelling of any in-range fields that
      stand for its time of day. */
  lemma FormatTimeOf(u: int, f: ClockFields)
    requires InRange(f) && FieldsValue(f) == MillisOfDay(u)
    ensures FormatTime(u) == FormatFields(f)
  {
    FieldsSpec(u);
    FieldsUnique(Fields(u), f);
  }

  /** Every clock with in-range fields below 24 hours is printed by
      `format_time` for its own millisecond count. */
  lemma FormatParseRoundTrip(s: string)
    requires ParseClock(s).Some? && ParseClock(s).value < MillisPerDay
    ensures FormatTime(ParseClock(s).value * 1000) == s
  {
    ParsedFields(s);
    ReassembleClock(s);
  }

  // Literal cases. The clock depends on the time of day alone, so each is
  // stated for every offset at that millisecond of the day.
  lemma FormatsMidnight(u: int)
    requires MillisOfDay(u) == 0
    ensures FormatTime(u) == "00:00:00,000"
  {
    FormatTimeOf(u, ClockFields(0, 0, 0, 0));
    MidnightText();
  }

  lemma MidnightText()
    ensures FormatFields(ClockFields(0, 0, 0, 0)) == "00:00:00,000"
  {
    PaddedZero();
    assert Padded(0, 3) == "000" by {
      assert NatToString(0) == "0" && Zeros(2) == "00";
    }
  }

  lemma PaddedZero()
    ensures Padded(0, 2) == "00"
  {
    assert NatToString(0) == "0" && Zeros(1) == "0";
  }

  /** 5.5 s: the half second shows as 500 milliseconds. */
  lemma FormatsFiveAndAHalfSeconds(u: int)
    requires MillisOfDay(u) == 5_500
    ensures FormatTime(u) == "00:00:05,500"
  {
    FormatTimeOf(u, ClockFields(0, 0, 5, 500));
    HalfSecondText();
  }

  lemma HalfSecondText()
    ensures FormatFields(ClockFields(0, 0, 5, 500)) == "00:00:05,500"
  {
    PaddedZero();
    assert Padded(5, 2) == "05" by {
      assert NatToString(5) == "5" && Zeros(1) == "0";
    }
    assert Padded(500, 3) == "500" by {
      assert NatToString(500) == "500" by {
        assert NatToString(50) == "50";
      }
    }
  }

  lemma FormatsSixSeconds(u: int)
    requires MillisOfDay(u) == 6_000
    ensures FormatTime(u) == "00:00:06,000"
  {
    FormatTimeOf(u, ClockFields(0, 0, 6, 0));
    SixSecondsText();
  }

  lemma SixSecondsText()
    ensures FormatFields(ClockFields(0, 0, 6, 0)) == "00:00:06,000"
  {
    PaddedZero();
    assert Padded(6, 2) == "06" by {
      assert NatToString(6) == "6" && Zeros(1) == "0";
    }
    assert Padded(0, 3) == "000" by {
      assert NatToString(0) == "0" && Zeros(2) == "00";
    }
  }

  lemma FormatsTenPointTwoSeconds(u: int)
    requires MillisOfDay(u) == 10_200
    ensures FormatTime(u) == "00:00:10,200"
  {
    FormatTimeOf(u, ClockFields(0, 0, 10, 200));
    TenPointTwoText();
  }

  lemma TenPointTwoText()
    ensures FormatFields(ClockFields(0, 0, 10, 200)) == "00:00:10,200"
  {
    PaddedZero();
    assert Padded(10, 2) == "10" by {
      assert NatToString(10) == "10";
    }
    assert Padded(200, 3) == "200" by {
      assert NatToString(200) == "200" by {
        assert NatToString(20) == "20";
      }
    }
  }

  /** One hour, one minute, one second and a quarter: each field shows
      its own unit. */
  lemma FormatsMixedFields(u: int)
    requires MillisOfDay(u) == 3_661_250
    ensures FormatTime(u) == "01:01:01,250"
  {
    FormatTimeOf(u, ClockFields(1, 1, 1, 250));
    MixedText();
  }

  lemma MixedText()
    ensures FormatFields(ClockFields(1, 1, 1, 250)) == "01:01:01,250"
  {
    assert Padded(1, 2) == "01" by {
      assert NatToString(1) == "1" && Zeros(1) == "0";
    }
    assert Padded(250, 3) == "250" by {
      assert NatToString(250) == "250" by {
        assert NatToString(25) == "25";
      }
    }
  }

  /** A day and an hour prints as one hour: the day is dropped. */
  lemma FormatTimeTwentyFiveHours()
    ensures FormatTime(90_000_000_000) == "01:00:00,000"
  {
    assert MillisOfDay(90_000_000_000) == 3_600_000;
    FormatTimeOf(90_000_000_000, ClockFields(1, 0, 0, 0));
    OneHourText();
  }

  lemma OneHourText()
    ensures FormatFields(ClockFields(1, 0, 0, 0)) == "01:00:00,000"
  {
    PaddedZero();
    assert Padded(1, 2) == "01" by {
      assert NatToString(1) == "1" && Zeros(1) == "0";
    }
    assert Padded(0, 3) == "000" by {
      assert NatToString(0) == "0" && Zeros(2) == "00";
    }
  }

  /** One millisecond before zero wraps to the last millisecond of the day. */
  lemma FormatTimeNegative()
    ensures FormatTime(-1000) == "23:59:59,999"
  {
    assert MillisOfDay(-1000) == 86_399_999;
    FormatTimeOf(-1000, ClockFields(23, 59, 59, 999));
    LastMillisecondText();
  }

  lemma LastMillisecondText()
    ensures FormatFields(ClockFields(23, 59, 59, 999)) == "23:59:59,999"
  {
    assert Padded(23, 2) == "23" by {
      assert NatToString(23) == "23";
    }
    assert Padded(59, 2) == "59" by {
      assert NatToString(59) == "59";
    }
    assert Padded(999, 3) == "999" by {
      assert NatToString(999) == "999" by {
        assert NatToString(99) == "99";
      }
    }
  }
}

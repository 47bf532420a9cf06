/**
 * SRT timestamps: `ASRDataSeg._ms_to_srt_time` and `to_srt_ts` format an
 * integer number of milliseconds as "HH:MM:SS,mmm", and the time pattern of
 * `from_srt` reads such a stamp back.
 */
module SrtTime {
  import opened Strings
  import opened Segments

  /** A time split into hours, minutes, seconds and milliseconds. */
  datatype Clock = Clock(hours: int, minutes: int, seconds: int, millis: int)

  /** The time a clock reading stands for. */
  function ClockValue(c: Clock): int {
    c.hours * 3600000 + c.minutes * 60000 + c.seconds * 1000 + c.millis
  }

  /** The three `divmod` steps of `_ms_to_srt_time`, with Python's floor semantics. */
  function ToClock(ms: int): (c: Clock)
    ensures 0 <= c.minutes < 60 && 0 <= c.seconds < 60 && 0 <= c.millis < 1000
    ensures ClockValue(c) == ms
  {
    var totalSeconds, millis := FloorDiv(ms, 1000), FloorMod(ms, 1000);
    var totalMinutes, seconds := FloorDiv(totalSeconds, 60), FloorMod(totalSeconds, 60);
    var hours, minutes := FloorDiv(totalMinutes, 60), FloorMod(totalMinutes, 60);
    Clock(hours, minutes, seconds, millis)
  }

  /** Below one hundred hours, the hours of a non-negative time fit in two digits. */
  lemma ToClockHours(ms: int)
    requires 0 <= ms < 360000000
    ensures 0 <= ToClock(ms).hours < 100
  {
  }

  /** `_ms_to_srt_time(ms)`: "HH:MM:SS,mmm", each field zero-padded. */
  function FormatTime(ms: int): string {
    var c := ToClock(ms);
    ZeroPad(c.hours, 2) + ":" + ZeroPad(c.minutes, 2) + ":" + ZeroPad(c.seconds, 2) + "," + ZeroPad(c.millis, 3)
  }

  /** `to_srt_ts()`: the start and the end joined by " --> ". */
  function TimeRange(s: Seg): string {
    FormatTime(s.startTime) + " --> " + FormatTime(s.endTime)
  }

  // ---------------------------------------------------------------------------
  // Reading a stamp back

  function Digit(c: char): nat
    requires IsDigit(c)
  {
    DigitValue(c)
  }

  /** The number written by the two digits at `j`. */
  function Field2(s: string, j: nat): nat
    requires j + 2 <= |s| && IsDigit(s[j]) && IsDigit(s[j + 1])
  {
    10 * Digit(s[j]) + Digit(s[j + 1])
  }

  /** The number written by the three digits at `j`. */
  function Field3(s: string, j: nat): nat
    requires j + 3 <= |s| && IsDigit(s[j]) && IsDigit(s[j + 1]) && IsDigit(s[j + 2])
  {
    100 * Digit(s[j]) + 10 * Digit(s[j + 1]) + Digit(s[j + 2])
  }

  /**
   * The stamp part of the time pattern at position `i`: two digits, ':', two
   * digits, ':', one or two digits, '.' or ',', three digits. Gives the time
   * in milliseconds and the position after the stamp.
   */
  function ParseStamp(s: string, i: nat): (r: Option<(int, nat)>)
    ensures r.Some? ==> i < r.value.1 <= |s|
  {
    if i + 7 <= |s| && IsDigit(s[i]) && IsDigit(s[i + 1]) && s[i + 2] == ':'
       && IsDigit(s[i + 3]) && IsDigit(s[i + 4]) && s[i + 5] == ':' && IsDigit(s[i + 6])
    then
      var twoSeconds := i + 7 < |s| && IsDigit(s[i + 7]);
      var f := if twoSeconds then i + 8 else i + 7;
      if f + 4 <= |s| && (s[f] == '.' || s[f] == ',') && IsDigit(s[f + 1]) && IsDigit(s[f + 2]) && IsDigit(s[f + 3]) then
        var seconds := if twoSeconds then Field2(s, i + 6) else Digit(s[i + 6]);
        Some((ClockValue(Clock(Field2(s, i), Field2(s, i + 3), seconds, Field3(s, f + 1))), f + 4))
      else None
    else None
  }

  /**
   * `srt_time_pattern.match(line)`: a stamp, one whitespace character, "-->",
   * one whitespace character and a stamp, at the start of the line (anything
   * may follow). Gives the start and the end time.
   */
  function ParseTimeLine(line: string): Option<(int, int)> {
    match ParseStamp(line, 0)
    case None => None
    case Some((start, k)) =>
      if k + 5 <= |line| && IsSpace(line[k]) && line[k + 1..k + 4] == "-->" && IsSpace(line[k + 4]) then
        match ParseStamp(line, k + 5)
        case None => None
        case Some((end, _)) => Some((start, end))
      else None
  }

  // ---------------------------------------------------------------------------
  // Round trip

  /** A two-digit field below 100 is its two decimal digits. */
  lemma Pad2(n: int)
    requires 0 <= n < 100
    ensures ZeroPad(n, 2) == [DigitChar(n / 10), DigitChar(n % 10)]
  {
    if n < 10 {
      assert NatToString(n) == [DigitChar(n)];
      assert Zeros(1) == ['0'];
    } else {
      assert NatToString(n / 10) == [DigitChar(n / 10)];
    }
  }

  /** A three-digit field below 1000 is its three decimal digits. */
  lemma Pad3(n: int)
    requires 0 <= n < 1000
    ensures ZeroPad(n, 3) == [DigitChar(n / 100), DigitChar(n / 10 % 10), DigitChar(n % 10)]
  {
    if n < 10 {
      assert NatToString(n) == [DigitChar(n)];
      assert Zeros(2) == ['0', '0'];
    } else if n < 100 {
      assert NatToString(n / 10) == [DigitChar(n / 10)];
      assert NatToString(n) == [DigitChar(n / 10), DigitChar(n % 10)];
      assert Zeros(1) == ['0'];
    } else {
      assert NatToString(n / 100) == [DigitChar(n / 100)];
      assert NatToString(n / 10) == [DigitChar(n / 100), DigitChar(n / 10 % 10)];
    }
  }

  /** Below one hundred hours a stamp is twelve characters. */
  lemma FormatTimeLength(ms: int)
    requires 0 <= ms < 360000000
    ensures |FormatTime(ms)| == 12
  {
    var c := ToClock(ms);
    ToClockHours(ms);
    Pad2(c.hours);
    Pad2(c.minutes);
    Pad2(c.seconds);
    Pad3(c.millis);
  }

  /** Reading a formatted stamp gives back the time, for any time below one hundred hours. */
  lemma ParseFormatTime(ms: int, s: string, i: nat)
    requires 0 <= ms < 360000000
    requires i + 12 <= |s| && s[i..i + 12] == FormatTime(ms)
    ensures ParseStamp(s, i) == Some((ms, i + 12))
  {
    var c := ToClock(ms);
    ToClockHours(ms);
    StampChars(c, s, i);
    Field2Of(c.hours, s, i);
    Field2Of(c.minutes, s, i + 3);
    Field2Of(c.seconds, s, i + 6);
    Field3Of(c.millis, s, i + 9);
  }

  /** The characters of a stamp, one by one. */
  lemma StampChars(c: Clock, s: string, i: nat)
    requires 0 <= c.hours < 100 && 0 <= c.minutes < 60 && 0 <= c.seconds < 60 && 0 <= c.millis < 1000
    requires i + 12 <= |s|
    requires s[i..i + 12] == ZeroPad(c.hours, 2) + ":" + ZeroPad(c.minutes, 2) + ":" + ZeroPad(c.seconds, 2) + "," + ZeroPad(c.millis, 3)
    ensures s[i] == DigitChar(c.hours / 10) && s[i + 1] == DigitChar(c.hours % 10) && s[i + 2] == ':'
    ensures s[i + 3] == DigitChar(c.minutes / 10) && s[i + 4] == DigitChar(c.minutes % 10) && s[i + 5] == ':'
    ensures s[i + 6] == DigitChar(c.seconds / 10) && s[i + 7] == DigitChar(c.seconds % 10) && s[i + 8] == ','
    ensures s[i + 9] == DigitChar(c.millis / 100) && s[i + 10] == DigitChar(c.millis / 10 % 10) && s[i + 11] == DigitChar(c.millis % 10)
  {
    Pad2(c.hours);
    Pad2(c.minutes);
    Pad2(c.seconds);
    Pad3(c.millis);
    StampLayout(DigitChar(c.hours / 10), DigitChar(c.hours % 10), DigitChar(c.minutes / 10), DigitChar(c.minutes % 10),
                DigitChar(c.seconds / 10), DigitChar(c.seconds % 10),
                DigitChar(c.millis / 100), DigitChar(c.millis / 10 % 10), DigitChar(c.millis % 10), s, i);
  }

  lemma StampLayout(h0: char, h1: char, m0: char, m1: char, s0: char, s1: char, f0: char, f1: char, f2: char, s: string, i: nat)
    requires i + 12 <= |s| && s[i..i + 12] == [h0, h1] + ":" + [m0, m1] + ":" + [s0, s1] + "," + [f0, f1, f2]
    ensures s[i] == h0 && s[i + 1] == h1 && s[i + 2] == ':' && s[i + 3] == m0 && s[i + 4] == m1 && s[i + 5] == ':'
    ensures s[i + 6] == s0 && s[i + 7] == s1 && s[i + 8] == ',' && s[i + 9] == f0 && s[i + 10] == f1 && s[i + 11] == f2
  {
    var t := s[i..i + 12];
    assert t == [h0, h1, ':', m0, m1, ':', s0, s1, ',', f0, f1, f2];
    forall k | 0 <= k < 12 ensures s[i + k] == t[k] {
    }
  }

  lemma Field2Of(n: int, s: string, j: nat)
    requires 0 <= n < 100 && j + 2 <= |s| && s[j] == DigitChar(n / 10) && s[j + 1] == DigitChar(n % 10)
    ensures Field2(s, j) == n
  {
  }

  lemma Field3Of(n: int, s: string, j: nat)
    requires 0 <= n < 1000 && j + 3 <= |s|
    requires s[j] == DigitChar(n / 100) && s[j + 1] == DigitChar(n / 10 % 10) && s[j + 2] == DigitChar(n % 10)
    ensures Field3(s, j) == n
  {
    var q := n / 10;
    assert n == 10 * q + n % 10;
    assert q == 10 * (q / 10) + q % 10;
    assert n / 100 == q / 10;
    assert Field3(s, j) == 100 * (q / 10) + 10 * (q % 10) + n % 10;
  }

  /** The time line `to_srt_ts` writes is read back as the segment's start and end. */
  lemma ParseTimeRange(s: Seg, rest: string)
    requires 0 <= s.startTime < 360000000 && 0 <= s.endTime < 360000000
    ensures ParseTimeLine(TimeRange(s) + rest) == Some((s.startTime, s.endTime))
  {
    var line := TimeRange(s) + rest;
    FormatTimeLength(s.startTime);
    FormatTimeLength(s.endTime);
    RangeLayout(FormatTime(s.startTime), FormatTime(s.endTime), rest);
    ParseFormatTime(s.startTime, line, 0);
    ParseFormatTime(s.endTime, line, 17);
  }

  lemma RangeLayout(a: string, b: string, rest: string)
    requires |a| == 12 && |b| == 12
    ensures var line := a + " --> " + b + rest;
      && line[0..12] == a && line[12] == ' ' && line[13..16] == "-->" && line[16] == ' ' && line[17..29] == b
  {
  }
}

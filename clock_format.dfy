/**
 * `formatMs` and `pad`: the H:MM:SS text shown for a duration or a running timer,
 * with the duration in integer milliseconds.
 */
module ClockFormat {
  import opened JsString

  const MsPerSecond: int := 1000
  const MsPerMinute: int := 60 * 1000
  const MsPerHour: int := 60 * 60 * 1000

  /**
   * The floor of the remainder modulo 60 of `ms` measured in `unit`s, as `formatMs` computes it.
   * JavaScript's remainder takes the sign of its dividend, so a negative `ms` gives minus the
   * ceiling of the magnitude's remainder.
   */
  function FloorRem60(ms: int, unit: int): int
    requires unit > 0
  {
    if ms >= 0 then (ms / unit) % 60
    else -(((-ms) % (60 * unit) + unit - 1) / unit)
  }

  function Seconds(ms: int): int {
    FloorRem60(ms, MsPerSecond)
  }

  function Minutes(ms: int): int {
    FloorRem60(ms, MsPerMinute)
  }

  /** Whole hours, rounded down; Dafny's `/` by a positive divisor is already the floor. */
  function Hours(ms: int): int {
    ms / MsPerHour
  }

  /** `pad(n)`: a "0" in front of every value below 10, the plain decimal text otherwise. */
  function Pad(n: int): string {
    if n < 10 then "0" + IntToString(n) else IntToString(n)
  }

  /** `formatMs(ms)` */
  function FormatMs(ms: int): string {
    Pad(Hours(ms)) + ":" + Pad(Minutes(ms)) + ":" + Pad(Seconds(ms))
  }

  /** For a non-negative duration the three fields are a proper H:MM:SS split of its whole seconds. */
  lemma FormatMsFields(ms: int)
    requires ms >= 0
    ensures 0 <= Seconds(ms) < 60 && 0 <= Minutes(ms) < 60 && Hours(ms) >= 0
    ensures Hours(ms) * 3600 + Minutes(ms) * 60 + Seconds(ms) == ms / MsPerSecond
  {
    var q := ms / 1000;
    assert ms / 60000 == q / 60;
    assert ms / 3600000 == q / 3600 == (q / 60) / 60;
  }

  /** `pad` prefixes "0" exactly for values below 10; on a non-negative value it gives at least two digits that read back as the value. */
  lemma PadZeroPrefix(n: int)
    ensures Pad(n) == "0" + IntToString(n) <==> n < 10
    ensures n >= 0 ==> |Pad(n)| >= 2 && AllDigits(Pad(n)) && ParseDigits(Pad(n)) == n
    ensures 0 <= n < 100 ==> |Pad(n)| == 2
  {
    if n >= 10 {
      var d := NatToString(n);
      assert d[0] != '0';
      assert Pad(n) != "0" + IntToString(n) by {
        assert Pad(n)[0] == d[0];
      }
    }
    if n >= 0 {
      ParseNatToString(n);
      if n < 10 {
        ParseLeadingZero(NatToString(n));
      }
      if n < 100 {
        NatToStringTwoDigits(n);
      }
    }
  }

  lemma NatToStringTwoDigits(n: nat)
    requires 10 <= n < 100 || n < 10
    ensures |NatToString(n)| == if n < 10 then 1 else 2
  {
    if n >= 10 {
      assert NatToString(n) == NatToString(n / 10) + [DigitChar(n % 10)];
    }
  }

  /**
   * Reads an "H:MM:SS" text back into whole seconds: the hour field is everything before
   * the last two two-digit fields.
   */
  /** What `ParseClock` makes of a text: a number of whole seconds, or nothing readable. */
  datatype Reading = ReadsAs(secs: nat) | Unreadable

  function ParseClock(t: string): Reading {
    if |t| >= 7 && t[|t| - 6] == ':' && t[|t| - 3] == ':'
       && AllDigits(t[..|t| - 6]) && AllDigits(t[|t| - 5..|t| - 3]) && AllDigits(t[|t| - 2..])
    then ReadsAs(ParseDigits(t[..|t| - 6]) * 3600 + ParseDigits(t[|t| - 5..|t| - 3]) * 60 + ParseDigits(t[|t| - 2..]))
    else Unreadable
  }

  /** A text whose last two fields are two digits each, each field after a colon, reads back as the seconds the fields denote. */
  lemma ParseClockFields(t: string, h: string, m: string, sec: string)
    requires |h| >= 1 && AllDigits(h) && |m| == 2 && AllDigits(m) && |sec| == 2 && AllDigits(sec)
    requires |t| == |h| + 6 && t[|t| - 6] == ':' && t[|t| - 3] == ':'
    requires t[..|t| - 6] == h && t[|t| - 5..|t| - 3] == m && t[|t| - 2..] == sec
    ensures ParseClock(t) == ReadsAs(ParseDigits(h) * 3600 + ParseDigits(m) * 60 + ParseDigits(sec))
  {
  }

  /** Where the fields of a joined H:MM:SS text sit, counted from its end. */
  lemma ClockSlices(h: string, m: string, sec: string)
    requires |m| == 2 && |sec| == 2
    ensures var t := h + ":" + m + ":" + sec;
            |t| == |h| + 6 && t[|t| - 6] == ':' && t[|t| - 3] == ':'
            && t[..|t| - 6] == h && t[|t| - 5..|t| - 3] == m && t[|t| - 2..] == sec
  {
    var t := h + ":" + m + ":" + sec;
    assert t[..|t| - 6] == h;
    assert t[|t| - 5..|t| - 3] == m;
    assert t[|t| - 2..] == sec;
  }

  /**
   * The text of a non-negative duration reads back as its number of whole seconds. The live timer
   * of a session is this text for `now - start`.
   */
  lemma FormatMsReadsBack(ms: int)
    requires ms >= 0
    ensures ParseClock(FormatMs(ms)) == ReadsAs(ms / MsPerSecond)
  {
    FormatMsFields(ms);
    var h, m, s := Pad(Hours(ms)), Pad(Minutes(ms)), Pad(Seconds(ms));
    PadZeroPrefix(Hours(ms));
    PadZeroPrefix(Minutes(ms));
    PadZeroPrefix(Seconds(ms));
    ClockSlices(h, m, s);
    ParseClockFields(FormatMs(ms), h, m, s);
  }
}

/** `get_relative_timestamp` inside `load_mssql_to_duckdb`: the whole seconds
    elapsed since the loader started, shown as `[hh:mm:ss]`. The clock is not
    modelled; the elapsed seconds are the input. */
module RelativeTime {
  import opened Wrappers
  import opened Text

  datatype Clock = Clock(hours: int, minutes: int, seconds: int)

  /** Python's `//` and `%` by a positive divisor round toward minus infinity,
      which is what Dafny's `/` and `%` do for a positive divisor as well. */
  function ToClock(total: int): (c: Clock)
    ensures c.hours * 3600 + c.minutes * 60 + c.seconds == total
    ensures 0 <= c.minutes < 60 && 0 <= c.seconds < 60
    ensures total >= 0 ==> c.hours >= 0
  {
    var h := total / 3600;
    var m := (total % 3600) / 60;
    DivMod60Unique(total, 60 * h + m, (total % 3600) % 60);
    Clock(h, m, total % 60)
  }

  /** Quotient and remainder by 3600 are the only pair with the remainder in
      range. */
  lemma DivMod3600Unique(n: int, q: int, r: int)
    requires n == 3600 * q + r && 0 <= r < 3600
    ensures q == n / 3600 && r == n % 3600
  {
    var q0, r0 := n / 3600, n % 3600;
    assert n == 3600 * q0 + r0 && 0 <= r0 < 3600;
    assert 3600 * (q - q0) == r0 - r;
  }

  /** The same for 60. */
  lemma DivMod60Unique(n: int, q: int, r: int)
    requires n == 60 * q + r && 0 <= r < 60
    ensures q == n / 60 && r == n % 60
  {
    var q0, r0 := n / 60, n % 60;
    assert n == 60 * q0 + r0 && 0 <= r0 < 60;
    assert 60 * (q - q0) == r0 - r;
  }

  /** The split into hours, minutes and seconds is the only one with minutes and
      seconds below 60. */
  lemma ClockUnique(total: int, c: Clock)
    requires c.hours * 3600 + c.minutes * 60 + c.seconds == total
    requires 0 <= c.minutes < 60 && 0 <= c.seconds < 60
    ensures c == ToClock(total)
  {
    var x := c.minutes * 60 + c.seconds;
    assert 0 <= x < 3600;
    DivMod3600Unique(total, c.hours, x);
    DivMod60Unique(x, c.minutes, c.seconds);
    assert total == 60 * (c.hours * 60 + c.minutes) + c.seconds;
    DivMod60Unique(total, c.hours * 60 + c.minutes, c.seconds);
  }

  /** `f"{n:02d}"`: at least two characters, zero-filled after the sign; a
      negative number already has two. */
  function Pad2(n: int): string
  {
    if 0 <= n < 10 then "0" + NatToString(n) else IntToString(n)
  }

  /** `[hh:mm:ss]` for the given whole seconds. */
  function RelativeTimestamp(total: int): string
  {
    var c := ToClock(total);
    "[" + Fields(c.hours, c.minutes, c.seconds) + "]"
  }

  /** `hh:mm:ss`, each field zero-padded. */
  function Fields(hours: int, minutes: int, seconds: int): string
  {
    Pad2(hours) + ":" + Pad2(minutes) + ":" + Pad2(seconds)
  }

  /** A zero-padded natural number is a run of at least two digits that reads
      back as the number, and is exactly two long below 100. */
  lemma Pad2Reads(n: nat)
    ensures IsDigits(Pad2(n)) && |Pad2(n)| >= 2
    ensures ParseNat(Pad2(n)) == n
    ensures n < 100 ==> |Pad2(n)| == 2
  {
    NatToStringRoundTrip(n);
    if n < 10 {
      ParseNatLeadingZero(NatToString(n));
    } else if n < 100 {
      NatToStringTwoDigits(n);
    } else {
      assert NatToString(n) == NatToString(n / 10) + [DigitChar(n % 10)];
      NatToStringRoundTrip(n / 10);
    }
  }

  lemma DigitsHaveNoColon(s: string)
    requires IsDigits(s)
    ensures ':' !in s
  {
    assert forall k :: 0 <= k < |s| ==> s[k] != ':';
  }

  /** Reads `[h:m:s]` back into whole seconds; fields must be digits. */
  function ParseTimestamp(s: string): Option<int>
  {
    if |s| >= 2 && s[0] == '[' && s[|s| - 1] == ']' then ParseFields(s[1..|s| - 1]) else None
  }

  /** Reads `h:m:s` into whole seconds. */
  function ParseFields(inner: string): Option<int>
  {
    var parts := Split(inner, ':');
    if |parts| == 3 && IsDigits(parts[0]) && IsDigits(parts[1]) && IsDigits(parts[2]) then
      Some(ParseNat(parts[0]) * 3600 + ParseNat(parts[1]) * 60 + ParseNat(parts[2]))
    else None
  }

  /** Three colon-free fields joined by colons split back into themselves. */
  lemma SplitThree(h: string, m: string, sec: string)
    requires ':' !in h && ':' !in m && ':' !in sec
    ensures Split(h + ":" + m + ":" + sec, ':') == [h, m, sec]
  {
    assert h + ":" + m + ":" + sec == h + [':'] + (m + [':'] + sec);
    SplitAtSeparator(h, ':', m + [':'] + sec);
    SplitAtSeparator(m, ':', sec);
    SplitWithoutSeparator(sec, ':');
  }

  /** Three zero-padded fields read back as their total. */
  lemma FieldsReadBack(hours: nat, minutes: nat, seconds: nat)
    ensures ParseFields(Fields(hours, minutes, seconds)) == Some(hours * 3600 + minutes * 60 + seconds)
  {
    var h, m, sec := Pad2(hours), Pad2(minutes), Pad2(seconds);
    Pad2Reads(hours);
    Pad2Reads(minutes);
    Pad2Reads(seconds);
    DigitsHaveNoColon(h);
    DigitsHaveNoColon(m);
    DigitsHaveNoColon(sec);
    SplitThree(h, m, sec);
  }

  /** Brackets around the fields are taken off before they are read. */
  lemma ParseBracketed(inner: string)
    ensures ParseTimestamp("[" + inner + "]") == ParseFields(inner)
  {
    var s := "[" + inner + "]";
    assert s[1..|s| - 1] == inner;
  }

  /** A clock with non-negative fields, stamped, reads back as its seconds. */
  lemma ClockReadsBack(c: Clock)
    requires c.hours >= 0 && c.minutes >= 0 && c.seconds >= 0
    ensures ParseTimestamp("[" + Fields(c.hours, c.minutes, c.seconds) + "]") == Some(c.hours * 3600 + c.minutes * 60 + c.seconds)
  {
    ParseBracketed(Fields(c.hours, c.minutes, c.seconds));
    FieldsReadBack(c.hours, c.minutes, c.seconds);
  }

  /** For a non-negative elapsed time the stamp reads back as the same number of
      seconds, so it shows the elapsed time without loss. */
  lemma {:induction false} TimestampRoundTrip(total: nat)
    ensures ParseTimestamp(RelativeTimestamp(total)) == Some(total)
  {
    var c := ToClock(total);
    assert c.hours * 3600 + c.minutes * 60 + c.seconds == total && c.hours >= 0;
    ClockReadsBack(c);
  }

  /** Below 100 hours the stamp is always ten characters long. */
  lemma TimestampWidth(total: int)
    requires 0 <= total < 360000
    ensures |RelativeTimestamp(total)| == 10
  {
    var c := ToClock(total);
    assert 0 <= c.hours < 100;
    Pad2Reads(c.hours);
    Pad2Reads(c.minutes);
    Pad2Reads(c.seconds);
  }
}

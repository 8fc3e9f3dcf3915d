/** `formatDuration` of the calendar view: a workout's duration in seconds shown as `h:mm:ss`
    when it reaches an hour and as `m:ss` otherwise. */
module Duration {
  import opened Text

  /** JavaScript's `a % b` for a positive divisor: what is left of `a` after taking away a
      multiple of `b`, smaller than `b` in size and with the sign of `a`. */
  function JsRem(a: int, b: int): (r: int)
    requires b > 0
    ensures (a - r) % b == 0
    ensures -b < r < b
    ensures a >= 0 ==> r == a % b
    ensures a < 0 ==> r <= 0
  {
    if a >= 0 then
      var q := a / b;
      assert a - a % b == q * b;
      MultipleHasNoRemainder(q, b);
      a % b
    else
      var q := (-a) / b;
      assert a + (-a) % b == (-q) * b;
      MultipleHasNoRemainder(-q, b);
      -((-a) % b)
  }

  lemma MultipleHasNoRemainder(q: int, b: int)
    requires b > 0
    ensures (q * b) % b == 0
  {
    var d, r := (q * b) / b, (q * b) % b;
    var k := q - d;
    assert q * b == d * b + r;
    assert k * b == r;
    if k > 0 {
      MultipleAtLeastDivisor(k, b);
      assert false;
    } else if k < 0 {
      MultipleAtLeastDivisor(-k, b);
      assert false;
    }
  }

  lemma MultipleAtLeastDivisor(k: int, b: int)
    requires k >= 1 && b > 0
    ensures k * b >= b
  {
    assert k * b == (k - 1) * b + b;
  }

  /** The fields `formatDuration` computes: `Math.floor(s / 3600)`, `Math.floor((s % 3600) / 60)`
      and `s % 60`. For a non-negative count they decompose it into hours, minutes under 60 and
      seconds under 60. */
  function Fields(seconds: int): (f: (int, int, int))
    ensures seconds >= 0 ==>
      0 <= f.0 && 0 <= f.1 < 60 && 0 <= f.2 < 60 && f.0 * 3600 + f.1 * 60 + f.2 == seconds
    ensures seconds >= 0 ==> (f.0 > 0 <==> seconds >= 3600)
  {
    (seconds / 3600, JsRem(seconds, 3600) / 60, JsRem(seconds, 60))
  }

  /** `String(n).padStart(2, "0")`. */
  function Pad2(n: int): string
  {
    PadStart(IntToString(n), 2, '0')
  }

  /** `formatDuration(seconds)`: null for a missing or zero duration, else the hour field (only
      when there is at least one hour), then the minutes (zero-padded when hours are shown) and
      the zero-padded seconds, separated by colons. */
  function FormatDuration(seconds: Option<int>): (r: Option<string>)
    ensures r.None? <==> seconds.None? || seconds.value == 0
  {
    match seconds
    case None => None
    case Some(n) =>
      if n == 0 then None
      else
        var f := Fields(n);
        if f.0 > 0 then Some(IntToString(f.0) + ":" + Pad2(f.1) + ":" + Pad2(f.2))
        else Some(IntToString(f.1) + ":" + Pad2(f.2))
  }

  /** Reads back a rendered duration: `h:mm:ss` or `m:ss`, every field a non-empty run of digits. */
  function ParseDuration(s: string): Option<int>
  {
    ParseFields(Split(s, ':'))
  }

  predicate NumericFields(f: seq<string>)
  {
    forall i :: 0 <= i < |f| ==> 1 <= |f[i]| && AllDigits(f[i])
  }

  function ParseFields(f: seq<string>): Option<int>
  {
    if !NumericFields(f) then None
    else if |f| == 3 then Some(ParseNat(f[0]) * 3600 + ParseNat(f[1]) * 60 + ParseNat(f[2]))
    else if |f| == 2 then Some(ParseNat(f[0]) * 60 + ParseNat(f[1]))
    else None
  }

  // ---- Lemmas ----

  /** A zero-padded field of a value under 100 is exactly two digits that read back as the value. */
  lemma Pad2Field(n: int)
    requires 0 <= n < 100
    ensures |Pad2(n)| == 2 && AllDigits(Pad2(n)) && ParseNat(Pad2(n)) == n
  {
    ParsePadded(n, 2);
  }

  /** The hour field appears exactly when the duration reaches an hour; the seconds field, and the
      minutes field when hours are shown, are exactly two digits; every field is decimal digits. */
  lemma FormatDurationShape(n: int)
    requires n > 0
    ensures var f := Fields(n);
      var parts := Split(FormatDuration(Some(n)).value, ':');
      (n >= 3600 ==> parts == [NatToString(f.0), Pad2(f.1), Pad2(f.2)]) &&
      (n < 3600 ==> parts == [NatToString(f.1), Pad2(f.2)]) &&
      |parts[|parts| - 1]| == 2 && (n >= 3600 ==> |parts[1]| == 2) &&
      NumericFields(parts)
  {
    var f := Fields(n);
    if n >= 3600 {
      HoursRendering(f.0, f.1, f.2);
    } else {
      MinutesRendering(f.1, f.2);
    }
  }

  /** `h:mm:ss` splits back into its three digit fields. */
  lemma HoursRendering(h: nat, m: nat, sec: nat)
    requires m < 60 && sec < 60
    ensures Split(IntToString(h) + ":" + Pad2(m) + ":" + Pad2(sec), ':') == [NatToString(h), Pad2(m), Pad2(sec)]
    ensures NumericFields([NatToString(h), Pad2(m), Pad2(sec)])
  {
    var a, b, c := NatToString(h), Pad2(m), Pad2(sec);
    Pad2Digits(m);
    Pad2Digits(sec);
    assert IntToString(h) + ":" + b + ":" + c == a + ":" + b + ":" + c;
    SplitDigitFields(a, b, c);
    NumericFieldsOf(a, b, c);
  }

  /** Digit fields joined by colons split back into the same fields. */
  lemma SplitDigitFields(a: string, b: string, c: string)
    requires AllDigits(a) && AllDigits(b) && AllDigits(c)
    ensures Split(a + ":" + b, ':') == [a, b]
    ensures Split(a + ":" + b + ":" + c, ':') == [a, b, c]
  {
    DigitsExcludeSeparator(a, ':');
    DigitsExcludeSeparator(b, ':');
    DigitsExcludeSeparator(c, ':');
    SplitFields(a, b, c, ':');
  }

  /** `m:ss` splits back into its two digit fields. */
  lemma MinutesRendering(m: nat, sec: nat)
    requires sec < 60
    ensures Split(IntToString(m) + ":" + Pad2(sec), ':') == [NatToString(m), Pad2(sec)]
    ensures NumericFields([NatToString(m), Pad2(sec)])
  {
    var a, b := NatToString(m), Pad2(sec);
    Pad2Digits(sec);
    assert IntToString(m) + ":" + b == a + ":" + b;
    SplitDigitFields(a, b, "");
    NumericFieldsOf(a, b, "0");
  }

  /** A zero-padded field under 100 is two decimal digits. */
  lemma Pad2Digits(n: int)
    requires 0 <= n < 100
    ensures |Pad2(n)| == 2 && AllDigits(Pad2(n))
  {
    ParsePadded(n, 2);
  }

  /** Two or three non-empty digit strings make numeric fields. */
  lemma NumericFieldsOf(a: string, b: string, c: string)
    requires 1 <= |a| && AllDigits(a) && 1 <= |b| && AllDigits(b) && 1 <= |c| && AllDigits(c)
    ensures NumericFields([a, b]) && NumericFields([a, b, c])
  {
    var two, three := [a, b], [a, b, c];
    assert two[0] == a && two[1] == b;
    assert three[0] == a && three[1] == b && three[2] == c;
  }

  /** Three digit fields read as hours, minutes and seconds. */
  lemma ParseThreeFields(a: string, b: string, c: string, h: nat, m: nat, sec: nat)
    requires 1 <= |a| && AllDigits(a) && ParseNat(a) == h
    requires 1 <= |b| && AllDigits(b) && ParseNat(b) == m
    requires 1 <= |c| && AllDigits(c) && ParseNat(c) == sec
    ensures ParseFields([a, b, c]) == Some(h * 3600 + m * 60 + sec)
  {
    var f := [a, b, c];
    assert f[0] == a && f[1] == b && f[2] == c;
  }

  /** Two digit fields read as minutes and seconds. */
  lemma ParseTwoFields(a: string, b: string, m: nat, sec: nat)
    requires 1 <= |a| && AllDigits(a) && ParseNat(a) == m
    requires 1 <= |b| && AllDigits(b) && ParseNat(b) == sec
    ensures ParseFields([a, b]) == Some(m * 60 + sec)
  {
    var f := [a, b];
    assert f[0] == a && f[1] == b;
  }

  /** The fields of an `h:mm:ss` rendering are digits and read back as the hours, minutes and seconds. */
  lemma ParseRenderedHours(h: nat, m: nat, sec: nat)
    requires m < 60 && sec < 60
    ensures ParseFields([NatToString(h), Pad2(m), Pad2(sec)]) == Some(h * 3600 + m * 60 + sec)
  {
    Pad2Field(m);
    Pad2Field(sec);
    ParseNatToString(h);
    ParseThreeFields(NatToString(h), Pad2(m), Pad2(sec), h, m, sec);
  }

  /** The fields of an `m:ss` rendering are digits and read back as the minutes and seconds. */
  lemma ParseRenderedMinutes(m: nat, sec: nat)
    requires sec < 60
    ensures ParseFields([NatToString(m), Pad2(sec)]) == Some(m * 60 + sec)
  {
    Pad2Field(sec);
    ParseNatToString(m);
    ParseTwoFields(NatToString(m), Pad2(sec), m, sec);
  }

  /** Reading the rendered fields back gives the original number of seconds. */
  lemma FormatDurationRoundTrip(n: int)
    requires n > 0
    ensures ParseDuration(FormatDuration(Some(n)).value) == Some(n)
  {
    var f := Fields(n);
    var h, m, sec := f.0, f.1, f.2;
    assert h * 3600 + m * 60 + sec == n;
    var parts := Split(FormatDuration(Some(n)).value, ':');
    FormatDurationShape(n);
    if n >= 3600 {
      ParseRenderedHours(h, m, sec);
      assert parts == [NatToString(h), Pad2(m), Pad2(sec)];
    } else {
      ParseRenderedMinutes(m, sec);
      assert parts == [NatToString(m), Pad2(sec)];
    }
    assert ParseFields(parts) == Some(n);
  }

  /** Worked values: 61 seconds and 3725 seconds. */
  lemma FormatDurationExamples()
    ensures FormatDuration(Some(61)) == Some("1:01")
    ensures FormatDuration(Some(3725)) == Some("1:02:05")
  {
    assert Fields(61) == (0, 1, 1);
    assert NatToString(1) == "1";
    assert Pad2(1) == "01";
    assert Fields(3725) == (1, 2, 5);
    assert Pad2(2) == "02" && Pad2(5) == "05";
    assert IntToString(1) == "1";
    assert IntToString(1) + ":" + Pad2(1) == "1:01";
    assert IntToString(1) + ":" + Pad2(2) + ":" + Pad2(5) == "1:02:05";
  }
}

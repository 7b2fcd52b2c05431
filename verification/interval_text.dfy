// The printer of retry intervals: a `google.protobuf.Duration` as a decimal number of seconds followed by "s".
module IntervalText {
  import opened Decimal
  import opened JsonGrammar

  datatype Duration = Duration(seconds: int, nanos: int)

  const NANOS := 1000000000

  /** `u64::try_from(..).unwrap_or(0)`: negative parts are printed as zero. */
  function Clamp(n: int): nat {
    if n < 0 then 0 else n
  }

  /** `{n:0width}`: pad with zeros on the left. */
  function Padded(n: nat, width: nat): (t: string) {
    ZeroFill(NatText(n), width)
  }

  function ZeroFill(t: string, width: nat): (r: string)
    decreases width - |t|
  {
    if |t| >= width then t else ZeroFill("0" + t, width)
  }

  function TrimZeros(t: string): string {
    if t != "" && t[|t| - 1] == '0' then TrimZeros(t[..|t| - 1]) else t
  }

  /** `interval_wit` without its unit. */
  function SecondsText(d: Duration): string {
    var seconds, nanos := Clamp(d.seconds), Clamp(d.nanos);
    if nanos == 0 then NatText(seconds)
    else NatText(seconds) + "." + TrimZeros(Padded(nanos, 9))
  }

  /** `interval_wit`. */
  function IntervalWit(d: Duration): string {
    SecondsText(d) + "s"
  }

  // --- digit strings --------------------------------------------------------------

  lemma {:induction false} LeadingZero(t: string)
    requires AllDigits(t)
    ensures AllDigits("0" + t) && ValueOf("0" + t) == ValueOf(t)
  {
    if t == "" {
      assert ("0" + t)[..0] == "";
    } else {
      LeadingZero(t[..|t| - 1]);
      assert ("0" + t)[..|t|] == "0" + t[..|t| - 1];
    }
  }

  lemma {:induction false} ZeroFillReads(t: string, width: nat)
    requires AllDigits(t)
    ensures var r := ZeroFill(t, width);
      AllDigits(r) && ValueOf(r) == ValueOf(t) && |r| == if |t| >= width then |t| else width
    decreases width - |t|
  {
    if |t| < width {
      LeadingZero(t);
      ZeroFillReads("0" + t, width);
    }
  }

  /** A number below 10^k has at most k digits. */
  lemma {:induction false} DigitsBelow(n: nat, k: nat)
    requires k >= 1 && n < TenTo(k)
    ensures |NatText(n)| <= k
  {
    if n >= 10 {
      DigitsBelow(n / 10, k - 1);
    }
  }

  function TenTo(k: nat): (p: nat)
    ensures p > 0
  {
    if k == 0 then 1 else 10 * TenTo(k - 1)
  }

  lemma {:induction false} TenToIsPow10(k: nat)
    ensures TenTo(k) as real == Pow10(k)
  {
    if k > 0 {
      TenToIsPow10(k - 1);
    }
  }

  /** Trimming zeros keeps the value as a fraction. */
  lemma {:induction false} TrimKeepsFraction(t: string)
    requires AllDigits(t)
    ensures var r := TrimZeros(t);
      && AllDigits(r) && |r| <= |t|
      && ValueOf(t) == ValueOf(r) * TenTo(|t| - |r|)
      && (r == "" || r[|r| - 1] != '0')
  {
    if t != "" && t[|t| - 1] == '0' {
      var init := t[..|t| - 1];
      TrimKeepsFraction(init);
      var r := TrimZeros(init);
      assert ValueOf(t) == 10 * ValueOf(init);
      assert TenTo(|t| - |r|) == 10 * TenTo(|init| - |r|);
      Regroup(ValueOf(r), TenTo(|init| - |r|));
    }
  }

  lemma Regroup(a: nat, p: nat)
    ensures 10 * (a * p) == a * (10 * p)
  {
  }

  lemma {:induction false} TenToAdds(j: nat, k: nat)
    ensures TenTo(j + k) == TenTo(j) * TenTo(k)
  {
    if j > 0 {
      TenToAdds(j - 1, k);
      assert TenTo(j + k) == 10 * TenTo(j - 1 + k);
      assert 10 * (TenTo(j - 1) * TenTo(k)) == (10 * TenTo(j - 1)) * TenTo(k);
    }
  }

  // --- the fraction ------------------------------------------------------------------

  function FractionText(nanos: nat): string {
    TrimZeros(Padded(nanos, 9))
  }

  /** The fraction digits denote the nanoseconds, are not empty and do not end in a zero. */
  lemma FractionReads(nanos: nat)
    requires 0 < nanos < NANOS
    ensures var f := FractionText(nanos);
      && AllDigits(f) && 1 <= |f| <= 9 && f[|f| - 1] != '0'
      && ValueOf(f) * TenTo(9 - |f|) == nanos
  {
    NatTextReads(nanos);
    assert TenTo(9) == NANOS by {
      assert TenTo(3) == 1000;
      TenToAdds(3, 3);
      TenToAdds(6, 3);
    }
    DigitsBelow(nanos, 9);
    ZeroFillReads(NatText(nanos), 9);
    TrimKeepsFraction(Padded(nanos, 9));
  }

  lemma FractionIsExact(nanos: nat)
    requires 0 < nanos < NANOS
    ensures var f := FractionText(nanos);
      AllDigits(f) && ValueOf(f) as real / Pow10(|f|) == nanos as real / NANOS as real
  {
    FractionReads(nanos);
    var f := FractionText(nanos);
    TenToAdds(|f|, 9 - |f|);
    assert TenTo(9) == NANOS by {
      assert TenTo(3) == 1000;
      TenToAdds(3, 3);
      TenToAdds(6, 3);
    }
    TenToIsPow10(|f|);
    ScaledFraction(ValueOf(f), TenTo(|f|), TenTo(9 - |f|));
  }

  lemma ScaledFraction(v: nat, p: nat, q: nat)
    requires p > 0 && q > 0
    ensures v as real / p as real == (v * q) as real / (p * q) as real
  {
    var a, b, c := v as real, p as real, q as real;
    assert (v * q) as real == a * c && (p * q) as real == b * c;
    assert a / b * (b * c) == a / b * b * c == a * c;
  }

  // --- main results ---------------------------------------------------------------------

  predicate InRange(d: Duration) {
    d.seconds >= 0 && 0 <= d.nanos < NANOS
  }

  /** A duration in seconds. */
  ghost function Seconds(d: Duration): real {
    d.seconds as real + d.nanos as real / 1000000000.0
  }

  /** The text is a decimal number of seconds that denotes the duration to the nanosecond. */
  lemma TextDenotesDuration(d: Duration)
    requires InRange(d)
    ensures ParseNumber(SecondsText(d)) == Match(Seconds(d), "")
  {
    if d.nanos > 0 {
      var text := WithFraction(d);
    } else {
      WholeNumberReads(d.seconds);
    }
  }

  lemma WithFraction(d: Duration) returns (text: string)
    requires InRange(d) && d.nanos > 0
    ensures text == SecondsText(d) && ParseNumber(text) == Match(Seconds(d), "")
  {
    var f, x;
    text, f, x := SecondsAndFraction(d);
    WholeAndFractionRead(d.seconds, f, x, text);
  }

  lemma SecondsAndFraction(d: Duration) returns (text: string, f: string, x: real)
    requires InRange(d) && d.nanos > 0
    ensures text == SecondsText(d) && text == NatText(d.seconds) + ("." + f)
    ensures Denotes(f, x) && Seconds(d) == d.seconds as real + x
  {
    text, f, x := SecondsText(d), FractionText(d.nanos), d.nanos as real / 1000000000.0;
    FractionFits(d.nanos);
  }

  predicate Denotes(f: string, x: real) {
    AllDigits(f) && f != "" && ValueOf(f) as real / Pow10(|f|) == x
  }

  lemma FractionFits(nanos: nat)
    requires 0 < nanos < NANOS
    ensures Denotes(FractionText(nanos), nanos as real / 1000000000.0)
  {
    FractionReads(nanos);
    FractionIsExact(nanos);
  }

  lemma NoSign(n: nat, tail: string)
    ensures !StartsWith(NatText(n) + tail, '-')
  {
    NatTextReads(n);
    assert (NatText(n) + tail)[0] == NatText(n)[0];
  }

  lemma WholeAndFractionRead(n: nat, f: string, x: real, text: string)
    requires Denotes(f, x) && text == NatText(n) + ("." + f)
    ensures ParseNumber(text) == Match(n as real + x, "")
  {
    NaturalReads(n);
    FractionTail(f);
    FractionFollows(NatText(n), "." + f, n, x);
    WholeParts(n, x);
    NoSign(n, "." + f);
  }

  lemma FractionTail(f: string)
    requires AllDigits(f) && f != ""
    ensures ParseFraction("." + f) == Match(ValueOf(f) as real / Pow10(|f|), "")
  {
    assert ("." + f)[1..] == f;
    DigitRunOfDigits(f);
    assert f[..|f|] == f && f[|f|..] == "";
  }

  /** The printed interval is that number followed by the unit for seconds, as Go's duration parser expects. */
  lemma IntervalIsSeconds(d: Duration)
    requires InRange(d)
    ensures var text := IntervalWit(d); var n := |text| - 1;
      n > 0 && text[n..] == "s" && ParseNumber(text[..n]) == Match(Seconds(d), "")
  {
    var text := IntervalWit(d);
    TextDenotesDuration(d);
    assert text[..|text| - 1] == SecondsText(d) && text[|text| - 1..] == "s";
  }

  /** Negative parts count as zero. */
  lemma NegativePartsAreZero(d: Duration)
    ensures d.seconds < 0 ==> IntervalWit(d) == IntervalWit(Duration(0, d.nanos))
    ensures d.nanos < 0 ==> IntervalWit(d) == IntervalWit(Duration(d.seconds, 0))
  {
  }

  /** A dot is followed by a fraction, which does not end in a zero. */
  lemma FractionIsShortest(d: Duration)
    requires InRange(d) && d.nanos > 0
    ensures exists f :: SecondsText(d) == NatText(d.seconds) + "." + f && f != "" && f[|f| - 1] != '0'
  {
    FractionReads(d.nanos);
  }

  /** Different durations are printed differently. */
  lemma IntervalsAreDistinct(d: Duration, e: Duration)
    requires InRange(d) && InRange(e) && IntervalWit(d) == IntervalWit(e)
    ensures d == e
  {
    assert SecondsText(d) == IntervalWit(d)[..|IntervalWit(d)| - 1];
    assert SecondsText(e) == IntervalWit(e)[..|IntervalWit(e)| - 1];
    TextDenotesDuration(d);
    TextDenotesDuration(e);
    assert Seconds(d) == Seconds(e);
    assert d.seconds == e.seconds;
  }
}

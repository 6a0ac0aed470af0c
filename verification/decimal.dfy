/**
 Decimal rendering of natural numbers, as done by Python's `f"{n}"` and
 `f"{n:0Wd}"` for a non-negative `int`, together with the digit-string
 reader that undoes it.
 */
module Decimal {

  predicate IsDigit(c: char) {
    '0' <= c <= '9'
  }

  predicate AllDigits(s: string) {
    forall i :: 0 <= i < |s| ==> IsDigit(s[i])
  }

  function DigitValue(c: char): (d: nat)
    requires IsDigit(c)
    ensures d < 10
  {
    (c as int) - ('0' as int)
  }

  function DigitChar(d: nat): (c: char)
    requires d < 10
    ensures IsDigit(c) && DigitValue(c) == d
  {
    (('0' as int) + d) as char
  }

  function Pow10(k: nat): (p: nat)
    ensures p >= 1
  {
    if k == 0 then 1 else 10 * Pow10(k - 1)
  }

  /** Python's `str(n)` for a non-negative integer. */
  function NatToString(n: nat): string
    decreases n
  {
    if n < 10 then [DigitChar(n)] else NatToString(n / 10) + [DigitChar(n % 10)]
  }

  /** The spelling is the shortest one: digits only, and a leading zero
      exactly when `n` is zero. */
  lemma {:induction false} NatToStringCanonical(n: nat)
    ensures |NatToString(n)| >= 1 && AllDigits(NatToString(n))
    ensures NatToString(n)[0] == '0' <==> n == 0
    ensures |NatToString(n)| == 1 <==> n < 10
    decreases n
  {
    if n >= 10 {
      NatToStringCanonical(n / 10);
      assert NatToString(n)[0] == NatToString(n / 10)[0];
    }
  }

  /** The value of a digit string, most significant digit first; the
      empty string reads as zero. */
  function DecimalValue(s: string): (n: nat)
    requires AllDigits(s)
    ensures n < Pow10(|s|)
  {
    if |s| == 0 then 0
    else DecimalValue(s[..|s| - 1]) * 10 + DigitValue(s[|s| - 1])
  }

  /** A digit string in the form `NatToString` produces. */
  predicate IsCanonical(s: string) {
    |s| >= 1 && AllDigits(s) && (|s| > 1 ==> s[0] != '0')
  }

  function Zeros(k: nat): string {
    if k == 0 then [] else Zeros(k - 1) + ['0']
  }

  lemma {:induction false} ZerosAreZeros(k: nat)
    ensures |Zeros(k)| == k
    ensures forall i :: 0 <= i < k ==> Zeros(k)[i] == '0'
  {
    if k > 0 {
      ZerosAreZeros(k - 1);
    }
  }

  /** Left-pads `s` with '0' up to `width` characters. */
  function ZeroPad(s: string, width: nat): string {
    if |s| >= width then s else Zeros(width - |s|) + s
  }

  /** Padding never truncates: the result is `s` itself when `s` is long
      enough, and otherwise exactly `width` characters, all '0' before a
      copy of `s`. */
  lemma ZeroPadSpec(s: string, width: nat)
    ensures |s| >= width ==> ZeroPad(s, width) == s
    ensures |s| < width ==> |ZeroPad(s, width)| == width
    ensures |ZeroPad(s, width)| >= |s| && ZeroPad(s, width)[|ZeroPad(s, width)| - |s|..] == s
    ensures forall i :: 0 <= i < |ZeroPad(s, width)| - |s| ==> ZeroPad(s, width)[i] == '0'
  {
    if |s| < width {
      ZerosAreZeros(width - |s|);
      var r := ZeroPad(s, width);
      assert r[|r| - |s|..] == s;
      forall i | 0 <= i < |r| - |s|
        ensures r[i] == '0'
      {
        assert r[i] == Zeros(width - |s|)[i];
      }
    }
  }

  /** Python's `f"{n:0{width}d}"` for a non-negative integer. */
  function Padded(n: nat, width: nat): string {
    ZeroPad(NatToString(n), width)
  }

  lemma {:induction false} DecimalRoundTrip(n: nat)
    ensures AllDigits(NatToString(n))
    ensures DecimalValue(NatToString(n)) == n
    decreases n
  {
    NatToStringCanonical(n);
    if n >= 10 {
      var s := NatToString(n / 10);
      var t := s + [DigitChar(n % 10)];
      assert t[..|t| - 1] == s;
      DecimalRoundTrip(n / 10);
    }
  }

  lemma NatToStringInjective(m: nat, n: nat)
    ensures NatToString(m) == NatToString(n) <==> m == n
  {
    DecimalRoundTrip(m);
    DecimalRoundTrip(n);
  }

  lemma {:induction false} LeadingDigitBound(s: string)
    requires |s| >= 1 && AllDigits(s)
    ensures DecimalValue(s) >= DigitValue(s[0])
  {
    if |s| > 1 {
      var p := s[..|s| - 1];
      assert p[0] == s[0];
      LeadingDigitBound(p);
    }
  }

  /** Reading and then spelling a canonical digit string gives it back. */
  lemma {:induction false} CanonicalRoundTrip(s: string)
    requires IsCanonical(s)
    ensures NatToString(DecimalValue(s)) == s
  {
    if |s| > 1 {
      var p := s[..|s| - 1];
      assert p[0] == s[0];
      LeadingDigitBound(p);
      if |p| == 1 {
        assert DigitValue(p[0]) >= 1;
      }
      CanonicalRoundTrip(p);
      var v := DecimalValue(s);
      assert v / 10 == DecimalValue(p);
      assert v % 10 == DigitValue(s[|s| - 1]);
      assert s == p + [s[|s| - 1]];
    }
  }

  lemma {:induction false} NatToStringLength(n: nat, k: nat)
    requires k >= 1 && n < Pow10(k)
    ensures |NatToString(n)| <= k
    decreases n
  {
    if n >= 10 {
      assert k >= 2 && Pow10(k) == 10 * Pow10(k - 1);
      assert n / 10 < Pow10(k - 1);
      NatToStringLength(n / 10, k - 1);
    }
  }

  lemma {:induction false} LeadingZerosValue(k: nat, s: string)
    requires AllDigits(s)
    ensures AllDigits(Zeros(k) + s)
    ensures DecimalValue(Zeros(k) + s) == DecimalValue(s)
    decreases |s|, k
  {
    var t := Zeros(k) + s;
    if |s| == 0 {
      if k > 0 {
        assert t[..|t| - 1] == Zeros(k - 1);
        LeadingZerosValue(k - 1, s);
        assert Zeros(k - 1) + s == Zeros(k - 1);
      }
    } else {
      var p := s[..|s| - 1];
      assert t[..|t| - 1] == Zeros(k) + p;
      LeadingZerosValue(k, p);
    }
  }

  /** A padded field of a value that fits holds exactly `width` digits
      and reads back as the value. */
  lemma PaddedField(n: nat, width: nat)
    requires width >= 1 && n < Pow10(width)
    ensures |Padded(n, width)| == width
    ensures AllDigits(Padded(n, width))
    ensures DecimalValue(Padded(n, width)) == n
  {
    var s := NatToString(n);
    if |s| < width {
      var k := width - |s|;
      assert Padded(n, width) == Zeros(k) + s;
      ZerosAreZeros(k);
      DecimalRoundTrip(n);
      LeadingZerosValue(k, s);
    } else {
      assert Padded(n, width) == s;
      NatToStringLength(n, width);
      DecimalRoundTrip(n);
    }
  }

  /** Padding to one more place adds one more leading '0'. */
  lemma ZeroPadStep(x: string, width: nat)
    requires |x| < width
    ensures ZeroPad(x, width) == ['0'] + ZeroPad(x, width - 1)
  {
    var k := width - |x|;
    assert ZeroPad(x, width) == Zeros(k) + x;
    ZerosAreZeros(k);
    ZerosAreZeros(k - 1);
    assert Zeros(k) == ['0'] + Zeros(k - 1);
  }

  /** A fixed-width digit string is the padded spelling of its value. */
  lemma {:induction false} PaddedDigits(s: string, width: nat)
    requires AllDigits(s) && |s| == width >= 1
    ensures Padded(DecimalValue(s), width) == s
    decreases width
  {
    if s[0] == '0' && |s| > 1 {
      var t := s[1..];
      assert s == Zeros(1) + t by {
        assert Zeros(1) == ['0'];
      }
      LeadingZerosValue(1, t);
      PaddedDigits(t, width - 1);
      var x := NatToString(DecimalValue(t));
      NatToStringLength(DecimalValue(t), width - 1);
      ZeroPadStep(x, width);
    } else {
      assert IsCanonical(s);
      CanonicalRoundTrip(s);
    }
  }
}

/** Decimal numerals: Python's `int(v)` on ASCII digit strings, `str(n)`, and zero-padded fields. */
module Digits {

  predicate IsDigit(c: char) { '0' <= c <= '9' }

  /** Every character is a digit; the empty string qualifies. */
  predicate AllDigits(s: string) { forall i :: 0 <= i < |s| ==> IsDigit(s[i]) }

  /** A non-empty run of digits, what the regular expression `\d+` matches. */
  predicate IsNumeral(s: string) { |s| > 0 && AllDigits(s) }

  function Pow10(k: nat): (p: nat)
    ensures p >= 1
  {
    if k == 0 then 1 else 10 * Pow10(k - 1)
  }

  function DigitChar(d: nat): (c: char)
    requires d < 10
    ensures IsDigit(c)
  {
    ('0' as int + d) as char
  }

  /** `int(s)` for a string of ASCII digits, read most significant digit first. */
  function DigitsToNat(s: string): (n: nat)
    requires AllDigits(s)
    ensures n < Pow10(|s|)
  {
    if s == [] then 0
    else DigitsToNat(s[..|s| - 1]) * 10 + (s[|s| - 1] as int - '0' as int)
  }

  /** `str(n)` for a non-negative integer. */
  function NatToDigits(n: nat): (s: string)
    ensures IsNumeral(s)
    decreases n
  {
    if n < 10 then [DigitChar(n)] else NatToDigits(n / 10) + [DigitChar(n % 10)]
  }

  /** `str(i)` for any integer. */
  function IntToString(i: int): string {
    if i < 0 then "-" + NatToDigits(-i) else NatToDigits(i)
  }

  /** `n` left-padded with zeros to `width` characters, as `%02d` / `%04d` render it. */
  function Pad(n: nat, width: nat): string {
    var ds := NatToDigits(n);
    if |ds| < width then Zeros(width - |ds|) + ds else ds
  }

  function Zeros(k: nat): (z: string)
    ensures |z| == k && AllDigits(z)
  {
    if k == 0 then "" else "0" + Zeros(k - 1)
  }

  /** Reading `str(n)` back with `int` gives `n`. */
  lemma {:induction false} NatToDigitsRoundTrip(n: nat)
    ensures DigitsToNat(NatToDigits(n)) == n
    decreases n
  {
    var s := NatToDigits(n);
    if n >= 10 {
      NatToDigitsRoundTrip(n / 10);
      assert s[..|s| - 1] == NatToDigits(n / 10);
    }
  }

  /** `int` of a concatenation: the left part is shifted by the width of the right part. */
  lemma {:induction false} DigitsToNatAppend(a: string, b: string)
    requires AllDigits(a) && AllDigits(b)
    ensures AllDigits(a + b)
    ensures DigitsToNat(a + b) == DigitsToNat(a) * Pow10(|b|) + DigitsToNat(b)
    decreases |b|
  {
    var s := a + b;
    assert AllDigits(s) by {
      forall i | 0 <= i < |s| ensures IsDigit(s[i]) {
        if i < |a| { assert s[i] == a[i]; } else { assert s[i] == b[i - |a|]; }
      }
    }
    if b == [] {
      assert s == a;
    } else {
      var b' := b[..|b| - 1];
      var d := b[|b| - 1] as int - '0' as int;
      assert s[..|s| - 1] == a + b';
      assert s[|s| - 1] == b[|b| - 1];
      DigitsToNatAppend(a, b');
      var x, p, y := DigitsToNat(a), Pow10(|b'|), DigitsToNat(b');
      assert Pow10(|b|) == 10 * p;
      assert DigitsToNat(s) == (x * p + y) * 10 + d;
      assert DigitsToNat(b) == y * 10 + d;
      assert (x * p + y) * 10 + d == x * (10 * p) + (y * 10 + d) by {
        ShiftDistributes(x, p, y, d);
      }
    }
  }

  lemma ShiftDistributes(x: int, p: int, y: int, d: int)
    ensures (x * p + y) * 10 + d == x * (10 * p) + (y * 10 + d)
  {
  }

  lemma {:induction false} ZerosValue(k: nat)
    ensures DigitsToNat(Zeros(k)) == 0
  {
    if k > 0 {
      DigitsToNatAppend("0", Zeros(k - 1));
      ZerosValue(k - 1);
      assert DigitsToNat("0") == 0 by { assert "0"[..0] == ""; }
    }
  }

  lemma {:induction false} Pow10Add(a: nat, b: nat)
    ensures Pow10(a + b) == Pow10(a) * Pow10(b)
    decreases b
  {
    if b > 0 {
      Pow10Add(a, b - 1);
      assert Pow10(a + b) == 10 * Pow10(a + b - 1);
    }
  }

  /** `str(i)` is made of digits and a minus sign only. */
  lemma IntToStringChars(i: int, c: char)
    requires !IsDigit(c) && c != '-'
    ensures c !in IntToString(i)
  {
    var ds := NatToDigits(if i < 0 then -i else i);
    assert forall j :: 0 <= j < |ds| ==> ds[j] != c;
    if i < 0 {
      assert IntToString(i) == "-" + ds;
    }
  }

  /** `str(n)` has at most `k` characters exactly when `n` is below `10^k`. */
  lemma {:induction false} NatToDigitsLength(n: nat, k: nat)
    requires k > 0
    ensures |NatToDigits(n)| <= k <==> n < Pow10(k)
    decreases n
  {
    assert Pow10(k) == 10 * Pow10(k - 1);
    if n >= 10 {
      assert |NatToDigits(n)| == |NatToDigits(n / 10)| + 1;
      if k > 1 {
        NatToDigitsLength(n / 10, k - 1);
      } else {
        assert |NatToDigits(n / 10)| > 0;
      }
    }
  }

  /** A field that fits its width pads to exactly that width and reads back as its value. */
  lemma PadRoundTrip(n: nat, width: nat)
    requires width > 0 && n < Pow10(width)
    ensures |Pad(n, width)| == width
    ensures AllDigits(Pad(n, width))
    ensures DigitsToNat(Pad(n, width)) == n
  {
    var ds := NatToDigits(n);
    NatToDigitsLength(n, width);
    NatToDigitsRoundTrip(n);
    if |ds| < width {
      var z := Zeros(width - |ds|);
      LeadingZeros(width - |ds|, ds);
      assert Pad(n, width) == z + ds;
    } else {
      assert Pad(n, width) == ds;
    }
  }

  /** Zeros in front of a numeral do not change its value. */
  lemma LeadingZeros(k: nat, ds: string)
    requires AllDigits(ds)
    ensures AllDigits(Zeros(k) + ds) && DigitsToNat(Zeros(k) + ds) == DigitsToNat(ds)
  {
    DigitsToNatAppend(Zeros(k), ds);
    ZerosValue(k);
    assert DigitsToNat(Zeros(k)) * Pow10(|ds|) == 0;
  }
}

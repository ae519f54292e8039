/**
 * Decimal digit strings: the exact, arbitrary-precision arithmetic behind
 * JavaScript's `BigInt(text)` and `n.toString()` on non-negative integers,
 * together with the padding and zero-stripping that fixed-point formatting
 * needs. Everything is digit by digit, so no proof divides by a power of ten.
 */
module Decimal {

  /** 10^n. */
  function Pow10(n: nat): (p: nat)
    ensures p >= 1
  {
    if n == 0 then 1 else 10 * Pow10(n - 1)
  }

  /** `v * 10^k`, one factor of ten at a time. */
  function Scale(v: int, k: nat): int
  {
    if k == 0 then v else Scale(v, k - 1) * 10
  }

  lemma {:induction false} ScaleIsProduct(v: int, k: nat)
    ensures Scale(v, k) == v * Pow10(k)
  {
    if k > 0 {
      ScaleIsProduct(v, k - 1);
      assert v * Pow10(k) == (v * Pow10(k - 1)) * 10;
    }
  }

  /** Scaling keeps the sign: it commutes with negation and preserves being negative. */
  lemma {:induction false} ScaleSign(v: int, k: nat)
    ensures Scale(-v, k) == -Scale(v, k)
    ensures Scale(v, k) < 0 <==> v < 0
  {
    if k > 0 {
      ScaleSign(v, k - 1);
    }
  }

  predicate IsDigit(c: char) {
    '0' <= c <= '9'
  }

  predicate IsDigits(s: string) {
    forall i :: 0 <= i < |s| ==> IsDigit(s[i])
  }

  function DigitValue(c: char): (v: nat)
    requires IsDigit(c)
    ensures v < 10
  {
    c as int - '0' as int
  }

  function DigitChar(v: nat): (c: char)
    requires v < 10
    ensures IsDigit(c) && DigitValue(c) == v
  {
    (v + '0' as int) as char
  }

  /** A run of `k` zero digits: what `padEnd` and `padStart` fill with. */
  function Zeros(k: nat): (z: string)
    ensures |z| == k && forall i :: 0 <= i < k ==> z[i] == '0'
  {
    seq(k, _ => '0')
  }

  /** `BigInt(s)` for a digit string: the number it denotes, most significant digit first. */
  function DigitsValue(s: string): (v: nat)
    requires IsDigits(s)
    ensures v < Pow10(|s|)
  {
    if s == [] then 0 else DigitsValue(s[..|s| - 1]) * 10 + DigitValue(s[|s| - 1])
  }

  /** `n.toString()`: the shortest decimal spelling, "0" for zero. */
  function Digits(n: nat): (s: string)
    ensures s != [] && IsDigits(s) && DigitsValue(s) == n
    ensures s[0] != '0' || s == "0"
  {
    if n < 10 then [DigitChar(n)]
    else
      var s := Digits(n / 10) + [DigitChar(n % 10)];
      assert s[..|s| - 1] == Digits(n / 10);
      s
  }

  /** `n` without its `k` low-order decimal digits, that is n / 10^k. */
  function DropDigits(n: nat, k: nat): nat
  {
    if k == 0 then n else DropDigits(n / 10, k - 1)
  }

  /**
   * The `width` low-order decimal digits of `n`, zero-padded on the left:
   * the last `width` characters of `n.toString().padStart(width, '0')`.
   */
  function FixedDigits(n: nat, width: nat): (s: string)
    ensures |s| == width && IsDigits(s)
  {
    if width == 0 then [] else FixedDigits(n / 10, width - 1) + [DigitChar(n % 10)]
  }

  /** `s.replace(/(0+)$/, '')`: drop every trailing '0'. */
  function StripTrailingZeros(s: string): (r: string)
    ensures |r| <= |s| && r == s[..|r|]
    ensures r == [] || r[|r| - 1] != '0'
    ensures forall i :: |r| <= i < |s| ==> s[i] == '0'
  {
    if s != [] && s[|s| - 1] == '0' then StripTrailingZeros(s[..|s| - 1]) else s
  }

  // ---------------------------------------------------------------------------
  // Small arithmetic facts

  lemma MulTen(v: nat, p: nat)
    ensures (v * p) * 10 == v * (10 * p)
  {
  }

  // ---------------------------------------------------------------------------
  // Digit strings and their values

  lemma DigitsConcat(a: string, b: string)
    requires IsDigits(a) && IsDigits(b)
    ensures IsDigits(a + b)
  {
  }

  lemma DigitsValueLast(s: string, c: char)
    requires IsDigits(s) && IsDigit(c)
    ensures IsDigits(s + [c]) && DigitsValue(s + [c]) == DigitsValue(s) * 10 + DigitValue(c)
  {
    var t := s + [c];
    assert t[..|t| - 1] == s;
  }

  /** Reading the concatenation of two digit strings. */
  lemma {:induction false} DigitsValueConcat(a: string, b: string)
    requires IsDigits(a) && IsDigits(b)
    ensures IsDigits(a + b)
    ensures DigitsValue(a + b) == DigitsValue(a) * Pow10(|b|) + DigitsValue(b)
  {
    if b == [] {
      assert a + b == a;
    } else {
      var b', c := b[..|b| - 1], b[|b| - 1];
      assert b == b' + [c];
      assert a + b == (a + b') + [c];
      DigitsValueConcat(a, b');
      DigitsValueLast(a + b', c);
      DigitsValueLast(b', c);
      ShiftDigit(DigitsValue(a), Pow10(|b'|), DigitsValue(b'), DigitValue(c));
    }
  }

  /** Appending one digit to both sides of `va * p + vb`. */
  lemma ShiftDigit(va: nat, p: nat, vb: nat, d: nat)
    ensures (va * p + vb) * 10 + d == va * (10 * p) + (vb * 10 + d)
  {
    MulTen(va, p);
  }

  lemma {:induction false} ValueWithZeros(f: string, k: nat)
    requires IsDigits(f)
    ensures IsDigits(f + Zeros(k))
    ensures DigitsValue(f + Zeros(k)) == DigitsValue(f) * Pow10(k)
  {
    AllZerosValue(Zeros(k));
    DigitsValueConcat(f, Zeros(k));
  }

  lemma {:induction false} AllZerosValue(s: string)
    requires forall i :: 0 <= i < |s| ==> s[i] == '0'
    ensures IsDigits(s) && DigitsValue(s) == 0
  {
    if s != [] {
      AllZerosValue(s[..|s| - 1]);
    }
  }

  lemma {:induction false} LeadingDigitPositive(s: string)
    requires IsDigits(s) && s != [] && s[0] != '0'
    ensures DigitsValue(s) >= 1
  {
    if |s| > 1 {
      LeadingDigitPositive(s[..|s| - 1]);
    }
  }

  /** Reading a digit string without superfluous leading zeros and printing it back is the identity. */
  lemma {:induction false} DigitsOfValue(s: string)
    requires IsDigits(s) && s != [] && (s[0] != '0' || s == "0")
    ensures Digits(DigitsValue(s)) == s
  {
    var p, c := s[..|s| - 1], s[|s| - 1];
    var v := DigitsValue(s);
    assert DigitChar(DigitValue(c)) == c;
    if |s| == 1 {
      assert s == [c];
    } else {
      LeadingDigitPositive(p);
      assert v / 10 == DigitsValue(p) && v % 10 == DigitValue(c);
      DigitsOfValue(p);
      assert s == p + [c];
    }
  }

  /** A number is its high-order part times 10^width plus its `width` low-order digits. */
  lemma {:induction false} DropDigitsSplit(n: nat, width: nat)
    ensures n == DropDigits(n, width) * Pow10(width) + DigitsValue(FixedDigits(n, width))
  {
    if width > 0 {
      DropDigitsSplit(n / 10, width - 1);
      var low := FixedDigits(n / 10, width - 1);
      DigitsValueLast(low, DigitChar(n % 10));
      MulTen(DropDigits(n, width), Pow10(width - 1));
    }
  }

  /**
   * Cutting the value of `a + b` after |b| digits gives back `a`'s value and
   * the digits of `b`.
   */
  lemma {:induction false} SplitValue(a: string, b: string)
    requires IsDigits(a) && IsDigits(b)
    ensures IsDigits(a + b)
    ensures DropDigits(DigitsValue(a + b), |b|) == DigitsValue(a)
    ensures FixedDigits(DigitsValue(a + b), |b|) == b
  {
    if b == [] {
      assert a + b == a;
    } else {
      var b', c := b[..|b| - 1], b[|b| - 1];
      SplitValue(a, b');
      assert a + b == (a + b') + [c] && b == b' + [c];
      DigitsValueLast(a + b', c);
      var v := DigitsValue(a + b);
      assert v / 10 == DigitsValue(a + b') && v % 10 == DigitValue(c);
      assert DigitChar(DigitValue(c)) == c;
    }
  }

  /** Multiplying by 10^k appends k zero digits. */
  lemma {:induction false} ScaleDigits(n: nat, w: nat, k: nat)
    ensures Scale(n, k) >= 0
    ensures DropDigits(Scale(n, k), w + k) == DropDigits(n, w)
    ensures FixedDigits(Scale(n, k), w + k) == FixedDigits(n, w) + Zeros(k)
  {
    if k > 0 {
      ScaleDigits(n, w, k - 1);
      var m := Scale(n, k);
      assert m / 10 == Scale(n, k - 1) && m % 10 == 0;
      assert Zeros(k) == Zeros(k - 1) + ['0'];
    }
  }

  /** A number below 10^width is all low-order digits: nothing is left above them. */
  lemma {:induction false} BelowPow10(n: nat, width: nat)
    requires n < Pow10(width)
    ensures DropDigits(n, width) == 0
    ensures DigitsValue(FixedDigits(n, width)) == n
  {
    if width > 0 {
      BelowPow10(n / 10, width - 1);
      DigitsValueLast(FixedDigits(n / 10, width - 1), DigitChar(n % 10));
    }
  }

  /** The printed high-order part followed by the low-order digits reads back as the number. */
  lemma RejoinDigits(n: nat, width: nat)
    ensures IsDigits(Digits(DropDigits(n, width)) + FixedDigits(n, width))
    ensures DigitsValue(Digits(DropDigits(n, width)) + FixedDigits(n, width)) == n
  {
    DropDigitsSplit(n, width);
    DigitsValueConcat(Digits(DropDigits(n, width)), FixedDigits(n, width));
  }

  lemma {:induction false} StripZerosAppended(s: string, k: nat)
    ensures StripTrailingZeros(s + Zeros(k)) == StripTrailingZeros(s)
  {
    if k == 0 {
      assert s + Zeros(k) == s;
    } else {
      var t := s + Zeros(k);
      assert t[..|t| - 1] == s + Zeros(k - 1);
      assert t[|t| - 1] == '0';
      StripZerosAppended(s, k - 1);
    }
  }

  lemma StripSplits(s: string)
    ensures s == StripTrailingZeros(s) + Zeros(|s| - |StripTrailingZeros(s)|)
  {
    var r := StripTrailingZeros(s);
    assert s == r + s[|r|..];
  }
}

/**
 * The fixed-point conversions the core borrows from viem: `parseEther` /
 * `parseUnits` (decimal text to a scaled integer) and `formatEther` /
 * `formatUnits` (scaled integer to decimal text). Both are specified here on
 * the canonical decimal grammar, and the lemmas show that each inverts the
 * other.
 */
module Ether {
  import opened Wrappers
  import opened Decimal
  import opened SeqFacts

  /** Ether has 18 decimals: one ether is 10^18 wei. */
  const EtherDecimals: nat := 18

  /** Position of the first '.' in `s`. */
  function DotIndex(s: string): (i: nat)
    requires '.' in s
    ensures i < |s| && s[i] == '.' && '.' !in s[..i]
  {
    if s[0] == '.' then 0
    else
      var i := 1 + DotIndex(s[1..]);
      assert s[..i] == [s[0]] + s[1..][..i - 1];
      i
  }

  /**
   * The grammar accepted here: one or more digits, optionally followed by
   * '.' and between one and `decimals` fraction digits.
   */
  ghost predicate IsDecimalText(s: string, decimals: nat) {
    || (s != [] && IsDigits(s))
    || exists i :: 0 < i < |s| - 1 && s[i] == '.' && IsDigits(s[..i]) && IsDigits(s[i + 1..])
                   && |s| - i - 1 <= decimals
  }

  /**
   * `BigInt(whole + fraction.padEnd(decimals, '0'))`: the fixed-point
   * integer that `whole.fraction` denotes at `decimals` decimals.
   */
  function ScaledValue(whole: string, fraction: string, decimals: nat): nat
    requires IsDigits(whole) && IsDigits(fraction) && |fraction| <= decimals
  {
    var padding := Zeros(decimals - |fraction|);
    AllZerosValue(padding);
    DigitsConcat(whole, fraction);
    DigitsConcat(whole + fraction, padding);
    DigitsValue(whole + fraction + padding)
  }

  /**
   * `parseUnits(s, decimals)`: split at the first '.', pad the fraction on
   * the right to `decimals` digits and read the digits as one integer.
   * `None` stands for the error it throws on anything outside the grammar.
   */
  function ParseUnits(s: string, decimals: nat): (r: Option<nat>)
  {
    if '.' !in s then
      if s != [] && IsDigits(s) then Some(ScaledValue(s, [], decimals)) else None
    else
      var i := DotIndex(s);
      var whole, fraction := s[..i], s[i + 1..];
      if whole != [] && IsDigits(whole) && fraction != [] && IsDigits(fraction) && |fraction| <= decimals
      then Some(ScaledValue(whole, fraction, decimals))
      else None
  }

  /** `parseEther(s)`, that is `parseUnits(s, 18)`. */
  function ParseEther(s: string): Option<nat>
  {
    ParseUnits(s, EtherDecimals)
  }

  /**
   * `formatUnits(n, decimals)` for n >= 0: the whole part n / 10^decimals
   * without leading zeros, then, unless the remaining low-order digits are
   * all zero, '.' and those `decimals` digits with trailing zeros removed.
   */
  function FormatMagnitude(n: nat, decimals: nat): string
  {
    var whole := Digits(DropDigits(n, decimals));
    var fraction := StripTrailingZeros(FixedDigits(n, decimals));
    if fraction == [] then whole else whole + "." + fraction
  }

  function Abs(value: int): nat {
    if value < 0 then -value else value
  }

  /** `formatUnits(value, decimals)`: a negative value is its magnitude preceded by '-'. */
  function FormatUnits(value: int, decimals: nat): string
  {
    var sign := if value < 0 then "-" else "";
    sign + FormatMagnitude(Abs(value), decimals)
  }

  /** `formatEther(value)`, that is `formatUnits(value, 18)`. */
  function FormatEther(value: int): string
  {
    FormatUnits(value, EtherDecimals)
  }

  // ---------------------------------------------------------------------------
  // The canonical spelling that FormatMagnitude produces

  /** A whole part: digits, with no leading zero unless it is "0" itself. */
  predicate IsCanonicalWhole(w: string) {
    w != [] && IsDigits(w) && (w[0] != '0' || w == "0")
  }

  /** A fraction part: one to `decimals` digits, the last of which is not '0'. */
  predicate IsCanonicalFraction(f: string, decimals: nat) {
    f != [] && IsDigits(f) && |f| <= decimals && f[|f| - 1] != '0'
  }

  ghost predicate IsCanonical(s: string, decimals: nat) {
    || IsCanonicalWhole(s)
    || exists i :: 0 <= i < |s| && s[i] == '.' && IsCanonicalWhole(s[..i]) && IsCanonicalFraction(s[i + 1..], decimals)
  }

  // ---------------------------------------------------------------------------
  // Parsing

  /** `ParseUnits` succeeds exactly on the decimal grammar. */
  lemma ParseUnitsAccepts(s: string, decimals: nat)
    ensures ParseUnits(s, decimals).Some? <==> IsDecimalText(s, decimals)
  {
    if '.' in s {
      ParsePointed(s, decimals);
      PointedGrammar(s, decimals);
    } else {
      forall i | 0 <= i < |s|
        ensures s[i] != '.'
      {
        assert s[i] in s;
      }
    }
  }

  /** Both sides of a text with a point, split at its first point. */
  predicate PointedParts(s: string, i: nat, decimals: nat)
    requires i < |s|
  {
    0 < i < |s| - 1 && IsDigits(s[..i]) && IsDigits(s[i + 1..]) && |s| - i - 1 <= decimals
  }

  lemma ParsePointed(s: string, decimals: nat)
    requires '.' in s
    ensures ParseUnits(s, decimals).Some? <==> PointedParts(s, DotIndex(s), decimals)
  {
  }

  /** Only the first '.' of a text can be its decimal point. */
  lemma PointedGrammar(s: string, decimals: nat)
    requires '.' in s
    ensures IsDecimalText(s, decimals) <==> PointedParts(s, DotIndex(s), decimals)
  {
    var i := DotIndex(s);
    assert !IsDigits(s) by { assert !IsDigit(s[i]); }
    if IsDecimalText(s, decimals) {
      var j :| 0 < j < |s| - 1 && s[j] == '.' && IsDigits(s[..j]) && IsDigits(s[j + 1..])
               && |s| - j - 1 <= decimals;
      PointNotBefore(s, i, j);
      PointNotAfter(s, i, j);
    }
    if PointedParts(s, i, decimals) {
      assert s[i] == '.';
    }
  }

  lemma PointNotBefore(s: string, i: nat, j: nat)
    requires i <= |s| && '.' !in s[..i] && j < |s| && s[j] == '.'
    ensures j >= i
  {
  }

  lemma PointNotAfter(s: string, i: nat, j: nat)
    requires i < |s| && s[i] == '.' && j <= |s| && IsDigits(s[..j])
    ensures j <= i
  {
  }

  /** Reading `I.F` (or a bare `I`) yields the fixed-point value of its whole and fraction digits. */
  lemma ParseDecimalParts(whole: string, fraction: string, decimals: nat)
    requires whole != [] && IsDigits(whole) && IsDigits(fraction) && |fraction| <= decimals
    ensures (fraction == [] ==> ParseUnits(whole, decimals) == Some(ScaledValue(whole, fraction, decimals)))
    ensures (fraction != [] ==> ParseUnits(whole + "." + fraction, decimals) == Some(ScaledValue(whole, fraction, decimals)))
  {
    if fraction != [] {
      var s := whole + "." + fraction;
      assert '.' in s by { assert s[|whole|] == '.'; }
      var i := DotIndex(s);
      assert s[..i] == whole && s[i + 1..] == fraction;
    }
  }

  /** `I.F` at `decimals` decimals denotes I * 10^decimals + F * 10^(decimals - |F|). */
  lemma ScaledValueArithmetic(whole: string, fraction: string, decimals: nat)
    requires IsDigits(whole) && IsDigits(fraction) && |fraction| <= decimals
    ensures ScaledValue(whole, fraction, decimals)
            == DigitsValue(whole) * Pow10(decimals) + DigitsValue(fraction) * Pow10(decimals - |fraction|)
  {
    var padding := Zeros(decimals - |fraction|);
    ValueWithZeros(fraction, decimals - |fraction|);
    DigitsValueConcat(whole, fraction + padding);
    assert whole + fraction + padding == whole + (fraction + padding);
  }

  // ---------------------------------------------------------------------------
  // Formatting

  /** For a non-negative value no sign is written. */
  lemma UnsignedUnits(n: nat, decimals: nat)
    ensures FormatUnits(n, decimals) == FormatMagnitude(n, decimals)
  {
    EmptyConcat(FormatMagnitude(n, decimals));
  }

  /** Whole multiples of 10^decimals are printed as the integer, without a '.'. */
  lemma FormatWhole(q: nat, decimals: nat)
    ensures FormatUnits(Scale(q, decimals), decimals) == Digits(q)
    ensures '.' !in FormatUnits(Scale(q, decimals), decimals)
  {
    var v := Scale(q, decimals);
    WholeDigits(q, decimals);
    assert FormatMagnitude(v, decimals) == Digits(q);
    UnsignedUnits(v, decimals);
    NoPointInDigits(Digits(q));
  }

  /** The low-order digits of a whole multiple of 10^decimals are all zero. */
  lemma WholeDigits(q: nat, decimals: nat)
    ensures Scale(q, decimals) >= 0
    ensures DropDigits(Scale(q, decimals), decimals) == q
    ensures StripTrailingZeros(FixedDigits(Scale(q, decimals), decimals)) == []
  {
    ScaleDigits(q, 0, decimals);
    assert FixedDigits(Scale(q, decimals), decimals) == Zeros(decimals) by {
      assert FixedDigits(q, 0) == [];
      EmptyConcat(Zeros(decimals));
    }
    assert StripTrailingZeros(Zeros(decimals)) == [] by {
      StripZerosAppended([], decimals);
      EmptyConcat(Zeros(decimals));
    }
  }

  lemma NoPointInDigits(s: string)
    requires IsDigits(s)
    ensures '.' !in s
  {
    assert forall i | 0 <= i < |s| :: s[i] != '.';
  }

  /** Zero is printed "0". */
  lemma FormatZero(decimals: nat)
    ensures FormatUnits(0, decimals) == "0"
  {
    assert Scale(0, decimals) == 0 by { ScaleSign(0, decimals); }
    assert FormatUnits(0, decimals) == Digits(0) by { FormatWhole(0, decimals); }
    assert Digits(0) == "0";
  }

  /** Amounts below one whole unit are printed "0." and the zero-padded fraction. */
  lemma FormatBelowOne(n: nat, decimals: nat)
    requires 0 < n < Pow10(decimals)
    ensures FormatUnits(n, decimals) == "0." + StripTrailingZeros(FixedDigits(n, decimals))
    ensures |FormatUnits(n, decimals)| <= decimals + 2
  {
    var low := FixedDigits(n, decimals);
    var f := StripTrailingZeros(low);
    assert DropDigits(n, decimals) == 0 && DigitsValue(low) == n by { BelowPow10(n, decimals); }
    assert f != [] by {
      if f == [] {
        AllZerosValue(low);
      }
    }
    assert FormatMagnitude(n, decimals) == "0" + "." + f by { assert Digits(0) == "0"; }
    UnsignedUnits(n, decimals);
    assert "0" + "." + f == "0." + f by { assert "0" + "." == "0."; }
  }

  /** FormatMagnitude always yields the canonical spelling. */
  lemma FormatCanonical(n: nat, decimals: nat)
    ensures IsCanonical(FormatMagnitude(n, decimals), decimals)
  {
    var w := Digits(DropDigits(n, decimals));
    var f := StripTrailingZeros(FixedDigits(n, decimals));
    if f != [] {
      var s := w + "." + f;
      assert s[|w|] == '.' && s[..|w|] == w && s[|w| + 1..] == f;
    }
  }

  /** Parsing what was formatted gives back the amount: formatting loses nothing. */
  lemma ParseFormat(n: nat, decimals: nat)
    ensures ParseUnits(FormatMagnitude(n, decimals), decimals) == Some(n)
  {
    var w := Digits(DropDigits(n, decimals));
    var low := FixedDigits(n, decimals);
    var f := StripTrailingZeros(low);
    StripSplits(low);
    RejoinDigits(n, decimals);
    ParseDecimalParts(w, f, decimals);
    assert w + f + Zeros(decimals - |f|) == w + low;
  }

  /** Formatting what was parsed gives back the text, when the text was canonical. */
  lemma FormatParse(s: string, decimals: nat)
    requires IsCanonical(s, decimals)
    ensures ParseUnits(s, decimals).Some?
    ensures FormatMagnitude(ParseUnits(s, decimals).value, decimals) == s
  {
    if IsCanonicalWhole(s) {
      FormatParseWhole(s, decimals);
    } else {
      var i :| 0 <= i < |s| && s[i] == '.' && IsCanonicalWhole(s[..i]) && IsCanonicalFraction(s[i + 1..], decimals);
      var w, f := s[..i], s[i + 1..];
      assert s == w + "." + f by {
        SplitAround(s, i);
        assert [s[i]] == ".";
      }
      FormatParseFraction(w, f, decimals);
    }
  }

  lemma FormatParseWhole(w: string, decimals: nat)
    requires IsCanonicalWhole(w)
    ensures ParseUnits(w, decimals) == Some(ScaledValue(w, [], decimals))
    ensures FormatMagnitude(ScaledValue(w, [], decimals), decimals) == w
  {
    ParseDecimalParts(w, [], decimals);
    var padding := Zeros(decimals);
    AllZerosValue(padding);
    assert w + [] + padding == w + padding;
    SplitValue(w, padding);
    StripZerosAppended([], decimals);
    assert [] + padding == padding;
    DigitsOfValue(w);
  }

  lemma FormatParseFraction(w: string, f: string, decimals: nat)
    requires IsCanonicalWhole(w) && IsCanonicalFraction(f, decimals)
    ensures ParseUnits(w + "." + f, decimals) == Some(ScaledValue(w, f, decimals))
    ensures FormatMagnitude(ScaledValue(w, f, decimals), decimals) == w + "." + f
  {
    ParseDecimalParts(w, f, decimals);
    var padding := Zeros(decimals - |f|);
    var low := f + padding;
    AllZerosValue(padding);
    assert w + f + padding == w + low;
    var v := ScaledValue(w, f, decimals);
    assert v == DigitsValue(w + low);
    SplitValue(w, low);
    assert |low| == decimals;
    assert DropDigits(v, decimals) == DigitsValue(w) && FixedDigits(v, decimals) == low;
    StripZerosAppended(f, decimals - |f|);
    assert StripTrailingZeros(low) == f;
    DigitsOfValue(w);
  }

  /** A string of digits without a point is that many whole units. */
  lemma ParseWhole(whole: string, decimals: nat)
    requires whole != [] && IsDigits(whole)
    ensures ParseUnits(whole, decimals) == Some(Scale(DigitsValue(whole), decimals))
  {
    ParseDecimalParts(whole, [], decimals);
    ScaledValueArithmetic(whole, [], decimals);
    ScaleIsProduct(DigitsValue(whole), decimals);
  }

  /** A negative value is written as '-' before the text of its magnitude. */
  lemma FormatNegative(value: int, decimals: nat)
    requires value < 0
    ensures FormatUnits(value, decimals) == "-" + FormatUnits(-value, decimals)
  {
    var m := FormatMagnitude(Abs(value), decimals);
    assert "" + m == m;
  }

  /** The text `formatUnits` writes is never empty and holds only digits, '.' and '-'. */
  lemma FormatUnitsChars(value: int, decimals: nat)
    ensures var s := FormatUnits(value, decimals);
      s != [] && forall i :: 0 <= i < |s| ==> IsDigit(s[i]) || s[i] == '.' || s[i] == '-'
    ensures value >= 0 ==> FormatUnits(value, decimals) == FormatMagnitude(value, decimals)
  {
    var n := Abs(value);
    var whole := Digits(DropDigits(n, decimals));
    var fraction := StripTrailingZeros(FixedDigits(n, decimals));
    assert IsDigits(fraction) by {
      forall i | 0 <= i < |fraction| ensures IsDigit(fraction[i]) {
        assert fraction[i] == FixedDigits(n, decimals)[i];
      }
    }
    var sign := if value < 0 then "-" else "";
    assert sign + [] == sign;
  }

  /**
   * Scaling an amount by 10^k and formatting it with k more decimals prints
   * the same text as formatting the amount itself.
   */
  lemma FormatRescale(value: int, decimals: nat, k: nat)
    ensures FormatUnits(Scale(value, k), decimals + k) == FormatUnits(value, decimals)
  {
    ScaleSign(value, k);
    assert Abs(Scale(value, k)) == Scale(Abs(value), k);
    MagnitudeRescale(Abs(value), decimals, k);
  }

  lemma MagnitudeRescale(n: nat, decimals: nat, k: nat)
    ensures Scale(n, k) >= 0
    ensures FormatMagnitude(Scale(n, k), decimals + k) == FormatMagnitude(n, decimals)
  {
    ScaleDigits(n, decimals, k);
    StripZerosAppended(FixedDigits(n, decimals), k);
  }
}

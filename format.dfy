/**
 * The display helpers of `src/utils/format/format.ts`: a token amount in its
 * smallest unit, with the token's number of decimals, shown as a decimal
 * number by scaling it to 18 decimals and handing it to `formatEther`.
 */
module Format {
  import opened Wrappers
  import opened Decimal
  import opened Text
  import opened Ether
  import opened Calculate

  /**
   * From this many decimals on, `18 - decimals` is -324 or less, and
   * `10 ** (18 - decimals)` lies below half of the smallest positive double,
   * so it rounds to 0 and `BigInt` accepts it.
   */
  const UnderflowDecimals: nat := 342

  /**
   * `amount * BigInt(10 ** (18 - decimals))`: the amount moved to 18
   * decimals, `Scale(amount, 18 - decimals)` being `amount * 10^(18 - decimals)`
   * (`Decimal.ScaleIsProduct`). From 19 to 341 decimals the power is a
   * non-zero fraction and `BigInt` throws a `RangeError`, modelled as `None`;
   * from 342 decimals on the power underflows to 0 and the product is 0.
   */
  function ToEtherUnits(amount: int, decimals: nat): (r: Option<int>)
    ensures r.None? <==> EtherDecimals < decimals < UnderflowDecimals
    ensures decimals >= UnderflowDecimals ==> r == Some(0)
  {
    if decimals <= EtherDecimals then Some(Scale(amount, EtherDecimals - decimals))
    else if decimals < UnderflowDecimals then None
    else Some(0)
  }

  /** The scaled amount is the amount times 10^(18 - decimals). */
  lemma ToEtherUnitsIsProduct(amount: int, decimals: nat)
    requires decimals <= EtherDecimals
    ensures ToEtherUnits(amount, decimals) == Some(amount * Pow10(EtherDecimals - decimals))
  {
    ScaleIsProduct(amount, EtherDecimals - decimals);
  }

  /**
   * `formatTokenAmount(amount, decimals)`. `None` in an argument is
   * `undefined`; `None` as the result is the `RangeError` thrown for 19 to
   * 341 decimals.
   */
  function FormatTokenAmount(amount: Option<int>, decimals: Option<nat>): (r: Option<string>)
    ensures decimals.None? || amount.None? ==> r == Some("0")
    ensures decimals.Some? && amount.Some? ==>
      (r.None? <==> EtherDecimals < decimals.value < UnderflowDecimals)
    ensures decimals.Some? && amount.Some? && decimals.value <= EtherDecimals ==>
      r == Some(FormatUnits(amount.value, decimals.value))
    ensures decimals.Some? && amount.Some? && decimals.value >= UnderflowDecimals ==> r == Some("0")
  {
    if decimals.None? || amount.None? then Some("0")
    else
      var adjusted := ToEtherUnits(amount.value, decimals.value);
      if adjusted.None? then None
      else if decimals.value <= EtherDecimals then
        var k := EtherDecimals - decimals.value;
        assert adjusted.value == Scale(amount.value, k);
        assert decimals.value + k == EtherDecimals;
        FormatRescale(amount.value, decimals.value, k);
        Some(FormatEther(adjusted.value))
      else
        assert FormatEther(0) == "0" by {
          FormatZero(EtherDecimals);
        }
        Some(FormatEther(adjusted.value))
  }

  /**
   * `formatBalance(balance, decimals)`: the same guard (checked in the other
   * order) and the same scaling, so the same text as `formatTokenAmount`.
   */
  function FormatBalance(balance: Option<int>, decimals: Option<nat>): (r: Option<string>)
    ensures r == FormatTokenAmount(balance, decimals)
  {
    if balance.None? || decimals.None? then Some("0")
    else
      var adjusted := ToEtherUnits(balance.value, decimals.value);
      if adjusted.None? then None
      else Some(FormatEther(adjusted.value))
  }

  /** A zero amount shows as "0" for every supported number of decimals. */
  lemma ZeroShowsAsZero(decimals: nat)
    requires decimals <= EtherDecimals
    ensures FormatTokenAmount(Some(0), Some(decimals)) == Some("0")
  {
    assert FormatTokenAmount(Some(0), Some(decimals)) == Some(FormatUnits(0, decimals));
    assert FormatUnits(0, decimals) == "0" by {
      FormatZero(decimals);
    }
  }

  /** A whole number of tokens shows as its digits, without a decimal point. */
  lemma WholeTokensShowAsDigits(tokens: nat, decimals: nat)
    requires decimals <= EtherDecimals
    ensures Scale(tokens, decimals) >= 0
    ensures FormatTokenAmount(Some(Scale(tokens, decimals)), Some(decimals)) == Some(Digits(tokens))
  {
    var shown := FormatTokenAmount(Some(Scale(tokens, decimals)), Some(decimals));
    assert Scale(tokens, decimals) >= 0 by {
      ScaleSign(tokens, decimals);
    }
    assert shown == Some(FormatUnits(Scale(tokens, decimals), decimals));
    assert FormatUnits(Scale(tokens, decimals), decimals) == Digits(tokens) by {
      FormatWhole(tokens, decimals);
    }
  }

  /**
   * An amount below one whole token shows as "0." and its `decimals`
   * low-order digits, zero-padded on the left, without trailing zeros.
   */
  lemma SmallAmountShowsFraction(amount: nat, decimals: nat)
    requires decimals <= EtherDecimals && 0 < amount < Pow10(decimals)
    ensures FormatTokenAmount(Some(amount), Some(decimals))
      == Some("0." + StripTrailingZeros(FixedDigits(amount, decimals)))
  {
    assert FormatTokenAmount(Some(amount), Some(decimals)) == Some(FormatUnits(amount, decimals));
    FormatBelowOne(amount, decimals);
  }

  /**
   * A non-negative amount shows in the canonical spelling (no superfluous
   * zero on either side of the point) and keeps every significant digit:
   * reading the text back at the token's decimals gives the amount.
   */
  lemma ShownTextIsExact(amount: nat, decimals: nat)
    requires decimals <= EtherDecimals
    ensures FormatTokenAmount(Some(amount), Some(decimals)).Some?
    ensures IsCanonical(FormatTokenAmount(Some(amount), Some(decimals)).value, decimals)
    ensures ParseUnits(FormatTokenAmount(Some(amount), Some(decimals)).value, decimals) == Some(amount)
  {
    assert FormatTokenAmount(Some(amount), Some(decimals)) == Some(FormatMagnitude(amount, decimals)) by {
      UnsignedUnits(amount, decimals);
    }
    FormatCanonical(amount, decimals);
    ParseFormat(amount, decimals);
  }

  /** Digits, '.' and '-' are neither separators nor white space. */
  lemma NumberTextIsOnePiece(text: string)
    requires forall i :: 0 <= i < |text| ==> IsDigit(text[i]) || text[i] == '.' || text[i] == '-'
    ensures NoSeparator(text) && Trim(text) == text
  {
    assert forall i :: 0 <= i < |text| ==> !IsWhitespace(text[i]) && !IsSeparator(text[i]);
    TrimKeeps(text);
  }

  /** Any non-negative wei amount written by `formatEther` is read back by `calculateAmountsInWei`. */
  lemma EtherTextReadsBack(wei: nat)
    ensures CalculateAmountsInWei(Some(FormatEther(wei))) == [wei]
  {
    var text := FormatEther(wei);
    assert NoSeparator(text) && Trim(text) == text by {
      FormatUnitsChars(wei, EtherDecimals);
      NumberTextIsOnePiece(text);
    }
    assert ParseEther(text) == Some(wei) by {
      FormatUnitsChars(wei, EtherDecimals);
      ParseFormat(wei, EtherDecimals);
    }
    SingleAmount(text, (t: string) => None);
  }

  /** `formatTokenAmount` shows the amount as the ether text of the same quantity in wei. */
  lemma ShownAsEther(amount: int, decimals: nat)
    requires decimals <= EtherDecimals
    ensures FormatTokenAmount(Some(amount), Some(decimals))
      == Some(FormatEther(Scale(amount, EtherDecimals - decimals)))
  {
    var k := EtherDecimals - decimals;
    assert FormatTokenAmount(Some(amount), Some(decimals)) == Some(FormatUnits(amount, decimals));
    FormatRescale(amount, decimals, k);
    assert decimals + k == EtherDecimals;
  }

  /**
   * A non-negative amount shown by `formatTokenAmount` and read back by
   * `calculateAmountsInWei` gives one amount: the same quantity in wei,
   * that is the amount scaled to 18 decimals.
   */
  lemma ShownAmountReadsBack(amount: nat, decimals: nat)
    requires decimals <= EtherDecimals
    ensures CalculateAmountsInWei(FormatTokenAmount(Some(amount), Some(decimals)))
      == [Scale(amount, EtherDecimals - decimals)]
  {
    var k := EtherDecimals - decimals;
    ScaleSign(amount, k);
    var wei: nat := Scale(amount, k);
    ShownWeiReadsBack(amount, decimals, wei);
  }

  lemma ShownWeiReadsBack(amount: nat, decimals: nat, wei: nat)
    requires decimals <= EtherDecimals
    requires wei == Scale(amount, EtherDecimals - decimals)
    ensures CalculateAmountsInWei(FormatTokenAmount(Some(amount), Some(decimals))) == [wei]
  {
    ShownAsEther(amount, decimals);
    EtherTextReadsBack(wei);
  }
}

/**
 * The situations the repository's unit tests exercise, derived from the
 * general lemmas: plain whole entries, entries `parseEther` rejects, and a
 * rejected entry among accepted ones.
 */
module Scenarios {
  import opened Wrappers
  import opened Decimal
  import opened Text
  import opened Ether
  import opened Calculate
  import opened Format
  import opened SeqFacts

  /** A text of plain digits is one entry: that many whole ether, in wei. */
  lemma WholeEntry(t: string)
    requires t != [] && IsDigits(t)
    ensures CalculateAmountsInWei(Some(t)) == [Scale(DigitsValue(t), EtherDecimals)]
  {
    assert forall i :: 0 <= i < |t| ==> !IsWhitespace(t[i]) && !IsSeparator(t[i]);
    TrimKeeps(t);
    ParseWhole(t, EtherDecimals);
    SingleAmount(t, (s: string) => None);
  }

  /** An entry `parseEther` rejects contributes nothing. */
  lemma RejectedEntry(t: string)
    requires NoSeparator(t) && Trim(t) == t && ParseEther(t).None?
    ensures CalculateAmountsInWei(Some(t)) == []
  {
    SingleAmount(t, (s: string) => None);
  }

  /** Three entries separated by runs of separators. */
  lemma ThreeEntries(x: string, r1: string, y: string, r2: string, z: string, toNumber: string -> Option<real>)
    requires r1 != [] && AllSeparators(r1) && r2 != [] && AllSeparators(r2)
    ensures CalculateAmountsInWei(Some(x + r1 + y + r2 + z))
      == CalculateAmountsInWei(Some(x)) + CalculateAmountsInWei(Some(y)) + CalculateAmountsInWei(Some(z))
    ensures ParseAmounts(Some(x + r1 + y + r2 + z), toNumber)
      == ParseAmounts(Some(x), toNumber) + ParseAmounts(Some(y), toNumber) + ParseAmounts(Some(z), toNumber)
  {
    ConcatAssoc(x + r1, y + r2, z);
    ConcatAssoc(x, r1, y + r2 + z);
    assert x + r1 + y + r2 + z == x + r1 + (y + r2 + z) by {
      ConcatAssoc(x + r1, y, r2);
      ConcatAssoc(x + r1 + y, r2, z);
      ConcatAssoc(x + r1, y + r2, z);
      ConcatAssoc(x + r1, y, r2);
    }
    AmountsAtSeparatorRun(x, r1, y + r2 + z, toNumber);
    AmountsAtSeparatorRun(y, r2, z, toNumber);
    ConcatAssoc(CalculateAmountsInWei(Some(x)), CalculateAmountsInWei(Some(y)), CalculateAmountsInWei(Some(z)));
    ConcatAssoc(ParseAmounts(Some(x), toNumber), ParseAmounts(Some(y), toNumber), ParseAmounts(Some(z), toNumber));
  }

  lemma AbcNotANumber(t: string)
    requires t == "abc"
    ensures ParseEther(t).None?
  {
    assert !IsDigit(t[0]);
  }

  lemma AbcIsOnePiece(t: string)
    requires t == "abc"
    ensures NoSeparator(t) && Trim(t) == t
  {
    assert |t| == 3 && t[0] == 'a' && t[1] == 'b' && t[2] == 'c';
    assert forall i :: 0 <= i < |t| ==> !IsWhitespace(t[i]) && !IsSeparator(t[i]);
    TrimKeeps(t);
  }

  /** A rejected entry between two accepted ones is dropped; the other two keep their order. */
  lemma RejectedBetween(x: string, bad: string, z: string, a: nat, b: nat)
    requires CalculateAmountsInWei(Some(x)) == [a]
    requires CalculateAmountsInWei(Some(bad)) == []
    requires CalculateAmountsInWei(Some(z)) == [b]
    ensures CalculateAmountsInWei(Some(x + "," + bad + "," + z)) == [a, b]
  {
    CommaSeparated(x, bad, z);
    JoinAroundEmpty([a], [b]);
    JoinSingletons(a, b);
  }

  /** Three entries separated by single commas. */
  lemma CommaSeparated(x: string, y: string, z: string)
    ensures CalculateAmountsInWei(Some(x + "," + y + "," + z))
      == CalculateAmountsInWei(Some(x)) + CalculateAmountsInWei(Some(y)) + CalculateAmountsInWei(Some(z))
  {
    assert AllSeparators(",");
    ThreeEntries(x, ",", y, ",", z, (s: string) => None);
  }

  lemma AbcDropped(t: string)
    requires t == "abc"
    ensures CalculateAmountsInWei(Some(t)) == []
  {
    AbcIsOnePiece(t);
    AbcNotANumber(t);
    RejectedEntry(t);
  }

  // ---------------------------------------------------------------------------
  // Literal values from the unit tests

  /** "3.14" is 3.14 ether. */
  lemma PiEther()
    ensures ParseEther("3.14") == Some(3140000000000000000)
  {
    assert "3" + "." + "14" == "3.14";
    assert IsDigits("3") && IsDigits("14");
    ParseDecimalParts("3", "14", EtherDecimals);
    PiValue();
  }

  lemma PiValue()
    ensures IsDigits("3") && IsDigits("14")
    ensures ScaledValue("3", "14", EtherDecimals) == 3140000000000000000
  {
    PiDigits();
    ScaledValueArithmetic("3", "14", EtherDecimals);
    assert |"14"| == 2;
    WeiPerEther();
    assert Pow10(18) == 100 * Pow10(16);
  }

  lemma PiDigits()
    ensures IsDigits("3") && IsDigits("14")
    ensures DigitsValue("3") == 3 && DigitsValue("14") == 14
  {
    assert "3"[..0] == [];
    assert "14"[..1] == "1" && "1"[..0] == [];
  }

  /** "1,abc,3" gives one and three ether, in wei. */
  lemma OneAbcThree(text: string)
    requires text == "1,abc,3"
    ensures CalculateAmountsInWei(Some(text)) == [1000000000000000000, 3000000000000000000]
  {
    OneAbcThreeSpelling();
    EntriesAroundAbc("1", "abc", "3");
  }

  lemma EntriesAroundAbc(one: string, abc: string, three: string)
    requires one == "1" && abc == "abc" && three == "3"
    ensures CalculateAmountsInWei(Some(one + "," + abc + "," + three))
      == [1000000000000000000, 3000000000000000000]
  {
    EtherEntry(one, 1);
    EtherEntry(three, 3);
    AbcDropped(abc);
    RejectedBetween(one, abc, three, 1000000000000000000, 3000000000000000000);
  }

  lemma OneAbcThreeSpelling()
    ensures "1" + "," + "abc" + "," + "3" == "1,abc,3"
  {
  }

  /** A one-digit entry `t` is `n` ether, in wei. */
  lemma EtherEntry(t: string, n: nat)
    requires |t| == 1 && IsDigit(t[0]) && DigitValue(t[0]) == n
    ensures CalculateAmountsInWei(Some(t)) == [n * 1000000000000000000]
  {
    assert DigitsValue(t) == n by {
      assert t[..0] == [];
    }
    WholeEntry(t);
    ScaleIsProduct(n, EtherDecimals);
    WeiPerEther();
  }

  /** One ether is 10^18 wei. */
  lemma WeiPerEther()
    ensures Pow10(18) == 1000000000000000000
  {
    assert Pow10(3) == 1000;
    assert Pow10(6) == 1000000 by {
      assert Pow10(6) == 1000 * Pow10(3);
    }
    assert Pow10(9) == 1000000000 by {
      assert Pow10(9) == 1000 * Pow10(6);
    }
    assert Pow10(12) == 1000000000000 by {
      assert Pow10(12) == 1000 * Pow10(9);
    }
    assert Pow10(15) == 1000000000000000 by {
      assert Pow10(15) == 1000 * Pow10(12);
    }
    assert Pow10(18) == 1000 * Pow10(15);
  }

  /** 1234000000 units of a 6-decimal token show as "1234". */
  lemma UsdcWhole()
    ensures FormatTokenAmount(Some(1234000000), Some(6)) == Some("1234")
  {
    assert Scale(1234, 6) == 1234000000 by {
      ScaleIsProduct(1234, 6);
    }
    WholeTokensShowAsDigits(1234, 6);
    DigitsOf1234();
  }

  lemma DigitsOf1234()
    ensures Digits(1234) == "1234"
  {
    assert IsDigits("1234");
    assert DigitsValue("1234") == 1234 by {
      assert "1234"[..3] == "123" && "123"[..2] == "12" && "12"[..1] == "1" && "1"[..0] == [];
    }
    DigitsOfValue("1234");
  }

  /** 123 units of a 6-decimal token show as "0.000123". */
  lemma UsdcSmall()
    ensures FormatTokenAmount(Some(123), Some(6)) == Some("0.000123")
  {
    SmallAmountShowsFraction(123, 6);
    FixedDigitsOf123();
    PointSpelling("000123", "0.000123");
  }

  lemma PointSpelling(fraction: string, text: string)
    requires |text| == |fraction| + 2 && text[..2] == "0." && text[2..] == fraction
    ensures "0." + fraction == text
  {
  }

  lemma FixedDigitsOf123()
    ensures FixedDigits(123, 6) == "000123"
    ensures StripTrailingZeros("000123") == "000123"
  {
    assert "000123" == Zeros(3) + "123";
    assert DigitsValue("000123") == 123 by {
      DigitsValueConcat(Zeros(3), "123");
      AllZerosValue(Zeros(3));
      assert "123"[..2] == "12" && "12"[..1] == "1" && "1"[..0] == [];
    }
    LowDigits("000123", 123);
  }

  /** 100 wei shows as "0.0000000000000001". */
  lemma HundredWei()
    ensures FormatTokenAmount(Some(100), Some(18)) == Some("0.0000000000000001")
  {
    WeiPerEther();
    SmallAmountShowsFraction(100, 18);
    assert StripTrailingZeros(FixedDigits(100, 18)) == "0000000000000001" by {
      FixedDigitsOf100();
    }
    PointSpelling("0000000000000001", "0.0000000000000001");
  }

  lemma FixedDigitsOf100()
    ensures StripTrailingZeros(FixedDigits(100, 18)) == "0000000000000001"
  {
    var lead := Zeros(15) + "1";
    HundredDigits(lead);
    assert |lead + Zeros(2)| == 18;
    LowDigits(lead + Zeros(2), 100);
    StripZerosAppended(lead, 2);
    assert lead == "0000000000000001";
  }

  lemma HundredDigits(lead: string)
    requires lead == Zeros(15) + "1"
    ensures IsDigits(lead + Zeros(2)) && DigitsValue(lead + Zeros(2)) == 100
  {
    assert "1"[..0] == [];
    AllZerosValue(Zeros(15));
    DigitsValueConcat(Zeros(15), "1");
    ValueWithZeros(lead, 2);
  }

  /** The `|s|` low-order digits of the number a digit string spells are that string. */
  lemma LowDigits(s: string, n: nat)
    requires IsDigits(s) && DigitsValue(s) == n
    ensures FixedDigits(n, |s|) == s
  {
    SplitValue([], s);
    assert [] + s == s;
  }
}

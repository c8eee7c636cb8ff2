/**
 * The amount column: `^[0-9]+(\.[0-9]+)?$` after trimming; digits alone are
 * taken as wei unchanged (`BigInt(s)`), a value with a decimal point is
 * scaled by 10^18 (`ethers.parseEther(s)`).
 */
module Amount {
  import opened Wrappers
  import opened Numbers
  import opened Text

  /** Fractional digits of one ether. */
  const EtherDecimals: nat := 18

  /** Position of the first '.', or |s| when there is none. */
  function FirstDot(s: string): (k: nat)
    ensures k <= |s|
    ensures forall i :: 0 <= i < k ==> s[i] != '.'
    ensures k < |s| ==> s[k] == '.'
  {
    if |s| == 0 || s[0] == '.' then 0 else 1 + FirstDot(s[1..])
  }

  /** `^[0-9]+(\.[0-9]+)?$` */
  predicate AmountShape(s: string)
  {
    var k := FirstDot(s);
    && 0 < k
    && AllDigits(s[..k])
    && (k == |s| || (k + 1 < |s| && AllDigits(s[k + 1..])))
  }

  /** The digits before the decimal point (all of them when there is none). */
  function WholePart(s: string): (w: string)
    requires AmountShape(s)
    ensures |w| >= 1 && AllDigits(w)
  {
    s[..FirstDot(s)]
  }

  /** The digits after the decimal point (none when there is none). */
  function FractionPart(s: string): (f: string)
    ensures AmountShape(s) ==> AllDigits(f)
  {
    var k := FirstDot(s);
    if k == |s| then "" else s[k + 1..]
  }

  /**
   * `parseEther` is a library routine whose behaviour beyond 18 fractional
   * digits is not modelled: such amounts are excluded by this predicate.
   */
  predicate WithinEtherPrecision(s: string)
  {
    AmountShape(s) ==> |FractionPart(s)| <= EtherDecimals
  }

  function Zeros(n: nat): (z: string)
    ensures |z| == n && AllZeros(z) && AllDigits(z)
  {
    seq(n, _ => '0')
  }

  /** `parseEther(whole + "." + frac)`: the decimal value times 10^18, exactly. */
  function ParseEther(whole: string, frac: string): (wei: nat)
    requires AllDigits(whole) && AllDigits(frac) && |frac| <= EtherDecimals
    ensures wei == DigitsValue(whole) * Pow(10, EtherDecimals)
                   + DigitsValue(frac) * Pow(10, EtherDecimals - |frac|)
  {
    var pad := Zeros(EtherDecimals - |frac|);
    DigitsValueAppend(whole, frac + pad);
    DigitsValueAppend(frac, pad);
    ZerosValue(pad);
    PowAdd(10, |frac|, EtherDecimals - |frac|);
    assert whole + frac + pad == whole + (frac + pad);
    DigitsValue(whole + frac + pad)
  }

  /** The amount of an already trimmed cell, in wei, or None when it is malformed. */
  function ParseAmount(s: string): (r: Option<nat>)
    requires WithinEtherPrecision(s)
    ensures r.Some? <==> AmountShape(s)
    ensures r.Some? && '.' !in s ==> AllDigits(s) && r.value == DigitsValue(s)
    ensures r.Some? && '.' in s ==>
              r.value == DigitsValue(WholePart(s)) * Pow(10, EtherDecimals)
                         + DigitsValue(FractionPart(s)) * Pow(10, EtherDecimals - |FractionPart(s)|)
  {
    if !AmountShape(s) then None
    else
      var k := FirstDot(s);
      if k == |s| then
        assert s[..k] == s;
        Some(DigitsValue(s))
      else
        Some(ParseEther(s[..k], s[k + 1..]))
  }

  /**
   * The accepted amounts, character by character: non-empty, only digits and
   * at most one '.', which is neither first nor last. So a sign, an exponent,
   * a leading or trailing '.', or a second '.' is rejected.
   */
  lemma AmountShapeIff(s: string)
    ensures AmountShape(s) <==>
              && |s| > 0
              && s[0] != '.'
              && s[|s| - 1] != '.'
              && (forall i :: 0 <= i < |s| ==> IsDigit(s[i]) || s[i] == '.')
              && (forall i, j :: 0 <= i < j < |s| && s[i] == '.' ==> s[j] != '.')
  {
    var k := FirstDot(s);
    if AmountShape(s) {
      assert forall i :: 0 <= i < k ==> s[..k][i] == s[i];
      if k < |s| {
        assert forall i :: k + 1 <= i < |s| ==> s[k + 1..][i - k - 1] == s[i];
      }
    }
    if && |s| > 0 && s[0] != '.' && s[|s| - 1] != '.'
       && (forall i :: 0 <= i < |s| ==> IsDigit(s[i]) || s[i] == '.')
       && (forall i, j :: 0 <= i < j < |s| && s[i] == '.' ==> s[j] != '.') {
      ShapeFromCharacters(s);
    }
  }

  lemma ShapeFromCharacters(s: string)
    requires |s| > 0 && s[0] != '.' && s[|s| - 1] != '.'
    requires forall i :: 0 <= i < |s| ==> IsDigit(s[i]) || s[i] == '.'
    requires forall i, j :: 0 <= i < j < |s| && s[i] == '.' ==> s[j] != '.'
    ensures AmountShape(s)
  {
    var k := FirstDot(s);
    assert AllDigits(s[..k]);
    if k < |s| {
      assert forall i :: k + 1 <= i < |s| ==> s[i] != '.';
      assert AllDigits(s[k + 1..]);
    }
  }

  /** Digits alone are wei, unscaled; leading zeros are harmless. */
  lemma WeiExamples()
    ensures ParseAmount("100") == Some(100)
    ensures ParseAmount("0100") == Some(100)
  {
    assert FirstDot("100") == 3;
    assert FirstDot("0100") == 4;
    assert DigitsValue("100") == 100 by {
      assert DigitsValue("10") == 10;
    }
    assert DigitsValue("0100") == 100 by {
      assert "0" + "100" == "0100";
      LeadingZerosHarmless("0", "100");
    }
  }

  /** `whole.frac` is worth whole x 10^18 + frac x 10^(18 - |frac|) wei. */
  lemma {:induction false} EtherValue(whole: string, frac: string)
    requires |whole| >= 1 && AllDigits(whole)
    requires |frac| >= 1 && AllDigits(frac) && |frac| <= EtherDecimals
    ensures WithinEtherPrecision(whole + "." + frac)
    ensures ParseAmount(whole + "." + frac)
            == Some(DigitsValue(whole) * Pow(10, EtherDecimals)
                    + DigitsValue(frac) * Pow(10, EtherDecimals - |frac|))
  {
    DecimalShape(whole, frac);
  }

  lemma DecimalShape(whole: string, frac: string)
    requires |whole| >= 1 && AllDigits(whole)
    requires |frac| >= 1 && AllDigits(frac)
    ensures AmountShape(whole + "." + frac) && '.' in whole + "." + frac
    ensures WholePart(whole + "." + frac) == whole
    ensures FractionPart(whole + "." + frac) == frac
  {
    var s := whole + "." + frac;
    assert s == whole + ("." + frac);
    FirstDotAfterDigits(whole, "." + frac);
    assert s[..|whole|] == whole;
    assert s[|whole| + 1..] == frac;
    assert s[|whole|] == '.';
  }

  lemma {:induction false} FirstDotAfterDigits(digits: string, rest: string)
    requires AllDigits(digits) && |rest| >= 1 && rest[0] == '.'
    ensures FirstDot(digits + rest) == |digits|
  {
    if |digits| > 0 {
      assert (digits + rest)[1..] == digits[1..] + rest;
      FirstDotAfterDigits(digits[1..], rest);
    }
  }

  /** A decimal point means ether: "100.0" is 100 x 10^18 wei, not 100 wei. */
  lemma EtherExampleHundred()
    ensures ParseAmount("100.0") == Some(100000000000000000000)
  {
    var whole, frac := "100", "0";
    SmallDigitValues();
    Pow10Of18();
    EtherValue(whole, frac);
    assert whole + "." + frac == "100.0";
  }

  /** "500.5" is 500.5 x 10^18 wei. */
  lemma EtherExampleFraction()
    ensures ParseAmount("500.5") == Some(500500000000000000000)
  {
    var whole, frac := "500", "5";
    SmallDigitValues();
    Pow10Of18();
    EtherValue(whole, frac);
    assert whole + "." + frac == "500.5";
  }

  lemma SmallDigitValues()
    ensures DigitsValue("0") == 0 && DigitsValue("5") == 5
    ensures DigitsValue("100") == 100 && DigitsValue("500") == 500
  {
    assert DigitsValue("10") == 10;
    assert DigitsValue("50") == 50;
  }

  lemma Pow10Of18()
    ensures Pow(10, 17) == 100000000000000000
    ensures Pow(10, 18) == 1000000000000000000
  {
    assert Pow(10, 3) == 1000;
    PowAdd(10, 3, 3);
    PowAdd(10, 6, 6);
    PowAdd(10, 12, 3);
    PowAdd(10, 15, 3);
    PowAdd(10, 15, 2);
  }

  lemma AmountRejections()
    ensures ParseAmount("") == None
    ensures ParseAmount("-1") == None
    ensures ParseAmount("+1") == None
    ensures ParseAmount(".5") == None
    ensures ParseAmount("5.") == None
    ensures ParseAmount("1.2.3") == None
    ensures ParseAmount("1e5") == None
  {
    AmountShapeIff("-1");
    AmountShapeIff("+1");
    AmountShapeIff("1.2.3");
    AmountShapeIff("1e5");
    AmountShapeIff("5.");
  }
}

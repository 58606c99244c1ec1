/** Concrete read/write cases from assembly/__tests__/BigFloat_read_write.spec.ts.
    Each case is stated on a variable equal to the literal and proved through a
    lemma over variables, so that the verifier does not evaluate the whole
    parser and renderer on constants.  toString() without arguments renders
    with precision 18. */
module ReadWriteCases {
  import opened Outcomes
  import opened Digits
  import opened Text
  import opened Trimming
  import opened BigInts
  import opened BigFloats
  import opened Parsing
  import opened Rendering
  import opened RoundTrip
  import opened Significance

  /** The precision toString() uses when none is given. */
  const DefaultPrecision: nat := 18

  /** Leading zeros of the integer part are dropped: "000100.12" prints "100.12". */
  lemma LeadingZerosDropped(s: string)
    requires s == "000100.12"
    ensures FromString(s).Ok? && Rendered(FromString(s).value, DefaultPrecision, false) == "100.12"
  {
    var ip, fp := "000100", "12";
    var out := Minus(false) + OrZero(WithoutLeadingZeros(ip)) + ("." + OrZero(WithoutTrailingZeros(fp)));
    assert AllDigits(ip) && AllDigits(fp) && DigitsValue(ip + fp) != 0 by {
      assert (ip + fp)[|ip + fp| - 1] == '2';
    }
    assert out == "100.12" by {
      assert WithoutLeadingZeros("000100") == "100";
      assert WithoutTrailingZeros("12") == "12";
    }
    assert s == Minus(false) + ip + "." + fp;
    RenderCanonical(false, ip, fp, DefaultPrecision);
  }

  /** A negative literal without integer digits gains its "0":
      "-.0000454" prints "-0.0000454". */
  lemma MissingIntegerDigit(s: string)
    requires s == "-.0000454"
    ensures FromString(s).Ok? && Rendered(FromString(s).value, DefaultPrecision, false) == "-0.0000454"
  {
    var ip, fp := "", "0000454";
    var out := Minus(true) + OrZero(WithoutLeadingZeros(ip)) + ("." + OrZero(WithoutTrailingZeros(fp)));
    assert AllDigits(ip) && AllDigits(fp) && DigitsValue(ip + fp) != 0 by {
      assert (ip + fp)[|ip + fp| - 1] == '4';
    }
    assert out == "-0.0000454" by {
      assert WithoutLeadingZeros("") == "";
      assert WithoutTrailingZeros("0000454") == "0000454";
    }
    assert s == Minus(true) + ip + "." + fp;
    RenderCanonical(true, ip, fp, DefaultPrecision);
  }

  /** An integer literal loses its leading zeros and gains ".0":
      "00000325723500000" prints "325723500000.0". */
  lemma IntegerLiteral(s: string)
    requires s == "00000325723500000"
    ensures FromString(s).Ok? && Rendered(FromString(s).value, DefaultPrecision, false) == "325723500000.0"
  {
    var canon := "325723500000";
    IntegerLiteralRead(s, canon);
    IntegerLiteralText(canon);
  }

  /** That value prints as its digits and ".0". */
  lemma IntegerLiteralText(canon: string)
    requires canon == "325723500000"
    ensures Rendered(BigFloat(DigitsValue(canon), 0), DefaultPrecision, false) == "325723500000.0"
  {
    var v := DigitsValue(canon);
    assert canon != [] && canon[0] != '0' && AllDigits(canon);
    assert Signed(false, v) == v;
    IntegerOfDigits(false, canon, DefaultPrecision);
    assert Minus(false) + canon + ".0" == "325723500000.0";
  }

  /** The literal reads as the value of its digits without the leading zeros. */
  lemma IntegerLiteralRead(s: string, canon: string)
    requires s == "00000325723500000" && canon == "325723500000"
    ensures FromString(s) == Ok(BigFloat(DigitsValue(canon), 0))
  {
    Unpadded(s);
    assert s == Minus(false) + s;
    FromStringInteger(false, s);
    LeadingDigits(s);
  }

  /** The literal's digits without their leading zeros. */
  lemma Unpadded(t: string)
    requires t == "00000325723500000"
    ensures t != [] && AllDigits(t) && WithoutLeadingZeros(t) == "325723500000"
  {
    PaddedDigits(t, "325723500000");
  }

  /** Five zeros in front of digits that do not start with '0'. */
  lemma PaddedDigits(t: string, r: string)
    requires t == "00000" + r && r != [] && AllDigits(r) && r[0] != '0'
    ensures t != [] && AllDigits(t) && WithoutLeadingZeros(t) == r
  {
    assert Zeros(5) == "00000" by {
      ZerosChars(5);
    }
    ZerosDropped(5, r);
  }

  /** The whole-number path of toSignificant rounds on the first dropped
      digit: 32523523.2523527 to 5 significant digits is "32524000" under
      ROUND_UP and under ROUND_HALF_UP. */
  lemma SignificantRoundedUp(s: string, rounding: Rounding)
    requires s == "32523523.2523527" && rounding != RoundDown
    ensures FromString(s).Ok? && ToSignificant(FromString(s).value, 5, rounding) == Ok("32524000")
  {
    LiteralRead(s, "32523523", "2523527");
    var x := FromString(s).value;
    LiteralWhole(x);
    SignificantOfLiteral(x, rounding);
  }

  /** "32523523.2523527" reads as 325235232523527 * 10^-7. */
  lemma LiteralRead(s: string, ip: string, fp: string)
    requires ip == "32523523" && fp == "2523527" && s == ip + "." + fp
    ensures FromString(s) == Ok(BigFloat(325235232523527, -7))
  {
    LiteralPayload(ip, fp);
    CanonicalRead(s, ip, fp, 325235232523527);
  }

  lemma LiteralPayload(ip: string, fp: string)
    requires ip == "32523523" && fp == "2523527"
    ensures AllDigits(ip) && AllDigits(fp) && ip[0] != '0' && fp[|fp| - 1] != '0' && |fp| == 7
    ensures DigitsValue(ip + fp) == 325235232523527
  {
    assert ip + fp == "325235232523527";
    LiteralValue(ip + fp);
  }

  lemma LiteralValue(d: string)
    requires d == "325235232523527"
    ensures DigitsValue(d) == 325235232523527
  {
    LiteralSpelled();
    NatDigitsValue(325235232523527);
  }

  /** Canonical integer and fraction digits read as their joint value over
      10^|fp|. */
  lemma CanonicalRead(s: string, ip: string, fp: string, v: nat)
    requires ip != [] && fp != [] && AllDigits(ip) && AllDigits(fp) && ip[0] != '0' && fp[|fp| - 1] != '0'
    requires s == ip + "." + fp && DigitsValue(ip + fp) == v
    ensures FromString(s) == Ok(BigFloat(v, -|fp|))
  {
    UnsignedSplit(ip, fp, s);
    LeadingKept(ip);
    TrailingKept(fp);
    assert AllDigits(ip + fp) && (ip + fp)[0] == ip[0];
    LeadingDigitBound(ip + fp);
    FromDecimalOk(false, ip, fp);
  }

  /** The digits of the literal's payload, spelled one digit at a time. */
  lemma LiteralSpelled()
    ensures NatDigits(32523523) == "32523523"
    ensures NatDigits(325235232523527) == "325235232523527"
  {
    assert NatDigits(32) == "32";
    assert NatDigits(325) == "325";
    assert NatDigits(3252) == "3252";
    assert NatDigits(32523) == "32523";
    assert NatDigits(325235) == "325235";
    assert NatDigits(3252352) == "3252352";
    assert NatDigits(32523523) == "32523523";
    assert NatDigits(325235232) == "325235232";
    assert NatDigits(3252352325) == "3252352325";
    assert NatDigits(32523523252) == "32523523252";
    assert NatDigits(325235232523) == "325235232523";
    assert NatDigits(3252352325235) == "3252352325235";
    assert NatDigits(32523523252352) == "32523523252352";
    assert NatDigits(325235232523527) == "325235232523527";
  }

  /** The integer part of 32523523.2523527. */
  lemma LiteralWhole(x: BigFloat)
    requires x == BigFloat(325235232523527, -7)
    ensures Truncated(x, 0) == 32523523
  {
    assert Places(x) == 7;
    assert ShiftRight(325235232523527, 7) == 32523523;
  }

  /** Any positive value with integer part 32523523, to 5 significant digits. */
  lemma SignificantOfLiteral(x: BigFloat, rounding: Rounding)
    requires x.e <= 0 && x.mantissa > 0 && Truncated(x, 0) == 32523523 && rounding != RoundDown
    ensures ToSignificant(x, 5, rounding) == Ok("32524000")
  {
    LiteralCut(x, rounding);
    SignificantWholeRounded(x, 5, rounding);
  }

  /** Its five leading digits rounded on the sixth, padded to eight digits. */
  lemma LiteralCut(x: BigFloat, rounding: Rounding)
    requires x.e <= 0 && x.mantissa > 0 && Truncated(x, 0) == 32523523 && rounding != RoundDown
    ensures 5 < WholeDigits(x)
    ensures PadEnd(NatDigits(SignificantCut(x, 5, rounding)), WholeDigits(x)) == "32524000"
  {
    assert WholeDigits(x) == 8 && SignificantCut(x, 5, rounding) == 32524 by {
      LiteralSpelled();
      CutOfLiteral(rounding);
    }
    RoundedSpelled();
  }

  lemma RoundedSpelled()
    ensures PadEnd(NatDigits(32524), 8) == "32524000"
  {
    assert NatDigits(32524) == "32524";
  }

  lemma CutOfLiteral(rounding: Rounding)
    requires rounding != RoundDown
    ensures LeadingCut(32523523, 3, rounding) == 32524
  {
    assert ShiftRight(32523523, 2) == 325235;
    assert ShiftRight(32523523, 3) == 32523;
  }
}

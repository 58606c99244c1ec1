/** How fromString and toString fit together: what a rendered value reads back
    as, and which literals toString() gives back unchanged. */
module RoundTrip {
  import opened Outcomes
  import opened Digits
  import opened Trimming
  import opened BigInts
  import opened BigFloats
  import opened Parsing
  import opened Rendering

  // ---------------------------------------------------------------------------
  // Canonical literals.

  /** A canonical integer part pre and fraction post, with at most p fraction
      digits: the value they spell, cut to p places, has integer digits pre
      ("0" when pre is empty) and p fraction digits that trim back to post. */
  lemma CanonicalFraction(pre: string, post: string, p: nat)
    requires AllDigits(pre) && AllDigits(post) && |post| <= p
    requires pre == [] || pre[0] != '0'
    requires post == [] || post[|post| - 1] != '0'
    ensures var t := TruncScaled(DigitsValue(pre + post), |post|, p);
      NatDigits(ShiftRight(t, p)) == OrZero(pre) &&
      WithoutTrailingZeros(Fixed(t, p)) == post &&
      (DigitsValue(pre + post) > 0 ==> t > 0)
  {
    var q := |post|;
    var a := DigitsValue(pre + post);
    DigitsValueAppend(pre, post);
    DigitsValueBound(post);
    ShiftUnique(a, q, DigitsValue(pre), DigitsValue(post));
    CutIntegerPart(a, q, p);
    if pre != [] {
      CanonicalDigits(pre);
    }
    var j: nat := p - q;
    var t := TruncScaled(a, q, p);
    assert t == a * Pow10(j);
    if a > 0 {
      MulLowerBound(a, Pow10(j));
    }
    FixedShift(a, q, j);
    assert q + j == p;
    FixedLow(a, q);
    FixedOfDigits(post);
    assert Fixed(t, p) == post + Zeros(j);
    TrailingOfPadded(post, j);
    TrailingKept(post);
  }

  /** A value read from a sign and a non-zero count a of units of 10^-q, cut to p places. */
  lemma TruncatedOf(x: BigFloat, neg: bool, a: nat, q: nat, p: nat)
    requires a > 0 && x.mantissa == Signed(neg, a) && x.e == -(q as int)
    ensures Truncated(x, p) == Signed(neg, TruncScaled(a, q, p))
    ensures x.mantissa != 0 && (x.mantissa < 0 <==> neg) && Abs(x.mantissa) == a
  {
    assert Places(x) == q;
  }

  /** A value read from a canonical integer part pre and fraction post (not both
      zero) renders, with p >= |post| places, as those parts behind the sign. */
  lemma RenderedOfParsed(x: BigFloat, neg: bool, pre: string, post: string, p: nat)
    requires AllDigits(pre) && AllDigits(post) && |post| <= p && p > 0
    requires pre == [] || pre[0] != '0'
    requires post == [] || post[|post| - 1] != '0'
    requires AllDigits(pre + post) && DigitsValue(pre + post) != 0
    requires x.mantissa == Signed(neg, DigitsValue(pre + post)) && x.e == -|post|
    ensures Rendered(x, p, false) == Minus(neg) + OrZero(pre) + ("." + OrZero(post))
  {
    var a := DigitsValue(pre + post);
    TruncatedOf(x, neg, a, |post|, p);
    var t := TruncScaled(a, |post|, p);
    CanonicalFraction(pre, post, p);
    SignedParts(neg, t);
    RenderedCut(x, p, false);
    TrimmedRenderParts(Truncated(x, p), p, OrZero(pre), post);
  }

  /** toString() gives back a decimal literal with a non-zero digit and at most
      p fraction digits, written canonically: the integer part without leading
      zeros, the fraction without trailing zeros, and "0" for either part that
      is left empty. */
  lemma RenderCanonical(neg: bool, ip: string, fp: string, p: nat)
    requires AllDigits(ip) && AllDigits(fp) && DigitsValue(ip + fp) != 0
    requires |fp| <= p && p > 0
    ensures var r := FromString(Minus(neg) + ip + "." + fp);
      r.Ok? && Rendered(r.value, p, false) ==
        Minus(neg) + OrZero(WithoutLeadingZeros(ip)) + ("." + OrZero(WithoutTrailingZeros(fp)))
  {
    var pre, post := WithoutLeadingZeros(ip), WithoutTrailingZeros(fp);
    FromStringSplits(neg, ip, fp);
    FromDecimalOk(neg, ip, fp);
    PayloadValue(ip, fp);
    LeadingDigits(ip);
    TrailingDigits(fp);
    LeadingShape(ip);
    TrailingShape(fp);
    RenderedOfParsed(FromDecimal(neg, ip, fp).value, neg, pre, post, p);
  }

  // ---------------------------------------------------------------------------
  // Reading back a fixed rendering.

  /** The digit string of a cut value t, integer digits then p fraction digits,
      spells t. */
  lemma CutDigitsValue(t: nat, p: nat)
    ensures var ip, fp := NatDigits(ShiftRight(t, p)), Fixed(t, p);
      AllDigits(ip + fp) && DigitsValue(ip + fp) == t
  {
    var ip, fp := NatDigits(ShiftRight(t, p)), Fixed(t, p);
    DigitsValueAppend(ip, fp);
    NatDigitsValue(ShiftRight(t, p));
    FixedValue(t, p);
    ShiftDecompose(t, p);
  }

  /** toString(p, true) of a value with exponent at most 0 that does not cut to
      zero reads back, counted in units of 10^-p, as exactly the cut value: the
      fixed text loses nothing but the digits beyond place p. */
  lemma RenderedParse(x: BigFloat, p: nat)
    requires x.e <= 0 && p > 0 && Truncated(x, p) != 0
    ensures var r := FromString(Rendered(x, p, true));
      r.Ok? && -(p as int) <= r.value.e <= 0 && Units(r.value, -(p as int)) == Truncated(x, p)
  {
    var T := Truncated(x, p);
    var t := Abs(T);
    var neg := T < 0;
    var ip, fp := NatDigits(ShiftRight(t, p)), Fixed(t, p);
    assert x.mantissa != 0 by {
      if x.mantissa == 0 {
        TruncScaledZero(Places(x), p);
      }
    }
    RenderedCut(x, p, true);
    FixedRenderParts(T, p, ip, fp);
    assert SignPrefix(T) == Minus(neg);
    PointAfter(Minus(neg) + ip, fp);
    assert Signed(neg, t) == T;
    ParseCut(neg, t, p);
  }

  /** The text of a non-zero cut value, sign, integer digits, '.', and p
      fraction digits, reads back as exactly that value in units of 10^-p. */
  lemma ParseCut(neg: bool, t: nat, p: nat)
    requires t != 0
    ensures var r := FromString(Minus(neg) + NatDigits(ShiftRight(t, p)) + "." + Fixed(t, p));
      r.Ok? && -(p as int) <= r.value.e <= 0 && Units(r.value, -(p as int)) == Signed(neg, t)
  {
    var ip, fp := NatDigits(ShiftRight(t, p)), Fixed(t, p);
    CutDigitsValue(t, p);
    FromStringDecimal(neg, ip, fp);
  }

  /** The same text when the last of the p fraction digits is not '0': the
      parser keeps every fraction digit, so the value read back has exactly p
      places and the cut value as its mantissa. */
  lemma ParseCutExact(neg: bool, t: nat, p: nat)
    requires p > 0 && t % 10 != 0
    ensures var r := FromString(Minus(neg) + NatDigits(ShiftRight(t, p)) + "." + Fixed(t, p));
      r.Ok? && r.value.mantissa == Signed(neg, t) && Places(r.value) == p
  {
    var ip, fp := NatDigits(ShiftRight(t, p)), Fixed(t, p);
    CutDigitsValue(t, p);
    FromStringDecimal(neg, ip, fp);
    FixedLast(t, p);
    TrailingKept(fp);
  }

  /** A value that cuts to zero at p places renders without a sign: "0", or in
      fixed mode "0." followed by p zeros -- except that a non-zero mantissa
      with p = 0 gives "0" and a zero mantissa gives "0." even then. */
  lemma ZeroRendered(x: BigFloat, p: nat, fixed: bool)
    requires x.e <= 0 && Truncated(x, p) == 0
    ensures Rendered(x, p, fixed) ==
      if fixed && (p > 0 || x.mantissa == 0) then "0." + Zeros(p) else "0"
  {
    if x.mantissa != 0 {
      RenderedCut(x, p, fixed);
      ShiftRightZero(0, p);
      FixedZero(p);
      if fixed && p > 0 {
        FixedRenderParts(0, p, "0", Zeros(p));
        PointJoin("", Zeros(p));
      }
    }
  }

  /** An integer literal -- an optional '-' and digits -- prints back through
      toString(p), p > 0, as its digits without leading zeros and ".0", or as
      "0" when only '0's were written. */
  lemma RenderInteger(neg: bool, digits: string, p: nat)
    requires digits != [] && AllDigits(digits) && p > 0
    ensures var r, canon := FromString(Minus(neg) + digits), WithoutLeadingZeros(digits);
      r.Ok? && Rendered(r.value, p, false) == if canon == [] then "0" else Minus(neg) + canon + ".0"
  {
    var canon := WithoutLeadingZeros(digits);
    LeadingDigits(digits);
    LeadingShape(digits);
    FromStringInteger(neg, digits);
    IntegerOfDigits(neg, canon, p);
  }

  /** The integer with canonical digits canon (none for 0) and the sign neg,
      rendered at p > 0 places. */
  lemma IntegerOfDigits(neg: bool, canon: string, p: nat)
    requires AllDigits(canon) && (canon == [] || canon[0] != '0') && p > 0
    ensures Rendered(BigFloat(Signed(neg, DigitsValue(canon)), 0), p, false) ==
      if canon == [] then "0" else Minus(neg) + canon + ".0"
  {
    var v := DigitsValue(canon);
    var x := BigFloat(Signed(neg, v), 0);
    if canon == [] {
      TruncScaledZero(0, p);
      ZeroRendered(x, p, false);
    } else {
      LeadingDigitBound(canon);
      CanonicalDigits(canon);
      SignedParts(neg, v);
      IntegerRendered(x, p);
    }
  }

  /** The rendering of an integer-valued x at q places, without fixed: sign,
      digits, ".0". */
  lemma IntegerRendered(x: BigFloat, q: nat)
    requires x.e == 0 && x.mantissa != 0 && q > 0
    ensures Rendered(x, q, false) == SignPrefix(x.mantissa) + NatDigits(Abs(x.mantissa)) + ".0"
  {
    var a := Abs(x.mantissa);
    assert Places(x) == 0;
    assert TruncScaled(a, 0, q) == a * Pow10(q);
    assert SignPrefix(x.mantissa) == if x.mantissa < 0 then "-" else "";
    IntegerTrimmed(x.mantissa < 0, a, q);
  }

  /** An integer a scaled to q places renders as its digits and ".0". */
  lemma IntegerTrimmed(neg: bool, a: nat, q: nat)
    requires a > 0 && q > 0
    ensures TrimmedRender(Signed(neg, a * Pow10(q)), q) == (if neg then "-" else "") + NatDigits(a) + ".0"
  {
    var t := a * Pow10(q);
    MulLowerBound(a, Pow10(q));
    SignedParts(neg, t);
    ShiftMul(a, q);
    FixedLow(t, q);
    FixedZero(q);
    TrailingOfPadded("", q);
    assert "" + Zeros(q) == Zeros(q);
    TrimmedWhole(Signed(neg, t), q, a);
  }

  /** A non-zero cut value whose fraction digits are all '0' renders as its
      integer part and ".0". */
  lemma TrimmedWhole(T: int, q: nat, a: nat)
    requires T != 0 && q > 0 && ShiftRight(Abs(T), q) == a && WithoutTrailingZeros(Fixed(Abs(T), q)) == ""
    ensures TrimmedRender(T, q) == SignPrefix(T) + NatDigits(a) + ".0"
  {
    assert "." + OrZero("") == ".0";
  }
}

/** BigFloat.toString(precision, fixed) (assembly/BigFloat.ts:80-130).
    The reference definition `Rendered` says what the text is: the value cut
    (never rounded) to `precision` decimal places, written in plain decimal;
    the method `ToString` builds the same text the way the source does, by
    successive padding, cutting and trimming of the backend's digit string. */
module Rendering {
  import opened Outcomes
  import opened Digits
  import opened Text
  import opened Trimming
  import opened BigInts
  import opened BigFloats

  /** "0" in place of an empty digit string. */
  function OrZero(s: string): string {
    if s == [] then "0" else s
  }

  // ---------------------------------------------------------------------------
  // Truncation toward zero.

  /** a * 10^-w cut to p decimal places, counted in units of 10^-p. */
  function TruncScaled(a: nat, w: nat, p: nat): nat {
    if p >= w then a * Pow10(p - w) else ShiftRight(a, w - p)
  }

  /** The number of decimal places of x's grid, for an exponent at most 0. */
  function Places(x: BigFloat): nat
    requires x.e <= 0
  {
    -x.e
  }

  /** The value of x (exponent at most 0) cut toward zero to p decimal places,
      counted in units of 10^-p. */
  function Truncated(x: BigFloat, p: nat): int
    requires x.e <= 0
  {
    Signed(x.mantissa < 0, TruncScaled(Abs(x.mantissa), Places(x), p))
  }

  /** The finer of x's own grid and the 10^-p grid. */
  function TruncGrid(x: BigFloat, p: nat): int {
    if x.e <= -(p as int) then x.e else -(p as int)
  }

  lemma TruncScaledBounds(a: nat, w: nat, p: nat)
    ensures var g := if p >= w then p else w;
      var t := TruncScaled(a, w, p);
      t * Pow10(g - p) <= a * Pow10(g - w) < (t + 1) * Pow10(g - p)
  {
    if p < w {
      var t := ShiftRight(a, w - p);
      ShiftDecompose(a, w - p);
      MulDistrib(t, 1, Pow10(w - p));
    }
  }

  lemma TruncScaledZero(w: nat, p: nat)
    ensures TruncScaled(0, w, p) == 0
  {
    if p < w {
      ShiftRightZero(0, w - p);
    }
  }

  /** Truncation toward zero: the magnitude of the cut value is the largest
      multiple of 10^-p not above the magnitude of x, and a non-zero cut value
      has the sign of x. */
  lemma TruncatedBounds(x: BigFloat, p: nat)
    requires x.e <= 0
    ensures var f, t := TruncGrid(x, p), Truncated(x, p);
      Abs(t) * Pow10(-(p as int) - f) <= Abs(Units(x, f)) < (Abs(t) + 1) * Pow10(-(p as int) - f) &&
      (t != 0 ==> (t < 0 <==> x.mantissa < 0))
  {
    var a, w := Abs(x.mantissa), Places(x);
    var f := TruncGrid(x, p);
    var g := if p >= w then p else w;
    assert f == -g;
    TruncScaledBounds(a, w, p);
    assert Abs(Units(x, f)) == a * Pow10(g - w) by {
      if x.mantissa < 0 {
        MulNegate(a, Pow10(g - w));
      }
    }
  }

  /** On a grid no finer than 10^-p the cut at p places is exact. */
  lemma TruncatedExact(x: BigFloat, p: nat)
    requires -(p as int) <= x.e <= 0
    ensures Truncated(x, p) == Units(x, -(p as int))
  {
    var a := Abs(x.mantissa);
    assert TruncScaled(a, Places(x), p) == a * Pow10(p - Places(x));
    if x.mantissa < 0 {
      MulNegate(a, Pow10(p - Places(x)));
    }
  }

  // ---------------------------------------------------------------------------
  // The reference rendering.

  /** A cut value t (units of 10^-p) with exactly p fractional digits. */
  function FixedRender(t: int, p: nat): string {
    SignPrefix(t) + NatDigits(ShiftRight(Abs(t), p)) + (if p > 0 then "." + Fixed(Abs(t), p) else "")
  }

  /** A cut value t (units of 10^-p) with its trailing fractional zeros dropped,
      keeping one digit after the point; zero is "0". */
  function TrimmedRender(t: int, p: nat): string {
    if t == 0 then "0"
    else
      SignPrefix(t) + NatDigits(ShiftRight(Abs(t), p)) +
      (if p > 0 then "." + OrZero(WithoutTrailingZeros(Fixed(Abs(t), p))) else "")
  }

  /** What toString(precision, fixed) returns.  A zero mantissa gives "0", or
      "0." and p zeros when fixed.  A positive exponent gives the sign padded
      with '0' to the width of the digits plus the exponent (the mantissa's own
      digits are not written) and then ".0" or "." and p zeros.  Otherwise the
      value cut toward zero to p places. */
  function Rendered(x: BigFloat, p: nat, fixed: bool): string {
    if x.mantissa == 0 then (if fixed then "0." + Zeros(p) else "0")
    else if x.e > 0 then
      PadEnd(SignPrefix(x.mantissa), |NatDigits(Abs(x.mantissa))| + x.e) +
      (if p > 0 then (if fixed then "." + Zeros(p) else ".0") else "")
    else if fixed then FixedRender(Truncated(x, p), p)
    else TrimmedRender(Truncated(x, p), p)
  }

  // ---------------------------------------------------------------------------
  // From the backend's digit string to the cut value.

  lemma SignedParts(neg: bool, t: nat)
    ensures Abs(Signed(neg, t)) == t
    ensures SignPrefix(Signed(neg, t)) == (if neg && t > 0 then "-" else "")
    ensures Signed(neg, t) == 0 <==> t == 0
  {
  }

  /** substr(k, p) of s is substr(0, p) of what follows position k. */
  lemma SubstrAfter(s: string, k: nat, p: nat)
    requires k <= |s|
    ensures Substr(s, k, p) == Substr(s[k..], 0, p)
  {
    if k + p <= |s| {
      assert s[k..][0..p] == s[k..k + p];
    } else {
      assert s[k..][0..|s| - k] == s[k..];
    }
  }

  /** The integer part of the cut value is that of a * 10^-w. */
  lemma CutIntegerPart(a: nat, w: nat, p: nat)
    ensures ShiftRight(TruncScaled(a, w, p), p) == ShiftRight(a, w)
  {
    if p >= w {
      ShiftOfScaled(a, p - w, w);
    } else {
      ShiftAdd(a, w - p, p);
    }
  }

  /** The first p fractional digits of a * 10^-w, read off its w-digit spelling,
      are the cut value's: padded to p they are its p-digit spelling. */
  lemma CutFraction(a: nat, w: nat, p: nat)
    ensures var t, frac := TruncScaled(a, w, p), Substr(Fixed(a, w), 0, p);
      PadEnd(frac, p) == Fixed(t, p) &&
      WithoutTrailingZeros(frac) == WithoutTrailingZeros(Fixed(t, p))
  {
    if p >= w {
      CutFractionWide(a, w, p);
    } else {
      var s := Fixed(a, w);
      assert Substr(s, 0, p) == s[..p];
      FixedPrefix(a, w, p);
    }
  }

  lemma CutFractionWide(a: nat, w: nat, p: nat)
    requires p >= w
    ensures var s := Fixed(a, w);
      Substr(s, 0, p) == s && PadEnd(s, p) == Fixed(TruncScaled(a, w, p), p) &&
      WithoutTrailingZeros(s) == WithoutTrailingZeros(Fixed(TruncScaled(a, w, p), p))
  {
    var s := Fixed(a, w);
    assert s[0..w] == s;
    var j: nat := p - w;
    var t := TruncScaled(a, w, p);
    assert t == a * Pow10(j);
    FixedShift(a, w, j);
    assert w + j == p;
    assert Fixed(t, p) == s + Zeros(j);
    assert s + Zeros(j) == PadEnd(s, p) by {
      if j == 0 {
        assert s + Zeros(0) == s;
      }
    }
    TrailingOfPadded(s, j);
  }

  /** Left-padding the canonical digits to w places gives the w-digit spelling. */
  lemma PaddedDigits(a: nat, w: nat)
    requires |NatDigits(a)| <= w
    ensures PadStart(NatDigits(a), w) == Fixed(a, w)
  {
    var d := NatDigits(a);
    NatDigitsFixed(a);
    if |d| < w {
      PaddedFixed(a, d, |d|, w - |d|, w);
    }
  }

  lemma PaddedFixed(a: nat, d: string, L: nat, j: nat, w: nat)
    requires d == Fixed(a, L) && |d| == L && a < Pow10(L) && L + j == w && L < w
    ensures PadStart(d, w) == Fixed(a, w)
  {
    assert PadStart(d, w) == Zeros(j) + d;
    FixedPadStart(a, L, j);
  }

  /** For 0 < a < 10^w: the cut value has no integer part, and it is zero exactly
      when the first non-zero digit of a * 10^-w lies beyond place p. */
  lemma SmallCut(a: nat, w: nat, p: nat)
    requires a > 0 && |NatDigits(a)| <= w
    ensures var t := TruncScaled(a, w, p);
      (t == 0 <==> |NatDigits(a)| + p <= w) && ShiftRight(t, p) == 0 && t < Pow10(p)
  {
    var t := TruncScaled(a, w, p);
    SmallCutZero(a, w, p);
    CutIntegerPart(a, w, p);
    DigitCountBound(a, w);
    ShiftRightZero(a, w);
    ShiftRightZero(t, p);
  }

  lemma SmallCutZero(a: nat, w: nat, p: nat)
    requires a > 0 && |NatDigits(a)| <= w
    ensures TruncScaled(a, w, p) == 0 <==> |NatDigits(a)| + p <= w
  {
    if p >= w {
      MulLowerBound(a, Pow10(p - w));
    } else {
      ShiftRightZero(a, w - p);
      DigitCountBound(a, w - p);
    }
  }

  /** For a >= 10^w the cut value keeps a non-zero integer part. */
  lemma LargeCut(a: nat, w: nat, p: nat)
    requires a > 0 && w < |NatDigits(a)|
    ensures ShiftRight(TruncScaled(a, w, p), p) == ShiftRight(a, w) != 0
  {
    CutIntegerPart(a, w, p);
    DigitCountBound(a, w);
    ShiftRightZero(a, w);
  }

  /** A non-zero value below 10^p has a non-empty p-digit spelling once trailing
      zeros are dropped. */
  lemma FixedNotBlank(t: nat, p: nat)
    requires 0 < t < Pow10(p)
    ensures WithoutTrailingZeros(Fixed(t, p)) != []
  {
    TrailingEmpty(Fixed(t, p));
    FixedValue(t, p);
    ShiftZero(t, p);
  }

  /** The positive-exponent branch in the padEnd spelling the source uses. */
  lemma PositiveLayout(x: BigFloat, p: nat, fixed: bool)
    requires x.mantissa != 0 && x.e > 0
    ensures Rendered(x, p, fixed) ==
      PadEnd(SignPrefix(x.mantissa), |NatDigits(Abs(x.mantissa))| + x.e) +
      (if p > 0 then (if fixed then PadEnd(".", p + 1) else ".0") else "")
  {
    assert PadEnd(".", p + 1) == "." + Zeros(p);
  }

  /** A positive exponent does not write the mantissa's digits: the text is
      the sign, then only '0's up to the width of the digits plus the
      exponent, so the integer part reads back as 0; then '.' and p zeros
      (fixed) or one zero, when places are asked for. */
  lemma PositiveText(x: BigFloat, p: nat, fixed: bool)
    requires x.mantissa != 0 && x.e > 0
    ensures var s, sign := Rendered(x, p, fixed), SignPrefix(x.mantissa);
      var W := |NatDigits(Abs(x.mantissa))| + x.e;
      |sign| < W <= |s| && s[..|sign|] == sign &&
      (forall i :: |sign| <= i < W ==> s[i] == '0') &&
      ParseInt(s[..W]) == Some(0) &&
      s[W..] == if p > 0 then "." + Zeros(if fixed then p else 1) else ""
  {
    var sign := SignPrefix(x.mantissa);
    var W := |NatDigits(Abs(x.mantissa))| + x.e;
    var k: nat := W - |sign|;
    var tail := if p > 0 then "." + Zeros(if fixed then p else 1) else "";
    assert Zeros(1) == "0";
    assert Rendered(x, p, fixed) == sign + Zeros(k) + tail;
    ZerosText(x.mantissa < 0, sign, k, tail);
  }

  /** The sign, k zeros and a tail: the zeros sit between the sign and the
      tail, and the sign with the zeros reads back as 0. */
  lemma ZerosText(neg: bool, sign: string, k: nat, tail: string)
    requires sign == Minus(neg) && k > 0
    ensures var s, W := sign + Zeros(k) + tail, |sign| + k;
      W <= |s| && s[..|sign|] == sign &&
      (forall i :: |sign| <= i < W ==> s[i] == '0') &&
      ParseInt(s[..W]) == Some(0) && s[W..] == tail
  {
    var s, W := sign + Zeros(k) + tail, |sign| + k;
    ZerosChars(k);
    assert s[..W] == sign + Zeros(k);
    DigitsValueZeros(k);
    ParseIntDigits(neg, Zeros(k));
  }

  /** Appending the point and then the fraction is appending "." + fraction. */
  lemma PointAfter(whole: string, frac: string)
    ensures whole + "." + frac == whole + ("." + frac)
  {
  }

  lemma PointJoin(sign: string, tail: string)
    ensures sign + "0" + ("." + tail) == sign + "0." + tail
  {
    assert "0" + "." == "0.";
  }

  // ---------------------------------------------------------------------------
  // The three branches of toString for a non-zero mantissa and e <= 0.

  /** |x| < 1 and nothing non-zero within p places: the source returns early. */
  lemma SmallBlankRendered(x: BigFloat, p: nat, fixed: bool)
    requires x.mantissa != 0 && x.e <= 0
    requires x.e + |NatDigits(Abs(x.mantissa))| <= -(p as int) || p == 0
    requires x.e + |NatDigits(Abs(x.mantissa))| <= 0
    ensures Rendered(x, p, fixed) == if fixed && p > 0 then PadEnd("0.", p + 2) else "0"
  {
    var a, w := Abs(x.mantissa), Places(x);
    SmallCut(a, w, p);
    var t := TruncScaled(a, w, p);
    assert t == 0 by {
      if p == 0 {
        assert ShiftRight(t, 0) == t;
      }
    }
    SignedParts(x.mantissa < 0, t);
    assert Truncated(x, p) == 0;
    ShiftRightZero(0, p);
    FixedZero(p);
  }

  /** The numeric facts behind the |x| < 1 branch with a non-zero digit within
      p places: the cut value is non-zero and below 1. */
  lemma SmallDigitsCut(x: BigFloat, p: nat)
    requires x.mantissa != 0 && x.e <= 0 && p > 0
    requires -(p as int) < x.e + |NatDigits(Abs(x.mantissa))| <= 0
    ensures var T := Truncated(x, p);
      T != 0 && Abs(T) == TruncScaled(Abs(x.mantissa), Places(x), p) &&
      SignPrefix(T) == SignPrefix(x.mantissa) &&
      NatDigits(ShiftRight(Abs(T), p)) == "0" && Abs(T) < Pow10(p)
  {
    var a, w := Abs(x.mantissa), Places(x);
    var t := TruncScaled(a, w, p);
    SmallCut(a, w, p);
    SignedParts(x.mantissa < 0, t);
  }

  /** The p digits the source cuts out of the mantissa digits left-padded to w
      places spell the cut value. */
  lemma SmallFraction(a: nat, w: nat, p: nat)
    requires |NatDigits(a)| <= w
    ensures var frac := Substr(PadStart(NatDigits(a), w), 0, p);
      Fixed(TruncScaled(a, w, p), p) == PadEnd(frac, p) &&
      WithoutTrailingZeros(Fixed(TruncScaled(a, w, p), p)) == WithoutTrailingZeros(frac)
  {
    PaddedDigits(a, w);
    CutFraction(a, w, p);
  }

  /** A fixed rendering taken apart: sign, integer digits, point, p digits. */
  lemma FixedRenderParts(T: int, p: nat, whole: string, frac: string)
    requires p > 0 && NatDigits(ShiftRight(Abs(T), p)) == whole && Fixed(Abs(T), p) == frac
    ensures FixedRender(T, p) == SignPrefix(T) + whole + ("." + frac)
  {
  }

  /** A trimmed rendering of a non-zero value taken apart. */
  lemma TrimmedRenderParts(T: int, p: nat, whole: string, frac: string)
    requires T != 0 && p > 0 && NatDigits(ShiftRight(Abs(T), p)) == whole
    requires WithoutTrailingZeros(Fixed(Abs(T), p)) == frac
    ensures TrimmedRender(T, p) == SignPrefix(T) + whole + ("." + OrZero(frac))
  {
  }

  /** For a non-zero mantissa and e <= 0 the text is the rendering of the cut value. */
  lemma RenderedCut(x: BigFloat, p: nat, fixed: bool)
    requires x.mantissa != 0 && x.e <= 0
    ensures Rendered(x, p, fixed) ==
      if fixed then FixedRender(Truncated(x, p), p) else TrimmedRender(Truncated(x, p), p)
  {
  }

  /** A fixed rendering whose integer part is zero. */
  lemma SmallFixedJoin(T: int, p: nat, sign: string, frac: string)
    requires p > 0 && SignPrefix(T) == sign && NatDigits(ShiftRight(Abs(T), p)) == "0"
    requires Fixed(Abs(T), p) == frac
    ensures FixedRender(T, p) == sign + "0." + frac
  {
    FixedRenderParts(T, p, "0", frac);
    PointJoin(sign, frac);
  }

  /** A trimmed rendering of a non-zero value whose integer part is zero. */
  lemma SmallTrimmedJoin(T: int, p: nat, sign: string, frac: string)
    requires T != 0 && p > 0 && SignPrefix(T) == sign && NatDigits(ShiftRight(Abs(T), p)) == "0"
    requires WithoutTrailingZeros(Fixed(Abs(T), p)) == frac && frac != []
    ensures TrimmedRender(T, p) == sign + "0." + frac
  {
    TrimmedRenderParts(T, p, "0", frac);
    PointJoin(sign, frac);
  }

  /** |x| < 1 with a non-zero digit within p places, fixed: sign, "0." and the
      first p digits of the mantissa padded on the left to -e places, then padded
      on the right to p places. */
  lemma SmallFixedText(x: BigFloat, p: nat)
    requires x.mantissa != 0 && x.e <= 0 && p > 0
    requires -(p as int) < x.e + |NatDigits(Abs(x.mantissa))| <= 0
    ensures var frac := Substr(PadStart(NatDigits(Abs(x.mantissa)), Places(x)), 0, p);
      Rendered(x, p, true) == SignPrefix(x.mantissa) + "0." + PadEnd(frac, p)
  {
    RenderedCut(x, p, true);
    var frac := Substr(PadStart(NatDigits(Abs(x.mantissa)), Places(x)), 0, p);
    SmallDigitsCut(x, p);
    SmallFraction(Abs(x.mantissa), Places(x), p);
    SmallFixedJoin(Truncated(x, p), p, SignPrefix(x.mantissa), PadEnd(frac, p));
  }

  /** The same without fixed: the digits kept lose their trailing zeros. */
  lemma SmallTrimmedText(x: BigFloat, p: nat)
    requires x.mantissa != 0 && x.e <= 0 && p > 0
    requires -(p as int) < x.e + |NatDigits(Abs(x.mantissa))| <= 0
    ensures var frac := Substr(PadStart(NatDigits(Abs(x.mantissa)), Places(x)), 0, p);
      Rendered(x, p, false) == SignPrefix(x.mantissa) + "0." + WithoutTrailingZeros(frac)
  {
    RenderedCut(x, p, false);
    var frac := Substr(PadStart(NatDigits(Abs(x.mantissa)), Places(x)), 0, p);
    var T := Truncated(x, p);
    SmallDigitsCut(x, p);
    SmallFraction(Abs(x.mantissa), Places(x), p);
    FixedNotBlank(Abs(T), p);
    SmallTrimmedJoin(T, p, SignPrefix(x.mantissa), WithoutTrailingZeros(frac));
  }

  /** The numeric facts behind the |x| >= 1 branch, where k, the number of
      digits of the mantissa before the point, is positive. */
  lemma LargeCutParts(x: BigFloat, p: nat, k: nat)
    requires x.mantissa != 0 && x.e <= 0
    requires k == |NatDigits(Abs(x.mantissa))| + x.e && k > 0
    ensures var a, M, T := Abs(x.mantissa), NatDigits(Abs(x.mantissa)), Truncated(x, p);
      T != 0 && Abs(T) == TruncScaled(a, Places(x), p) && SignPrefix(T) == SignPrefix(x.mantissa) &&
      Prefix(M, k) == NatDigits(ShiftRight(Abs(T), p)) &&
      Substr(M, k, p) == Substr(Fixed(a, Places(x)), 0, p)
  {
    var a, w := Abs(x.mantissa), Places(x);
    var M := NatDigits(a);
    var t := TruncScaled(a, w, p);
    LargeCut(a, w, p);
    assert t != 0 by {
      if t == 0 { ShiftRightZero(0, p); }
    }
    SignedParts(x.mantissa < 0, t);
    assert k == |M| - w;
    NatDigitsPrefix(a, w);
    NatDigitsSuffix(a, w);
    SubstrAfter(M, k, p);
  }

  /** |x| >= 1 with no decimal places: sign and the first k digits of the mantissa. */
  lemma LargeWholeText(x: BigFloat, k: nat)
    requires x.mantissa != 0 && x.e <= 0
    requires k == |NatDigits(Abs(x.mantissa))| + x.e && k > 0
    ensures var M := NatDigits(Abs(x.mantissa));
      Rendered(x, 0, true) == SignPrefix(x.mantissa) + Prefix(M, k) &&
      Rendered(x, 0, false) == SignPrefix(x.mantissa) + Prefix(M, k)
  {
    RenderedCut(x, 0, true);
    RenderedCut(x, 0, false);
    var M := NatDigits(Abs(x.mantissa));
    var T := Truncated(x, 0);
    LargeCutParts(x, 0, k);
    var whole := Prefix(M, k);
    assert FixedRender(T, 0) == SignPrefix(T) + whole + "";
    assert TrimmedRender(T, 0) == SignPrefix(T) + whole + "";
  }

  /** |x| >= 1, fixed, p > 0: sign, the first k digits, "." and the next p digits
      of the mantissa padded on the right to p places. */
  lemma LargeFixedText(x: BigFloat, p: nat, k: nat)
    requires x.mantissa != 0 && x.e <= 0 && p > 0
    requires k == |NatDigits(Abs(x.mantissa))| + x.e && k > 0
    ensures var M := NatDigits(Abs(x.mantissa));
      Rendered(x, p, true) == SignPrefix(x.mantissa) + Prefix(M, k) + ("." + PadEnd(Substr(M, k, p), p))
  {
    RenderedCut(x, p, true);
    var a, w := Abs(x.mantissa), Places(x);
    var M := NatDigits(a);
    var T := Truncated(x, p);
    LargeCutParts(x, p, k);
    CutFraction(a, w, p);
    FixedRenderParts(T, p, Prefix(M, k), PadEnd(Substr(M, k, p), p));
  }

  /** |x| >= 1, not fixed, p > 0: the same digits with trailing zeros dropped,
      and "0" when none remain. */
  lemma LargeTrimmedText(x: BigFloat, p: nat, k: nat)
    requires x.mantissa != 0 && x.e <= 0 && p > 0
    requires k == |NatDigits(Abs(x.mantissa))| + x.e && k > 0
    ensures var M := NatDigits(Abs(x.mantissa));
      Rendered(x, p, false) ==
        SignPrefix(x.mantissa) + Prefix(M, k) + ("." + OrZero(WithoutTrailingZeros(Substr(M, k, p))))
  {
    RenderedCut(x, p, false);
    var a, w := Abs(x.mantissa), Places(x);
    var M := NatDigits(a);
    var T := Truncated(x, p);
    LargeCutParts(x, p, k);
    CutFraction(a, w, p);
    TrimmedRenderParts(T, p, Prefix(M, k), WithoutTrailingZeros(Substr(M, k, p)));
  }

  // ---------------------------------------------------------------------------
  // toString itself.

  /** BigFloat.toString(precision, fixed): starts from the backend's digits of
      the mantissa, moves a leading '-' into the result, and then pads, cuts
      and trims them branch by branch. */
  method ToString(x: BigFloat, precision: nat, fixed: bool) returns (result: string)
    ensures result == Rendered(x, precision, fixed)
  {
    if x.mantissa == 0 {
      if fixed {
        assert "0." + Zeros(0) == "0.";
        return PadEnd("0.", precision + 2);
      }
      return "0";
    }
    var m := IntToString(x.mantissa);
    result := "";
    if IsNegative(x) {
      result := result + "-";
      m := m[1..];
    }
    assert m == NatDigits(Abs(x.mantissa)) && result == SignPrefix(x.mantissa);
    if x.e > 0 {
      result := PadEnd(result, |m| + x.e);
      if precision > 0 {
        result := result + if fixed then PadEnd(".", precision + 1) else ".0";
      }
      PositiveLayout(x, precision, fixed);
      assert result == Rendered(x, precision, fixed);
    } else if x.e + |m| <= 0 {
      var isZeroFromLowPrecision := x.e + |m| <= -1 * precision;
      if precision == 0 || (!fixed && isZeroFromLowPrecision) {
        SmallBlankRendered(x, precision, fixed);
        return "0";
      }
      if fixed && isZeroFromLowPrecision {
        SmallBlankRendered(x, precision, fixed);
        return PadEnd("0.", precision + 2);
      }
      result := result + "0.";
      m := PadStart(m, Places(x));
      m := Substr(m, 0, precision);
      if fixed {
        m := PadEnd(m, precision);
        SmallFixedText(x, precision);
      } else {
        m := TrimTrailingZeros(m);
        SmallTrimmedText(x, precision);
      }
      result := result + m;
      assert result == Rendered(x, precision, fixed);
    } else {
      // the number of mantissa digits before the point
      var point: nat := |m| + x.e;
      result := result + Prefix(m, point);
      if precision > 0 {
        var postDecimal := Substr(m, point, precision);
        if fixed {
          postDecimal := PadEnd(postDecimal, precision);
          LargeFixedText(x, precision, point);
        } else {
          postDecimal := TrimTrailingZeros(postDecimal);
          LargeTrimmedText(x, precision, point);
        }
        ghost var whole := result;
        result := result + ".";
        result := result + if |postDecimal| > 0 then postDecimal else "0";
        PointAfter(whole, OrZero(postDecimal));
        assert result == Rendered(x, precision, fixed);
      } else {
        LargeWholeText(x, point);
        assert result == Rendered(x, precision, fixed);
      }
    }
  }
}

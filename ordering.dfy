/** compareTo, magCompareTo and the six comparison operators of
    assembly/BigFloat.ts.  The source compares two values through their
    renderings at 1000 places: first the integer parts read back by the
    backend, then the fraction texts digit by digit. */
module Ordering {
  import opened Outcomes
  import opened Digits
  import opened Text
  import opened Trimming
  import opened BigInts
  import opened BigFloats
  import opened Rendering
  import opened Significance
  import opened RoundTrip

  /** The precision magCompareTo renders both operands with. */
  const ComparePrecision: nat := 1000

  /** -1, 0 or 1 as v is negative, zero or positive. */
  function Sign(v: int): int {
    if v < 0 then -1 else if v > 0 then 1 else 0
  }

  /** The integer part magCompareTo hands to the backend: the text before the
      first '.', or all of s when it has none. */
  function WholeText(s: string): string {
    var i := IndexOf(s, '.');
    if i == -1 then s else s[..i]
  }

  /** The fraction digits magCompareTo compares: the text after the first '.',
      or "0" when s has none. */
  function FractionText(s: string): string {
    var i := IndexOf(s, '.');
    if i == -1 then "0" else s[i + 1..]
  }

  /** BigInt.magCompareTo: the sign of |a| - |b|. */
  function MagCompare(a: int, b: int): int {
    Sign(Abs(a) - Abs(b))
  }

  /** I32.parseInt of a one-character string.  Only digits reach it: the
      fraction texts compared are digit strings (RenderedMagnitude). */
  function DigitOf(c: char): nat {
    if IsDigit(c) then DigitValue(c) else 0
  }

  /** The digit loop of magCompareTo: at the first position where the two
      fraction texts differ, the larger digit wins; when one text is a prefix
      of the other, the difference of the lengths decides. */
  function FractionOrder(a: string, b: string): int {
    if a == [] || b == [] then |a| - |b|
    else if a[0] != b[0] then
      (if DigitOf(a[0]) > DigitOf(b[0]) then 1
       else if DigitOf(a[0]) < DigitOf(b[0]) then -1
       else 0)
    else FractionOrder(a[1..], b[1..])
  }

  /** What magCompareTo returns: the backend's comparison of the integer parts
      of the two renderings at 1000 places, and when those are equal in
      magnitude the comparison of the fraction texts. */
  function MagnitudeOrder(x: BigFloat, y: BigFloat): int {
    WholeParses(x, ComparePrecision);
    WholeParses(y, ComparePrecision);
    TextOrder(Rendered(x, ComparePrecision, false), Rendered(y, ComparePrecision, false))
  }

  /** The comparison magCompareTo makes of two renderings whose integer parts
      the backend accepts. */
  function TextOrder(s: string, t: string): int
    requires ParseInt(WholeText(s)).Some? && ParseInt(WholeText(t)).Some?
  {
    var c := MagCompare(ParseInt(WholeText(s)).value, ParseInt(WholeText(t)).value);
    if c != 0 then c else FractionOrder(FractionText(s), FractionText(t))
  }

  /** compareTo: operands of opposite signs are ordered by sign alone; two
      negative operands compare by magnitude the other way round. A value
      compares equal to itself. */
  function CompareTo(x: BigFloat, y: BigFloat): (r: int)
    ensures x.mantissa < 0 <= y.mantissa ==> r == -1
    ensures y.mantissa < 0 <= x.mantissa ==> r == 1
    ensures x == y ==> r == 0
  {
    MagnitudeOrderAntisymmetric(x, y);
    if IsNegative(x) && !IsNegative(y) then -1
    else if !IsNegative(x) && IsNegative(y) then 1
    else if IsNegative(x) then MagnitudeOrder(y, x)
    else MagnitudeOrder(x, y)
  }

  /** The six operators read only the sign of compareTo; each is stated here
      with the operands swapped, which mirrors it. */
  predicate Eq(x: BigFloat, y: BigFloat)
    ensures Eq(x, y) <==> CompareTo(y, x) == 0
  {
    CompareToAntisymmetric(x, y);
    CompareTo(x, y) == 0
  }

  predicate Ne(x: BigFloat, y: BigFloat)
    ensures Ne(x, y) <==> Lt(x, y) || Gt(x, y)
    ensures Ne(x, y) <==> CompareTo(y, x) != 0
  {
    !Eq(x, y)
  }

  predicate Lt(x: BigFloat, y: BigFloat)
    ensures Lt(x, y) <==> CompareTo(y, x) > 0
  {
    CompareToAntisymmetric(x, y);
    CompareTo(x, y) < 0
  }

  predicate Lte(x: BigFloat, y: BigFloat)
    ensures Lte(x, y) <==> !Gt(x, y)
    ensures Lte(x, y) <==> CompareTo(y, x) >= 0
  {
    CompareToAntisymmetric(x, y);
    CompareTo(x, y) <= 0
  }

  predicate Gt(x: BigFloat, y: BigFloat)
    ensures Gt(x, y) <==> CompareTo(y, x) < 0
  {
    CompareToAntisymmetric(x, y);
    CompareTo(x, y) > 0
  }

  predicate Gte(x: BigFloat, y: BigFloat)
    ensures Gte(x, y) <==> !Lt(x, y)
    ensures Gte(x, y) <==> CompareTo(y, x) <= 0
  {
    CompareToAntisymmetric(x, y);
    CompareTo(x, y) >= 0
  }

  // ---------------------------------------------------------------------------
  // The loop.

  /** magCompareTo as the source runs it: two renderings, the integer parts
      read back by the backend, then a loop over the common length of the
      fraction texts. */
  method MagCompareTo(x: BigFloat, y: BigFloat) returns (r: int)
    ensures r == MagnitudeOrder(x, y)
  {
    var thisString := ToString(x, ComparePrecision, false);
    var otherString := ToString(y, ComparePrecision, false);
    WholeParses(x, ComparePrecision);
    WholeParses(y, ComparePrecision);
    var thisInt := ParseInt(WholeText(thisString)).value;
    var otherInt := ParseInt(WholeText(otherString)).value;
    var intCompare := MagCompare(thisInt, otherInt);
    if intCompare != 0 {
      return intCompare;
    }
    var thisDecimal := FractionText(thisString);
    var otherDecimal := FractionText(otherString);
    r := CompareDigits(thisDecimal, otherDecimal);
  }

  /** The digit loop at the end of magCompareTo, over the common length of
      the two fraction texts. */
  method CompareDigits(thisDecimal: string, otherDecimal: string) returns (r: int)
    ensures r == FractionOrder(thisDecimal, otherDecimal)
  {
    var minLen := if |thisDecimal| < |otherDecimal| then |thisDecimal| else |otherDecimal|;
    var i := 0;
    assert thisDecimal[0..] == thisDecimal && otherDecimal[0..] == otherDecimal;
    while i < minLen
      invariant 0 <= i <= minLen
      invariant FractionOrder(thisDecimal[i..], otherDecimal[i..]) == FractionOrder(thisDecimal, otherDecimal)
    {
      var thisDigit, otherDigit := thisDecimal[i], otherDecimal[i];
      if thisDigit != otherDigit {
        var thisDigitInt, otherDigitInt := DigitOf(thisDigit), DigitOf(otherDigit);
        if thisDigitInt > otherDigitInt {
          return 1;
        }
        if thisDigitInt < otherDigitInt {
          return -1;
        }
        return 0;
      }
      assert thisDecimal[i..][1..] == thisDecimal[i + 1..];
      assert otherDecimal[i..][1..] == otherDecimal[i + 1..];
      i := i + 1;
    }
    return |thisDecimal| - |otherDecimal|;
  }

  // ---------------------------------------------------------------------------
  // What the renderings look like.

  /** A rendering split at the '.' that follows its head. */
  lemma SplitAtPoint(head: string, tail: string)
    requires '.' !in head
    ensures WholeText(head + ("." + tail)) == head
    ensures FractionText(head + ("." + tail)) == tail
  {
    var s := head + ("." + tail);
    assert s == head + ['.'] + tail;
    IndexOfAfter(head, '.', tail);
    assert s[..|head|] == head;
    assert s[|head| + 1..] == tail;
  }

  /** The backend accepts a sign and a non-empty run of digits. */
  lemma SignedDigitsParse(neg: bool, d: string)
    requires d != [] && AllDigits(d)
    ensures '.' !in Minus(neg) + d
    ensures ParseInt(Minus(neg) + d).Some?
  {
    ParseIntDigits(neg, d);
    NotInDigits(d, '.');
  }

  /** The backend always accepts the integer part of a rendering (p > 0): it
      is "0", or an optional '-' and at least one digit. */
  lemma WholeParses(x: BigFloat, p: nat)
    requires p > 0
    ensures ParseInt(WholeText(Rendered(x, p, false))).Some?
  {
    if x.mantissa == 0 {
      assert Rendered(x, p, false) == "0";
      assert WholeText("0") == "0";
      SignedDigitsParse(false, "0");
      assert Minus(false) + "0" == "0";
    } else if x.e > 0 {
      PositiveExponentParts(x, p);
    } else if Truncated(x, p) == 0 {
      ZeroRendered(x, p, false);
      assert WholeText("0") == "0";
      SignedDigitsParse(false, "0");
      assert Minus(false) + "0" == "0";
    } else {
      WholeLayout(x, p);
      SignedDigitsParse(x.mantissa < 0, NatDigits(ShiftRight(Abs(Truncated(x, p)), p)));
    }
  }

  /** A positive exponent renders as a sign, zeros, then ".0": the integer part
      reads back as 0 and the fraction text is "0". */
  lemma PositiveExponentParts(x: BigFloat, p: nat)
    requires x.mantissa != 0 && x.e > 0 && p > 0
    ensures var s := Rendered(x, p, false);
      ParseInt(WholeText(s)) == Some(0) && FractionText(s) == "0"
  {
    var neg := x.mantissa < 0;
    var sign := SignPrefix(x.mantissa);
    var n := |NatDigits(Abs(x.mantissa))| + x.e;
    var z := Zeros(n - |sign|);
    assert sign == Minus(neg);
    assert PadEnd(sign, n) == sign + z;
    PointZero(Rendered(x, p, false), neg, n - |sign|);
  }

  lemma PointZero(s: string, neg: bool, k: nat)
    requires k > 0 && s == Minus(neg) + Zeros(k) + ".0"
    ensures ParseInt(WholeText(s)) == Some(0) && FractionText(s) == "0"
  {
    var z := Zeros(k);
    DigitsValueZeros(k);
    var head := Minus(neg) + z;
    SignedDigitsParse(neg, z);
    SplitAtPoint(head, "0");
    assert s == head + ("." + "0");
    ParseIntDigits(neg, z);
    assert Signed(neg, 0) == 0;
  }

  /** For an exponent at most 0 and a value that does not cut to zero, the
      rendering splits at its '.' into the sign and the digits of the integer
      part, and the trimmed fraction. */
  lemma WholeLayout(x: BigFloat, p: nat)
    requires x.e <= 0 && p > 0 && Truncated(x, p) != 0
    ensures var s := Rendered(x, p, false);
      var n := Abs(Truncated(x, p));
      WholeText(s) == Minus(x.mantissa < 0) + NatDigits(ShiftRight(n, p)) &&
      FractionText(s) == OrZero(WithoutTrailingZeros(Fixed(n, p)))
  {
    var n := Abs(Truncated(x, p));
    var I := Abs(Truncated(x, 0));
    var tail := OrZero(WithoutTrailingZeros(Fixed(n, p)));
    CutText(x, p);
    IntegerPartOfCut(x, p);
    var head := Minus(x.mantissa < 0) + NatDigits(I);
    assert Minus(x.mantissa < 0) == SignPrefix(x.mantissa);
    SignedDigitsParse(x.mantissa < 0, NatDigits(I));
    SplitAtPoint(head, tail);
  }

  /** The comparison reads "0" as integer part 0 and fraction "0". */
  lemma ZeroMagnitude(p: nat)
    ensures ParseInt(WholeText("0")) == Some(0) && ShiftRight(0, p) == 0
    ensures FractionText("0") == "0" && OrZero(WithoutTrailingZeros(Fixed(0, p))) == "0"
  {
    assert WholeText("0") == "0" && FractionText("0") == "0";
    ParseIntDigits(false, "0");
    assert Minus(false) + "0" == "0";
    ShiftRightZero(0, p);
    FixedZero(p);
    TrailingOfPadded("", p);
    assert "" + Zeros(p) == Zeros(p);
  }

  /** What the comparison reads from a rendering at p places of a value with
      exponent at most 0: the integer part of the cut magnitude, and its p
      fractional digits without trailing zeros (or "0"). */
  lemma RenderedMagnitude(x: BigFloat, p: nat)
    requires x.e <= 0 && p > 0
    ensures var s := Rendered(x, p, false);
      var n := Abs(Truncated(x, p));
      ParseInt(WholeText(s)).Some? &&
      Abs(ParseInt(WholeText(s)).value) == ShiftRight(n, p) &&
      FractionText(s) == OrZero(WithoutTrailingZeros(Fixed(n, p)))
  {
    var n := Abs(Truncated(x, p));
    if n == 0 {
      ZeroRendered(x, p, false);
      ZeroMagnitude(p);
    } else {
      var hi := ShiftRight(n, p);
      WholeLayout(x, p);
      ParseIntDigits(x.mantissa < 0, NatDigits(hi));
      NatDigitsValue(hi);
      SignedParts(x.mantissa < 0, hi);
    }
  }

  // ---------------------------------------------------------------------------
  // Fraction texts against the numbers they spell.

  /** A fraction text of at most p digits, counted in units of 10^-p. */
  function FractionValue(s: string, p: nat): nat
    requires AllDigits(s) && |s| <= p
  {
    DigitsValue(s) * Pow10(p - |s|)
  }

  /** No '0' at the end: the shape toString leaves a fraction in. */
  predicate NoTrailingZero(s: string) {
    s == [] || s[|s| - 1] != '0'
  }

  lemma DigitsValueHead(s: string)
    requires s != [] && AllDigits(s)
    ensures AllDigits(s[1..])
    ensures DigitsValue(s) == DigitValue(s[0]) * Pow10(|s| - 1) + DigitsValue(s[1..])
  {
    var h, t := [s[0]], s[1..];
    assert s == h + t;
    assert h[..0] == [];
    assert DigitsValue(h) == DigitValue(s[0]);
    DigitsValueAppend(h, t);
  }

  /** The first digit of a fraction text is worth 10^(p-1) units; the rest
      is worth less than that. */
  lemma FractionValueHead(s: string, p: nat)
    requires s != [] && AllDigits(s) && |s| <= p
    ensures AllDigits(s[1..])
    ensures FractionValue(s, p) == DigitValue(s[0]) * Pow10(p - 1) + FractionValue(s[1..], p - 1)
    ensures FractionValue(s[1..], p - 1) < Pow10(p - 1)
  {
    var t := s[1..];
    var d, k := DigitValue(s[0]), p - |s|;
    DigitsValueHead(s);
    var a, b, q := Pow10(|t|), DigitsValue(t), Pow10(k);
    Pow10Add(|t|, k);
    assert |t| + k == p - 1 && p - 1 - |t| == k;
    DigitsValueBound(t);
    HeadSplit(d, a, b, q, Pow10(p - 1));
  }

  /** (d * a + b) * q split at a * q = P, with b * q below P when b is below a. */
  lemma HeadSplit(d: nat, a: nat, b: nat, q: nat, P: nat)
    requires a * q == P && b < a && q > 0
    ensures (d * a + b) * q == d * P + b * q && b * q < P
  {
    MulDistrib(d * a, b, q);
    MulAssoc(d, a, q);
    MulCancel(b, a, q);
  }

  /** A non-empty fraction text that does not end in '0' is worth something. */
  lemma FractionValuePositive(s: string, p: nat)
    requires s != [] && AllDigits(s) && |s| <= p && NoTrailingZero(s)
    ensures FractionValue(s, p) > 0
  {
    assert DigitsValue(s) >= DigitValue(s[|s| - 1]) > 0;
    MulLowerBound(DigitsValue(s), Pow10(p - |s|));
  }

  /** On fraction texts without trailing zeros, the digit loop orders by value. */
  lemma {:induction false} FractionOrderValue(s: string, t: string, p: nat)
    requires AllDigits(s) && AllDigits(t) && |s| <= p && |t| <= p
    requires NoTrailingZero(s) && NoTrailingZero(t)
    ensures Sign(FractionOrder(s, t)) == Sign(FractionValue(s, p) - FractionValue(t, p))
  {
    if s == [] && t == [] {
    } else if s == [] {
      FractionValuePositive(t, p);
    } else if t == [] {
      FractionValuePositive(s, p);
    } else {
      FractionValueHead(s, p);
      FractionValueHead(t, p);
      var ds, dt, P := DigitValue(s[0]), DigitValue(t[0]), Pow10(p - 1);
      var rs, rt := FractionValue(s[1..], p - 1), FractionValue(t[1..], p - 1);
      if s[0] == t[0] {
        assert NoTrailingZero(s[1..]) && NoTrailingZero(t[1..]);
        FractionOrderValue(s[1..], t[1..], p - 1);
      } else if ds < dt {
        MulMonotone(ds + 1, dt, P);
        MulDistrib(ds, 1, P);
      } else {
        assert dt < ds;
        MulMonotone(dt + 1, ds, P);
        MulDistrib(dt, 1, P);
      }
    }
  }

  /** "0" (what an empty fraction becomes) comes before any non-zero fraction. */
  lemma ZeroFractionFirst(t: string)
    requires t != [] && AllDigits(t) && NoTrailingZero(t)
    ensures FractionOrder("0", t) < 0
  {
    if t[0] == '0' {
      assert |t| >= 2;
      assert "0"[1..] == [];
    }
  }

  /** t is a fraction text of at most p digits without trailing zeros, worth
      l units of 10^-p, empty exactly when l is 0. */
  predicate FractionTextOf(t: string, p: nat, l: nat) {
    AllDigits(t) && |t| <= p && NoTrailingZero(t) &&
    FractionValue(t, p) == l && (t == [] <==> l == 0)
  }

  /** The low p digits of a, written with p places and stripped of trailing
      zeros, as a fraction text worth those digits. */
  lemma TrimmedFraction(a: nat, p: nat)
    requires p > 0
    ensures FractionTextOf(WithoutTrailingZeros(Fixed(a, p)), p, LowDigits(a, p))
  {
    var s := Fixed(a, p);
    TrailingShape(s);
    TrailingDigits(s);
    TrailingEmpty(s);
    FixedValue(a, p);
  }

  /** The fraction texts of two cut magnitudes order like their low p digits. */
  lemma FractionTextOrder(a: nat, b: nat, p: nat)
    requires p > 0
    ensures Sign(FractionOrder(OrZero(WithoutTrailingZeros(Fixed(a, p))),
                               OrZero(WithoutTrailingZeros(Fixed(b, p)))))
         == Sign(LowDigits(a, p) - LowDigits(b, p))
  {
    TrimmedFraction(a, p);
    TrimmedFraction(b, p);
    FractionTextsOrder(WithoutTrailingZeros(Fixed(a, p)), WithoutTrailingZeros(Fixed(b, p)),
                       p, LowDigits(a, p), LowDigits(b, p));
  }

  /** Two fraction texts without trailing zeros, an empty one read as "0",
      order like the values they spell. */
  lemma FractionTextsOrder(ta: string, tb: string, p: nat, la: nat, lb: nat)
    requires FractionTextOf(ta, p, la) && FractionTextOf(tb, p, lb)
    ensures Sign(FractionOrder(OrZero(ta), OrZero(tb))) == Sign(la - lb)
  {
    if ta != [] && tb != [] {
      FractionOrderValue(ta, tb, p);
    } else if ta == [] && tb == [] {
      assert FractionOrder("0", "0") == FractionOrder("", "");
    } else if ta == [] {
      ZeroFractionFirst(tb);
    } else {
      ZeroFractionFirst(ta);
      FractionOrderAntisymmetric(ta, "0");
    }
  }

  /** A larger integer part means a larger magnitude, whatever the fractions. */
  lemma HighDecides(ha: nat, hb: nat, la: nat, lb: nat, P: nat)
    requires ha < hb && la < P && lb < P
    ensures ha * P + la < hb * P + lb
  {
    MulMonotone(ha + 1, hb, P);
    MulDistrib(ha, 1, P);
  }

  /** The comparison magCompareTo makes of two magnitudes counted in units of
      10^-p: their integer parts, and when those are equal their fraction texts. */
  function SplitCompare(a: nat, b: nat, p: nat): int {
    var ha, hb := ShiftRight(a, p), ShiftRight(b, p);
    if ha != hb then Sign(ha - hb)
    else Sign(FractionOrder(OrZero(WithoutTrailingZeros(Fixed(a, p))),
                            OrZero(WithoutTrailingZeros(Fixed(b, p)))))
  }

  /** Integer part first, then the fraction: the order of two magnitudes
      counted in units of 10^-p. */
  lemma MagnitudeSplitOrder(a: nat, b: nat, p: nat)
    requires p > 0
    ensures SplitCompare(a, b, p) == Sign(a - b)
  {
    var ha, hb := ShiftRight(a, p), ShiftRight(b, p);
    if ha != hb {
      if ha < hb {
        HighOrder(a, b, p);
      } else {
        HighOrder(b, a, p);
      }
    } else {
      SameHigh(a, b, p);
      FractionTextOrder(a, b, p);
    }
  }

  /** A smaller integer part means a smaller magnitude. */
  lemma HighOrder(a: nat, b: nat, p: nat)
    requires ShiftRight(a, p) < ShiftRight(b, p)
    ensures a < b
  {
    ShiftDecompose(a, p);
    ShiftDecompose(b, p);
    HighDecides(ShiftRight(a, p), ShiftRight(b, p), LowDigits(a, p), LowDigits(b, p), Pow10(p));
  }

  /** With equal integer parts, magnitudes differ by their low p digits. */
  lemma SameHigh(a: nat, b: nat, p: nat)
    requires ShiftRight(a, p) == ShiftRight(b, p)
    ensures (a as int) - b == (LowDigits(a, p) as int) - LowDigits(b, p)
  {
    ShiftDecompose(a, p);
    ShiftDecompose(b, p);
  }


  // ---------------------------------------------------------------------------
  // Properties of the comparison.

  lemma {:induction false} FractionOrderAntisymmetric(a: string, b: string)
    ensures FractionOrder(a, b) == -FractionOrder(b, a)
  {
    if a != [] && b != [] && a[0] == b[0] {
      FractionOrderAntisymmetric(a[1..], b[1..]);
    }
  }

  lemma TextOrderAntisymmetric(s: string, t: string)
    requires ParseInt(WholeText(s)).Some? && ParseInt(WholeText(t)).Some?
    ensures TextOrder(s, t) == -TextOrder(t, s)
  {
    FractionOrderAntisymmetric(FractionText(s), FractionText(t));
  }

  /** When one fraction text is a prefix of the other, the digit loop returns
      the difference of the lengths, not clamped to -1, 0 or 1. */
  lemma {:induction false} FractionOrderPrefix(a: string, b: string)
    requires a <= b
    ensures FractionOrder(a, b) == |a| - |b|
  {
    if a != [] {
      assert a[1..] <= b[1..];
      FractionOrderPrefix(a[1..], b[1..]);
    }
  }

  /** Swapping the operands of magCompareTo negates the result. */
  lemma MagnitudeOrderAntisymmetric(x: BigFloat, y: BigFloat)
    ensures MagnitudeOrder(x, y) == -MagnitudeOrder(y, x)
  {
    var s, t := Rendered(x, ComparePrecision, false), Rendered(y, ComparePrecision, false);
    WholeParses(x, ComparePrecision);
    WholeParses(y, ComparePrecision);
    TextOrderAntisymmetric(s, t);
  }

  /** Swapping the operands of compareTo negates the result. */
  lemma CompareToAntisymmetric(x: BigFloat, y: BigFloat)
    ensures CompareTo(x, y) == -CompareTo(y, x)
  {
    MagnitudeOrderAntisymmetric(x, y);
  }

  /** For exponents at most 0, magCompareTo orders the magnitudes of the two
      values cut toward zero to 1000 places. */
  lemma MagnitudeOrderTruncated(x: BigFloat, y: BigFloat)
    requires x.e <= 0 && y.e <= 0
    ensures Sign(MagnitudeOrder(x, y)) ==
      Sign(Abs(Truncated(x, ComparePrecision)) - Abs(Truncated(y, ComparePrecision)))
  {
    var p := ComparePrecision;
    var s, t := Rendered(x, p, false), Rendered(y, p, false);
    var a, b := Abs(Truncated(x, p)), Abs(Truncated(y, p));
    RenderedMagnitude(x, p);
    RenderedMagnitude(y, p);
    assert MagnitudeOrder(x, y) == TextOrder(s, t);
    MagnitudeSplitOrder(a, b, p);
  }

  /** Two non-negative values that agree to 1000 places compare as equal,
      whatever digits follow. */
  lemma EqualToPrecision(x: BigFloat, y: BigFloat)
    requires x.e <= 0 && y.e <= 0 && x.mantissa >= 0 && y.mantissa >= 0
    requires Truncated(x, ComparePrecision) == Truncated(y, ComparePrecision)
    ensures Eq(x, y)
  {
    MagnitudeOrderTruncated(x, y);
  }

  /** compareTo agrees with the order of the numbers when both exponents lie
      between -1000 and 0. */
  lemma CompareToValue(x: BigFloat, y: BigFloat)
    requires -(ComparePrecision as int) <= x.e <= 0 && -(ComparePrecision as int) <= y.e <= 0
    ensures Lt(x, y) <==> LessValue(x, y)
    ensures Eq(x, y) <==> SameValue(x, y)
    ensures Gt(x, y) <==> LessValue(y, x)
  {
    var f := -(ComparePrecision as int);
    CompareToUnits(x, y);
    CompareOnGrid(x, y, f);
    CompareOnGrid(y, x, f);
  }

  /** compareTo has the sign of the difference of the two values counted in
      units of 10^-1000. */
  lemma CompareToUnits(x: BigFloat, y: BigFloat)
    requires -(ComparePrecision as int) <= x.e <= 0 && -(ComparePrecision as int) <= y.e <= 0
    ensures var f := -(ComparePrecision as int);
      Sign(CompareTo(x, y)) == Sign(Units(x, f) - Units(y, f))
  {
    var f := -(ComparePrecision as int);
    ZeroValue(x, f);
    ZeroValue(y, f);
    if x.mantissa < 0 && y.mantissa < 0 {
      assert CompareTo(x, y) == MagnitudeOrder(y, x);
      MagnitudeUnits(y, x);
    } else if x.mantissa >= 0 && y.mantissa >= 0 {
      assert CompareTo(x, y) == MagnitudeOrder(x, y);
      MagnitudeUnits(x, y);
    }
  }

  /** magCompareTo has the sign of the difference of the magnitudes counted in
      units of 10^-1000. */
  lemma MagnitudeUnits(x: BigFloat, y: BigFloat)
    requires -(ComparePrecision as int) <= x.e <= 0 && -(ComparePrecision as int) <= y.e <= 0
    ensures var f := -(ComparePrecision as int);
      Sign(MagnitudeOrder(x, y)) == Sign(Abs(Units(x, f)) - Abs(Units(y, f)))
  {
    TruncatedExact(x, ComparePrecision);
    TruncatedExact(y, ComparePrecision);
    MagnitudeOrderTruncated(x, y);
  }

  // ---------------------------------------------------------------------------
  // Positive exponents.  toString writes zeros in place of the mantissa's
  // digits when e > 0, so magCompareTo sees every such value as zero.

  /** With a positive exponent, magCompareTo compares as if the value were
      a zero z. */
  lemma PositiveExponentAsZero(x: BigFloat, z: BigFloat, y: BigFloat)
    requires x.mantissa != 0 && x.e > 0 && z.mantissa == 0
    ensures MagnitudeOrder(x, y) == MagnitudeOrder(z, y)
  {
    var p := ComparePrecision;
    PositiveExponentParts(x, p);
    ZeroParts(z, p);
    WholeParses(y, p);
    assert MagnitudeOrder(x, y) == TextOrder(Rendered(x, p, false), Rendered(y, p, false));
    assert MagnitudeOrder(z, y) == TextOrder(Rendered(z, p, false), Rendered(y, p, false));
  }

  /** A zero mantissa renders "0": integer part 0, fraction text "0". */
  lemma ZeroParts(z: BigFloat, p: nat)
    requires z.mantissa == 0
    ensures var s := Rendered(z, p, false);
      ParseInt(WholeText(s)) == Some(0) && FractionText(s) == "0"
  {
    assert Rendered(z, p, false) == "0";
    ZeroText("0");
  }

  lemma ZeroText(s: string)
    requires s == "0"
    ensures ParseInt(WholeText(s)) == Some(0) && FractionText(s) == "0"
  {
    assert WholeText(s) == "0" && FractionText(s) == "0";
    ParseIntDigits(false, "0");
    assert Minus(false) + "0" == "0";
  }

  /** Every positive value with a positive exponent compares below every
      positive value whose exponent lies between -1000 and 0. */
  lemma PositiveExponentBelow(x: BigFloat, y: BigFloat)
    requires x.mantissa > 0 && x.e > 0
    requires y.mantissa > 0 && -(ComparePrecision as int) <= y.e <= 0
    ensures Lt(x, y)
  {
    var f := -(ComparePrecision as int);
    var z := BigFloat(0, y.e);
    PositiveExponentAsZero(x, z, y);
    MagnitudeOrderTruncated(z, y);
    TruncatedExact(z, ComparePrecision);
    ZeroValue(z, f);
    TruncatedExact(y, ComparePrecision);
    ZeroValue(y, f);
  }

  /** 50 (5 * 10^1) compares below 1, though it is the larger number. */
  lemma PositiveExponentMisordered(x: BigFloat, y: BigFloat)
    requires x == BigFloat(5, 1) && y == BigFloat(1, 0)
    ensures LessValue(y, x) && Lt(x, y)
  {
    assert Units(x, 0) == 50 && Units(y, 0) == 1;
    PositiveExponentBelow(x, y);
  }

  /** x with a positive exponent moved into the mantissa: the form whose
      digits toString was evidently meant to write. */
  function Lowered(x: BigFloat): (r: BigFloat)
    ensures r.e <= 0 && (r.mantissa < 0 <==> x.mantissa < 0)
    ensures forall f :: f <= r.e && f <= x.e ==> Units(r, f) == Units(x, f)
  {
    if x.e > 0 then
      LoweredUnits(x);
      BigFloat(x.mantissa * Pow10(x.e), 0)
    else x
  }

  lemma LoweredUnits(x: BigFloat)
    requires x.e > 0
    ensures x.mantissa * Pow10(x.e) < 0 <==> x.mantissa < 0
    ensures forall f :: f <= 0 ==> Units(BigFloat(x.mantissa * Pow10(x.e), 0), f) == Units(x, f)
  {
    MulCancel(x.mantissa, 0, Pow10(x.e));
    forall f | f <= 0
      ensures Units(BigFloat(x.mantissa * Pow10(x.e), 0), f) == Units(x, f)
    {
      Pow10Add(x.e, -f);
      MulAssoc(x.mantissa, Pow10(x.e), Pow10(-f));
    }
  }

  /** compareTo over renderings that write a positive exponent's digits. */
  function CompareIntended(x: BigFloat, y: BigFloat): int {
    CompareTo(Lowered(x), Lowered(y))
  }

  /** With the digits written, the comparison agrees with the order of the
      numbers for every exponent from -1000 up. */
  lemma CompareIntendedValue(x: BigFloat, y: BigFloat)
    requires -(ComparePrecision as int) <= x.e && -(ComparePrecision as int) <= y.e
    ensures CompareIntended(x, y) < 0 <==> LessValue(x, y)
    ensures CompareIntended(x, y) == 0 <==> SameValue(x, y)
    ensures CompareIntended(x, y) > 0 <==> LessValue(y, x)
  {
    var f := -(ComparePrecision as int);
    var lx, ly := Lowered(x), Lowered(y);
    CompareToValue(lx, ly);
    CompareOnGrid(lx, ly, f);
    CompareOnGrid(ly, lx, f);
    CompareOnGrid(x, y, f);
    CompareOnGrid(y, x, f);
  }
}

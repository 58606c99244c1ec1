/** BigFloat.toFixed, floor and ceil (assembly/BigFloat.ts:132-155, 183-189).
    toFixed decides by ONE digit: it renders one place more than asked, reads
    the last character, and when the policy rounds up it parses that text
    back, moves its mantissa ten units away from zero and renders again.
    `FixedText` says what comes out in terms of the value; the method
    `ToFixed` follows the source's steps and is proved to produce it. */
module Formatting {
  import opened Outcomes
  import opened Digits
  import opened Text
  import opened BigInts
  import opened BigFloats
  import opened Parsing
  import opened Rendering
  import opened RoundTrip

  // ---------------------------------------------------------------------------
  // Rounding on one digit.

  /** The decimal digit of |x| at place p + 1 (exponent at most 0). */
  function NextDigit(x: BigFloat, p: nat): (d: nat)
    requires x.e <= 0
    ensures d < 10
  {
    Abs(Truncated(x, p + 1)) % 10
  }

  /** The policies' decision on that digit: ROUND_DOWN never rounds up,
      ROUND_UP does for any non-zero digit, ROUND_HALF_UP for 5 or more. */
  predicate RoundsAway(x: BigFloat, p: nat, rounding: Rounding)
    requires x.e <= 0
  {
    match rounding
    case RoundDown => false
    case RoundUp => NextDigit(x, p) != 0
    case RoundHalfUp => NextDigit(x, p) >= 5
  }

  /** The value toFixed writes, in units of 10^-p: x cut toward zero to p places,
      one unit further from zero when the policy rounds up. */
  function Rounded(x: BigFloat, p: nat, rounding: Rounding): int
    requires x.e <= 0
  {
    var t := Truncated(x, p);
    if RoundsAway(x, p, rounding) then Signed(x.mantissa < 0, Abs(t) + 1) else t
  }

  /** What toFixed(p, rounding) returns: the rounded value with exactly p
      fraction digits.  A zero mantissa or a positive exponent give the text of
      toString(p, true) whatever the policy. */
  function FixedText(x: BigFloat, p: nat, rounding: Rounding): string {
    if x.mantissa == 0 || x.e > 0 then Rendered(x, p, true)
    else FixedRender(Rounded(x, p, rounding), p)
  }

  // ---------------------------------------------------------------------------
  // The steps of toFixed.

  /** Cutting to p places is cutting to p + 1 places and dropping the last digit. */
  lemma TruncStep(x: BigFloat, p: nat)
    requires x.e <= 0
    ensures Abs(Truncated(x, p)) == Abs(Truncated(x, p + 1)) / 10
  {
    var a, w := Abs(x.mantissa), Places(x);
    var q: nat := p + 1;
    SignedParts(x.mantissa < 0, TruncScaled(a, w, p));
    SignedParts(x.mantissa < 0, TruncScaled(a, w, q));
    if q <= w {
      var j: nat := w - q;
      ShiftAdd(a, j, 1);
      assert j + 1 == w - p;
      assert ShiftRight(ShiftRight(a, j), 1) == ShiftRight(a, j) / 10;
    } else {
      var j: nat := p - w;
      assert q - w == j + 1;
      assert Pow10(j + 1) == 10 * Pow10(j);
      MulAssoc(a, 10, Pow10(j));
    }
  }

  /** The last character of toString(p + 1, true) is a digit: the digit at place
      p + 1 for a non-zero mantissa with exponent at most 0, '0' otherwise. */
  lemma LastPlace(x: BigFloat, p: nat)
    ensures var s := Rendered(x, p + 1, true);
      s != [] && IsDigit(s[|s| - 1]) &&
      DigitValue(s[|s| - 1]) == if x.mantissa == 0 || x.e > 0 then 0 else NextDigit(x, p)
  {
    var q: nat := p + 1;
    if x.mantissa == 0 || x.e > 0 {
      LastOfPadded(x, q);
    } else {
      LastOfCut(x, q);
    }
  }

  /** A zero mantissa or a positive exponent end toString(q, true) with '0'. */
  lemma LastOfPadded(x: BigFloat, q: nat)
    requires q > 0 && (x.mantissa == 0 || x.e > 0)
    ensures var s := Rendered(x, q, true); s != [] && s[|s| - 1] == '0'
  {
    var s := Rendered(x, q, true);
    ZerosChars(q);
    if x.mantissa == 0 {
      assert s[|s| - 1] == Zeros(q)[q - 1];
    } else {
      var head := PadEnd(SignPrefix(x.mantissa), |NatDigits(Abs(x.mantissa))| + x.e);
      assert s == head + ("." + Zeros(q));
      assert s[|s| - 1] == Zeros(q)[q - 1];
    }
  }

  /** Otherwise toString(q, true) ends with the last digit of the cut. */
  lemma LastOfCut(x: BigFloat, q: nat)
    requires q > 0 && x.mantissa != 0 && x.e <= 0
    ensures var s := Rendered(x, q, true); s != [] && s[|s| - 1] == DigitChar(Abs(Truncated(x, q)) % 10)
  {
    var s := Rendered(x, q, true);
    var T := Truncated(x, q);
    RenderedCut(x, q, true);
    FixedRenderParts(T, q, NatDigits(ShiftRight(Abs(T), q)), Fixed(Abs(T), q));
    FixedLast(Abs(T), q);
    assert s[|s| - 1] == Fixed(Abs(T), q)[q - 1];
  }


  /** When the digit at place p + 1 is not 0, toString(p + 1, true) reads back
      as the value cut to p + 1 places, with exactly p + 1 places. */
  lemma CarryParse(x: BigFloat, p: nat)
    requires x.e <= 0 && NextDigit(x, p) != 0
    ensures var r := FromString(Rendered(x, p + 1, true));
      r.Ok? && r.value.mantissa == Truncated(x, p + 1) && Places(r.value) == p + 1
  {
    var q: nat := p + 1;
    var T := Truncated(x, q);
    var t, neg := Abs(T), T < 0;
    assert x.mantissa != 0 by {
      if x.mantissa == 0 {
        TruncScaledZero(Places(x), q);
      }
    }
    RenderedCut(x, q, true);
    FixedRenderParts(T, q, NatDigits(ShiftRight(t, q)), Fixed(t, q));
    assert SignPrefix(T) == Minus(neg);
    PointAfter(Minus(neg) + NatDigits(ShiftRight(t, q)), Fixed(t, q));
    ParseCutExact(neg, t, q);
    assert Signed(neg, t) == T;
  }

  /** The rounding candidate, the value read back moved ten units of 10^-(p+1)
      away from zero, renders at p places as the cut at p places plus one unit. */
  lemma CarryRendered(x: BigFloat, y: BigFloat, p: nat)
    requires x.e <= 0 && y.e <= 0 && Places(y) == p + 1
    requires y.mantissa == Signed(x.mantissa < 0, Abs(Truncated(x, p + 1)) + 10)
    ensures Rendered(y, p, true) == FixedRender(Signed(x.mantissa < 0, Abs(Truncated(x, p)) + 1), p)
  {
    var u := Abs(Truncated(x, p + 1));
    TruncStep(x, p);
    SignedParts(x.mantissa < 0, u + 10);
    RenderedCut(y, p, true);
    assert Places(y) - p == 1;
    assert TruncScaled(u + 10, Places(y), p) == ShiftRight(u + 10, 1);
    assert ShiftRight(u + 10, 1) == u / 10 + 1;
  }

  /** toFixed: ROUND_DOWN renders the receiver; otherwise the digit one place
      further decides, and rounding up goes through a parsed candidate whose
      mantissa is moved by ten (the only field write of the source, on a
      fresh local value). */
  method ToFixed(x: BigFloat, decimalPlaces: nat, rounding: Rounding) returns (s: string)
    ensures s == FixedText(x, decimalPlaces, rounding)
  {
    var resultFloat: BigFloat;
    if rounding == RoundDown {
      resultFloat := x;
      KeptFixed(x, decimalPlaces, rounding, 0);
    } else {
      var extraPlaces: nat := decimalPlaces + 1;
      var extraDecimalStr := ToString(x, extraPlaces, true);
      LastPlace(x, decimalPlaces);
      var lastDigit := DigitValue(extraDecimalStr[|extraDecimalStr| - 1]);
      if (rounding == RoundHalfUp && lastDigit < 5) || lastDigit == 0 {
        resultFloat := x;
        KeptFixed(x, decimalPlaces, rounding, lastDigit);
      } else {
        resultFloat := Candidate(x, decimalPlaces, extraDecimalStr);
        CarriedFixed(x, resultFloat, decimalPlaces, rounding);
      }
    }
    s := ToString(resultFloat, decimalPlaces, true);
  }

  /** The rounding-up step of toFixed: the rendering with p + 1 places read
      back, its mantissa moved ten units of 10^-(p+1) away from zero. */
  method Candidate(x: BigFloat, p: nat, extraDecimalStr: string) returns (resultFloat: BigFloat)
    requires x.e <= 0 && x.mantissa != 0 && NextDigit(x, p) != 0
    requires extraDecimalStr == Rendered(x, p + 1, true)
    ensures resultFloat.e <= 0 && Places(resultFloat) == p + 1
    ensures var t := Truncated(x, p + 1);
      resultFloat.mantissa == if x.mantissa < 0 then t - 10 else t + 10
  {
    CarryParse(x, p);
    var parsed := FromString(extraDecimalStr);
    resultFloat := parsed.value;
    if IsNegative(x) {
      resultFloat := resultFloat.(mantissa := resultFloat.mantissa - 10);
    } else {
      resultFloat := resultFloat.(mantissa := resultFloat.mantissa + 10);
    }
  }

  /** When the policy keeps the digit d read at place p + 1, toFixed's answer
      is the receiver rendered at p places. */
  lemma KeptFixed(x: BigFloat, p: nat, rounding: Rounding, d: nat)
    requires rounding != RoundDown ==> d == if x.mantissa == 0 || x.e > 0 then 0 else NextDigit(x, p)
    requires rounding != RoundDown ==> (rounding == RoundHalfUp && d < 5) || d == 0
    ensures Rendered(x, p, true) == FixedText(x, p, rounding)
  {
    if x.mantissa != 0 && x.e <= 0 {
      assert !RoundsAway(x, p, rounding);
      RenderedCut(x, p, true);
    }
  }

  /** When the policy rounds up on the digit at place p + 1, the candidate
      moved ten units away from zero renders as toFixed's answer. */
  lemma CarriedFixed(x: BigFloat, y: BigFloat, p: nat, rounding: Rounding)
    requires x.e <= 0 && x.mantissa != 0 && NextDigit(x, p) != 0
    requires rounding == RoundUp || (rounding == RoundHalfUp && NextDigit(x, p) >= 5)
    requires y.e <= 0 && Places(y) == p + 1
    requires var t := Truncated(x, p + 1);
      y.mantissa == if x.mantissa < 0 then t - 10 else t + 10
    ensures Rendered(y, p, true) == FixedText(x, p, rounding)
  {
    var t := Truncated(x, p + 1);
    SignedParts(x.mantissa < 0, TruncScaled(Abs(x.mantissa), Places(x), p + 1));
    assert y.mantissa == Signed(x.mantissa < 0, Abs(t) + 10);
    assert RoundsAway(x, p, rounding);
    CarryRendered(x, y, p);
  }

  // ---------------------------------------------------------------------------
  // What the rounded text means.

  /** Rounding a count u of units of 10^-(p+1) to tens on its last digit, half
      up, gives the multiple of ten nearest to any U between u and u + 1 (U and
      both counted in units s), a tie going up. */
  lemma NearestByLastDigit(u: nat, U: int, s: nat)
    requires s > 0 && u * s <= U < (u + 1) * s
    ensures var R := if u % 10 >= 5 then u / 10 + 1 else u / 10;
      (2 * R - 1) * (10 * s) <= 2 * U < (2 * R + 1) * (10 * s)
  {
    var t, d := u / 10, u % 10;
    var ts, ds := t * s, d * s;
    DigitSplit(u, s);
    MulDistrib(u, 1, s);
    OddTens(t, s, -1);
    OddTens(t, s, 1);
    OddTens(t, s, 3);
    if d >= 5 {
      MulMonotone(5, d, s);
      MulMonotone(d, 9, s);
      assert 2 * (t + 1) - 1 == 2 * t + 1 && 2 * (t + 1) + 1 == 2 * t + 3;
    } else {
      MulMonotone(d, 4, s);
    }
  }

  /** u units of s split at the last decimal digit of u. */
  lemma DigitSplit(u: nat, s: nat)
    ensures u * s == 10 * ((u / 10) * s) + (u % 10) * s
  {
    assert u == 10 * (u / 10) + u % 10;
    MulDistrib(10 * (u / 10), u % 10, s);
    MulAssoc(10, u / 10, s);
  }

  /** (2t + c) tens of s, expanded. */
  lemma OddTens(t: int, s: int, c: int)
    ensures (2 * t + c) * (10 * s) == 20 * (t * s) + 10 * c * s
  {
    MulDistrib(2 * t, c, 10 * s);
    MulAssoc(2 * t, 10, s);
  }


  /** ROUND_HALF_UP is rounding to the nearest multiple of 10^-p, ties away from
      zero: counted in units of the grid f (the finer of x's and 10^-(p+1)),
      |x| lies within half a unit of 10^-p of the rounded magnitude R. */
  lemma HalfUpNearest(x: BigFloat, p: nat)
    requires x.e <= 0
    ensures var f := TruncGrid(x, p + 1);
      var R := Abs(Rounded(x, p, RoundHalfUp));
      (2 * R - 1) * Pow10(-(p as int) - f) <= 2 * Abs(Units(x, f)) < (2 * R + 1) * Pow10(-(p as int) - f)
  {
    var q: nat := p + 1;
    var f := TruncGrid(x, q);
    var u := Abs(Truncated(x, q));
    TruncatedBounds(x, q);
    TruncStep(x, p);
    var k: nat := -(q as int) - f;
    assert -(p as int) - f == k + 1;
    assert Pow10(k + 1) == 10 * Pow10(k);
    NearestByLastDigit(u, Abs(Units(x, f)), Pow10(k));
    SignedParts(x.mantissa < 0, Abs(Truncated(x, p)) + 1);
  }

  /** toFixed's text reads back as the rounded value: for p > 0 and a result
      that is not zero, fromString of it, counted in units of 10^-p, is
      exactly Rounded. */
  lemma FixedTextParse(x: BigFloat, p: nat, rounding: Rounding)
    requires x.mantissa != 0 && x.e <= 0 && p > 0 && Rounded(x, p, rounding) != 0
    ensures var r := FromString(FixedText(x, p, rounding));
      r.Ok? && -(p as int) <= r.value.e <= 0 && Units(r.value, -(p as int)) == Rounded(x, p, rounding)
  {
    var R := Rounded(x, p, rounding);
    var t, neg := Abs(R), R < 0;
    FixedRenderParts(R, p, NatDigits(ShiftRight(t, p)), Fixed(t, p));
    assert SignPrefix(R) == Minus(neg);
    PointAfter(Minus(neg) + NatDigits(ShiftRight(t, p)), Fixed(t, p));
    assert Signed(neg, t) == R;
    ParseCut(neg, t, p);
  }

  // ---------------------------------------------------------------------------
  // floor and ceil.

  /** A positive exponent renders at 0 places as the sign padded with '0's and
      nothing else, which the backend reads as 0. */
  lemma WholeOfPositiveExponent(x: BigFloat, fixed: bool)
    requires x.mantissa != 0 && x.e > 0
    ensures ParseInt(Rendered(x, 0, fixed)) == Some(0)
  {
    var n: nat := |NatDigits(Abs(x.mantissa))| + x.e;
    var neg := x.mantissa < 0;
    var z: nat := n - |Minus(neg)|;
    assert Rendered(x, 0, fixed) == PadEnd(Minus(neg), n);
    assert PadEnd(Minus(neg), n) == Minus(neg) + Zeros(z);
    DigitsValueZeros(z);
    ParseIntDigits(neg, Zeros(z));
  }

  /** A cut value rendered with no fraction digits reads back as itself. */
  lemma WholeOfCut(t: int)
    ensures ParseInt(FixedRender(t, 0)) == Some(t)
    ensures t != 0 ==> ParseInt(TrimmedRender(t, 0)) == Some(t)
  {
    assert ShiftRight(Abs(t), 0) == Abs(t);
    assert FixedRender(t, 0) == IntToString(t);
    ParseIntToString(t);
  }

  /** What the backend reads from toString(0). */
  lemma FloorText(x: BigFloat)
    ensures ParseInt(Rendered(x, 0, false)) == Some(if x.e <= 0 then Truncated(x, 0) else 0)
  {
    if x.mantissa == 0 {
      if x.e <= 0 {
        TruncScaledZero(Places(x), 0);
      }
      assert Rendered(x, 0, false) == "0";
      assert "0"[..0] == [];
    } else if x.e > 0 {
      WholeOfPositiveExponent(x, false);
    } else {
      WholeOfCut(Truncated(x, 0));
    }
  }

  /** What the backend reads from toFixed(0, ROUND_UP). */
  lemma CeilText(x: BigFloat)
    ensures ParseInt(FixedText(x, 0, RoundUp)) ==
      if x.mantissa == 0 then None else if x.e > 0 then Some(0) else Some(Rounded(x, 0, RoundUp))
  {
    if x.mantissa == 0 {
      assert FixedText(x, 0, RoundUp) == "0.";
      assert "0."[1] == '.';
    } else if x.e > 0 {
      WholeOfPositiveExponent(x, true);
    } else {
      WholeOfCut(Rounded(x, 0, RoundUp));
    }
  }

  /** floor(): the backend reads toString(0) back.  This is truncation toward
      zero, not rounding toward minus infinity, and a positive exponent gives 0
      (toString does not write the digits then). */
  function Floor(x: BigFloat): (r: Result<int>)
    ensures r.Ok?
    ensures x.e <= 0 ==> r.value == Truncated(x, 0)
    ensures x.e > 0 ==> r.value == 0
  {
    FloorText(x);
    match ParseInt(Rendered(x, 0, false))
    case None => Err(MalformedNumber)
    case Some(v) => Ok(v)
  }

  /** ceil(): the backend reads toFixed(0, ROUND_UP) back.  For a zero mantissa
      that text is "0.", which the backend rejects; a positive exponent gives 0;
      otherwise the value rounded away from zero on its first fraction digit. */
  function Ceil(x: BigFloat): (r: Result<int>)
    ensures x.mantissa == 0 ==> r.Err? && r.error == MalformedNumber
    ensures x.mantissa != 0 && x.e > 0 ==> r.Ok? && r.value == 0
    ensures x.mantissa != 0 && x.e <= 0 ==> r.Ok? && r.value == Rounded(x, 0, RoundUp)
  {
    CeilText(x);
    match ParseInt(FixedText(x, 0, RoundUp))
    case None => Err(MalformedNumber)
    case Some(v) => Ok(v)
  }

  // ---------------------------------------------------------------------------
  // Rounding up, as intended.

  /** Rounding away from zero as the name ROUND_UP evidently intends: one unit
      further from zero whenever any non-zero digit lies beyond place p. */
  function RoundedAway(x: BigFloat, p: nat): int
    requires x.e <= 0
  {
    var a, w := Abs(x.mantissa), Places(x);
    var t := Truncated(x, p);
    if p < w && LowDigits(a, w - p) != 0 then Signed(x.mantissa < 0, Abs(t) + 1) else t
  }

  /** Its magnitude R is the least multiple of 10^-p not below |x|, counted in
      units of the grid f (the finer of x's and 10^-p). */
  lemma RoundedAwayCovers(x: BigFloat, p: nat)
    requires x.e <= 0
    ensures var f := TruncGrid(x, p);
      var R := Abs(RoundedAway(x, p));
      (R - 1) * Pow10(-(p as int) - f) < Abs(Units(x, f)) <= R * Pow10(-(p as int) - f)
  {
    var a, w := Abs(x.mantissa), Places(x);
    var f := TruncGrid(x, p);
    var t := Abs(Truncated(x, p));
    TruncatedBounds(x, p);
    SignedParts(x.mantissa < 0, TruncScaled(a, w, p));
    SignedParts(x.mantissa < 0, t + 1);
    assert Abs(Units(x, f)) == a * Pow10(x.e - f) by {
      if x.mantissa < 0 {
        MulNegate(a, Pow10(x.e - f));
      }
    }
    var S := Pow10(-(p as int) - f);
    MulSubDistrib(t, 1, S);
    MulDistrib(t, 1, S);
    if p < w {
      var j: nat := w - p;
      assert f == x.e && -(p as int) - f == j;
      assert a * Pow10(0) == a;
      ShiftDecompose(a, j);
    } else {
      var j: nat := p - w;
      assert f == -(p as int) && x.e - f == j;
      assert S == 1;
    }
  }

  /** The ceiling evidently intended: the least multiple of 10^-p not below x,
      that is, toward plus infinity (cut toward zero for a negative x). */
  function Ceiling(x: BigFloat, p: nat): int
    requires x.e <= 0
  {
    if x.mantissa < 0 then Truncated(x, p) else RoundedAway(x, p)
  }

  /** Ceiling(x, p) is the least multiple of 10^-p not below x. */
  lemma CeilingLeast(x: BigFloat, p: nat)
    requires x.e <= 0
    ensures var f := TruncGrid(x, p);
      var c := Ceiling(x, p);
      (c - 1) * Pow10(-(p as int) - f) < Units(x, f) <= c * Pow10(-(p as int) - f)
  {
    var f := TruncGrid(x, p);
    var S := Pow10(-(p as int) - f);
    var U := Units(x, f);
    ZeroValue(x, f);
    if x.mantissa < 0 {
      TruncatedBounds(x, p);
      SignedParts(true, TruncScaled(Abs(x.mantissa), Places(x), p));
      MirrorBounds(Abs(Truncated(x, p)), U, S);
    } else {
      RoundedAwayCovers(x, p);
      SignedParts(false, Abs(Truncated(x, p)) + 1);
    }
  }

  /** t * S <= |U| < (t + 1) * S for a negative U: U lies in (-(t+1) * S, -t * S]. */
  lemma MirrorBounds(t: nat, U: int, S: nat)
    requires U < 0 && t * S <= -U < (t + 1) * S
    ensures (-(t as int) - 1) * S < U <= -(t as int) * S
  {
    MulNegate(t, S);
    MulNegate(t + 1, S);
  }

  /** The floor evidently intended: the greatest multiple of 10^-p not above
      x, that is, toward minus infinity (away from zero for a negative x). */
  function Flooring(x: BigFloat, p: nat): int
    requires x.e <= 0
  {
    if x.mantissa < 0 then RoundedAway(x, p) else Truncated(x, p)
  }

  /** Flooring(x, p) is the greatest multiple of 10^-p not above x. */
  lemma FlooringGreatest(x: BigFloat, p: nat)
    requires x.e <= 0
    ensures var f := TruncGrid(x, p);
      var c := Flooring(x, p);
      c * Pow10(-(p as int) - f) <= Units(x, f) < (c + 1) * Pow10(-(p as int) - f)
  {
    var f := TruncGrid(x, p);
    var S := Pow10(-(p as int) - f);
    var U := Units(x, f);
    ZeroValue(x, f);
    if x.mantissa < 0 {
      RoundedAwayCovers(x, p);
      var t := Abs(Truncated(x, p));
      SignedParts(true, TruncScaled(Abs(x.mantissa), Places(x), p));
      SignedParts(true, t + 1);
      var R := Abs(RoundedAway(x, p));
      assert RoundedAway(x, p) == -(R as int);
      AwayMirrorBounds(R, U, S);
    } else {
      TruncatedBounds(x, p);
      SignedParts(false, TruncScaled(Abs(x.mantissa), Places(x), p));
    }
  }

  /** (R - 1) * S < |U| <= R * S for a negative U: U lies in [-R * S, (1 - R) * S). */
  lemma AwayMirrorBounds(R: nat, U: int, S: nat)
    requires U < 0 && (R - 1) * S < -U <= R * S
    ensures -(R as int) * S <= U < (-(R as int) + 1) * S
  {
    MulNegate(R, S);
    MulNegate(R - 1, S);
  }

  // ---------------------------------------------------------------------------
  // Inputs on which the source differs from the intended rounding.

  /** ROUND_UP inspects one digit only: 0.001 to 1 place gives "0.0" (the digit
      at place 2 is 0), where rounding away from zero gives "0.1". */
  lemma RoundUpMissesLaterDigits(x: BigFloat)
    requires x == BigFloat(1, -3)
    ensures FixedText(x, 1, RoundUp) == "0.0"
    ensures FixedRender(RoundedAway(x, 1), 1) == "0.1"
  {
    assert Places(x) == 3 && Abs(x.mantissa) == 1;
    ThousandthCut();
    assert Truncated(x, 2) == 0 && Truncated(x, 1) == 0;
    assert Rounded(x, 1, RoundUp) == 0;
    assert RoundedAway(x, 1) == 1;
    TenthsRendered();
  }

  lemma ThousandthCut()
    ensures TruncScaled(1, 3, 2) == 0 && TruncScaled(1, 3, 1) == 0 && LowDigits(1, 2) == 1
  {
    assert ShiftRight(1, 1) == 0;
    assert ShiftRight(1, 2) == 0;
  }

  lemma TenthsRendered()
    ensures FixedRender(0, 1) == "0.0" && FixedRender(1, 1) == "0.1"
  {
    assert Fixed(0, 1) == "0";
    assert Fixed(1, 1) == "1";
  }


  /** ceil rounds away from zero: ceil(-1.5) is -2, where the least integer not
      below -1.5 is -1. */
  lemma CeilOfNegative()
    ensures Ceil(BigFloat(-15, -1)) == Ok(-2)
    ensures Ceiling(BigFloat(-15, -1), 0) == -1
  {
    var x := BigFloat(-15, -1);
    assert Places(x) == 1;
    assert ShiftRight(15, 1) == 1;
    assert ShiftRight(15, 0) == 15;
  }

  /** floor cuts toward zero: floor(-1.5) is -1, where the greatest integer
      not above -1.5 is -2. */
  lemma FloorOfNegative()
    ensures Floor(BigFloat(-15, -1)) == Ok(-1)
    ensures Flooring(BigFloat(-15, -1), 0) == -2
  {
    var x := BigFloat(-15, -1);
    assert Places(x) == 1;
    assert ShiftRight(15, 1) == 1;
    assert LowDigits(15, 1) == 5;
  }

  // ---------------------------------------------------------------------------
  // Examples from the source's tests (assembly/__tests__/BigFloat_read_write.spec.ts).

  /** -0.002523527 to 2 places: the carry crosses the point and keeps the sign. */
  lemma NegativeCarryExample()
    ensures FixedText(BigFloat(-2523527, -9), 2, RoundUp) == "-0.01"
  {
    var x := BigFloat(-2523527, -9);
    assert Places(x) == 9;
    assert ShiftRight(2523527, 6) == 2;
    assert ShiftRight(2523527, 7) == 0;
    assert Fixed(1, 2) == "01";
  }

  /** -0.002523527 to 0 places: the digit after the cut is 0, so ROUND_UP keeps
      the cut, which is zero and has no sign. */
  lemma NegativeToZeroExample()
    ensures FixedText(BigFloat(-2523527, -9), 0, RoundUp) == "0"
  {
    var x := BigFloat(-2523527, -9);
    assert Places(x) == 9;
    assert ShiftRight(2523527, 8) == 0;
    assert ShiftRight(2523527, 9) == 0;
  }
}

/** The arithmetic of BigFloat (assembly/BigFloat.ts:71-76, 286-351): exponent
    alignment by powers of ten, exact add, sub and mul, and division padded
    for precision and normalized when its mantissa grows past 384 bits.
    The functions say what each operation returns; the methods follow the
    source's steps, including its loop over powers of ten, and are proved to
    return the same. */
module Arithmetic {
  import opened Outcomes
  import opened Digits
  import opened Trimming
  import opened BigInts
  import opened BigFloats

  // ---------------------------------------------------------------------------
  // Alignment.

  /** m * 10^k for k > 0, m itself for k <= 0. */
  function ScaledUp(m: int, k: int): int {
    if k > 0 then m * Pow10(k) else m
  }

  /** mulBigIntPowTen: multiplies by 10^8 while more than 8 places remain,
      then by the rest; a k at or below 0 leaves the mantissa as it is. */
  method MulBigIntPowTen(mantissa: int, k: int) returns (r: int)
    ensures r == ScaledUp(mantissa, k)
  {
    r := mantissa;
    var j := k;
    while j > 0
      invariant r * Pow10(if j > 0 then j else 0) == ScaledUp(mantissa, k)
      decreases j
    {
      var mulVal: nat := if j > 8 then 8 else j;
      ghost var rest: nat := j - mulVal;
      Pow10Add(mulVal, rest);
      MulAssoc(r, Pow10(mulVal), Pow10(rest));
      r := r * Pow10(mulVal);
      j := j - mulVal;
    }
  }

  // ---------------------------------------------------------------------------
  // add, sub, mul.

  /** What add returns: the operand with the larger exponent is moved onto the
      other's grid, and the mantissas are added. */
  function Sum(x: BigFloat, y: BigFloat): BigFloat {
    if x.e >= y.e then BigFloat(x.mantissa * Pow10(x.e - y.e) + y.mantissa, y.e)
    else BigFloat(x.mantissa + y.mantissa * Pow10(y.e - x.e), x.e)
  }

  /** What sub returns: the same alignment, then the mantissas are subtracted. */
  function Difference(x: BigFloat, y: BigFloat): BigFloat {
    if x.e >= y.e then BigFloat(x.mantissa * Pow10(x.e - y.e) - y.mantissa, y.e)
    else BigFloat(x.mantissa - y.mantissa * Pow10(y.e - x.e), x.e)
  }

  /** add: the mantissa with the larger exponent goes through mulBigIntPowTen. */
  method Add(x: BigFloat, y: BigFloat) returns (r: BigFloat)
    ensures r == Sum(x, y)
  {
    var left := x.mantissa;
    var right := y.mantissa;
    var exponent: int;
    if x.e >= y.e {
      left := MulBigIntPowTen(left, x.e - y.e);
      exponent := y.e;
    } else {
      right := MulBigIntPowTen(right, y.e - x.e);
      exponent := x.e;
    }
    r := BigFloat(left + right, exponent);
  }

  /** sub: as add, with the mantissas subtracted. */
  method Sub(x: BigFloat, y: BigFloat) returns (r: BigFloat)
    ensures r == Difference(x, y)
  {
    var left := x.mantissa;
    var right := y.mantissa;
    var exponent: int;
    if x.e >= y.e {
      left := MulBigIntPowTen(left, x.e - y.e);
      exponent := y.e;
    } else {
      right := MulBigIntPowTen(right, y.e - x.e);
      exponent := x.e;
    }
    r := BigFloat(left - right, exponent);
  }

  /** On the finer grid of the two operands, the sum's and difference's
      mantissas are the operands' counts added and subtracted. */
  lemma AlignedOnCommonGrid(x: BigFloat, y: BigFloat)
    ensures Sum(x, y).e == CommonExp(x, y) && Difference(x, y).e == CommonExp(x, y)
    ensures Sum(x, y).mantissa == Units(x, CommonExp(x, y)) + Units(y, CommonExp(x, y))
    ensures Difference(x, y).mantissa == Units(x, CommonExp(x, y)) - Units(y, CommonExp(x, y))
  {
  }

  /** add is exact, with exponent min(e1, e2): on every grid at or below both
      exponents the sum counts exactly the operands' counts added. */
  lemma SumExact(x: BigFloat, y: BigFloat, f: int)
    requires f <= x.e && f <= y.e
    ensures Sum(x, y).e == CommonExp(x, y)
    ensures Units(Sum(x, y), f) == Units(x, f) + Units(y, f)
  {
    var c := CommonExp(x, y);
    AlignedOnCommonGrid(x, y);
    UnitsRescale(x, c, f);
    UnitsRescale(y, c, f);
    MulDistrib(Units(x, c), Units(y, c), Pow10(c - f));
  }

  /** sub is exact, with exponent min(e1, e2): on every grid at or below both
      exponents the difference counts exactly the operands' counts subtracted. */
  lemma DifferenceExact(x: BigFloat, y: BigFloat, f: int)
    requires f <= x.e && f <= y.e
    ensures Difference(x, y).e == CommonExp(x, y)
    ensures Units(Difference(x, y), f) == Units(x, f) - Units(y, f)
  {
    var c := CommonExp(x, y);
    AlignedOnCommonGrid(x, y);
    UnitsRescale(x, c, f);
    UnitsRescale(y, c, f);
    MulSubDistrib(Units(x, c), Units(y, c), Pow10(c - f));
  }

  /** Subtracting what was added gives back a value equal to the first operand. */
  lemma SubUndoesAdd(x: BigFloat, y: BigFloat)
    ensures SameValue(Difference(Sum(x, y), y), x)
  {
    var f := CommonExp(x, y);
    var s := Sum(x, y);
    SumExact(x, y, f);
    assert s.e == f;
    DifferenceExact(s, y, f);
    CompareOnGrid(Difference(s, y), x, f);
  }

  /** Adding values equal to x and y gives values equal to each other: add
      depends on the values only, not on how they are written. */
  lemma SumRespectsValue(x: BigFloat, x': BigFloat, y: BigFloat)
    requires SameValue(x, x')
    ensures SameValue(Sum(x, y), Sum(x', y))
  {
    var f := if x.e <= x'.e then CommonExp(x, y) else CommonExp(x', y);
    var g := if CommonExp(x, y) <= CommonExp(x', y) then CommonExp(x, y) else CommonExp(x', y);
    CompareOnGrid(x, x', g);
    SumExact(x, y, g);
    SumExact(x', y, g);
    CompareOnGrid(Sum(x, y), Sum(x', y), g);
  }

  /** mul: mantissas multiplied, exponents added. The product is zero exactly
      when an operand is, and negative exactly when the operands are non-zero
      and of opposite signs. */
  function Mul(x: BigFloat, y: BigFloat): (r: BigFloat)
    ensures r.e == x.e + y.e
    ensures r.mantissa == 0 <==> x.mantissa == 0 || y.mantissa == 0
    ensures IsNegative(r) <==> r.mantissa != 0 && IsNegative(x) != IsNegative(y)
  {
    BigFloat(x.mantissa * y.mantissa, x.e + y.e)
  }

  /** mul is exact: counted on grids f and g at or below the operands'
      exponents, the product counts the product of the counts on grid f + g. */
  lemma MulExact(x: BigFloat, y: BigFloat, f: int, g: int)
    requires f <= x.e && g <= y.e
    ensures Mul(x, y).e == x.e + y.e
    ensures Units(Mul(x, y), f + g) == Units(x, f) * Units(y, g)
  {
    var P, Q := Pow10(x.e - f), Pow10(y.e - g);
    Pow10Add(x.e - f, y.e - g);
    assert (x.e + y.e) - (f + g) == (x.e - f) + (y.e - g);
    calc {
      Units(x, f) * Units(y, g);
      (x.mantissa * P) * (y.mantissa * Q);
      { MulAssoc(x.mantissa * P, y.mantissa, Q); }
      ((x.mantissa * P) * y.mantissa) * Q;
      { MulAssoc(x.mantissa, P, y.mantissa); MulAssoc(x.mantissa, y.mantissa, P); }
      ((x.mantissa * y.mantissa) * P) * Q;
      { MulAssoc(x.mantissa * y.mantissa, P, Q); }
      (x.mantissa * y.mantissa) * (P * Q);
    }
  }

  // ---------------------------------------------------------------------------
  // normalize.

  /** The number of decimal digits of |m|: the length of the backend's string
      for m, less one for a '-'. */
  function DigitCount(m: int): (n: nat)
    ensures n >= 1
  {
    var s := IntToString(m);
    if m < 0 then |s| - 1 else |s|
  }

  /** Trimming the trailing zeros of sign + digits trims the digits only,
      when some digit is not '0'. */
  lemma {:induction false} TrailingAfterPrefix(a: string, b: string)
    requires WithoutTrailingZeros(b) != []
    ensures WithoutTrailingZeros(a + b) == a + WithoutTrailingZeros(b)
    decreases |b|
  {
    if b[|b| - 1] == '0' {
      var b' := b[..|b| - 1];
      assert (a + b)[..|a + b| - 1] == a + b';
      TrailingAfterPrefix(a, b');
    }
  }

  /** The last digit of a digit string is its value modulo ten. */
  lemma LastDigitMod(s: string)
    requires s != [] && AllDigits(s)
    ensures DigitsValue(s) % 10 == DigitValue(s[|s| - 1])
  {
    DivModUnique(DigitsValue(s), 10, DigitsValue(s[..|s| - 1]), DigitValue(s[|s| - 1]));
  }

  /** The pieces of normalize for a non-zero mantissa: the backend's string
      loses its trailing zeros (never the '-'), what remains reads back as a
      mantissa without a trailing zero digit, and the zeros removed are the
      power of ten between the two. */
  lemma NormalizeParts(x: BigFloat)
    requires x.mantissa != 0
    ensures var s := IntToString(x.mantissa);
      var t := WithoutTrailingZeros(s);
      var neg, D := x.mantissa < 0, NatDigits(Abs(x.mantissa));
      var T := WithoutTrailingZeros(D);
      T != [] && AllDigits(T) && t == Minus(neg) + T &&
      ParseInt(t) == Some(Signed(neg, DigitsValue(T))) &&
      |s| - |t| == |D| - |T| &&
      Abs(x.mantissa) == DigitsValue(T) * Pow10(|D| - |T|) &&
      DigitsValue(T) % 10 != 0
  {
    var neg, a := x.mantissa < 0, Abs(x.mantissa);
    var D := NatDigits(a);
    var T := WithoutTrailingZeros(D);
    NatDigitsValue(a);
    TrailingEmpty(D);
    TrailingDigits(D);
    assert IntToString(x.mantissa) == Minus(neg) + D;
    TrailingAfterPrefix(Minus(neg), D);
    ParseIntDigits(neg, T);
    TrailingShape(D);
    LastDigitMod(T);
  }

  /** What normalize returns: the mantissa without its trailing zero digits,
      the exponent raised by their number; the value does not change. */
  function Normalized(x: BigFloat): (r: BigFloat)
    requires x.mantissa != 0
    ensures SameValue(r, x) && x.e <= r.e
    ensures x.mantissa == r.mantissa * Pow10(r.e - x.e)
    ensures r.mantissa % 10 != 0
  {
    var s := IntToString(x.mantissa);
    var t := WithoutTrailingZeros(s);
    NormalizeParts(x);
    var r := BigFloat(ParseInt(t).value, x.e + (|s| - |t|));
    NormalizedValue(x, r);
    r
  }

  lemma NormalizedValue(x: BigFloat, r: BigFloat)
    requires x.mantissa != 0
    requires var D := NatDigits(Abs(x.mantissa));
      var T := WithoutTrailingZeros(D);
      AllDigits(T) &&
      r.mantissa == Signed(x.mantissa < 0, DigitsValue(T)) && r.e == x.e + (|D| - |T|) &&
      Abs(x.mantissa) == DigitsValue(T) * Pow10(|D| - |T|) && DigitsValue(T) % 10 != 0
    ensures SameValue(r, x) && x.e <= r.e
    ensures x.mantissa == r.mantissa * Pow10(r.e - x.e)
    ensures r.mantissa % 10 != 0
  {
    var D := NatDigits(Abs(x.mantissa));
    var T := WithoutTrailingZeros(D);
    var v: int := DigitsValue(T);
    var z: nat := |D| - |T|;
    assert r.e - x.e == z;
    if x.mantissa < 0 {
      MulNegate(v, Pow10(z));
      NegatedMod(v);
    }
    assert Units(r, x.e) == x.mantissa;
    assert Units(x, x.e) == x.mantissa;
  }

  lemma NegatedMod(v: int)
    requires v % 10 != 0
    ensures (-v) % 10 != 0
  {
    var q, d := v / 10, v % 10;
    assert -v == (-q - 1) * 10 + (10 - d);
    DivModUnique(-v, 10, -q - 1, 10 - d);
  }

  /** normalize: the backend's string of the mantissa, trimmed by the source's
      own loop, read back by the backend. */
  method Normalize(x: BigFloat) returns (r: BigFloat)
    requires x.mantissa != 0
    ensures r == Normalized(x)
  {
    var mantissaStr := IntToString(x.mantissa);
    var trimmedMantissa := TrimTrailingZeros(mantissaStr);
    var exponent := x.e + (|mantissaStr| - |trimmedMantissa|);
    NormalizeParts(x);
    r := BigFloat(ParseInt(trimmedMantissa).value, exponent);
  }

  // ---------------------------------------------------------------------------
  // div and fromFraction.

  /** The extra places div asks for: minPrecision, plus the amount by which
      the divisor has more digits than the dividend. */
  function Padding(x: BigFloat, y: BigFloat, minPrecision: nat): nat {
    var dividendLen, divisorLen := DigitCount(x.mantissa), DigitCount(y.mantissa);
    minPrecision + if dividendLen - divisorLen > 0 then 0 else divisorLen - dividendLen
  }

  /** What div returns for a non-zero divisor: the dividend scaled by
      10^padding, divided with truncation, on exponent e1 - e2 - padding, and
      normalized when the quotient needs more than 384 bits. */
  function Quotient(x: BigFloat, y: BigFloat, minPrecision: nat): BigFloat
    requires y.mantissa != 0
  {
    var padding := Padding(x, y, minPrecision);
    var res := BigFloat(Quot(x.mantissa * Pow10(padding), y.mantissa), x.e - y.e - padding);
    if BitLength(Abs(res.mantissa)) > 384 then Normalized(res) else res
  }

  /** The quotient before normalisation decides whether it is normalised. */
  lemma QuotientShape(x: BigFloat, y: BigFloat, minPrecision: nat, res: BigFloat)
    requires y.mantissa != 0
    requires var P := Padding(x, y, minPrecision);
      res.mantissa == Quot(ScaledUp(x.mantissa, P), y.mantissa) && res.e == x.e - y.e - P
    ensures Quotient(x, y, minPrecision) == if BitLength(Abs(res.mantissa)) > 384 then Normalized(res) else res
  {
  }

  /** div: the backend's integer division throws on a zero divisor, reported
      here as DivisionByZero. */
  method Div(x: BigFloat, y: BigFloat, minPrecision: nat) returns (r: Result<BigFloat>)
    ensures y.mantissa == 0 ==> r == Err(DivisionByZero)
    ensures y.mantissa != 0 ==> r == Ok(Quotient(x, y, minPrecision))
  {
    var dividend := x.mantissa;
    var divisor := y.mantissa;
    var dividendLen := if dividend < 0 then |IntToString(dividend)| - 1 else |IntToString(dividend)|;
    var divisorLen := if divisor < 0 then |IntToString(divisor)| - 1 else |IntToString(divisor)|;
    assert dividendLen == DigitCount(x.mantissa) && divisorLen == DigitCount(y.mantissa);
    var sizeDiff: nat := if dividendLen - divisorLen > 0 then 0 else divisorLen - dividendLen;
    var padding: nat := minPrecision + sizeDiff;
    assert padding == Padding(x, y, minPrecision);
    dividend := MulBigIntPowTen(dividend, padding);
    if divisor == 0 {
      return Err(DivisionByZero);
    }
    var mantissa := Quot(dividend, divisor);
    var exponent := x.e - y.e - padding;
    var res := BigFloat(mantissa, exponent);
    QuotientShape(x, y, minPrecision, res);
    if BitLength(Abs(res.mantissa)) > 384 {
      res := Normalize(res);
    }
    return Ok(res);
  }

  /** fromFraction: both integers with exponent 0, divided with the default
      minimum precision of 32 places. */
  method FromFraction(numerator: int, denominator: int) returns (r: Result<BigFloat>)
    ensures denominator == 0 ==> r == Err(DivisionByZero)
    ensures denominator != 0 ==> r == Ok(Quotient(BigFloat(numerator, 0), BigFloat(denominator, 0), 32))
  {
    var floatNumerator := BigFloat(numerator, 0);
    var floatDenominator := BigFloat(denominator, 0);
    r := Div(floatNumerator, floatDenominator, 32);
  }

  // ---------------------------------------------------------------------------
  // What the quotient means.

  lemma AbsMul(m: int, P: nat)
    ensures Abs(m * P) == Abs(m) * P
  {
    if m < 0 {
      MulNegate(-m, P);
    }
  }

  /** The quotient is the dividend over the divisor cut toward zero on the
      grid 10^(e1 - e2 - padding): counted on that grid it is a whole number
      u of units with |u| * |divisor| <= |dividend| * 10^padding <
      (|u| + 1) * |divisor|, and a non-zero u has the sign of the exact
      quotient.  Normalizing does not change that count. */
  lemma QuotientTruncates(x: BigFloat, y: BigFloat, minPrecision: nat)
    requires y.mantissa != 0
    ensures var P := Padding(x, y, minPrecision);
      var f := x.e - y.e - P;
      var q := Quotient(x, y, minPrecision);
      f <= q.e && P >= minPrecision &&
      var u := Units(q, f);
      Abs(u) * Abs(y.mantissa) <= Abs(x.mantissa) * Pow10(P) < (Abs(u) + 1) * Abs(y.mantissa) &&
      (u == 0 || (u < 0 <==> (x.mantissa < 0) != (y.mantissa < 0)))
  {
    QuotientCount(x, y, minPrecision);
    ScaledQuot(x.mantissa, Padding(x, y, minPrecision), y.mantissa);
  }

  /** Bounds and sign of the truncating quotient of m * 10^P by d. */
  lemma ScaledQuot(m: int, P: nat, d: int)
    requires d != 0
    ensures var t := Quot(m * Pow10(P), d);
      Abs(t) * Abs(d) <= Abs(m) * Pow10(P) < (Abs(t) + 1) * Abs(d) &&
      (t == 0 || (t < 0 <==> (m < 0) != (d < 0)))
  {
    var n := m * Pow10(P);
    AbsMul(m, Pow10(P));
    ScaledSign(m, Pow10(P));
    TruncationBounds(Quot(n, d), n, d, Abs(m) * Pow10(P), m < 0);
  }

  lemma ScaledSign(m: int, P: nat)
    requires P > 0
    ensures m * P < 0 <==> m < 0
    ensures m * P == 0 <==> m == 0
  {
    MulCancel(m, 0, P);
  }

  /** The bounds and sign of Quot, restated for a dividend whose magnitude is
      written differently. */
  lemma TruncationBounds(t: int, n: int, d: int, A: nat, neg: bool)
    requires d != 0 && t == Quot(n, d) && Abs(n) == A && (n < 0 <==> neg)
    ensures Abs(t) * Abs(d) <= A < (Abs(t) + 1) * Abs(d)
    ensures t == 0 || (t < 0 <==> neg != (d < 0))
  {
  }

  /** Counted on the grid 10^(e1 - e2 - padding), the quotient is the
      truncating integer quotient, normalized or not. */
  lemma QuotientCount(x: BigFloat, y: BigFloat, minPrecision: nat)
    requires y.mantissa != 0
    ensures var P := Padding(x, y, minPrecision);
      var f := x.e - y.e - P;
      var q := Quotient(x, y, minPrecision);
      f <= q.e && Units(q, f) == Quot(x.mantissa * Pow10(P), y.mantissa)
  {
    var P := Padding(x, y, minPrecision);
    var f := x.e - y.e - P;
    var res := BigFloat(Quot(x.mantissa * Pow10(P), y.mantissa), f);
    var q := Quotient(x, y, minPrecision);
    assert Units(res, f) == res.mantissa;
    if BitLength(Abs(res.mantissa)) > 384 {
      assert q == Normalized(res);
      assert SameValue(q, res) && f <= q.e;
      assert CommonExp(q, res) == f;
    } else {
      assert q == res;
    }
  }

  /** A zero dividend gives a zero quotient, which renders as "0". */
  lemma QuotientOfZero(x: BigFloat, y: BigFloat, minPrecision: nat)
    requires x.mantissa == 0 && y.mantissa != 0
    ensures Quotient(x, y, minPrecision).mantissa == 0
  {
    var P := Padding(x, y, minPrecision);
    var n := x.mantissa * Pow10(P);
    assert n == 0;
    var q := Quot(n, y.mantissa);
    assert q == 0 by {
      if q != 0 {
        MulLowerBound(Abs(q), Abs(y.mantissa));
      }
    }
    assert BitLength(Abs(q)) == 0;
  }

  /** The padding keeps at least minPrecision digits: for a non-zero dividend
      the quotient, counted on the grid 10^(e1 - e2 - padding), has magnitude
      at least 10^(minPrecision - 1), whatever the digit counts of the operands. */
  lemma QuotientPrecision(x: BigFloat, y: BigFloat, minPrecision: nat)
    requires x.mantissa != 0 && y.mantissa != 0 && minPrecision > 0
    ensures var P := Padding(x, y, minPrecision);
      Abs(Units(Quotient(x, y, minPrecision), x.e - y.e - P)) >= Pow10(minPrecision - 1)
  {
    var P := Padding(x, y, minPrecision);
    var a, b := Abs(x.mantissa), Abs(y.mantissa);
    var la, lb := DigitCount(x.mantissa), DigitCount(y.mantissa);
    var t := Abs(Units(Quotient(x, y, minPrecision), x.e - y.e - P));
    QuotientTruncates(x, y, minPrecision);
    assert a * Pow10(P) < (t + 1) * b;
    DigitCountBounds(x.mantissa);
    DigitCountBounds(y.mantissa);
    PaddedQuotBound(a, b, la, lb, minPrecision, P, t);
  }

  /** A non-zero m has DigitCount(m) digits: 10^(count - 1) <= |m| < 10^count. */
  lemma DigitCountBounds(m: int)
    requires m != 0
    ensures Pow10(DigitCount(m) - 1) <= Abs(m) < Pow10(DigitCount(m))
  {
    assert DigitCount(m) == |NatDigits(Abs(m))|;
    NatDigitsFixed(Abs(m));
  }

  /** The arithmetic behind the precision floor: a has la digits, b has lb,
      and a * 10^P with P = mp + max(0, lb - la) is more than 10^(mp-1) * b. */
  lemma PaddedQuotBound(a: nat, b: nat, la: nat, lb: nat, mp: nat, P: nat, t: nat)
    requires la >= 1 && mp >= 1 && b > 0
    requires Pow10(la - 1) <= a && b < Pow10(lb)
    requires P == mp + if la - lb > 0 then 0 else lb - la
    requires a * Pow10(P) < (t + 1) * b
    ensures t >= Pow10(mp - 1)
  {
    var k: nat := la - 1 + P - (mp - 1 + lb);
    var E, Q, K, M, B := Pow10(la - 1), Pow10(P), Pow10(k), Pow10(mp - 1), Pow10(lb);
    var MB := M * B;
    assert E * Q <= a * Q by { MulMonotone(E, a, Q); }
    assert E * Q == MB * K by {
      Pow10Add(la - 1, P);
      assert la - 1 + P == (mp - 1 + lb) + k;
      Pow10Add(mp - 1 + lb, k);
      Pow10Add(mp - 1, lb);
    }
    assert MB <= MB * K by { MulMonotone(1, K, MB); }
    assert b * M < B * M by { MulCancel(b, B, M); }
    assert M * b < (t + 1) * b;
    MulCancel(M, t + 1, b);
  }
}

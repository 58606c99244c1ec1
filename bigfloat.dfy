/** The value type of assembly/BigFloat.ts: an exact decimal mantissa * 10^e.
    The source's class never updates a field of an existing value (its single
    field write is on a freshly parsed local inside toFixed), so it is a
    datatype here. */
module BigFloats {
  import opened Digits
  import opened BigInts

  /** mantissa * 10^e; the mantissa is the backend integer, e the i32 exponent. */
  datatype BigFloat = BigFloat(mantissa: int, e: int)

  /** The three rounding policies of the Rounding class (0, 1 and 2 in the source). */
  datatype Rounding = RoundDown | RoundHalfUp | RoundUp

  /** The value of x counted in units of 10^f, for a grid f at or below x's exponent:
      mantissa * 10^e == Units(x, f) * 10^f, exactly. */
  function Units(x: BigFloat, f: int): int
    requires f <= x.e
  {
    x.mantissa * Pow10(x.e - f)
  }

  /** The finer of the two grids (the smaller exponent). */
  function CommonExp(a: BigFloat, b: BigFloat): int {
    if a.e <= b.e then a.e else b.e
  }

  /** a and b stand for the same number. */
  predicate SameValue(a: BigFloat, b: BigFloat) {
    Units(a, CommonExp(a, b)) == Units(b, CommonExp(a, b))
  }

  /** a stands for a smaller number than b. */
  predicate LessValue(a: BigFloat, b: BigFloat) {
    Units(a, CommonExp(a, b)) < Units(b, CommonExp(a, b))
  }

  /** Moving to a finer grid multiplies the count by the power of ten in between. */
  lemma UnitsRescale(x: BigFloat, f: int, g: int)
    requires g <= f <= x.e
    ensures Units(x, g) == Units(x, f) * Pow10(f - g)
  {
    Pow10Add(x.e - f, f - g);
    MulAssoc(x.mantissa, Pow10(x.e - f), Pow10(f - g));
  }

  /** Any common grid gives the same comparison as the finest common one. */
  lemma CompareOnGrid(a: BigFloat, b: BigFloat, f: int)
    requires f <= a.e && f <= b.e
    ensures SameValue(a, b) <==> Units(a, f) == Units(b, f)
    ensures LessValue(a, b) <==> Units(a, f) < Units(b, f)
  {
    var c := CommonExp(a, b);
    UnitsRescale(a, c, f);
    UnitsRescale(b, c, f);
    MulCancel(Units(a, c), Units(b, c), Pow10(c - f));
  }

  /** The isNegative getter: the sign of the mantissa. */
  predicate IsNegative(x: BigFloat)
    ensures IsNegative(x) <==> LessValue(x, BigFloat(0, x.e))
  {
    MulCancel(x.mantissa, 0, Pow10(0));
    x.mantissa < 0
  }

  /** A value is zero exactly when its mantissa is. */
  lemma ZeroValue(x: BigFloat, f: int)
    requires f <= x.e
    ensures Units(x, f) == 0 <==> x.mantissa == 0
    ensures Units(x, f) < 0 <==> x.mantissa < 0
  {
    MulCancel(x.mantissa, 0, Pow10(x.e - f));
  }
}

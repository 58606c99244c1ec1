/** The part of the external arbitrary-precision integer library ("as-bigint")
    that BigFloat uses, stated over Dafny's unbounded `int`. */
module BigInts {
  import opened Digits
  import opened Outcomes

  function Abs(m: int): nat {
    if m < 0 then -m else m
  }

  /** "-" for a negative number, "" otherwise. */
  function SignPrefix(m: int): string {
    if m < 0 then "-" else ""
  }

  /** BigInt.toString: an optional '-' followed by the canonical digits of the magnitude. */
  function IntToString(m: int): (s: string)
    ensures s == SignPrefix(m) + NatDigits(Abs(m))
    ensures |s| >= 1 && (s[0] == '-' <==> m < 0)
  {
    if m < 0 then "-" + NatDigits(-m) else NatDigits(m)
  }

  /** BigInt.fromString: an optional '-' followed by one or more decimal digits
      (leading zeros allowed).  Anything else is reported as malformed. */
  function ParseInt(s: string): (r: Option<int>)
    ensures r.Some? <==> (var d := if |s| > 0 && s[0] == '-' then s[1..] else s; d != [] && AllDigits(d))
  {
    var neg := |s| > 0 && s[0] == '-';
    var digits := if neg then s[1..] else s;
    if digits == [] || !AllDigits(digits) then None
    else
      var v: int := DigitsValue(digits);
      Some(if neg then -v else v)
  }

  /** Reading back what the backend writes gives the same integer. */
  lemma ParseIntToString(m: int)
    ensures ParseInt(IntToString(m)) == Some(m)
  {
    NatDigitsValue(Abs(m));
    if m < 0 {
      assert IntToString(m)[1..] == NatDigits(-m);
    }
  }

  /** "-" when neg, "" otherwise. */
  function Minus(neg: bool): string {
    if neg then "-" else ""
  }

  /** n with the sign neg. */
  function Signed(neg: bool, n: nat): int {
    var v: int := n;
    if neg then -v else v
  }

  /** ParseInt of a sign and a non-empty digit string. */
  lemma ParseIntDigits(neg: bool, d: string)
    requires d != [] && AllDigits(d)
    ensures ParseInt(Minus(neg) + d) == Some(Signed(neg, DigitsValue(d)))
  {
    var s := Minus(neg) + d;
    if neg {
      assert s[1..] == d;
    } else {
      assert s == d;
    }
  }

  /** How many times d fits into n (repeated subtraction). */
  function NatQuot(n: nat, d: nat): (q: nat)
    requires d > 0
    ensures q * d <= n < (q + 1) * d
    decreases n
  {
    if n < d then 0
    else
      var q := 1 + NatQuot(n - d, d);
      MulDistrib(q - 1, 1, d);
      MulDistrib(q, 1, d);
      q
  }

  /** BigInt.div: integer division truncating toward zero (not Dafny's Euclidean `/`). */
  function Quot(n: int, d: int): (q: int)
    requires d != 0
    ensures Abs(q) * Abs(d) <= Abs(n) < (Abs(q) + 1) * Abs(d)
    ensures q == 0 || (q < 0 <==> (n < 0) != (d < 0))
  {
    var a: int := NatQuot(Abs(n), Abs(d));
    if (n < 0) == (d < 0) then a else -a
  }

  /** BigInt.countBits: the number of binary digits of the magnitude (0 for zero). */
  function BitLength(n: nat): (b: nat)
    ensures b == 0 <==> n == 0
  {
    if n == 0 then 0 else 1 + BitLength(n / 2)
  }
}

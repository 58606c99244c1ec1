/** Powers of ten, decimal digit characters and digit strings: the vocabulary
    in which the integer backend and the BigFloat renderer are described. */
module Digits {

  /** 10^k. */
  function Pow10(k: nat): (r: nat)
    ensures r >= 1
  {
    if k == 0 then 1 else 10 * Pow10(k - 1)
  }

  // ---------------------------------------------------------------------------
  // Small arithmetic identities, proved in isolation and called where a larger
  // context would hide them from the solver.

  lemma MulAssoc(a: int, b: int, c: int)
    ensures a * (b * c) == (a * b) * c
  {
  }

  lemma MulDistrib(a: int, b: int, c: int)
    ensures (a + b) * c == a * c + b * c
  {
  }

  lemma MulLowerBound(a: int, d: int)
    requires a >= 1 && d > 0
    ensures a * d >= d
  {
  }

  lemma MulMonotone(a: int, b: int, d: int)
    requires a <= b && d >= 0
    ensures a * d <= b * d
  {
  }

  lemma MulSubDistrib(a: int, b: int, d: int)
    ensures (a - b) * d == a * d - b * d
  {
  }

  /** Multiplying by a positive factor keeps equality and order. */
  lemma MulCancel(x: int, y: int, d: int)
    requires d > 0
    ensures x * d == y * d <==> x == y
    ensures x * d < y * d <==> x < y
  {
    if x < y {
      MulSubDistrib(y, x, d);
      MulLowerBound(y - x, d);
    } else if y < x {
      MulSubDistrib(x, y, d);
      MulLowerBound(x - y, d);
    }
  }

  lemma MulNegate(x: int, d: int)
    ensures (-x) * d == -(x * d)
  {
  }

  lemma {:induction false} Pow10Add(a: nat, b: nat)
    ensures Pow10(a + b) == Pow10(a) * Pow10(b)
  {
    if a > 0 {
      Pow10Add(a - 1, b);
      MulAssoc(10, Pow10(a - 1), Pow10(b));
    }
  }

  lemma {:induction false} Pow10Monotone(a: nat, b: nat)
    requires a <= b
    ensures Pow10(a) <= Pow10(b)
    ensures a < b ==> 10 * Pow10(a) <= Pow10(b)
  {
    if a < b {
      Pow10Monotone(a, b - 1);
    }
  }

  /** Euclidean quotient and remainder are unique. */
  lemma DivModUnique(n: int, d: int, q: int, r: int)
    requires d > 0 && 0 <= r < d && n == q * d + r
    ensures n / d == q && n % d == r
  {
    var q0, r0 := n / d, n % d;
    assert n == q0 * d + r0 && 0 <= r0 < d;
    if q0 < q {
      MulSubDistrib(q, q0, d);
      MulLowerBound(q - q0, d);
    } else if q < q0 {
      MulSubDistrib(q0, q, d);
      MulLowerBound(q0 - q, d);
    }
  }

  // ---------------------------------------------------------------------------
  // Dropping and keeping low decimal digits, by repeated division by ten.

  /** n / 10^k: n with its low k digits dropped. */
  function ShiftRight(n: nat, k: nat): nat {
    if k == 0 then n else ShiftRight(n / 10, k - 1)
  }

  /** n % 10^k: the low k digits of n. */
  function LowDigits(n: nat, k: nat): (r: nat)
    ensures r < Pow10(k)
  {
    if k == 0 then 0 else LowDigits(n / 10, k - 1) * 10 + n % 10
  }

  lemma {:induction false} ShiftDecompose(n: nat, k: nat)
    ensures n == ShiftRight(n, k) * Pow10(k) + LowDigits(n, k)
  {
    if k > 0 {
      ShiftDecompose(n / 10, k - 1);
      var q, r, P := ShiftRight(n, k), LowDigits(n / 10, k - 1), Pow10(k - 1);
      assert n / 10 == q * P + r;
      MulAssoc(q, P, 10);
      MulDistrib(q * P, r, 10);
      assert n == (q * P + r) * 10 + n % 10;
    }
  }

  /** Any decomposition n = q * 10^k + r with r < 10^k is the one above. */
  lemma {:induction false} ShiftUnique(n: nat, k: nat, q: nat, r: nat)
    requires r < Pow10(k) && n == q * Pow10(k) + r
    ensures ShiftRight(n, k) == q && LowDigits(n, k) == r
  {
    if k > 0 {
      var P := Pow10(k - 1);
      MulAssoc(q, P, 10);
      assert n == (q * P + r / 10) * 10 + r % 10;
      assert n / 10 == q * P + r / 10;
      assert r / 10 < P;
      ShiftUnique(n / 10, k - 1, q, r / 10);
    }
  }

  lemma {:induction false} ShiftAdd(n: nat, i: nat, j: nat)
    ensures ShiftRight(n, i + j) == ShiftRight(ShiftRight(n, i), j)
  {
    if i > 0 {
      ShiftAdd(n / 10, i - 1, j);
    }
  }

  lemma ShiftZero(n: nat, k: nat)
    requires n < Pow10(k)
    ensures ShiftRight(n, k) == 0 && LowDigits(n, k) == n
  {
    ShiftUnique(n, k, 0, n);
  }

  lemma ShiftMul(n: nat, k: nat)
    ensures ShiftRight(n * Pow10(k), k) == n && LowDigits(n * Pow10(k), k) == 0
  {
    ShiftUnique(n * Pow10(k), k, n, 0);
  }

  /** Dividing q * 10^(i+j) + r by 10^i where r < 10^(i+j). */
  lemma ShiftOfScaled(n: nat, j: nat, k: nat)
    ensures ShiftRight(n * Pow10(j), j + k) == ShiftRight(n, k)
  {
    ShiftAdd(n * Pow10(j), j, k);
    ShiftMul(n, j);
  }

  /** The low digits of a scaled number: the low k digits of n followed by j zeros. */
  lemma LowOfScaled(n: nat, j: nat, k: nat)
    ensures LowDigits(n * Pow10(j), j + k) == LowDigits(n, k) * Pow10(j)
  {
    var q, r := ShiftRight(n, k), LowDigits(n, k);
    ShiftDecompose(n, k);
    Pow10Add(k, j);
    ScaledParts(n, q, r, Pow10(k), Pow10(j));
    ShiftUnique(n * Pow10(j), j + k, q, r * Pow10(j));
  }

  /** Scaling n = q * P + r (r < P) by Q scales both parts. */
  lemma ScaledParts(n: int, q: int, r: int, P: int, Q: int)
    requires n == q * P + r && 0 <= r < P && Q > 0
    ensures n * Q == q * (P * Q) + r * Q && r * Q < P * Q
  {
    MulDistrib(q * P, r, Q);
    MulAssoc(q, P, Q);
    MulMonotone(r, P - 1, Q);
    MulSubDistrib(P, 1, Q);
  }

  // ---------------------------------------------------------------------------
  // Characters and digit strings.

  predicate IsDigit(c: char) {
    '0' <= c <= '9'
  }

  function DigitValue(c: char): (d: nat)
    requires IsDigit(c)
    ensures d < 10
    ensures (d == 0) == (c == '0')
  {
    c as int - '0' as int
  }

  function DigitChar(d: nat): (c: char)
    requires d < 10
    ensures IsDigit(c) && DigitValue(c) == d
  {
    ('0' as int + d) as char
  }

  lemma DigitCharOfValue(c: char)
    requires IsDigit(c)
    ensures DigitChar(DigitValue(c)) == c
  {
  }

  predicate AllDigits(s: string) {
    forall i :: 0 <= i < |s| ==> IsDigit(s[i])
  }

  /** A digit string holds no other character. */
  lemma NotInDigits(s: string, c: char)
    requires AllDigits(s) && !IsDigit(c)
    ensures c !in s
  {
  }

  /** n copies of '0'. */
  function Zeros(n: nat): (z: string)
    ensures |z| == n && AllDigits(z)
  {
    if n == 0 then "" else Zeros(n - 1) + "0"
  }

  /** Every character of Zeros(n) is '0'. */
  lemma {:induction false} ZerosChars(n: nat)
    ensures forall i :: 0 <= i < n ==> Zeros(n)[i] == '0'
  {
    if n > 0 { ZerosChars(n - 1); }
  }

  /** A string of n zeros, built from the front. */
  lemma ZerosCons(n: nat)
    requires n > 0
    ensures Zeros(n) == "0" + Zeros(n - 1)
  {
    ZerosChars(n);
    ZerosChars(n - 1);
    assert forall i :: 0 <= i < n ==> Zeros(n)[i] == ("0" + Zeros(n - 1))[i];
  }

  /** Two runs of zeros make one. */
  lemma ZerosAppend(i: nat, j: nat)
    ensures Zeros(i) + Zeros(j) == Zeros(i + j)
  {
    ZerosChars(i);
    ZerosChars(j);
    ZerosChars(i + j);
    assert forall k :: 0 <= k < i + j ==> (Zeros(i) + Zeros(j))[k] == Zeros(i + j)[k];
  }

  /** The number a digit string spells, most significant digit first; leading
      zeros are allowed and count for nothing. */
  function DigitsValue(s: string): (v: nat)
    requires AllDigits(s)
  {
    if s == [] then 0 else DigitsValue(s[..|s| - 1]) * 10 + DigitValue(s[|s| - 1])
  }

  /** The low w decimal digits of n, zero-padded on the left to exactly w characters. */
  function Fixed(n: nat, w: nat): (s: string)
    ensures |s| == w && AllDigits(s)
  {
    if w == 0 then "" else Fixed(n / 10, w - 1) + [DigitChar(n % 10)]
  }

  /** The canonical decimal spelling of n: "0" for zero, otherwise no leading zero. */
  function NatDigits(n: nat): (s: string)
    ensures |s| >= 1 && AllDigits(s)
    ensures n == 0 ==> s == "0"
    ensures n > 0 ==> s[0] != '0'
  {
    if n < 10 then [DigitChar(n)] else NatDigits(n / 10) + [DigitChar(n % 10)]
  }

  // ---------------------------------------------------------------------------
  // Lemmas about digit strings.

  lemma {:induction false} DigitsValueAppend(a: string, b: string)
    requires AllDigits(a) && AllDigits(b)
    ensures AllDigits(a + b)
    ensures DigitsValue(a + b) == DigitsValue(a) * Pow10(|b|) + DigitsValue(b)
  {
    assert AllDigits(a + b);
    if b == [] {
      assert a + b == a;
    } else {
      var b' := b[..|b| - 1];
      assert (a + b)[..|a + b| - 1] == a + b';
      assert (a + b)[|a + b| - 1] == b[|b| - 1];
      DigitsValueAppend(a, b');
      var A, B, P := DigitsValue(a), DigitsValue(b'), Pow10(|b'|);
      MulDistrib(A * P, B, 10);
      MulAssoc(A, P, 10);
    }
  }

  lemma {:induction false} DigitsValueZeros(n: nat)
    ensures DigitsValue(Zeros(n)) == 0
  {
    if n > 0 {
      assert Zeros(n)[..n - 1] == Zeros(n - 1);
      DigitsValueZeros(n - 1);
    }
  }

  /** A digit string whose value is zero is made of zeros only. */
  lemma {:induction false} DigitsValueZeroIsZeros(s: string)
    requires AllDigits(s) && DigitsValue(s) == 0
    ensures forall i :: 0 <= i < |s| ==> s[i] == '0'
  {
    if s != [] {
      var s' := s[..|s| - 1];
      DigitsValueZeroIsZeros(s');
      forall i | 0 <= i < |s| ensures s[i] == '0' {
        if i < |s| - 1 { assert s[i] == s'[i]; }
      }
    }
  }

  lemma {:induction false} FixedValue(n: nat, w: nat)
    ensures DigitsValue(Fixed(n, w)) == LowDigits(n, w)
  {
    if w > 0 {
      var s := Fixed(n, w);
      assert s[..w - 1] == Fixed(n / 10, w - 1);
      FixedValue(n / 10, w - 1);
    }
  }

  /** Fixed reads a digit string back. */
  lemma {:induction false} FixedOfDigits(s: string)
    requires AllDigits(s)
    ensures Fixed(DigitsValue(s), |s|) == s
  {
    if s != [] {
      var s', c := s[..|s| - 1], s[|s| - 1];
      var n, v := DigitsValue(s), DigitsValue(s');
      assert n == v * 10 + DigitValue(c);
      DivModUnique(n, 10, v, DigitValue(c));
      assert Fixed(n, |s|) == Fixed(v, |s'|) + [DigitChar(DigitValue(c))];
      FixedOfDigits(s');
      DigitCharOfValue(c);
      assert s == s' + [c];
    }
  }

  /** A string of w digits spells a number below 10^w. */
  lemma DigitsValueBound(s: string)
    requires AllDigits(s)
    ensures DigitsValue(s) < Pow10(|s|)
  {
    FixedOfDigits(s);
    FixedValue(DigitsValue(s), |s|);
  }

  /** Fixed only looks at the low w digits. */
  lemma FixedLow(n: nat, w: nat)
    ensures Fixed(n, w) == Fixed(LowDigits(n, w), w)
  {
    FixedOfDigits(Fixed(n, w));
    FixedValue(n, w);
  }

  /** Splitting the low i+j digits into the high i and the low j. */
  lemma {:induction false} FixedSplit(n: nat, i: nat, j: nat)
    ensures Fixed(n, i + j) == Fixed(ShiftRight(n, j), i) + Fixed(n, j)
  {
    if j > 0 {
      FixedSplit(n / 10, i, j - 1);
    }
  }

  lemma FixedPrefix(n: nat, w: nat, i: nat)
    requires i <= w
    ensures Fixed(n, w)[..i] == Fixed(ShiftRight(n, w - i), i)
  {
    var j := w - i;
    FixedSplit(n, i, j);
    var hi, lo := Fixed(ShiftRight(n, j), i), Fixed(n, j);
    assert Fixed(n, w) == hi + lo;
    assert (hi + lo)[..i] == hi;
  }

  lemma FixedSuffix(n: nat, w: nat, i: nat)
    requires i <= w
    ensures Fixed(n, w)[i..] == Fixed(n, w - i)
  {
    var j := w - i;
    FixedSplit(n, i, j);
    var hi, lo := Fixed(ShiftRight(n, j), i), Fixed(n, j);
    assert Fixed(n, w) == hi + lo;
    assert (hi + lo)[i..] == lo;
  }

  lemma {:induction false} FixedZero(w: nat)
    ensures Fixed(0, w) == Zeros(w)
  {
    if w > 0 { FixedZero(w - 1); }
  }

  /** Appending j zeros multiplies by 10^j. */
  lemma FixedShift(n: nat, w: nat, j: nat)
    ensures Fixed(n * Pow10(j), w + j) == Fixed(n, w) + Zeros(j)
  {
    FixedSplit(n * Pow10(j), w, j);
    ShiftMul(n, j);
    FixedLow(n * Pow10(j), j);
    FixedZero(j);
  }

  /** Prepending zeros widens the field without changing the number. */
  lemma FixedPadStart(n: nat, w: nat, j: nat)
    requires n < Pow10(w)
    ensures Zeros(j) + Fixed(n, w) == Fixed(n, w + j)
  {
    FixedSplit(n, j, w);
    ShiftZero(n, w);
    FixedZero(j);
  }

  /** The last digit of a fixed-width spelling. */
  lemma FixedLast(n: nat, w: nat)
    requires w > 0
    ensures Fixed(n, w)[w - 1] == DigitChar(n % 10)
  {
  }

  /** The canonical spelling is the fixed-width spelling at its own width, and
      that width is the number of decimal digits of n. */
  lemma {:induction false} NatDigitsFixed(n: nat)
    ensures NatDigits(n) == Fixed(n, |NatDigits(n)|)
    ensures n < Pow10(|NatDigits(n)|)
    ensures n > 0 ==> Pow10(|NatDigits(n)| - 1) <= n
  {
    if n >= 10 {
      NatDigitsFixed(n / 10);
    }
  }

  lemma NatDigitsValue(n: nat)
    ensures DigitsValue(NatDigits(n)) == n
  {
    NatDigitsFixed(n);
    FixedValue(n, |NatDigits(n)|);
    ShiftZero(n, |NatDigits(n)|);
  }

  /** Dropping the last k digits of the canonical spelling drops k digits of n. */
  lemma {:induction false} NatDigitsPrefix(n: nat, k: nat)
    requires k < |NatDigits(n)|
    ensures NatDigits(n)[..|NatDigits(n)| - k] == NatDigits(ShiftRight(n, k))
  {
    if k > 0 {
      var d := NatDigits(n);
      assert n >= 10;
      var d' := NatDigits(n / 10);
      assert d == d' + [DigitChar(n % 10)];
      assert d[..|d| - k] == d'[..|d'| - (k - 1)];
      NatDigitsPrefix(n / 10, k - 1);
    }
  }

  /** The last k digits of the canonical spelling are n's low k digits. */
  lemma NatDigitsSuffix(n: nat, k: nat)
    requires k <= |NatDigits(n)|
    ensures NatDigits(n)[|NatDigits(n)| - k..] == Fixed(n, k)
  {
    NatDigitsFixed(n);
    FixedSuffix(n, |NatDigits(n)|, |NatDigits(n)| - k);
  }

  /** Dropping k digits leaves nothing exactly when n < 10^k. */
  lemma ShiftRightZero(n: nat, k: nat)
    ensures ShiftRight(n, k) == 0 <==> n < Pow10(k)
  {
    ShiftDecompose(n, k);
    var q := ShiftRight(n, k);
    if q != 0 {
      MulLowerBound(q, Pow10(k));
    }
    if n < Pow10(k) {
      ShiftZero(n, k);
    }
  }

  /** A positive n is below 10^k exactly when it has at most k digits. */
  lemma DigitCountBound(n: nat, k: nat)
    requires n > 0
    ensures n < Pow10(k) <==> |NatDigits(n)| <= k
  {
    var L := |NatDigits(n)|;
    NatDigitsFixed(n);
    if L <= k {
      Pow10Monotone(L, k);
    } else {
      Pow10Monotone(k, L - 1);
    }
  }

  /** A digit string without a leading zero spells a number with exactly that many digits. */
  lemma {:induction false} CanonicalDigits(s: string)
    requires AllDigits(s) && s != [] && s[0] != '0'
    ensures NatDigits(DigitsValue(s)) == s
  {
    var n := DigitsValue(s);
    LeadingDigitBound(s);
    DigitsValueBound(s);
    FixedOfDigits(s);
    NatDigitsFixed(n);
    WidthUnique(n, |NatDigits(n)|, |s|);
  }

  /** A positive n has one decimal width: 10^(L-1) <= n < 10^L fixes L. */
  lemma WidthUnique(n: nat, L: nat, m: nat)
    requires L > 0 && m > 0
    requires Pow10(L - 1) <= n < Pow10(L) && Pow10(m - 1) <= n < Pow10(m)
    ensures L == m
  {
    if L < m {
      Pow10Monotone(L, m - 1);
    } else if L > m {
      Pow10Monotone(m, L - 1);
    }
  }

  /** A digit string without a leading '0' is worth at least 10^(|s|-1). */
  lemma LeadingDigitBound(s: string)
    requires AllDigits(s) && s != [] && s[0] != '0'
    ensures Pow10(|s| - 1) <= DigitsValue(s)
  {
    var rest := s[1..];
    assert s == [s[0]] + rest;
    DigitsValueAppend([s[0]], rest);
    assert DigitsValue([s[0]]) == DigitValue(s[0]) by {
      assert [s[0]][..0] == [];
    }
    MulLowerBound(DigitValue(s[0]), Pow10(|rest|));
  }

}

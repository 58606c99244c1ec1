/** BigFloat.toSignificant (assembly/BigFloat.ts:157-181).  The value is
    rendered with one place more than the requested count of significant
    digits; the position of its '.' (less one for a '-' and one for a lone
    leading "0") is taken as the number of integer digits.  When the request
    reaches the fraction, toFixed does the work; otherwise the integer digits
    are cut from that text and padded back with '0's to the width of the
    integer part. */
module Significance {
  import opened Outcomes
  import opened Digits
  import opened Text
  import opened Trimming
  import opened BigInts
  import opened BigFloats
  import opened Parsing
  import opened Rendering
  import opened RoundTrip
  import opened Formatting

  /** The number of integer digits the source reads off a rendering: the index
      of '.', less one for the sign of a negative value and one more when the
      integer part is a lone "0". */
  function IntegerDigitCount(floatString: string, negative: bool): int {
    var decimalIndex := IndexOf(floatString, '.');
    var isNegative := if negative then 1 else 0;
    var isLessThanOne :=
      if negative then (if decimalIndex == 2 && CharAt(floatString, 1) == "0" then 1 else 0)
      else (if decimalIndex == 1 && CharAt(floatString, 0) == "0" then 1 else 0);
    decimalIndex - isNegative - isLessThanOne
  }

  /** toSignificant(significantDigits, rounding).  The backend may reject the
      text it is handed on the whole-number path, hence the Result. */
  function ToSignificant(x: BigFloat, significantDigits: nat, rounding: Rounding): Result<string> {
    if significantDigits == 0 then Ok("0")
    else
      var floatString := Rendered(x, significantDigits + 1, false);
      var whole := IntegerDigitCount(floatString, IsNegative(x));
      if significantDigits >= whole then Ok(FixedText(x, significantDigits - whole, rounding))
      else WholeNumberPath(floatString, significantDigits, rounding)
  }

  /** The path where every requested digit is an integer digit: ROUND_DOWN cuts
      the text after significantDigits characters; the other policies read those
      characters and the next as "<digits>.<digit>" and round that to 0 places.
      Either way the result is padded with '0' to the position of '.'. */
  function WholeNumberPath(floatString: string, significantDigits: nat, rounding: Rounding): Result<string> {
    var decimalIndex := IndexOf(floatString, '.');
    if rounding == RoundDown then Ok(PadEnd(Prefix(floatString, significantDigits), decimalIndex))
    else
      var extraDigitStr := Prefix(floatString, significantDigits) + "." + CharAt(floatString, significantDigits);
      match FromString(extraDigitStr)
      case Err(e) => Err(e)
      case Ok(y) => Ok(PadEnd(FixedText(y, 0, rounding), decimalIndex))
  }

  // ---------------------------------------------------------------------------
  // The integer digits.

  /** The number of digits of the integer part of |x|, none when it is 0. */
  function WholeDigits(x: BigFloat): nat
    requires x.e <= 0
  {
    var n := Abs(Truncated(x, 0));
    if n == 0 then 0 else |NatDigits(n)|
  }

  /** The integer part of the value cut to any number of places is the cut to 0 places. */
  lemma IntegerPartOfCut(x: BigFloat, q: nat)
    requires x.e <= 0
    ensures ShiftRight(Abs(Truncated(x, q)), q) == Abs(Truncated(x, 0))
  {
    var a, w := Abs(x.mantissa), Places(x);
    CutIntegerPart(a, w, q);
    SignedParts(x.mantissa < 0, TruncScaled(a, w, q));
    SignedParts(x.mantissa < 0, TruncScaled(a, w, 0));
    assert TruncScaled(a, w, 0) == ShiftRight(a, w) by {
      if w == 0 {
        assert ShiftRight(a, 0) == a;
      }
    }
  }

  /** The trimmed rendering of a value that does not cut to zero at q places:
      sign, the digits of the integer part, '.', the fraction. */
  lemma CutText(x: BigFloat, q: nat)
    requires x.e <= 0 && q > 0 && Truncated(x, q) != 0
    ensures Rendered(x, q, false) ==
      SignPrefix(x.mantissa) + NatDigits(Abs(Truncated(x, 0))) +
      ("." + OrZero(WithoutTrailingZeros(Fixed(Abs(Truncated(x, q)), q))))
  {
    var T := Truncated(x, q);
    assert x.mantissa != 0 by {
      if x.mantissa == 0 {
        TruncScaledZero(Places(x), q);
      }
    }
    SignedParts(x.mantissa < 0, TruncScaled(Abs(x.mantissa), Places(x), q));
    IntegerPartOfCut(x, q);
    RenderedCut(x, q, false);
    TrimmedRenderParts(T, q, NatDigits(Abs(Truncated(x, 0))), WithoutTrailingZeros(Fixed(Abs(T), q)));
  }

  /** Where the source finds '.', and what it counts, in a sign, the canonical
      digits of n, '.', and a tail. */
  lemma CountOfHead(negative: bool, n: nat, tail: string)
    ensures var head := Minus(negative) + NatDigits(n);
      var s := head + ("." + tail);
      IndexOf(s, '.') == |head| &&
      IntegerDigitCount(s, negative) == if n == 0 then 0 else |NatDigits(n)|
  {
    var digits := NatDigits(n);
    var head := Minus(negative) + digits;
    var s := head + ("." + tail);
    assert s == head + ['.'] + tail;
    NotInDigits(digits, '.');
    IndexOfAfter(head, '.', tail);
    if negative {
      assert CharAt(s, 1) == [digits[0]];
    } else {
      assert CharAt(s, 0) == [digits[0]];
    }
  }

  /** The rendering toSignificant inspects, for a value that does not cut to zero
      one place beyond the request: sign, the integer digits, then '.'.  The
      source's count of integer digits is then exactly WholeDigits. */
  lemma SignificantLayout(x: BigFloat, sd: nat)
    requires x.e <= 0 && Truncated(x, sd + 1) != 0
    ensures var s := Rendered(x, sd + 1, false);
      var head := SignPrefix(x.mantissa) + NatDigits(Abs(Truncated(x, 0)));
      |head| < |s| && s[..|head|] == head &&
      IndexOf(s, '.') == |head| &&
      IntegerDigitCount(s, IsNegative(x)) == WholeDigits(x)
  {
    var q: nat := sd + 1;
    var n := Abs(Truncated(x, 0));
    var tail := OrZero(WithoutTrailingZeros(Fixed(Abs(Truncated(x, q)), q)));
    CutText(x, q);
    assert SignPrefix(x.mantissa) == Minus(IsNegative(x));
    CountOfHead(IsNegative(x), n, tail);
    var head := Minus(IsNegative(x)) + NatDigits(n);
    assert (head + ("." + tail))[..|head|] == head;
  }

  // ---------------------------------------------------------------------------
  // The paths of toSignificant.

  /** When the request reaches the fraction it is toFixed with the request less
      the integer digits as places. */
  lemma SignificantFraction(x: BigFloat, sd: nat, rounding: Rounding)
    requires x.e <= 0 && sd > 0 && Truncated(x, sd + 1) != 0 && sd >= WholeDigits(x)
    ensures ToSignificant(x, sd, rounding) == Ok(FixedText(x, sd - WholeDigits(x), rounding))
  {
    SignificantLayout(x, sd);
  }

  /** A value that cuts to zero one place beyond the request renders as "0",
      which holds no '.': the source then counts -1 integer digits (-2 for a
      negative value) and asks toFixed for sd + 1 (sd + 2) places. */
  lemma SignificantOfZeroCut(x: BigFloat, sd: nat, rounding: Rounding)
    requires sd > 0 && (x.mantissa == 0 || (x.e <= 0 && Truncated(x, sd + 1) == 0))
    ensures ToSignificant(x, sd, rounding) ==
      Ok(FixedText(x, sd + 1 + (if x.mantissa < 0 then 1 else 0), rounding))
  {
    var q: nat := sd + 1;
    if x.mantissa != 0 {
      ZeroRendered(x, q, false);
    }
    assert Rendered(x, q, false) == "0";
    assert IndexOf("0", '.') == -1;
  }

  /** Dropping k digits of n and writing k zeros in their place spells the
      dropped-to multiple of 10^k. */
  lemma NatDigitsShift(q: nat, k: nat)
    requires q > 0
    ensures NatDigits(q * Pow10(k)) == NatDigits(q) + Zeros(k)
  {
    var s := NatDigits(q) + Zeros(k);
    DigitsValueAppend(NatDigits(q), Zeros(k));
    NatDigitsValue(q);
    DigitsValueZeros(k);
    assert s[0] == NatDigits(q)[0];
    CanonicalDigits(s);
  }

  /** The first sd canonical digits of n, padded with '0' to the full width W,
      spell n cut down to a multiple of 10^(W - sd). */
  lemma PaddedPrefix(n: nat, sd: nat, W: nat, k: nat)
    requires W == |NatDigits(n)| && 0 < sd < W && k == W - sd
    ensures PadEnd(NatDigits(n)[..sd], W) == NatDigits(ShiftRight(n, k) * Pow10(k))
  {
    var digits := NatDigits(n);
    NatDigitsPrefix(n, k);
    assert |digits| - k == sd;
    assert n > 0;
    DigitCountBound(n, k);
    ShiftRightZero(n, k);
    NatDigitsShift(ShiftRight(n, k), k);
  }

  /** The ROUND_DOWN cut of a rendering whose first W characters are the
      canonical digits of n and whose '.' follows them. */
  lemma WholeDownText(s: string, n: nat, sd: nat, W: nat, k: nat)
    requires W == |NatDigits(n)| && 0 < sd < W && k == W - sd
    requires W <= |s| && s[..W] == NatDigits(n) && IndexOf(s, '.') == W
    ensures WholeNumberPath(s, sd, RoundDown) == Ok(NatDigits(ShiftRight(n, k) * Pow10(k)))
  {
    var digits := NatDigits(n);
    assert Prefix(s, sd) == digits[..sd];
    PaddedPrefix(n, sd, W, k);
  }

  /** For a non-negative value whose integer part has more digits than
      requested, ROUND_DOWN keeps the first sd of them and writes '0' for the
      other k: the integer part cut down to a multiple of 10^k, e.g. 32523523
      with 5 digits gives "32523000". */
  lemma SignificantWholeDown(x: BigFloat, sd: nat)
    requires x.e <= 0 && x.mantissa > 0 && 0 < sd < WholeDigits(x)
    ensures var n, k := Abs(Truncated(x, 0)), WholeDigits(x) - sd;
      ToSignificant(x, sd, RoundDown) == Ok(NatDigits(ShiftRight(n, k) * Pow10(k)))
  {
    var n := Abs(Truncated(x, 0));
    var W := WholeDigits(x);
    var k: nat := W - sd;
    WholeDigitsSpelled(x);
    WholePathTaken(x, sd, RoundDown);
    var s := Rendered(x, sd + 1, false);
    assert SignPrefix(x.mantissa) == "";
    assert SignPrefix(x.mantissa) + NatDigits(n) == NatDigits(n);
    WholeDownText(s, n, sd, W, k);
  }

  /** A non-zero integer part is spelled by exactly WholeDigits(x) digits. */
  lemma WholeDigitsSpelled(x: BigFloat)
    requires x.e <= 0 && WholeDigits(x) > 0
    ensures Abs(Truncated(x, 0)) > 0 && WholeDigits(x) == |NatDigits(Abs(Truncated(x, 0)))|
  {
  }

  /** When fewer digits are requested than the integer part has, toSignificant
      takes the whole-number path on the rendering with sd + 1 places, whose
      digits before '.' are those of the integer part. */
  lemma WholePathTaken(x: BigFloat, sd: nat, rounding: Rounding)
    requires x.e <= 0 && 0 < sd < WholeDigits(x)
    ensures var s := Rendered(x, sd + 1, false);
      var head := SignPrefix(x.mantissa) + NatDigits(Abs(Truncated(x, 0)));
      |head| < |s| && s[..|head|] == head && IndexOf(s, '.') == |head| &&
      ToSignificant(x, sd, rounding) == WholeNumberPath(s, sd, rounding)
  {
    var q: nat := sd + 1;
    WholeDigitsSpelled(x);
    assert Truncated(x, q) != 0 by {
      IntegerPartOfCut(x, q);
      if Truncated(x, q) == 0 {
        ShiftRightZero(0, q);
      }
    }
    SignificantLayout(x, sd);
  }

  /** Below an exponent of one toSignificant never fails: the text it rereads on
      the whole-number path is the leading integer digits, '.', and the next
      digit, whose payload starts with a non-zero digit. */
  lemma SignificantTotal(x: BigFloat, sd: nat, rounding: Rounding)
    requires x.e <= 0
    ensures ToSignificant(x, sd, rounding).Ok?
  {
    var s := Rendered(x, sd + 1, false);
    if sd > 0 && rounding != RoundDown && sd < IntegerDigitCount(s, IsNegative(x)) {
      WholePathOf(x, sd, rounding, s);
      WholeTextReads(x, sd);
    }
  }

  /** On the whole-number path the reread text is the sign, leading integer
      digits, '.' and the next digit, and it reads back. */
  lemma WholeTextReads(x: BigFloat, sd: nat)
    requires x.e <= 0 && 0 < sd < IntegerDigitCount(Rendered(x, sd + 1, false), IsNegative(x))
    ensures var s := Rendered(x, sd + 1, false);
      FromString(Prefix(s, sd) + "." + CharAt(s, sd)).Ok?
  {
    var q: nat := sd + 1;
    var s := Rendered(x, q, false);
    assert Truncated(x, q) != 0 by {
      if Truncated(x, q) == 0 {
        ZeroRendered(x, q, false);
      }
    }
    SignificantLayout(x, sd);
    WholeDigitsSpelled(x);
    ExtraDigitParses(s, x.mantissa < 0, NatDigits(Abs(Truncated(x, 0))), sd);
  }

  /** A rendering that starts with the sign and at least sd + 1 digits, the
      first of them not '0', rereads as "<digits>.<digit>". */
  lemma ExtraDigitParses(s: string, neg: bool, d: string, sd: nat)
    requires 0 < sd < |d| && AllDigits(d) && d[0] != '0'
    requires |Minus(neg) + d| < |s| && s[..|Minus(neg) + d|] == Minus(neg) + d
    ensures FromString(Prefix(s, sd) + "." + CharAt(s, sd)).Ok?
  {
    var k: nat := if neg then sd - 1 else sd;
    ExtraDigitText(s, Minus(neg) + d, sd);
    assert (Minus(neg) + d)[..sd] == Minus(neg) + d[..k];
    assert (Minus(neg) + d)[sd] == d[k];
    LeadingDigitBound(d[..k + 1]);
    assert d[..k] + [d[k]] == d[..k + 1];
    SignedDecimalOk(neg, d[..k], d[k]);
  }

  /** The reread text is the first sd characters, '.', and the next one. */
  lemma ExtraDigitText(s: string, head: string, sd: nat)
    requires sd < |head| < |s| && s[..|head|] == head
    ensures Prefix(s, sd) + "." + CharAt(s, sd) == head[..sd] + "." + [head[sd]]
  {
    assert s[..sd] == head[..sd];
    assert s[sd] == head[sd];
  }

  /** A signed decimal with one fraction digit and a non-zero payload reads. */
  lemma SignedDecimalOk(neg: bool, ip: string, c: char)
    requires AllDigits(ip + [c]) && DigitsValue(ip + [c]) != 0
    ensures FromString(Minus(neg) + ip + "." + [c]).Ok?
  {
    assert AllDigits(ip) by {
      assert forall i :: 0 <= i < |ip| ==> ip[i] == (ip + [c])[i];
    }
    FromStringSplits(neg, ip, [c]);
    FromDecimalOk(neg, ip, [c]);
  }

  /** From an exponent of one up the rendering spells zeros over every integer
      place, so the whole-number path of ROUND_HALF_UP and ROUND_UP rereads a
      text with no digit but '0' and fails; every other request succeeds. */
  lemma SignificantPositiveFails(x: BigFloat, sd: nat, rounding: Rounding)
    requires x.mantissa != 0 && x.e > 0
    ensures var sign := SignPrefix(x.mantissa);
      var W := |NatDigits(Abs(x.mantissa))| + x.e;
      ToSignificant(x, sd, rounding).Err? <==>
        rounding != RoundDown && 0 < sd < W - |sign|
    ensures ToSignificant(x, sd, rounding).Err? ==>
      ToSignificant(x, sd, rounding) == Err(MalformedNumber)
  {
    var sign := SignPrefix(x.mantissa);
    var W := |NatDigits(Abs(x.mantissa))| + x.e;
    PositiveCount(x, sd + 1);
    if rounding != RoundDown && 0 < sd < W - |sign| {
      PositiveWholeFails(x, sd, rounding, Rendered(x, sd + 1, false));
    }
  }

  /** The failing whole-number path, rereading a sign, zeros, '.' and "0". */
  lemma PositiveWholeFails(x: BigFloat, sd: nat, rounding: Rounding, s: string)
    requires x.mantissa != 0 && x.e > 0 && rounding != RoundDown && s == Rendered(x, sd + 1, false)
    requires 0 < sd < IntegerDigitCount(s, IsNegative(x))
    requires |SignPrefix(x.mantissa)| <= sd < |NatDigits(Abs(x.mantissa))| + x.e
    ensures ToSignificant(x, sd, rounding) == Err(MalformedNumber)
  {
    WholePathOf(x, sd, rounding, s);
    PositivePieces(x, sd + 1, sd);
    assert SignPrefix(x.mantissa) == Minus(x.mantissa < 0);
    ZerosPathFails(s, sd, rounding, x.mantissa < 0, sd - |SignPrefix(x.mantissa)|);
  }

  /** A whole-number path whose reread text is a signed run of zeros and ".0"
      fails. */
  lemma ZerosPathFails(s: string, sd: nat, rounding: Rounding, neg: bool, j: nat)
    requires rounding != RoundDown
    requires Prefix(s, sd) == Minus(neg) + Zeros(j) && CharAt(s, sd) == "0"
    ensures WholeNumberPath(s, sd, rounding) == Err(MalformedNumber)
  {
    ZerosReread(neg, j);
  }

  /** Where the rendering of a value of exponent one or more puts '.', and how
      many integer digits toSignificant counts in it. */
  lemma PositiveCount(x: BigFloat, q: nat)
    requires x.mantissa != 0 && x.e > 0 && q > 0
    ensures var s, sign := Rendered(x, q, false), SignPrefix(x.mantissa);
      var W := |NatDigits(Abs(x.mantissa))| + x.e;
      IndexOf(s, '.') == W &&
      IntegerDigitCount(s, IsNegative(x)) == if |sign| == 1 && W == 2 then 0 else W - |sign|
  {
    PositiveCountAt(x, q, Rendered(x, q, false), |NatDigits(Abs(x.mantissa))| + x.e);
  }

  /** The same, with the rendering and the width of its integer part named. */
  lemma PositiveCountAt(x: BigFloat, q: nat, s: string, W: nat)
    requires x.mantissa != 0 && x.e > 0 && q > 0
    requires s == Rendered(x, q, false) && W == |NatDigits(Abs(x.mantissa))| + x.e
    ensures IndexOf(s, '.') == W
    ensures IntegerDigitCount(s, IsNegative(x)) ==
      if |SignPrefix(x.mantissa)| == 1 && W == 2 then 0 else W - |SignPrefix(x.mantissa)|
  {
    PositiveText(x, q, false);
    assert s[W..] == ".0";
    assert SignPrefix(x.mantissa) == Minus(IsNegative(x));
    PointAfterZeros(s, IsNegative(x), W);
  }

  /** In a text of the sign, zeros up to W and '.', the point is at W and the
      count of integer digits is W less the sign, or 0 for "-0.". */
  lemma PointAfterZeros(s: string, neg: bool, W: nat)
    requires |Minus(neg)| < W < |s| && 2 <= W && s[..|Minus(neg)|] == Minus(neg) && s[W] == '.'
    requires forall i :: |Minus(neg)| <= i < W ==> s[i] == '0'
    ensures IndexOf(s, '.') == W
    ensures IntegerDigitCount(s, neg) == if neg && W == 2 then 0 else W - |Minus(neg)|
  {
    var sign := Minus(neg);
    forall i | 0 <= i < W ensures s[i] != '.' {
      if i < |sign| {
        assert s[i] == s[..|sign|][i];
      }
    }
    assert '.' !in s[..W];
    if neg {
      assert s[1] == '0';
    }
  }

  /** The first sd characters of such a rendering are the sign and zeros, and
      the next one is '0'. */
  lemma PositivePieces(x: BigFloat, q: nat, sd: nat)
    requires x.mantissa != 0 && x.e > 0
    requires |SignPrefix(x.mantissa)| <= sd < |NatDigits(Abs(x.mantissa))| + x.e
    ensures var s, sign := Rendered(x, q, false), SignPrefix(x.mantissa);
      Prefix(s, sd) == sign + Zeros(sd - |sign|) && CharAt(s, sd) == "0"
  {
    var s, sign := Rendered(x, q, false), SignPrefix(x.mantissa);
    PositiveText(x, q, false);
    ZeroRunPieces(s, sign, |NatDigits(Abs(x.mantissa))| + x.e, sd);
  }

  lemma ZeroRunPieces(s: string, sign: string, W: nat, sd: nat)
    requires |sign| <= sd < W <= |s| && s[..|sign|] == sign
    requires forall i :: |sign| <= i < W ==> s[i] == '0'
    ensures Prefix(s, sd) == sign + Zeros(sd - |sign|) && CharAt(s, sd) == "0"
  {
    ZerosChars(sd - |sign|);
    assert s[..sd] == s[..|sign|] + s[|sign|..sd];
  }

  /** A signed run of zeros with a zero fraction has no payload to read. */
  lemma ZerosReread(neg: bool, j: nat)
    ensures FromString(Minus(neg) + Zeros(j) + "." + "0") == Err(MalformedNumber)
  {
    ZerosChars(j);
    FromStringSplits(neg, Zeros(j), "0");
    ZerosDropped(j, "");
    assert Zeros(j) + "" == Zeros(j);
    assert WithoutTrailingZeros("0") == [];
  }

  // ---------------------------------------------------------------------------
  // The whole-number path as intended.

  /** n with its low k >= 1 digits dropped, moved up by one when the policy
      rounds on the first dropped digit, as toFixed does on the first digit
      beyond the cut. */
  function LeadingCut(n: nat, k: nat, rounding: Rounding): nat
    requires k > 0
  {
    var d := ShiftRight(n, k - 1) % 10;
    var up := match rounding
      case RoundDown => false
      case RoundUp => d != 0
      case RoundHalfUp => d >= 5;
    ShiftRight(n, k) + if up then 1 else 0
  }

  /** ROUND_DOWN keeps the largest multiple of 10^k not above n. */
  lemma LeadingCutDown(n: nat, k: nat)
    requires k > 0
    ensures var Q := LeadingCut(n, k, RoundDown);
      Q * Pow10(k) <= n < (Q + 1) * Pow10(k)
  {
    ShiftDecompose(n, k);
    MulDistrib(ShiftRight(n, k), 1, Pow10(k));
  }

  /** ROUND_HALF_UP keeps the multiple of 10^k nearest to n, a tie going up. */
  lemma LeadingCutHalfUp(n: nat, k: nat)
    requires k > 0
    ensures var Q := LeadingCut(n, k, RoundHalfUp);
      (2 * Q - 1) * Pow10(k) <= 2 * n < (2 * Q + 1) * Pow10(k)
  {
    var j: nat := k - 1;
    var u := ShiftRight(n, j);
    ShiftAdd(n, j, 1);
    assert ShiftRight(u, 1) == u / 10;
    ShiftDecompose(n, j);
    MulDistrib(u, 1, Pow10(j));
    assert Pow10(k) == 10 * Pow10(j);
    NearestByLastDigit(u, n, Pow10(j));
  }

  /** The leading sd digits of the integer part of |x|, rounded on the first
      of the k = WholeDigits(x) - sd digits dropped. */
  function SignificantCut(x: BigFloat, sd: nat, rounding: Rounding): nat
    requires x.e <= 0 && 0 < sd < WholeDigits(x)
  {
    LeadingCut(Abs(Truncated(x, 0)), WholeDigits(x) - sd, rounding)
  }

  /** The whole-number path evidently intended: the sign, the rounded leading
      digits and one '0' for every dropped digit, however many digits the
      rounding produced. */
  function SignificantWhole(x: BigFloat, sd: nat, rounding: Rounding): string
    requires x.e <= 0 && 0 < sd < WholeDigits(x)
  {
    SignPrefix(x.mantissa) + NatDigits(SignificantCut(x, sd, rounding)) + Zeros(WholeDigits(x) - sd)
  }

  /** ROUND_UP moves up on the first dropped digit alone: Q * 10^k is the
      least multiple of 10^k not below n with its digits after the first
      dropped one cleared. */
  lemma LeadingCutUp(n: nat, k: nat)
    requires k > 0
    ensures var Q, t := LeadingCut(n, k, RoundUp), ShiftRight(n, k - 1) * Pow10(k - 1);
      (Q - 1) * Pow10(k) < t <= Q * Pow10(k)
  {
    var j: nat := k - 1;
    var u := ShiftRight(n, j);
    ShiftAdd(n, j, 1);
    assert ShiftRight(u, 1) == u / 10;
    assert Pow10(k) == 10 * Pow10(j);
    CeilByLastDigit(u, Pow10(j));
  }

  /** u units of s lie in the step of 10 * s that u / 10, moved up by one
      when the last digit of u is not 0, closes. */
  lemma CeilByLastDigit(u: nat, s: nat)
    requires s > 0
    ensures var R := u / 10 + if u % 10 != 0 then 1 else 0;
      (R - 1) * (10 * s) < u * s <= R * (10 * s)
  {
    var t, d := u / 10, u % 10;
    var S := 10 * s;
    var X, Y := t * S, d * s;
    assert u * s == X + Y by {
      DigitSplit(u, s);
      MulAssoc(t, 10, s);
    }
    MulDistrib(t, 1, S);
    MulSubDistrib(t, 1, S);
    if d != 0 {
      MulMonotone(1, d, s);
      MulMonotone(d, 9, s);
      assert s <= Y <= 9 * s;
    } else {
      assert Y == 0;
    }
  }

  /** Q * 10^k is n cut down to a multiple of 10^k for ROUND_DOWN, the
      multiple of 10^k nearest to n, ties up, for ROUND_HALF_UP, and for
      ROUND_UP the multiple of 10^k next above n once the digits after the
      first dropped one are cleared. */
  predicate RoundedMultiple(n: nat, k: nat, Q: nat, rounding: Rounding) {
    (rounding == RoundDown ==> Q * Pow10(k) <= n < (Q + 1) * Pow10(k)) &&
    (rounding == RoundHalfUp ==> (2 * Q - 1) * Pow10(k) <= 2 * n < (2 * Q + 1) * Pow10(k)) &&
    (rounding == RoundUp && k > 0 ==>
      (Q - 1) * Pow10(k) < ShiftRight(n, k - 1) * Pow10(k - 1) <= Q * Pow10(k))
  }

  lemma LeadingCutRounds(n: nat, k: nat, rounding: Rounding)
    requires k > 0
    ensures RoundedMultiple(n, k, LeadingCut(n, k, rounding), rounding)
  {
    match rounding
    case RoundDown => LeadingCutDown(n, k);
    case RoundHalfUp => LeadingCutHalfUp(n, k);
    case RoundUp => LeadingCutUp(n, k);
  }

  /** The intended text spells the sign and Q * 10^k, and Q * 10^k is the
      integer part rounded to a multiple of 10^k as the policy says. */
  lemma SignificantWholeValue(x: BigFloat, sd: nat, rounding: Rounding)
    requires x.e <= 0 && 0 < sd < WholeDigits(x)
    ensures var n, k, Q := Abs(Truncated(x, 0)), WholeDigits(x) - sd, SignificantCut(x, sd, rounding);
      SignificantWhole(x, sd, rounding) == SignPrefix(x.mantissa) + NatDigits(Q * Pow10(k)) &&
      RoundedMultiple(n, k, Q, rounding)
  {
    var n := Abs(Truncated(x, 0));
    var k: nat := WholeDigits(x) - sd;
    var Q := SignificantCut(x, sd, rounding);
    assert n > 0 && WholeDigits(x) == |NatDigits(n)|;
    assert Q == LeadingCut(n, k, rounding);
    LeadingCutSpelled(n, k, rounding);
    assert SignificantWhole(x, sd, rounding) == SignPrefix(x.mantissa) + (NatDigits(Q) + Zeros(k));
    LeadingCutRounds(n, k, rounding);
  }

  /** The leading digits kept are never all dropped, so Q * 10^k is spelled by
      Q's digits and k zeros. */
  lemma LeadingCutSpelled(n: nat, k: nat, rounding: Rounding)
    requires 0 < k < |NatDigits(n)|
    ensures var Q := LeadingCut(n, k, rounding);
      Q > 0 && NatDigits(Q * Pow10(k)) == NatDigits(Q) + Zeros(k)
  {
    assert n > 0;
    DigitCountBound(n, k);
    ShiftRightZero(n, k);
    NatDigitsShift(LeadingCut(n, k, rounding), k);
  }

  // ---------------------------------------------------------------------------
  // The whole-number path for ROUND_HALF_UP and ROUND_UP.

  /** For a non-negative value whose integer part has more digits than
      requested, ROUND_HALF_UP and ROUND_UP read the first sd digits and the
      next as "<digits>.<digit>", round that to a whole number on its one
      fraction digit, and pad the result with '0' to the old width: the
      leading digits rounded on the first dropped digit, e.g. 32523523 with 5
      digits gives "32524000" under either policy. */
  lemma SignificantWholeRounded(x: BigFloat, sd: nat, rounding: Rounding)
    requires x.e <= 0 && x.mantissa > 0 && 0 < sd < WholeDigits(x) && rounding != RoundDown
    ensures ToSignificant(x, sd, rounding) == Ok(PadEnd(NatDigits(SignificantCut(x, sd, rounding)), WholeDigits(x)))
  {
    var n := Abs(Truncated(x, 0));
    var W := WholeDigits(x);
    var k: nat := W - sd;
    var s := Rendered(x, sd + 1, false);
    var Q := LeadingCut(n, k, rounding);
    assert Q == SignificantCut(x, sd, rounding);
    assert ToSignificant(x, sd, rounding) == WholeNumberPath(s, sd, rounding) &&
      W < |s| && s[..W] == NatDigits(n) && IndexOf(s, '.') == W && W == |NatDigits(n)| by {
      WholeDigitsSpelled(x);
      WholePathTaken(x, sd, rounding);
      assert SignPrefix(x.mantissa) == "";
      assert SignPrefix(x.mantissa) + NatDigits(n) == NatDigits(n);
    }
    WholeRoundText(s, n, sd, W, k, rounding);
  }

  /** The rounding branch of the whole-number path on a rendering whose first W
      characters are the canonical digits of n and whose '.' follows them. */
  lemma WholeRoundText(s: string, n: nat, sd: nat, W: nat, k: nat, rounding: Rounding)
    requires W == |NatDigits(n)| && 0 < sd < W && k == W - sd && rounding != RoundDown
    requires W < |s| && s[..W] == NatDigits(n) && IndexOf(s, '.') == W
    ensures WholeNumberPath(s, sd, rounding) == Ok(PadEnd(NatDigits(LeadingCut(n, k, rounding)), W))
  {
    var u := ShiftRight(n, k - 1);
    var t := NatDigits(u / 10) + "." + [DigitChar(u % 10)];
    WholeRoundPieces(s, n, sd, W, k);
    ExtraDigitRead(u, t);
    assert Prefix(s, sd) + "." + CharAt(s, sd) == t;
    ZeroPlaceRound(FromString(t).value, u, rounding);
  }

  /** The first sd characters of such a rendering spell n with its low k digits
      dropped, and the next character is the first digit dropped. */
  lemma WholeRoundPieces(s: string, n: nat, sd: nat, W: nat, k: nat)
    requires W == |NatDigits(n)| && 0 < sd < W && k == W - sd
    requires W < |s| && s[..W] == NatDigits(n)
    ensures var u := ShiftRight(n, k - 1);
      u >= 10 && ShiftRight(n, k) == u / 10 &&
      Prefix(s, sd) == NatDigits(u / 10) && CharAt(s, sd) == [DigitChar(u % 10)] &&
      forall rounding :: LeadingCut(n, k, rounding) == LeadingCut(u, 1, rounding)
  {
    var d := NatDigits(n);
    var j: nat := k - 1;
    var hi, u := ShiftRight(n, k), ShiftRight(n, j);
    NatDigitsPrefix(n, k);
    NatDigitsPrefix(n, j);
    assert d[..sd] == NatDigits(hi) && d[..sd + 1] == NatDigits(u);
    ShiftAdd(n, j, 1);
    assert hi == u / 10 && u >= 10;
    assert d[..sd + 1] == d[..sd] + [d[sd]];
    assert Prefix(s, sd) == d[..sd] && CharAt(s, sd) == [d[sd]];
  }

  /** "<digits of u / 10>.<last digit of u>" reads back as u tenths: exponent 0
      when that digit is '0' (the trailing zero is dropped), -1 otherwise. */
  lemma ExtraDigitRead(u: nat, t: string)
    requires u >= 10 && t == NatDigits(u / 10) + "." + [DigitChar(u % 10)]
    ensures FromString(t).Ok? && FromString(t).value.mantissa > 0 &&
      -1 <= FromString(t).value.e <= 0 && Units(FromString(t).value, -1) == u
  {
    var ip, c := NatDigits(u / 10), DigitChar(u % 10);
    LastDigitSplit(u);
    UnsignedSplit(ip, [c], t);
    LastDigitRead(ip, c, u);
  }

  /** An unsigned literal with '.' reads as its two digit runs. */
  lemma UnsignedSplit(ip: string, fp: string, t: string)
    requires AllDigits(ip) && t == ip + "." + fp
    ensures FromString(t) == FromDecimal(false, ip, fp)
  {
    DecimalBody(ip, fp);
    assert Minus(false) + t == t;
    SignRead(false, t);
    ReadSplit(t, false, t);
  }

  /** The digits of u >= 10 are those of u / 10 and the digit of u % 10. */
  lemma LastDigitSplit(u: nat)
    requires u >= 10
    ensures NatDigits(u) == NatDigits(u / 10) + [DigitChar(u % 10)]
    ensures IsDigit(DigitChar(u % 10))
  {
  }

  /** Canonical digits ip and one more digit c, read as "ip.c". */
  lemma LastDigitRead(ip: string, c: char, u: nat)
    requires AllDigits(ip) && ip != [] && ip[0] != '0' && IsDigit(c)
    requires ip + [c] == NatDigits(u)
    ensures var r := FromDecimal(false, ip, [c]);
      r.Ok? && r.value.mantissa > 0 && -1 <= r.value.e <= 0 && Units(r.value, -1) == u
  {
    LeadingKept(ip);
    NatDigitsValue(u);
    if c == '0' {
      assert WithoutTrailingZeros([c]) == [];
      ParsePayload(false, ip, []);
      assert ip + [] == ip;
      assert DigitsValue(ip + [c]) == DigitsValue(ip) * 10;
    } else {
      TrailingKept([c]);
      ParsePayload(false, ip, [c]);
    }
  }

  /** A positive value with at most one fraction digit, u tenths, rounds to 0
      places as u with its last digit dropped and rounded on that digit. */
  lemma ZeroPlaceRound(y: BigFloat, u: nat, rounding: Rounding)
    requires y.mantissa > 0 && -1 <= y.e <= 0 && Units(y, -1) == u
    ensures FixedText(y, 0, rounding) == NatDigits(LeadingCut(u, 1, rounding))
  {
    TruncatedExact(y, 1);
    TruncStep(y, 0);
    TruncatedBounds(y, 0);
    assert Truncated(y, 0) == u / 10;
    assert ShiftRight(u, 1) == u / 10;
    var Q := LeadingCut(u, 1, rounding);
    assert Rounded(y, 0, rounding) == Q;
    assert ShiftRight(Q, 0) == Q;
  }

  /** Whenever the rounded leading digits do not carry into an extra digit,
      toSignificant's whole-number path gives the intended text under every
      policy: the rounded leading digits followed by one '0' per dropped
      digit. */
  lemma SignificantWholeAgrees(x: BigFloat, sd: nat, rounding: Rounding)
    requires x.e <= 0 && x.mantissa > 0 && 0 < sd < WholeDigits(x)
    requires SignificantCut(x, sd, rounding) < Pow10(sd)
    ensures ToSignificant(x, sd, rounding) == Ok(SignificantWhole(x, sd, rounding))
  {
    WholeTextAgrees(x, sd, rounding);
    if rounding == RoundDown {
      SignificantWholeDown(x, sd);
    } else {
      SignificantWholeRounded(x, sd, rounding);
    }
  }

  /** The texts both paths of toSignificant produce are the intended one when
      the rounded leading digits do not carry. */
  lemma WholeTextAgrees(x: BigFloat, sd: nat, rounding: Rounding)
    requires x.e <= 0 && x.mantissa > 0 && 0 < sd < WholeDigits(x)
    requires SignificantCut(x, sd, rounding) < Pow10(sd)
    ensures var n, k := Abs(Truncated(x, 0)), WholeDigits(x) - sd;
      rounding == RoundDown ==> NatDigits(ShiftRight(n, k) * Pow10(k)) == SignificantWhole(x, sd, rounding)
    ensures rounding != RoundDown ==>
      PadEnd(NatDigits(SignificantCut(x, sd, rounding)), WholeDigits(x)) == SignificantWhole(x, sd, rounding)
  {
    var n := Abs(Truncated(x, 0));
    var W := WholeDigits(x);
    var k: nat := W - sd;
    var Q := SignificantCut(x, sd, rounding);
    assert SignificantWhole(x, sd, rounding) == NatDigits(Q) + Zeros(k) &&
      W == |NatDigits(n)| && Q == LeadingCut(n, k, rounding) by {
      WholeDigitsSpelled(x);
      assert SignPrefix(x.mantissa) == "";
    }
    if rounding == RoundDown {
      LeadingCutSpelled(n, k, rounding);
    } else {
      PaddedCut(n, sd, W, k, Q);
    }
  }

  /** A cut Q of n that keeps sd digits and has not carried into another
      spells, padded to the width W of n, as Q's digits and W - sd zeros. */
  lemma PaddedCut(n: nat, sd: nat, W: nat, k: nat, Q: nat)
    requires W == |NatDigits(n)| && 0 < sd < W && k == W - sd
    requires ShiftRight(n, k) <= Q < Pow10(sd)
    ensures PadEnd(NatDigits(Q), W) == NatDigits(Q) + Zeros(k)
  {
    CutWidth(n, sd, k, Q);
    assert PadEnd(NatDigits(Q), W) == NatDigits(Q) + Zeros(W - sd);
  }

  /** A cut between the leading sd digits and 10^sd has exactly sd digits. */
  lemma CutWidth(n: nat, sd: nat, k: nat, Q: nat)
    requires 0 < sd && 0 < k && sd + k == |NatDigits(n)|
    requires ShiftRight(n, k) <= Q < Pow10(sd)
    ensures |NatDigits(Q)| == sd
  {
    var hi := ShiftRight(n, k);
    NatDigitsPrefix(n, k);
    assert |NatDigits(hi)| == sd && NatDigits(hi)[0] == NatDigits(n)[0];
    assert n > 0 && hi > 0;
    DigitCountBound(hi, sd - 1);
    DigitCountBound(Q, sd);
    DigitCountBound(Q, sd - 1);
  }

  /** toSignificant on a rendering s that counts more integer digits than
      requested is the whole-number path on s. */
  lemma WholePathOf(x: BigFloat, sd: nat, rounding: Rounding, s: string)
    requires s == Rendered(x, sd + 1, false)
    requires 0 < sd < IntegerDigitCount(s, IsNegative(x))
    ensures ToSignificant(x, sd, rounding) == WholeNumberPath(s, sd, rounding)
  {
  }

  /** The source counts the '-' of a negative value as a digit: -12 to one
      significant digit, ROUND_DOWN, gives "-00" where "-10" is meant. */
  lemma SignificantSignLost(x: BigFloat)
    requires x == BigFloat(-12, 0)
    ensures ToSignificant(x, 1, RoundDown) == Ok("-00")
    ensures WholeDigits(x) == 2 && SignificantWhole(x, 1, RoundDown) == "-10"
  {
    SignLostAt(x);
    SignLostIntended(x);
  }

  /** As written, for a negative value the ROUND_DOWN whole-number path keeps
      the '-' and only sd - 1 digits, then pads with '0' up to the '.'. */
  lemma SignificantSignLostDown(x: BigFloat, sd: nat)
    requires x.e <= 0 && x.mantissa < 0 && 0 < sd < WholeDigits(x)
    ensures var n := Abs(Truncated(x, 0));
      ToSignificant(x, sd, RoundDown) == Ok("-" + NatDigits(n)[..sd - 1] + Zeros(WholeDigits(x) + 1 - sd))
  {
    var n := Abs(Truncated(x, 0));
    WholeDigitsSpelled(x);
    WholePathTaken(x, sd, RoundDown);
    var s := Rendered(x, sd + 1, false);
    NegativeDownText(s, x.mantissa, NatDigits(n), sd, WholeDigits(x));
  }

  /** The ROUND_DOWN cut of a rendering that starts with '-' and the digits d,
      the '.' right after them. */
  lemma NegativeDownText(s: string, m: int, d: string, sd: nat, W: nat)
    requires m < 0 && W == |d| && 0 < sd < W
    requires |SignPrefix(m) + d| < |s| && s[..|SignPrefix(m) + d|] == SignPrefix(m) + d
    requires IndexOf(s, '.') == |SignPrefix(m) + d|
    ensures WholeNumberPath(s, sd, RoundDown) == Ok("-" + d[..sd - 1] + Zeros(W + 1 - sd))
  {
    assert SignPrefix(m) + d == "-" + d;
    var t := "-" + d[..sd - 1];
    NegativeHead(s, d, sd);
    DownPath(s, sd, t, W + 1);
    assert PadEnd(t, W + 1) == t + Zeros(W + 1 - sd);
  }

  /** The first sd characters of a text that starts with '-' and the digits d. */
  lemma NegativeHead(s: string, d: string, sd: nat)
    requires 0 < sd < |d| && |d| + 1 < |s| && s[..|d| + 1] == "-" + d
    ensures Prefix(s, sd) == "-" + d[..sd - 1]
  {
    var head := s[..|d| + 1];
    assert Prefix(s, sd) == head[..sd];
  }

  /** The ROUND_DOWN whole-number path pads the first sd characters, t, up to
      the '.' at position w. */
  lemma DownPath(s: string, sd: nat, t: string, w: int)
    requires Prefix(s, sd) == t && IndexOf(s, '.') == w
    ensures WholeNumberPath(s, sd, RoundDown) == Ok(PadEnd(t, w))
  {
  }

  /** The integer text of -Q: "0" for a zero Q, which keeps no sign. */
  function NegatedText(Q: nat): string {
    if Q == 0 then "0" else "-" + NatDigits(Q)
  }

  /** As written, ROUND_HALF_UP and ROUND_UP on the whole-number path also
      take the '-' of a negative value as one of the first sd characters: the
      reread text is "-", sd - 1 digits, '.' and the sd-th digit, so one digit
      fewer is kept, the rounding falls on the sd-th digit, and the sign is
      dropped when those digits round to zero.  -12 to one digit gives "000",
      -325 to two gives "-300". */
  lemma SignificantSignLostRounded(x: BigFloat, sd: nat, rounding: Rounding)
    requires x.e <= 0 && x.mantissa < 0 && 0 < sd < WholeDigits(x) && rounding != RoundDown
    ensures ToSignificant(x, sd, rounding) ==
      Ok(PadEnd(NegatedText(LeadingCut(ShiftRight(Abs(Truncated(x, 0)), WholeDigits(x) - sd), 1, rounding)), WholeDigits(x) + 1))
  {
    SignLostRoundedAt(x, sd, rounding, Rendered(x, sd + 1, false), Abs(Truncated(x, 0)), WholeDigits(x));
  }

  /** The same, with the rendering, the integer part and its width named. */
  lemma SignLostRoundedAt(x: BigFloat, sd: nat, rounding: Rounding, s: string, n: nat, W: nat)
    requires x.e <= 0 && x.mantissa < 0 && 0 < sd < WholeDigits(x) && rounding != RoundDown
    requires s == Rendered(x, sd + 1, false) && n == Abs(Truncated(x, 0)) && W == WholeDigits(x)
    ensures ToSignificant(x, sd, rounding) == Ok(PadEnd(NegatedText(LeadingCut(ShiftRight(n, W - sd), 1, rounding)), W + 1))
  {
    NegativePathTaken(x, sd, rounding);
    NegativeRoundText(s, x.mantissa, n, sd, W, rounding);
  }

  /** For a negative value the whole-number path runs on a text that starts
      with '-' and the digits of the integer part, '.' right after them. */
  lemma NegativePathTaken(x: BigFloat, sd: nat, rounding: Rounding)
    requires x.e <= 0 && x.mantissa < 0 && 0 < sd < WholeDigits(x)
    ensures var n, s := Abs(Truncated(x, 0)), Rendered(x, sd + 1, false);
      var head := SignPrefix(x.mantissa) + NatDigits(n);
      ToSignificant(x, sd, rounding) == WholeNumberPath(s, sd, rounding) &&
      WholeDigits(x) == |NatDigits(n)| && |head| < |s| && s[..|head|] == head && IndexOf(s, '.') == |head|
  {
    WholeDigitsSpelled(x);
    WholePathTaken(x, sd, rounding);
  }

  /** The rounding branch of the whole-number path on a rendering that starts
      with '-' and the canonical digits of n, the '.' right after them. */
  lemma NegativeRoundText(s: string, m: int, n: nat, sd: nat, W: nat, rounding: Rounding)
    requires m < 0 && W == |NatDigits(n)| && 0 < sd < W && rounding != RoundDown
    requires |SignPrefix(m) + NatDigits(n)| < |s| && s[..|SignPrefix(m) + NatDigits(n)|] == SignPrefix(m) + NatDigits(n)
    requires IndexOf(s, '.') == |SignPrefix(m) + NatDigits(n)|
    ensures WholeNumberPath(s, sd, rounding) ==
      Ok(PadEnd(NegatedText(LeadingCut(ShiftRight(n, W - sd), 1, rounding)), W + 1))
  {
    var d := NatDigits(n);
    var ip, c := d[..sd - 1], d[sd - 1];
    var u := ShiftRight(n, W - sd);
    NegativeReread(s, m, n, sd, W);
    var t := Minus(true) + ip + "." + [c];
    SignedExtraRead(true, ip, c, u);
    var y := FromString(t).value;
    RoundPath(s, sd, rounding, t, y);
    NegativePlaceRound(y, u, rounding);
  }

  /** The reread text of such a rendering is "-", the first sd - 1 digits, '.'
      and the sd-th digit; those sd digits spell n's leading part u. */
  lemma NegativeReread(s: string, m: int, n: nat, sd: nat, W: nat)
    requires m < 0 && W == |NatDigits(n)| && 0 < sd < W
    requires |SignPrefix(m) + NatDigits(n)| < |s| && s[..|SignPrefix(m) + NatDigits(n)|] == SignPrefix(m) + NatDigits(n)
    ensures var d, u := NatDigits(n), ShiftRight(n, W - sd);
      Prefix(s, sd) + "." + CharAt(s, sd) == Minus(true) + d[..sd - 1] + "." + [d[sd - 1]] &&
      d[..sd - 1] + [d[sd - 1]] == NatDigits(u) && u > 0
  {
    var d := NatDigits(n);
    assert SignPrefix(m) + d == "-" + d;
    var u := ShiftRight(n, W - sd);
    var ip, c := d[..sd - 1], d[sd - 1];
    NatDigitsPrefix(n, W - sd);
    assert ip + [c] == NatDigits(u) by {
      assert d[..sd] == d[..sd - 1] + [d[sd - 1]];
    }
    ExtraDigitText(s, "-" + d, sd);
    assert ("-" + d)[..sd] == "-" + ip && ("-" + d)[sd] == c;
  }

  /** The rounding branch of the whole-number path on a reread text t that
      reads as y: y rounded to 0 places and padded up to the '.'. */
  lemma RoundPath(s: string, sd: nat, rounding: Rounding, t: string, y: BigFloat)
    requires rounding != RoundDown && Prefix(s, sd) + "." + CharAt(s, sd) == t && FromString(t) == Ok(y)
    ensures WholeNumberPath(s, sd, rounding) == Ok(PadEnd(FixedText(y, 0, rounding), IndexOf(s, '.')))
  {
  }



  /** "<sign><ip>.<c>", where ip + [c] are the canonical digits of u, reads
      back as u tenths with that sign. */
  lemma SignedExtraRead(neg: bool, ip: string, c: char, u: nat)
    requires ip + [c] == NatDigits(u) && u > 0
    ensures var r := FromString(Minus(neg) + ip + "." + [c]);
      r.Ok? && -1 <= r.value.e <= 0 && Units(r.value, -1) == Signed(neg, u)
  {
    SplitDigits(ip, [c], u);
    FromStringDecimal(neg, ip, [c]);
  }

  /** Both pieces of a canonical spelling are digit strings, and together
      they spell a non-zero value. */
  lemma SplitDigits(ip: string, fp: string, u: nat)
    requires ip + fp == NatDigits(u) && u > 0
    ensures AllDigits(ip) && AllDigits(fp) && DigitsValue(ip + fp) == u != 0
  {
    var d := ip + fp;
    assert forall i :: 0 <= i < |ip| ==> ip[i] == d[i];
    assert forall i :: 0 <= i < |fp| ==> fp[i] == d[|ip| + i];
    NatDigitsValue(u);
  }

  /** A negative value of -u tenths, at most one fraction digit, rounds to 0
      places as -Q, Q being u with its last digit dropped and rounded on it,
      a zero Q is written without its sign. */
  lemma NegativePlaceRound(y: BigFloat, u: nat, rounding: Rounding)
    requires u > 0 && -1 <= y.e <= 0 && Units(y, -1) == -(u as int)
    ensures FixedText(y, 0, rounding) == NegatedText(LeadingCut(u, 1, rounding))
  {
    assert y.mantissa < 0 by {
      if y.e == 0 {
        assert Units(y, -1) == y.mantissa * 10;
      } else {
        assert Units(y, -1) == y.mantissa;
      }
    }
    assert Abs(Truncated(y, 1)) == u by {
      TruncatedExact(y, 1);
    }
    assert Truncated(y, 0) == -((u / 10) as int) by {
      TruncStep(y, 0);
    }
    assert NextDigit(y, 0) == ShiftRight(u, 0) % 10;
    assert ShiftRight(u, 1) == u / 10;
    var Q := LeadingCut(u, 1, rounding);
    assert Rounded(y, 0, rounding) == -(Q as int);
    assert ShiftRight(Q, 0) == Q;
  }

  /** -12 to one significant digit, ROUND_HALF_UP, gives "000": the '-' takes
      the one place, "-.1" reads as -0.1 and rounds to "0". */
  lemma SignificantSignLostHalfUp(x: BigFloat)
    requires x == BigFloat(-12, 0)
    ensures ToSignificant(x, 1, RoundHalfUp) == Ok("000")
    ensures WholeDigits(x) == 2 && SignificantWhole(x, 1, RoundHalfUp) == "-10"
  {
    HalfUpLostAt(x);
    HalfUpIntended(x);
  }

  lemma HalfUpLostAt(x: BigFloat)
    requires x == BigFloat(-12, 0)
    ensures ToSignificant(x, 1, RoundHalfUp) == Ok("000")
  {
    assert NatDigits(12) == "12";
    IntegerWhole(x);
    assert Abs(Truncated(x, 0)) == 12 && WholeDigits(x) == 2;
    SignLostRoundedAt(x, 1, RoundHalfUp, Rendered(x, 2, false), 12, 2);
    SpelledZeros();
  }

  lemma SpelledZeros()
    ensures PadEnd(NegatedText(LeadingCut(ShiftRight(12, 1), 1, RoundHalfUp)), 3) == "000"
  {
    assert ShiftRight(12, 1) == 1 && LeadingCut(1, 1, RoundHalfUp) == 0;
    assert Zeros(2) == "00";
  }

  lemma SameCut()
    ensures LeadingCut(12, 1, RoundHalfUp) == LeadingCut(12, 1, RoundDown)
  {
    assert ShiftRight(12, 0) % 10 == 2;
  }

  lemma HalfUpIntended(x: BigFloat)
    requires x == BigFloat(-12, 0)
    ensures WholeDigits(x) == 2 && SignificantWhole(x, 1, RoundHalfUp) == "-10"
  {
    SignLostIntended(x);
    assert NatDigits(12) == "12";
    CutOfInteger(x, 1, RoundHalfUp, 12, 1);
    CutOfInteger(x, 1, RoundDown, 12, 1);
    SameCut();
  }


  /** The integer part of an integer-valued x is its mantissa. */
  lemma IntegerWhole(x: BigFloat)
    requires x.e == 0 && x.mantissa != 0
    ensures Truncated(x, 0) == x.mantissa && WholeDigits(x) == |NatDigits(Abs(x.mantissa))|
  {
    assert Places(x) == 0;
    assert TruncScaled(Abs(x.mantissa), 0, 0) == Abs(x.mantissa);
  }

  // The examples are stated on a variable equal to the literal, so that the
  // verifier does not unfold every function of it at once.
  lemma SignLostAt(x: BigFloat)
    requires x == BigFloat(-12, 0)
    ensures ToSignificant(x, 1, RoundDown) == Ok("-00")
  {
    assert NatDigits(12) == "12";
    IntegerWhole(x);
    assert Abs(Truncated(x, 0)) == 12 && WholeDigits(x) == 2;
    SignificantSignLostDown(x, 1);
    SpelledMinusZeros("12");
  }

  lemma SignLostIntended(x: BigFloat)
    requires x == BigFloat(-12, 0)
    ensures WholeDigits(x) == 2 && SignificantWhole(x, 1, RoundDown) == "-10"
  {
    assert NatDigits(12) == "12";
    IntegerWhole(x);
    assert ShiftRight(12, 1) == 1;
    assert LeadingCut(12, 1, RoundDown) == 1;
    assert NatDigits(1) == "1";
    assert SignPrefix(x.mantissa) == "-";
    assert WholeDigits(x) == 2;
    assert SignificantCut(x, 1, RoundDown) == 1;
    assert Zeros(1) == "0";
    assert SignificantWhole(x, 1, RoundDown) == "-" + "1" + "0";
    SpelledMinusTen();
  }

  lemma SpelledMinusZeros(d: string)
    requires d == "12"
    ensures "-" + d[..0] + Zeros(2) == "-00"
  {
    assert "-" + d[..0] == "-";
    assert Zeros(2) == "00";
  }

  lemma SpelledMinusTen()
    ensures "-" + "1" + "0" == "-10"
  {
  }

  /** The source pads the rounded digits back to the old width, so a carry
      that adds a digit loses one '0': 9999 to two significant digits,
      ROUND_HALF_UP, gives "1000" where "10000" is meant. */
  lemma SignificantCarryLost(x: BigFloat)
    requires x == BigFloat(9999, 0)
    ensures ToSignificant(x, 2, RoundHalfUp) == Ok("1000")
    ensures WholeDigits(x) == 4 && SignificantWhole(x, 2, RoundHalfUp) == "10000"
  {
    CarryLostAt(x);
    CarryLostIntended(x);
  }

  lemma CarryLostAt(x: BigFloat)
    requires x == BigFloat(9999, 0)
    ensures ToSignificant(x, 2, RoundHalfUp) == Ok("1000")
  {
    IntegerWhole(x);
    NinesRounded(x);
  }

  /** Any positive value with integer part 9999, to two significant digits,
      half up: the cut 99|9 rounds to 100, padded to the four whole digits. */
  lemma NinesRounded(x: BigFloat)
    requires x.e <= 0 && x.mantissa > 0 && Truncated(x, 0) == 9999
    ensures ToSignificant(x, 2, RoundHalfUp) == Ok("1000")
  {
    NinesCut(x);
    SignificantWholeRounded(x, 2, RoundHalfUp);
  }

  lemma NinesCut(x: BigFloat)
    requires x.e <= 0 && x.mantissa > 0 && Truncated(x, 0) == 9999
    ensures WholeDigits(x) == 4 && 2 < WholeDigits(x)
    ensures PadEnd(NatDigits(SignificantCut(x, 2, RoundHalfUp)), WholeDigits(x)) == "1000"
  {
    assert WholeDigits(x) == 4 && SignificantCut(x, 2, RoundHalfUp) == 100 by {
      CarryCut();
    }
    ThousandPadded();
  }

  lemma CarryLostIntended(x: BigFloat)
    requires x == BigFloat(9999, 0)
    ensures WholeDigits(x) == 4 && SignificantWhole(x, 2, RoundHalfUp) == "10000"
  {
    assert NatDigits(9999) == "9999";
    CutOfInteger(x, 2, RoundHalfUp, 9999, 2);
    CarryCut();
    assert SignPrefix(x.mantissa) == "";
    SpelledTenThousand();
  }

  /** The intended whole-number path on an integer-valued x with magnitude n. */
  lemma CutOfInteger(x: BigFloat, sd: nat, rounding: Rounding, n: nat, k: nat)
    requires x.e == 0 && Abs(x.mantissa) == n && n > 0
    requires 0 < sd < |NatDigits(n)| && k == |NatDigits(n)| - sd
    ensures WholeDigits(x) == |NatDigits(n)|
    ensures SignificantWhole(x, sd, rounding) == SignPrefix(x.mantissa) + NatDigits(LeadingCut(n, k, rounding)) + Zeros(k)
  {
    IntegerWhole(x);
  }

  lemma CarryCut()
    ensures |NatDigits(9999)| == 4 && LeadingCut(9999, 2, RoundHalfUp) == 100
  {
    assert NatDigits(9999) == "9999";
    assert ShiftRight(999, 0) == 999;
    assert ShiftRight(9999, 1) == 999;
    assert ShiftRight(99, 0) == 99;
    assert ShiftRight(999, 1) == 99;
    assert ShiftRight(9999, 2) == 99;
  }

  lemma SpelledTenThousand()
    ensures "" + NatDigits(100) + Zeros(2) == "10000"
  {
    assert NatDigits(100) == "100" && Zeros(2) == "00";
  }

  lemma ThousandPadded()
    ensures PadEnd(NatDigits(100), 4) == "1000"
  {
    assert NatDigits(100) == "100" && Zeros(1) == "0";
  }
}

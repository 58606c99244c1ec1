/** BigFloat.fromString (assembly/BigFloat.ts:23-47): an optional '-', then
    either an integer literal or a literal with one '.', whose integer part
    loses its leading zeros and whose fraction loses its trailing zeros. */
module Parsing {
  import opened Outcomes
  import opened Digits
  import opened Text
  import opened Trimming
  import opened BigInts
  import opened BigFloats

  /** fromString: strip a leading '-', then read an integer literal when there
      is no '.', or split at the first '.' otherwise. */
  function FromString(text: string): (r: Result<BigFloat>)
    ensures r.Ok? ==> r.value.e <= 0
  {
    var neg := CharAt(text, 0) == "-";
    FromBody(neg, if neg then text[1..] else text)
  }

  /** The text after the sign: an integer literal, or split at the first '.'. */
  function FromBody(neg: bool, body: string): (r: Result<BigFloat>)
    ensures r.Ok? ==> r.value.e <= 0
  {
    var i := IndexOf(body, '.');
    if i == -1 then FromInteger(neg, body)
    else FromDecimal(neg, body[..i], body[i + 1..])
  }

  /** The branch without '.': the sign is put back and the backend reads the rest. */
  function FromInteger(neg: bool, body: string): Result<BigFloat> {
    match ParseInt(Minus(neg) + body)
    case None => Err(MalformedNumber)
    case Some(m) => Ok(BigFloat(m, 0))
  }

  /** The branch with '.': leading zeros of the integer part and trailing zeros of
      the fraction are dropped, the rest is read as one integer, and the exponent
      is minus the length of the fraction that remains. */
  function FromDecimal(neg: bool, ip: string, fp: string): (r: Result<BigFloat>)
    ensures r.Ok? ==> r.value.e <= 0
  {
    FromPayload(neg, WithoutLeadingZeros(ip), WithoutTrailingZeros(fp))
  }

  /** The trimmed integer part and fraction, joined behind the sign, read as one
      integer whose exponent is minus the length of the trimmed fraction. */
  function FromPayload(neg: bool, pre: string, post: string): (r: Result<BigFloat>)
    ensures r.Ok? ==> r.value.e == -|post|
  {
    match ParseInt(Minus(neg) + pre + post)
    case None => Err(MalformedNumber)
    case Some(m) => Ok(BigFloat(m, -|post|))
  }

  /** An integer literal reads as itself with exponent 0. */
  lemma FromStringInteger(neg: bool, digits: string)
    requires digits != [] && AllDigits(digits)
    ensures FromString(Minus(neg) + digits) == Ok(BigFloat(Signed(neg, DigitsValue(digits)), 0))
  {
    var text := Minus(neg) + digits;
    assert CharAt(text, 0) == "-" <==> neg;
    var body := if neg then text[1..] else text;
    assert body == digits;
    NotInDigits(digits, '.');
    ParseIntDigits(neg, digits);
  }

  /** The sign is read off a text whose rest does not start with '-'. */
  lemma SignRead(neg: bool, rest: string)
    requires rest == [] || rest[0] != '-'
    ensures var text := Minus(neg) + rest;
      (CharAt(text, 0) == "-") == neg && (if neg then text[1..] else text) == rest
  {
  }

  /** A literal with a '.' is read by the decimal branch, split at that '.'. */
  lemma FromStringSplits(neg: bool, ip: string, fp: string)
    requires AllDigits(ip)
    ensures FromString(Minus(neg) + ip + "." + fp) == FromDecimal(neg, ip, fp)
  {
    var body := ip + "." + fp;
    DecimalBody(ip, fp);
    SignRead(neg, body);
    SignedText(Minus(neg), ip, fp);
    ReadSplit(Minus(neg) + body, neg, body);
  }

  /** A literal's text after the sign: its first '.' follows the integer digits. */
  lemma DecimalBody(ip: string, fp: string)
    requires AllDigits(ip)
    ensures var body := ip + "." + fp;
      body[0] != '-' && IndexOf(body, '.') == |ip| && body[..|ip|] == ip && body[|ip| + 1..] == fp
  {
    var body := ip + "." + fp;
    if ip != [] {
      assert body[0] == ip[0] && IsDigit(ip[0]);
    }
    NotInDigits(ip, '.');
    IndexOfAfter(ip, '.', fp);
  }

  lemma SignedText(sign: string, ip: string, fp: string)
    ensures sign + ip + "." + fp == sign + (ip + "." + fp)
  {
  }

  /** fromString on a text whose sign and body are known, the body holding a '.'. */
  lemma ReadSplit(text: string, neg: bool, body: string)
    requires (CharAt(text, 0) == "-") == neg && (if neg then text[1..] else text) == body
    requires IndexOf(body, '.') >= 0
    ensures var i := IndexOf(body, '.');
      FromString(text) == FromDecimal(neg, body[..i], body[i + 1..])
  {
  }

  lemma ScaledSum(a: nat, b: nat, p: nat, z: nat)
    ensures (a * Pow10(p) + b) * Pow10(z) == a * Pow10(p + z) + b * Pow10(z)
  {
    Pow10Add(p, z);
    MulAssoc(a, Pow10(p), Pow10(z));
    MulDistrib(a * Pow10(p), b, Pow10(z));
  }

  /** Trimming the integer part's leading zeros and the fraction's trailing zeros
      divides the literal's digit value by the power of ten of the zeros dropped. */
  lemma PayloadValue(ip: string, fp: string)
    requires AllDigits(ip) && AllDigits(fp)
    ensures var pre, post := WithoutLeadingZeros(ip), WithoutTrailingZeros(fp);
      AllDigits(pre + post) &&
      DigitsValue(ip + fp) == DigitsValue(pre + post) * Pow10(|fp| - |post|)
  {
    var pre, post := WithoutLeadingZeros(ip), WithoutTrailingZeros(fp);
    LeadingDigits(ip);
    TrailingDigits(fp);
    DigitsValueAppend(ip, fp);
    DigitsValueAppend(pre, post);
    ScaledSum(DigitsValue(pre), DigitsValue(post), |post|, |fp| - |post|);
  }

  /** A signed count of units of 10^-q, restated in units of 10^-w. */
  lemma UnitsOfSigned(x: BigFloat, neg: bool, n: nat, q: nat, w: nat, N: nat)
    requires x.mantissa == Signed(neg, n) && x.e == -(q as int) && q <= w
    requires N == n * Pow10(w - q)
    ensures Units(x, -(w as int)) == Signed(neg, N)
  {
    if neg {
      MulNegate(n, Pow10(w - q));
    }
  }

  /** The payload is empty exactly when every digit of the literal is zero. */
  lemma PayloadEmpty(ip: string, fp: string)
    requires AllDigits(ip) && AllDigits(fp)
    ensures WithoutLeadingZeros(ip) + WithoutTrailingZeros(fp) == [] <==> DigitsValue(ip + fp) == 0
  {
    DigitsValueAppend(ip, fp);
    MulCancel(DigitsValue(ip), 0, Pow10(|fp|));
    LeadingEmpty(ip);
    TrailingEmpty(fp);
  }

  /** The trimmed payload of a digit literal is still made of digits. */
  lemma PayloadDigits(ip: string, fp: string)
    requires AllDigits(ip) && AllDigits(fp)
    ensures AllDigits(WithoutLeadingZeros(ip) + WithoutTrailingZeros(fp))
  {
    LeadingDigits(ip);
    TrailingDigits(fp);
    DigitsValueAppend(WithoutLeadingZeros(ip), WithoutTrailingZeros(fp));
  }

  /** With a non-empty payload the decimal branch succeeds. */
  lemma FromDecimalOk(neg: bool, ip: string, fp: string)
    requires AllDigits(ip) && AllDigits(fp) && DigitsValue(ip + fp) != 0
    ensures var pre, post := WithoutLeadingZeros(ip), WithoutTrailingZeros(fp);
      var r := FromDecimal(neg, ip, fp);
      AllDigits(pre + post) && r.Ok? &&
      r.value.mantissa == Signed(neg, DigitsValue(pre + post)) && r.value.e == -|post|
  {
    var pre, post := WithoutLeadingZeros(ip), WithoutTrailingZeros(fp);
    PayloadDigits(ip, fp);
    PayloadEmpty(ip, fp);
    ParsePayload(neg, pre, post);
  }

  /** A non-empty digit payload is read as its digit value with the sign. */
  lemma ParsePayload(neg: bool, pre: string, post: string)
    requires pre + post != [] && AllDigits(pre + post)
    ensures var r := FromPayload(neg, pre, post);
      r.Ok? && r.value.mantissa == Signed(neg, DigitsValue(pre + post)) && r.value.e == -|post|
  {
    JoinedPayload(Minus(neg), pre, post);
    ParseIntDigits(neg, pre + post);
  }

  lemma JoinedPayload(sign: string, pre: string, post: string)
    ensures sign + pre + post == sign + (pre + post)
  {
  }

  /** The decimal branch on a payload with a non-zero digit: exponent at most 0 and,
      counted in units of the last written place, exactly the literal's digits. */
  lemma FromDecimalValue(neg: bool, ip: string, fp: string)
    requires AllDigits(ip) && AllDigits(fp) && DigitsValue(ip + fp) != 0
    ensures var r := FromDecimal(neg, ip, fp);
      r.Ok? && -|fp| <= r.value.e <= 0 &&
      Units(r.value, -|fp|) == Signed(neg, DigitsValue(ip + fp)) &&
      r.value.e == -|WithoutTrailingZeros(fp)|
  {
    var pre, post := WithoutLeadingZeros(ip), WithoutTrailingZeros(fp);
    FromDecimalOk(neg, ip, fp);
    PayloadValue(ip, fp);
    var y := FromDecimal(neg, ip, fp).value;
    UnitsOfSigned(y, neg, DigitsValue(pre + post), |post|, |fp|, DigitsValue(ip + fp));
  }

  /** A decimal literal with a non-zero digit reads as a value with exponent at most 0
      that, counted in units of its last written place, is exactly the literal's digits;
      the exponent is minus the length of the fraction without its trailing zeros. */
  lemma FromStringDecimal(neg: bool, ip: string, fp: string)
    requires AllDigits(ip) && AllDigits(fp) && DigitsValue(ip + fp) != 0
    ensures var r := FromString(Minus(neg) + ip + "." + fp);
      r.Ok? && -|fp| <= r.value.e <= 0 &&
      Units(r.value, -|fp|) == Signed(neg, DigitsValue(ip + fp)) &&
      r.value.e == -|WithoutTrailingZeros(fp)|
  {
    FromStringSplits(neg, ip, fp);
    FromDecimalValue(neg, ip, fp);
  }

  /** A literal whose digits are all zero leaves the integer parser an empty payload
      (or a lone '-'), which it rejects: for example "0.0" and "-.000". */
  lemma FromStringAllZeros(neg: bool, ip: string, fp: string)
    requires AllDigits(ip) && AllDigits(fp) && DigitsValue(ip + fp) == 0
    ensures var r := FromString(Minus(neg) + ip + "." + fp);
      r.Err? && r.error == MalformedNumber
  {
    FromStringSplits(neg, ip, fp);
    PayloadEmpty(ip, fp);
    assert Minus(neg) + WithoutLeadingZeros(ip) + WithoutTrailingZeros(fp) == Minus(neg);
  }
}

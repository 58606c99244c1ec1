/** The two private string helpers of BigFloat (assembly/BigFloat.ts,
    "MAINTENANCE FUNCTIONS"): index loops that strip '0' characters from one
    end of a string.  The methods are the loops; the functions of the same
    meaning are what the rest of the model calls. */
module Trimming {
  import opened Digits

  /** s without its leading '0' characters (LeadingShape states what that means). */
  function WithoutLeadingZeros(s: string): (r: string)
    ensures |r| <= |s|
    decreases |s|
  {
    if s != [] && s[0] == '0' then WithoutLeadingZeros(s[1..]) else s
  }

  /** s without its trailing '0' characters (TrailingShape states what that means). */
  function WithoutTrailingZeros(s: string): (r: string)
    ensures |r| <= |s|
    decreases |s|
  {
    if s != [] && s[|s| - 1] == '0' then WithoutTrailingZeros(s[..|s| - 1]) else s
  }

  /** s is a run of zeros followed by the result, and the result does not start with '0'. */
  lemma {:induction false} LeadingShape(s: string)
    ensures var r := WithoutLeadingZeros(s);
      s == Zeros(|s| - |r|) + r && (r == [] || r[0] != '0')
    decreases |s|
  {
    if s != [] && s[0] == '0' {
      var r := WithoutLeadingZeros(s[1..]);
      LeadingShape(s[1..]);
      assert s == "0" + s[1..];
      ZerosCons(|s| - |r|);
    }
  }

  /** s is the result followed by a run of zeros, and the result does not end with '0'. */
  lemma {:induction false} TrailingShape(s: string)
    ensures var r := WithoutTrailingZeros(s);
      s == r + Zeros(|s| - |r|) && (r == [] || r[|r| - 1] != '0')
    decreases |s|
  {
    if s != [] && s[|s| - 1] == '0' {
      TrailingShape(s[..|s| - 1]);
      assert s == s[..|s| - 1] + "0";
    }
  }

  /** trimLeadingZeros: scan i upwards while the character at i is '0'
      (reading past the end gives "", which is not "0"), then return the
      substring from i. */
  method TrimLeadingZeros(str: string) returns (r: string)
    ensures r == WithoutLeadingZeros(str)
    ensures str == Zeros(|str| - |r|) + r && (r == [] || r[0] != '0')
  {
    var i := 0;
    while i <= |str|
      invariant 0 <= i <= |str|
      invariant WithoutLeadingZeros(str[i..]) == WithoutLeadingZeros(str)
      decreases |str| - i
    {
      if i == |str| || str[i] != '0' {
        break;
      }
      assert str[i..][1..] == str[i + 1..];
      i := i + 1;
    }
    r := str[i..];
    LeadingShape(str);
  }

  /** trimTrailingZeros: scan i downwards from the last index while the
      character at i is '0', then return the prefix of length i + 1. */
  method TrimTrailingZeros(str: string) returns (r: string)
    ensures r == WithoutTrailingZeros(str)
    ensures str == r + Zeros(|str| - |r|) && (r == [] || r[|r| - 1] != '0')
  {
    var i := |str| - 1;
    assert str[..i + 1] == str;
    while i >= 0
      invariant -1 <= i < |str|
      invariant WithoutTrailingZeros(str[..i + 1]) == WithoutTrailingZeros(str)
      decreases i
    {
      if str[i] != '0' {
        break;
      }
      assert str[..i + 1][..i] == str[..i];
      i := i - 1;
    }
    r := str[..i + 1];
    TrailingShape(str);
  }

  // ---------------------------------------------------------------------------
  // Facts about the trimmed strings that the parser and renderer rely on.

  /** Trimming removes nothing from a string that does not end with '0'. */
  lemma TrailingKept(s: string)
    requires s == [] || s[|s| - 1] != '0'
    ensures WithoutTrailingZeros(s) == s
  {
  }

  lemma LeadingKept(s: string)
    requires s == [] || s[0] != '0'
    ensures WithoutLeadingZeros(s) == s
  {
  }

  /** Zeros appended to a string disappear again when trailing zeros are trimmed. */
  lemma {:induction false} TrailingOfPadded(s: string, j: nat)
    ensures WithoutTrailingZeros(s + Zeros(j)) == WithoutTrailingZeros(s)
  {
    if j > 0 {
      assert (s + Zeros(j))[..|s + Zeros(j)| - 1] == s + Zeros(j - 1);
      TrailingOfPadded(s, j - 1);
    } else {
      assert s + Zeros(j) == s;
    }
  }

  lemma TrailingIdempotent(s: string)
    ensures WithoutTrailingZeros(WithoutTrailingZeros(s)) == WithoutTrailingZeros(s)
  {
    TrailingShape(s);
    TrailingKept(WithoutTrailingZeros(s));
  }

  lemma LeadingDigits(s: string)
    ensures AllDigits(s) <==> AllDigits(WithoutLeadingZeros(s))
    ensures AllDigits(s) ==> DigitsValue(WithoutLeadingZeros(s)) == DigitsValue(s)
  {
    var r := WithoutLeadingZeros(s);
    LeadingShape(s);
    ZerosBefore(|s| - |r|, r);
  }

  /** The '0's written in front of a string that does not start with '0' are
      exactly what WithoutLeadingZeros drops. */
  lemma {:induction false} ZerosDropped(n: nat, r: string)
    requires r == [] || r[0] != '0'
    ensures WithoutLeadingZeros(Zeros(n) + r) == r
  {
    if n == 0 {
      assert Zeros(0) + r == r;
      LeadingKept(r);
    } else {
      ZerosCons(n);
      assert (Zeros(n) + r)[1..] == Zeros(n - 1) + r;
      ZerosDropped(n - 1, r);
    }
  }

  /** Zeros in front of a digit string leave its value unchanged. */
  lemma ZerosBefore(n: nat, r: string)
    ensures AllDigits(Zeros(n) + r) <==> AllDigits(r)
    ensures AllDigits(r) ==> DigitsValue(Zeros(n) + r) == DigitsValue(r)
  {
    DigitsValueZeros(n);
    ValuelessBefore(Zeros(n), r);
  }

  lemma ValuelessBefore(z: string, r: string)
    requires AllDigits(z) && DigitsValue(z) == 0
    ensures AllDigits(z + r) <==> AllDigits(r)
    ensures AllDigits(r) ==> DigitsValue(z + r) == DigitsValue(r)
  {
    assert (z + r)[|z|..] == r;
    if AllDigits(r) {
      DigitsValueAppend(z, r);
    }
  }

  lemma TrailingDigits(s: string)
    ensures AllDigits(s) <==> AllDigits(WithoutTrailingZeros(s))
    ensures AllDigits(s) ==>
      DigitsValue(s) == DigitsValue(WithoutTrailingZeros(s)) * Pow10(|s| - |WithoutTrailingZeros(s)|)
  {
    var r := WithoutTrailingZeros(s);
    var z := Zeros(|s| - |r|);
    TrailingShape(s);
    if AllDigits(r) {
      assert AllDigits(s);
      DigitsValueAppend(r, z);
      DigitsValueZeros(|z|);
    }
  }

  /** The last character kept by trimming trailing zeros is not '0'. */
  lemma TrailingLastKept(s: string)
    ensures var r := WithoutTrailingZeros(s); r != [] ==> s[|r| - 1] != '0'
  {
    var r := WithoutTrailingZeros(s);
    TrailingShape(s);
    if r != [] {
      assert s[|r| - 1] == (r + Zeros(|s| - |r|))[|r| - 1];
    }
  }

  lemma LeadingFirstKept(s: string)
    ensures var r := WithoutLeadingZeros(s); r != [] ==> s[|s| - |r|] != '0'
  {
    var r := WithoutLeadingZeros(s);
    LeadingShape(s);
    if r != [] {
      assert s[|s| - |r|] == (Zeros(|s| - |r|) + r)[|s| - |r|];
    }
  }

  /** A digit string trims to nothing exactly when its value is zero. */
  lemma TrailingEmpty(s: string)
    requires AllDigits(s)
    ensures WithoutTrailingZeros(s) == [] <==> DigitsValue(s) == 0
  {
    TrailingDigits(s);
    TrailingLastKept(s);
    if DigitsValue(s) == 0 {
      DigitsValueZeroIsZeros(s);
    }
  }

  lemma LeadingEmpty(s: string)
    requires AllDigits(s)
    ensures WithoutLeadingZeros(s) == [] <==> DigitsValue(s) == 0
  {
    LeadingDigits(s);
    LeadingFirstKept(s);
    if DigitsValue(s) == 0 {
      DigitsValueZeroIsZeros(s);
    }
  }
}

/** The JavaScript string primitives that BigFloat's parser and renderer use,
    over `string` = seq<char>, for the argument ranges that occur in the source
    (non-negative positions and lengths, '0' as the only pad character). */
module Text {
  import opened Digits

  /** String.prototype.indexOf for a one-character pattern: the first position, or -1. */
  function IndexOf(s: string, c: char): (i: int)
    ensures -1 <= i < |s|
    ensures i == -1 <==> c !in s
    ensures i >= 0 ==> s[i] == c && c !in s[..i]
  {
    if s == [] then -1
    else if s[0] == c then 0
    else
      var j := IndexOf(s[1..], c);
      assert s == [s[0]] + s[1..];
      if j == -1 then -1
      else
        assert s[..j + 1] == [s[0]] + s[1..][..j];
        j + 1
  }

  /** The first c in a + [c] + b is the one after a, when a holds none. */
  lemma {:induction false} IndexOfAfter(a: string, c: char, b: string)
    requires c !in a
    ensures IndexOf(a + [c] + b, c) == |a|
  {
    if a != [] {
      assert (a + [c] + b)[1..] == a[1..] + [c] + b;
      IndexOfAfter(a[1..], c, b);
    }
  }

  /** padEnd(n, "0"): s followed by enough '0's to reach length n. */
  function PadEnd(s: string, n: int): (r: string)
    ensures |r| >= n && |r| >= |s| && r[..|s|] == s
  {
    if |s| >= n then s else s + Zeros(n - |s|)
  }

  /** padStart(n, "0"): enough '0's in front of s to reach length n. */
  function PadStart(s: string, n: int): (r: string)
    ensures |r| >= n
  {
    if |s| >= n then s else Zeros(n - |s|) + s
  }

  /** substr(start, len): at most len characters from position start. */
  function Substr(s: string, start: nat, len: nat): (r: string)
    ensures |r| <= len
    ensures start <= |s| ==> r == s[start..if start + len <= |s| then start + len else |s|]
  {
    if start >= |s| then ""
    else s[start..if start + len <= |s| then start + len else |s|]
  }

  /** substring(0, n): the first n characters, or all of s when it is shorter. */
  function Prefix(s: string, n: nat): (r: string)
    ensures |r| <= n && r <= s
    ensures |s| >= n ==> |r| == n
  {
    if n <= |s| then s[..n] else s
  }

  /** charAt(i): the one-character string at i, or "" past the end. */
  function CharAt(s: string, i: nat): (r: string)
    ensures i < |s| ==> r == [s[i]]
    ensures i >= |s| ==> r == ""
  {
    if i < |s| then [s[i]] else ""
  }
}

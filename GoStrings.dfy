/**
 * The functions of Go's `strings` package that the CSS core calls, on strings
 * seen as sequences of Unicode code points.
 */
module GoStrings {

  /** unicode.IsSpace: the Latin-1 spaces plus the Unicode White_Space property. */
  predicate IsSpace(c: char)
  {
    || c == '\t' || c == '\n' || c == '\U{000B}' || c == '\U{000C}' || c == '\r' || c == ' '
    || c == '\U{0085}' || c == '\U{00A0}' || c == '\U{1680}'
    || ('\U{2000}' <= c <= '\U{200A}')
    || c == '\U{2028}' || c == '\U{2029}' || c == '\U{202F}' || c == '\U{205F}' || c == '\U{3000}'
  }

  /** Every character of s is white space. */
  predicate AllSpace(s: string)
  {
    forall i :: 0 <= i < |s| ==> IsSpace(s[i])
  }

  /** s has no white space at either end. */
  predicate Trimmed(s: string)
  {
    s == [] || (!IsSpace(s[0]) && !IsSpace(s[|s| - 1]))
  }

  /** Drops the leading white space of s. */
  function TrimLeft(s: string): string
  {
    if |s| > 0 && IsSpace(s[0]) then TrimLeft(s[1..]) else s
  }

  /** TrimLeft drops a white-space prefix, all of it: the result is a suffix of s that does not start with a space. */
  lemma {:induction false} TrimLeftSuffix(s: string)
    ensures |TrimLeft(s)| <= |s| && TrimLeft(s) == s[|s| - |TrimLeft(s)|..]
    ensures AllSpace(s[..|s| - |TrimLeft(s)|])
    ensures TrimLeft(s) == [] || !IsSpace(TrimLeft(s)[0])
  {
    if |s| > 0 && IsSpace(s[0]) {
      TrimLeftSuffix(s[1..]);
      var k := |s| - |TrimLeft(s)|;
      assert s[..k] == [s[0]] + s[1..][..k - 1];
    }
  }

  /** Drops the trailing white space of s. */
  function TrimRight(s: string): string
  {
    if |s| > 0 && IsSpace(s[|s| - 1]) then TrimRight(s[..|s| - 1]) else s
  }

  /** TrimRight drops a white-space suffix, all of it: the result is a prefix of s that does not end with a space. */
  lemma {:induction false} TrimRightPrefix(s: string)
    ensures |TrimRight(s)| <= |s| && TrimRight(s) == s[..|TrimRight(s)|]
    ensures AllSpace(s[|TrimRight(s)|..])
    ensures TrimRight(s) == [] || !IsSpace(TrimRight(s)[|TrimRight(s)| - 1])
  {
    if |s| > 0 && IsSpace(s[|s| - 1]) {
      var r := TrimRight(s[..|s| - 1]);
      TrimRightPrefix(s[..|s| - 1]);
      assert s[|r|..] == s[..|s| - 1][|r|..] + [s[|s| - 1]];
    }
  }

  /** strings.TrimSpace: s without its leading and trailing white space. */
  function TrimSpace(s: string): string
  {
    TrimRight(TrimLeft(s))
  }

  /**
   * TrimSpace removes white space and nothing else, all of it at both ends:
   * the result is the infix s[i..j] such that s[..i] and s[j..] are all
   * white space, and it neither starts nor ends with a space.
   */
  lemma TrimSpaceInfix(s: string)
    ensures Trimmed(TrimSpace(s))
    ensures exists i, j :: 0 <= i <= j <= |s| && TrimSpace(s) == s[i..j] && AllSpace(s[..i]) && AllSpace(s[j..])
  {
    var l := TrimLeft(s);
    var r := TrimRight(l);
    TrimLeftSuffix(s);
    TrimRightPrefix(l);
    var i, j := |s| - |l|, |s| - |l| + |r|;
    assert l == s[i..];
    assert r == l[..|r|];
    assert r == s[i..j];
    assert s[j..] == l[|r|..];
    assert TrimSpace(s) == r;
  }

  /** Trimming a string that is already trimmed changes nothing. */
  lemma TrimSpaceOfTrimmed(s: string)
    requires Trimmed(s)
    ensures TrimSpace(s) == s
  {
  }

  /** strings.TrimSpace is idempotent. */
  lemma TrimSpaceIdempotent(s: string)
    ensures TrimSpace(TrimSpace(s)) == TrimSpace(s)
  {
    TrimSpaceInfix(s);
    TrimSpaceOfTrimmed(TrimSpace(s));
  }

  /** strings.HasPrefix(s, ":"). */
  predicate StartsWithColon(s: string)
  {
    |s| > 0 && s[0] == ':'
  }

  /** The number of occurrences of c in s. */
  function Count(s: string, c: char): nat
  {
    if s == [] then 0 else (if s[0] == c then 1 else 0) + Count(s[1..], c)
  }

  /**
   * strings.Replace(s, [c], p, -1): every occurrence of the one-character
   * pattern c replaced by p, left to right.
   */
  function ReplaceAll(s: string, c: char, p: string): (r: string)
    ensures c in r ==> c in p
    ensures c !in s ==> r == s
  {
    if s == [] then [] else (if s[0] == c then p else [s[0]]) + ReplaceAll(s[1..], c, p)
  }

  /** Replacing distributes over concatenation. */
  lemma {:induction false} ReplaceAllAppend(a: string, b: string, c: char, p: string)
    ensures ReplaceAll(a + b, c, p) == ReplaceAll(a, c, p) + ReplaceAll(b, c, p)
  {
    if a == [] {
      assert a + b == b;
    } else {
      assert (a + b)[1..] == a[1..] + b;
      ReplaceAllAppend(a[1..], b, c, p);
    }
  }

  /** Each occurrence of c grows the string by |p| - 1 characters. */
  lemma {:induction false} ReplaceAllLength(s: string, c: char, p: string)
    ensures |ReplaceAll(s, c, p)| == |s| + Count(s, c) * (|p| - 1)
  {
    if s != [] {
      ReplaceAllLength(s[1..], c, p);
      var k := Count(s[1..], c);
      if s[0] == c {
        assert Count(s, c) == k + 1;
        GrowthStep(k, |p| - 1);
      } else {
        assert Count(s, c) == k;
      }
    }
  }

  /** One more occurrence adds one more growth of d. */
  lemma GrowthStep(k: nat, d: int)
    ensures (k + 1) * d == k * d + d
  {
  }

  /** Replacing the marker by itself gives the string back: nothing but the marker is touched. */
  lemma {:induction false} ReplaceAllIdentity(s: string, c: char)
    ensures ReplaceAll(s, c, [c]) == s
  {
    if s != [] {
      ReplaceAllIdentity(s[1..], c);
      assert s == [s[0]] + s[1..];
    }
  }

  /** strings.Join(xs, sep); Join of no elements is the empty string. */
  function Join(xs: seq<string>, sep: string): string
  {
    if |xs| == 0 then "" else if |xs| == 1 then xs[0] else xs[0] + sep + Join(xs[1..], sep)
  }

  /** Joining one more element appends the separator and the element: Join builds its output left to right. */
  lemma {:induction false} JoinAppend(xs: seq<string>, x: string, sep: string)
    requires xs != []
    ensures Join(xs + [x], sep) == Join(xs, sep) + sep + x
  {
    if |xs| > 1 {
      JoinAppend(xs[1..], x, sep);
      assert (xs + [x])[1..] == xs[1..] + [x];
    }
  }
}

/** Python's `str.strip()` with no argument: removes leading and trailing
    whitespace, where whitespace is what `str.isspace()` accepts. */
module Strings {

  /** The characters for which Python's `str.isspace()` is true: the ASCII
      controls TAB..CR and FS..US, SPACE, NEL, NO-BREAK SPACE and the Unicode
      space separators, line and paragraph separators. */
  predicate IsWhitespace(c: char) {
    var n := c as int;
    || 0x09 <= n <= 0x0D
    || 0x1C <= n <= 0x20
    || n == 0x85
    || n == 0xA0
    || n == 0x1680
    || 0x2000 <= n <= 0x200A
    || n == 0x2028
    || n == 0x2029
    || n == 0x202F
    || n == 0x205F
    || n == 0x3000
  }

  /** Drops the leading whitespace: the result is the suffix of `s` that
      starts at the first non-whitespace character. */
  function TrimStart(s: string): (r: string)
    ensures |r| <= |s| && r == s[|s| - |r|..]
    ensures forall k :: 0 <= k < |s| - |r| ==> IsWhitespace(s[k])
    ensures r == [] || !IsWhitespace(r[0])
    decreases |s|
  {
    if |s| > 0 && IsWhitespace(s[0]) then TrimStart(s[1..]) else s
  }

  /** Drops the trailing whitespace: the result is the prefix of `s` that
      ends at the last non-whitespace character. */
  function TrimEnd(s: string): (r: string)
    ensures |r| <= |s| && r == s[..|r|]
    ensures forall k :: |r| <= k < |s| ==> IsWhitespace(s[k])
    ensures r == [] || !IsWhitespace(r[|r| - 1])
    decreases |s|
  {
    if |s| > 0 && IsWhitespace(s[|s| - 1]) then TrimEnd(s[..|s| - 1]) else s
  }

  /** `s.strip()`: the slice `s[i..j]` where everything before `i` and from
      `j` on is whitespace, and the slice neither starts nor ends with
      whitespace. */
  function Trim(s: string): (r: string)
    ensures r == [] || (!IsWhitespace(r[0]) && !IsWhitespace(r[|r| - 1]))
  {
    TrimEnd(TrimStart(s))
  }

  /** No whitespace at either end. */
  predicate IsTrimmed(s: string) {
    s == [] || (!IsWhitespace(s[0]) && !IsWhitespace(s[|s| - 1]))
  }

  /** `Trim` returns a slice `s[i..i + |r|]` of its argument, where `i` is
      the length of the leading whitespace, and removes only whitespace. */
  lemma {:induction false} TrimIsWhitespaceSlice(s: string)
    ensures |TrimStart(s)| <= |s|
    ensures Trim(s) == s[|s| - |TrimStart(s)|..|s| - |TrimStart(s)| + |Trim(s)|]
    ensures forall k :: 0 <= k < |s| - |TrimStart(s)| ==> IsWhitespace(s[k])
    ensures forall k :: |s| - |TrimStart(s)| + |Trim(s)| <= k < |s| ==> IsWhitespace(s[k])
  {
    var t := TrimStart(s);
    var r := TrimEnd(t);
    assert Trim(s) == r;
    var i := |s| - |t|;
    assert t == s[i..];
    assert r == s[i..i + |r|];
    forall k | i + |r| <= k < |s|
      ensures IsWhitespace(s[k])
    {
      assert s[k] == t[k - i];
      assert |r| <= k - i < |t|;
    }
  }

  /** A string already free of surrounding whitespace is left unchanged, and
      so stripping twice is the same as stripping once. */
  lemma TrimOfTrimmed(s: string)
    requires IsTrimmed(s)
    ensures Trim(s) == s
  {
  }

  lemma TrimIdempotent(s: string)
    ensures Trim(Trim(s)) == Trim(s)
  {
    TrimOfTrimmed(Trim(s));
  }

  /** Whitespace on either side never changes the stripped value. */
  lemma {:induction false} TrimIgnoresPadding(pre: string, s: string, post: string)
    requires forall k :: 0 <= k < |pre| ==> IsWhitespace(pre[k])
    requires forall k :: 0 <= k < |post| ==> IsWhitespace(post[k])
    ensures Trim(pre + s + post) == Trim(s)
  {
    TrimStartSkipsPrefix(pre, s + post);
    assert pre + s + post == pre + (s + post);
    TrimStartKeepsSuffix(s, post);
    TrimEndSkipsSuffix(TrimStart(s), post);
  }

  lemma {:induction false} TrimStartSkipsPrefix(pre: string, s: string)
    requires forall k :: 0 <= k < |pre| ==> IsWhitespace(pre[k])
    ensures TrimStart(pre + s) == TrimStart(s)
    decreases |pre|
  {
    if |pre| > 0 {
      assert (pre + s)[1..] == pre[1..] + s;
      TrimStartSkipsPrefix(pre[1..], s);
    } else {
      assert pre + s == s;
    }
  }

  lemma {:induction false} TrimStartKeepsSuffix(s: string, post: string)
    requires forall k :: 0 <= k < |post| ==> IsWhitespace(post[k])
    ensures TrimStart(s + post) == TrimStart(s) + post
      || (TrimStart(s) == [] && TrimStart(s + post) == [])
    decreases |s|
  {
    if |s| == 0 {
      assert s + post == post;
      assert TrimStart(post) == [] by { AllWhitespaceTrimsToEmpty(post); }
    } else if IsWhitespace(s[0]) {
      assert (s + post)[1..] == s[1..] + post;
      TrimStartKeepsSuffix(s[1..], post);
    }
  }

  lemma {:induction false} AllWhitespaceTrimsToEmpty(s: string)
    requires forall k :: 0 <= k < |s| ==> IsWhitespace(s[k])
    ensures TrimStart(s) == []
    decreases |s|
  {
    if |s| > 0 {
      AllWhitespaceTrimsToEmpty(s[1..]);
    }
  }

  lemma {:induction false} TrimEndSkipsSuffix(s: string, post: string)
    requires forall k :: 0 <= k < |post| ==> IsWhitespace(post[k])
    ensures TrimEnd(s + post) == TrimEnd(s)
    decreases |post|
  {
    if |post| > 0 {
      assert (s + post)[..|s + post| - 1] == s + post[..|post| - 1];
      TrimEndSkipsSuffix(s, post[..|post| - 1]);
    } else {
      assert s + post == s;
    }
  }
}

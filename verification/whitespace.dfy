/** `String.prototype.trim`: removal of leading and trailing white space,
    where white space is what ECMAScript calls WhiteSpace or
    LineTerminator. */
module Whitespace {

  /** The ECMAScript WhiteSpace code points (tab, vertical tab, form feed,
      zero-width no-break space and every space separator of Unicode
      category Zs) and the LineTerminator code points (line feed, carriage
      return, line separator, paragraph separator). */
  predicate IsWhitespace(c: char) {
    c in {
      '\t', '\U{000B}', '\U{000C}', ' ', '\U{00A0}', '\U{FEFF}',
      '\U{1680}', '\U{2000}', '\U{2001}', '\U{2002}', '\U{2003}', '\U{2004}',
      '\U{2005}', '\U{2006}', '\U{2007}', '\U{2008}', '\U{2009}', '\U{200A}',
      '\U{202F}', '\U{205F}', '\U{3000}',
      '\n', '\r', '\U{2028}', '\U{2029}'
    }
  }

  /** Every character of `s` is white space (vacuously so for ""). */
  predicate AllWhitespace(s: string) {
    forall k :: 0 <= k < |s| ==> IsWhitespace(s[k])
  }

  /** Neither end of `s` is white space. */
  predicate IsTrimmed(s: string) {
    |s| > 0 ==> !IsWhitespace(s[0]) && !IsWhitespace(s[|s| - 1])
  }

  /** `r` is the slice of `s` starting at `i`, with only white space
      before and after it. */
  predicate CoreAt(r: string, s: string, i: int) {
    0 <= i <= |s| - |r| && s[i..i + |r|] == r
    && AllWhitespace(s[..i]) && AllWhitespace(s[i + |r|..])
  }

  /** `r` is what is left of `s` after cutting white space off its ends. */
  predicate IsCoreOf(r: string, s: string) {
    exists i :: 0 <= i <= |s| && CoreAt(r, s, i)
  }

  /** Drops the leading white space: the result is the suffix of `s` that
      starts at the first non-white-space character. */
  function TrimStart(s: string): (r: string)
    ensures |r| <= |s| && r == s[|s| - |r|..]
    ensures AllWhitespace(s[..|s| - |r|])
    ensures |r| > 0 ==> !IsWhitespace(r[0])
  {
    if |s| > 0 && IsWhitespace(s[0]) then TrimStart(s[1..]) else s
  }

  /** Drops the trailing white space: the result is the prefix of `s` that
      ends at the last non-white-space character. */
  function TrimEnd(s: string): (r: string)
    ensures |r| <= |s| && r == s[..|r|]
    ensures AllWhitespace(s[|r|..])
    ensures |r| > 0 ==> !IsWhitespace(r[|r| - 1])
  {
    if |s| > 0 && IsWhitespace(s[|s| - 1]) then TrimEnd(s[..|s| - 1]) else s
  }

  /** `s.trim()`: the result is a slice of `s` with white space at neither
      end; it is empty exactly when `s` is all white space, and every
      character it keeps comes from `s`. */
  function Trim(s: string): (r: string)
    ensures IsTrimmed(r)
    ensures r == "" <==> AllWhitespace(s)
    ensures forall ch :: ch in r ==> ch in s
    ensures IsCoreOf(r, s)
  {
    TrimEmptyIffWhitespace(s);
    TrimKeepsChars(s);
    TrimIsSlice(s);
    TrimEnd(TrimStart(s))
  }

  // Trim leaves nothing exactly when there was nothing but white space.
  lemma TrimEmptyIffWhitespace(s: string)
    ensures TrimEnd(TrimStart(s)) == "" <==> AllWhitespace(s)
  {
    var front := TrimStart(s);
    var i := |s| - |front|;
    if front == "" {
      assert s[..i] == s;
    } else {
      assert front[0] == s[i];
      assert TrimEnd(front) != "";
    }
  }

  // Trim only removes characters.
  lemma TrimKeepsChars(s: string)
    ensures forall ch :: ch in TrimEnd(TrimStart(s)) ==> ch in s
  {
    var r := TrimEnd(TrimStart(s));
    TrimIsSlice(s);
    var i :| 0 <= i <= |s| && CoreAt(r, s, i);
    forall ch | ch in r
      ensures ch in s
    {
      var k :| 0 <= k < |r| && r[k] == ch;
      assert s[i + k] == ch;
    }
  }

  // Trim cuts white space off both ends and nothing else: the result is
  // the slice of `s` that starts where TrimStart stopped.
  lemma TrimIsSlice(s: string)
    ensures IsCoreOf(TrimEnd(TrimStart(s)), s)
  {
    var front := TrimStart(s);
    var r := TrimEnd(front);
    var i := |s| - |front|;
    assert front == s[i..];
    assert AllWhitespace(s[..i]);
    assert r == s[i..i + |r|] by {
      assert r == front[..|r|];
    }
    assert AllWhitespace(s[i + |r|..]) by {
      assert AllWhitespace(front[|r|..]);
      assert front[|r|..] == s[i + |r|..];
    }
    assert CoreAt(r, s, i);
  }
}

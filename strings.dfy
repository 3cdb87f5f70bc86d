/**
 * `String.prototype.trim`: removes leading and trailing white space and line
 * terminators, as ECMAScript defines them (sections 12.2 and 12.3 of
 * ECMA-262, used by section 22.1.3.32, TrimString).
 */
module Strings {

  /** ECMAScript WhiteSpace (TAB, VT, FF, ZWNBSP, the Zs category) and LineTerminator. */
  predicate IsWhitespace(c: char)
  {
    || c == '\t' || c == '\U{000B}' || c == '\U{000C}' || c == ' '
    || c == '\U{00A0}' || c == '\U{FEFF}' || c == '\U{1680}'
    || ('\U{2000}' <= c <= '\U{200A}')
    || c == '\U{202F}' || c == '\U{205F}' || c == '\U{3000}'
    || c == '\n' || c == '\r' || c == '\U{2028}' || c == '\U{2029}'
  }

  predicate AllWhitespace(s: string)
  {
    forall i :: 0 <= i < |s| ==> IsWhitespace(s[i])
  }

  /** Neither end of `s` is white space (the empty string qualifies). */
  predicate Trimmed(s: string)
  {
    s == [] || (!IsWhitespace(s[0]) && !IsWhitespace(s[|s| - 1]))
  }

  /**
   * `s.trim()`: white space is stripped from both ends until neither end is
   * white space. It is empty exactly when `s` is all white space.
   */
  function Trim(s: string): (r: string)
    ensures Trimmed(r)
    ensures |r| <= |s|
    ensures r == [] <==> AllWhitespace(s)
  {
    if s == [] then []
    else if IsWhitespace(s[0]) then
      assert AllWhitespace(s) <==> AllWhitespace(s[1..]) by {
        assert forall i :: 1 <= i < |s| ==> s[i] == s[1..][i - 1];
      }
      Trim(s[1..])
    else if IsWhitespace(s[|s| - 1]) then
      assert !AllWhitespace(s[..|s| - 1]) by {
        assert s[..|s| - 1][0] == s[0];
      }
      Trim(s[..|s| - 1])
    else s
  }

  /** `Trim(s)` is `s[i..j]`, and `s` holds only white space outside `i..j`. */
  predicate SplitsAt(s: string, i: int, j: int)
  {
    0 <= i <= j <= |s| && Trim(s) == s[i..j] && AllWhitespace(s[..i]) && AllWhitespace(s[j..])
  }

  /**
   * Trim only removes white space from the ends: the input is the result
   * with white space before and after it.
   */
  lemma {:induction false} TrimSplits(s: string)
    ensures exists i, j :: SplitsAt(s, i, j)
    decreases |s|
  {
    if s == [] {
      assert SplitsAt(s, 0, 0);
    } else if IsWhitespace(s[0]) {
      TrimSplits(s[1..]);
      var i, j :| SplitsAt(s[1..], i, j);
      SplitsAfterLeading(s, i, j);
    } else if IsWhitespace(s[|s| - 1]) {
      TrimSplits(s[..|s| - 1]);
      var i, j :| SplitsAt(s[..|s| - 1], i, j);
      SplitsBeforeTrailing(s, i, j);
    } else {
      assert s[0..|s|] == s;
      assert SplitsAt(s, 0, |s|);
    }
  }

  lemma SplitsAfterLeading(s: string, i: int, j: int)
    requires s != [] && IsWhitespace(s[0])
    requires SplitsAt(s[1..], i, j)
    ensures SplitsAt(s, i + 1, j + 1)
  {
    var t := s[1..];
    assert Trim(s) == Trim(t);
    assert s[i + 1..j + 1] == t[i..j];
    assert s[j + 1..] == t[j..];
    var front := s[..i + 1];
    forall k | 0 <= k < |front|
      ensures IsWhitespace(front[k])
    {
      if k > 0 {
        assert front[k] == t[..i][k - 1];
      }
    }
  }

  lemma SplitsBeforeTrailing(s: string, i: int, j: int)
    requires s != [] && !IsWhitespace(s[0]) && IsWhitespace(s[|s| - 1])
    requires SplitsAt(s[..|s| - 1], i, j)
    ensures SplitsAt(s, i, j)
  {
    var t := s[..|s| - 1];
    assert Trim(s) == Trim(t);
    assert s[i..j] == t[i..j];
    assert s[..i] == t[..i];
    var back := s[j..];
    forall k | 0 <= k < |back|
      ensures IsWhitespace(back[k])
    {
      if k < |t| - j {
        assert back[k] == t[j..][k];
      }
    }
  }

  /**
   * Trim is determined by what it keeps: surrounding a trimmed string by any
   * white space and trimming gives back that string.
   */
  lemma {:induction false} TrimOfPadded(a: string, m: string, b: string)
    requires AllWhitespace(a) && AllWhitespace(b)
    requires Trimmed(m)
    ensures Trim(a + m + b) == m
    decreases |a| + |b|
  {
    var s := a + m + b;
    if m == [] {
      assert AllWhitespace(s) by {
        assert s == a + b;
      }
    } else if a != [] {
      assert s[1..] == a[1..] + m + b;
      TrimOfPadded(a[1..], m, b);
    } else if b != [] {
      assert s[0] == m[0];
      assert s[..|s| - 1] == a + m + b[..|b| - 1];
      TrimOfPadded(a, m, b[..|b| - 1]);
    } else {
      assert s == m;
    }
  }

  /** A trimmed string is its own trim. */
  lemma TrimmedIsFixpoint(s: string)
    ensures Trimmed(s) <==> Trim(s) == s
  {
    if Trimmed(s) {
      assert [] + s + [] == s;
      TrimOfPadded([], s, []);
    }
  }

  /** Trimming twice is trimming once. */
  lemma TrimIdempotent(s: string)
    ensures Trim(Trim(s)) == Trim(s)
  {
    TrimmedIsFixpoint(Trim(s));
  }
}

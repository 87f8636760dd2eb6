/**
 * ECMAScript's `String.prototype.trim`, modelled on `string`.
 *
 * `trim` removes every leading and trailing character that the ECMAScript
 * Language Specification (ECMA-262) classes as WhiteSpace or
 * LineTerminator. The todo form rejects text that is blank after trimming
 * and stores the trimmed text.
 */
module Text {

  /**
   * WhiteSpace: TAB, VT, FF, ZWNBSP and every character of Unicode category
   * Zs; LineTerminator: LF, CR, LINE SEPARATOR and PARAGRAPH SEPARATOR.
   */
  const Whitespace: set<char> := {
    '\t', '\U{000B}', '\U{000C}', '\U{FEFF}',
    ' ', '\U{00A0}', '\U{1680}',
    '\U{2000}', '\U{2001}', '\U{2002}', '\U{2003}', '\U{2004}', '\U{2005}',
    '\U{2006}', '\U{2007}', '\U{2008}', '\U{2009}', '\U{200A}',
    '\U{202F}', '\U{205F}', '\U{3000}',
    '\n', '\r', '\U{2028}', '\U{2029}'
  }

  predicate IsWhitespace(c: char)
  {
    c in Whitespace
  }

  /** Every character of `s` is whitespace (the empty string included). */
  predicate Blank(s: string)
  {
    forall k :: 0 <= k < |s| ==> IsWhitespace(s[k])
  }

  /** `s` without its leading whitespace. */
  function TrimStart(s: string): (r: string)
    ensures |r| <= |s| && r == s[|s| - |r|..]
    ensures Blank(s[..|s| - |r|])
    ensures r == [] || !IsWhitespace(r[0])
    decreases |s|
  {
    if s != [] && IsWhitespace(s[0]) then
      var r := TrimStart(s[1..]);
      assert s[..|s| - |r|] == [s[0]] + s[1..][..|s| - 1 - |r|];
      r
    else s
  }

  /** `s` without its trailing whitespace. */
  function TrimEnd(s: string): (r: string)
    ensures |r| <= |s| && r == s[..|r|]
    ensures Blank(s[|r|..])
    ensures r == [] || !IsWhitespace(r[|r| - 1])
    decreases |s|
  {
    if s != [] && IsWhitespace(s[|s| - 1]) then
      var r := TrimEnd(s[..|s| - 1]);
      assert s[|r|..] == s[..|s| - 1][|r|..] + [s[|s| - 1]];
      r
    else s
  }

  /**
   * `r` is the piece of `s` starting at `lead`, with only whitespace
   * before and after it, and neither end of `r` is whitespace.
   */
  ghost predicate TrimmedAt(r: string, s: string, lead: nat)
  {
    && lead + |r| <= |s|
    && r == s[lead..lead + |r|]
    && Blank(s[..lead])
    && Blank(s[lead + |r|..])
    && (r == [] || (!IsWhitespace(r[0]) && !IsWhitespace(r[|r| - 1])))
  }

  /** `r` is `s` with its leading and trailing whitespace removed. */
  ghost predicate IsTrimOf(r: string, s: string)
  {
    exists lead: nat :: TrimmedAt(r, s, lead)
  }

  /** `text.trim()`. */
  function Trim(s: string): (r: string)
    ensures IsTrimOf(r, s)
  {
    TrimBothEnds(s);
    TrimEnd(TrimStart(s))
  }

  /** Trimming the start and then the end removes exactly the whitespace on both sides. */
  lemma TrimBothEnds(s: string)
    ensures TrimmedAt(TrimEnd(TrimStart(s)), s, |s| - |TrimStart(s)|)
  {
    var t := TrimStart(s);
    var r := TrimEnd(t);
    var lead := |s| - |t|;
    assert r == s[lead..lead + |r|] by {
      assert t == s[lead..];
      assert r == t[..|r|];
    }
    assert Blank(s[lead + |r|..]) by {
      assert s[lead + |r|..] == t[|r|..];
    }
    assert r != [] ==> !IsWhitespace(r[0]) by {
      if r != [] {
        assert r[0] == t[0];
      }
    }
  }

  /** Trimming leaves nothing exactly when the text is blank. */
  lemma TrimEmptyIffBlank(s: string)
    ensures Trim(s) == [] <==> Blank(s)
  {
    var t := TrimStart(s);
    var r := TrimEnd(t);
    var lead := |s| - |t|;
    if r == [] {
      assert t[0..] == t;
      assert t == [];
      assert s[..lead] == s;
    } else {
      assert r[0] == s[lead];
    }
  }

  /** Trimming trimmed text changes nothing. */
  lemma TrimIdempotent(s: string)
    ensures Trim(Trim(s)) == Trim(s)
  {
  }
}

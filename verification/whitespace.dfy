/** `String.prototype.trim` and the "blank" test the add-task form applies to
    its input (`!task.trim()`: the trimmed text is the empty string).

    Whitespace is the ECMAScript set of WhiteSpace and LineTerminator code
    points, written out explicitly: tab, vertical tab, form feed, space,
    no-break space, the byte-order mark, the other space separators of
    Unicode category Zs, line feed, carriage return, and the line and
    paragraph separators.
 */
module Whitespace {

  const WhitespaceChars: set<char> := {
    '\t', '\U{B}', '\U{C}', ' ', '\U{A0}', '\U{FEFF}',
    '\U{1680}', '\U{2000}', '\U{2001}', '\U{2002}', '\U{2003}', '\U{2004}',
    '\U{2005}', '\U{2006}', '\U{2007}', '\U{2008}', '\U{2009}', '\U{200A}',
    '\U{202F}', '\U{205F}', '\U{3000}',
    '\n', '\r', '\U{2028}', '\U{2029}'
  }

  predicate IsWhitespace(c: char)
  {
    c in WhitespaceChars
  }

  /** Every character of `s` is whitespace (the empty string included). */
  predicate AllWhitespace(s: string)
  {
    forall i :: 0 <= i < |s| ==> IsWhitespace(s[i])
  }

  /** `s` with its leading whitespace removed. */
  function TrimStart(s: string): (r: string)
    ensures |r| <= |s| && r == s[|s| - |r|..]
    ensures AllWhitespace(s[..|s| - |r|])
    ensures r != [] ==> !IsWhitespace(r[0])
    decreases |s|
  {
    if s != [] && IsWhitespace(s[0]) then TrimStart(s[1..]) else s
  }

  /** `s` with its trailing whitespace removed. */
  function TrimEnd(s: string): (r: string)
    ensures |r| <= |s| && r == s[..|r|]
    ensures AllWhitespace(s[|r|..])
    ensures r != [] ==> !IsWhitespace(r[|r| - 1])
    decreases |s|
  {
    if s != [] && IsWhitespace(s[|s| - 1]) then TrimEnd(s[..|s| - 1]) else s
  }

  /** `s.trim()`: the middle of `s`, starting where its leading whitespace
      ends, such that everything cut away on either side is whitespace and
      the result neither starts nor ends with whitespace. */
  function Trim(s: string): (r: string)
    ensures var a := |s| - |TrimStart(s)|; a + |r| <= |s| && r == s[a..a + |r|]
    ensures AllWhitespace(s[..|s| - |TrimStart(s)|])
    ensures var a := |s| - |TrimStart(s)|; AllWhitespace(s[a + |r|..])
    ensures r != [] ==> !IsWhitespace(r[0]) && !IsWhitespace(r[|r| - 1])
  {
    var u := TrimStart(s);
    var r := TrimEnd(u);
    PrefixOfSuffix(s, u, r);
    assert r != [] ==> r[0] == u[0];
    r
  }

  /** A prefix `r` of a suffix `u` of `s` is a slice of `s`, and whatever
      follows `r` in `u` is what follows it in `s`. */
  lemma PrefixOfSuffix(s: string, u: string, r: string)
    requires |u| <= |s| && u == s[|s| - |u|..]
    requires |r| <= |u| && r == u[..|r|]
    requires AllWhitespace(u[|r|..])
    ensures var a := |s| - |u|; r == s[a..a + |r|] && AllWhitespace(s[a + |r|..])
  {
    assert s[|s| - |u| + |r|..] == u[|r|..];
  }

  /** The text is empty or whitespace-only, i.e. `!s.trim()` holds. */
  predicate IsBlank(s: string)
  {
    Trim(s) == []
  }

  /** The text is blank exactly when it is empty or every character is whitespace. */
  lemma BlankIffAllWhitespace(s: string)
    ensures IsBlank(s) <==> AllWhitespace(s)
  {
    var u := TrimStart(s);
    if IsBlank(s) {
      assert TrimEnd(u) == [];
      assert u[0..] == u;
      assert s[..|s|] == s;
    }
  }
}

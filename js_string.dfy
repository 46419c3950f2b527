/**
 * The ECMAScript string primitives the screen relies on: the white-space class shared by
 * String.prototype.trimEnd and Number(), and the trims. indexOf on a single character
 * serves the reference numeral grammar and the reading back of a confirmed time.
 * The functions carry only the bounds their callers need to be well formed; what they compute
 * is stated by the lemmas after them.
 */
module JsString {

  /** WhiteSpace or LineTerminator as listed in sections 12.2 and 12.3 of ECMA-262:
      TAB, VT, FF, SP, NBSP, ZWNBSP, the Zs space separators, LF, CR, LS and PS. */
  predicate IsWhite(c: char) {
    c == '\t' || c == '\n' || c == '\U{000B}' || c == '\U{000C}' || c == '\r' || c == ' '
    || c == '\U{00A0}' || c == '\U{1680}' || ('\U{2000}' <= c <= '\U{200A}')
    || c == '\U{2028}' || c == '\U{2029}' || c == '\U{202F}' || c == '\U{205F}'
    || c == '\U{3000}' || c == '\U{FEFF}'
  }

  /** String.prototype.trimEnd. */
  function TrimEnd(s: string): (r: string)
    ensures |r| <= |s|
    decreases |s|
  {
    if |s| > 0 && IsWhite(s[|s| - 1]) then TrimEnd(s[..|s| - 1]) else s
  }

  /** String.prototype.trimStart. */
  function TrimStart(s: string): (r: string)
    ensures |r| <= |s|
    decreases |s|
  {
    if |s| > 0 && IsWhite(s[0]) then TrimStart(s[1..]) else s
  }

  /** String.prototype.trim, the trimming Number() applies to its argument. */
  function Trim(s: string): (r: string)
    ensures |r| <= |s|
  {
    TrimStart(TrimEnd(s))
  }

  /** String.prototype.indexOf for one character, with "not found" reported as |s|. */
  function IndexOf(s: string, c: char): (i: nat)
    ensures i <= |s|
  {
    if s == [] then 0
    else if s[0] == c then 0
    else 1 + IndexOf(s[1..], c)
  }

  /** trimEnd keeps the longest prefix that does not end in white space; everything after it
      is white space. */
  lemma {:induction false} TrimEndSpec(s: string)
    ensures TrimEnd(s) == s[..|TrimEnd(s)|]
    ensures TrimEnd(s) == [] || !IsWhite(TrimEnd(s)[|TrimEnd(s)| - 1])
    ensures forall i :: |TrimEnd(s)| <= i < |s| ==> IsWhite(s[i])
    decreases |s|
  {
    if |s| > 0 && IsWhite(s[|s| - 1]) {
      var p := s[..|s| - 1];
      TrimEndSpec(p);
      assert TrimEnd(s) == TrimEnd(p);
      assert p[..|TrimEnd(p)|] == s[..|TrimEnd(p)|];
    }
  }

  /** trimStart keeps the longest suffix that does not start with white space; everything
      before it is white space. */
  lemma {:induction false} TrimStartSpec(s: string)
    ensures TrimStart(s) == s[|s| - |TrimStart(s)|..]
    ensures TrimStart(s) == [] || !IsWhite(TrimStart(s)[0])
    ensures forall i :: 0 <= i < |s| - |TrimStart(s)| ==> IsWhite(s[i])
    decreases |s|
  {
    if |s| > 0 && IsWhite(s[0]) {
      var p := s[1..];
      TrimStartSpec(p);
      assert TrimStart(s) == TrimStart(p);
      assert p[|p| - |TrimStart(p)|..] == s[|s| - |TrimStart(p)|..];
    }
  }

  /** trim keeps the slice of s that neither starts nor ends with white space, with only white
      space around it. */
  lemma TrimSpec(s: string)
    ensures var r, k := Trim(s), |TrimEnd(s)| - |Trim(s)|;
      0 <= k && k + |r| <= |s| && r == s[k..k + |r|]
      && (r == [] || (!IsWhite(r[0]) && !IsWhite(r[|r| - 1])))
      && (forall i :: 0 <= i < k ==> IsWhite(s[i]))
      && (forall i :: k + |r| <= i < |s| ==> IsWhite(s[i]))
  {
    var e := TrimEnd(s);
    TrimEndSpec(s);
    TrimStartSpec(e);
    var r := Trim(s);
    var k := |e| - |r|;
    assert r == e[k..];
    assert e[k..] == s[k..k + |r|];
    if r != [] {
      assert r[|r| - 1] == e[|e| - 1];
    }
    assert forall i :: 0 <= i < k ==> s[i] == e[i];
  }

  /** Trimming leaves a string alone when it neither starts nor ends with white space. */
  lemma TrimUnpadded(s: string)
    requires s == [] || (!IsWhite(s[0]) && !IsWhite(s[|s| - 1]))
    ensures Trim(s) == s
  {
    assert TrimEnd(s) == s;
    assert TrimStart(s) == s;
  }

  /** Trimming a string of white space only leaves nothing. */
  lemma TrimAllWhite(s: string)
    requires forall i :: 0 <= i < |s| ==> IsWhite(s[i])
    ensures Trim(s) == []
  {
    TrimSpec(s);
  }

  /** indexOf finds the first occurrence, and reports |s| exactly when there is none. */
  lemma {:induction false} IndexOfSpec(s: string, c: char)
    ensures IndexOf(s, c) < |s| ==> s[IndexOf(s, c)] == c
    ensures forall j :: 0 <= j < IndexOf(s, c) ==> s[j] != c
    decreases |s|
  {
    if s != [] && s[0] != c {
      IndexOfSpec(s[1..], c);
    }
  }
}

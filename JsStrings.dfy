/** The three JavaScript string operations that the designer search in
    app.js relies on: String.prototype.trim, String.prototype.toLowerCase
    and String.prototype.includes, over strings as sequences of characters. */
module JsStrings {

  /** The characters `trim` removes: ECMAScript's WhiteSpace (tab, vertical tab,
      form feed, space, no-break space, byte order mark and every Unicode
      space separator) and LineTerminator (LF, CR, line and paragraph separator). */
  predicate IsWhitespace(c: char) {
    || c == '\t' || c == '\n' || c == '\U{B}' || c == '\U{C}' || c == '\r'
    || c == ' ' || c == '\U{A0}' || c == '\U{1680}'
    || ('\U{2000}' <= c <= '\U{200A}')
    || c == '\U{2028}' || c == '\U{2029}' || c == '\U{202F}' || c == '\U{205F}'
    || c == '\U{3000}' || c == '\U{FEFF}'
  }

  predicate AllWhitespace(s: string) {
    forall k :: 0 <= k < |s| ==> IsWhitespace(s[k])
  }

  /** Drops the leading whitespace: the result is a suffix of `s`, what was
      dropped is whitespace, and the result does not start with whitespace. */
  function TrimStart(s: string): (r: string)
    ensures |r| <= |s| && r == s[|s| - |r|..]
    ensures AllWhitespace(s[..|s| - |r|])
    ensures r == [] || !IsWhitespace(r[0])
  {
    if s != [] && IsWhitespace(s[0]) then
      var r := TrimStart(s[1..]);
      assert s[1..][..|s| - 1 - |r|] == s[1..|s| - |r|];
      assert s[..|s| - |r|] == [s[0]] + s[1..|s| - |r|];
      r
    else s
  }

  /** Drops the trailing whitespace: the result is a prefix of `s`, what was
      dropped is whitespace, and the result does not end with whitespace. */
  function TrimEnd(s: string): (r: string)
    ensures |r| <= |s| && r == s[..|r|]
    ensures AllWhitespace(s[|r|..])
    ensures r == [] || !IsWhitespace(r[|r| - 1])
  {
    if s != [] && IsWhitespace(s[|s| - 1]) then
      var init := s[..|s| - 1];
      var r := TrimEnd(init);
      assert init[..|r|] == s[..|r|];
      assert s[|r|..] == init[|r|..] + [s[|s| - 1]];
      r
    else s
  }

  /** `r` sits in `s` at offset `i`, with only whitespace around it. */
  predicate TrimmedAt(s: string, r: string, i: int) {
    && 0 <= i && i + |r| <= |s|
    && s[i..i + |r|] == r
    && AllWhitespace(s[..i])
    && AllWhitespace(s[i + |r|..])
  }

  /** A prefix `r` of a suffix `front` of `s`, where only whitespace was cut
      off on either side, sits in `s` with only whitespace around it. */
  lemma PrefixOfSuffix(s: string, front: string, r: string)
    requires |front| <= |s| && front == s[|s| - |front|..]
    requires AllWhitespace(s[..|s| - |front|])
    requires |r| <= |front| && r == front[..|r|]
    requires AllWhitespace(front[|r|..])
    ensures TrimmedAt(s, r, |s| - |front|)
  {
    var i := |s| - |front|;
    assert s[i..i + |r|] == front[..|r|];
    assert s[i + |r|..] == front[|r|..];
  }

  /** String.prototype.trim: the slice of `s` left once whitespace is removed
      from both ends. */
  function Trim(s: string): (r: string)
    ensures exists i :: TrimmedAt(s, r, i)
    ensures r == [] || (!IsWhitespace(r[0]) && !IsWhitespace(r[|r| - 1]))
  {
    var front := TrimStart(s);
    var r := TrimEnd(front);
    PrefixOfSuffix(s, front, r);
    assert r != [] ==> r[0] == front[0];
    r
  }

  /** A string is blank (`!s.trim()` holds) exactly when it is all whitespace. */
  lemma {:induction false} TrimEmptyIffAllWhitespace(s: string)
    ensures Trim(s) == [] <==> AllWhitespace(s)
  {
    var r := Trim(s);
    var i :| TrimmedAt(s, r, i);
    if r == [] {
      assert s == s[..i] + s[i..];
      forall k | 0 <= k < |s| ensures IsWhitespace(s[k]) {
        if k < i { assert s[..i][k] == s[k]; } else { assert s[i..][k - i] == s[k]; }
      }
    } else {
      assert s[i] == r[0];
    }
  }

  /** The case mapping of `toLowerCase` on the letters A to Z. */
  function LowerChar(c: char): char {
    if 'A' <= c <= 'Z' then (c as int + 32) as char else c
  }

  /** String.prototype.toLowerCase, character by character. */
  function Lower(s: string): (r: string)
    ensures |r| == |s|
    ensures forall k :: 0 <= k < |s| ==> r[k] == LowerChar(s[k])
  {
    if s == [] then [] else [LowerChar(s[0])] + Lower(s[1..])
  }

  /** The string holds none of the letters A to Z. */
  predicate Uncased(s: string) {
    forall k :: 0 <= k < |s| ==> !('A' <= s[k] <= 'Z')
  }

  /** Lowercasing twice is lowercasing once, and a string with no letter from
      A to Z is its own lower case. */
  lemma LowerIdempotent(s: string)
    ensures Lower(Lower(s)) == Lower(s)
    ensures Uncased(s) ==> Lower(s) == s
  {
  }

  /** A character that is not a Latin letter occurs in the lower case of a
      string exactly when it occurs in the string. */
  lemma LowerKeepsOthers(s: string, c: char)
    requires !('a' <= c <= 'z') && !('A' <= c <= 'Z')
    ensures c in Lower(s) <==> c in s
  {
    var r := Lower(s);
    if c in r {
      var k :| 0 <= k < |r| && r[k] == c;
      assert s[k] == c;
    }
    if c in s {
      var k :| 0 <= k < |s| && s[k] == c;
      assert r[k] == c;
    }
  }

  /** `q` occurs in `s` starting at offset `i`. */
  predicate OccursAt(s: string, q: string, i: int) {
    0 <= i && i + |q| <= |s| && s[i..i + |q|] == q
  }

  /** String.prototype.includes: scans `s` for an occurrence of `q`. */
  function Contains(s: string, q: string): (b: bool)
    ensures b <==> exists i :: OccursAt(s, q, i)
  {
    if |q| <= |s| && s[..|q|] == q then
      assert OccursAt(s, q, 0);
      true
    else if s == [] then
      false
    else
      var b := Contains(s[1..], q);
      assert forall i :: OccursAt(s[1..], q, i) ==> OccursAt(s, q, i + 1) by {
        forall i | OccursAt(s[1..], q, i) ensures OccursAt(s, q, i + 1) {
          assert s[1..][i..i + |q|] == s[i + 1..i + 1 + |q|];
        }
      }
      assert forall i :: OccursAt(s, q, i) && i > 0 ==> OccursAt(s[1..], q, i - 1) by {
        forall i | OccursAt(s, q, i) && i > 0 ensures OccursAt(s[1..], q, i - 1) {
          assert s[1..][i - 1..i - 1 + |q|] == s[i..i + |q|];
        }
      }
      b
  }

  /** Every string contains itself, and a string is only contained in one at
      least as long. */
  lemma ContainsSelfAndLength(s: string, q: string)
    ensures Contains(s, s)
    ensures Contains(s, q) ==> |q| <= |s|
  {
    assert OccursAt(s, s, 0);
  }

  /** A string holding none of `q`'s first character does not contain `q`. */
  lemma ContainsFirstChar(s: string, q: string)
    requires q != [] && q[0] !in s
    ensures !Contains(s, q)
  {
  }
}

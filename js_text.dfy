/**
 * The character classes and string operations of JavaScript that the resolver
 * relies on: the whitespace set shared by the regular-expression class `\s` and
 * by `String.prototype.trim`, ASCII digits and letters, and `trim` itself.
 */
module JsText {

  /**
   * JavaScript's whitespace: the WhiteSpace and LineTerminator code points,
   * which both the regular-expression class `\s` and `String.prototype.trim`
   * use.
   */
  predicate IsJsWhitespace(c: char) {
    if c < '\U{80}' then
      c == ' ' || '\t' <= c <= '\r'   // tab, line feed, vertical tab, form feed, carriage return
    else
      || c == '\U{A0}' || c == '\U{1680}' || '\U{2000}' <= c <= '\U{200A}'
      || c == '\U{2028}' || c == '\U{2029}' || c == '\U{202F}' || c == '\U{205F}'
      || c == '\U{3000}' || c == '\U{FEFF}'
  }

  /** `\d` outside Unicode mode: ASCII digits only. */
  predicate IsDigit(c: char) {
    '0' <= c <= '9'
  }

  predicate IsAsciiUpper(c: char) {
    'A' <= c <= 'Z'
  }

  predicate IsAsciiLower(c: char) {
    'a' <= c <= 'z'
  }

  /** Some character of `s` is not whitespace. */
  predicate HasNonWhitespace(s: string) {
    exists i :: 0 <= i < |s| && !IsJsWhitespace(s[i])
  }

  /** The number of whitespace characters `s` starts with. */
  function LeadingWhitespace(s: string): (n: nat)
    ensures n <= |s| && forall k :: 0 <= k < n ==> IsJsWhitespace(s[k])
    ensures n == |s| || !IsJsWhitespace(s[n])
  {
    if s != [] && IsJsWhitespace(s[0]) then
      var n := 1 + LeadingWhitespace(s[1..]);
      assert forall k :: 1 <= k < n ==> s[k] == s[1..][k - 1];
      n
    else
      0
  }

  /**
   * Where the whitespace `s` ends with begins: every character from there on
   * is whitespace, and the one before it, if any, is not.
   */
  function TrailingWhitespaceStart(s: string): (m: nat)
    ensures m <= |s| && forall k :: m <= k < |s| ==> IsJsWhitespace(s[k])
    ensures m == 0 || !IsJsWhitespace(s[m - 1])
  {
    if s != [] && IsJsWhitespace(s[|s| - 1]) then
      var m := TrailingWhitespaceStart(s[..|s| - 1]);
      assert forall k :: m <= k < |s| - 1 ==> s[k] == s[..|s| - 1][k];
      m
    else
      |s|
  }

  /** Every character of `s` before `i` and from `j` on is whitespace. */
  predicate WhitespaceOutside(s: string, i: int, j: int)
    requires 0 <= i <= j <= |s|
  {
    (forall k :: 0 <= k < i ==> IsJsWhitespace(s[k]))
    && (forall k :: j <= k < |s| ==> IsJsWhitespace(s[k]))
  }

  /**
   * `String.prototype.trim`: the slice of `s` left when the whitespace at
   * both ends is removed, which neither starts nor ends with whitespace.
   */
  function Trim(s: string): (r: string)
    ensures exists i, j :: 0 <= i <= j <= |s| && r == s[i..j] && WhitespaceOutside(s, i, j)
    ensures r == [] || (!IsJsWhitespace(r[0]) && !IsJsWhitespace(r[|r| - 1]))
  {
    var i := LeadingWhitespace(s);
    var m := TrailingWhitespaceStart(s);
    var j := if m < i then i else m;
    assert WhitespaceOutside(s, i, j);
    s[i..j]
  }

  /** Trimming leaves something exactly when `s` is not blank. */
  lemma TrimEmptyIffBlank(s: string)
    ensures |Trim(s)| > 0 <==> HasNonWhitespace(s)
  {
    var r := Trim(s);
    var i, j :| 0 <= i <= j <= |s| && r == s[i..j] && WhitespaceOutside(s, i, j);
    if |r| > 0 {
      assert r[0] == s[i];
    }
    if HasNonWhitespace(s) {
      var k :| 0 <= k < |s| && !IsJsWhitespace(s[k]);
      assert i <= k < j;
    }
  }

  /**
   * Trimming is the only way to cut `s` into leading whitespace, a middle
   * that is empty or starts and ends with a non-whitespace character, and
   * trailing whitespace.
   */
  lemma TrimUnique(s: string, i: int, j: int)
    requires 0 <= i <= j <= |s| && WhitespaceOutside(s, i, j)
    requires i == j || (!IsJsWhitespace(s[i]) && !IsJsWhitespace(s[j - 1]))
    ensures Trim(s) == s[i..j]
  {
    if i < j {
      assert LeadingWhitespace(s) == i;
      assert TrailingWhitespaceStart(s) == j;
    } else {
      TrimEmptyIffBlank(s);
    }
  }

  /** Concatenation is associative; stated once so that proofs can cite it. */
  lemma AppendAssoc(x: string, y: string, z: string)
    ensures x + (y + z) == (x + y) + z
  {
  }
}

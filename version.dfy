/**
 * The version check of `_getCliVersion`: the pattern
 * `^\d+\.\d+\.\d+(-[\w\d-.]+)?$` as a character-level recogniser, and the
 * version strings it accepts described as the rendering of their parts.
 */
module Version {
  import opened Options
  import opened JsText

  /** A member of `[\w\d-.]`: an ASCII letter or digit, `_`, `-` or `.`. */
  predicate IsPreReleaseChar(c: char) {
    IsAsciiLower(c) || IsAsciiUpper(c) || IsDigit(c) || c == '_' || c == '-' || c == '.'
  }

  predicate IsDigitText(s: string) {
    forall i :: 0 <= i < |s| ==> IsDigit(s[i])
  }

  predicate IsPreReleaseText(s: string) {
    forall i :: 0 <= i < |s| ==> IsPreReleaseChar(s[i])
  }

  /** The length of the longest prefix of `s` made of digits. */
  function LeadingDigits(s: string): (n: nat)
    ensures n <= |s| && IsDigitText(s[..n])
    ensures n == |s| || !IsDigit(s[n])
  {
    if s == [] || !IsDigit(s[0]) then 0
    else
      var n := 1 + LeadingDigits(s[1..]);
      assert s[..n] == [s[0]] + s[1..][..n - 1];
      n
  }

  /** Splits `s` after its leading digits. */
  function SplitDigits(s: string): (r: (string, string))
    ensures r.0 + r.1 == s && IsDigitText(r.0)
    ensures r.1 == [] || !IsDigit(r.1[0])
  {
    var n := LeadingDigits(s);
    assert s[..n] + s[n..] == s;
    (s[..n], s[n..])
  }

  /**
   * What follows the third digit group: nothing, or `-` and one or more
   * pre-release characters.
   */
  predicate IsVersionTail(s: string) {
    s == [] || (s[0] == '-' && |s| > 1 && IsPreReleaseText(s[1..]))
  }

  /**
   * `dots` more digit groups each followed by `.`, then a last digit group and
   * the tail.
   */
  predicate IsGroupsThenTail(s: string, dots: nat)
    decreases dots
  {
    var (group, rest) := SplitDigits(s);
    |group| > 0 &&
    if dots == 0 then IsVersionTail(rest)
    else rest != [] && rest[0] == '.' && IsGroupsThenTail(rest[1..], dots - 1)
  }

  /**
   * The pattern of `_getCliVersion`. A digit group cannot contain `.` or `-`,
   * so each `\d+` takes exactly the digits that follow it and no backtracking
   * can change the match.
   */
  predicate IsVersionText(s: string) {
    IsGroupsThenTail(s, 2)
  }

  /** A version string split into the parts the pattern names. */
  datatype VersionParts = VersionParts(major: string, minor: string, patch: string, preRelease: Option<string>)

  predicate WellFormed(v: VersionParts) {
    && |v.major| > 0 && IsDigitText(v.major)
    && |v.minor| > 0 && IsDigitText(v.minor)
    && |v.patch| > 0 && IsDigitText(v.patch)
    && (v.preRelease.Some? ==> |v.preRelease.value| > 0 && IsPreReleaseText(v.preRelease.value))
  }

  function Render(v: VersionParts): string {
    v.major + "." + v.minor + "." + v.patch
      + (if v.preRelease.Some? then "-" + v.preRelease.value else "")
  }

  /** Splits an accepted version string into its parts; rendering them gives it back. */
  function Parse(s: string): (v: VersionParts)
    requires IsVersionText(s)
    ensures WellFormed(v) && Render(v) == s
  {
    var p1 := SplitDigits(s);
    GroupThenDot(s, 2);
    var p2 := SplitDigits(p1.1[1..]);
    GroupThenDot(p1.1[1..], 1);
    var p3 := SplitDigits(p2.1[1..]);
    LastGroup(p2.1[1..]);
    var pre := if p3.1 == [] then None else Some(p3.1[1..]);
    PreReleaseTail(p3.1);
    RenderSplits(p1.0, p2.0, p3.0, p3.1, pre, p1.1, p2.1, s);
    VersionParts(p1.0, p2.0, p3.0, pre)
  }

  /** One step of the recogniser: a digit group, a `.`, and `dots - 1` more groups then the tail. */
  lemma GroupThenDot(s: string, dots: nat)
    requires dots > 0 && IsGroupsThenTail(s, dots)
    ensures var (group, rest) := SplitDigits(s);
            |group| > 0 && rest != [] && rest[0] == '.' && IsGroupsThenTail(rest[1..], dots - 1)
  {
  }

  /** The last step of the recogniser: a digit group and the tail. */
  lemma LastGroup(s: string)
    requires IsGroupsThenTail(s, 0)
    ensures var (group, rest) := SplitDigits(s);
            |group| > 0 && IsVersionTail(rest)
  {
  }

  lemma PreReleaseTail(tail: string)
    requires IsVersionTail(tail)
    ensures tail != [] ==> tail == "-" + tail[1..] && |tail[1..]| > 0 && IsPreReleaseText(tail[1..])
  {
    if tail != [] {
      assert tail == [tail[0]] + tail[1..];
    }
  }

  lemma RenderSplits(major: string, minor: string, patch: string, tail: string,
                     pre: Option<string>, r1: string, r2: string, s: string)
    requires s == major + r1 && r1 != [] && r1[0] == '.' && r1[1..] == minor + r2
    requires r2 != [] && r2[0] == '.' && r2[1..] == patch + tail
    requires tail == (if pre.Some? then "-" + pre.value else "")
    ensures Render(VersionParts(major, minor, patch, pre)) == s
  {
    assert r2 == "." + patch + tail;
    assert r1 == "." + minor + "." + patch + tail;
  }

  lemma {:induction false} SplitDigitsOfGroup(d: string, rest: string)
    requires IsDigitText(d)
    requires rest == [] || !IsDigit(rest[0])
    ensures SplitDigits(d + rest) == (d, rest)
    decreases |d|
  {
    if d == [] {
      assert d + rest == rest;
    } else {
      assert (d + rest)[1..] == d[1..] + rest;
      SplitDigitsOfGroup(d[1..], rest);
      var n := LeadingDigits(d + rest);
      assert n == |d|;
      assert (d + rest)[..n] == d;
      assert (d + rest)[n..] == rest;
    }
  }

  /** Every well-formed rendering is accepted, and parses back to the same parts. */
  lemma RenderParses(v: VersionParts)
    requires WellFormed(v)
    ensures IsVersionText(Render(v)) && Parse(Render(v)) == v
  {
    var tail := if v.preRelease.Some? then "-" + v.preRelease.value else "";
    var r2 := "." + (v.patch + tail);
    var r1 := "." + (v.minor + r2);
    var s := v.major + r1;
    RenderNested(v, tail);
    SplitDigitsOfGroup(v.patch, tail);
    assert IsGroupsThenTail(v.patch + tail, 0);
    assert r2[1..] == v.patch + tail;
    SplitDigitsOfGroup(v.minor, r2);
    assert IsGroupsThenTail(v.minor + r2, 1);
    assert r1[1..] == v.minor + r2;
    SplitDigitsOfGroup(v.major, r1);
    assert IsGroupsThenTail(s, 2);
  }

  /** `Render` with its concatenations grouped from the right. */
  lemma RenderNested(v: VersionParts, tail: string)
    requires tail == if v.preRelease.Some? then "-" + v.preRelease.value else ""
    ensures Render(v) == v.major + ("." + (v.minor + ("." + (v.patch + tail))))
  {
    AppendAssoc(".", v.patch, tail);
    AppendAssoc(v.minor, "." + v.patch, tail);
    AppendAssoc(v.minor, ".", v.patch);
    AppendAssoc(".", v.minor + "." + v.patch, tail);
    AppendAssoc(".", v.minor, "." + v.patch);
    AppendAssoc(v.major, "." + v.minor + "." + v.patch, tail);
    AppendAssoc(v.major, "." + v.minor, "." + v.patch);
    AppendAssoc(v.major, ".", v.minor);
    AppendAssoc(v.major + "." + v.minor, ".", v.patch);
  }

  /** The pattern accepts exactly the renderings of well-formed parts. */
  lemma VersionTextIff(s: string)
    ensures IsVersionText(s) <==> exists v :: WellFormed(v) && Render(v) == s
  {
    if IsVersionText(s) {
      var v := Parse(s);
      assert WellFormed(v) && Render(v) == s;
    }
    if exists v :: WellFormed(v) && Render(v) == s {
      var v :| WellFormed(v) && Render(v) == s;
      RenderParses(v);
    }
  }

  /** Two well-formed versions render alike only when their parts are equal. */
  lemma RenderInjective(v: VersionParts, w: VersionParts)
    requires WellFormed(v) && WellFormed(w) && Render(v) == Render(w)
    ensures v == w
  {
    RenderParses(v);
    RenderParses(w);
  }
}

/**
 * The `slugify` and `isCliNameValid` helpers of `_getCliName`: lower-case the
 * candidate, turn each run of whitespace into one `-`, drop every character
 * outside `[a-z0-9-_]`, and accept the result when it is a non-empty word over
 * that alphabet.
 */
module Slug {
  import opened JsText

  /** U+212A KELVIN SIGN, whose lower-case form is the ASCII letter `k`. */
  const KelvinSign: char := '\U{212A}'
  /** U+0130, whose lower-case form is `i` followed by U+0307. */
  const CapitalIWithDotAbove: char := '\U{130}'
  const CombiningDotAbove: char := '\U{307}'

  /** A member of the class `[a-z0-9-_]`. */
  predicate IsSlugChar(c: char) {
    IsAsciiLower(c) || IsDigit(c) || c == '-' || c == '_'
  }

  predicate IsSlugText(s: string) {
    forall i :: 0 <= i < |s| ==> IsSlugChar(s[i])
  }

  /** `isCliNameValid`: the whole string matches `[a-z0-9-_]+`. */
  predicate IsCliNameValid(s: string) {
    |s| > 0 && IsSlugText(s)
  }

  /**
   * `toLowerCase` of one character, exact on every character whose lower-case
   * form contains an ASCII character. Every other character is kept as it is;
   * its true lower-case form holds no ASCII character and no whitespace, so
   * the strip step removes both alike.
   */
  function LowerChar(c: char): seq<char> {
    if IsAsciiUpper(c) then [(c as int + 32) as char]
    else if c == KelvinSign then ['k']
    else if c == CapitalIWithDotAbove then ['i', CombiningDotAbove]
    else [c]
  }

  function Lower(s: string): string {
    if s == [] then [] else LowerChar(s[0]) + Lower(s[1..])
  }

  /**
   * `replace(/\s+/g, "-")`: each maximal run of whitespace becomes one `-`.
   * `inRun` says whether the character before `s` was whitespace, so that the
   * run it belongs to has already produced its `-`.
   */
  function CollapseRuns(s: string, inRun: bool): string {
    if s == [] then []
    else if IsJsWhitespace(s[0]) then
      (if inRun then [] else "-") + CollapseRuns(s[1..], true)
    else [s[0]] + CollapseRuns(s[1..], false)
  }

  function CollapseWhitespace(s: string): string {
    CollapseRuns(s, false)
  }

  /** `replace(/[^a-z0-9-_]/g, "")`: keeps exactly the slug characters, in order. */
  function StripNonSlug(s: string): (r: string)
    ensures IsSlugText(r) && |r| <= |s|
    ensures |r| > 0 <==> exists i :: 0 <= i < |s| && IsSlugChar(s[i])
  {
    if s == [] then []
    else if IsSlugChar(s[0]) then
      [s[0]] + StripNonSlug(s[1..])
    else
      var r := StripNonSlug(s[1..]);
      assert (exists i :: 0 <= i < |s| && IsSlugChar(s[i])) ==> |r| > 0 by {
        if exists i :: 0 <= i < |s| && IsSlugChar(s[i]) {
          var i :| 0 <= i < |s| && IsSlugChar(s[i]);
          assert s[1..][i - 1] == s[i];
        }
      }
      r
  }

  /** `slugify`: its result always lies in the slug alphabet. */
  function Slugify(s: string): (r: string)
    ensures IsSlugText(r)
  {
    StripNonSlug(CollapseWhitespace(Lower(s)))
  }

  /**
   * A character that leaves a trace in the slug: whitespace (which becomes
   * `-`), a slug character, an ASCII capital, or one of the two non-ASCII
   * capitals whose lower-case form contains an ASCII letter.
   */
  predicate Contributes(c: char) {
    IsJsWhitespace(c) || IsSlugChar(c) || IsAsciiUpper(c) || c == KelvinSign || c == CapitalIWithDotAbove
  }

  /** A character that survives the strip step once whitespace has become `-`. */
  predicate Survives(c: char) {
    IsJsWhitespace(c) || IsSlugChar(c)
  }

  /** Some character of `s` satisfies `p`. */
  predicate SomeChar(s: string, p: char -> bool) {
    exists i :: 0 <= i < |s| && p(s[i])
  }

  lemma SomeCharAppend(a: string, b: string, p: char -> bool)
    ensures SomeChar(a + b, p) <==> SomeChar(a, p) || SomeChar(b, p)
  {
    if SomeChar(a + b, p) {
      var i :| 0 <= i < |a + b| && p((a + b)[i]);
      if i >= |a| {
        assert b[i - |a|] == (a + b)[i];
      }
    }
    if SomeChar(a, p) {
      var i :| 0 <= i < |a| && p(a[i]);
      assert (a + b)[i] == a[i];
    }
    if SomeChar(b, p) {
      var i :| 0 <= i < |b| && p(b[i]);
      assert (a + b)[|a| + i] == b[i];
    }
  }

  lemma {:induction false} LowerFixesSlugText(s: string)
    requires IsSlugText(s)
    ensures Lower(s) == s
  {
    if s != [] {
      LowerFixesSlugText(s[1..]);
    }
  }

  lemma {:induction false} CollapseFixesSlugText(s: string, inRun: bool)
    requires IsSlugText(s)
    ensures CollapseRuns(s, inRun) == s
  {
    if s != [] {
      assert !IsJsWhitespace(s[0]);
      CollapseFixesSlugText(s[1..], false);
    }
  }

  lemma {:induction false} StripFixesSlugText(s: string)
    requires IsSlugText(s)
    ensures StripNonSlug(s) == s
  {
    if s != [] {
      StripFixesSlugText(s[1..]);
    }
  }

  /** A string already in the slug alphabet is its own slug. */
  lemma SlugifyFixesSlugText(s: string)
    requires IsSlugText(s)
    ensures Slugify(s) == s
  {
    LowerFixesSlugText(s);
    CollapseFixesSlugText(s, false);
    StripFixesSlugText(s);
  }

  /** Slugifying twice is slugifying once. */
  lemma SlugifyIdempotent(s: string)
    ensures Slugify(Slugify(s)) == Slugify(s)
  {
    SlugifyFixesSlugText(Slugify(s));
  }

  /** A slug passes `isCliNameValid` exactly when it is not empty. */
  lemma SlugValidIffNonEmpty(s: string)
    ensures IsCliNameValid(Slugify(s)) <==> Slugify(s) != []
  {
  }

  lemma {:induction false} CollapseSurvivorsIff(u: string)
    ensures SomeChar(CollapseWhitespace(u), IsSlugChar) <==> SomeChar(u, Survives)
  {
    if u != [] {
      assert u == [u[0]] + u[1..];
      SomeCharAppend([u[0]], u[1..], Survives);
      assert SomeChar([u[0]], Survives) <==> Survives(u[0]);
      if IsJsWhitespace(u[0]) {
        assert CollapseWhitespace(u)[0] == '-';
      } else {
        var tail := CollapseWhitespace(u[1..]);
        assert CollapseWhitespace(u) == [u[0]] + tail;
        CollapseSurvivorsIff(u[1..]);
        SomeCharAppend([u[0]], tail, IsSlugChar);
        assert SomeChar([u[0]], IsSlugChar) <==> IsSlugChar(u[0]);
      }
    }
  }

  lemma {:induction false} LowerSurvivorsIff(s: string)
    ensures SomeChar(Lower(s), Survives) <==> SomeChar(s, Contributes)
  {
    if s != [] {
      var head := LowerChar(s[0]);
      assert SomeChar(head, Survives) <==> Contributes(s[0]) by {
        if Contributes(s[0]) {
          assert Survives(head[0]);
        }
      }
      LowerSurvivorsIff(s[1..]);
      SomeCharAppend(head, Lower(s[1..]), Survives);
      assert s == [s[0]] + s[1..];
      SomeCharAppend([s[0]], s[1..], Contributes);
      assert SomeChar([s[0]], Contributes) <==> Contributes(s[0]);
    }
  }

  /**
   * A candidate is accepted as a CLI name exactly when one of its characters
   * contributes to the slug.
   */
  lemma SlugAcceptedIff(s: string)
    ensures IsCliNameValid(Slugify(s)) <==> exists i :: 0 <= i < |s| && Contributes(s[i])
  {
    LowerSurvivorsIff(s);
    CollapseSurvivorsIff(Lower(s));
  }

  lemma {:induction false} LowerOfWhitespace(s: string)
    requires forall i :: 0 <= i < |s| ==> IsJsWhitespace(s[i])
    ensures Lower(s) == s
  {
    if s != [] {
      assert !IsAsciiUpper(s[0]) && s[0] != KelvinSign && s[0] != CapitalIWithDotAbove;
      LowerOfWhitespace(s[1..]);
    }
  }

  lemma {:induction false} CollapseInsideRun(s: string)
    requires forall i :: 0 <= i < |s| ==> IsJsWhitespace(s[i])
    ensures CollapseRuns(s, true) == []
  {
    if s != [] {
      CollapseInsideRun(s[1..]);
    }
  }

  /** A non-empty run of whitespace, and nothing else, slugifies to a single `-`. */
  lemma WhitespaceRunIsOneHyphen(s: string)
    requires |s| > 0 && forall i :: 0 <= i < |s| ==> IsJsWhitespace(s[i])
    ensures Slugify(s) == "-"
  {
    LowerOfWhitespace(s);
    CollapseInsideRun(s[1..]);
    assert CollapseWhitespace(s) == "-";
    assert StripNonSlug("-") == "-" + StripNonSlug([]);
  }

  lemma {:induction false} LowerAppend(a: string, b: string)
    ensures Lower(a + b) == Lower(a) + Lower(b)
  {
    if a == [] {
      assert a + b == b;
    } else {
      assert (a + b)[1..] == a[1..] + b;
      LowerAppend(a[1..], b);
      assert Lower(a + b) == LowerChar(a[0]) + Lower(a[1..] + b);
    }
  }

  /** Whether a whitespace run is open after reading `s` from state `inRun`. */
  function RunOpenAfter(s: string, inRun: bool): bool {
    if s == [] then inRun else IsJsWhitespace(s[|s| - 1])
  }

  lemma {:induction false} CollapseAppend(a: string, b: string, inRun: bool)
    ensures CollapseRuns(a + b, inRun) == CollapseRuns(a, inRun) + CollapseRuns(b, RunOpenAfter(a, inRun))
  {
    if a == [] {
      assert a + b == b;
    } else {
      var next := IsJsWhitespace(a[0]);
      var head := if next then (if inRun then [] else "-") else [a[0]];
      var after := RunOpenAfter(a, inRun);
      CollapseCons(a + b, inRun);
      CollapseCons(a, inRun);
      assert (a + b)[1..] == a[1..] + b;
      CollapseAppend(a[1..], b, next);
      assert RunOpenAfter(a[1..], next) == after;
      AppendAssoc(head, CollapseRuns(a[1..], next), CollapseRuns(b, after));
    }
  }

  lemma CollapseCons(s: string, inRun: bool)
    requires s != []
    ensures CollapseRuns(s, inRun)
            == (if IsJsWhitespace(s[0]) then (if inRun then [] else "-") else [s[0]])
               + CollapseRuns(s[1..], IsJsWhitespace(s[0]))
  {
  }

  lemma CollapseFromNonWhitespace(b: string, inRun: bool)
    requires b == [] || !IsJsWhitespace(b[0])
    ensures CollapseRuns(b, inRun) == CollapseRuns(b, false)
  {
  }

  lemma LowerKeepsLeadingNonWhitespace(b: string)
    requires b != [] && !IsJsWhitespace(b[0])
    ensures Lower(b) != [] && !IsJsWhitespace(Lower(b)[0])
  {
    var head := LowerChar(b[0]);
    assert Lower(b) == head + Lower(b[1..]);
    assert Lower(b)[0] == head[0];
  }

  lemma {:induction false} StripAppend(a: string, b: string)
    ensures StripNonSlug(a + b) == StripNonSlug(a) + StripNonSlug(b)
  {
    if a == [] {
      assert a + b == b;
    } else {
      assert (a + b)[1..] == a[1..] + b;
      StripAppend(a[1..], b);
    }
  }

  lemma LowerKeepsTrailingNonWhitespace(a: string)
    requires a != [] && !IsJsWhitespace(a[|a| - 1])
    ensures Lower(a) != [] && !IsJsWhitespace(Lower(a)[|Lower(a)| - 1])
  {
    var init, last := a[..|a| - 1], a[|a| - 1];
    assert a == init + [last];
    LowerAppend(init, [last]);
    assert Lower([last]) == LowerChar(last) + Lower([]);
  }

  /**
   * Slugify works piece by piece: cutting a candidate anywhere but inside a
   * run of whitespace cuts its slug the same way.
   */
  lemma SlugifyAppend(a: string, b: string)
    requires a == [] || b == [] || !IsJsWhitespace(a[|a| - 1]) || !IsJsWhitespace(b[0])
    ensures Slugify(a + b) == Slugify(a) + Slugify(b)
  {
    LowerAppend(a, b);
    CollapseAppend(Lower(a), Lower(b), false);
    if b != [] && !IsJsWhitespace(b[0]) {
      LowerKeepsLeadingNonWhitespace(b);
      CollapseFromNonWhitespace(Lower(b), RunOpenAfter(Lower(a), false));
    } else if a != [] && b != [] {
      LowerKeepsTrailingNonWhitespace(a);
    }
    StripAppend(CollapseWhitespace(Lower(a)), CollapseWhitespace(Lower(b)));
  }
}

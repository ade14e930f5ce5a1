/** The slug chain shared by both `sanitizeName` functions of the site:
    `.replace(/[^a-z0-9]+/g, '-').replace(/^-|-$/g, '')`. */
module Slug {
  import opened Strings

  /** The characters `[a-z0-9]` that the first replacement leaves alone. */
  predicate IsKept(c: char) { IsLower(c) || IsDigit(c) }

  predicate IsSlugChar(c: char) { IsKept(c) || c == '-' }

  /** Only `[a-z0-9-]`, never two dashes in a row, no dash at either end. */
  predicate IsSlug(s: string) {
    && (forall i :: 0 <= i < |s| ==> IsSlugChar(s[i]))
    && (forall i :: 0 <= i < |s| - 1 ==> s[i] == '-' ==> s[i + 1] != '-')
    && (s == [] || (s[0] != '-' && s[|s| - 1] != '-'))
  }

  /** Drops the run of characters outside `[a-z0-9]` at the start of `s`. */
  function SkipRun(s: string): (r: string)
    ensures |r| <= |s| && r == s[|s| - |r|..]
    ensures r == [] || IsKept(r[0])
    ensures forall i :: 0 <= i < |s| - |r| ==> !IsKept(s[i])
  {
    if s != [] && !IsKept(s[0]) then
      var r := SkipRun(s[1..]);
      assert s[1..][|s| - 1 - |r|..] == s[|s| - |r|..];
      assert forall i :: 1 <= i < |s| - |r| ==> s[i] == s[1..][i - 1];
      r
    else s
  }

  /** `s.replace(/[^a-z0-9]+/g, '-')`: every maximal run outside `[a-z0-9]`
      becomes one dash. */
  function CollapseRuns(s: string): (r: string)
    ensures forall i :: 0 <= i < |r| ==> IsSlugChar(r[i])
    ensures forall i :: 0 <= i < |r| - 1 ==> r[i] == '-' ==> r[i + 1] != '-'
    ensures r == [] <==> s == []
    ensures s != [] ==> (r[0] == '-' <==> !IsKept(s[0]))
    decreases |s|
  {
    if s == [] then []
    else if IsKept(s[0]) then [s[0]] + CollapseRuns(s[1..])
    else "-" + CollapseRuns(SkipRun(s[1..]))
  }

  /** `s.replace(/^-|-$/g, '')`: one leading and one trailing dash removed. */
  function StripDashes(s: string): (r: string)
    ensures |r| <= |s|
  {
    var a := if s != [] && s[0] == '-' then s[1..] else s;
    if a != [] && a[|a| - 1] == '-' then a[..|a| - 1] else a
  }

  function Slugify(s: string): (r: string)
    ensures IsSlug(r)
  {
    var c := CollapseRuns(s);
    var r := StripDashes(c);
    assert forall i :: 0 <= i < |r| ==> IsSlugChar(r[i]) by {
      var a := if c != [] && c[0] == '-' then c[1..] else c;
      assert forall i :: 0 <= i < |a| ==> IsSlugChar(a[i]);
    }
    r
  }

  /** On a string that is already a slug, each step of the chain is the identity. */
  lemma {:induction false} CollapseRunsOfSlugChars(s: string)
    requires forall i :: 0 <= i < |s| ==> IsSlugChar(s[i])
    requires forall i :: 0 <= i < |s| - 1 ==> s[i] == '-' ==> s[i + 1] != '-'
    ensures CollapseRuns(s) == s
  {
    if s != [] {
      CollapseRunsOfSlugChars(s[1..]);
      if !IsKept(s[0]) {
        assert SkipRun(s[1..]) == s[1..];
      }
    }
  }

  lemma SlugifyOfSlug(s: string)
    requires IsSlug(s)
    ensures Slugify(s) == s
  {
    CollapseRunsOfSlugChars(s);
  }

  /** The characters of `s` inside `[a-z0-9]`, in order. */
  function KeptChars(s: string): (r: string)
    ensures forall i :: 0 <= i < |r| ==> IsKept(r[i])
  {
    if s == [] then [] else (if IsKept(s[0]) then [s[0]] else []) + KeptChars(s[1..])
  }

  lemma {:induction false} KeptCharsSkipRun(s: string)
    ensures KeptChars(SkipRun(s)) == KeptChars(s)
  {
    if s != [] && !IsKept(s[0]) {
      KeptCharsSkipRun(s[1..]);
    }
  }

  lemma {:induction false} RemoveCharAppend(a: string, b: string, c: char)
    ensures RemoveChar(a + b, c) == RemoveChar(a, c) + RemoveChar(b, c)
  {
    if a != [] {
      assert (a + b)[0] == a[0];
      assert (a + b)[1..] == a[1..] + b;
      RemoveCharAppend(a[1..], b, c);
    } else {
      assert a + b == b;
    }
  }

  lemma {:induction false} CollapseRunsKeepsLetters(s: string)
    ensures RemoveChar(CollapseRuns(s), '-') == KeptChars(s)
    decreases |s|
  {
    if s != [] {
      if IsKept(s[0]) {
        CollapseRunsKeepsLetters(s[1..]);
        RemoveCharAppend([s[0]], CollapseRuns(s[1..]), '-');
      } else {
        CollapseRunsKeepsLetters(SkipRun(s[1..]));
        KeptCharsSkipRun(s[1..]);
        RemoveCharAppend("-", CollapseRuns(SkipRun(s[1..])), '-');
      }
    }
  }

  /** Stripping the edge dashes removes dashes only. */
  lemma StripDashesKeepsLetters(c: string)
    ensures RemoveChar(StripDashes(c), '-') == RemoveChar(c, '-')
  {
    var a := if c != [] && c[0] == '-' then c[1..] else c;
    assert RemoveChar(a, '-') == RemoveChar(c, '-') by {
      if c != [] && c[0] == '-' {
        assert c == "-" + a;
        RemoveCharAppend("-", a, '-');
      }
    }
    if a != [] && a[|a| - 1] == '-' {
      assert a == a[..|a| - 1] + "-";
      RemoveCharAppend(a[..|a| - 1], "-", '-');
    }
  }

  /** Apart from its dashes, a slug consists of exactly the `[a-z0-9]` characters of
      its input, in their original order: slugging loses separators, never letters. */
  lemma SlugifyKeepsLetters(s: string)
    ensures RemoveChar(Slugify(s), '-') == KeptChars(s)
  {
    CollapseRunsKeepsLetters(s);
    StripDashesKeepsLetters(CollapseRuns(s));
  }

  // ----- where the dashes go -----

  /** A run outside `[a-z0-9]` is skipped up to the first kept character. */
  lemma {:induction false} SkipRunOf(w: string, b: string)
    requires forall i :: 0 <= i < |w| ==> !IsKept(w[i])
    requires b == [] || IsKept(b[0])
    ensures SkipRun(w + b) == b
  {
    if w == [] {
      assert w + b == b;
    } else {
      assert (w + b)[0] == w[0] && (w + b)[1..] == w[1..] + b;
      SkipRunOf(w[1..], b);
    }
  }

  lemma CollapseKeep(c: char, t: string)
    requires IsKept(c)
    ensures CollapseRuns([c] + t) == [c] + CollapseRuns(t)
  {
    assert ([c] + t)[0] == c && ([c] + t)[1..] == t;
  }

  /** A run outside `[a-z0-9]` in front of `b` becomes one dash. */
  lemma CollapseLead(w: string, b: string)
    requires w != [] && forall i :: 0 <= i < |w| ==> !IsKept(w[i])
    requires b == [] || IsKept(b[0])
    ensures CollapseRuns(w + b) == "-" + CollapseRuns(b)
  {
    SkipRunOf(w[1..], b);
    assert (w + b)[0] == w[0] && (w + b)[1..] == w[1..] + b;
  }

  /** A kept first character stays in front. */
  lemma CollapseKeepFront(a: string, x: string, t: string)
    requires a != [] && IsKept(a[0])
    requires CollapseRuns(x) == a[1..] + "-" + t
    ensures CollapseRuns([a[0]] + x) == a + "-" + t
  {
    CollapseKeep(a[0], x);
    assert [a[0]] + (a[1..] + "-" + t) == a + "-" + t;
  }

  lemma ConsOfThree(a: string, w: string, b: string)
    requires a != []
    ensures a + w + b == [a[0]] + (a[1..] + w + b)
  {
  }

  /** The first replacement: the kept text before the first run outside `[a-z0-9]`
      stays as it is and the run, however long, becomes a single dash. */
  lemma {:induction false} CollapseRunsRun(a: string, w: string, b: string)
    requires forall i :: 0 <= i < |a| ==> IsKept(a[i])
    requires w != [] && forall i :: 0 <= i < |w| ==> !IsKept(w[i])
    requires b == [] || IsKept(b[0])
    ensures CollapseRuns(a + w + b) == a + "-" + CollapseRuns(b)
  {
    if a == [] {
      CollapseLead(w, b);
      assert a + w + b == w + b;
      assert a + "-" + CollapseRuns(b) == "-" + CollapseRuns(b);
    } else {
      CollapseRunsRun(a[1..], w, b);
      CollapseKeepFront(a, a[1..] + w + b, CollapseRuns(b));
      ConsOfThree(a, w, b);
    }
  }

  /** Stripping the edge dashes of `p + t`, where neither starts with a dash and
      `t` is not empty, strips only the end of `t`. */
  lemma StripDashesAfter(p: string, t: string)
    requires p != [] && p[0] != '-' && t != [] && t[0] != '-'
    ensures StripDashes(p + t) == p + StripDashes(t)
  {
    assert (p + t)[0] == p[0];
    assert (p + t)[|p + t| - 1] == t[|t| - 1];
    if t[|t| - 1] == '-' {
      assert (p + t)[..|p + t| - 1] == p + t[..|t| - 1];
    }
  }

  /** A run outside `[a-z0-9]` at the start leaves no trace. */
  lemma SlugifyLeadRun(w: string, b: string)
    requires w != [] && forall i :: 0 <= i < |w| ==> !IsKept(w[i])
    requires b == [] || IsKept(b[0])
    ensures Slugify(w + b) == Slugify(b)
  {
    CollapseLead(w, b);
    var c := CollapseRuns(b);
    assert ("-" + c)[1..] == c;
  }

  /** A run outside `[a-z0-9]` between two kept characters becomes exactly one
      dash: 'strategy consulting' gives 'strategy-consulting'. */
  lemma SlugifyInnerRun(a: string, w: string, b: string)
    requires a != [] && forall i :: 0 <= i < |a| ==> IsKept(a[i])
    requires w != [] && forall i :: 0 <= i < |w| ==> !IsKept(w[i])
    requires b != [] && IsKept(b[0])
    ensures Slugify(a + w + b) == a + "-" + Slugify(b)
  {
    CollapseRunsRun(a, w, b);
    StripDashesAfter(a + "-", CollapseRuns(b));
  }

  /** Two kept words with a run between them: one dash joins them. */
  lemma SlugifyTwoWords(a: string, w: string, b: string)
    requires a != [] && forall i :: 0 <= i < |a| ==> IsKept(a[i])
    requires w != [] && forall i :: 0 <= i < |w| ==> !IsKept(w[i])
    requires b != [] && forall i :: 0 <= i < |b| ==> IsKept(b[i])
    ensures Slugify(a + w + b) == a + "-" + b
  {
    SlugifyInnerRun(a, w, b);
    SlugifyOfSlug(b);
  }

  /** A run outside `[a-z0-9]` at the end leaves no trace. */
  lemma SlugifyTrailRun(a: string, w: string)
    requires forall i :: 0 <= i < |a| ==> IsKept(a[i])
    requires w != [] && forall i :: 0 <= i < |w| ==> !IsKept(w[i])
    ensures Slugify(a + w) == a
  {
    CollapseRunsRun(a, w, []);
    assert a + w + [] == a + w;
    assert CollapseRuns([]) == [];
    assert (a + "-")[..|a|] == a;
  }
}

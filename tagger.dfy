/** The tag picker of tools/tagger/tagger.js: the taxonomy rendered as coloured tag
    items, the search filter with its highlight, the selection with its copy buffer,
    and the `sanitizeName` that turns the copied titles into tag values.
    `decodeURIComponent` and the NFD normalisation are the identity on the ASCII
    strings modelled here. */
module Tagger {
  import opened Common
  import opened Strings
  import opened Slug
  import Site

  // ----- sanitizeName -----

  predicate IsSpaceOrSlash(c: char) { IsSpace(c) || c == '/' }

  /** The first offset at or after `j` that does not hold whitespace. */
  function SpaceEnd(s: string, j: nat): (k: nat)
    requires j <= |s|
    ensures j <= k <= |s|
    decreases |s| - j
  {
    if j < |s| && IsSpace(s[j]) then SpaceEnd(s, j + 1) else j
  }

  /** A match of `(?<=[^\s/])\s*\/\s*(?=[^\s/])` that starts at offset `i`, given by
      the offset where it ends: a slash with its surrounding whitespace between two
      characters that are neither whitespace nor a slash. */
  function SlashMatch(s: string, i: nat): (r: Option<nat>)
    requires i < |s|
    ensures r.Some? ==> 0 < i < r.value < |s| && !IsSpaceOrSlash(s[i - 1]) && !IsSpaceOrSlash(s[r.value])
  {
    if 0 < i && !IsSpaceOrSlash(s[i - 1]) then
      var j := SpaceEnd(s, i);
      if j < |s| && s[j] == '/' then
        var k := SpaceEnd(s, j + 1);
        if k < |s| && !IsSpaceOrSlash(s[k]) then Some(k) else None
      else None
    else None
  }

  /** `.replace(/(?<=[^\s/])\s*\/\s*(?=[^\s/])/g, '')` from offset `i` on: the
      matches are found left to right, the lookbehind reading the original text;
      a match can only start at whitespace or a slash. */
  function JoinSlashesFrom(s: string, i: nat): (r: string)
    requires i <= |s|
    ensures |r| <= |s| - i
    decreases |s| - i
  {
    if i == |s| then []
    else if !IsSpaceOrSlash(s[i]) then [s[i]] + JoinSlashesFrom(s, i + 1)
    else match SlashMatch(s, i)
      case Some(k) => JoinSlashesFrom(s, k)
      case None => [s[i]] + JoinSlashesFrom(s, i + 1)
  }

  function JoinSlashes(s: string): (r: string) {
    JoinSlashesFrom(s, 0)
  }

  /** One comma-separated part: trimmed, its slashes between words removed, slugged. */
  function SanitizePart(text: string): (r: string)
    ensures IsSlug(r)
  {
    Slugify(JoinSlashes(Trim(text)))
  }

  function SanitizeParts(parts: seq<string>): (r: seq<string>)
    ensures |r| == |parts|
    ensures forall k :: 0 <= k < |parts| ==> r[k] == SanitizePart(parts[k])
  {
    seq(|parts|, k requires 0 <= k < |parts| => SanitizePart(parts[k]))
  }

  /** `sanitizeName(name)` of the tag picker: the empty (falsy) name gives '';
      otherwise the trimmed, lower-cased text is cut at its commas, each part is
      sanitized on its own and the parts are joined with ', '. */
  function SanitizeName(name: string): (r: string)
    ensures name == [] ==> r == []
    ensures r == [] || (!IsSpace(r[0]) && !IsSpace(r[|r| - 1]))
  {
    if name == [] then []
    else Trim(Join(SanitizeParts(Split(ToLower(Trim(name)), ",")), ", "))
  }

  /** The parts that `SanitizeName` produces from `name`. */
  function SanitizedParts(name: string): (r: seq<string>)
    ensures |r| >= 1
  {
    SanitizeParts(Split(ToLower(Trim(name)), ","))
  }

  /** No character of `s[i..n]` is whitespace or a slash. */
  predicate Plain(s: string, i: nat, n: nat)
    requires i <= n <= |s|
    decreases n - i
  {
    i == n || (!IsSpaceOrSlash(s[i]) && Plain(s, i + 1, n))
  }

  lemma {:induction false} PlainOf(s: string, i: nat, n: nat)
    requires i <= n <= |s|
    requires forall m :: i <= m < n ==> !IsSpaceOrSlash(s[m])
    ensures Plain(s, i, n)
    decreases n - i
  {
    if i < n {
      PlainOf(s, i + 1, n);
    }
  }

  /** Characters that are neither whitespace nor a slash are copied one by one. */
  lemma {:induction false} JoinSlashesCopies(s: string, i: nat, n: nat)
    requires i <= n <= |s|
    requires Plain(s, i, n)
    ensures JoinSlashesFrom(s, i) == s[i..n] + JoinSlashesFrom(s, n)
    decreases n - i
  {
    if i < n {
      JoinSlashesCopies(s, i + 1, n);
      assert s[i..n] == [s[i]] + s[i + 1..n];
    }
  }

  lemma {:induction false} SpaceEndOf(s: string, j: nat, n: nat)
    requires j <= n <= |s|
    requires forall m :: j <= m < n ==> IsSpace(s[m])
    requires n == |s| || !IsSpace(s[n])
    ensures SpaceEnd(s, j) == n
    decreases n - j
  {
    if j < n {
      SpaceEndOf(s, j + 1, n);
    }
  }

  /** A non-empty run of characters that survive the slug filter. */
  predicate IsWord(s: string) { s != [] && forall i :: 0 <= i < |s| ==> IsKept(s[i]) }

  /** Only whitespace (or nothing at all). */
  predicate IsBlank(s: string) { forall i :: 0 <= i < |s| ==> IsSpace(s[i]) }

  /** The one match of a text whose only slash sits at `j`, with whitespace from `n`
      to `k` around it, between plain characters. */
  lemma {:induction false} JoinSlashesAround(s: string, n: nat, j: nat, k: nat)
    requires 0 < n <= j < k < |s|
    requires Plain(s, 0, n) && !IsSpaceOrSlash(s[n - 1])
    requires forall m :: n <= m < j ==> IsSpace(s[m])
    requires s[j] == '/'
    requires forall m :: j < m < k ==> IsSpace(s[m])
    requires Plain(s, k, |s|) && !IsSpaceOrSlash(s[k])
    ensures JoinSlashes(s) == s[..n] + s[k..]
  {
    JoinSlashesCopies(s, 0, n);
    assert SlashMatch(s, n) == Some(k) by {
      SpaceEndOf(s, n, j);
      SpaceEndOf(s, j + 1, k);
    }
    assert JoinSlashesFrom(s, n) == JoinSlashesFrom(s, k) by {
      assert IsSpaceOrSlash(s[n]);
    }
    JoinSlashesCopies(s, k, |s|);
    assert s[k..|s|] == s[k..] && s[0..n] == s[..n];
  }

  lemma JoinSlashesOfWords(a: string, sp1: string, sp2: string, b: string)
    requires IsWord(a) && IsBlank(sp1) && IsBlank(sp2) && IsWord(b)
    ensures JoinSlashes(a + sp1 + "/" + sp2 + b) == a + b
  {
    var s := a + sp1 + "/" + sp2 + b;
    var n := |a|;
    var j := n + |sp1|;
    var k := j + 1 + |sp2|;
    assert forall m :: 0 <= m < n ==> s[m] == a[m];
    assert forall m :: n <= m < j ==> s[m] == sp1[m - n];
    assert forall m :: j < m < k ==> s[m] == sp2[m - j - 1];
    assert forall m :: k <= m < |s| ==> s[m] == b[m - k];
    PlainOf(s, 0, n);
    PlainOf(s, k, |s|);
    JoinSlashesAround(s, n, j, k);
    assert s[..n] == a && s[k..] == b;
  }

  /** A slash between two words disappears with the whitespace around it, so
      'win / news' and 'win/news' both become 'winnews'. */
  lemma SanitizePartJoinsWords(a: string, sp1: string, sp2: string, b: string)
    requires IsWord(a) && IsBlank(sp1) && IsBlank(sp2) && IsWord(b)
    ensures SanitizePart(a + sp1 + "/" + sp2 + b) == a + b
  {
    TrimWords(a, sp1, sp2, b);
    JoinSlashesOfWords(a, sp1, sp2, b);
    KeptIsSlug(a, b);
    SlugifyOfSlug(a + b);
  }

  /** Without a slash there is nothing for the slash replacement to remove. */
  lemma {:induction false} JoinSlashesNoSlash(s: string, i: nat)
    requires i <= |s| && forall m :: 0 <= m < |s| ==> s[m] != '/'
    ensures JoinSlashesFrom(s, i) == s[i..]
    decreases |s| - i
  {
    if i < |s| {
      JoinSlashesNoSlash(s, i + 1);
      assert SlashMatch(s, i).None? by {
        if 0 < i && !IsSpaceOrSlash(s[i - 1]) {
          var j := SpaceEnd(s, i);
          assert j < |s| ==> s[j] != '/';
        }
      }
      assert s[i..] == [s[i]] + s[i + 1..];
    }
  }

  /** Two words separated by a run of other characters, none of them a slash, are
      joined by exactly one dash: 'strategy & consulting' gives
      'strategy-consulting'. */
  /** Text with no slash and no edge whitespace reaches the slug step unchanged. */
  lemma SanitizePartNoSlash(s: string)
    requires s != [] && !IsSpace(s[0]) && !IsSpace(s[|s| - 1])
    requires forall m :: 0 <= m < |s| ==> s[m] != '/'
    ensures SanitizePart(s) == Slugify(s)
  {
    TrimNoEdgeSpace(s);
    JoinSlashesNoSlash(s, 0);
    assert s[0..] == s;
  }

  /** The pieces of the joined text carry no slash. */
  lemma NoSlashJoined(a: string, w: string, b: string)
    requires forall i :: 0 <= i < |a| ==> a[i] != '/'
    requires forall i :: 0 <= i < |w| ==> w[i] != '/'
    requires forall i :: 0 <= i < |b| ==> b[i] != '/'
    ensures forall m :: 0 <= m < |a + w + b| ==> (a + w + b)[m] != '/'
  {
    forall m | 0 <= m < |a + w + b|
      ensures (a + w + b)[m] != '/'
    {
      if m < |a| {
        assert (a + w + b)[m] == a[m];
      } else if m < |a| + |w| {
        assert (a + w + b)[m] == w[m - |a|];
      } else {
        assert (a + w + b)[m] == b[m - |a| - |w|];
      }
    }
  }

  /** Two words separated by a run of other characters, none of them a slash, are
      joined by exactly one dash: 'strategy & consulting' gives
      'strategy-consulting'. */
  lemma SanitizePartSeparatesWords(a: string, w: string, b: string)
    requires IsWord(a) && IsWord(b)
    requires w != [] && forall i :: 0 <= i < |w| ==> !IsKept(w[i]) && w[i] != '/'
    ensures SanitizePart(a + w + b) == a + "-" + b
  {
    NoSlashJoined(a, w, b);
    var s := a + w + b;
    assert s[0] == a[0] && s[|s| - 1] == b[|b| - 1];
    SanitizePartNoSlash(s);
    SlugifyTwoWords(a, w, b);
  }

  lemma TrimWords(a: string, sp1: string, sp2: string, b: string)
    requires IsWord(a) && IsWord(b)
    ensures Trim(a + sp1 + "/" + sp2 + b) == a + sp1 + "/" + sp2 + b
  {
    var s := a + sp1 + "/" + sp2 + b;
    assert s[0] == a[0] && s[|s| - 1] == b[|b| - 1];
    TrimNoEdgeSpace(s);
  }

  lemma KeptIsSlug(a: string, b: string)
    requires IsWord(a) && IsWord(b)
    ensures IsSlug(a + b)
  {
    var x := a + b;
    assert forall i :: 0 <= i < |x| ==> IsKept(x[i]);
  }

  /** `Join` ends with the last part. */
  lemma {:induction false} JoinEndsWith(parts: seq<string>, sep: string, last: string)
    requires |parts| >= 1 && last == parts[|parts| - 1]
    ensures |last| <= |Join(parts, sep)| && Join(parts, sep)[|Join(parts, sep)| - |last|..] == last
  {
    if |parts| > 1 {
      JoinEndsWith(parts[1..], sep, last);
      assert Join(parts, sep) == parts[0] + sep + Join(parts[1..], sep);
    }
  }

  predicate AllSlugs(parts: seq<string>) {
    forall k :: 0 <= k < |parts| ==> IsSlug(parts[k])
  }

  /** Slugs joined with ', ' neither start nor end with whitespace when the last one
      is not empty. */
  lemma SlugsJoinEdges(parts: seq<string>)
    requires |parts| >= 1 && AllSlugs(parts) && parts[|parts| - 1] != []
    ensures Join(parts, ", ") != []
    ensures !IsSpace(Join(parts, ", ")[0]) && !IsSpace(Join(parts, ", ")[|Join(parts, ", ")| - 1])
  {
    var j := Join(parts, ", ");
    var last := parts[|parts| - 1];
    JoinEndsWith(parts, ", ", last);
    assert j[|j| - 1] == last[|last| - 1];
    assert IsSlugChar(last[|last| - 1]);
    if |parts| > 1 {
      assert j == parts[0] + ", " + Join(parts[1..], ", ");
      if parts[0] != [] {
        assert j[0] == parts[0][0] && IsSlugChar(parts[0][0]);
      } else {
        assert j[0] == ',';
      }
    } else {
      assert j[0] == last[0] && IsSlugChar(last[0]);
    }
  }

  lemma SlugsHaveNoComma(parts: seq<string>)
    requires AllSlugs(parts)
    ensures forall k :: 0 <= k < |parts| ==> ',' !in parts[k]
  {
    forall k | 0 <= k < |parts|
      ensures ',' !in parts[k]
    {
      assert forall i :: 0 <= i < |parts[k]| ==> IsSlugChar(parts[k][i]);
    }
  }

  /** The tag values in the copied text are exactly the sanitized parts, as long as
      the last one is not empty (an empty last part leaves a trailing ', ' that the
      final trim shortens to ','). */
  lemma SanitizeNameSplits(name: string)
    requires name != []
    requires SanitizedParts(name)[|SanitizedParts(name)| - 1] != []
    ensures Split(SanitizeName(name), ", ") == SanitizedParts(name)
  {
    SanitizedPartsAreSlugs(name);
    JoinedSlugsSplit(SanitizedParts(name));
  }

  /** Every sanitized part is a slug. */
  lemma SanitizedPartsAreSlugs(name: string)
    ensures AllSlugs(SanitizedParts(name))
  {
  }

  lemma JoinedSlugsSplit(parts: seq<string>)
    requires |parts| >= 1 && AllSlugs(parts) && parts[|parts| - 1] != []
    ensures Split(Trim(Join(parts, ", ")), ", ") == parts
  {
    SlugsJoinEdges(parts);
    TrimNoEdgeSpace(Join(parts, ", "));
    SlugsHaveNoComma(parts);
    SplitJoin(parts, ", ");
  }

  // ----- toCamelCaseTag -----

  /** `tag.replace(/[^a-zA-Z0-9]/g, ' ')`. */
  function SpaceOut(tag: string): (r: string)
    ensures |r| == |tag|
    ensures forall i :: 0 <= i < |tag| ==> r[i] == if IsAlnum(tag[i]) then tag[i] else ' '
  {
    seq(|tag|, i requires 0 <= i < |tag| => if IsAlnum(tag[i]) then tag[i] else ' ')
  }

  /** `word.charAt(0).toUpperCase() + word.slice(1).toLowerCase()`. */
  function Capitalized(w: string): (r: string)
    ensures |r| == |w|
    ensures ToLower(r) == ToLower(w)
    ensures w != [] ==> r[0] == ToUpperChar(w[0])
  {
    if w == [] then []
    else
      var r := [ToUpperChar(w[0])] + ToLower(w[1..]);
      assert ToLower(r)[0] == ToLowerChar(ToUpperChar(w[0])) == ToLowerChar(w[0]);
      assert forall i :: 1 <= i < |w| ==> ToLower(r)[i] == ToLower(w)[i];
      r
  }

  /** The later words, each capitalized, joined with ''. */
  function CapitalizedAll(words: seq<string>): (r: string) {
    if words == [] then [] else Capitalized(words[0]) + CapitalizedAll(words[1..])
  }

  /** `toCamelCaseTag(tag)`: every character outside `[a-zA-Z0-9]` is a word
      break; the first word is lower-cased, the later ones capitalized. */
  function ToCamelCaseTag(tag: string): (r: string)
  {
    var words := Split(SpaceOut(tag), " ");
    ToLower(words[0]) + CapitalizedAll(words[1..])
  }

  /** The characters `[a-zA-Z0-9]` of `s`, in order. */
  function Alnums(s: string): (r: string)
    ensures forall i :: 0 <= i < |r| ==> IsAlnum(r[i])
  {
    if s == [] then [] else (if IsAlnum(s[0]) then [s[0]] else []) + Alnums(s[1..])
  }

  /** Array.prototype.join('') of words. */
  function Concat(words: seq<string>): (r: string) {
    if words == [] then [] else words[0] + Concat(words[1..])
  }

  lemma {:induction false} LowerCapitalizedAll(words: seq<string>)
    ensures ToLower(CapitalizedAll(words)) == ToLower(Concat(words))
  {
    if words != [] {
      LowerCapitalizedAll(words[1..]);
      ToLowerAppend(Capitalized(words[0]), CapitalizedAll(words[1..]));
      ToLowerAppend(words[0], Concat(words[1..]));
    }
  }

  lemma CutAround(s: string, i: nat)
    requires i < |s|
    ensures s == s[..i] + ([s[i]] + s[i + 1..])
  {
  }

  lemma ConcatSplitNone(s: string)
    requires CharIndex(s, ' ') == |s|
    ensures Concat(Split(s, " ")) == RemoveChar(s, ' ')
  {
    SplitNoChar(s, ' ');
    assert s[..|s|] == s;
    assert Concat([s]) == s + Concat([]);
  }

  lemma ConcatSplitStep(s: string, i: nat, rest: string)
    requires i == CharIndex(s, ' ') < |s| && rest == s[i + 1..]
    requires Concat(Split(rest, " ")) == RemoveChar(rest, ' ')
    ensures Concat(Split(s, " ")) == RemoveChar(s, ' ')
  {
    SplitAtChar(s, ' ', i);
    var a := s[..i];
    CutAround(s, i);
    RemoveCharAppend(a, [s[i]] + rest, ' ');
    RemoveCharAppend([s[i]], rest, ' ');
    var r := RemoveChar(rest, ' ');
    assert RemoveChar([s[i]], ' ') == [];
    assert RemoveChar(a, ' ') == a;
    assert RemoveChar([s[i]] + rest, ' ') == r;
    calc {
      Concat(Split(s, " "));
      { assert ([a] + Split(rest, " "))[1..] == Split(rest, " "); }
      a + Concat(Split(rest, " "));
      a + r;
      RemoveChar(s, ' ');
    }
  }

  /** Joining the pieces of a split at ' ' with '' deletes the spaces. */
  lemma {:induction false} ConcatSplit(s: string)
    ensures Concat(Split(s, " ")) == RemoveChar(s, ' ')
    decreases |s|
  {
    var i := CharIndex(s, ' ');
    if i == |s| {
      ConcatSplitNone(s);
    } else {
      var rest := s[i + 1..];
      ConcatSplit(rest);
      ConcatSplitStep(s, i, rest);
    }
  }

  lemma {:induction false} RemoveSpacesOut(tag: string)
    ensures RemoveChar(SpaceOut(tag), ' ') == Alnums(tag)
  {
    if tag != [] {
      RemoveSpacesOut(tag[1..]);
      assert SpaceOut(tag) == [SpaceOut(tag)[0]] + SpaceOut(tag[1..]);
      RemoveCharAppend([SpaceOut(tag)[0]], SpaceOut(tag[1..]), ' ');
    }
  }

  /** Apart from the case of its letters, the camel-cased tag is exactly the
      letters and digits of the tag, in order. */
  lemma CamelCaseKeepsAlnums(tag: string)
    ensures ToLower(ToCamelCaseTag(tag)) == ToLower(Alnums(tag))
  {
    var words := Split(SpaceOut(tag), " ");
    LowerCapitalizedAll(words[1..]);
    ToLowerIdempotent(words[0]);
    ToLowerAppend(ToLower(words[0]), CapitalizedAll(words[1..]));
    ToLowerAppend(words[0], Concat(words[1..]));
    assert Concat(words) == words[0] + Concat(words[1..]);
    ConcatSplit(SpaceOut(tag));
    RemoveSpacesOut(tag);
  }

  /** The camel-cased tag consists of ASCII letters and digits only. */
  lemma CamelCaseIsAlnum(tag: string)
    ensures forall i :: 0 <= i < |ToCamelCaseTag(tag)| ==> IsAlnum(ToCamelCaseTag(tag)[i])
  {
    var r := ToCamelCaseTag(tag);
    CamelCaseKeepsAlnums(tag);
    forall i | 0 <= i < |r|
      ensures IsAlnum(r[i])
    {
      assert ToLowerChar(r[i]) == ToLowerChar(Alnums(tag)[i]);
    }
  }

  predicate AllAlnum(s: string) { forall i :: 0 <= i < |s| ==> IsAlnum(s[i]) }

  lemma SpaceOutWords(a: string, c: char, b: string)
    requires AllAlnum(a) && !IsAlnum(c) && AllAlnum(b)
    ensures SpaceOut(a + [c] + b) == a + " " + b
  {
    var s := a + [c] + b;
    assert forall i :: 0 <= i < |a| ==> s[i] == a[i];
    assert forall i :: |a| < i < |s| ==> s[i] == b[i - |a| - 1];
  }

  lemma CharIndexOfWords(a: string, b: string)
    requires AllAlnum(a)
    ensures CharIndex(a + " " + b, ' ') == |a|
  {
    var s := a + " " + b;
    assert s[|a|] == ' ';
  }

  lemma CharIndexOfWord(b: string)
    requires AllAlnum(b)
    ensures CharIndex(b, ' ') == |b|
  {
  }

  lemma SplitWords(a: string, b: string)
    requires AllAlnum(a) && AllAlnum(b)
    ensures Split(a + " " + b, " ") == [a, b]
  {
    var s := a + " " + b;
    CharIndexOfWords(a, b);
    SplitAtChar(s, ' ', |a|);
    assert s[..|a|] == a && s[|a| + 1..] == b;
    CharIndexOfWord(b);
    SplitNoChar(b, ' ');
  }

  /** Two words with a break between them: the first lower-cased, the second
      capitalized, e.g. 'Win News' becomes 'winNews'. */
  lemma CamelCaseTwoWords(a: string, c: char, b: string)
    requires AllAlnum(a) && !IsAlnum(c) && AllAlnum(b)
    ensures ToCamelCaseTag(a + [c] + b) == ToLower(a) + Capitalized(b)
  {
    SpaceOutWords(a, c, b);
    SplitWords(a, b);
    assert [a, b][1..] == [b];
    assert CapitalizedAll([b]) == Capitalized(b) by {
      assert [b][1..] == [];
    }
  }

  // ----- renderItems -----

  /** String.prototype.replace(p, q) with a string pattern: the first occurrence. */
  function ReplaceFirst(s: string, p: string, q: string): (r: string)
    ensures !Contains(s, p) ==> r == s
  {
    var i := IndexOf(s, p);
    if i < 0 then s else s[..i] + q + s[i + |p|..]
  }

  lemma ReplaceFirstChar(a: string, c: char, b: string, q: string)
    requires c !in a
    ensures ReplaceFirst(a + [c] + b, [c], q) == a + q + b
  {
    var s := a + [c] + b;
    assert PrefixAt(s, |a|, [c]) by {
      assert s[|a|..|a| + 1] == [c];
    }
    forall m | 0 <= m < |a|
      ensures !PrefixAt(s, m, [c])
    {
      assert s[m..m + 1][0] == a[m];
    }
    assert IndexOf(s, [c]) == |a|;
    assert s[..|a|] == a && s[|a| + 1..] == b;
  }

  /** `data-title` of a tag: the tag, except that '&' becomes 'and' in exactly the
      tag 'Strategy & Consulting'. */
  function DisplayTitle(tag: string): (r: string)
    ensures tag != "Strategy & Consulting" ==> r == tag
    ensures tag == "Strategy & Consulting" ==> r == "Strategy and Consulting"
  {
    if tag == "Strategy & Consulting" then
      StrategyAndConsulting();
      ReplaceFirst(tag, "&", "and")
    else tag
  }

  lemma StrategyAndConsulting()
    ensures ReplaceFirst("Strategy & Consulting", "&", "and") == "Strategy and Consulting"
  {
    StrategyPieces();
    ReplaceFirstChar("Strategy ", '&', " Consulting", "and");
  }

  lemma StrategyPieces()
    ensures "Strategy & Consulting" == "Strategy " + ['&'] + " Consulting"
    ensures "Strategy " + "and" + " Consulting" == "Strategy and Consulting"
    ensures '&' !in "Strategy "
  {
    assert "Strategy " + "and" == "Strategy and";
  }

  /** `s.replace(/(?<=\w)\/(?=\w)/g, '')` from offset `i` on: a slash between two
      word characters is dropped. */
  function DropWordSlashesFrom(s: string, i: nat): (r: string)
    requires i <= |s|
    decreases |s| - i
  {
    if i == |s| then []
    else if s[i] == '/' && 0 < i < |s| - 1 && IsWordChar(s[i - 1]) && IsWordChar(s[i + 1]) then
      DropWordSlashesFrom(s, i + 1)
    else [s[i]] + DropWordSlashesFrom(s, i + 1)
  }

  /** The key under which a tag's label is looked up in the placeholders. */
  function LabelKey(title: string): string {
    ToCamelCaseTag(DropWordSlashesFrom(title, 0))
  }

  /** `placeholders && placeholders[key]`: the lookup finds a non-empty value. */
  predicate Found(key: string, placeholders: Option<map<string, string>>) {
    placeholders.Some? && key in placeholders.value && placeholders.value[key] != ""
  }

  /** One rendered tag: its `data-title`, its colour class `cat-N` and its label. */
  datatype TagItem = TagItem(title: string, colour: nat, text: string)

  /** The item `renderItems` renders for a non-blank tag of category number `catId`. */
  function ItemFor(tag: string, catId: nat, placeholders: Option<map<string, string>>): (r: TagItem)
    ensures r.title == DisplayTitle(tag)
    ensures r.colour == catId % 8 && r.colour < 8
    ensures Found(LabelKey(r.title), placeholders) ==> r.text == placeholders.value[LabelKey(r.title)]
    ensures !Found(LabelKey(r.title), placeholders) ==> r.text == LabelKey(r.title)
  {
    var title := DisplayTitle(tag);
    TagItem(title, catId % 8, Site.GetPlaceholder(LabelKey(title), placeholders))
  }

  /** The tags for which `tag.trim() !== ''` fails are the blank ones. */
  lemma BlankIsTrimmedAway(s: string)
    ensures IsBlank(s) <==> Trim(s) == []
  {
    if IsBlank(s) {
      assert TrimStart(s) == [];
    } else {
      var i :| 0 <= i < |s| && !IsSpace(s[i]);
      assert i >= |s| - |TrimStart(s)|;
      assert TrimStart(s)[i - (|s| - |TrimStart(s)|)] == s[i];
      assert TrimEnd(TrimStart(s)) != [];
    }
  }

  /** `renderItems(cat, catId, taxonomy, placeholders)`: one item per row whose tag
      in the column `cat` is not blank, in row order. A row without that column makes
      the tag undefined and its `replace` throw. */
  function RenderItems(cat: string, catId: nat, taxonomy: seq<map<string, string>>,
                       placeholders: Option<map<string, string>>): (r: Result<seq<TagItem>>)
    ensures r.Ok? ==> |r.value| <= |taxonomy|
  {
    if taxonomy == [] then Ok([])
    else if cat !in taxonomy[0] then Err("TypeError")
    else
      var rest := RenderItems(cat, catId, taxonomy[1..], placeholders);
      if rest.Err? then rest
      else
        Ok(RowItems(taxonomy[0][cat], catId, placeholders) + rest.value)
  }

  /** Rendering fails exactly when some row lacks the column; otherwise there is at
      most one item per row, every one of them in the category's colour. */
  lemma {:induction false} RenderItemsOutcome(cat: string, catId: nat, taxonomy: seq<map<string, string>>,
                                              placeholders: Option<map<string, string>>)
    ensures RenderItems(cat, catId, taxonomy, placeholders).Ok? <==> forall k :: 0 <= k < |taxonomy| ==> cat in taxonomy[k]
    ensures RenderItems(cat, catId, taxonomy, placeholders).Ok? ==>
              forall j :: 0 <= j < |RenderItems(cat, catId, taxonomy, placeholders).value| ==>
                RenderItems(cat, catId, taxonomy, placeholders).value[j].colour == catId % 8
  {
    if taxonomy != [] {
      RenderItemsOutcome(cat, catId, taxonomy[1..], placeholders);
      assert forall k :: 1 <= k < |taxonomy| ==> taxonomy[k] == taxonomy[1..][k - 1];
    }
  }

  /** The non-blank tags of the column, in row order: the reference list the rendered
      items follow. */
  function NonBlankTags(cat: string, taxonomy: seq<map<string, string>>): (r: seq<string>)
    requires forall k :: 0 <= k < |taxonomy| ==> cat in taxonomy[k]
    ensures |r| <= |taxonomy|
    ensures forall j :: 0 <= j < |r| ==> !IsBlank(r[j])
  {
    if taxonomy == [] then []
    else (if IsBlank(taxonomy[0][cat]) then [] else [taxonomy[0][cat]]) + NonBlankTags(cat, taxonomy[1..])
  }

  /** The items rendered for one row's tag. */
  function RowItems(tag: string, catId: nat, placeholders: Option<map<string, string>>): (r: seq<TagItem>)
    ensures |r| <= 1
  {
    if IsBlank(tag) then [] else [ItemFor(tag, catId, placeholders)]
  }

  /** The tags kept from one row. */
  function RowTags(tag: string): (r: seq<string>)
    ensures |r| <= 1
  {
    if IsBlank(tag) then [] else [tag]
  }

  lemma RenderItemsStep(cat: string, catId: nat, taxonomy: seq<map<string, string>>,
                        placeholders: Option<map<string, string>>)
    requires taxonomy != [] && forall k :: 0 <= k < |taxonomy| ==> cat in taxonomy[k]
    ensures RenderItems(cat, catId, taxonomy, placeholders).Ok?
    ensures RenderItems(cat, catId, taxonomy, placeholders).value ==
              RowItems(taxonomy[0][cat], catId, placeholders) + RenderItems(cat, catId, taxonomy[1..], placeholders).value
    ensures NonBlankTags(cat, taxonomy) == RowTags(taxonomy[0][cat]) + NonBlankTags(cat, taxonomy[1..])
  {
    assert forall k :: 0 <= k < |taxonomy[1..]| ==> taxonomy[1..][k] == taxonomy[k + 1];
    RenderItemsOutcome(cat, catId, taxonomy[1..], placeholders);
  }

  /** Prepending one row keeps items and tags in step. */
  lemma ItemsInStep(tag: string, catId: nat, placeholders: Option<map<string, string>>,
                    items: seq<TagItem>, tags: seq<string>)
    requires |items| == |tags|
    requires forall j :: 0 <= j < |tags| ==> items[j] == ItemFor(tags[j], catId, placeholders)
    ensures |RowItems(tag, catId, placeholders) + items| == |RowTags(tag) + tags|
    ensures forall j :: 0 <= j < |RowTags(tag) + tags| ==>
              (RowItems(tag, catId, placeholders) + items)[j] == ItemFor((RowTags(tag) + tags)[j], catId, placeholders)
  {
  }

  /** The rendered items are the non-blank tags in order, each with its display
      title, so no blank tag is ever rendered. */
  lemma {:induction false} RenderItemsFollowTags(cat: string, catId: nat, taxonomy: seq<map<string, string>>,
                                                 placeholders: Option<map<string, string>>)
    requires forall k :: 0 <= k < |taxonomy| ==> cat in taxonomy[k]
    ensures RenderItems(cat, catId, taxonomy, placeholders).Ok?
    ensures |RenderItems(cat, catId, taxonomy, placeholders).value| == |NonBlankTags(cat, taxonomy)|
    ensures forall j :: 0 <= j < |NonBlankTags(cat, taxonomy)| ==>
              (RenderItems(cat, catId, taxonomy, placeholders).value[j] ==
               ItemFor(NonBlankTags(cat, taxonomy)[j], catId, placeholders))
  {
    if taxonomy != [] {
      RenderItemsFollowTags(cat, catId, taxonomy[1..], placeholders);
      RenderItemsStep(cat, catId, taxonomy, placeholders);
      ItemsInStep(taxonomy[0][cat], catId, placeholders,
                  RenderItems(cat, catId, taxonomy[1..], placeholders).value, NonBlankTags(cat, taxonomy[1..]));
    }
  }

  /** A category as `initTaxonomy` renders it. */
  datatype Category = Category(name: string, items: seq<TagItem>)

  /** One category of `initTaxonomy`: its key and its rendered items. */
  function CategoryFor(cat: string, catId: nat, taxonomy: seq<map<string, string>>,
                       placeholders: Option<map<string, string>>): Result<Category>
  {
    var items := RenderItems(cat, catId, taxonomy, placeholders);
    if items.Err? then Err(items.error) else Ok(Category(cat, items.value))
  }

  /** `cats` is `Object.keys(row)`: every key of the row, each exactly once (the
      order is the row's insertion order, which a map does not keep). */
  predicate KeyOrder(cats: seq<string>, row: map<string, string>) {
    (forall i, j :: 0 <= i < j < |cats| ==> cats[i] != cats[j]) &&
    (forall i :: 0 <= i < |cats| ==> cats[i] in row) &&
    (forall c :: c in row ==> c in cats)
  }

  /** `initTaxonomy`: the categories in the key order `cats` of the first row, the
      category at position `idx` rendered with `catId` = `idx`. Without a first row,
      `Object.keys(undefined)` throws. */
  function InitTaxonomy(cats: seq<string>, taxonomy: seq<map<string, string>>,
                        placeholders: Option<map<string, string>>): (r: Result<seq<Category>>)
    requires taxonomy != [] ==> KeyOrder(cats, taxonomy[0])
    ensures taxonomy == [] ==> r == Err("TypeError")
  {
    if taxonomy == [] then Err("TypeError")
    else Collect(seq(|cats|, idx requires 0 <= idx < |cats| => CategoryFor(cats[idx], idx, taxonomy, placeholders)))
  }

  /** Initialisation fails exactly when there is no row or some row lacks some key
      of the first row; otherwise there is one category per key of the first row, in
      key order, the one at position `i` rendered with the category number `i`, hence
      coloured `cat-(i % 8)`. */
  lemma InitTaxonomyOrder(cats: seq<string>, taxonomy: seq<map<string, string>>,
                          placeholders: Option<map<string, string>>)
    requires taxonomy != [] ==> KeyOrder(cats, taxonomy[0])
    ensures InitTaxonomy(cats, taxonomy, placeholders).Ok? <==>
              |taxonomy| >= 1 && forall i, k :: 0 <= i < |cats| && 0 <= k < |taxonomy| ==> cats[i] in taxonomy[k]
    ensures InitTaxonomy(cats, taxonomy, placeholders).Ok? ==>
              |InitTaxonomy(cats, taxonomy, placeholders).value| == |cats| &&
              forall i :: 0 <= i < |cats| ==>
                RenderItems(cats[i], i, taxonomy, placeholders).Ok? &&
                InitTaxonomy(cats, taxonomy, placeholders).value[i] ==
                Category(cats[i], RenderItems(cats[i], i, taxonomy, placeholders).value)
  {
    if taxonomy == [] {
      return;
    }
    var rendered := seq(|cats|, idx requires 0 <= idx < |cats| => CategoryFor(cats[idx], idx, taxonomy, placeholders));
    CollectOutcome(rendered);
    forall i | 0 <= i < |cats|
      ensures rendered[i].Ok? <==> forall k :: 0 <= k < |taxonomy| ==> cats[i] in taxonomy[k]
    {
      RenderItemsOutcome(cats[i], i, taxonomy, placeholders);
    }
  }

  /** The categories rendered are named by the keys of the first row, each key
      naming one. */
  lemma InitTaxonomyKeys(cats: seq<string>, taxonomy: seq<map<string, string>>,
                         placeholders: Option<map<string, string>>)
    requires taxonomy != [] ==> KeyOrder(cats, taxonomy[0])
    requires InitTaxonomy(cats, taxonomy, placeholders).Ok?
    ensures taxonomy != []
    ensures forall c :: c in taxonomy[0] <==>
              exists i :: 0 <= i < |cats| && InitTaxonomy(cats, taxonomy, placeholders).value[i].name == c
    ensures forall i, j :: 0 <= i < j < |cats| ==>
              InitTaxonomy(cats, taxonomy, placeholders).value[i].name != InitTaxonomy(cats, taxonomy, placeholders).value[j].name
  {
    InitTaxonomyOrder(cats, taxonomy, placeholders);
    var r := InitTaxonomy(cats, taxonomy, placeholders).value;
    assert forall i :: 0 <= i < |cats| ==> r[i].name == cats[i];
    forall c | c in taxonomy[0]
      ensures exists i :: 0 <= i < |cats| && r[i].name == c
    {
      var i :| 0 <= i < |cats| && cats[i] == c;
      assert r[i].name == c;
    }
  }

  // ----- the picker page: search, selection and copy -----

  /** What a tag shows: its label, or its title with the search match highlighted. */
  datatype Shown = Label(text: string) | Highlighted(before: string, term: string, after: string)

  lemma ThreeSlices(s: string, i: nat, j: nat)
    requires i <= j <= |s|
    ensures s[..i] + s[i..j] + s[j..] == s
  {
  }

  lemma ToLowerSlice(s: string, i: nat, j: nat)
    requires i <= j <= |s|
    ensures ToLower(s[i..j]) == ToLower(s)[i..j]
  {
  }

  /** The highlight `filter` gives a title for the lower-cased search term `term`:
      None when the term does not occur in the lower-cased title, otherwise the title
      cut around the first occurrence, the middle piece keeping the title's case. */
  function HighlightFor(title: string, term: string): (r: Option<Shown>)
    ensures r.None? <==> !Contains(ToLower(title), term)
    ensures r.Some? ==> r.value.Highlighted? && r.value.before + r.value.term + r.value.after == title
    ensures r.Some? ==> ToLower(r.value.term) == term
    ensures r.Some? ==> forall i :: 0 <= i < |r.value.before| ==> !PrefixAt(ToLower(title), i, term)
  {
    var i := IndexOf(ToLower(title), term);
    if i < 0 then None
    else
      ToLowerSlice(title, i, i + |term|);
      ThreeSlices(title, i, i + |term|);
      Some(Highlighted(title[..i], title[i..i + |term|], title[i + |term|..]))
  }

  /** An empty search highlights nothing and filters nothing out. */
  lemma EmptySearchShowsAll(title: string)
    ensures HighlightFor(title, []) == Some(Highlighted([], [], title))
  {
    assert PrefixAt(ToLower(title), 0, []);
  }

  /** The titles of the selected tags, in document order. */
  function SelectedTitles(titles: seq<string>, selected: seq<bool>): (r: seq<string>)
    requires |selected| == |titles|
    ensures |r| <= |titles|
  {
    if titles == [] then []
    else
      var n := |titles| - 1;
      SelectedTitles(titles[..n], selected[..n]) + (if selected[n] then [titles[n]] else [])
  }

  /** The panel is empty exactly when no tag is selected. */
  lemma {:induction false} SelectedTitlesEmpty(titles: seq<string>, selected: seq<bool>)
    requires |selected| == |titles|
    ensures SelectedTitles(titles, selected) == [] <==> forall k :: 0 <= k < |selected| ==> !selected[k]
  {
    if titles != [] {
      var n := |titles| - 1;
      SelectedTitlesEmpty(titles[..n], selected[..n]);
      assert forall k :: 0 <= k < n ==> selected[..n][k] == selected[k];
    }
  }

  /** Every selected tag's title is in the panel, and only those. */
  lemma {:induction false} SelectedTitlesMembers(titles: seq<string>, selected: seq<bool>, t: string)
    requires |selected| == |titles|
    ensures t in SelectedTitles(titles, selected) <==> exists k :: 0 <= k < |titles| && selected[k] && titles[k] == t
  {
    if titles != [] {
      var n := |titles| - 1;
      SelectedTitlesMembers(titles[..n], selected[..n], t);
      assert forall k :: 0 <= k < n ==> selected[..n][k] == selected[k] && titles[..n][k] == titles[k];
    }
  }

  /** The tag picker page once `initTaxonomy` has rendered the tags. */
  class Picker {
    /** The `data-title` of every tag on the page, in document order. */
    const titles: seq<string>
    /** The inner HTML of every tag. */
    var shown: seq<Shown>
    /** Whether each tag's path carries the class `filtered`. */
    var filtered: seq<bool>
    /** Whether each tag's path carries the class `selected`. */
    var selected: seq<bool>
    /** The titles of the clones in the `.selected-tags` panel. */
    var panel: seq<string>
    /** The value of the `copybuffer` field. */
    var copyBuffer: string
    /** Whether the `#selected` element carries the class `hidden`. */
    var panelHidden: bool
    /** Whether the copy button is disabled. */
    var copyDisabled: bool

    predicate Valid()
      reads this
    {
      |shown| == |titles| && |filtered| == |titles| && |selected| == |titles|
    }

    /** The panel and the copy buffer show the current selection. */
    predicate Consistent()
      reads this
    {
      && Valid()
      && panel == SelectedTitles(titles, selected)
      && copyBuffer == Join(panel, ", ")
      && (panelHidden <==> panel == [])
    }

    /** The rendered tags, nothing filtered or selected, the panel hidden. */
    constructor(items: seq<TagItem>, copyDisabled0: bool)
      ensures titles == seq(|items|, k requires 0 <= k < |items| => items[k].title)
      ensures shown == seq(|items|, k requires 0 <= k < |items| => Label(items[k].text))
      ensures filtered == seq(|items|, k => false) && selected == seq(|items|, k => false)
      ensures copyDisabled == copyDisabled0
      ensures Consistent()
    {
      titles := seq(|items|, k requires 0 <= k < |items| => items[k].title);
      shown := seq(|items|, k requires 0 <= k < |items| => Label(items[k].text));
      filtered := seq(|items|, k => false);
      selected := seq(|items|, k => false);
      panel := [];
      copyBuffer := [];
      panelHidden := true;
      copyDisabled := copyDisabled0;
      new;
      SelectedTitlesEmpty(titles, selected);
    }

    /** `filter()` on the keyup of the search field holding `input`: a tag whose
        title contains the lower-cased input shows it highlighted and is unfiltered;
        any other tag is filtered and keeps what it showed. */
    method Filter(input: string)
      requires Valid()
      modifies this`shown, this`filtered
      ensures Valid()
      ensures forall k :: 0 <= k < |titles| ==>
                (filtered[k] <==> !Contains(ToLower(titles[k]), ToLower(input)))
      ensures forall k :: 0 <= k < |titles| ==>
                (shown[k] == if HighlightFor(titles[k], ToLower(input)).Some?
                             then HighlightFor(titles[k], ToLower(input)).value
                             else old(shown)[k])
    {
      var term := ToLower(input);
      var i := 0;
      while i < |titles|
        invariant 0 <= i <= |titles|
        invariant |shown| == |titles| && |filtered| == |titles|
        invariant forall k :: 0 <= k < i ==> (filtered[k] <==> HighlightFor(titles[k], term).None?)
        invariant forall k :: 0 <= k < i ==>
                    (shown[k] == if HighlightFor(titles[k], term).Some?
                                 then HighlightFor(titles[k], term).value
                                 else old(shown)[k])
        invariant forall k :: i <= k < |titles| ==> shown[k] == old(shown)[k]
      {
        var h := HighlightFor(titles[i], term);
        if h.Some? {
          shown := shown[i := h.value];
          filtered := filtered[i := false];
        } else {
          filtered := filtered[i := true];
        }
        i := i + 1;
      }
    }

    /** `displaySelected()`: the panel lists the selected tags' titles in document
        order, the copy buffer joins them with ', ', and the panel is hidden when
        nothing is selected. */
    method DisplaySelected()
      requires Valid()
      modifies this`panel, this`copyBuffer, this`panelHidden
      ensures Consistent()
    {
      var acc := [];
      var i := 0;
      while i < |titles|
        invariant 0 <= i <= |titles|
        invariant acc == SelectedTitles(titles[..i], selected[..i])
      {
        assert titles[..i + 1][..i] == titles[..i] && selected[..i + 1][..i] == selected[..i];
        if selected[i] {
          acc := acc + [titles[i]];
        }
        i := i + 1;
      }
      assert titles[..i] == titles && selected[..i] == selected;
      panel := acc;
      panelHidden := acc == [];
      copyBuffer := Join(acc, ", ");
    }

    /** `toggleTag(path)`, the handler of a click on a tag or on its clone in the
        panel: flips the tag's selection, redraws the panel and enables copying. */
    method ToggleTag(i: nat)
      requires Valid() && i < |titles|
      modifies this`selected, this`panel, this`copyBuffer, this`panelHidden, this`copyDisabled
      ensures selected == old(selected)[i := !old(selected)[i]]
      ensures Consistent() && !copyDisabled
    {
      selected := selected[i := !selected[i]];
      DisplaySelected();
      copyDisabled := false;
    }

    /** The clear button: toggles every tag selected at the time of the click, so
        nothing stays selected; with nothing selected it changes nothing. */
    method Clear()
      requires Valid()
      modifies this`selected, this`panel, this`copyBuffer, this`panelHidden, this`copyDisabled
      ensures Valid() && forall k :: 0 <= k < |selected| ==> !selected[k]
      ensures (exists k :: 0 <= k < |titles| && old(selected)[k]) ==>
                Consistent() && panel == [] && panelHidden && copyBuffer == [] && !copyDisabled
      ensures (forall k :: 0 <= k < |titles| ==> !old(selected)[k]) ==>
                panel == old(panel) && copyBuffer == old(copyBuffer) &&
                panelHidden == old(panelHidden) && copyDisabled == old(copyDisabled)
    {
      var snapshot := selected;
      var toggled := false;
      var j := 0;
      while j < |titles|
        invariant 0 <= j <= |titles| && Valid() && snapshot == old(selected)
        invariant forall k :: 0 <= k < j ==> !selected[k]
        invariant forall k :: j <= k < |titles| ==> selected[k] == snapshot[k]
        invariant toggled ==> Consistent() && !copyDisabled && exists k :: 0 <= k < j && snapshot[k]
        invariant !toggled ==> forall k :: 0 <= k < j ==> !snapshot[k]
        invariant !toggled ==> panel == old(panel) && copyBuffer == old(copyBuffer) &&
                               panelHidden == old(panelHidden) && copyDisabled == old(copyDisabled)
      {
        if snapshot[j] {
          ToggleTag(j);
          toggled := true;
        }
        j := j + 1;
      }
      if toggled {
        SelectedTitlesEmpty(titles, selected);
      }
    }

    /** The copy button: puts the sanitized copy buffer on the clipboard (returned
        here as `text`) and disables the button. */
    method Copy() returns (text: string)
      modifies this`copyDisabled
      ensures text == SanitizeName(copyBuffer) && copyDisabled
    {
      text := SanitizeName(copyBuffer);
      copyDisabled := true;
    }
  }
}

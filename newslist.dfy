/** The news-list block (blocks/newslist/newslist.js): page-number groups of the
    pager, the ten-item page window, the previous/next controls, the token search
    over the index and the path filter applied to the fetched index. */
module NewsList {
  import opened Common
  import opened Strings
  import opened QueryIndex

  /** The most page links the pager shows. */
  const MaxEntries := 7
  /** Items per page. */
  const Limit := 10

  function Min(a: int, b: int): int { if a <= b then a else b }

  /** The consecutive integers lo, lo + 1, ..., hi - 1. */
  function Range(lo: int, hi: int): (r: seq<int>)
    ensures |r| == if hi <= lo then 0 else hi - lo
    ensures forall k :: 0 <= k < |r| ==> r[k] == lo + k
  {
    if hi <= lo then [] else seq(hi - lo, k requires 0 <= k < hi - lo => lo + k)
  }

  lemma RangeAppend(a: int, b: int, c: int)
    requires a <= b <= c
    ensures Range(a, b) + Range(b, c) == Range(a, c)
  {
  }

  /** `for (let i = lo; i < hi; i++) acc.push(i)`. */
  method PushRange(acc: seq<int>, lo: int, hi: int) returns (r: seq<int>)
    ensures r == acc + Range(lo, hi)
  {
    r := acc;
    var i := lo;
    while i < hi
      invariant lo <= i && (lo <= hi ==> i <= hi) && (hi < lo ==> i == lo)
      invariant r == acc + Range(lo, i)
    {
      assert Range(lo, i) + [i] == Range(lo, i + 1);
      r := r + [i];
      i := i + 1;
    }
  }

  /** `for (let i = 1; i <= count; i++) acc.unshift(first - i)`. */
  method UnshiftRange(acc: seq<int>, first: int, count: int) returns (r: seq<int>)
    ensures r == Range(first - count, first) + acc
  {
    r := acc;
    var i := 1;
    while i <= count
      invariant 1 <= i && (count >= 0 ==> i <= count + 1) && (count < 0 ==> i == 1)
      invariant r == Range(first - i + 1, first) + acc
    {
      assert [first - i] + Range(first - i + 1, first) == Range(first - i, first);
      r := [first - i] + r;
      i := i + 1;
    }
  }

  /** `getPaginationGroups` returns either a flat list of page numbers (few pages)
      or the three groups start, mid and end, shown with ellipses between them. */
  datatype Pagination = Flat(pages: seq<int>) | Groups(start: seq<int>, mid: seq<int>, end: seq<int>)

  /** The page numbers in the order the pager shows them. */
  function Displayed(p: Pagination): seq<int>
  {
    match p
    case Flat(pages) => pages
    case Groups(start, mid, end) => start + mid + end
  }

  predicate StrictlyIncreasing(s: seq<int>) {
    forall i, j :: 0 <= i < j < |s| ==> s[i] < s[j]
  }

  /** The groups, case by case: all pages when there are at most seven; otherwise
      pages 1-5 and the last two near the start, pages 1-2, the current page with
      its neighbours and the last two in the middle, and pages 1-2 with five
      consecutive pages near the end. */
  function PaginationFor(totalPages: int, currentPage: int): Pagination
  {
    if totalPages <= MaxEntries then Flat(Range(1, totalPages + 1))
    else if currentPage < 5 then Groups(Range(1, 6), [], [totalPages - 1, totalPages])
    else if currentPage < totalPages - 2 then
      Groups([1, 2], Range(currentPage - 1, currentPage + 2), [totalPages - 1, totalPages])
    else if currentPage < totalPages then Groups([1, 2], Range(currentPage - 3, currentPage + 2), [])
    else Groups([1, 2], Range(currentPage - 4, currentPage + 1), [])
  }

  /** With more than seven pages the groups always hold seven page numbers in
      increasing order, none below 1. */
  lemma GroupsSevenIncreasing(totalPages: int, currentPage: int)
    requires totalPages > MaxEntries
    ensures PaginationFor(totalPages, currentPage).Groups?
    ensures |Displayed(PaginationFor(totalPages, currentPage))| == MaxEntries
    ensures StrictlyIncreasing(Displayed(PaginationFor(totalPages, currentPage)))
    ensures forall k :: 0 <= k < MaxEntries ==> Displayed(PaginationFor(totalPages, currentPage))[k] >= 1
  {
    var d := Displayed(PaginationFor(totalPages, currentPage));
    var t, c := totalPages, currentPage;
    if c < 5 {
      assert d == Range(1, 6) + [t - 1, t];
    } else if c < t - 2 {
      assert d == [1, 2] + Range(c - 1, c + 2) + [t - 1, t];
    } else if c < t {
      assert d == [1, 2] + Range(c - 3, c + 2);
    } else {
      assert d == [1, 2] + Range(c - 4, c + 1);
    }
    assert forall k :: 0 <= k < MaxEntries - 1 ==> d[k] < d[k + 1];
    assert forall i, j :: 0 <= i < j < |d| ==> d[i] < d[j] by {
      forall i, j | 0 <= i < j < |d| ensures d[i] < d[j] {
        IncreasingSteps(d, i, j);
      }
    }
  }

  lemma {:induction false} IncreasingSteps(d: seq<int>, i: int, j: int)
    requires forall k :: 0 <= k < |d| - 1 ==> d[k] < d[k + 1]
    requires 0 <= i < j < |d|
    ensures d[i] < d[j]
    decreases j - i
  {
    if i + 1 < j {
      IncreasingSteps(d, i + 1, j);
    }
  }

  /** For a current page inside the list, the pager shows it, and every page it
      shows exists. */
  lemma GroupsShowCurrentPage(totalPages: int, currentPage: int)
    requires totalPages > MaxEntries && 1 <= currentPage <= totalPages
    ensures currentPage in Displayed(PaginationFor(totalPages, currentPage))
    ensures forall k :: 0 <= k < MaxEntries ==> Displayed(PaginationFor(totalPages, currentPage))[k] <= totalPages
  {
    var d := Displayed(PaginationFor(totalPages, currentPage));
    if currentPage < 5 {
      assert d[currentPage - 1] == currentPage;
    } else if currentPage < totalPages - 2 {
      assert d[3] == currentPage;
    } else if currentPage < totalPages {
      assert d[5] == currentPage;
    } else {
      assert d[6] == currentPage;
    }
  }

  /** Within two pages of the end the end group is empty and the middle group is the
      five pages ending at min(currentPage + 1, totalPages); at totalPages - 2 the
      last page is therefore missing from the pager. */
  lemma GroupsNearTheEnd(totalPages: int, currentPage: int)
    requires totalPages > MaxEntries && totalPages - 2 <= currentPage <= totalPages
    ensures PaginationFor(totalPages, currentPage).Groups?
    ensures PaginationFor(totalPages, currentPage).end == []
    ensures PaginationFor(totalPages, currentPage).mid
         == Range(Min(currentPage + 1, totalPages) - 4, Min(currentPage + 1, totalPages) + 1)
    ensures currentPage == totalPages - 2 ==> totalPages !in Displayed(PaginationFor(totalPages, currentPage))
  {
    if currentPage == totalPages - 2 {
      var d := Displayed(PaginationFor(totalPages, currentPage));
      assert forall k :: 0 <= k < |d| ==> d[k] < totalPages;
    }
  }

  /** `getPaginationGroups(totalPages, currentPage)`: pushes and unshifts into three
      arrays and backfills up to seven entries. */
  method GetPaginationGroups(totalPages: int, currentPage: int) returns (r: Pagination)
    ensures r == PaginationFor(totalPages, currentPage)
  {
    if totalPages <= MaxEntries {
      var pages := PushRange([], 1, totalPages + 1);
      return Flat(pages);
    }
    var start, mid, end := InitialGroups(totalPages, currentPage);
    var groupCount := 3;
    if groupCount < MaxEntries {
      start, mid := Backfill(totalPages, currentPage, start, mid, end);
    }
    r := Groups(start, mid, end);
  }

  /** The three groups before the backfill: the first pages, the current page with
      its neighbours, and the last two pages. */
  method InitialGroups(totalPages: int, currentPage: int) returns (start: seq<int>, mid: seq<int>, end: seq<int>)
    requires totalPages > MaxEntries
    ensures start == if currentPage < 5 then Range(1, 5) else [1, 2]
    ensures mid == if 5 <= currentPage < totalPages then Range(currentPage - 1, currentPage + 2) else []
    ensures end == if currentPage < totalPages - 2 then [totalPages - 1, totalPages] else []
  {
    start := [];
    mid := [];
    end := [];

    if currentPage < 5 {
      start := PushRange(start, 1, Min(totalPages, 5));
    } else {
      start := start + [1];
      start := start + [2];
    }

    if currentPage >= 5 && currentPage < totalPages {
      mid := PushRange(mid, currentPage - 1, Min(currentPage + 1, totalPages) + 1);
    }

    if currentPage < totalPages - 2 {
      end := end + [totalPages - 1];
      end := end + [totalPages];
    }
  }

  /** The backfill up to seven entries: without an end group the middle group grows
      to the left, and without a middle group the start group grows to the right. */
  method Backfill(totalPages: int, currentPage: int, start0: seq<int>, mid0: seq<int>, end: seq<int>)
    returns (start: seq<int>, mid: seq<int>)
    requires totalPages > MaxEntries
    requires start0 == if currentPage < 5 then Range(1, 5) else [1, 2]
    requires mid0 == if 5 <= currentPage < totalPages then Range(currentPage - 1, currentPage + 2) else []
    requires end == if currentPage < totalPages - 2 then [totalPages - 1, totalPages] else []
    ensures Groups(start, mid, end) == PaginationFor(totalPages, currentPage)
  {
    start, mid := start0, mid0;
    var diff := MaxEntries - (|start| + |mid| + |end|);
    if |end| == 0 {
      // a missing or zero first element is falsy in the source
      var first: int;
      if |mid| == 0 || mid[0] == 0 {
        mid := mid + [currentPage];
        first := currentPage;
        diff := diff - 1;
      } else {
        first := mid[0];
      }
      ghost var base := mid;
      mid := UnshiftRange(mid, first, diff);
      assert start == [1, 2];
      if currentPage < totalPages {
        assert first == currentPage - 1 && diff == 2 && base == Range(currentPage - 1, currentPage + 2);
        RangeAppend(currentPage - 3, currentPage - 1, currentPage + 2);
        assert mid == Range(currentPage - 3, currentPage + 2);
      } else {
        assert first == currentPage && diff == 4 && base == [currentPage] == Range(currentPage, currentPage + 1);
        RangeAppend(currentPage - 4, currentPage, currentPage + 1);
        assert mid == Range(currentPage - 4, currentPage + 1);
      }
    } else if |mid| == 0 {
      assert start == Range(1, 5) && diff == 1;
      start := PushRange(start, |start| + 1, |start| + 1 + diff);
      RangeAppend(1, 5, 6);
      assert start == Range(1, 6);
    }
  }

  // ----- the page window and the previous/next controls -----

  /** `parseInt(s, 10)`: leading white space, an optional sign, then the longest
      run of decimal digits; `None` stands for NaN (no digits). */
  function ParseInt(s: string): (r: Option<int>)
    ensures r.Some? <==> DigitSpan(SkipSign(TrimStart(s))) > 0
  {
    var t := TrimStart(s);
    var u := SkipSign(t);
    var n := DigitSpan(u);
    if n == 0 then None
    else
      var v: int := DigitsValue(u[..n]);
      Some(if t != [] && t[0] == '-' then -v else v)
  }

  function SkipSign(t: string): string {
    if t != [] && (t[0] == '-' || t[0] == '+') then t[1..] else t
  }

  /** A plain decimal numeral parses to its value. */
  lemma ParseIntDigits(s: string)
    requires AllDigits(s) && s != []
    ensures ParseInt(s) == Some(DigitsValue(s))
  {
    assert TrimStart(s) == s by {
      assert !IsSpace(s[0]);
    }
    assert SkipSign(s) == s;
    assert DigitSpan(s) == |s| by {
      DigitSpanOf(s, []);
      assert s + [] == s;
    }
    assert s[..|s|] == s;
  }

  /** `parseInt(usp.get('page'), 10) || 1`: a missing parameter (parsed as the
      string 'null'), one without digits (NaN) and 0 all give page 1. */
  function PageOffset(param: Option<string>): (p: int)
    ensures p != 0
    ensures param.Some? && ParseInt(param.value).Some? && ParseInt(param.value).value != 0
            ==> p == ParseInt(param.value).value
  {
    var n := if param.Some? then ParseInt(param.value) else None;
    if n.None? || n.value == 0 then 1 else n.value
  }

  /** A page link written with a positive page number leads back to that page. */
  lemma PageLinkRoundTrip(page: nat)
    requires page >= 1
    ensures PageOffset(Some(NatToString(page))) == page
  {
    NatToStringValue(page);
    ParseIntDigits(NatToString(page));
  }

  /** `(Math.max(pageOffset, 1) - 1) * 10`: the index of the first item of the page. */
  function Offset(pageOffset: int): (o: nat)
    ensures o % Limit == 0
    ensures pageOffset >= 1 ==> o == (pageOffset - 1) * Limit
    ensures pageOffset < 1 ==> o == 0
  {
    (if pageOffset < 1 then 0 else pageOffset - 1) * Limit
  }

  /** `Math.ceil(len / 10)`. */
  function TotalPages(len: nat): (t: nat)
    ensures len == 0 ==> t == 0
    ensures len > 0 ==> (t - 1) * Limit < len <= t * Limit
  {
    (len + Limit - 1) / Limit
  }

  /** The pager is added only when there is more than one page of items. */
  lemma PagerOnlyForSeveralPages(len: nat)
    ensures len > Limit <==> TotalPages(len) >= 2
  {
  }

  /** The loop at line 227: the items with index in [offset, offset + 10) that exist. */
  method ShownItems<T>(items: seq<T>, pageOffset: int) returns (shown: seq<T>)
    ensures |shown| == if |items| <= Offset(pageOffset) then 0 else Min(Limit, |items| - Offset(pageOffset))
    ensures forall k :: 0 <= k < |shown| ==> shown[k] == items[Offset(pageOffset) + k]
  {
    var offset := Offset(pageOffset);
    var l := offset + Limit;
    shown := [];
    var i := offset;
    while i < l && i < |items|
      invariant offset <= i <= l
      invariant i > offset ==> i <= |items|
      invariant |shown| == i - offset
      invariant forall k :: 0 <= k < |shown| ==> shown[k] == items[offset + k]
    {
      shown := shown + [items[i]];
      i := i + 1;
    }
  }

  /** Every item is shown on exactly one page, and that page is one the pager counts. */
  lemma ItemOnExactlyOnePage(len: nat, i: nat)
    requires i < len
    ensures var p := i / Limit + 1;
      && 1 <= p <= TotalPages(len)
      && Offset(p) <= i < Offset(p) + Limit
      && forall q :: q >= 1 && Offset(q) <= i < Offset(q) + Limit ==> q == p
  {
    var p := i / Limit + 1;
    forall q | q >= 1 && Offset(q) <= i < Offset(q) + Limit
      ensures q == p
    {
      assert (q - 1) * Limit <= i < (q - 1) * Limit + Limit;
    }
  }

  datatype Control = Disabled | LinkTo(page: int)

  /** The previous and next arrows of the pager. */
  datatype Pager = Pager(prev: Control, next: Control)

  /** Prev is disabled on page 1 and links one page back otherwise; next is disabled
      on the last page and links one page on otherwise. */
  function PagerControls(pageOffset: int, totalPages: int): (r: Pager)
    ensures r.prev.Disabled? <==> pageOffset == 1
    ensures r.next.Disabled? <==> pageOffset == totalPages
  {
    Pager(if pageOffset == 1 then Disabled else LinkTo(pageOffset - 1),
          if pageOffset == totalPages then Disabled else LinkTo(pageOffset + 1))
  }

  /** From any existing page the arrows only lead to existing pages, and they move by
      exactly one page. */
  lemma PagerStaysInRange(pageOffset: int, totalPages: int)
    requires 1 <= pageOffset <= totalPages
    ensures PagerControls(pageOffset, totalPages).prev.LinkTo? ==>
      PagerControls(pageOffset, totalPages).prev.page == pageOffset - 1 >= 1
    ensures PagerControls(pageOffset, totalPages).next.LinkTo? ==>
      PagerControls(pageOffset, totalPages).next.page == pageOffset + 1 <= totalPages
  {
  }

  // ----- the index filters -----

  /** `skipInternalPaths` of the news list: an exact internal path or one under
      drafts/, sponsor/ or content/. */
  predicate IsInternalPath(path: string) {
    || path == "/search" || path == "/"
    || Contains(path, "drafts/") || Contains(path, "sponsor/") || Contains(path, "content/")
  }

  function SkipInternalPaths(rows: seq<IndexRow>): (r: seq<IndexRow>)
    ensures |r| <= |rows|
    ensures forall x :: x in r <==> x in rows && !IsInternalPath(x.path)
  {
    Filter(rows, (row: IndexRow) => !IsInternalPath(row.path))
  }

  /** The filter works row by row: filtering two parts of the index separately and
      concatenating is filtering the whole, so the kept rows keep their order. */
  lemma SkipInternalPathsAppend(a: seq<IndexRow>, b: seq<IndexRow>)
    ensures SkipInternalPaths(a + b) == SkipInternalPaths(a) + SkipInternalPaths(b)
  {
    FilterAppend(a, b, (row: IndexRow) => !IsInternalPath(row.path));
  }

  lemma SkipInternalPathsIdempotent(rows: seq<IndexRow>)
    ensures SkipInternalPaths(SkipInternalPaths(rows)) == SkipInternalPaths(rows)
  {
    FilterIdempotent(rows, (row: IndexRow) => !IsInternalPath(row.path));
  }

  /** `convertToKebabCase`: lower-case, then every run of white space becomes '-'. */
  function ConvertToKebabCase(s: string): (r: string)
    ensures forall c :: c in r ==> !IsSpace(c) && !IsUpper(c)
  {
    DashSpacesChars(ToLower(s));
    DashSpaces(ToLower(s))
  }

  /** `s.replace(/\s+/g, '-')`: a run of white space is passed over up to its last
      character, which becomes the dash. */
  function DashSpaces(s: string): (r: string)
  {
    if s == [] then []
    else if IsSpace(s[0]) && |s| >= 2 && IsSpace(s[1]) then DashSpaces(s[1..])
    else (if IsSpace(s[0]) then "-" else [s[0]]) + DashSpaces(s[1..])
  }

  /** The replacement leaves no white space and adds nothing but dashes. */
  lemma {:induction false} DashSpacesChars(s: string)
    ensures forall c :: c in DashSpaces(s) ==> !IsSpace(c) && (c == '-' || c in s)
    decreases |s|
  {
    if s != [] {
      DashSpacesChars(s[1..]);
    }
  }

  /** `a + w + b` taken apart at its first character. */
  lemma ConsOfThree(a: string, w: string, b: string)
    requires a != []
    ensures a + w + b == [a[0]] + (a[1..] + w + b)
  {
  }

  lemma {:induction false} DashSpacesNoSpace(s: string)
    requires forall i :: 0 <= i < |s| ==> !IsSpace(s[i])
    ensures DashSpaces(s) == s
  {
    if s != [] {
      DashSpacesNoSpace(s[1..]);
    }
  }

  lemma DashSpacesCons(c: char, t: string)
    requires !IsSpace(c)
    ensures DashSpaces([c] + t) == [c] + DashSpaces(t)
  {
    assert ([c] + t)[0] == c && ([c] + t)[1..] == t;
  }

  /** A first character that is not white space is kept in front. */
  lemma DashSpacesKeep(a: string, x: string, t: string)
    requires a != [] && !IsSpace(a[0])
    requires DashSpaces(x) == a[1..] + "-" + t
    ensures DashSpaces([a[0]] + x) == a + "-" + t
  {
    DashSpacesCons(a[0], x);
    assert [a[0]] + (a[1..] + "-" + t) == a + "-" + t;
  }

  /** A run of white space in front of `b` becomes one dash. */
  lemma {:induction false} DashSpacesLead(w: string, b: string)
    requires w != [] && forall i :: 0 <= i < |w| ==> IsSpace(w[i])
    requires b == [] || !IsSpace(b[0])
    ensures DashSpaces(w + b) == "-" + DashSpaces(b)
  {
    var s := w + b;
    assert s[0] == w[0] && s[1..] == w[1..] + b;
    if |w| >= 2 {
      assert s[1] == w[1];
      DashSpacesLead(w[1..], b);
    } else {
      assert w[1..] + b == b;
    }
  }

  /** The first run of white space, however long, becomes one dash; the text before
      it is kept as it is. With `DashSpacesNoSpace` this fixes the result for every
      string. */
  lemma {:induction false} DashSpacesRun(a: string, w: string, b: string)
    requires forall i :: 0 <= i < |a| ==> !IsSpace(a[i])
    requires w != [] && forall i :: 0 <= i < |w| ==> IsSpace(w[i])
    requires b == [] || !IsSpace(b[0])
    ensures DashSpaces(a + w + b) == a + "-" + DashSpaces(b)
  {
    if a == [] {
      DashSpacesLead(w, b);
      assert a + w + b == w + b;
      assert a + "-" + DashSpaces(b) == "-" + DashSpaces(b);
    } else {
      DashSpacesRun(a[1..], w, b);
      DashSpacesKeep(a, a[1..] + w + b, DashSpaces(b));
      ConsOfThree(a, w, b);
    }
  }

  /** The author slug of a name: the lower-cased text up to the first run of white
      space, one dash for that run, then the slug of the rest. */
  lemma KebabCaseRun(a: string, w: string, b: string)
    requires forall i :: 0 <= i < |a| ==> !IsSpace(a[i])
    requires w != [] && forall i :: 0 <= i < |w| ==> IsSpace(w[i])
    requires b == [] || !IsSpace(b[0])
    ensures ConvertToKebabCase(a + w + b) == ToLower(a) + "-" + ConvertToKebabCase(b)
  {
    ToLowerAppend(a + w, b);
    ToLowerAppend(a, w);
    assert ToLower(w) == w;
    DashSpacesRun(ToLower(a), w, ToLower(b));
  }

  /** A kebab-cased name is its own kebab case. */
  lemma ConvertToKebabCaseIdempotent(s: string)
    ensures ConvertToKebabCase(ConvertToKebabCase(s)) == ConvertToKebabCase(s)
  {
    var r := ConvertToKebabCase(s);
    assert ToLower(r) == r;
    DashSpacesNoSpace(r);
  }

  // ----- the search -----

  /** An entry of the index as the search sees it; the search writes `matchedToken`. */
  class Entry {
    const title: string
    const subtitle: string
    const description: string
    var matchedToken: Option<string>

    constructor (title: string, subtitle: string, description: string)
      ensures this.title == title && this.subtitle == subtitle && this.description == description
      ensures matchedToken == None
    {
      this.title := title;
      this.subtitle := subtitle;
      this.description := description;
      matchedToken := None;
    }
  }

  /** The lower-cased field a token is found in, trying subtitle, description and
      title in that order. */
  function FieldWith(e: Entry, token: string): Option<string>
  {
    if Contains(ToLower(e.subtitle), token) then Some(ToLower(e.subtitle))
    else if Contains(ToLower(e.description), token) then Some(ToLower(e.description))
    else if Contains(ToLower(e.title), token) then Some(ToLower(e.title))
    else None
  }

  /** Every token occurs in one of the lower-cased fields. */
  predicate MatchesAll(e: Entry, tokens: seq<string>) {
    forall k :: 0 <= k < |tokens| ==> FieldWith(e, tokens[k]).Some?
  }

  function Snippet(field: string): string { "... " + field + " ..." }

  /** `matchedToken` after `every` has run over `tokens` (stopping at the first token
      found nowhere), starting from `prior`. */
  function MatchedAfter(e: Entry, tokens: seq<string>, prior: Option<string>): Option<string>
  {
    if tokens == [] then prior
    else match FieldWith(e, tokens[0])
      case None => prior
      case Some(f) => MatchedAfter(e, tokens[1..], Some(Snippet(f)))
  }

  /** Running the search twice over the same entry leaves what one run leaves; this is
      why an entry listed twice ends as if it were listed once. */
  lemma MatchedAfterTwice(e: Entry, tokens: seq<string>, prior: Option<string>)
    ensures MatchedAfter(e, tokens, MatchedAfter(e, tokens, prior)) == MatchedAfter(e, tokens, prior)
  {
  }

  /** The entries matching every token, in index order. */
  function Matching(index: seq<Entry>, tokens: seq<string>): (r: seq<Entry>)
    ensures |r| <= |index|
  {
    if index == [] then []
    else
      var last := index[|index| - 1];
      Matching(index[..|index| - 1], tokens) + (if MatchesAll(last, tokens) then [last] else [])
  }

  /** The kept entries are exactly the entries of the index that match every token. */
  lemma {:induction false} MatchingExact(index: seq<Entry>, tokens: seq<string>)
    ensures forall k :: 0 <= k < |Matching(index, tokens)| ==>
              Matching(index, tokens)[k] in index && MatchesAll(Matching(index, tokens)[k], tokens)
    ensures forall k :: 0 <= k < |index| && MatchesAll(index[k], tokens) ==> index[k] in Matching(index, tokens)
  {
    if index != [] {
      var init := index[..|index| - 1];
      MatchingExact(init, tokens);
      forall k | 0 <= k < |index| - 1 ensures index[k] == init[k] { }
    }
  }

  /** Matching a concatenation matches each part and keeps the parts in order: the
      kept entries are a subsequence of the index, in index order. */
  lemma {:induction false} MatchingAppend(a: seq<Entry>, b: seq<Entry>, tokens: seq<string>)
    ensures Matching(a + b, tokens) == Matching(a, tokens) + Matching(b, tokens)
  {
    if b == [] {
      assert a + b == a;
    } else {
      var init := b[..|b| - 1];
      assert (a + b)[..|a + b| - 1] == a + init;
      assert (a + b)[|a + b| - 1] == b[|b| - 1];
      MatchingAppend(a, init, tokens);
    }
  }

  /** One entry is kept iff it matches every token. */
  lemma MatchingOne(e: Entry, tokens: seq<string>)
    ensures Matching([e], tokens) == if MatchesAll(e, tokens) then [e] else []
  {
    assert [e][..0] == [];
  }

  /** The entries before position `i + 1` are those before `i` and the one at `i`. */
  lemma SliceGrows(index: seq<Entry>, i: nat)
    requires i < |index|
    ensures forall x :: x in index[..i + 1] <==> x in index[..i] || x == index[i]
  {
    assert index[..i + 1] == index[..i] + [index[i]];
  }

  /** Matching over one more entry of the index. */
  lemma MatchingStep(index: seq<Entry>, i: nat, tokens: seq<string>)
    requires i < |index|
    ensures Matching(index[..i + 1], tokens) ==
      Matching(index[..i], tokens) + (if MatchesAll(index[i], tokens) then [index[i]] else [])
  {
    assert index[..i + 1][..i] == index[..i];
  }

  /** A token with an upper-case letter is never found in a lower-cased field, so
      such a query matches nothing: the tokens are not lower-cased. */
  lemma UpperCaseTokenMatchesNothing(index: seq<Entry>, tokens: seq<string>, k: nat, j: nat)
    requires k < |tokens| && j < |tokens[k]| && IsUpper(tokens[k][j])
    ensures Matching(index, tokens) == []
  {
    MatchingExact(index, tokens);
    forall e | e in index ensures !MatchesAll(e, tokens) {
      LowerLacksUpper(e.subtitle, tokens[k], j);
      LowerLacksUpper(e.description, tokens[k], j);
      LowerLacksUpper(e.title, tokens[k], j);
    }
  }

  lemma LowerLacksUpper(field: string, t: string, j: nat)
    requires j < |t| && IsUpper(t[j])
    ensures !Contains(ToLower(field), t)
  {
    var f := ToLower(field);
    forall i | 0 <= i <= |f| - |t| ensures !PrefixAt(f, i, t) {
      assert f[i..i + |t|][j] == f[i + j] != t[j];
    }
  }

  /** The `every` callback of `filterByQuery` for one entry: each token in turn must
      be found in the lower-cased subtitle, description or title, and the snippet of
      the field it was found in is written to `matchedToken`; the first token found
      nowhere stops the search. */
  method MatchEvery(e: Entry, tokens: seq<string>) returns (ok: bool)
    modifies e
    ensures ok == MatchesAll(e, tokens)
    ensures e.matchedToken == MatchedAfter(e, tokens, old(e.matchedToken))
  {
    var title := ToLower(e.title);
    var subtitle := ToLower(e.subtitle);
    var description := ToLower(e.description);
    var k := 0;
    ok := true;
    while ok && k < |tokens|
      invariant 0 <= k <= |tokens|
      invariant ok ==> forall j :: 0 <= j < k ==> FieldWith(e, tokens[j]).Some?
      invariant ok ==> MatchedAfter(e, tokens, old(e.matchedToken)) == MatchedAfter(e, tokens[k..], e.matchedToken)
      invariant !ok ==> !MatchesAll(e, tokens) && e.matchedToken == MatchedAfter(e, tokens, old(e.matchedToken))
    {
      var token := tokens[k];
      if Contains(subtitle, token) {
        e.matchedToken := Some(Snippet(subtitle));
      } else if Contains(description, token) {
        e.matchedToken := Some(Snippet(description));
      } else if Contains(title, token) {
        e.matchedToken := Some(Snippet(title));
      } else {
        ok := false;
      }
      if ok {
        assert tokens[k..][1..] == tokens[k + 1..];
        k := k + 1;
      }
    }
  }

  /** `filterByQuery(index, query)`: an empty query returns the index itself;
      otherwise the entries matching every space-separated token, in order, and each
      entry's `matchedToken` set as the search of its tokens left it. */
  method FilterByQuery(index: seq<Entry>, query: string) returns (r: seq<Entry>)
    modifies index
    ensures query == [] ==> r == index
    ensures query == [] ==> forall e :: e in index ==> e.matchedToken == old(e.matchedToken)
    ensures query != [] ==> r == Matching(index, Split(query, " "))
    ensures query != [] ==> forall e :: e in index ==>
      e.matchedToken == MatchedAfter(e, Split(query, " "), old(e.matchedToken))
  {
    if query == [] {
      return index;
    }
    var tokens := Split(query, " ");
    r := [];
    var i := 0;
    while i < |index|
      invariant 0 <= i <= |index|
      invariant r == Matching(index[..i], tokens)
      invariant forall e :: e in index ==>
        e.matchedToken == if e in index[..i] then MatchedAfter(e, tokens, old(e.matchedToken)) else old(e.matchedToken)
    {
      var e := index[i];
      var ok := MatchEvery(e, tokens);
      if ok {
        r := r + [e];
      }
      MatchingStep(index, i, tokens);
      if e in index[..i] {
        MatchedAfterTwice(e, tokens, old(e.matchedToken));
      }
      SliceGrows(index, i);
      i := i + 1;
    }
    assert index[..i] == index;
  }
}

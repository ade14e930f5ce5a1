/** The site-wide helpers of scripts/scripts.js: which country site a hostname
    belongs to and the locale tables keyed by it, the name slugger, placeholder
    lookup, the internal-path filter over the query index, the article lookup behind
    the previous/next links, and the admin API address. The hostname is a parameter
    where the source reads `window.location.hostname`. */
module Site {
  import opened Common
  import opened Strings
  import opened Slug
  import opened QueryIndex

  /** The country sites besides the default 'us', in the order they are tried. */
  const AllowedSites: seq<string> := ["uk", "de", "fr", "it", "es", "sg", "pt", "jp", "br"]

  const FranklinHostName := "accenture-newsroom"
  const MainHostName := "newsroom.accenture"

  /** The first code of `codes`, in order, such that `prefix + code` occurs in `text`. */
  function FirstSiteIn(text: string, prefix: string, codes: seq<string>): Option<string>
  {
    if codes == [] then None
    else if Contains(text, prefix + codes[0]) then Some(codes[0])
    else FirstSiteIn(text, prefix, codes[1..])
  }

  /** The code found is the first, in list order, whose prefixed form occurs in the
      text; none is found exactly when no prefixed code occurs. */
  lemma {:induction false} FirstSiteInFinds(text: string, prefix: string, codes: seq<string>)
    ensures FirstSiteIn(text, prefix, codes).Some? ==>
      exists k :: (0 <= k < |codes| && codes[k] == FirstSiteIn(text, prefix, codes).value &&
        Contains(text, prefix + codes[k]) && forall j :: 0 <= j < k ==> !Contains(text, prefix + codes[j]))
    ensures FirstSiteIn(text, prefix, codes).None? ==> forall k :: 0 <= k < |codes| ==> !Contains(text, prefix + codes[k])
  {
    if codes != [] && !Contains(text, prefix + codes[0]) {
      FirstSiteInFinds(text, prefix, codes[1..]);
      assert forall k :: 1 <= k < |codes| ==> codes[k] == codes[1..][k - 1];
      if FirstSiteIn(text, prefix, codes).Some? {
        var k :| 0 <= k < |codes[1..]| && codes[1..][k] == FirstSiteIn(text, prefix, codes).value &&
          Contains(text, prefix + codes[1..][k]) && forall j :: 0 <= j < k ==> !Contains(text, prefix + codes[1..][j]);
        assert forall j :: 0 <= j < k + 1 ==> !Contains(text, prefix + codes[j]) by {
          forall j | 0 <= j < k + 1 ensures !Contains(text, prefix + codes[j]) {
            if j > 0 {
              assert codes[j] == codes[1..][j - 1];
            }
          }
        }
      }
    }
  }

  function OrUs(o: Option<string>): string {
    if o.Some? then o.value else "us"
  }

  /** `getSiteFromHostName(hostname)`: 'localhost' is the us site; a preview host
      names its site as 'accenture-newsroom-<code>'; on a production host the first
      'newsroom.accenture' is cut out and the first code found in the rest wins. */
  function SiteFromHostName(hostname: string): string {
    if hostname == "localhost" then "us"
    else if Contains(hostname, FranklinHostName) then
      OrUs(FirstSiteIn(hostname, FranklinHostName + "-", AllowedSites))
    else if Contains(hostname, MainHostName) then
      OrUs(FirstSiteIn(RemoveFirst(hostname, MainHostName), "", AllowedSites))
    else "us"
  }

  /** The loops of `getSiteFromHostName`, with their early returns. */
  method GetSiteFromHostName(hostname: string) returns (site: string)
    ensures site == SiteFromHostName(hostname)
  {
    if hostname == "localhost" {
      return "us";
    }
    if Contains(hostname, FranklinHostName) {
      var i := 0;
      while i < |AllowedSites|
        invariant 0 <= i <= |AllowedSites|
        invariant FirstSiteIn(hostname, FranklinHostName + "-", AllowedSites)
               == FirstSiteIn(hostname, FranklinHostName + "-", AllowedSites[i..])
      {
        assert AllowedSites[i..][1..] == AllowedSites[i + 1..];
        if Contains(hostname, FranklinHostName + "-" + AllowedSites[i]) {
          return AllowedSites[i];
        }
        i := i + 1;
      }
      return "us";
    }
    if Contains(hostname, MainHostName) {
      var remaining := RemoveFirst(hostname, MainHostName);
      var i := 0;
      while i < |AllowedSites|
        invariant 0 <= i <= |AllowedSites|
        invariant FirstSiteIn(remaining, "", AllowedSites) == FirstSiteIn(remaining, "", AllowedSites[i..])
      {
        assert AllowedSites[i..][1..] == AllowedSites[i + 1..];
        assert "" + AllowedSites[i] == AllowedSites[i];
        if Contains(remaining, AllowedSites[i]) {
          return AllowedSites[i];
        }
        i := i + 1;
      }
    }
    return "us";
  }

  /** Every hostname resolves to 'us' or one of the allowed country sites. */
  lemma SiteIsKnown(hostname: string)
    ensures SiteFromHostName(hostname) == "us" || SiteFromHostName(hostname) in AllowedSites
  {
    FirstSiteInFinds(hostname, FranklinHostName + "-", AllowedSites);
    FirstSiteInFinds(RemoveFirst(hostname, MainHostName), "", AllowedSites);
  }

  /** A preview host resolves to the first site, in list order, whose
      'accenture-newsroom-<code>' it contains, and to 'us' when there is none. */
  lemma FranklinHostSite(hostname: string, k: int)
    requires hostname != "localhost" && Contains(hostname, FranklinHostName)
    requires 0 <= k < |AllowedSites| && Contains(hostname, FranklinHostName + "-" + AllowedSites[k])
    requires forall j :: 0 <= j < k ==> !Contains(hostname, FranklinHostName + "-" + AllowedSites[j])
    ensures SiteFromHostName(hostname) == AllowedSites[k]
  {
    var r := FirstSiteIn(hostname, FranklinHostName + "-", AllowedSites);
    FirstSiteInFinds(hostname, FranklinHostName + "-", AllowedSites);
    if r.Some? {
      var k' :| 0 <= k' < |AllowedSites| && AllowedSites[k'] == r.value
        && Contains(hostname, FranklinHostName + "-" + AllowedSites[k'])
        && forall j :: 0 <= j < k' ==> !Contains(hostname, FranklinHostName + "-" + AllowedSites[j]);
      assert k' == k;
    }
  }

  lemma PrefixAtConcat(a: string, b: string, c: string)
    ensures PrefixAt(a + b + c, |a|, b)
  {
    assert (a + b + c)[|a|..|a| + |b|] == b;
  }

  /** Any host containing 'accenture-newsroom-uk' is the UK site, the first in the
      list. */
  lemma UkPreviewHost(before: string, after: string)
    ensures SiteFromHostName(before + (FranklinHostName + "-uk") + after) == "uk"
  {
    var h := before + (FranklinHostName + "-uk") + after;
    assert |h| > |"localhost"|;
    PrefixAtConcat(before, FranklinHostName + "-uk", after);
    assert FranklinHostName + "-" + AllowedSites[0] == FranklinHostName + "-uk";
    assert h == before + FranklinHostName + ("-uk" + after);
    PrefixAtConcat(before, FranklinHostName, "-uk" + after);
    FranklinHostSite(h, 0);
  }

  /** The production host with no code left after 'newsroom.accenture' is cut out
      is the us site. */
  lemma MainHostWithoutCode(hostname: string)
    requires hostname != "localhost" && !Contains(hostname, FranklinHostName) && Contains(hostname, MainHostName)
    requires forall k :: 0 <= k < |AllowedSites| ==> !Contains(RemoveFirst(hostname, MainHostName), AllowedSites[k])
    ensures SiteFromHostName(hostname) == "us"
  {
    var rest := RemoveFirst(hostname, MainHostName);
    assert forall k :: 0 <= k < |AllowedSites| ==> "" + AllowedSites[k] == AllowedSites[k];
    FirstSiteInFinds(rest, "", AllowedSites);
    assert FirstSiteIn(rest, "", AllowedSites).None?;
  }

  // ----- the locale tables -----

  const SiteToCountry: map<string, string> := map[
    "us" := "us", "uk" := "gb", "de" := "de", "fr" := "fr", "it" := "it",
    "es" := "sp", "sg" := "sg", "pt" := "pt", "jp" := "jp", "br" := "br"]

  const CountryToLanguage: map<string, string> := map[
    "us" := "en", "uk" := "en", "de" := "de", "fr" := "fr", "it" := "it",
    "es" := "es", "sg" := "en", "pt" := "pt", "jp" := "ja", "br" := "pt"]

  const CountryDateLocales: map<string, string> := map[
    "us" := "en-US", "gb" := "en-US", "de" := "de-DE", "fr" := "fr-FR", "it" := "it-IT",
    "sp" := "es-ES", "sg" := "en-US", "pt" := "pt-PT", "jp" := "ja-JP", "br" := "pt-BR"]

  /** `getCountry()`: the country code of the host's site. The table has an entry
      for every site the host can resolve to, so the result is never undefined, and
      every such country has its own date locale. */
  function GetCountry(hostname: string): (c: string)
    ensures c in CountryDateLocales
    ensures SiteFromHostName(hostname) == "us" ==> c == "us"
  {
    SiteIsKnown(hostname);
    SiteToCountry[SiteFromHostName(hostname)]
  }

  /** `getLanguage(country)`: the table's language, or 'en' for an unknown key. */
  function GetLanguage(country: string): (r: string)
    ensures country !in CountryToLanguage ==> r == "en"
    ensures country in CountryToLanguage ==> r == CountryToLanguage[country]
    ensures r in ["en", "de", "fr", "it", "es", "pt", "ja"]
  {
    if country in CountryToLanguage then CountryToLanguage[country] else "en"
  }

  /** `getDateLocales(country)`: the table's locale, or 'en-US' for an unknown key. */
  function GetDateLocales(country: string): (r: string)
    ensures country !in CountryDateLocales ==> r == "en-US"
    ensures country in CountryDateLocales ==> r == CountryDateLocales[country]
    ensures r in ["en-US", "de-DE", "fr-FR", "it-IT", "es-ES", "pt-PT", "ja-JP", "pt-BR"]
  {
    if country in CountryDateLocales then CountryDateLocales[country] else "en-US"
  }

  /** The language table is keyed by site codes while `getCountry` yields country
      codes: the Spanish site's country 'sp' has no language entry and falls back to
      'en', and the UK's 'gb' does too. */
  lemma LanguageTableUsesSiteCodes()
    ensures GetLanguage(SiteToCountry["es"]) == "en" && GetLanguage("es") == "es"
    ensures GetLanguage(SiteToCountry["uk"]) == "en"
    ensures GetDateLocales(SiteToCountry["es"]) == "es-ES"
  {
    assert SiteToCountry["es"] == "sp";
  }

  // ----- names and placeholders -----

  /** `sanitizeName(name)` with the URI decoding and accent stripping taken as done:
      empty input gives '', anything else is trimmed, lower-cased and slugged. */
  function SanitizeName(name: string): (r: string)
    ensures IsSlug(r)
    ensures name == [] ==> r == []
  {
    if name == [] then []
    else
      var lowered := ToLower(Trim(name));
      assert IsSlug(Slugify(lowered));
      Slugify(lowered)
  }

  /** Two words of letters and digits separated by a run of other characters give
      the two words lower-cased with one dash between them: 'Strategy & Consulting'
      gives 'strategy-consulting'. */
  lemma SanitizeNameWords(a: string, w: string, b: string)
    requires a != [] && forall i :: 0 <= i < |a| ==> IsAlnum(a[i])
    requires w != [] && forall i :: 0 <= i < |w| ==> !IsAlnum(w[i])
    requires b != [] && forall i :: 0 <= i < |b| ==> IsAlnum(b[i])
    ensures SanitizeName(a + w + b) == ToLower(a) + "-" + ToLower(b)
  {
    var name := a + w + b;
    assert name[0] == a[0] && name[|name| - 1] == b[|b| - 1];
    SanitizeNameTrimmed(name);
    LowerAround(a, w, b);
    LowerAlnumKept(a);
    LowerAlnumKept(b);
    NoAlnumNotKept(w);
    SlugifyTwoWords(ToLower(a), w, ToLower(b));
  }

  /** A name without edge spaces is lower-cased and slugged as it is. */
  lemma SanitizeNameTrimmed(name: string)
    requires name != [] && !IsSpace(name[0]) && !IsSpace(name[|name| - 1])
    ensures SanitizeName(name) == Slugify(ToLower(name))
  {
    TrimNoEdgeSpace(name);
  }

  /** Lower-casing leaves a run without letters alone. */
  lemma LowerAround(a: string, w: string, b: string)
    requires forall i :: 0 <= i < |w| ==> !IsAlnum(w[i])
    ensures ToLower(a + w + b) == ToLower(a) + w + ToLower(b)
  {
    ToLowerAppend(a + w, b);
    ToLowerAppend(a, w);
    assert ToLower(w) == w;
  }

  /** A character that is no letter or digit is not kept. */
  lemma NoAlnumNotKept(w: string)
    requires forall i :: 0 <= i < |w| ==> !IsAlnum(w[i])
    ensures forall i :: 0 <= i < |w| ==> !IsKept(w[i])
  {
  }

  /** Letters and digits lower-case to characters a slug keeps. */
  lemma LowerAlnumKept(a: string)
    requires forall i :: 0 <= i < |a| ==> IsAlnum(a[i])
    ensures forall i :: 0 <= i < |ToLower(a)| ==> IsKept(ToLower(a)[i])
  {
  }

  /** A slug has no edge spaces. */
  lemma SlugIsTrimmed(r: string)
    requires IsSlug(r)
    ensures Trim(r) == r
  {
    if r != [] {
      assert IsSlugChar(r[0]) && IsSlugChar(r[|r| - 1]);
    }
    TrimNoEdgeSpace(r);
  }

  /** A slug has no capitals. */
  lemma SlugIsLower(r: string)
    requires forall i :: 0 <= i < |r| ==> IsSlugChar(r[i])
    ensures ToLower(r) == r
  {
    forall i | 0 <= i < |r| ensures ToLower(r)[i] == r[i] {
      assert IsSlugChar(r[i]);
    }
  }

  /** A slug is its own sanitized name, so sanitizing twice changes nothing. */
  lemma SanitizeNameIdempotent(name: string)
    ensures SanitizeName(SanitizeName(name)) == SanitizeName(name)
  {
    var r := SanitizeName(name);
    if r != [] {
      SlugIsTrimmed(r);
      SlugIsLower(r);
      SlugifyOfSlug(r);
      calc {
        SanitizeName(r);
        Slugify(ToLower(Trim(r)));
        Slugify(r);
        r;
      }
    }
  }

  /** Sanitizing keeps every letter and digit of the trimmed, lower-cased name, in
      order, and only those besides its dashes. */
  lemma SanitizeNameKeepsLetters(name: string)
    requires name != []
    ensures RemoveChar(SanitizeName(name), '-') == KeptChars(ToLower(Trim(name)))
  {
    SlugifyKeepsLetters(ToLower(Trim(name)));
  }

  /** `getPlaceholder(key, placeholders)`: the placeholder text when the table
      exists and has a non-empty entry for the key, the key itself otherwise. */
  function GetPlaceholder(key: string, placeholders: Option<map<string, string>>): (r: string)
    ensures r == key || (placeholders.Some? && key in placeholders.value && r == placeholders.value[key])
    ensures r != key ==> r != ""
    ensures placeholders.None? || key !in placeholders.value ==> r == key
  {
    if placeholders.Some? && key in placeholders.value && placeholders.value[key] != "" then placeholders.value[key]
    else key
  }

  // ----- the query index -----

  /** `skipInternalPaths` of scripts/scripts.js: the search page, the home page,
      drafts, the industries and subjects listings, and category pages. */
  predicate IsInternalRow(row: IndexRow) {
    || row.path == "/search" || row.path == "/"
    || Contains(row.path, "drafts/") || Contains(row.path, "/industries/") || Contains(row.path, "/subjects/")
    || row.template == "category"
  }

  function SkipInternalPaths(rows: seq<IndexRow>): (r: seq<IndexRow>)
    ensures |r| <= |rows|
    ensures forall x :: x in r <==> x in rows && !IsInternalRow(x)
  {
    Filter(rows, (row: IndexRow) => !IsInternalRow(row))
  }

  /** The filter works row by row, so the kept rows keep their order. */
  lemma SkipInternalPathsAppend(a: seq<IndexRow>, b: seq<IndexRow>)
    ensures SkipInternalPaths(a + b) == SkipInternalPaths(a) + SkipInternalPaths(b)
  {
    FilterAppend(a, b, (row: IndexRow) => !IsInternalRow(row));
  }

  /** An index with no internal rows passes unchanged. */
  lemma SkipInternalPathsKeepsPublicIndex(rows: seq<IndexRow>)
    requires forall k :: 0 <= k < |rows| ==> !IsInternalRow(rows[k])
    ensures SkipInternalPaths(rows) == rows
  {
    FilterAll(rows, (row: IndexRow) => !IsInternalRow(row));
  }

  /** The rows `fetchIndex` stores and returns: the filter's result is computed and
      dropped, so the rows are the fetched ones. */
  function FetchIndexRows(rows: seq<IndexRow>): (r: seq<IndexRow>)
    ensures |r| == |rows| && forall k :: 0 <= k < |rows| ==> r[k] == rows[k]
  {
    var _ := SkipInternalPaths(rows);
    rows
  }

  /** The search page survives `fetchIndex`. */
  lemma FetchIndexKeepsInternalRows()
    ensures var r := FetchIndexRows([IndexRow("/search", "")]); |r| == 1 && IsInternalRow(r[0])
  {
  }

  /** `fetchIndex` keeping the filter's result: no internal row is returned and every
      public row is. */
  function FetchIndexRowsFiltered(rows: seq<IndexRow>): (r: seq<IndexRow>)
    ensures forall k :: 0 <= k < |r| ==> !IsInternalRow(r[k])
    ensures forall x :: x in rows && !IsInternalRow(x) ==> x in r
  {
    SkipInternalPaths(rows)
  }

  /** `findArticleIndex(queryIndex, path)`: the loop with `break`. */
  method FindArticleIndex(queryIndex: seq<IndexRow>, path: string) returns (articleIndex: int)
    ensures -1 <= articleIndex < |queryIndex|
    ensures articleIndex >= 0 ==> queryIndex[articleIndex].path == path
    ensures articleIndex >= 0 ==> forall j :: 0 <= j < articleIndex ==> queryIndex[j].path != path
    ensures articleIndex == -1 <==> forall j :: 0 <= j < |queryIndex| ==> queryIndex[j].path != path
  {
    articleIndex := -1;
    var i := 0;
    while i < |queryIndex|
      invariant 0 <= i <= |queryIndex|
      invariant forall j :: 0 <= j < i ==> queryIndex[j].path != path
    {
      if queryIndex[i].path == path {
        articleIndex := i;
        break;
      }
      i := i + 1;
    }
  }

  /** The previous and next article of the one at `i` in the index (newest first),
      `None` where the source reads past the start of the list. */
  datatype Neighbours = Neighbours(prev: Option<IndexRow>, next: Option<IndexRow>)

  /** The branch for an article found inside the list, not at its end: previous is
      the older article after it, next the newer one before it. */
  function InListNeighbours(queryIndex: seq<IndexRow>, i: int): (r: Neighbours)
    requires 0 <= i && i + 1 < |queryIndex|
    ensures r.prev == Some(queryIndex[i + 1])
    ensures r.next.Some? <==> i > 0
    ensures i > 0 ==> r.next == Some(queryIndex[i - 1])
  {
    Neighbours(Some(queryIndex[i + 1]), if i > 0 then Some(queryIndex[i - 1]) else None)
  }

  /** The links are mutual: the article after this one links back to it as next, and
      the one before it links to it as previous. */
  lemma NeighboursAreMutual(queryIndex: seq<IndexRow>, i: int)
    requires 0 <= i && i + 2 < |queryIndex|
    ensures InListNeighbours(queryIndex, i + 1).next == Some(queryIndex[i])
    ensures i > 0 ==> InListNeighbours(queryIndex, i - 1).prev == Some(queryIndex[i])
  {
  }

  // ----- the admin API address -----

  const TestBranch := "auto-publish-pdf--accenture-newsroom--hlxsites"

  /** `parts[k]` of a destructuring: 'undefined' when the part is missing. */
  function PartOr(parts: seq<string>, k: nat): string {
    if k < |parts| then parts[k] else "undefined"
  }

  /** `getAdminUrl(url, action)`: the project label (the first hostname label, or the
      test branch on localhost) split on '--' into branch, repo and owner. */
  function GetAdminUrl(url: string, action: string, hostname: string): (r: string)
  {
    var project := if hostname == "localhost" then TestBranch else Split(hostname, ".")[0];
    var parts := Split(project, "--");
    var base := "https://admin.hlx.page/" + action + "/" + PartOr(parts, 2) + "/" + PartOr(parts, 1)
      + "/" + PartOr(parts, 0) + url;
    if action == "status" then base + "?editUrl=auto" else base
  }

  /** A part that does not end in a dash and holds no '--' is cut off whole. */
  lemma SplitDoubleDash(p: string, rest: string)
    requires !Contains(p, "--") && (p == [] || p[|p| - 1] != '-')
    ensures Split(p + "--" + rest, "--") == [p] + Split(rest, "--")
  {
    var s := p + "--" + rest;
    forall i | 0 <= i < |p| ensures !PrefixAt(s, i, "--") {
      if i + 2 <= |p| {
        assert s[i..i + 2] == p[i..i + 2];
        assert !PrefixAt(p, i, "--");
      } else {
        assert s[i] == p[|p| - 1];
      }
    }
    SplitFirst(p, "--", rest);
  }

  predicate IsLabelPart(p: string) {
    p != [] && !Contains(p, "--") && p[|p| - 1] != '-' && '.' !in p
  }

  /** The first label of a host is what precedes its first dot. */
  lemma FirstHostLabel(projectLabel: string, domain: string)
    requires '.' !in projectLabel
    ensures Split(projectLabel + "." + domain, ".")[0] == projectLabel
  {
    NoStartInside(projectLabel, ".", domain);
    SplitFirst(projectLabel, ".", domain);
  }

  /** 'branch--repo--owner' splits into its three parts. */
  lemma ProjectParts(branch: string, repo: string, owner: string)
    requires IsLabelPart(branch) && IsLabelPart(repo) && IsLabelPart(owner)
    ensures Split(branch + "--" + repo + "--" + owner, "--") == [branch, repo, owner]
  {
    SplitDoubleDash(repo, owner);
    SplitNone(owner, "--");
    assert branch + "--" + repo + "--" + owner == branch + "--" + (repo + "--" + owner);
    SplitDoubleDash(branch, repo + "--" + owner);
  }

  /** For a host 'branch--repo--owner.<domain>' the address names owner, repo and
      branch in that order, and only the status action asks for the edit URL. */
  lemma AdminUrlOfProject(url: string, action: string, branch: string, repo: string, owner: string, domain: string)
    requires IsLabelPart(branch) && IsLabelPart(repo) && IsLabelPart(owner)
    ensures var hostname := branch + "--" + repo + "--" + owner + "." + domain;
      GetAdminUrl(url, action, hostname)
        == "https://admin.hlx.page/" + action + "/" + owner + "/" + repo + "/" + branch + url
           + (if action == "status" then "?editUrl=auto" else "")
  {
    var projectLabel := branch + "--" + repo + "--" + owner;
    var hostname := projectLabel + "." + domain;
    assert '.' !in projectLabel;
    FirstHostLabel(projectLabel, domain);
    assert hostname != "localhost" by {
      assert hostname[|projectLabel|] == '.';
      assert '.' !in "localhost";
    }
    ProjectParts(branch, repo, owner);
  }

  /** A label without '--' leaves repo and owner undefined. */
  lemma AdminUrlOfPlainLabel(url: string, projectLabel: string, domain: string)
    requires '.' !in projectLabel && !Contains(projectLabel, "--") && projectLabel != []
    ensures GetAdminUrl(url, "preview", projectLabel + "." + domain)
         == "https://admin.hlx.page/preview/undefined/undefined/" + projectLabel + url
  {
    var hostname := projectLabel + "." + domain;
    FirstHostLabel(projectLabel, domain);
    assert hostname != "localhost" by {
      assert hostname[|projectLabel|] == '.';
      assert '.' !in "localhost";
    }
    var parts := Split(projectLabel, "--");
    assert parts == [projectLabel] by {
      SplitNone(projectLabel, "--");
    }
    assert PartOr(parts, 2) == "undefined" && PartOr(parts, 1) == "undefined" && PartOr(parts, 0) == projectLabel;
    PreviewPlainPrefix();
    assert "preview" != "status" by {
      assert "preview"[0] != "status"[0];
    }
  }

  lemma PreviewPlainPrefix()
    ensures "https://admin.hlx.page/" + "preview" + "/" + "undefined" + "/" + "undefined" + "/"
         == "https://admin.hlx.page/preview/undefined/undefined/"
  {
  }
}

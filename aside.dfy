/** The tag links of the article side rail (blocks/aside/aside.js): the taxonomy
    sheet is reduced to value/text pairs per category, each comma-separated tag of
    the page metadata is looked up there, and a link to the tag's listing page is
    built under the site's path prefix. The page origin and the text of the
    invalid-tag marker (defined in scripts/constants.js, which is not part of this
    model) are parameters. */
module Aside {
  import opened Common
  import opened Strings
  import opened Slug
  import opened Site

  /** One row of the taxonomy sheet: its columns by header. */
  type TaxonomyRow = map<string, string>

  /** A reduced taxonomy entry; a missing column reads as undefined. */
  datatype TagEntry = TagEntry(value: Option<string>, text: Option<string>)

  /** What `getTagTitleHandler` returns; the title is undefined when the matching
      entry has no text. */
  datatype TagTitle = TagTitle(tagTitle: Option<string>, valid: bool)

  /** `oTaxonomy.find(...)` done by hand: the title of the first entry whose value is
      the tag; otherwise, away from the production origin, the tag flagged with the
      marker and not valid, and on it the tag itself. */
  function TagTitleFor(tag: string, taxonomy: seq<TagEntry>, origin: string, invalidTagError: string): (r: TagTitle)
  {
    if taxonomy == [] then
      if Contains(origin, "https://newsroom") then TagTitle(Some(tag), true)
      else TagTitle(Some(tag + " " + invalidTagError), false)
    else if taxonomy[0].value == Some(tag) then TagTitle(taxonomy[0].text, true)
    else
      TagTitleFor(tag, taxonomy[1..], origin, invalidTagError)
  }

  /** The title found is that of the first entry whose value is the tag; with no
      such entry, the tag itself, flagged off the production origin. */
  lemma {:induction false} TagTitleForFinds(tag: string, taxonomy: seq<TagEntry>, origin: string, invalidTagError: string)
    ensures (exists i :: 0 <= i < |taxonomy| && taxonomy[i].value == Some(tag)) ==>
      exists i :: (0 <= i < |taxonomy| && taxonomy[i].value == Some(tag) &&
        TagTitleFor(tag, taxonomy, origin, invalidTagError) == TagTitle(taxonomy[i].text, true)
        && forall j :: 0 <= j < i ==> taxonomy[j].value != Some(tag))
    ensures (forall i :: 0 <= i < |taxonomy| ==> taxonomy[i].value != Some(tag)) ==>
      TagTitleFor(tag, taxonomy, origin, invalidTagError) ==
        if Contains(origin, "https://newsroom") then TagTitle(Some(tag), true)
        else TagTitle(Some(tag + " " + invalidTagError), false)
  {
    if taxonomy != [] && taxonomy[0].value != Some(tag) {
      TagTitleForFinds(tag, taxonomy[1..], origin, invalidTagError);
      assert forall i :: 1 <= i < |taxonomy| ==> taxonomy[i] == taxonomy[1..][i - 1];
      if exists i :: 0 <= i < |taxonomy| && taxonomy[i].value == Some(tag) {
        var i :| 0 <= i < |taxonomy| && taxonomy[i].value == Some(tag);
        assert taxonomy[1..][i - 1].value == Some(tag);
        var k :| 0 <= k < |taxonomy[1..]| && taxonomy[1..][k].value == Some(tag) &&
          TagTitleFor(tag, taxonomy[1..], origin, invalidTagError) == TagTitle(taxonomy[1..][k].text, true)
          && forall j :: 0 <= j < k ==> taxonomy[1..][j].value != Some(tag);
        assert forall j :: 0 <= j < k + 1 ==> taxonomy[j].value != Some(tag) by {
          forall j | 0 <= j < k + 1 ensures taxonomy[j].value != Some(tag) {
            if j > 0 {
              assert taxonomy[j] == taxonomy[1..][j - 1];
            }
          }
        }
      }
    }
  }

  /** `getTagTitleHandler(sTag, oTaxonomy)`: the loop with its early return. */
  method GetTagTitleHandler(tag: string, taxonomy: seq<TagEntry>, origin: string, invalidTagError: string)
    returns (r: TagTitle)
    ensures r == TagTitleFor(tag, taxonomy, origin, invalidTagError)
  {
    var i := 0;
    while i < |taxonomy|
      invariant 0 <= i <= |taxonomy|
      invariant TagTitleFor(tag, taxonomy, origin, invalidTagError) == TagTitleFor(tag, taxonomy[i..], origin, invalidTagError)
    {
      assert taxonomy[i..][1..] == taxonomy[i + 1..];
      if taxonomy[i].value == Some(tag) {
        return TagTitle(taxonomy[i].text, true);
      }
      i := i + 1;
    }
    if !Contains(origin, "https://newsroom") {
      return TagTitle(Some(tag + " " + invalidTagError), false);
    }
    return TagTitle(Some(tag), true);
  }

  /** A tag not in the taxonomy is flagged invalid exactly off the production
      origin, and a tag in it is always valid. */
  lemma TagValidity(tag: string, taxonomy: seq<TagEntry>, origin: string, invalidTagError: string)
    ensures !TagTitleFor(tag, taxonomy, origin, invalidTagError).valid <==>
      (forall i :: 0 <= i < |taxonomy| ==> taxonomy[i].value != Some(tag)) && !Contains(origin, "https://newsroom")
  {
    TagTitleForFinds(tag, taxonomy, origin, invalidTagError);
  }

  /** `charAt(0).toUpperCase() + slice(1)`. */
  function Capitalize(s: string): (r: string)
    ensures |r| == |s| && (s != [] ==> r[0] == ToUpperChar(s[0]) && r[1..] == s[1..])
  {
    if s == [] then [] else [ToUpperChar(s[0])] + s[1..]
  }

  function Column(row: TaxonomyRow, key: string): Option<string> {
    if key in row then Some(row[key]) else None
  }

  /** The entry `getReduceTags` pushes for one row. */
  function EntryOf(row: TaxonomyRow, category: string): TagEntry {
    TagEntry(Column(row, Capitalize(category) + " Value"), Column(row, Capitalize(category) + " Text"))
  }

  /** `getReduceTags(oTaxonomy, sCategory)`: the `reduce` into an object that gets
      its category list on the first row; `None` is the empty object an empty sheet
      leaves. */
  method GetReduceTags(taxonomy: seq<TaxonomyRow>, category: string) returns (r: Option<seq<TagEntry>>)
    ensures r.None? <==> taxonomy == []
    ensures r.Some? ==> |r.value| == |taxonomy|
    ensures r.Some? ==> forall i :: 0 <= i < |taxonomy| ==> r.value[i] == EntryOf(taxonomy[i], category)
  {
    var capital := Capitalize(category);
    r := None;
    var i := 0;
    while i < |taxonomy|
      invariant 0 <= i <= |taxonomy|
      invariant r.None? <==> i == 0
      invariant r.Some? ==> |r.value| == i && forall k :: 0 <= k < i ==> r.value[k] == EntryOf(taxonomy[k], category)
    {
      var acc := if r.Some? then r.value else [];
      var row := taxonomy[i];
      acc := acc + [TagEntry(Column(row, capital + " Value"), Column(row, capital + " Text"))];
      r := Some(acc);
      i := i + 1;
    }
  }

  /** `getReduceTags(...)[category] || []`. */
  function CollectionOr(r: Option<seq<TagEntry>>): seq<TagEntry> {
    if r.Some? then r.value else []
  }

  const SiteNamePrefix: map<string, string> := map[
    "us" := "", "uk" := "/english-uk", "de" := "/de", "fr" := "/fr", "it" := "/it",
    "es" := "/es", "sg" := "/asia-pacific", "pt" := "/pt", "jp" := "/jp", "br" := "/br"]

  /** The listing path segment of a category on a site: the French and Italian
      sites translate it and map every other category onto their second one. */
  function TagCategory(siteName: string, category: string): (m: string)
    ensures siteName == "fr" ==> (m == "secteurs-dactivit" <==> category == "industries")
    ensures siteName == "fr" ==> m in ["secteurs-dactivit", "sujet"]
    ensures siteName == "it" ==> (m == "argomento" <==> category == "subjects")
    ensures siteName == "it" ==> m in ["argomento", "industries"]
    ensures siteName != "fr" && siteName != "it" ==> m == category
  {
    var categoryMapping := category;
    var categoryMapping := if siteName == "fr" then (if category == "industries" then "secteurs-dactivit" else "sujet")
      else categoryMapping;
    if siteName == "it" then (if category == "subjects" then "argomento" else "industries") else categoryMapping
  }

  /** `getPrefixForTags(siteName, category)`: the site's path prefix (none for the us
      site and for an unknown one), a slash, and the category segment. */
  function GetPrefixForTags(siteName: string, category: string): (r: string)
    ensures siteName !in SiteNamePrefix || siteName == "us" ==> r == "/" + TagCategory(siteName, category)
    ensures siteName in SiteNamePrefix ==> r == SiteNamePrefix[siteName] + "/" + TagCategory(siteName, category)
  {
    var prefix := if siteName in SiteNamePrefix then SiteNamePrefix[siteName] else "";
    prefix + "/" + TagCategory(siteName, category)
  }

  /** On every site, industry and subject tags live under different prefixes. */
  lemma PrefixesSeparateCategories(siteName: string)
    ensures GetPrefixForTags(siteName, "industries") != GetPrefixForTags(siteName, "subjects")
  {
    var p := if siteName in SiteNamePrefix then SiteNamePrefix[siteName] else "";
    var a, b := TagCategory(siteName, "industries"), TagCategory(siteName, "subjects");
    assert a != b;
    assert (p + "/" + a)[|p| + 1..] == a;
    assert (p + "/" + b)[|p| + 1..] == b;
  }

  /** One tag link: the class of its list item, its address, the link's class and its
      text. */
  datatype TagLink = TagLink(itemClass: string, href: string, linkClass: string, text: string)

  /** The link `createTagsHandler` makes for one comma-separated piece: looked up
      trimmed, addressed by its sanitized name, and titled by the trimmed title; an
      undefined title makes `.trim()` throw. */
  function TagLinkFor(classTag: string, piece: string, collection: seq<TagEntry>, prefix: string,
                      origin: string, invalidTagError: string): (r: Result<TagLink>)
    ensures r.Ok? <==> TagTitleFor(Trim(piece), collection, origin, invalidTagError).tagTitle.Some?
    ensures r.Ok? ==> r.value.href == prefix + "/" + SanitizeName(piece)
    ensures r.Ok? ==> (r.value.linkClass == "invalid-tag" <==> !TagTitleFor(Trim(piece), collection, origin, invalidTagError).valid)
    ensures r.Ok? ==> r.value.itemClass == classTag
    ensures r.Ok? ==> r.value.text == Trim(TagTitleFor(Trim(piece), collection, origin, invalidTagError).tagTitle.value)
  {
    var title := TagTitleFor(Trim(piece), collection, origin, invalidTagError);
    if title.tagTitle.None? then Err("TypeError")
    else Ok(TagLink(classTag, prefix + "/" + SanitizeName(piece), if title.valid then "" else "invalid-tag",
                    Trim(title.tagTitle.value)))
  }

  /** The link made for each piece, in order. */
  function LinkResults(classTag: string, pieces: seq<string>, collection: seq<TagEntry>, prefix: string,
                       origin: string, invalidTagError: string): (rs: seq<Result<TagLink>>)
    ensures |rs| == |pieces|
  {
    seq(|pieces|, k requires 0 <= k < |pieces| => TagLinkFor(classTag, pieces[k], collection, prefix, origin, invalidTagError))
  }

  /** `createTagsHandler(...)`: one list item per comma-separated piece, in order; the
      first piece whose title is undefined stops it with a TypeError. */
  method CreateTagsHandler(classTag: string, tagValues: string, collection: seq<TagEntry>, prefix: string,
                           origin: string, invalidTagError: string) returns (r: Result<seq<TagLink>>)
    ensures r == Collect(LinkResults(classTag, Split(tagValues, ","), collection, prefix, origin, invalidTagError))
  {
    var pieces := Split(tagValues, ",");
    ghost var rs := LinkResults(classTag, pieces, collection, prefix, origin, invalidTagError);
    var items: seq<TagLink> := [];
    var k := 0;
    while k < |pieces|
      invariant 0 <= k <= |pieces|
      invariant Collect(rs[..k]) == Ok(items)
    {
      var link := CreateTagLink(classTag, pieces[k], collection, prefix, origin, invalidTagError);
      assert link == rs[k];
      CollectStep(rs, k);
      if link.Err? {
        CollectErrSticks(rs, k + 1);
        return Err(link.error);
      }
      items := items + [link.value];
      k := k + 1;
    }
    assert rs[..k] == rs;
    r := Ok(items);
  }

  /** The body of the `forEach` callback for one piece. */
  method CreateTagLink(classTag: string, sTag: string, collection: seq<TagEntry>, prefix: string,
                       origin: string, invalidTagError: string) returns (r: Result<TagLink>)
    ensures r == TagLinkFor(classTag, sTag, collection, prefix, origin, invalidTagError)
  {
    var tile := GetTagTitleHandler(Trim(sTag), collection, origin, invalidTagError);
    var cleanedUpValue := SanitizeName(sTag);
    if tile.tagTitle.None? {
      return Err("TypeError");
    }
    r := Ok(TagLink(classTag, prefix + "/" + cleanedUpValue, if tile.valid then "" else "invalid-tag",
                    Trim(tile.tagTitle.value)));
  }

  /** Every address of a tag link is the category prefix, a slash and a slug. */
  lemma TagLinkAddress(classTag: string, piece: string, collection: seq<TagEntry>, siteName: string,
                       category: string, origin: string, invalidTagError: string)
    ensures var r := TagLinkFor(classTag, piece, collection, GetPrefixForTags(siteName, category), origin, invalidTagError);
      r.Ok? ==> exists slug :: IsSlug(slug) && r.value.href == GetPrefixForTags(siteName, category) + "/" + slug
  {
    var r := TagLinkFor(classTag, piece, collection, GetPrefixForTags(siteName, category), origin, invalidTagError);
    if r.Ok? {
      assert IsSlug(SanitizeName(piece));
    }
  }
}

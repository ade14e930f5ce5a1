/** The SEO panel of the preflight tool (blocks/preflight/panels/seo.js): each check
    reads one value off the page, classifies it against fixed thresholds and writes
    the verdict into its own result signal. The values the checks read from the
    document (the number of h1 elements, the title, the meta tags, the text and the
    HTML of the page) are parameters. */
module Seo {
  import opened Common
  import opened Strings

  /** The colour class of a result icon: 'purple' while checking, 'green' for a pass,
      'red' for a failure, 'orange' when the page cannot be crawled. */
  datatype Icon = Purple | Green | Red | Orange

  const DefaultIcon := Purple
  const DefaultDescription := "Checking..."
  const PassIcon := Green
  const FailIcon := Red

  /** The fields of one result signal. */
  datatype CheckResult = CheckResult(icon: Icon, title: string, description: string)

  /** The icon and description a check writes. */
  datatype Verdict = Verdict(icon: Icon, description: string)

  /** `s.replace(/\s/g, '')`: the text without its whitespace. */
  function StripSpaces(s: string): (r: string)
    ensures |r| <= |s|
    ensures forall i :: 0 <= i < |r| ==> !IsSpace(r[i])
  {
    if s == [] then []
    else (if IsSpace(s[0]) then [] else [s[0]]) + StripSpaces(s[1..])
  }

  /** Only whitespace is removed: a text with none is kept whole. */
  lemma {:induction false} StripSpacesKeepsWords(s: string)
    requires forall i :: 0 <= i < |s| ==> !IsSpace(s[i])
    ensures StripSpaces(s) == s
  {
    if s != [] {
      StripSpacesKeepsWords(s[1..]);
    }
  }

  /** Stripping works piece by piece, so it counts the non-whitespace characters. */
  lemma {:induction false} StripSpacesAppend(a: string, b: string)
    ensures StripSpaces(a + b) == StripSpaces(a) + StripSpaces(b)
  {
    if a != [] {
      StripSpacesAppend(a[1..], b);
      var head := if IsSpace(a[0]) then [] else [a[0]];
      assert (a + b)[0] == a[0] && (a + b)[1..] == a[1..] + b;
      calc {
        StripSpaces(a + b);
        head + StripSpaces(a[1..] + b);
        head + (StripSpaces(a[1..]) + StripSpaces(b));
        (head + StripSpaces(a[1..])) + StripSpaces(b);
      }
    } else {
      assert a + b == b;
    }
  }

  /** A text made only of whitespace strips to nothing. */
  lemma {:induction false} StripSpacesOfBlank(s: string)
    requires forall i :: 0 <= i < |s| ==> IsSpace(s[i])
    ensures StripSpaces(s) == []
  {
    if s != [] {
      StripSpacesOfBlank(s[1..]);
    }
  }

  /** `checkH1s`: exactly one h1 passes; more than one or none fail with the matching
      reason. */
  function H1Verdict(h1Count: nat): (v: Verdict)
    ensures v.icon == PassIcon <==> h1Count == 1
    ensures v.icon == PassIcon || v.icon == FailIcon
    ensures h1Count > 1 ==> v.description == "Reason: More than one H1 on the page."
    ensures h1Count == 0 ==> v.description == "Reason: No H1 on the page."
  {
    if h1Count == 1 then Verdict(PassIcon, "Only one H1 on the page.")
    else if h1Count > 1 then Verdict(FailIcon, "Reason: More than one H1 on the page.")
    else Verdict(FailIcon, "Reason: No H1 on the page.")
  }

  /** `checkTitle`: the title passes iff it has 15 to 70 non-whitespace characters. */
  function TitleVerdict(title: string): (v: Verdict)
    ensures v.icon == PassIcon <==> 15 <= |StripSpaces(title)| <= 70
    ensures v.icon == PassIcon || v.icon == FailIcon
    ensures |StripSpaces(title)| < 15 ==> v.description == "Reason: Title size is too short."
    ensures |StripSpaces(title)| > 70 ==> v.description == "Reason: Title size is too long."
  {
    var size := |StripSpaces(title)|;
    if size < 15 then Verdict(FailIcon, "Reason: Title size is too short.")
    else if size > 70 then Verdict(FailIcon, "Reason: Title size is too long.")
    else Verdict(PassIcon, "Title size is good.")
  }

  /** Whitespace does not count towards the title's size: padding a short title
      with spaces never makes it pass. */
  lemma PaddedTitleStillShort(title: string, pad: string)
    requires |StripSpaces(title)| < 15
    requires forall i :: 0 <= i < |pad| ==> IsSpace(pad[i])
    ensures TitleVerdict(title + pad).icon == FailIcon
  {
    StripSpacesAppend(title, pad);
    StripSpacesOfBlank(pad);
  }

  /** `checkDescription`: a missing meta description fails; one with 50 to 150
      non-whitespace characters passes; a shorter or longer one fails. */
  function DescriptionVerdict(metaContent: Option<string>): (v: Verdict)
    ensures v.icon == PassIcon <==> metaContent.Some? && 50 <= |StripSpaces(metaContent.value)| <= 150
    ensures v.icon == PassIcon || v.icon == FailIcon
    ensures metaContent.None? ==> v.description == "Reason: No meta description found."
    ensures metaContent.Some? && |StripSpaces(metaContent.value)| < 50 ==>
              v.description == "Reason: Meta description too short."
    ensures metaContent.Some? && |StripSpaces(metaContent.value)| > 150 ==>
              v.description == "Reason: Meta description too long."
  {
    match metaContent
    case None => Verdict(FailIcon, "Reason: No meta description found.")
    case Some(content) =>
      var size := |StripSpaces(content)|;
      if size < 50 then Verdict(FailIcon, "Reason: Meta description too short.")
      else if size > 150 then Verdict(FailIcon, "Reason: Meta description too long.")
      else Verdict(PassIcon, "Meta description is good.")
  }

  /** `checkPublishedDate`: a missing meta fails, any present one passes. `new
      Date(...)` is an object and never falsy, so the 'not a valid date' branch is
      never taken, whatever the content. */
  function PublishedDateVerdict(metaContent: Option<string>): (v: Verdict)
    ensures v.icon == PassIcon <==> metaContent.Some?
    ensures v.icon == PassIcon || v.icon == FailIcon
    ensures v.description != "Reason: Published date is not a valid date."
  {
    if metaContent.None? then Verdict(FailIcon, "Reason: No published date metadata found.")
    else Verdict(PassIcon, "Published date is good.")
  }

  /** `checkBody`: the page text passes iff it is longer than 100 characters. */
  function BodyVerdict(textLength: nat): (v: Verdict)
    ensures v.icon == PassIcon <==> textLength > 100
    ensures v.icon == PassIcon || v.icon == FailIcon
  {
    if textLength > 100 then Verdict(PassIcon, "Body content has a good length.")
    else Verdict(FailIcon, "Reson: Not enough content.")
  }

  /** `checkLorem`: the page fails iff its HTML contains 'Lorem ipsum', with that
      exact case. */
  function LoremVerdict(html: string): (v: Verdict)
    ensures v.icon == FailIcon <==> Contains(html, "Lorem ipsum")
    ensures v.icon == PassIcon || v.icon == FailIcon
  {
    if Contains(html, "Lorem ipsum") then Verdict(FailIcon, "Reason: Lorem ipsum is used on the page.")
    else Verdict(PassIcon, "No Lorem ipsum is used on the page.")
  }

  /** The match is case-sensitive: a page quoting 'lorem ipsum' in lower case passes. */
  lemma LoremIsCaseSensitive()
    ensures LoremVerdict("lorem ipsum").icon == PassIcon
  {
    assert !PrefixAt("lorem ipsum", 0, "Lorem ipsum") by {
      assert "lorem ipsum"[0..11][0] != "Lorem ipsum"[0];
    }
  }

  /** The result signals of the panel. */
  class Panel {
    var h1Result: CheckResult
    var titleResult: CheckResult
    var descResult: CheckResult
    var pubDateResult: CheckResult
    var bodyResult: CheckResult
    var loremResult: CheckResult

    /** Every signal starts purple, 'Checking...', under its own title. */
    constructor()
      ensures h1Result == CheckResult(DefaultIcon, "H1 count", DefaultDescription)
      ensures titleResult == CheckResult(DefaultIcon, "Title size", DefaultDescription)
      ensures descResult == CheckResult(DefaultIcon, "Meta description", DefaultDescription)
      ensures pubDateResult == CheckResult(DefaultIcon, "Published Date", DefaultDescription)
      ensures bodyResult == CheckResult(DefaultIcon, "Body size", DefaultDescription)
      ensures loremResult == CheckResult(DefaultIcon, "Lorem Ipsum", DefaultDescription)
    {
      h1Result := CheckResult(DefaultIcon, "H1 count", DefaultDescription);
      titleResult := CheckResult(DefaultIcon, "Title size", DefaultDescription);
      descResult := CheckResult(DefaultIcon, "Meta description", DefaultDescription);
      pubDateResult := CheckResult(DefaultIcon, "Published Date", DefaultDescription);
      bodyResult := CheckResult(DefaultIcon, "Body size", DefaultDescription);
      loremResult := CheckResult(DefaultIcon, "Lorem Ipsum", DefaultDescription);
    }

    method CheckH1s(h1Count: nat) returns (icon: Icon)
      modifies this`h1Result
      ensures h1Result == old(h1Result).(icon := H1Verdict(h1Count).icon,
                                         description := H1Verdict(h1Count).description)
      ensures icon == h1Result.icon
    {
      var v := H1Verdict(h1Count);
      var result := h1Result;
      result := result.(icon := v.icon, description := v.description);
      h1Result := result;
      icon := result.icon;
    }

    method CheckTitle(title: string) returns (icon: Icon)
      modifies this`titleResult
      ensures titleResult == old(titleResult).(icon := TitleVerdict(title).icon,
                                               description := TitleVerdict(title).description)
      ensures icon == titleResult.icon
    {
      var v := TitleVerdict(title);
      var result := titleResult;
      result := result.(icon := v.icon, description := v.description);
      titleResult := result;
      icon := result.icon;
    }

    method CheckDescription(metaContent: Option<string>) returns (icon: Icon)
      modifies this`descResult
      ensures descResult == old(descResult).(icon := DescriptionVerdict(metaContent).icon,
                                             description := DescriptionVerdict(metaContent).description)
      ensures icon == descResult.icon
    {
      var v := DescriptionVerdict(metaContent);
      var result := descResult;
      result := result.(icon := v.icon, description := v.description);
      descResult := result;
      icon := result.icon;
    }

    method CheckPublishedDate(metaContent: Option<string>) returns (icon: Icon)
      modifies this`pubDateResult
      ensures pubDateResult == old(pubDateResult).(icon := PublishedDateVerdict(metaContent).icon,
                                                   description := PublishedDateVerdict(metaContent).description)
      ensures icon == pubDateResult.icon
    {
      var v := PublishedDateVerdict(metaContent);
      var result := pubDateResult;
      result := result.(icon := v.icon, description := v.description);
      pubDateResult := result;
      icon := result.icon;
    }

    method CheckBody(textLength: nat) returns (icon: Icon)
      modifies this`bodyResult
      ensures bodyResult == old(bodyResult).(icon := BodyVerdict(textLength).icon,
                                             description := BodyVerdict(textLength).description)
      ensures icon == bodyResult.icon
    {
      var v := BodyVerdict(textLength);
      var result := bodyResult;
      result := result.(icon := v.icon, description := v.description);
      bodyResult := result;
      icon := result.icon;
    }

    method CheckLorem(html: string) returns (icon: Icon)
      modifies this`loremResult
      ensures loremResult == old(loremResult).(icon := LoremVerdict(html).icon,
                                               description := LoremVerdict(html).description)
      ensures icon == loremResult.icon
    {
      var v := LoremVerdict(html);
      var result := loremResult;
      result := result.(icon := v.icon, description := v.description);
      loremResult := result;
      icon := result.icon;
    }
  }
}

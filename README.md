# Accenture Newsroom site logic, modelled in Dafny

This project models the logic of the Accenture Newsroom site. That site is a set of page
scripts and blocks on top of the Franklin (Helix) page framework. The model covers only the
logic that can be stated without a browser:

- **News list** (`blocks/newslist/newslist.js`):
  - the pager's page-number groups;
  - the page window;
  - the prev/next arrows;
  - the search over the index;
  - the internal-path filter;
  - the kebab-case author slug;
  - the clean-up of '0' values in the fetched index.
- **Publish-later jobs** (`tools/sidekick/authoring.js`):
  - the crontab row the sidekick writes for a scheduled publication, and the parser that reads it back;
  - the lookup of a page's existing job;
  - the list of upcoming jobs;
  - the rule that disables the date input.
- **Page helpers** (`scripts/scripts.js`):
  - the site of a host name;
  - the country, language and date-locale tables;
  - the URL slug of a name;
  - placeholders;
  - the index filter and the article lookup behind the previous/next links;
  - the admin API address.
- **Article tags** (`blocks/aside/aside.js`):
  - the lookup of a tag's title in the taxonomy;
  - the per-category tag list;
  - the localised tag path;
  - the tag links.
- **Tag picker tool** (`tools/tagger/tagger.js`):
  - the tag slugs;
  - the camel-case placeholder keys;
  - the rendered tag items;
  - the page state: filter highlight, selection, selection panel, copy buffer, copy button.
- **SEO preflight panel** (`blocks/preflight/panels/seo.js`): the H1, title, description, published-date, body and lorem-ipsum checks and their result signals.
- **Delayed scripts** (`scripts/delayed.js`): the cookie lookup, and the local-storage key of the consent banner's minimise button.
- **Header** (`blocks/header/header.js`): the nav's classes, the nav-section accordion, the hamburger and the sticky header.
- **Table block** (`blocks/table/table.js`): the rebuild of a block's rows as a table with a header row, and the 'industry' variant.

Strings are ASCII `string`s. The JavaScript built-ins the source relies on are written out in
two modules:

- `Strings`: `trim`, `toLowerCase`, `indexOf`, `lastIndexOf`, `includes`, `split` and `join`;
- `Calendar`: `Date.UTC`.

`parseInt(x, 10)` is written out in `NewsList` (`NewsList.ParseInt`), its only user.

Values the page reads from its environment are parameters: the host name, the origin, the
cookie string, the time zone offset, the clock, the fetched index and taxonomy, and the DOM
values the SEO checks count.

The source's own shape is kept:

- Loops become methods with loop invariants, proved against a specification function. Examples are `GetPaginationGroups`, `FindArticleIndex`, `GetSiteFromHostName`, `GetTagTitleHandler`, `FilterByQuery` and the table block's nested loops.
- Objects whose fields the source updates in place become classes: the tag picker page, the nav sections, the header, the SEO result signals and the table block.
- Expression code becomes functions and lemmas.

Modules:

| module | file | models |
|---|---|---|
| `Common` | common.dfy | `Option`, `Result`, a loop that stops at the first thrown error (`Collect`), and an order-keeping filter |
| `Strings` | strings.dfy | the JavaScript string built-ins used by the source |
| `Slug` | slug.dfy | the `[^a-z0-9]+` to '-' slug chain shared by both `sanitizeName`s |
| `Calendar` | calendar.dfy | `Date.UTC` (section 21.4.1 of ECMA-262: MakeDay, MakeDate, TimeClip) |
| `QueryIndex` | json.dfy | `replaceEmptyValues` (identical in newslist.js and scripts.js) |
| `NewsList` | newslist.dfy | blocks/newslist/newslist.js |
| `Authoring` | authoring.dfy | tools/sidekick/authoring.js |
| `Site` | site.dfy | scripts/scripts.js |
| `Aside` | aside.dfy | blocks/aside/aside.js |
| `Tagger` | tagger.dfy | tools/tagger/tagger.js |
| `Seo` | seo.dfy | blocks/preflight/panels/seo.js |
| `Delayed` | delayed.dfy | scripts/delayed.js |
| `Header` | header.dfy | blocks/header/header.js |
| `Table` | table.dfy | blocks/table/table.js |

The model follows the code as written. Three places where the code disagrees with what its
authors evidently intended are recorded under "## Findings", each with a corrected member:

- `fetchIndex` throws the filtered index away;
- the existing job is matched by a path suffix;
- Enter on a second-level nav item bubbles to the top-level item, which closes the menu.

Other surprising behaviours are stated as lemmas about the code as written:

- October is spelt 'Oktober' (`Authoring.OctoberIsDecemberBefore`);
- the 'pm' hour is concatenated (`Authoring.PmHourIsConcatenated`);
- the published-date check cannot fail on a present date (`Seo.PublishedDateVerdict`);
- the storage key keeps its extension (`Delayed.OneTrustStorageKey`).

## Model

| member | source | states |
|---|---|---|
| NewsList.PushRange | blocks/newslist/newslist.js:112-114 | the push loop appends exactly the integers lo .. hi-1 to the accumulator |
| NewsList.UnshiftRange | blocks/newslist/newslist.js:155-158 | the unshift loop puts first-count .. first-1, in increasing order, in front of the accumulator |
| NewsList.GetPaginationGroups | blocks/newslist/newslist.js:108-168 | the imperative groups builder, with its pushes, unshifts and `diff` bookkeeping, yields exactly the case-by-case groups `PaginationFor` (flat 1..T when T <= 7) |
| NewsList.InitialGroups | blocks/newslist/newslist.js:118-143 | before the backfill: pages 1-4 (or 1, 2), the current page with its neighbours when it is inside the list past page 4, and the last two pages unless the current page is within two of the end |
| NewsList.Backfill | blocks/newslist/newslist.js:145-164 | the backfill turns those groups into exactly the case-by-case groups `PaginationFor` |
| NewsList.GroupsSevenIncreasing | blocks/newslist/newslist.js:118-165 | with more than seven pages, start ++ mid ++ end has exactly seven entries, all >= 1, strictly increasing |
| NewsList.GroupsShowCurrentPage | blocks/newslist/newslist.js:118-165 | for 1 <= current <= T the current page is shown and no shown page exceeds T |
| NewsList.GroupsNearTheEnd | blocks/newslist/newslist.js:133-158 | within two pages of the end the end group is empty, mid is the five pages ending at min(current+1, T), and at current = T-2 the last page is not shown |
| NewsList.ParseInt | blocks/newslist/newslist.js:174 | `parseInt(s, 10)` succeeds iff a digit follows the leading white space and optional sign |
| NewsList.ParseIntDigits | blocks/newslist/newslist.js:174 | a plain numeral parses to its decimal value |
| NewsList.PageOffset | blocks/newslist/newslist.js:174 | the page parameter is never 0 (a 0 or a failed parse falls back to 1), and a numeric non-zero parameter is taken as is |
| NewsList.PageLinkRoundTrip | blocks/newslist/newslist.js:174 | a page link's number, written out and parsed back, is the same page |
| NewsList.Offset | blocks/newslist/newslist.js:175 | the first item index is (max(p,1)-1)*10, a multiple of 10 |
| NewsList.TotalPages | blocks/newslist/newslist.js:282 | totalPages is the least t with len <= 10t (`Math.ceil(len/10)`) |
| NewsList.PagerOnlyForSeveralPages | blocks/newslist/newslist.js:281-282 | the pager appears (len > 10) iff there are at least two pages |
| NewsList.ShownItems | blocks/newslist/newslist.js:227 | the rendering loop shows exactly items [offset, offset+10) that exist, in order |
| NewsList.ItemOnExactlyOnePage | blocks/newslist/newslist.js:175-176 | every item lies in the window of exactly one page, and that page is within totalPages |
| NewsList.PagerControls | blocks/newslist/newslist.js:308-325 | prev is disabled iff page == 1, next is disabled iff page == totalPages |
| NewsList.PagerStaysInRange | blocks/newslist/newslist.js:308-325 | from an existing page the arrows lead to the neighbouring existing pages |
| NewsList.SkipInternalPaths | blocks/newslist/newslist.js:19-31 | a row is kept iff its path is neither '/search' nor '/' and contains none of 'drafts/', 'sponsor/', 'content/' |
| NewsList.SkipInternalPathsAppend | blocks/newslist/newslist.js:22-30 | the filter works row by row, so it keeps the order of the index |
| NewsList.SkipInternalPathsIdempotent | blocks/newslist/newslist.js:19-31 | filtering a filtered index changes nothing |
| NewsList.ConvertToKebabCase | blocks/newslist/newslist.js:64-66 | the author slug has no white space and no capitals |
| NewsList.DashSpacesChars | blocks/newslist/newslist.js:65 | `replace(/\s+/g, '-')` leaves no white space and adds only dashes |
| NewsList.DashSpacesLead | blocks/newslist/newslist.js:65 | a run of white space at the front, however long, becomes a single dash |
| NewsList.DashSpacesNoSpace | blocks/newslist/newslist.js:65 | a string without white space is left as it is |
| NewsList.DashSpacesRun | blocks/newslist/newslist.js:65 | the first run of white space, however long, becomes one dash and the text before it is kept; with DashSpacesNoSpace this fixes the result on every string |
| NewsList.KebabCaseRun | blocks/newslist/newslist.js:64-66 | the slug is the lower-cased text up to the first run of white space, one dash, then the slug of the rest |
| NewsList.ConvertToKebabCaseIdempotent | blocks/newslist/newslist.js:64-66 | a kebab-cased name is its own kebab case |
| NewsList.Entry.constructor | blocks/newslist/newslist.js:68-74 | an index entry with its three fields and no matched token yet |
| NewsList.MatchEvery | blocks/newslist/newslist.js:75-89 | the `every` callback succeeds iff each token is in the lower-cased subtitle, description or title, and leaves `matchedToken` at the snippet of the first field (subtitle, description, title) holding the last token found before `every` stops, or unchanged when the first token is found nowhere |
| NewsList.MatchedAfterTwice | blocks/newslist/newslist.js:75-89 | running the search over an entry twice leaves its matched token as one run does |
| NewsList.Matching | blocks/newslist/newslist.js:71-90 | no more entries are kept than the index holds; what is kept is stated by MatchingExact and MatchingAppend |
| NewsList.MatchingExact | blocks/newslist/newslist.js:71-90 | every kept entry is in the index and matches every token, and every index entry matching every token is kept |
| NewsList.MatchingAppend | blocks/newslist/newslist.js:71 | filtering a concatenation is the concatenation of the filtered parts, so the kept entries stay in index order |
| NewsList.MatchingOne | blocks/newslist/newslist.js:71-90 | a single entry is kept iff it matches every token |
| NewsList.UpperCaseTokenMatchesNothing | blocks/newslist/newslist.js:70-88 | the tokens are not lower-cased, so a token with a capital matches no entry |
| NewsList.FilterByQuery | blocks/newslist/newslist.js:68-91 | an empty query returns the index untouched; otherwise the entries matching every space-separated token, with `matchedToken` written into each entry |
| QueryIndex.ReplaceEmptyValues | blocks/newslist/newslist.js:8-17 | the tree keeps its shape and key order, each leaf '0' becomes '' and no other leaf changes; a null inside the tree makes it throw |
| QueryIndex.BlankSkeleton | scripts/scripts.js:284-293 | cleaning never changes the structure of the tree |
| QueryIndex.BlankLeaves | scripts/scripts.js:284-293 | cleaning rewrites the leaves one by one, '0' to '' |
| QueryIndex.BlankIdempotent | scripts/scripts.js:284-293 | cleaning a cleaned tree changes nothing |
| QueryIndex.ReplaceEmptyValuesIdempotent | scripts/scripts.js:284-293 | `replaceEmptyValues` applied to its own result returns the same tree |
| QueryIndex.BlankNoNull | scripts/scripts.js:286-287 | a cleaned tree without nulls still has none, so a second run does not throw |
| Authoring.FormatCronJobData | tools/sidekick/authoring.js:85-93 | one row of four cells: the time phrase of a valid date, or 'at NaN:NaN on the NaN day of undefined in NaN' for an Invalid Date; then 'publish ' + pathname, '' and '' |
| Authoring.SearchNoDigits | tools/sidekick/authoring.js:102 | text without a digit has no match of the expression anywhere |
| Authoring.InvalidDateRow | tools/sidekick/authoring.js:85-93 | the row written for an Invalid Date (an empty field, line 302) throws in `parseCronJobData`, so it is not listed and the dialog's date stays undefined, yet the lookup by path, exact or by suffix, finds it |
| Authoring.ToMinute | tools/sidekick/authoring.js:86-88 | the phrase keeps minutes only: seconds and milliseconds are dropped |
| Authoring.MonthIndex | tools/sidekick/authoring.js:42 | `MONTHS.indexOf(name)`: the first index holding the name, or -1 when absent |
| Authoring.MonthIndexOfName | tools/sidekick/authoring.js:42 | every month name is found at its own index |
| Authoring.Search | tools/sidekick/authoring.js:102 | the leftmost match of the crontab regex: none iff no offset matches, and all four numeric captures are digits |
| Authoring.SearchLeftmost | tools/sidekick/authoring.js:102 | a match found is the match at some offset, and no earlier offset matches |
| Authoring.MatchAt | tools/sidekick/authoring.js:102 | a match at one offset captures digit strings for hours, minutes, day and year |
| Authoring.TimePhraseMatches | tools/sidekick/authoring.js:88 | the formatted time phrase matches the regex with the padded hours and minutes, the day, the month name and the year |
| Authoring.ActionCellWords | tools/sidekick/authoring.js:89 | the action cell splits into 'publish' and the pathname |
| Authoring.ParseCronJobData | tools/sidekick/authoring.js:101-111 | the parse fails iff the time phrase does not match (or the row has no action cell); the action is the first space-separated word of the second cell, and the url is the origin followed by the text after the second cell's last space |
| Authoring.LastWord | tools/sidekick/authoring.js:108 | `split(' ').pop()` is the text after the last space (all of the text without one), and holds no space |
| Strings.LastPieceAfterLast | tools/sidekick/authoring.js:108 | the last piece of a split at one character is the text after that character's last occurrence |
| Authoring.UrlIsLastToken | tools/sidekick/authoring.js:108 | the hand-written action 'publish /a /b' names the page origin + '/b' |
| Authoring.FormatParseRoundTrip | tools/sidekick/authoring.js:85-111 | parse(format(d)) gives action 'publish', url origin + pathname, and d to the minute shifted by the time zone offset |
| Authoring.LocalTimeOfPhrase | tools/sidekick/authoring.js:103-105 | the date read back from the captures is the UTC minute of d minus tzOffset minutes |
| Authoring.TwoDigitYearShifts | tools/sidekick/authoring.js:104 | a year below 100 is read back as 1900 + year |
| Authoring.OctoberIsDecemberBefore | tools/sidekick/authoring.js:42 | the list spells 'Oktober'; a phrase with 'October' gets month -1, which `Date.UTC` reads as December of the year before |
| Authoring.PmHourIsConcatenated | tools/sidekick/authoring.js:104 | for 'pm' the hour is the string hh + 12 ('1pm' is hour 112), not hh + 12 hours |
| Authoring.FindExisting | tools/sidekick/authoring.js:275 | the first job row whose second cell ends with the pathname, or none |
| Authoring.JobTableIndex | tools/sidekick/authoring.js:290-306 | for a found index i >= 1, row i - 1 of the jobs table (which update and delete address) is the first whose action cell ends with the path; i is 0 exactly when the header row's second cell ends with the path, and then the address is -1 |
| Authoring.SuffixFindsOtherPage | tools/sidekick/authoring.js:275 | the suffix test takes the job of '/news/a' as the job of '/a' |
| Authoring.FindExistingExact | tools/sidekick/authoring.js:275 | the first job row whose second cell is exactly 'publish ' + pathname |
| Authoring.FindExistingExactSeparatesPages | tools/sidekick/authoring.js:275 | with the exact test a page finds its own job, and another page's job is never taken for it |
| Authoring.ParseAll | tools/sidekick/authoring.js:469-474 | each row maps to its parsed job, or null when parsing fails |
| Authoring.UpcomingJobs | tools/sidekick/authoring.js:475 | the kept jobs are exactly the parsed ones later than now with action 'publish' |
| Authoring.Insert | tools/sidekick/authoring.js:476 | inserting into a sorted list keeps it sorted |
| Authoring.SortByTime | tools/sidekick/authoring.js:476 | the list is sorted by datetime, ascending |
| Authoring.SortPermutes | tools/sidekick/authoring.js:476 | sorting is a permutation |
| Authoring.SortIsStable | tools/sidekick/authoring.js:476 | jobs at the same time keep their relative order |
| Authoring.PublishLaterList | tools/sidekick/authoring.js:469-476 | the listed jobs are sorted by datetime |
| Authoring.PublishLaterListMembers | tools/sidekick/authoring.js:469-476 | a job is listed iff some row after the header parses to it and it is upcoming |
| Authoring.PublishLaterListOrder | tools/sidekick/authoring.js:469-476 | the list is a permutation of the upcoming jobs, keeping the order of equal times |
| Authoring.ExistingDate | tools/sidekick/authoring.js:205-213 | no job or a row that throws leaves the date undefined; otherwise the parsed date, Invalid or a time value |
| Authoring.DateInput | tools/sidekick/authoring.js:215-228 | an Invalid Date makes `toISOString` throw a RangeError, so no dialog; otherwise min is the minimum date, value is set iff there is a date, and the input is disabled iff the date lies before the minimum |
| Authoring.DisabledIffWithinDelay | tools/sidekick/authoring.js:215-228 | the dialog of a job written by the formatter is built, and its input is disabled iff the job's time is less than ten minutes from now |
| Calendar.TimeClip | tools/sidekick/authoring.js:104 | `Date.UTC` gives a time only within plus or minus 8.64e15 ms |
| Calendar.MakeDayCarriesMonths | tools/sidekick/authoring.js:104 | `Date.UTC` carries a month out of 0..11 into the year |
| Calendar.TwoDigitYears | tools/sidekick/authoring.js:104 | `Date.UTC` reads years 0..99 as 1900..1999 |
| Site.GetSiteFromHostName | scripts/scripts.js:40-66 | the loops with early returns compute exactly the site of the host name |
| Site.FirstSiteInFinds | scripts/scripts.js:48-52 | the first code, in list order, whose prefixed form occurs in the text, or none |
| Site.SiteIsKnown | scripts/scripts.js:40-66 | every host resolves to 'us' or one of the nine allowed sites |
| Site.FranklinHostSite | scripts/scripts.js:46-52 | a preview host resolves to the first site in list order whose 'accenture-newsroom-' form it contains |
| Site.UkPreviewHost | scripts/scripts.js:48-50 | a host containing 'accenture-newsroom-uk' is the UK site |
| Site.MainHostWithoutCode | scripts/scripts.js:56-65 | a production host with no site code left once 'newsroom.accenture' is cut out is 'us' |
| Site.GetCountry | scripts/scripts.js:68-83 | the country of every host's site has an entry in the date-locale table; 'us' for the us site |
| Site.GetLanguage | scripts/scripts.js:85-99 | the table's language, or 'en' for an unknown key |
| Site.GetDateLocales | scripts/scripts.js:101-115 | the table's locale, or 'en-US' for an unknown key |
| Site.LanguageTableUsesSiteCodes | scripts/scripts.js:68-99 | the language table is keyed by site codes: the Spanish country code 'sp' gets 'en' |
| Site.SanitizeName | scripts/scripts.js:122-127 | '' for '', otherwise a slug: only [a-z0-9-], no '--', no dash at either end |
| Site.SanitizeNameWords | scripts/scripts.js:122-127 | two words of letters and digits with a run of other characters between them give both words lower-cased, joined by exactly one dash |
| Site.SlugIsTrimmed | scripts/scripts.js:123 | a slug has no edge spaces, so the trim of a second run does nothing |
| Site.SlugIsLower | scripts/scripts.js:123 | a slug has no capitals, so the lower-casing of a second run does nothing |
| Site.SanitizeNameIdempotent | scripts/scripts.js:122-127 | sanitizing a sanitized name changes nothing |
| Site.SanitizeNameKeepsLetters | scripts/scripts.js:122-127 | the slug holds, in order, exactly the letters and digits of the trimmed lower-cased name |
| Site.GetPlaceholder | scripts/scripts.js:129-134 | the table's non-empty text for the key, otherwise the key itself |
| Site.SkipInternalPaths | scripts/scripts.js:295-311 | a row is kept iff its path is not '/search' or '/', contains none of 'drafts/', '/industries/', '/subjects/', and its template is not 'category' |
| Site.SkipInternalPathsAppend | scripts/scripts.js:299-310 | the filter works row by row, keeping the order |
| Site.SkipInternalPathsKeepsPublicIndex | scripts/scripts.js:295-311 | an index with no internal row passes unchanged |
| Site.FetchIndexRows | scripts/scripts.js:317-321 | `fetchIndex` returns every row it fetched, unfiltered |
| Site.FetchIndexKeepsInternalRows | scripts/scripts.js:318 | the search page survives `fetchIndex` |
| Site.FetchIndexRowsFiltered | scripts/scripts.js:318 | keeping the filter's result, no internal row is returned and every public row is |
| Site.FindArticleIndex | scripts/scripts.js:390-399 | the first index whose path equals the argument, or -1 iff there is none |
| Site.InListNeighbours | scripts/scripts.js:446-448 | inside the list, previous is the article after and next the article before (none at index 0) |
| Site.NeighboursAreMutual | scripts/scripts.js:446-448 | the links are mutual between consecutive articles |
| Site.ProjectParts | scripts/scripts.js:856 | 'branch--repo--owner' splits into its three parts |
| Site.FirstHostLabel | scripts/scripts.js:855 | the project label is what precedes the host's first dot |
| Site.AdminUrlOfProject | scripts/scripts.js:853-859 | the address is 'https://admin.hlx.page/action/owner/repo/branch' + url, with '?editUrl=auto' iff action is 'status' |
| Site.AdminUrlOfPlainLabel | scripts/scripts.js:856-857 | a label without '--' leaves owner and repo 'undefined' |
| Slug.Slugify | scripts/scripts.js:125-126 | the result is a slug; where the dashes go is fixed by the lemmas below |
| Slug.CollapseRunsRun | scripts/scripts.js:125 | a run of characters outside [a-z0-9] between kept text and a kept character becomes exactly one dash |
| Slug.SlugifyInnerRun | scripts/scripts.js:125-126 | a run between two kept words becomes one dash: the slug of a + run + b is a + '-' + the slug of b |
| Slug.SlugifyTwoWords | scripts/scripts.js:125-126 | two kept words with a run of other characters between them are joined by exactly one dash |
| Slug.SlugifyLeadRun | scripts/scripts.js:125-126 | a leading run leaves no trace: its dash is stripped |
| Slug.SlugifyTrailRun | scripts/scripts.js:125-126 | a trailing run after kept text leaves no trace: its dash is stripped |
| Slug.StripDashesAfter | scripts/scripts.js:126 | stripping the edge dashes leaves a dash-free front in place |
| Slug.SlugifyOfSlug | scripts/scripts.js:125-126 | a slug is its own slug |
| Slug.SlugifyKeepsLetters | scripts/scripts.js:125-126 | slugging keeps every letter and digit, in order, and only adds dashes |
| Aside.TagTitleForFinds | blocks/aside/aside.js:62-77 | the text of the first taxonomy entry with the tag as value, valid; otherwise the tag marked with the invalid-tag message and invalid off the production origin, or the tag itself and valid on it |
| Aside.GetTagTitleHandler | blocks/aside/aside.js:62-77 | the loop with its early return computes that title |
| Aside.TagValidity | blocks/aside/aside.js:65-76 | a tag is invalid iff it is not in the taxonomy and the origin is not the production one |
| Aside.Capitalize | blocks/aside/aside.js:80 | first character upper-cased, the rest kept |
| Aside.GetReduceTags | blocks/aside/aside.js:79-90 | an empty taxonomy gives no collection; otherwise one value/text entry per row, in order, read from the capitalised column names |
| Aside.TagCategory | blocks/aside/aside.js:105-111 | fr maps 'industries' to 'secteurs-dactivit' and the rest to 'sujet'; it maps 'subjects' to 'argomento' and the rest to 'industries'; other sites keep the category |
| Aside.GetPrefixForTags | blocks/aside/aside.js:92-113 | the site's path prefix ('' for us and unknown sites) + '/' + the mapped category |
| Aside.PrefixesSeparateCategories | blocks/aside/aside.js:105-112 | on every site the industries and subjects paths differ |
| Aside.TagLinkFor | blocks/aside/aside.js:235-245 | the link of one piece: href prefix + '/' + its slug, class 'invalid-tag' iff the trimmed piece's title is invalid, text the trimmed title; an undefined title throws |
| Common.CollectOutcome | blocks/aside/aside.js:233-245 | a `forEach` whose callback may throw completes iff every call completes, and then yields every call's value in order |
| Common.CollectErrSticks | blocks/aside/aside.js:233-245 | once a call has thrown, the later elements change nothing |
| Aside.CreateTagsHandler | blocks/aside/aside.js:225-246 | the loop over the comma-separated pieces yields the links of the pieces in order, and the first piece whose link throws stops it with that error |
| Aside.CreateTagLink | blocks/aside/aside.js:235-245 | the body of the forEach builds exactly that piece's link |
| Aside.TagLinkAddress | blocks/aside/aside.js:237 | every tag address is the localised category path followed by a slug |
| Tagger.SanitizeName | tools/tagger/tagger.js:5-13 | '' for '', and no white space at either end of the result |
| Tagger.SanitizePart | tools/tagger/tagger.js:11 | each comma-separated part becomes a slug |
| Tagger.SanitizePartSeparatesWords | tools/tagger/tagger.js:11 | two words with a run of other characters but no slash between them are joined by exactly one dash |
| Tagger.JoinSlashesNoSlash | tools/tagger/tagger.js:11 | without a slash the slash replacement changes nothing |
| Tagger.SanitizeParts | tools/tagger/tagger.js:11 | every part is sanitized on its own |
| Tagger.SanitizePartJoinsWords | tools/tagger/tagger.js:11 | a slash between two words, with spaces around it, is dropped: 'win / news' gives 'winnews' |
| Tagger.JoinSlashesOfWords | tools/tagger/tagger.js:11 | the look-around replace removes the slash and the spaces around it between two words |
| Tagger.SanitizeNameSplits | tools/tagger/tagger.js:5-13 | the result splits at ', ' back into the sanitized parts |
| Tagger.JoinedSlugsSplit | tools/tagger/tagger.js:11-12 | slugs joined with ', ' and trimmed split back into the same slugs |
| Tagger.SpaceOut | tools/tagger/tagger.js:23 | every character other than a letter or digit becomes a space |
| Tagger.Capitalized | tools/tagger/tagger.js:24 | a word with its first character upper-cased and the rest lower-cased |
| Tagger.CamelCaseIsAlnum | tools/tagger/tagger.js:22-26 | the camel-case key has only letters and digits |
| Tagger.CamelCaseKeepsAlnums | tools/tagger/tagger.js:22-26 | up to case, the key is the tag's letters and digits, in order |
| Tagger.CamelCaseTwoWords | tools/tagger/tagger.js:22-26 | two words make the first lower-cased followed by the second capitalised |
| Tagger.DisplayTitle | tools/tagger/tagger.js:32 | exactly 'Strategy & Consulting' is shown as 'Strategy and Consulting'; every other tag is unchanged |
| Tagger.ItemFor | tools/tagger/tagger.js:32-38 | an item's data-title is the tag's display title, its colour class is catId % 8, and its text is the placeholder of its camel-case key when the lookup finds a non-empty value, else the key |
| Tagger.BlankIsTrimmedAway | tools/tagger/tagger.js:35 | a tag is skipped iff it is only white space |
| Tagger.RenderItemsOutcome | tools/tagger/tagger.js:28-44 | rendering fails iff a row lacks the category; otherwise at most one item per row, all of colour catId % 8 |
| Tagger.NonBlankTags | tools/tagger/tagger.js:30-35 | the category's non-blank tags, in row order |
| Tagger.RenderItemsFollowTags | tools/tagger/tagger.js:28-44 | the items are exactly the non-blank tags' items, in row order |
| Tagger.InitTaxonomy | tools/tagger/tagger.js:46-48 | with no rows, `Object.keys(taxonomy[0])` throws a TypeError |
| Tagger.InitTaxonomyOrder | tools/tagger/tagger.js:46-56 | initialisation throws iff there is no row or some row lacks some key of the first row; otherwise one category per key, in key order, category i rendered with catId i |
| Tagger.InitTaxonomyKeys | tools/tagger/tagger.js:48-50 | the categories rendered are named by the first row's keys, each key naming exactly one |
| Tagger.HighlightFor | tools/tagger/tagger.js:64-79 | no highlight iff the lower-cased title lacks the term; otherwise before + term + after is the title, split at the first occurrence, with the term piece lower-casing to the search term |
| Tagger.EmptySearchShowsAll | tools/tagger/tagger.js:68-74 | an empty search highlights nothing and unfilters every tag |
| Tagger.SelectedTitlesEmpty | tools/tagger/tagger.js:96-113 | the selection panel is empty iff nothing is selected |
| Tagger.SelectedTitlesMembers | tools/tagger/tagger.js:96-106 | the panel lists exactly the selected titles |
| Tagger.Picker.constructor | tools/tagger/tagger.js:46-56 | the rendered page: every tag shown by its label, nothing filtered or selected, the panel consistent |
| Tagger.Picker.Filter | tools/tagger/tagger.js:64-79 | a tag is filtered iff its lower-cased title lacks the lower-cased search, and unfiltered tags show the highlight |
| Tagger.Picker.DisplaySelected | tools/tagger/tagger.js:90-117 | the panel lists the selected titles in document order, the copy buffer joins them with ', ', and the panel is hidden iff nothing is selected |
| Tagger.Picker.ToggleTag | tools/tagger/tagger.js:81-88 | one tag's selection flips, the panel is refreshed and the copy button re-enabled |
| Tagger.Picker.Clear | tools/tagger/tagger.js:135-140 | toggling every selected tag leaves none selected, the panel empty and hidden |
| Tagger.Picker.Copy | tools/tagger/tagger.js:127-133 | the copied text is the sanitized copy buffer and the button is disabled |
| Seo.StripSpaces | blocks/preflight/panels/seo.js:37 | `replace(/\s/g, '')` leaves no white space |
| Seo.StripSpacesKeepsWords | blocks/preflight/panels/seo.js:37 | a text without white space is kept whole |
| Seo.StripSpacesAppend | blocks/preflight/panels/seo.js:37 | stripping works piece by piece |
| Seo.H1Verdict | blocks/preflight/panels/seo.js:18-34 | pass iff exactly one h1; the 'More than one' reason for more, the 'No H1' reason for none |
| Seo.TitleVerdict | blocks/preflight/panels/seo.js:36-51 | pass iff the title has 15 to 70 non-white-space characters, with the too-short and too-long reasons |
| Seo.PaddedTitleStillShort | blocks/preflight/panels/seo.js:37-41 | padding a short title with white space never makes it pass |
| Seo.DescriptionVerdict | blocks/preflight/panels/seo.js:82-103 | a missing description fails; pass iff 50 to 150 non-white-space characters, with the matching reasons |
| Seo.PublishedDateVerdict | blocks/preflight/panels/seo.js:105-123 | pass iff the meta is present; the 'not a valid date' reason is never given |
| Seo.BodyVerdict | blocks/preflight/panels/seo.js:125-138 | pass iff the text is longer than 100 characters |
| Seo.LoremVerdict | blocks/preflight/panels/seo.js:140-152 | fail iff the HTML contains 'Lorem ipsum' |
| Seo.LoremIsCaseSensitive | blocks/preflight/panels/seo.js:143 | a page quoting 'lorem ipsum' in lower case passes |
| Seo.Panel.constructor | blocks/preflight/panels/seo.js:9-15 | every signal starts purple, 'Checking...', under its own title |
| Seo.Panel.CheckH1s | blocks/preflight/panels/seo.js:18-34 | only the H1 signal changes: its icon and description take the verdict, its title is kept, and the icon is returned |
| Seo.Panel.CheckTitle | blocks/preflight/panels/seo.js:36-51 | only the title signal changes, to the verdict; the icon is returned |
| Seo.Panel.CheckDescription | blocks/preflight/panels/seo.js:82-103 | only the description signal changes, to the verdict; the icon is returned |
| Seo.Panel.CheckPublishedDate | blocks/preflight/panels/seo.js:105-123 | only the published-date signal changes, to the verdict; the icon is returned |
| Seo.Panel.CheckBody | blocks/preflight/panels/seo.js:125-138 | only the body signal changes, to the verdict; the icon is returned |
| Seo.Panel.CheckLorem | blocks/preflight/panels/seo.js:140-152 | only the lorem signal changes, to the verdict; the icon is returned |
| Delayed.CookieSeparator | scripts/delayed.js:8 | the separator is three characters longer than the name and starts with the ';' of the boundary |
| Delayed.GetCookie | scripts/delayed.js:6-10 | a name whose '; name=' does not occur reads as ''; a value read never holds ';' (one occurrence: `CookieFound`, two: `CookieAmbiguous`) |
| Delayed.CookieMissing | scripts/delayed.js:6-10 | a name whose '; name=' does not occur in '; ' + cookie reads as '' |
| Delayed.CookieFound | scripts/delayed.js:7-9 | a name occurring exactly once reads as the text after its '=' up to the next ';' |
| Delayed.CookieAmbiguous | scripts/delayed.js:8-10 | a name occurring twice splits into more than two parts and reads as '' |
| Delayed.CookieNeedsBoundary | scripts/delayed.js:7-8 | 'xname=v' does not set 'name': a match needs the '; ' boundary |
| Delayed.Substr | scripts/delayed.js:40 | `substr(start, length)`: at most length characters from start, the rest of the string when it is shorter |
| Delayed.StorageKey | scripts/delayed.js:37-42 | the key never contains a dash |
| Delayed.OneTrustStorageKey | scripts/delayed.js:37-42 | the key derived from the SDK address (line 4) is 'otSDKStub.js', extension included |
| Header.Descends | blocks/header/header.js:43 | a list item is under a container only if the container comes before it |
| Header.AllUnderTop | blocks/header/header.js:43 | every list item is under the nav sections' top-level list |
| Header.Depth | blocks/header/header.js:92-144 | a list item's level is at least 1, and 1 iff it is top-level |
| Header.ChildBeforeExists | blocks/header/header.js:118-120 | the running flag for 'some item lies directly in the sub-list of i' is that existence statement |
| Header.LevelItem | blocks/header/header.js:92-118 | the ancestor-or-self of an item at a given level has that level and the item lies under it |
| Header.LevelItemParent | blocks/header/header.js:92-118 | the ancestor one level up is the parent of the ancestor at a level |
| Header.ClickTarget | blocks/header/header.js:107-133 | the handler a click reaches first belongs to the item itself or an ancestor at level at most 2 |
| Header.ToggledEffect | blocks/header/header.js:48-52 | a toggle flips the item, collapses every other item under its list and leaves the item's ancestors alone |
| Header.NotUnderOwnList | blocks/header/header.js:48-52 | an ancestor of an item is not under the list holding the item |
| Header.EnterCollapsesLevelTwo | blocks/header/header.js:110-139 | Enter inside a second-level item leaves that item collapsed and flips its top-level item |
| Header.ClickTogglesLevelTwo | blocks/header/header.js:130-133 | a click inside a second-level item flips it and leaves its top-level item as it was |
| Header.SectionClass | blocks/header/header.js:77-88 | the nav's children get 'nav-brand', 'nav-sections', 'nav-tools' by position, 'nav-undefined' beyond |
| Header.NavSections.constructor | blocks/header/header.js:70-74 | the fetched nav with no attribute or class set |
| Header.NavSections.Decorate | blocks/header/header.js:90-146 | 'nav-drop' iff top-level with a sub-list; 'level-two' and 'level-three' by depth; 'sub-menu' iff level two with a sub-list; a top-level item's sub-list gets 'level-two' iff it holds an item |
| Header.NavSections.CollapseAll | blocks/header/header.js:39-46 | every list item under the container, at any depth, is collapsed and nothing else changes; no container changes nothing |
| Header.NavSections.ToggleSection | blocks/header/header.js:48-52 | the section flips while every item under its list is collapsed, so a toggled-open section is the only open one of its list and toggling an open one closes them all |
| Header.NavSections.Click | blocks/header/header.js:107-133 | a click toggles the item whose handler it reaches first; a second-level handler stops it there |
| Header.NavSections.PressEnter | blocks/header/header.js:110-139 | Enter toggles a top-level item; deeper, it toggles the second-level item and then, bubbling, the top-level item |
| Header.NavSections.PressEnterStopped | blocks/header/header.js:130-139 | Enter stopped like a click: the second-level item flips and its top-level item keeps its state |
| Header.HeaderBlock.constructor | blocks/header/header.js:171 | the nav starts collapsed, the body scrolls and the header is not sticky |
| Header.HeaderBlock.ClickHamburger | blocks/header/header.js:165-169 | a click flips the nav's expanded flag; the body's overflow is 'hidden' iff the menu is now open |
| Header.HeaderBlock.OnScroll | blocks/header/header.js:151-158 | the header is sticky iff the page is scrolled past its height |
| Table.BuildCell | blocks/table/table.js:9-13 | a th scoped to its column in row 0, a td without scope elsewhere |
| Table.BuildTableKeepsContent | blocks/table/table.js:22-31 | reading back the inner HTML of the built rows gives exactly the block's rows and columns, in order |
| Table.BuildTableShape | blocks/table/table.js:22-29 | row 0 goes to the head and the others to the body; cells are th with scope 'col' exactly in row 0 |
| Table.WrapCell | blocks/table/table.js:36-38 | the markup assigned to a data cell is its content between '<p>' and '</p>'; a header cell is untouched |
| Table.WrapBody | blocks/table/table.js:36 | only the body is rewritten; the head is kept |
| Table.IndustryBodyCells | blocks/table/table.js:35-39 | in a built industry table the markup assigned to each body cell is its column's HTML between '<p>' and '</p>' |
| Table.TableBlock.constructor | blocks/table/table.js:15-16 | the block's rows, its table if it has one, and its variant |
| Table.TableBlock.BuildRows | blocks/table/table.js:22-31 | the nested loops build exactly the table of the block's rows |
| Table.TableBlock.WrapRows | blocks/table/table.js:35-39 | the loop over 'tbody td' rewrites exactly the body's data cells |
| Table.TableBlock.Decorate | blocks/table/table.js:15-40 | with no table, the block's rows are replaced by the built table; an existing table is not rebuilt; the industry variant then wraps the body's data cells |

## Left out

- Network and admin API calls are not part of this model. This covers `fetchIndex`'s fetch, `ffetch`, `getTaxonomy`, the SharePoint SDK and the crontab table operations, `preview`, `checkCanon` and `checkLinks`. Only the decisions around them are modelled.
- `getResults` of the SEO panel is not modelled. It only runs the checks one after another. Each check is modelled on its own, with the frame of the signal it writes.
- `checkCanon` and `checkLinks` are not modelled, because both depend on fetch responses and their async order.
- `decodeURIComponent` and the NFD accent stripping of both `sanitizeName`s are not modelled. Input is taken as ASCII that is already decoded, so the throw on a malformed '%' is not modelled.
- JavaScript's `\s` and `\w` are taken over ASCII. Unicode white space and case mapping are not modelled.
- The 'pm' branch of `parseCronJobData` is not modelled as arithmetic. The formatter never writes am/pm. `Authoring.PmHourIsConcatenated` shows what the concatenation does.
- Calendar: Intl date formatting, `getTimezoneMessage`, `getHumanReadableDate` and `toISOString` are not modelled. The time zone offset is an integer parameter.
- The pagination DOM renderer of the news list is not modelled (ellipses, links, `addParam`). The test-only ×125 duplication of the results is not modelled either. `getPaginationGroups` is modelled as written.
- `window.queryIndex`, `window.articles` and `window.ffetchIterator` are shared async state and are not modelled. The neighbour rule for an article found at the end of the fetched list, or not found in it, waits on the iterator and is left out. Only the in-list rule is modelled.
- The footer, image, video, metadata and pdf-viewer scripts are not modelled. The same holds for:
  - `ABSTRACT_REGEX`;
  - the analytics annotations;
  - the heading rewrite, icon and button decoration, and back buttons of the header;
  - script loading and the consent banner's click listeners.
- `INVALID_TAG_ERROR` lives in a constants file that is not part of this model, so it is a parameter.
- `Tagger.InitTaxonomy`: `Object.keys(taxonomy[0])` is the parameter `cats`, required to list every key of the first row exactly once. A map does not keep the row's insertion order, so the order itself is not derived.
- `Table.IndustryBodyCells`: states the markup assigned to each body cell's `innerHTML`, not the tree the browser parses from it. HTML parsing is not modelled. Content holding block elements (a `<p>`, a list) ends the new paragraph early when parsed, so it is not then inside one paragraph.
- `Table.WrapCell`: a cell's `html` is the markup assigned, for the same reason; reparsing is not modelled.
- `Authoring.FormatParseRoundTrip`: requires a year of at least 100. `Date.UTC` maps years 0 to 99 to 1900 to 1999, as `Authoring.TwoDigitYearShifts` shows. A negative year is written with a '-', which the expression's `\d+` does not match.
- `Authoring.DateInput`: the ISO text of `min` and `value` is not modelled; time values stand for it. A minimum date out of the Date range, which would also make `toISOString` throw, is not modelled.
- `Site.FetchIndexRows`: returns the fetched rows (`json.data`). `fetchIndex` returns the whole JSON object, whose other fields (offset, limit, total) are not modelled.
- `Site.GetLanguage`, `Site.GetPlaceholder`: a table is a map of its own keys. A key inherited from `Object.prototype`, such as 'toString', is not modelled.
- `Header.NavSections.Click`: an event on an element inside a list item (a link, the heading) counts as an event on that item. The browser's default actions, such as following a link, are not modelled.
- `QueryIndex.ReplaceEmptyValues`: works on a value and returns the rewritten tree, so in-place update and aliasing are not modelled.
- `Tagger.Picker.constructor`: the page starts with the selection panel hidden and empty. The initial markup is not part of this model.
- `Header.NavSections.Decorate`: a top-level item is a drop-down when it has a direct sub-list. The source tests for a `ul` at any depth. For well-formed nav markup the two agree.
- `Header.HeaderBlock.OnScroll`: the scroll offset and the header height are integers. Fractional scroll positions are not modelled.
- `NewsList.ShownItems`: the items are values; the rendered HTML of each item is not modelled.
- `Tagger.RenderItems`: the generated HTML string is modelled as the list of items it renders (title, colour class, text).

## Findings

| source | as written | input that shows it | evidently intended | confidence | as-written member | corrected member |
|---|---|---|---|---|---|---|
| scripts/scripts.js:318 | `fetchIndex` calls `skipInternalPaths(json.data)` and throws the result away, so the stored and returned index keeps the internal rows | an index holding a row with path '/search' | the index without internal rows | high (not executed) | Site.FetchIndexKeepsInternalRows | Site.FetchIndexRowsFiltered |
| tools/sidekick/authoring.js:275 | the existing job is the first whose command ends with the page's pathname, so a job for another page whose path ends the same way is taken | pathname '/a' with a job 'publish /news/a' | the job whose command is exactly 'publish ' + pathname | high (not executed) | Authoring.SuffixFindsOtherPage | Authoring.FindExistingExactSeparatesPages |
| blocks/header/header.js:134-139 | the Enter handler of a second-level item calls `preventDefault` but not `stopPropagation` (the click handler at lines 130-133 stops it), so the keydown bubbles to the top-level item, whose toggle collapses every item of the nav, the second-level item just opened included, and flips the top-level item | Enter on a link inside a second-level item while its menu is open: the whole menu closes and the item never opens | Enter toggles the second-level item alone, as a click does | medium (not executed) | Header.EnterCollapsesLevelTwo | Header.NavSections.PressEnterStopped |

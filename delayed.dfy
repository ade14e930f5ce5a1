/** The cookie helper and the consent-banner storage key of the delayed phase
    (scripts/delayed.js). The document's cookie string is a parameter; loading the
    consent manager script, its listeners and the minimise button are not part of
    this model. */
module Delayed {
  import opened Strings

  /** The consent manager's loader script. */
  const OneTrustSdk := "https://cdn.cookielaw.org/scripttemplates/otSDKStub.js"

  /** The separator `getCookie` splits on: '; ' + name + '='. */
  function CookieSeparator(name: string): (sep: string)
    ensures |sep| == |name| + 3 && sep[0] == ';'
  {
    "; " + name + "="
  }

  /** `getCookie(name)` over the cookie string `cookie`: '; ' + cookie is split at
      '; name='; with exactly two pieces the value is the second piece up to its
      first ';', otherwise ''. A name that does not occur reads as '', and a value
      read never holds a ';'. `CookieFound` and `CookieAmbiguous` give the cases
      of one and of two occurrences. */
  function GetCookie(cookie: string, name: string): (r: string)
    ensures !Contains("; " + cookie, CookieSeparator(name)) ==> r == ""
    ensures ';' !in r
  {
    var parts := Split("; " + cookie, CookieSeparator(name));
    if |parts| == 2 then
      assert Contains("; " + cookie, CookieSeparator(name)) by {
        if !Contains("; " + cookie, CookieSeparator(name)) {
          SplitNone("; " + cookie, CookieSeparator(name));
        }
      }
      SplitHead(parts[1], ';');
      Split(parts[1], ";")[0]
    else ""
  }

  /** The first piece of a split at a single character is the text up to that
      character. */
  lemma SplitHead(x: string, c: char)
    ensures Split(x, [c])[0] == x[..CharIndex(x, c)]
  {
    var i := CharIndex(x, c);
    if i < |x| {
      SplitAtChar(x, c, i);
    } else {
      SplitNoChar(x, c);
      assert x[..i] == x;
    }
  }

  /** A name whose separator does not occur gives ''. */
  lemma CookieMissing(cookie: string, name: string)
    requires !Contains("; " + cookie, CookieSeparator(name))
    ensures GetCookie(cookie, name) == ""
  {
    SplitNone("; " + cookie, CookieSeparator(name));
  }

  /** An occurrence of `p` in `s[k..]` is one in `s`. */
  lemma PrefixAtShift(s: string, k: nat, m: nat, p: string)
    requires k <= |s| && PrefixAt(s[k..], m, p)
    ensures PrefixAt(s, k + m, p)
  {
    assert s[k..][m..m + |p|] == s[k + m..k + m + |p|];
  }

  /** Past its only occurrence, the separator does not occur again. */
  lemma NoneAfterOnly(s: string, sep: string, i: nat)
    requires |sep| > 0 && PrefixAt(s, i, sep)
    requires forall m :: 0 <= m <= |s| - |sep| && m != i ==> !PrefixAt(s, m, sep)
    ensures !Contains(s[i + |sep|..], sep)
  {
    var rest := s[i + |sep|..];
    forall m | 0 <= m <= |rest| - |sep|
      ensures !PrefixAt(rest, m, sep)
    {
      if PrefixAt(rest, m, sep) {
        PrefixAtShift(s, i + |sep|, m, sep);
      }
    }
  }

  /** A separator that occurs exactly once, at `i`, splits the text in two. */
  lemma SplitAtOnly(s: string, sep: string, i: nat)
    requires |sep| > 0 && PrefixAt(s, i, sep)
    requires forall m :: 0 <= m <= |s| - |sep| && m != i ==> !PrefixAt(s, m, sep)
    ensures Split(s, sep) == [s[..i], s[i + |sep|..]]
  {
    ContainsAt(s, sep, i);
    SplitFound(s, sep);
    assert IndexOf(s, sep) == i;
    NoneAfterOnly(s, sep, i);
    SplitNone(s[i + |sep|..], sep);
  }

  /** Two occurrences that do not overlap split the text in at least three. */
  lemma SplitAtTwo(s: string, sep: string, i: nat, j: nat)
    requires |sep| > 0 && PrefixAt(s, i, sep) && PrefixAt(s, j, sep) && i + |sep| <= j
    ensures |Split(s, sep)| >= 3
  {
    ContainsAt(s, sep, i);
    SplitFound(s, sep);
    var k := IndexOf(s, sep);
    assert k <= i;
    PrefixAtDrop(s, k + |sep|, j, sep);
    ContainsAt(s[k + |sep|..], sep, j - k - |sep|);
    SplitTwoPieces(s[k + |sep|..], sep);
  }

  /** An occurrence at a known offset makes the text contain `p`. */
  lemma ContainsAt(s: string, p: string, i: nat)
    requires PrefixAt(s, i, p)
    ensures Contains(s, p)
  {
  }

  /** An occurrence in `s` from offset `k` on is one in `s[k..]`. */
  lemma PrefixAtDrop(s: string, k: nat, m: nat, p: string)
    requires k <= m && PrefixAt(s, m, p)
    ensures PrefixAt(s[k..], m - k, p)
  {
    assert s[k..][m - k..m - k + |p|] == s[m..m + |p|];
  }

  /** A name that occurs exactly once, at offset `i` of '; ' + cookie, gives the
      text `rest` after its '=' up to the next ';' (or to the end). */
  lemma CookieFound(cookie: string, name: string, i: nat, rest: string)
    requires PrefixAt("; " + cookie, i, CookieSeparator(name))
    requires forall m :: 0 <= m <= |"; " + cookie| - |CookieSeparator(name)| && m != i ==>
               !PrefixAt("; " + cookie, m, CookieSeparator(name))
    requires rest == ("; " + cookie)[i + |CookieSeparator(name)|..]
    ensures GetCookie(cookie, name) == rest[..CharIndex(rest, ';')]
  {
    SplitAtOnly("; " + cookie, CookieSeparator(name), i);
    SplitHead(rest, ';');
  }

  /** Two separate occurrences of the name make the split yield more than two pieces,
      and the cookie reads as ''. */
  lemma CookieAmbiguous(cookie: string, name: string, i: nat, j: nat)
    requires PrefixAt("; " + cookie, i, CookieSeparator(name))
    requires PrefixAt("; " + cookie, j, CookieSeparator(name))
    requires i + |CookieSeparator(name)| <= j
    ensures GetCookie(cookie, name) == ""
  {
    SplitAtTwo("; " + cookie, CookieSeparator(name), i, j);
  }

  /** A match needs the '; ' boundary: a cookie 'xname=v' does not set 'name'. */
  lemma CookieNeedsBoundary()
    ensures GetCookie("xname=v", "name") == ""
  {
    var s := "; " + "xname=v";
    var sep := CookieSeparator("name");
    assert sep == "; name=";
    forall m | 0 <= m <= |s| - |sep|
      ensures !PrefixAt(s, m, sep)
    {
      assert s[m..m + |sep|][2] == s[m + 2] != sep[2] || s[m..m + |sep|][0] != sep[0];
    }
    CookieMissing("xname=v", "name");
  }

  /** `str.substr(start, length)`: at most `length` characters from `start`. */
  function Substr(s: string, start: nat, length: int): (r: string)
    requires start <= |s|
    ensures |r| <= |s| - start && r == s[start..start + |r|]
    ensures length >= 0 && start + length <= |s| ==> |r| == length
    ensures start + length > |s| ==> r == s[start..]
  {
    if length <= 0 then []
    else if start + length <= |s| then s[start..start + length]
    else s[start..]
  }

  /** The local-storage key of the minimise button: the script's file name from
      after its last '/', cut with `substr` at the offset of its last '.', without
      dashes. */
  function StorageKey(url: string): (r: string)
    ensures '-' !in r
  {
    var start := LastIndexOfChar(url, '/') + 1;
    var end := LastIndexOfChar(url, '.');
    RemoveChar(Substr(url, start, end), '-')
  }

  /** `substr` takes a length, not an end offset, so the extension stays: the key is
      'otSDKStub.js', not 'otSDKStub'. */
  lemma OneTrustStorageKey()
    ensures StorageKey(OneTrustSdk) == "otSDKStub.js"
  {
    OneTrustSlashes();
    OneTrustDots();
    OneTrustFileName();
    assert Substr(OneTrustSdk, 42, 51) == OneTrustSdk[42..];
  }

  /** The last '/' of the OneTrust address is at offset 41. */
  lemma OneTrustSlashes()
    ensures LastIndexOfChar(OneTrustSdk, '/') == 41
  {
    var u := OneTrustSdk;
    assert |u| == 54 && u[41] == '/';
    assert forall i :: 41 < i < 54 ==> u[i] != '/';
    LastIndexOfCharAt(u, '/', 41);
  }

  /** The last '.' of the OneTrust address is at offset 51. */
  lemma OneTrustDots()
    ensures LastIndexOfChar(OneTrustSdk, '.') == 51
  {
    var u := OneTrustSdk;
    assert |u| == 54 && u[51] == '.';
    assert forall i :: 51 < i < 54 ==> u[i] != '.';
    LastIndexOfCharAt(u, '.', 51);
  }

  /** The file name of the OneTrust script, which holds no dash. */
  lemma OneTrustFileName()
    ensures |OneTrustSdk| == 54 && OneTrustSdk[42..] == "otSDKStub.js"
    ensures RemoveChar(OneTrustSdk[42..], '-') == "otSDKStub.js"
  {
    assert OneTrustSdk[42..] == "otSDKStub.js";
    assert '-' !in "otSDKStub.js";
  }
}

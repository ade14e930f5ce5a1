/** ASCII string operations with the meaning of the JavaScript built-ins the sources
    call: character classes of regular expressions (\d, \w, \s), toLowerCase,
    trim, includes, indexOf, split, join and Number() of a digit string. */
module Strings {

  predicate IsDigit(c: char) { '0' <= c <= '9' }
  predicate IsLower(c: char) { 'a' <= c <= 'z' }
  predicate IsUpper(c: char) { 'A' <= c <= 'Z' }
  predicate IsAlnum(c: char) { IsLower(c) || IsUpper(c) || IsDigit(c) }

  /** The regular-expression class \w. */
  predicate IsWordChar(c: char) { IsAlnum(c) || c == '_' }

  /** The regular-expression class \s, restricted to ASCII: the space and the
      control characters tab, line feed, vertical tab, form feed and carriage return. */
  predicate IsSpace(c: char) {
    c == ' ' || '\t' <= c <= '\r'
  }

  function ToLowerChar(c: char): (r: char)
    ensures IsUpper(c) ==> IsLower(r)
    ensures !IsUpper(c) ==> r == c
  {
    if IsUpper(c) then (c as int - 'A' as int + 'a' as int) as char else c
  }

  function ToUpperChar(c: char): (r: char)
    ensures IsLower(c) ==> IsUpper(r)
    ensures !IsLower(c) ==> r == c
  {
    if IsLower(c) then (c as int - 'a' as int + 'A' as int) as char else c
  }

  /** String.prototype.toLowerCase on ASCII. */
  function ToLower(s: string): (r: string)
    ensures |r| == |s|
    ensures forall i :: 0 <= i < |s| ==> r[i] == ToLowerChar(s[i])
  {
    seq(|s|, i requires 0 <= i < |s| => ToLowerChar(s[i]))
  }

  lemma ToLowerAppend(a: string, b: string)
    ensures ToLower(a + b) == ToLower(a) + ToLower(b)
  {
  }

  lemma ToLowerIdempotent(s: string)
    ensures ToLower(ToLower(s)) == ToLower(s)
  {
  }

  /** String.prototype.trimStart. */
  function TrimStart(s: string): (r: string)
    ensures |r| <= |s| && r == s[|s| - |r|..]
    ensures r == [] || !IsSpace(r[0])
    ensures forall i :: 0 <= i < |s| - |r| ==> IsSpace(s[i])
  {
    if s != [] && IsSpace(s[0]) then TrimStart(s[1..]) else s
  }

  /** String.prototype.trimEnd. */
  function TrimEnd(s: string): (r: string)
    ensures |r| <= |s| && r == s[..|r|]
    ensures r == [] || !IsSpace(r[|r| - 1])
    ensures forall i :: |r| <= i < |s| ==> IsSpace(s[i])
  {
    if s != [] && IsSpace(s[|s| - 1]) then TrimEnd(s[..|s| - 1]) else s
  }

  /** String.prototype.trim. */
  function Trim(s: string): (r: string)
    ensures |r| <= |s|
    ensures r == [] || (!IsSpace(r[0]) && !IsSpace(r[|r| - 1]))
  {
    TrimEnd(TrimStart(s))
  }

  lemma TrimNoEdgeSpace(s: string)
    requires s == [] || (!IsSpace(s[0]) && !IsSpace(s[|s| - 1]))
    ensures Trim(s) == s
  {
  }

  /** The pattern `p` occurs in `s` at offset `i`. */
  predicate PrefixAt(s: string, i: int, p: string) {
    0 <= i && i + |p| <= |s| && s[i..i + |p|] == p
  }

  /** String.prototype.includes. */
  predicate Contains(s: string, p: string) {
    exists i :: 0 <= i <= |s| - |p| && PrefixAt(s, i, p)
  }

  /** String.prototype.indexOf(p, from): the first offset at or after `from` where
      `p` occurs, or -1. */
  function IndexOfFrom(s: string, p: string, from: nat): (r: int)
    requires from <= |s|
    ensures r == -1 || (from <= r <= |s| - |p| && PrefixAt(s, r, p))
    ensures r == -1 ==> forall i :: from <= i <= |s| - |p| ==> !PrefixAt(s, i, p)
    ensures r != -1 ==> forall i :: from <= i < r ==> !PrefixAt(s, i, p)
    decreases |s| - from
  {
    if PrefixAt(s, from, p) then from
    else if from + |p| >= |s| then -1
    else IndexOfFrom(s, p, from + 1)
  }

  /** String.prototype.indexOf(p). */
  function IndexOf(s: string, p: string): (r: int)
    ensures r == -1 || (0 <= r <= |s| - |p| && PrefixAt(s, r, p))
    ensures r == -1 <==> !Contains(s, p)
    ensures r != -1 ==> forall i :: 0 <= i < r ==> !PrefixAt(s, i, p)
  {
    IndexOfFrom(s, p, 0)
  }

  /** String.prototype.lastIndexOf for a single character. */
  function LastIndexOfChar(s: string, c: char): (r: int)
    ensures -1 <= r < |s|
    ensures r >= 0 ==> s[r] == c
    ensures forall i :: r < i < |s| ==> s[i] != c
  {
    if s == [] then -1
    else if s[|s| - 1] == c then |s| - 1
    else LastIndexOfChar(s[..|s| - 1], c)
  }

  /** The last occurrence is found where the character occurs and never after. */
  lemma {:induction false} LastIndexOfCharAt(s: string, c: char, k: nat)
    requires k < |s| && s[k] == c
    requires forall i :: k < i < |s| ==> s[i] != c
    ensures LastIndexOfChar(s, c) == k
    decreases |s|
  {
    if k < |s| - 1 {
      LastIndexOfCharAt(s[..|s| - 1], c, k);
    }
  }

  /** String.prototype.split(sep) for a non-empty separator: the pieces between
      the occurrences of `sep` found from left to right without overlap. */
  function Split(s: string, sep: string): (r: seq<string>)
    requires |sep| > 0
    ensures |r| >= 1
    decreases |s|
  {
    var i := IndexOf(s, sep);
    if i < 0 then [s] else [s[..i]] + Split(s[i + |sep|..], sep)
  }

  /** Array.prototype.join(sep). */
  function Join(parts: seq<string>, sep: string): (r: string)
  {
    if parts == [] then []
    else if |parts| == 1 then parts[0]
    else parts[0] + sep + Join(parts[1..], sep)
  }

  /** Splitting a string that starts with `p + sep`, where `sep` does not begin
      anywhere inside `p`, yields `p` and then the pieces of the rest. */
  lemma SplitFirst(p: string, sep: string, rest: string)
    requires |sep| > 0
    requires forall i :: 0 <= i < |p| ==> !PrefixAt(p + sep + rest, i, sep)
    ensures Split(p + sep + rest, sep) == [p] + Split(rest, sep)
  {
    var s := p + sep + rest;
    assert PrefixAt(s, |p|, sep) by {
      assert s[|p|..|p| + |sep|] == sep;
    }
    assert IndexOf(s, sep) == |p|;
    assert s[..|p|] == p;
    assert s[|p| + |sep|..] == rest;
  }

  /** A string in which `sep` does not occur is a single piece. */
  /** When `sep` occurs, the first piece ends at its first occurrence. */
  lemma SplitFound(s: string, sep: string)
    requires |sep| > 0 && Contains(s, sep)
    ensures 0 <= IndexOf(s, sep) <= |s| - |sep|
    ensures Split(s, sep) == [s[..IndexOf(s, sep)]] + Split(s[IndexOf(s, sep) + |sep|..], sep)
  {
  }

  /** A text that holds `sep` splits in at least two pieces. */
  lemma SplitTwoPieces(s: string, sep: string)
    requires |sep| > 0 && Contains(s, sep)
    ensures |Split(s, sep)| >= 2
  {
    SplitFound(s, sep);
  }

  lemma SplitNone(s: string, sep: string)
    requires |sep| > 0 && !Contains(s, sep)
    ensures Split(s, sep) == [s]
  {
  }

  /** If the first character of `sep` does not occur in `p`, `sep` cannot begin in `p`. */
  lemma NoStartInside(p: string, sep: string, rest: string)
    requires |sep| > 0 && sep[0] !in p
    ensures forall i :: 0 <= i < |p| ==> !PrefixAt(p + sep + rest, i, sep)
  {
    var s := p + sep + rest;
    forall i | 0 <= i < |p|
      ensures !PrefixAt(s, i, sep)
    {
      assert s[i] == p[i] != sep[0];
      if i + |sep| <= |s| {
        assert s[i..i + |sep|][0] != sep[0];
      }
    }
  }

  /** A string without any character of `c` does not contain `c`. */
  lemma NotContainsChar(s: string, c: char)
    requires c !in s
    ensures !Contains(s, [c])
  {
    forall i | 0 <= i <= |s| - 1
      ensures !PrefixAt(s, i, [c])
    {
      assert s[i..i + 1][0] == s[i] != c;
    }
  }

  /** Joining pieces that do not contain the first character of the separator and
      splitting again gives the pieces back. */
  lemma {:induction false} SplitJoin(parts: seq<string>, sep: string)
    requires |sep| > 0 && |parts| >= 1
    requires forall k :: 0 <= k < |parts| ==> sep[0] !in parts[k]
    ensures Split(Join(parts, sep), sep) == parts
  {
    if |parts| == 1 {
      forall i | 0 <= i <= |parts[0]| - |sep|
        ensures !PrefixAt(parts[0], i, sep)
      {
        assert parts[0][i..i + |sep|][0] == parts[0][i] != sep[0];
      }
    } else {
      NoStartInside(parts[0], sep, Join(parts[1..], sep));
      SplitFirst(parts[0], sep, Join(parts[1..], sep));
      SplitJoin(parts[1..], sep);
    }
  }

  /** The offset of the first `c` in `s`, or `|s|`. */
  function CharIndex(s: string, c: char): (i: nat)
    ensures i <= |s| && c !in s[..i] && (i < |s| ==> s[i] == c)
  {
    if s == [] || s[0] == c then 0
    else
      var i := 1 + CharIndex(s[1..], c);
      assert s[..i] == [s[0]] + s[1..][..i - 1];
      i
  }

  /** The last occurrence at or after an occurrence at `i` is found in the rest. */
  lemma LastIndexAfter(s: string, c: char, i: nat)
    requires i < |s| && s[i] == c
    ensures LastIndexOfChar(s, c) == i + 1 + LastIndexOfChar(s[i + 1..], c)
  {
    var t := s[i + 1..];
    var k := i + 1 + LastIndexOfChar(t, c);
    forall m | k < m < |s|
      ensures s[m] != c
    {
      assert s[m] == t[m - i - 1];
    }
    LastIndexOfCharAt(s, c, k);
  }

  /** `s.split(c).pop()`: the last piece of a split at one character. */
  function LastPiece(s: string, c: char): string {
    var w := Split(s, [c]);
    w[|w| - 1]
  }

  /** Without the character the last piece is all of `s`. */
  lemma LastPieceNone(s: string, c: char)
    requires !Contains(s, [c])
    ensures LastPiece(s, c) == s && LastIndexOfChar(s, c) == -1
  {
    var k := LastIndexOfChar(s, c);
    assert k >= 0 ==> PrefixAt(s, k, [c]);
    SplitNone(s, [c]);
  }

  /** With the character the last piece is the last piece after its first occurrence. */
  lemma LastPieceFound(s: string, c: char)
    requires Contains(s, [c])
    ensures 0 <= IndexOf(s, [c]) < |s| && s[IndexOf(s, [c])] == c
    ensures LastPiece(s, c) == LastPiece(s[IndexOf(s, [c]) + 1..], c)
  {
    SplitFound(s, [c]);
    var i := IndexOf(s, [c]);
    var v, w := Split(s, [c]), Split(s[i + 1..], [c]);
    assert v == [s[..i]] + w;
    assert |v| == |w| + 1 && v[|v| - 1] == w[|w| - 1];
    assert s[i] == s[i..i + 1][0];
  }

  /** The last piece is the text after the character's last occurrence (all of `s`
      when it does not occur). */
  lemma {:induction false} LastPieceAfterLast(s: string, c: char)
    ensures LastPiece(s, c) == s[LastIndexOfChar(s, c) + 1..]
    decreases |s|
  {
    if !Contains(s, [c]) {
      LastPieceNone(s, c);
      assert s[0..] == s;
    } else {
      LastPieceFound(s, c);
      var i := IndexOf(s, [c]);
      var t := s[i + 1..];
      LastPieceAfterLast(t, c);
      LastIndexAfter(s, c, i);
      assert s[LastIndexOfChar(s, c) + 1..] == t[LastIndexOfChar(t, c) + 1..];
    }
  }

  /** Splitting at the first occurrence of a one-character separator. */
  lemma SplitAtChar(s: string, c: char, i: nat)
    requires i == CharIndex(s, c) < |s|
    ensures Split(s, [c]) == [s[..i]] + Split(s[i + 1..], [c])
  {
    assert PrefixAt(s, i, [c]) by {
      assert s[i..i + 1] == [c];
    }
    forall m | 0 <= m < i
      ensures !PrefixAt(s, m, [c])
    {
      assert s[..i][m] == s[m];
      assert s[m..m + 1][0] == s[m];
    }
    assert IndexOf(s, [c]) == i;
  }

  lemma SplitNoChar(s: string, c: char)
    requires CharIndex(s, c) == |s|
    ensures Split(s, [c]) == [s]
  {
    assert s[..|s|] == s;
    NotContainsChar(s, c);
    SplitNone(s, [c]);
  }

  /** Every character is a decimal digit. */
  predicate AllDigits(s: string) {
    forall i :: 0 <= i < |s| ==> IsDigit(s[i])
  }

  function DigitValue(c: char): (r: nat)
    requires IsDigit(c)
    ensures r < 10
  {
    c as int - '0' as int
  }

  function DigitChar(d: nat): (c: char)
    requires d < 10
    ensures IsDigit(c) && DigitValue(c) == d
  {
    ('0' as int + d) as char
  }

  /** Number() of a string of decimal digits: leading zeros are ignored. */
  function DigitsValue(s: string): nat
    requires AllDigits(s)
  {
    if s == [] then 0 else DigitsValue(s[..|s| - 1]) * 10 + DigitValue(s[|s| - 1])
  }

  /** Number.prototype.toString() of a non-negative integer: no leading zeros. */
  function NatToString(n: nat): (r: string)
    ensures |r| >= 1 && AllDigits(r)
    ensures |r| == 1 <==> n < 10
    ensures n >= 10 ==> r[0] != '0'
  {
    if n < 10 then [DigitChar(n)] else NatToString(n / 10) + [DigitChar(n % 10)]
  }

  lemma {:induction false} NatToStringValue(n: nat)
    ensures DigitsValue(NatToString(n)) == n
  {
    if n >= 10 {
      NatToStringValue(n / 10);
      var s := NatToString(n);
      assert s[..|s| - 1] == NatToString(n / 10);
    }
  }

  /** A leading zero does not change the value of a digit string. */
  lemma {:induction false} LeadingZeroValue(s: string)
    requires AllDigits(s)
    ensures AllDigits("0" + s) && DigitsValue("0" + s) == DigitsValue(s)
  {
    if s != [] {
      var t := "0" + s;
      assert t[..|t| - 1] == "0" + s[..|s| - 1];
      LeadingZeroValue(s[..|s| - 1]);
    }
  }

  /** `n.toString().padStart(2, '0')`. */
  function Pad2(n: nat): (r: string)
    ensures |r| >= 2 && AllDigits(r)
    ensures DigitsValue(r) == n
  {
    NatToStringValue(n);
    if n < 10 then
      LeadingZeroValue(NatToString(n));
      "0" + NatToString(n)
    else NatToString(n)
  }

  /** The length of the run of decimal digits at the start of `s`. */
  function DigitSpan(s: string): (n: nat)
    ensures n <= |s| && AllDigits(s[..n])
    ensures n < |s| ==> !IsDigit(s[n])
  {
    if s != [] && IsDigit(s[0]) then
      var k := DigitSpan(s[1..]);
      assert s[..k + 1] == [s[0]] + s[1..][..k];
      k + 1
    else 0
  }

  /** The digit run of `x + y` is exactly `x` when `x` is all digits and `y` does
      not start with one. */
  lemma {:induction false} DigitSpanOf(x: string, y: string)
    requires AllDigits(x)
    requires y == [] || !IsDigit(y[0])
    ensures DigitSpan(x + y) == |x|
  {
    if x != [] {
      assert (x + y)[1..] == x[1..] + y;
      DigitSpanOf(x[1..], y);
    }
  }

  /** The length of the run of \w characters at the start of `s`. */
  function WordSpan(s: string): (n: nat)
    ensures n <= |s| && forall i :: 0 <= i < n ==> IsWordChar(s[i])
    ensures n < |s| ==> !IsWordChar(s[n])
  {
    if s != [] && IsWordChar(s[0]) then 1 + WordSpan(s[1..]) else 0
  }

  lemma {:induction false} WordSpanOf(x: string, y: string)
    requires forall i :: 0 <= i < |x| ==> IsWordChar(x[i])
    requires y == [] || !IsWordChar(y[0])
    ensures WordSpan(x + y) == |x|
  {
    if x != [] {
      assert (x + y)[1..] == x[1..] + y;
      WordSpanOf(x[1..], y);
    }
  }

  /** String.prototype.replace(p, '') with a string pattern: only the first
      occurrence is removed. */
  function RemoveFirst(s: string, p: string): (r: string)
    ensures !Contains(s, p) ==> r == s
    ensures Contains(s, p) ==> |r| == |s| - |p|
  {
    var i := IndexOf(s, p);
    if i < 0 then s else s[..i] + s[i + |p|..]
  }

  /** `s.replace(/c/g, '')`: every occurrence of the character removed. */
  function RemoveChar(s: string, c: char): (r: string)
    ensures c !in r
    ensures |r| <= |s|
    ensures c !in s ==> r == s
  {
    if s == [] then []
    else (if s[0] == c then [] else [s[0]]) + RemoveChar(s[1..], c)
  }
}

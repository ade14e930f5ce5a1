/** The publish-later tool of the sidekick (tools/sidekick/authoring.js): one job
    of the crontab sheet is a row whose first cell says when
    (`at HH:MM on the D day of Month in YYYY`, in UTC) and whose second cell says
    what (`publish /path`). The module formats and parses such rows, finds the job
    of a page, lists the upcoming jobs, and decides whether a job can still be
    edited. The current time and the browser's timezone offset (minutes, as
    `getTimezoneOffset` returns them) are parameters. */
module Authoring {
  import opened Common
  import opened Strings
  import opened Calendar

  /** The month names the scheduler expects, including its spelling 'Oktober'. */
  const Months: seq<string> := ["January", "February", "March", "April", "May", "June", "July",
                               "August", "September", "Oktober", "November", "December"]

  /** A job must lie at least ten minutes in the future. */
  const Delay := 10 * 60 * 1000

  /** A valid `Date`, by its UTC fields (month 0 = January). */
  datatype DateTime = DateTime(year: int, month: int, day: int, hour: int, minute: int, second: int, ms: int)

  predicate Valid(d: DateTime) {
    && 0 <= d.month < 12
    && 1 <= d.day <= DaysInMonth(d.year, d.month)
    && 0 <= d.hour < 24 && 0 <= d.minute < 60 && 0 <= d.second < 60 && 0 <= d.ms < 1000
    && InTimeRange(TimeValue(d))
  }

  /** The milliseconds since the epoch that the fields denote. */
  function TimeValue(d: DateTime): int {
    MakeDate(MakeDay(d.year, d.month, d.day), MakeTime(d.hour, d.minute, d.second, d.ms))
  }

  /** The same moment with seconds and milliseconds dropped. */
  function ToMinute(d: DateTime): (r: DateTime)
    ensures TimeValue(r) == TimeValue(d) - d.second * 1000 - d.ms
  {
    d.(second := 0, ms := 0)
  }

  /** `${n}` of a whole number. */
  function IntToString(n: int): string {
    if n < 0 then "-" + NatToString(-n) else NatToString(n)
  }

  /** The first cell of a job: `at ${pad(h)}:${pad(m)} on the ${day} day of
      ${MONTHS[month]} in ${year}`, written right-nested. */
  function TimePhrase(d: DateTime): string
    requires Valid(d)
  {
    "at " + (Pad2(d.hour) + (":" + (Pad2(d.minute) + (" on the " + (NatToString(d.day)
      + (" day of " + (Months[d.month] + (" in " + IntToString(d.year)))))))))
  }

  /** The first cell written for an Invalid Date: every getter gives NaN, which
      `pad` leaves as 'NaN', and `MONTHS[NaN]` is undefined. */
  const InvalidPhrase := "at NaN:NaN on the NaN day of undefined in NaN"

  /** `formatCronJobData({ datetime, url })` where `pathname` is the path of `url`:
      one row of four cells. `datetime` comes from `new Date(...)` of the dialog's
      field and is `None` for an Invalid Date (an empty field gives one); the
      function does not throw on it. */
  function FormatCronJobData(datetime: Option<DateTime>, pathname: string): (rows: seq<seq<string>>)
    requires datetime.Some? ==> Valid(datetime.value)
    ensures |rows| == 1 && |rows[0]| == 4
    ensures datetime.Some? ==> rows[0][0] == TimePhrase(datetime.value)
    ensures datetime.None? ==> rows[0][0] == InvalidPhrase
    ensures rows[0][1] == "publish " + pathname
    ensures rows[0][2] == "" && rows[0][3] == ""
  {
    var when := if datetime.Some? then TimePhrase(datetime.value) else InvalidPhrase;
    [[when, "publish " + pathname, "", ""]]
  }

  // ----- the regular expression /at (\d+):(\d+)([ap]m)? on the (\d+) day of (\w+) in (\d+)/ -----

  datatype Captures = Captures(hh: string, mm: string, apm: Option<string>, dd: string, month: string, yyyy: string)

  /** The rest of `s` after the literal `p`, if `s` starts with it. */
  function Lit(s: string, p: string): (r: Option<string>)
    ensures r.Some? ==> s == p + r.value
  {
    if |p| <= |s| && s[..|p|] == p then
      assert s == s[..|p|] + s[|p|..];
      Some(s[|p|..])
    else None
  }

  /** `(\d+)`: the greedy run of digits at the start of `s`, and the rest. */
  function Digits(s: string): (r: Option<(string, string)>)
    ensures r.Some? ==> r.value.0 != [] && AllDigits(r.value.0) && s == r.value.0 + r.value.1
  {
    var n := DigitSpan(s);
    if n == 0 then None
    else
      assert s == s[..n] + s[n..];
      Some((s[..n], s[n..]))
  }

  /** `(\w+)`: the greedy run of word characters at the start of `s`, and the rest. */
  function Word(s: string): (r: Option<(string, string)>)
    ensures r.Some? ==> r.value.0 != [] && s == r.value.0 + r.value.1
  {
    var n := WordSpan(s);
    if n == 0 then None
    else
      assert s == s[..n] + s[n..];
      Some((s[..n], s[n..]))
  }

  /** `([ap]m)?`: taken when present. Backtracking never helps: the text after it
      has to start with a space. */
  function AmPm(s: string): (Option<string>, string)
  {
    if |s| >= 2 && (s[0] == 'a' || s[0] == 'p') && s[1] == 'm' then (Some(s[..2]), s[2..]) else (None, s)
  }

  /** The first half of the expression at the start of `s`: `at (\d+):(\d+)([ap]m)?`,
      the three groups and the rest of the text. Every group is followed by a
      character it cannot contain, so greedy matching is the only way to match. */
  function MatchTime(s: string): (r: Option<(string, string, Option<string>, string)>)
    ensures r.Some? ==> AllDigits(r.value.0) && AllDigits(r.value.1)
  {
    var a := Lit(s, "at ");
    if a.None? then None else
    var h := Digits(a.value);
    if h.None? then None else
    var b := Lit(h.value.1, ":");
    if b.None? then None else
    var m := Digits(b.value);
    if m.None? then None else
    var (apm, rest) := AmPm(m.value.1);
    Some((h.value.0, m.value.0, apm, rest))
  }

  /** The second half: ` on the (\d+) day of (\w+) in (\d+)`. */
  function MatchDate(s: string): (r: Option<(string, string, string)>)
    ensures r.Some? ==> AllDigits(r.value.0) && AllDigits(r.value.2)
  {
    var e := Lit(s, " on the ");
    if e.None? then None else
    var dd := Digits(e.value);
    if dd.None? then None else
    var f := Lit(dd.value.1, " day of ");
    if f.None? then None else
    var w := Word(f.value);
    if w.None? then None else
    var g := Lit(w.value.1, " in ");
    if g.None? then None else
    var y := Digits(g.value);
    if y.None? then None else
    Some((dd.value.0, w.value.0, y.value.0))
  }

  /** The match of the whole expression starting at the first character of `s`. */
  function MatchAt(s: string): (r: Option<Captures>)
    ensures r.Some? ==> AllDigits(r.value.hh) && AllDigits(r.value.mm) && AllDigits(r.value.dd) && AllDigits(r.value.yyyy)
  {
    match MatchTime(s)
    case None => None
    case Some((hh, mm, apm, rest)) =>
      match MatchDate(rest)
      case None => None
      case Some((dd, month, yyyy)) => Some(Captures(hh, mm, apm, dd, month, yyyy))
  }

  /** `String.prototype.match` with this expression: the leftmost match. */
  function Search(s: string): (r: Option<Captures>)
    ensures r.None? ==> forall i :: 0 <= i <= |s| ==> MatchAt(s[i..]).None?
    ensures r.Some? ==> AllDigits(r.value.hh) && AllDigits(r.value.mm) && AllDigits(r.value.dd) && AllDigits(r.value.yyyy)
    ensures MatchAt(s).Some? ==> r == MatchAt(s)
  {
    if MatchAt(s).Some? then MatchAt(s)
    else if s == [] then None
    else
      var r := Search(s[1..]);
      assert forall i :: 1 <= i <= |s| ==> s[i..] == s[1..][i - 1..];
      r
  }

  /** A match found is the one at the leftmost position where the expression
      matches: no earlier position matches. */
  lemma {:induction false} SearchLeftmost(s: string)
    ensures Search(s).Some? ==>
              exists i :: 0 <= i <= |s| && MatchAt(s[i..]) == Search(s) &&
                forall j :: 0 <= j < i ==> MatchAt(s[j..]).None?
  {
    if MatchAt(s).Some? {
      assert s[0..] == s;
    } else if s != [] && Search(s).Some? {
      SearchLeftmost(s[1..]);
      var i :| 0 <= i <= |s[1..]| && MatchAt(s[1..][i..]) == Search(s[1..]) &&
                forall j :: 0 <= j < i ==> MatchAt(s[1..][j..]).None?;
      assert s[1..][i..] == s[i + 1..];
      forall j | 0 <= j < i + 1
        ensures MatchAt(s[j..]).None?
      {
        if j == 0 {
          assert s[0..] == s;
        } else {
          assert s[1..][j - 1..] == s[j..];
        }
      }
    }
  }

  lemma LitOf(p: string, rest: string)
    ensures Lit(p + rest, p) == Some(rest)
  {
    assert (p + rest)[..|p|] == p;
    assert (p + rest)[|p|..] == rest;
  }

  lemma DigitsOf(x: string, rest: string)
    requires x != [] && AllDigits(x)
    requires rest == [] || !IsDigit(rest[0])
    ensures Digits(x + rest) == Some((x, rest))
  {
    DigitSpanOf(x, rest);
    assert (x + rest)[..|x|] == x;
    assert (x + rest)[|x|..] == rest;
  }

  lemma WordOf(x: string, rest: string)
    requires x != [] && forall i :: 0 <= i < |x| ==> IsWordChar(x[i])
    requires rest == [] || !IsWordChar(rest[0])
    ensures Word(x + rest) == Some((x, rest))
  {
    WordSpanOf(x, rest);
    assert (x + rest)[..|x|] == x;
    assert (x + rest)[|x|..] == rest;
  }

  // ----- parsing a job -----

  /** `MONTHS.indexOf(name)`: -1 for a name that is not in the list. */
  function MonthIndex(name: string): (i: int)
    ensures -1 <= i < 12
    ensures i >= 0 ==> Months[i] == name && forall j :: 0 <= j < i ==> Months[j] != name
    ensures i == -1 ==> name !in Months
  {
    MonthIndexFrom(name, 0)
  }

  function MonthIndexFrom(name: string, from: nat): (i: int)
    requires from <= 12
    ensures -1 <= i < 12
    ensures i >= 0 ==> from <= i && Months[i] == name && forall j :: from <= j < i ==> Months[j] != name
    ensures i == -1 ==> forall j :: from <= j < 12 ==> Months[j] != name
    decreases 12 - from
  {
    if from == 12 then -1
    else if Months[from] == name then from
    else MonthIndexFrom(name, from + 1)
  }

  /** The month names are distinct, so each name leads back to its own index. */
  lemma MonthIndexOfName(m: int)
    requires 0 <= m < 12
    ensures MonthIndex(Months[m]) == m
  {
    MonthsDistinct(m);
  }

  /** No month name before `m` is the name of month `m`. */
  lemma MonthsDistinct(m: int)
    requires 0 <= m < 12
    ensures forall j :: 0 <= j < m ==> Months[j] != Months[m]
  {
    forall j | 0 <= j < m ensures Months[j] != Months[m] {
      assert |Months[j]| != |Months[m]| || Months[j][0] != Months[m][0]
          || Months[j][1] != Months[m][1] || Months[j][2] != Months[m][2];
    }
  }

  /** A parsed job: when (a time value, `None` for an Invalid Date), which page,
      and what to do. */
  datatype Job = Job(datetime: Option<int>, url: string, action: string)

  /** `parseCronJobData([datetime, action])` on a row of text cells, with
      `window.location.origin` and the timezone offset in minutes as parameters.
      A missing cell or a first cell the expression does not match throws. */
  function ParseCronJobData(row: seq<string>, origin: string, tzOffset: int): (r: Result<Job>)
    ensures |row| >= 2 && Search(row[0]).Some? <==> r.Ok?
    ensures r.Ok? ==> r.value.action == Split(row[1], " ")[0]
    ensures r.Ok? ==> r.value.url == origin + row[1][LastIndexOfChar(row[1], ' ') + 1..]
  {
    if |row| < 1 then Err("TypeError")
    else
      match Search(row[0])
      case None => Err("TypeError")
      case Some(c) =>
        if |row| < 2 then Err("TypeError")
        else
          Ok(Job(LocalTime(c, tzOffset), origin + LastWord(row[1]), Split(row[1], " ")[0]))
  }

  /** The page is the last space-separated word of the action cell, so a hand-written
      'publish /a /b' names the page '/b'. */
  lemma UrlIsLastToken(row: seq<string>, origin: string, tzOffset: int)
    requires |row| >= 2 && row[1] == "publish /a /b"
    requires ParseCronJobData(row, origin, tzOffset).Ok?
    ensures ParseCronJobData(row, origin, tzOffset).value.url == origin + "/b"
  {
    LastIndexOfCharAt(row[1], ' ', 10);
    assert row[1][11..] == "/b";
  }

  /** The time value the captures denote: `Date.UTC` of the numbers, shifted by the
      timezone offset. With 'pm' the hour string gets '12' appended (string
      concatenation), so 1pm becomes hour 112. */
  function LocalTime(c: Captures, tzOffset: int): Option<int>
    requires AllDigits(c.hh) && AllDigits(c.mm) && AllDigits(c.dd) && AllDigits(c.yyyy)
  {
    Shift(DateUtc(DigitsValue(c.yyyy), MonthIndex(c.month), DigitsValue(c.dd), Hours(c), DigitsValue(c.mm)), tzOffset)
  }

  /** The hour: with 'pm' the string '12' is appended to the captured digits. */
  function Hours(c: Captures): nat
    requires AllDigits(c.hh)
  {
    if c.apm == Some("pm") then
      assert AllDigits(c.hh + "12");
      DigitsValue(c.hh + "12")
    else DigitsValue(c.hh)
  }

  lemma ShiftInRange(t: int, tzOffset: int)
    requires InTimeRange(t - tzOffset * MsPerMinute)
    ensures Shift(Some(t), tzOffset) == Some(t - tzOffset * MsPerMinute)
  {
  }

  /** `new Date(utc - tzOffset * 60000)`. */
  function Shift(utc: Option<int>, tzOffset: int): Option<int> {
    if utc.None? then None else TimeClip(utc.value - tzOffset * MsPerMinute)
  }

  /** `s.split(' ').pop()`: the text after the last space, which holds no space. */
  function LastWord(s: string): (r: string)
    ensures r == s[LastIndexOfChar(s, ' ') + 1..]
    ensures ' ' !in r
  {
    LastPieceAfterLast(s, ' ');
    LastPiece(s, ' ')
  }

  /** The first half matches two digit strings followed by a space. */
  lemma MatchTimeOf(hh: string, mm: string, rest: string)
    requires hh != [] && AllDigits(hh) && mm != [] && AllDigits(mm)
    requires rest != [] && rest[0] == ' '
    ensures MatchTime("at " + (hh + (":" + (mm + rest)))) == Some((hh, mm, None, rest))
  {
    var s2 := mm + rest;
    var s1 := ":" + s2;
    var s0 := hh + s1;
    LitOf("at ", s0);
    DigitsOf(hh, s1);
    LitOf(":", s2);
    DigitsOf(mm, rest);
    assert AmPm(rest) == (None, rest);
  }

  /** The second half matches digits, a word and digits in their places. */
  lemma MatchDateOf(dd: string, mon: string, yy: string)
    requires dd != [] && AllDigits(dd) && yy != [] && AllDigits(yy)
    requires mon != [] && forall i :: 0 <= i < |mon| ==> IsWordChar(mon[i])
    ensures MatchDate(" on the " + (dd + (" day of " + (mon + (" in " + yy))))) == Some((dd, mon, yy))
  {
    var s7 := " in " + yy;
    var s6 := mon + s7;
    var s5 := " day of " + s6;
    var s4 := dd + s5;
    assert Lit(" on the " + s4, " on the ") == Some(s4) by {
      LitOf(" on the ", s4);
    }
    assert Digits(s4) == Some((dd, s5)) by {
      DigitsOf(dd, s5);
    }
    assert Lit(s5, " day of ") == Some(s6) by {
      LitOf(" day of ", s6);
    }
    assert Word(s6) == Some((mon, s7)) by {
      WordOf(mon, s7);
    }
    assert Lit(s7, " in ") == Some(yy) by {
      LitOf(" in ", yy);
    }
    assert Digits(yy) == Some((yy, [])) by {
      DigitsOf(yy, []);
      assert yy + [] == yy;
    }
    MatchDateSteps(" on the " + s4, s4, dd, s5, s6, mon, s7, yy);
  }

  /** The second half matches when each of its pieces matches in turn. */
  lemma MatchDateSteps(s: string, s4: string, dd: string, s5: string, s6: string, mon: string, s7: string, yy: string)
    requires Lit(s, " on the ") == Some(s4) && Digits(s4) == Some((dd, s5))
    requires Lit(s5, " day of ") == Some(s6) && Word(s6) == Some((mon, s7))
    requires Lit(s7, " in ") == Some(yy) && Digits(yy) == Some((yy, []))
    ensures MatchDate(s) == Some((dd, mon, yy))
  {
  }

  lemma MonthNamesAreWords(m: int)
    requires 0 <= m < 12
    ensures Months[m] != [] && forall i :: 0 <= i < |Months[m]| ==> IsWordChar(Months[m][i])
  {
  }

  /** What the expression captures from a formatted time phrase. */
  lemma TimePhraseMatches(d: DateTime)
    requires Valid(d) && d.year >= 0
    ensures Search(TimePhrase(d)) == Some(Captures(Pad2(d.hour), Pad2(d.minute), None,
      NatToString(d.day), Months[d.month], NatToString(d.year)))
  {
    var rest := " on the " + (NatToString(d.day) + (" day of " + (Months[d.month] + (" in " + NatToString(d.year)))));
    MonthNamesAreWords(d.month);
    MatchTimeOf(Pad2(d.hour), Pad2(d.minute), rest);
    MatchDateOf(NatToString(d.day), Months[d.month], NatToString(d.year));
    assert TimePhrase(d) == "at " + (Pad2(d.hour) + (":" + (Pad2(d.minute) + rest)));
  }

  /** Splitting 'publish ' + a path without spaces gives the action and the path. */
  lemma ActionCellWords(pathname: string)
    requires ' ' !in pathname
    ensures Split("publish " + pathname, " ") == ["publish", pathname]
  {
    assert "publish " + pathname == "publish" + " " + pathname;
    assert Split("publish" + " " + pathname, " ") == ["publish"] + Split(pathname, " ") by {
      assert ' ' !in "publish";
      NoStartInside("publish", " ", pathname);
      SplitFirst("publish", " ", pathname);
    }
    assert Split(pathname, " ") == [pathname] by {
      NotContainsChar(pathname, ' ');
      SplitNone(pathname, " ");
    }
  }

  /** Parsing a formatted job gives back the page and the action, and the moment
      to the minute, shifted by the timezone offset. Years below 100 are excluded:
      `Date.UTC` reads them as 1900 to 1999 (see TwoDigitYearShifts). */
  lemma FormatParseRoundTrip(d: DateTime, pathname: string, origin: string, tzOffset: int)
    requires Valid(d) && d.year >= 100
    requires ' ' !in pathname
    requires InTimeRange(TimeValue(ToMinute(d))) && InTimeRange(TimeValue(ToMinute(d)) - tzOffset * MsPerMinute)
    ensures ParseCronJobData(FormatCronJobData(Some(d), pathname)[0], origin, tzOffset)
         == Ok(Job(Some(TimeValue(ToMinute(d)) - tzOffset * MsPerMinute), origin + pathname, "publish"))
  {
    TimePhraseMatches(d);
    ActionCellWords(pathname);
    LocalTimeOfPhrase(d, tzOffset);
  }

  /** The captures of a formatted phrase denote the formatted minute. */
  lemma LocalTimeOfPhrase(d: DateTime, tzOffset: int)
    requires Valid(d) && d.year >= 100
    requires InTimeRange(TimeValue(ToMinute(d))) && InTimeRange(TimeValue(ToMinute(d)) - tzOffset * MsPerMinute)
    ensures LocalTime(Captures(Pad2(d.hour), Pad2(d.minute), None, NatToString(d.day), Months[d.month], NatToString(d.year)), tzOffset)
         == Some(TimeValue(ToMinute(d)) - tzOffset * MsPerMinute)
  {
    var c := Captures(Pad2(d.hour), Pad2(d.minute), None, NatToString(d.day), Months[d.month], NatToString(d.year));
    var tv := TimeValue(ToMinute(d));
    var utc := DateUtc(d.year, d.month, d.day, d.hour, d.minute);
    assert LocalTime(c, tzOffset) == Shift(utc, tzOffset) by {
      MonthIndexOfName(d.month);
      NatToStringValue(d.day);
      NatToStringValue(d.year);
      assert Hours(c) == d.hour;
    }
    assert utc == Some(tv) by {
      MinuteUtc(d);
    }
    ShiftInRange(tv, tzOffset);
  }

  /** `Date.UTC` of the fields of a valid moment from year 100 on is its time value
      to the minute. */
  lemma MinuteUtc(d: DateTime)
    requires Valid(d) && d.year >= 100
    requires InTimeRange(TimeValue(ToMinute(d)))
    ensures DateUtc(d.year, d.month, d.day, d.hour, d.minute) == Some(TimeValue(ToMinute(d)))
  {
    assert TimeValue(ToMinute(d)) == MakeDate(MakeDay(d.year, d.month, d.day), MakeTime(d.hour, d.minute, 0, 0));
  }

  /** A job written for a year from 0 to 99 is read back in the 1900s. */
  lemma TwoDigitYearShifts(d: DateTime, pathname: string, origin: string, tzOffset: int)
    requires Valid(d) && 0 <= d.year <= 99
    requires ' ' !in pathname
    ensures ParseCronJobData(FormatCronJobData(Some(d), pathname)[0], origin, tzOffset).Ok?
    ensures ParseCronJobData(FormatCronJobData(Some(d), pathname)[0], origin, tzOffset).value.datetime
         == LocalTime(Captures(Pad2(d.hour), Pad2(d.minute), None, NatToString(d.day),
                               Months[d.month], NatToString(d.year + 1900)), tzOffset)
  {
    var c := Captures(Pad2(d.hour), Pad2(d.minute), None, NatToString(d.day), Months[d.month], NatToString(d.year));
    var row := FormatCronJobData(Some(d), pathname)[0];
    assert Search(row[0]) == Some(c) by {
      TimePhraseMatches(d);
    }
    ParseOfSearch(row, origin, tzOffset, c);
    var c2 := Captures(Pad2(d.hour), Pad2(d.minute), None, NatToString(d.day), Months[d.month], NatToString(d.year + 1900));
    assert c2 == c.(yyyy := NatToString(d.year + 1900));
    LocalTimeOfCentury(c, d.year, tzOffset);
    assert LocalTime(c, tzOffset) == LocalTime(c2, tzOffset);
  }

  /** A row of two cells or more whose first cell the expression matches parses to
      the moment of the captures. */
  lemma ParseOfSearch(row: seq<string>, origin: string, tzOffset: int, c: Captures)
    requires |row| >= 2 && Search(row[0]) == Some(c)
    ensures AllDigits(c.hh) && AllDigits(c.mm) && AllDigits(c.dd) && AllDigits(c.yyyy)
    ensures ParseCronJobData(row, origin, tzOffset).Ok?
    ensures ParseCronJobData(row, origin, tzOffset).value.datetime == LocalTime(c, tzOffset)
  {
  }

  /** Captures that differ only in a year from 0 to 99 against that year plus 1900
      denote the same moment. */
  lemma LocalTimeOfCentury(c: Captures, year: nat, tzOffset: int)
    requires year <= 99 && c.yyyy == NatToString(year)
    requires AllDigits(c.hh) && AllDigits(c.mm) && AllDigits(c.dd)
    ensures AllDigits(c.yyyy) && AllDigits(NatToString(year + 1900))
    ensures LocalTime(c, tzOffset) == LocalTime(c.(yyyy := NatToString(year + 1900)), tzOffset)
  {
    NatToStringValue(year);
    NatToStringValue(year + 1900);
    TwoDigitYears(year, MonthIndex(c.month), DigitsValue(c.dd), Hours(c), DigitsValue(c.mm));
  }

  /** 'Oktober' is the tenth month; the English 'October' is not in the list and
      the date falls back to December of the year before. */
  lemma OctoberIsDecemberBefore(year: int, day: int, hours: int, minutes: int)
    requires year >= 1901
    ensures MonthIndex("Oktober") == 9
    ensures MonthIndex("October") == -1
    ensures DateUtc(year, MonthIndex("October"), day, hours, minutes) == DateUtc(year - 1, 11, day, hours, minutes)
  {
    MonthIndexOfName(9);
    assert Months[9] == "Oktober";
    MakeDayCarriesMonths(year - 1, 11, day);
  }

  /** With 'pm', 1 o'clock becomes hour 112: four days and sixteen hours later than
      1 o'clock. */
  lemma PmHourIsConcatenated(tzOffset: int)
    ensures var c := Captures("1", "00", Some("pm"), "2", "January", "2025");
      LocalTime(c, tzOffset) == LocalTime(Captures("112", "00", None, "2", "January", "2025"), tzOffset)
  {
    assert "1" + "12" == "112";
  }

  // ----- finding the job of a page -----

  /** `String(job[1])`: a missing cell is the text 'undefined'. */
  function SecondCell(row: seq<string>): string {
    if |row| >= 2 then row[1] else "undefined"
  }

  predicate EndsWith(s: string, suffix: string) {
    |suffix| <= |s| && s[|s| - |suffix|..] == suffix
  }

  /** `cronjobs.find(...)` followed by `cronjobs.indexOf(existing)`: the index of the
      first row (the header row included) whose second cell ends with the path. */
  function FindExisting(rows: seq<seq<string>>, pathname: string): (r: Option<nat>)
    ensures r.Some? ==> r.value < |rows| && EndsWith(SecondCell(rows[r.value]), pathname)
    ensures r.Some? ==> forall i :: 0 <= i < r.value ==> !EndsWith(SecondCell(rows[i]), pathname)
    ensures r.None? ==> forall i :: 0 <= i < |rows| ==> !EndsWith(SecondCell(rows[i]), pathname)
  {
    if rows == [] then None
    else if EndsWith(SecondCell(rows[0]), pathname) then Some(0)
    else
      match FindExisting(rows[1..], pathname)
      case None => None
      case Some(i) => Some(i + 1)
  }

  /** Update and delete address the jobs table, which has no header row, at the
      found index minus one. For a found index `i >= 1` that is the found job: the
      first row of the table whose action cell ends with the path. The index is 0
      exactly when the header row's own second cell ends with the path, and then
      the address is -1, no row of the table. */
  lemma JobTableIndex(rows: seq<seq<string>>, pathname: string)
    ensures FindExisting(rows, pathname) == Some(0) <==> rows != [] && EndsWith(SecondCell(rows[0]), pathname)
    ensures FindExisting(rows, pathname).Some? && FindExisting(rows, pathname).value >= 1 ==>
              var table := rows[1..];
              var address := FindExisting(rows, pathname).value - 1;
              0 <= address < |table| && EndsWith(SecondCell(table[address]), pathname) &&
              forall j :: 0 <= j < address ==> !EndsWith(SecondCell(table[j]), pathname)
  {
  }

  /** The lookup also finds the job of another page whose path ends with this one:
      a page '/a' finds the job of '/news/a'. */
  lemma SuffixFindsOtherPage()
    ensures FindExisting([["When", "Command"], ["at 09:05 on the 14 day of March in 2025", "publish /news/a"]], "/a") == Some(1)
  {
    assert EndsWith("publish /news/a", "/a");
    assert !EndsWith("Command", "/a");
  }

  /** The lookup by the whole action cell: the job of exactly this page. */
  function FindExistingExact(rows: seq<seq<string>>, pathname: string): (r: Option<nat>)
    ensures r.Some? ==> r.value < |rows| && SecondCell(rows[r.value]) == "publish " + pathname
    ensures r.Some? ==> forall i :: 0 <= i < r.value ==> SecondCell(rows[i]) != "publish " + pathname
    ensures r.None? ==> forall i :: 0 <= i < |rows| ==> SecondCell(rows[i]) != "publish " + pathname
  {
    if rows == [] then None
    else if SecondCell(rows[0]) == "publish " + pathname then Some(0)
    else
      match FindExistingExact(rows[1..], pathname)
      case None => None
      case Some(i) => Some(i + 1)
  }

  /** The exact lookup finds a page's job after the page's own job was written by
      `formatCronJobData`, and never the job of a different page. */
  lemma FindExistingExactSeparatesPages(rows: seq<seq<string>>, d: DateTime, pathname: string, other: string)
    requires Valid(d) && other != pathname
    ensures FindExistingExact(rows + FormatCronJobData(Some(d), pathname), pathname).Some?
    ensures FindExistingExact(rows + FormatCronJobData(Some(d), other), pathname) == FindExistingExact(rows, pathname)
  {
    var row := FormatCronJobData(Some(d), pathname)[0];
    assert (rows + [row])[|rows|] == row;
    assert "publish " + other != "publish " + pathname by {
      assert ("publish " + other)[8..] == other;
      assert ("publish " + pathname)[8..] == pathname;
    }
    FindExactAppend(rows, FormatCronJobData(Some(d), other)[0], pathname);
  }

  lemma {:induction false} FindExactAppend(rows: seq<seq<string>>, row: seq<string>, pathname: string)
    requires SecondCell(row) != "publish " + pathname
    ensures FindExistingExact(rows + [row], pathname) == FindExistingExact(rows, pathname)
  {
    if rows == [] {
      assert rows + [row] == [row];
    } else {
      assert (rows + [row])[1..] == rows[1..] + [row];
      FindExactAppend(rows[1..], row, pathname);
    }
  }

  /** A match starts 'at ' followed by a digit. */
  lemma MatchAtDigit(s: string)
    ensures MatchAt(s).Some? ==> |s| > 3 && IsDigit(s[3])
  {
    if MatchAt(s).Some? {
      var a := Lit(s, "at ");
      var h := Digits(a.value);
      assert s == "at " + a.value;
      assert a.value == h.value.0 + h.value.1 && h.value.0 != [] && IsDigit(h.value.0[0]);
      assert s[3] == a.value[0];
    }
  }

  predicate NoDigit(s: string) {
    forall i :: 0 <= i < |s| ==> !IsDigit(s[i])
  }

  lemma NoDigitAppend(a: string, b: string)
    requires NoDigit(a) && NoDigit(b)
    ensures NoDigit(a + b)
  {
  }

  /** The first cell of an Invalid Date's row holds no digit. */
  lemma InvalidPhraseNoDigit()
    ensures NoDigit(InvalidPhrase)
  {
    assert NoDigit("at ") && NoDigit("NaN") && NoDigit(":") && NoDigit(" on the ")
      && NoDigit(" day of ") && NoDigit("undefined") && NoDigit(" in ");
    NoDigitAppend("at ", "NaN");
    NoDigitAppend("at NaN", ":");
    NoDigitAppend("at NaN:", "NaN");
    NoDigitAppend("at NaN:NaN", " on the ");
    NoDigitAppend("at NaN:NaN on the ", "NaN");
    NoDigitAppend("at NaN:NaN on the NaN", " day of ");
    NoDigitAppend("at NaN:NaN on the NaN day of ", "undefined");
    NoDigitAppend("at NaN:NaN on the NaN day of undefined", " in ");
    NoDigitAppend("at NaN:NaN on the NaN day of undefined in ", "NaN");
  }

  /** Text without a digit has no match anywhere. */
  lemma {:induction false} SearchNoDigits(s: string)
    requires NoDigit(s)
    ensures Search(s).None?
  {
    MatchAtDigit(s);
    if s != [] {
      SearchNoDigits(s[1..]);
    }
  }

  /** The row written for an Invalid Date throws in `parseCronJobData`, so it is
      left out of the upcoming jobs and leaves the dialog's date undefined; yet the
      lookup by path finds it, so the next submission updates it. */
  lemma InvalidDateRow(rows: seq<seq<string>>, pathname: string, origin: string, tzOffset: int)
    ensures ParseCronJobData(FormatCronJobData(None, pathname)[0], origin, tzOffset).Err?
    ensures ParseOrNull(FormatCronJobData(None, pathname)[0], origin, tzOffset).None?
    ensures ExistingDate(Some(FormatCronJobData(None, pathname)[0]), origin, tzOffset).Undefined?
    ensures FindExisting(rows + FormatCronJobData(None, pathname), pathname).Some?
    ensures FindExistingExact(rows + FormatCronJobData(None, pathname), pathname).Some?
  {
    InvalidRowThrows(FormatCronJobData(None, pathname)[0], origin, tzOffset);
    FoundAppended(rows, FormatCronJobData(None, pathname)[0], pathname);
  }

  /** A row whose first cell is the Invalid Date phrase throws. */
  lemma InvalidRowThrows(row: seq<string>, origin: string, tzOffset: int)
    requires |row| >= 1 && row[0] == InvalidPhrase
    ensures ParseCronJobData(row, origin, tzOffset).Err?
  {
    InvalidPhraseNoDigit();
    SearchNoDigits(InvalidPhrase);
  }

  /** A row appended with the page's action cell is found by both lookups. */
  lemma FoundAppended(rows: seq<seq<string>>, row: seq<string>, pathname: string)
    requires |row| >= 2 && row[1] == "publish " + pathname
    ensures FindExisting(rows + [row], pathname).Some?
    ensures FindExistingExact(rows + [row], pathname).Some?
  {
    assert (rows + [row])[|rows|] == row;
    assert EndsWith(SecondCell(row), pathname) by {
      assert ("publish " + pathname)[8..] == pathname;
    }
  }

  // ----- the list of upcoming jobs -----

  /** The `map` step: a row that throws becomes null. */
  function ParseOrNull(row: seq<string>, origin: string, tzOffset: int): Option<Job> {
    match ParseCronJobData(row, origin, tzOffset)
    case Ok(j) => Some(j)
    case Err(_) => None
  }

  /** The `filter` step: a job set for a valid time after `now` that publishes. */
  predicate IsUpcoming(j: Job, now: int) {
    j.datetime.Some? && j.datetime.value > now && j.action == "publish"
  }

  /** The jobs of the rows, null where the row throws. */
  function ParseAll(rows: seq<seq<string>>, origin: string, tzOffset: int): (ps: seq<Option<Job>>)
    ensures |ps| == |rows|
    ensures forall i :: 0 <= i < |rows| ==> ps[i] == ParseOrNull(rows[i], origin, tzOffset)
  {
    seq(|rows|, i requires 0 <= i < |rows| => ParseOrNull(rows[i], origin, tzOffset))
  }

  /** The upcoming jobs among the parsed ones, in row order. */
  function UpcomingJobs(ps: seq<Option<Job>>, now: int): (r: seq<Job>)
    ensures forall k :: 0 <= k < |r| ==> IsUpcoming(r[k], now)
    ensures forall j :: j in r <==> Some(j) in ps && IsUpcoming(j, now)
  {
    if ps == [] then []
    else
      var rest := UpcomingJobs(ps[1..], now);
      assert forall o :: o in ps <==> o == ps[0] || o in ps[1..] by {
        assert ps == [ps[0]] + ps[1..];
      }
      (if ps[0].Some? && IsUpcoming(ps[0].value, now) then [ps[0].value] else []) + rest
  }

  function Time(j: Job): int {
    if j.datetime.Some? then j.datetime.value else 0
  }

  predicate SortedByTime(s: seq<Job>) {
    forall i, j :: 0 <= i < j < |s| ==> Time(s[i]) <= Time(s[j])
  }

  /** Inserts `x` after every job that is not later than it. */
  function Insert(x: Job, s: seq<Job>): (r: seq<Job>)
    requires SortedByTime(s)
    ensures |r| == |s| + 1
    ensures s != [] ==> r[0] == s[0] || (r[0] == x && Time(x) < Time(s[0]))
    ensures SortedByTime(r)
  {
    if s == [] then [x]
    else if Time(x) < Time(s[0]) then [x] + s
    else
      var t := Insert(x, s[1..]);
      assert s == [s[0]] + s[1..];
      assert forall k :: 0 <= k < |t| ==> Time(s[0]) <= Time(t[k]) by {
        assert s[1..] != [] ==> Time(s[0]) <= Time(s[1..][0]);
      }
      [s[0]] + t
  }

  /** `sort((a, b) => a.datetime - b.datetime)`: a stable sort by time. */
  function SortByTime(s: seq<Job>): (r: seq<Job>)
    ensures SortedByTime(r)
  {
    if s == [] then [] else Insert(s[|s| - 1], SortByTime(s[..|s| - 1]))
  }

  lemma {:induction false} InsertPermutes(x: Job, s: seq<Job>)
    requires SortedByTime(s)
    ensures multiset(Insert(x, s)) == multiset(s) + multiset{x}
  {
    if s != [] && Time(x) >= Time(s[0]) {
      InsertPermutes(x, s[1..]);
      assert s == [s[0]] + s[1..];
      assert Insert(x, s) == [s[0]] + Insert(x, s[1..]);
    }
  }

  /** The sort neither loses nor adds a job. */
  lemma {:induction false} SortPermutes(s: seq<Job>)
    ensures multiset(SortByTime(s)) == multiset(s)
  {
    if s != [] {
      SortPermutes(s[..|s| - 1]);
      InsertPermutes(s[|s| - 1], SortByTime(s[..|s| - 1]));
      assert s == s[..|s| - 1] + [s[|s| - 1]];
    }
  }

  /** The jobs at moment `t`, in their order. */
  function AtTime(s: seq<Job>, t: int): seq<Job> {
    if s == [] then [] else (if Time(s[0]) == t then [s[0]] else []) + AtTime(s[1..], t)
  }

  lemma {:induction false} AtTimeAppend(a: seq<Job>, b: seq<Job>, t: int)
    ensures AtTime(a + b, t) == AtTime(a, t) + AtTime(b, t)
  {
    if a == [] {
      assert a + b == b;
    } else {
      assert (a + b)[0] == a[0] && (a + b)[1..] == a[1..] + b;
      AtTimeAppend(a[1..], b, t);
      var e: seq<Job> := if Time(a[0]) == t then [a[0]] else [];
      assert e + (AtTime(a[1..], t) + AtTime(b, t)) == (e + AtTime(a[1..], t)) + AtTime(b, t);
    }
  }

  lemma {:induction false} AtTimeNone(s: seq<Job>, t: int)
    requires forall k :: 0 <= k < |s| ==> Time(s[k]) > t
    ensures AtTime(s, t) == []
  {
    if s != [] {
      AtTimeNone(s[1..], t);
    }
  }

  /** A job not earlier than the first is inserted into the rest. */
  lemma InsertAfterHead(x: Job, s: seq<Job>)
    requires SortedByTime(s) && s != [] && Time(s[0]) <= Time(x)
    ensures SortedByTime(s[1..]) && Insert(x, s) == [s[0]] + Insert(x, s[1..])
    ensures s == [s[0]] + s[1..]
  {
  }

  lemma {:induction false} InsertKeepsOrder(x: Job, s: seq<Job>, t: int)
    requires SortedByTime(s)
    ensures AtTime(Insert(x, s), t) == AtTime(s, t) + (if Time(x) == t then [x] else [])
  {
    if s == [] {
      assert Insert(x, s) == [x];
    } else if Time(x) < Time(s[0]) {
      InsertInFront(x, s, t);
    } else {
      InsertAfterHead(x, s);
      InsertKeepsOrder(x, s[1..], t);
      AtTimeCons(s[0], Insert(x, s[1..]), s[1..], if Time(x) == t then [x] else [], t);
    }
  }

  /** A job earlier than every other one goes first and adds itself to its moment. */
  lemma InsertInFront(x: Job, s: seq<Job>, t: int)
    requires SortedByTime(s) && s != [] && Time(x) < Time(s[0])
    ensures AtTime(Insert(x, s), t) == AtTime(s, t) + (if Time(x) == t then [x] else [])
  {
    assert Insert(x, s) == [x] + s;
    AtTimeAppend([x], s, t);
    if Time(x) == t {
      AtTimeNone(s, t);
    }
  }

  /** Putting the same job in front of two lists keeps a difference at the end. */
  lemma AtTimeCons(h: Job, tail: seq<Job>, rest: seq<Job>, extra: seq<Job>, t: int)
    requires AtTime(tail, t) == AtTime(rest, t) + extra
    ensures AtTime([h] + tail, t) == AtTime([h] + rest, t) + extra
  {
    assert ([h] + tail)[1..] == tail && ([h] + rest)[1..] == rest;
    var head: seq<Job> := if Time(h) == t then [h] else [];
    assert head + (AtTime(rest, t) + extra) == (head + AtTime(rest, t)) + extra;
  }

  /** The sort is stable: jobs at the same moment keep their relative order. */
  lemma {:induction false} SortIsStable(s: seq<Job>, t: int)
    ensures AtTime(SortByTime(s), t) == AtTime(s, t)
  {
    if s != [] {
      var init, last := s[..|s| - 1], s[|s| - 1];
      var extra := if Time(last) == t then [last] else [];
      assert AtTime(SortByTime(s), t) == AtTime(SortByTime(init), t) + extra by {
        assert SortByTime(s) == Insert(last, SortByTime(init));
        InsertKeepsOrder(last, SortByTime(init), t);
      }
      SortIsStable(init, t);
      assert AtTime(s, t) == AtTime(init, t) + extra by {
        assert s == init + [last];
        assert AtTime([last], t) == extra by {
          assert [last][1..] == [];
        }
        AtTimeAppend(init, [last], t);
      }
    }
  }

  /** `publishLaterList`: skip the header row, parse every job (a row that throws is
      dropped), keep the upcoming publish jobs, sort them by time. */
  function PublishLaterList(rows: seq<seq<string>>, origin: string, tzOffset: int, now: int): (r: seq<Job>)
    ensures SortedByTime(r)
  {
    SortByTime(UpcomingJobs(ParseAll(if rows == [] then [] else rows[1..], origin, tzOffset), now))
  }

  /** Which jobs are listed: exactly the upcoming publish jobs of the rows after the
      header; a row that throws is not among them. */
  lemma PublishLaterListMembers(rows: seq<seq<string>>, origin: string, tzOffset: int, now: int, j: Job)
    ensures j in PublishLaterList(rows, origin, tzOffset, now) <==>
      exists i :: 1 <= i < |rows| && ParseCronJobData(rows[i], origin, tzOffset) == Ok(j) && IsUpcoming(j, now)
  {
    var up := UpcomingJobs(ParseAll(if rows == [] then [] else rows[1..], origin, tzOffset), now);
    assert j in PublishLaterList(rows, origin, tzOffset, now) <==> j in up by {
      SortPermutes(up);
      assert j in PublishLaterList(rows, origin, tzOffset, now) <==> j in multiset(up);
    }
    ParsedRows(rows, origin, tzOffset, j);
  }

  /** A job is among the parsed rows after the header exactly when one of those
      rows parses to it. */
  lemma ParsedRows(rows: seq<seq<string>>, origin: string, tzOffset: int, j: Job)
    ensures Some(j) in ParseAll(if rows == [] then [] else rows[1..], origin, tzOffset) <==>
      exists i :: 1 <= i < |rows| && ParseCronJobData(rows[i], origin, tzOffset) == Ok(j)
  {
    var body := if rows == [] then [] else rows[1..];
    var ps := ParseAll(body, origin, tzOffset);
    if Some(j) in ps {
      var i :| 0 <= i < |ps| && ps[i] == Some(j);
      assert rows[i + 1] == body[i];
      ParseOrNullOk(rows[i + 1], origin, tzOffset, j);
    }
    if exists i :: 1 <= i < |rows| && ParseCronJobData(rows[i], origin, tzOffset) == Ok(j) {
      var i :| 1 <= i < |rows| && ParseCronJobData(rows[i], origin, tzOffset) == Ok(j);
      assert body[i - 1] == rows[i];
      ParseOrNullOk(rows[i], origin, tzOffset, j);
      assert ps[i - 1] == Some(j);
    }
  }

  /** A row parses to `j` exactly when null-on-throw gives `j`. */
  lemma ParseOrNullOk(row: seq<string>, origin: string, tzOffset: int, j: Job)
    ensures ParseOrNull(row, origin, tzOffset) == Some(j) <==> ParseCronJobData(row, origin, tzOffset) == Ok(j)
  {
  }

  /** The list holds every upcoming job once per row that schedules it, in time
      order; jobs at the same moment stay in row order. */
  lemma PublishLaterListOrder(rows: seq<seq<string>>, origin: string, tzOffset: int, now: int, t: int)
    ensures var up := UpcomingJobs(ParseAll(if rows == [] then [] else rows[1..], origin, tzOffset), now);
      multiset(PublishLaterList(rows, origin, tzOffset, now)) == multiset(up)
      && AtTime(PublishLaterList(rows, origin, tzOffset, now), t) == AtTime(up, t)
  {
    var up := UpcomingJobs(ParseAll(if rows == [] then [] else rows[1..], origin, tzOffset), now);
    SortPermutes(up);
    SortIsStable(up, t);
  }

  // ----- the date input of the schedule dialog -----

  /** The earliest time a job may be set for: `now - tzOffset * 60000 + DELAY`. */
  function MinDate(now: int, tzOffset: int): int {
    now - tzOffset * MsPerMinute + Delay
  }

  /** What `date` holds when the dialog is built: undefined (no job, or a job whose
      row threw), an Invalid Date, or a time value. */
  datatype DialogDate = Undefined | InvalidDate | At(ms: int)

  /** The date of the existing job's row, if there is one; a row that throws is
      caught and leaves the date undefined. */
  function ExistingDate(entry: Option<seq<string>>, origin: string, tzOffset: int): (r: DialogDate)
    ensures entry.None? ==> r.Undefined?
    ensures entry.Some? ==> (r.Undefined? <==> ParseCronJobData(entry.value, origin, tzOffset).Err?)
    ensures entry.Some? && !r.Undefined? ==>
              ParseCronJobData(entry.value, origin, tzOffset).Ok? &&
              (r.InvalidDate? <==> ParseCronJobData(entry.value, origin, tzOffset).value.datetime.None?) &&
              (r.At? ==> ParseCronJobData(entry.value, origin, tzOffset).value.datetime == Some(r.ms))
  {
    if entry.None? then Undefined
    else
      match ParseCronJobData(entry.value, origin, tzOffset)
      case Err(_) => Undefined
      case Ok(job) => if job.datetime.Some? then At(job.datetime.value) else InvalidDate
  }

  /** The date input of the dialog: its `min`, its `value` and whether it (and the
      update button) is disabled. */
  datatype DateField = DateField(min: int, value: Option<int>, disabled: bool)

  /** The input gets the minimum date as `min` and a date as `value`; `toISOString`
      throws a RangeError on an Invalid Date, so then no dialog is built. The input
      is disabled when the date lies before the minimum date; `undefined < minDate`
      is false. */
  function DateInput(date: DialogDate, now: int, tzOffset: int): (r: Result<DateField>)
    ensures r.Err? <==> date.InvalidDate?
    ensures r.Err? ==> r.error == "RangeError"
    ensures r.Ok? ==> r.value.min == MinDate(now, tzOffset)
    ensures r.Ok? ==> (r.value.value.Some? <==> date.At?) && (date.At? ==> r.value.value == Some(date.ms))
    ensures r.Ok? ==> (r.value.disabled <==> date.At? && date.ms < MinDate(now, tzOffset))
  {
    match date
    case Undefined => Ok(DateField(MinDate(now, tzOffset), None, false))
    case InvalidDate => Err("RangeError")
    case At(t) => Ok(DateField(MinDate(now, tzOffset), Some(t), t < MinDate(now, tzOffset)))
  }

  /** For a job written by `formatCronJobData`, the two timezone shifts cancel: the
      input is disabled exactly when the job's minute is less than ten minutes after
      now. */
  lemma DisabledIffWithinDelay(d: DateTime, pathname: string, origin: string, now: int, tzOffset: int)
    requires Valid(d) && d.year >= 100 && ' ' !in pathname
    requires InTimeRange(TimeValue(ToMinute(d))) && InTimeRange(TimeValue(ToMinute(d)) - tzOffset * MsPerMinute)
    ensures var field := DateInput(ExistingDate(Some(FormatCronJobData(Some(d), pathname)[0]), origin, tzOffset), now, tzOffset);
      field.Ok? && (field.value.disabled <==> TimeValue(ToMinute(d)) < now + Delay)
  {
    FormatParseRoundTrip(d, pathname, origin, tzOffset);
  }
}

/** The meeting's start date and time, from the cover page of a meeting
    document (klupung/ktweb.py, `_parse_cover_page`): the trimmed non-empty
    paragraph texts of the meeting-information cell are tried in order
    against the start pattern, the first one that matches gives the date
    and time, and when none matches they are read from the directory path
    `.../<year>/<ddmmHHMM>`. */
module CoverPage {
  import opened Wrappers
  import opened Text
  import opened Whitespace
  import opened Scan
  import opened Paths

  // ---------------------------------------------------------------------
  // datetime.datetime

  /** The five fields the scraper passes to `datetime.datetime`. */
  datatype DateTime = DateTime(year: int, month: int, day: int, hour: int, minute: int)

  predicate IsLeap(year: int) {
    year % 4 == 0 && (year % 100 != 0 || year % 400 == 0)
  }

  function DaysInMonth(year: int, month: int): (n: int)
    requires 1 <= month <= 12
    ensures 28 <= n <= 31
    ensures n == 29 <==> month == 2 && IsLeap(year)
  {
    if month == 2 then (if IsLeap(year) then 29 else 28)
    else if month in {4, 6, 9, 11} then 30
    else 31
  }

  /** The ranges `datetime.datetime` accepts: years `MINYEAR` 1 to
      `MAXYEAR` 9999, days within the month of that year. */
  predicate ValidDateTime(dt: DateTime) {
    && 1 <= dt.year <= 9999
    && 1 <= dt.month <= 12
    && 1 <= dt.day <= DaysInMonth(dt.year, dt.month)
    && 0 <= dt.hour <= 23
    && 0 <= dt.minute <= 59
  }

  /** Why no start time comes out: `int()` of a text that is no integer, or
      `datetime.datetime` of fields out of range. Both raise `ValueError` in
      the scraper, which nothing catches. */
  datatype Failure = NotANumber(text: string) | OutOfRange(fields: DateTime)

  /** `datetime.datetime(year, month, day, hour, minute)`. */
  function MakeDateTime(year: int, month: int, day: int, hour: int, minute: int): (r: Result<DateTime, Failure>)
    ensures r.Ok? ==> ValidDateTime(r.value)
    ensures r.Ok? ==> r.value == DateTime(year, month, day, hour, minute)
    ensures r.Err? ==> r.error == OutOfRange(DateTime(year, month, day, hour, minute))
  {
    var dt := DateTime(year, month, day, hour, minute);
    if ValidDateTime(dt) then Ok(dt) else Err(OutOfRange(dt))
  }

  /** Every date and time in range is accepted as it is. */
  lemma MakeDateTimeValid(dt: DateTime)
    requires ValidDateTime(dt)
    ensures MakeDateTime(dt.year, dt.month, dt.day, dt.hour, dt.minute) == Ok(dt)
  {
  }

  // ---------------------------------------------------------------------
  // The start pattern

  /** `[a-zA-Z]`. */
  const Letters: set<char> := set c: char | 'a' <= c <= 'z' || 'A' <= c <= 'Z'

  const Spaces: set<char> := {' '}

  /** `[, ]`. */
  const Separators: set<char> := {',', ' '}

  // A match of the start pattern
  //   (?P<weekday>[a-zA-Z]+)?[ ]*(?P<day>[0-9]{1,2})\.(?P<month>[0-9]{1,2})\.
  //   (?P<year>[0-9]{4})[, ]+(?:kello|klo)[ ]*(?P<hour>[0-9]{1,2})\.(?P<minute>[0-9]{2}).*
  // split into the pieces it covers, from the back: each part holds the
  // pieces from one group on, `rest` being what `.*` and the text after
  // the match cover.

  datatype TimePart = TimePart(hour: string, minute: string, rest: string)

  datatype YearPart = YearPart(year: string, seps: string, keyword: string, sp2: string, time: TimePart)

  datatype DatePart = DatePart(day: string, month: string, tail: YearPart)

  datatype StartMatch = StartMatch(weekday: string, sp1: string, date: DatePart)

  // What each piece may hold.

  predicate TimeShape(t: TimePart) {
    && 1 <= |t.hour| <= 2 && AllIn(t.hour, Digits)
    && |t.minute| == 2 && AllIn(t.minute, Digits)
  }

  predicate YearShape(y: YearPart) {
    && |y.year| == 4 && AllIn(y.year, Digits)
    && |y.seps| >= 1 && AllIn(y.seps, Separators)
    && (y.keyword == "kello" || y.keyword == "klo")
    && AllIn(y.sp2, Spaces)
    && TimeShape(y.time)
  }

  predicate DateShape(d: DatePart) {
    && 1 <= |d.day| <= 2 && AllIn(d.day, Digits)
    && 1 <= |d.month| <= 2 && AllIn(d.month, Digits)
    && YearShape(d.tail)
  }

  predicate StartShape(m: StartMatch) {
    AllIn(m.weekday, Letters) && AllIn(m.sp1, Spaces) && DateShape(m.date)
  }

  // The text each part covers.

  function TimeText(t: TimePart): string {
    t.hour + (['.'] + (t.minute + t.rest))
  }

  function KeywordText(y: YearPart): string {
    y.keyword + (y.sp2 + TimeText(y.time))
  }

  function YearText(y: YearPart): string {
    y.year + (y.seps + KeywordText(y))
  }

  function MonthText(d: DatePart): string {
    d.month + (['.'] + YearText(d.tail))
  }

  function DateText(d: DatePart): string {
    d.day + (['.'] + MonthText(d))
  }

  function Compose(m: StartMatch): string {
    m.weekday + (m.sp1 + DateText(m.date))
  }

  /** `[0-9]{1,2}\.`: the digits and what follows the dot. With a longer
      digit run neither one nor two digits can be followed by the dot. */
  function Dotted(s: string): (r: Option<(string, string)>)
    ensures r.Some? ==> 1 <= |r.value.0| <= 2 && AllIn(r.value.0, Digits)
    ensures r.Some? ==> s == r.value.0 + (['.'] + r.value.1)
  {
    var digits := TakeRun(s, Digits);
    var tail := SkipRun(s, Digits);
    if 1 <= |digits| <= 2 && |tail| > 0 && tail[0] == '.' then
      assert tail == ['.'] + tail[1..];
      Some((digits, tail[1..]))
    else None
  }

  /** `(?:kello|klo)`. */
  function Keyword(s: string): (r: Option<(string, string)>)
    ensures r.Some? ==> (r.value.0 == "kello" || r.value.0 == "klo")
    ensures r.Some? ==> s == r.value.0 + r.value.1
  {
    if StartsWith(s, "kello") then
      assert s == s[..5] + s[5..];
      Some(("kello", s[5..]))
    else if StartsWith(s, "klo") then
      assert s == s[..3] + s[3..];
      Some(("klo", s[3..]))
    else None
  }

  /** `[0-9]{2}` followed by anything. */
  function TwoDigits(s: string): (r: Option<(string, string)>)
    ensures r.Some? ==> |r.value.0| == 2 && AllIn(r.value.0, Digits)
    ensures r.Some? ==> s == r.value.0 + r.value.1
  {
    if |s| >= 2 && s[0] in Digits && s[1] in Digits then
      assert s == s[..2] + s[2..];
      Some((s[..2], s[2..]))
    else None
  }

  /** `(?P<hour>[0-9]{1,2})\.(?P<minute>[0-9]{2}).*`. */
  function MatchTime(s: string): (r: Option<TimePart>)
    ensures r.Some? ==> TimeShape(r.value) && TimeText(r.value) == s
  {
    var h := Dotted(s);
    if h.None? then None
    else
      var m := TwoDigits(h.value.1);
      if m.None? then None
      else Some(TimePart(h.value.0, m.value.0, m.value.1))
  }

  /** `(?P<year>[0-9]{4})[, ]+(?:kello|klo)[ ]*` and the time. */
  function MatchYear(s: string): (r: Option<YearPart>)
    ensures r.Some? ==> YearShape(r.value) && YearText(r.value) == s
  {
    var year := TakeRun(s, Digits);
    var s1 := SkipRun(s, Digits);
    var seps := TakeRun(s1, Separators);
    var k := Keyword(SkipRun(s1, Separators));
    if |year| != 4 || |seps| == 0 || k.None? then None
    else
      var s2 := k.value.1;
      var t := MatchTime(SkipRun(s2, Spaces));
      if t.None? then None
      else Some(YearPart(year, seps, k.value.0, TakeRun(s2, Spaces), t.value))
  }

  /** `(?P<day>[0-9]{1,2})\.(?P<month>[0-9]{1,2})\.` and the rest. */
  function MatchDate(s: string): (r: Option<DatePart>)
    ensures r.Some? ==> DateShape(r.value) && DateText(r.value) == s
  {
    var d := Dotted(s);
    if d.None? then None
    else
      var m := Dotted(d.value.1);
      if m.None? then None
      else
        var y := MatchYear(m.value.1);
        if y.None? then None
        else Some(DatePart(d.value.0, m.value.0, y.value))
  }

  /** `re.match` of the start pattern: anchored at the start of the text,
      with `.*` taking whatever follows the minutes. Every quantifier but
      the last can stop in one place only, as the character after each
      piece cannot continue it, so the match is found stage by stage.
      Sound: what it returns has the pattern's shape and makes up the
      text. */
  function MatchStart(s: string): (r: Option<StartMatch>)
    ensures r.Some? ==> StartShape(r.value) && Compose(r.value) == s
  {
    var s1 := SkipRun(s, Letters);
    var d := MatchDate(SkipRun(s1, Spaces));
    if d.None? then None
    else Some(StartMatch(TakeRun(s, Letters), TakeRun(s1, Spaces), d.value))
  }

  lemma DottedOf(digits: string, t: string)
    requires 1 <= |digits| <= 2 && AllIn(digits, Digits)
    ensures Dotted(digits + (['.'] + t)) == Some((digits, t))
  {
    RunSplitsAtBoundary(digits, ['.'] + t, Digits);
    assert (['.'] + t)[1..] == t;
  }

  lemma KeywordOf(keyword: string, t: string)
    requires keyword == "kello" || keyword == "klo"
    ensures Keyword(keyword + t) == Some((keyword, t))
  {
    var s := keyword + t;
    assert s[..|keyword|] == keyword;
    assert s[|keyword|..] == t;
    if keyword == "klo" {
      assert s[1] == 'l';
      assert !StartsWith(s, "kello");
    }
  }

  lemma TwoDigitsOf(d: string, t: string)
    requires |d| == 2 && AllIn(d, Digits)
    ensures TwoDigits(d + t) == Some((d, t))
  {
    var s := d + t;
    assert s[..2] == d;
    assert s[2..] == t;
  }

  /** A run of class characters followed by a text that starts with a
      character outside the class. */
  lemma RunThen(run: string, rest: string, cls: set<char>)
    requires AllIn(run, cls) && |rest| > 0 && rest[0] !in cls
    ensures TakeRun(run + rest, cls) == run
    ensures SkipRun(run + rest, cls) == rest
  {
    RunSplitsAtBoundary(run, rest, cls);
  }

  lemma MatchTimeOf(t: TimePart)
    requires TimeShape(t)
    ensures MatchTime(TimeText(t)) == Some(t)
  {
    assert Dotted(TimeText(t)) == Some((t.hour, t.minute + t.rest)) by {
      DottedOf(t.hour, t.minute + t.rest);
    }
    assert TwoDigits(t.minute + t.rest) == Some((t.minute, t.rest)) by {
      TwoDigitsOf(t.minute, t.rest);
    }
  }

  lemma YearRunOf(y: YearPart)
    requires YearShape(y)
    ensures TakeRun(YearText(y), Digits) == y.year
    ensures SkipRun(YearText(y), Digits) == y.seps + KeywordText(y)
  {
    var after := y.seps + KeywordText(y);
    assert after[0] == y.seps[0];
    RunThen(y.year, after, Digits);
  }

  lemma SepsRunOf(y: YearPart)
    requires YearShape(y)
    ensures TakeRun(y.seps + KeywordText(y), Separators) == y.seps
    ensures SkipRun(y.seps + KeywordText(y), Separators) == KeywordText(y)
  {
    assert KeywordText(y)[0] == y.keyword[0];
    RunThen(y.seps, KeywordText(y), Separators);
  }

  lemma KeywordPartOf(y: YearPart)
    requires YearShape(y)
    ensures Keyword(KeywordText(y)) == Some((y.keyword, y.sp2 + TimeText(y.time)))
  {
    KeywordOf(y.keyword, y.sp2 + TimeText(y.time));
  }

  lemma Sp2RunOf(y: YearPart)
    requires YearShape(y)
    ensures TakeRun(y.sp2 + TimeText(y.time), Spaces) == y.sp2
    ensures SkipRun(y.sp2 + TimeText(y.time), Spaces) == TimeText(y.time)
  {
    assert TimeText(y.time)[0] == y.time.hour[0];
    RunThen(y.sp2, TimeText(y.time), Spaces);
  }

  lemma MatchYearOf(y: YearPart)
    requires YearShape(y)
    ensures MatchYear(YearText(y)) == Some(y)
  {
    YearRunOf(y);
    SepsRunOf(y);
    KeywordPartOf(y);
    Sp2RunOf(y);
    MatchTimeOf(y.time);
  }

  lemma DayOf(d: DatePart)
    requires DateShape(d)
    ensures Dotted(DateText(d)) == Some((d.day, MonthText(d)))
  {
    DottedOf(d.day, MonthText(d));
  }

  lemma MonthOf(d: DatePart)
    requires DateShape(d)
    ensures Dotted(MonthText(d)) == Some((d.month, YearText(d.tail)))
  {
    DottedOf(d.month, YearText(d.tail));
  }

  lemma MatchDateOf(d: DatePart)
    requires DateShape(d)
    ensures MatchDate(DateText(d)) == Some(d)
  {
    DayOf(d);
    MonthOf(d);
    MatchYearOf(d.tail);
  }

  /** Completeness of the staged matcher: every text of the pattern's
      shape is matched, into the very pieces it was made of. */
  lemma MatchStartOf(m: StartMatch)
    requires StartShape(m)
    ensures MatchStart(Compose(m)) == Some(m)
  {
    var afterWeekday := m.sp1 + DateText(m.date);
    assert DateText(m.date)[0] == m.date.day[0];
    assert TakeRun(Compose(m), Letters) == m.weekday && SkipRun(Compose(m), Letters) == afterWeekday by {
      assert afterWeekday[0] !in Letters by {
        if |m.sp1| > 0 {
          assert afterWeekday[0] == m.sp1[0];
        } else {
          assert afterWeekday[0] == DateText(m.date)[0];
        }
      }
      RunThen(m.weekday, afterWeekday, Letters);
    }
    assert TakeRun(afterWeekday, Spaces) == m.sp1 && SkipRun(afterWeekday, Spaces) == DateText(m.date) by {
      RunThen(m.sp1, DateText(m.date), Spaces);
    }
    assert MatchDate(DateText(m.date)) == Some(m.date) by {
      MatchDateOf(m.date);
    }
  }

  /** The groups of a match, read by `int()`: each is a run of ASCII
      digits, so `int()` gives the value of the digits. */
  function Fields(m: StartMatch): DateTime
    requires StartShape(m)
  {
    var d := m.date;
    DateTime(DigitsValue(d.tail.year), DigitsValue(d.month), DigitsValue(d.day),
             DigitsValue(d.tail.time.hour), DigitsValue(d.tail.time.minute))
  }

  /** `_parse_start_datetime`: None when the pattern does not match, else
      `datetime.datetime` of the groups, which fails for fields out of
      range. */
  function LineDateTime(text: string): (r: Option<Result<DateTime, Failure>>)
    ensures r.None? <==> MatchStart(text).None?
    ensures r.Some? && r.value.Ok? ==> ValidDateTime(r.value.value)
    ensures r.Some? && r.value.Err? ==> r.value.error.OutOfRange?
  {
    match MatchStart(text)
    case None => None
    case Some(m) =>
      var f := Fields(m);
      Some(MakeDateTime(f.year, f.month, f.day, f.hour, f.minute))
  }

  /** The pieces of a paragraph written as
      `<weekday> <d>.<m>.<yyyy> klo <H>.<MM><rest>`. */
  function StartLine(weekday: string, dt: DateTime, rest: string): (m: StartMatch)
    requires ValidDateTime(dt)
    ensures AllIn(weekday, Letters) ==> StartShape(m)
    ensures Compose(m) == weekday + (" " + (Dec(dt.day as nat) + (['.'] + (Dec(dt.month as nat) + (['.']
      + (Padded(dt.year as nat, 4) + (" " + ("klo" + (" " + (Dec(dt.hour as nat) + (['.']
      + (Padded(dt.minute as nat, 2) + rest))))))))))))
  {
    var time := TimePart(Dec(dt.hour as nat), Padded(dt.minute as nat, 2), rest);
    var year := YearPart(Padded(dt.year as nat, 4), " ", "klo", " ", time);
    StartMatch(weekday, " ", DatePart(Dec(dt.day as nat), Dec(dt.month as nat), year))
  }

  /** Such a paragraph gives back the date and time it was written from. */
  lemma LineDateTimeOf(weekday: string, dt: DateTime, rest: string)
    requires AllIn(weekday, Letters)
    requires ValidDateTime(dt)
    ensures LineDateTime(Compose(StartLine(weekday, dt, rest))) == Some(Ok(dt))
  {
    var m := StartLine(weekday, dt, rest);
    assert MatchStart(Compose(m)) == Some(m) by {
      MatchStartOf(m);
    }
    assert Fields(m) == dt by {
      DecRoundTrip(dt.day as nat);
      DecRoundTrip(dt.month as nat);
      DecRoundTrip(dt.hour as nat);
      PaddedRoundTrip(dt.year as nat, 4);
      PaddedRoundTrip(dt.minute as nat, 2);
    }
    MakeDateTimeValid(dt);
  }

  // ---------------------------------------------------------------------
  // The meeting-information paragraphs

  /** The paragraphs the scraper keeps: each trimmed by `_trimws`, the
      empty ones dropped, in order. */
  function InfoTexts(paras: seq<string>): (r: seq<string>)
    ensures |r| <= |paras|
    ensures forall i :: 0 <= i < |r| ==> |r[i]| > 0
  {
    Filter(Trimmed(paras), NonEmpty)
  }

  /** The kept texts are exactly the non-empty trimmed paragraphs. */
  lemma InfoTextsMembers(paras: seq<string>, t: string)
    ensures t in InfoTexts(paras) ==> |t| > 0 && exists j :: 0 <= j < |paras| && TrimWs(paras[j]) == t
    ensures (exists j :: 0 <= j < |paras| && TrimWs(paras[j]) == t) && |t| > 0 ==> t in InfoTexts(paras)
  {
    FilterMembers(Trimmed(paras), NonEmpty, t);
    if t in Trimmed(paras) {
      var i :| 0 <= i < |Trimmed(paras)| && Trimmed(paras)[i] == t;
      TrimmedAt(paras, i);
    }
    if j :| 0 <= j < |paras| && TrimWs(paras[j]) == t {
      TrimmedAt(paras, j);
    }
  }

  /** The selection works paragraph by paragraph, so the kept texts come
      in the order of the paragraphs. */
  lemma InfoTextsConcat(a: seq<string>, b: seq<string>)
    ensures InfoTexts(a + b) == InfoTexts(a) + InfoTexts(b)
  {
    TrimmedConcat(a, b);
    FilterConcat(Trimmed(a), Trimmed(b), NonEmpty);
  }

  /** One paragraph is kept, trimmed, unless it is blank. */
  lemma InfoTextsOne(p: string)
    ensures InfoTexts([p]) == if |TrimWs(p)| > 0 then [TrimWs(p)] else []
  {
    TrimmedAt([p], 0);
    assert Trimmed([p])[..0] == [];
  }

  lemma InfoTextsShape(paras: seq<string>, t: string)
    requires t in InfoTexts(paras)
    ensures TrimShape(t) && |t| > 0
  {
    FilterMembers(Trimmed(paras), NonEmpty, t);
    var i :| 0 <= i < |Trimmed(paras)| && Trimmed(paras)[i] == t;
    TrimmedAt(paras, i);
  }

  /** Paragraphs that are already trimmed and not empty are all kept as
      they are. */
  lemma InfoTextsFixed(paras: seq<string>)
    requires forall i :: 0 <= i < |paras| ==> |paras[i]| > 0 && TrimShape(paras[i])
    ensures InfoTexts(paras) == paras
  {
    forall i | 0 <= i < |paras|
      ensures Trimmed(paras)[i] == paras[i]
    {
      TrimmedAt(paras, i);
      TrimWsFixed(paras[i]);
    }
    FilterAll(Trimmed(paras), NonEmpty);
  }

  /** Selecting the paragraphs twice keeps the same ones. */
  lemma InfoTextsIdempotent(paras: seq<string>)
    ensures InfoTexts(InfoTexts(paras)) == InfoTexts(paras)
  {
    var r := InfoTexts(paras);
    forall i | 0 <= i < |r|
      ensures |r[i]| > 0 && TrimShape(r[i])
    {
      InfoTextsShape(paras, r[i]);
    }
    InfoTextsFixed(r);
  }

  // ---------------------------------------------------------------------
  // The start date and time

  /** The paragraphs the start pattern matches. */
  predicate Matches(text: string) {
    MatchStart(text).Some?
  }

  /** `text[i:j]` with Python's clamping of the bounds. */
  function Slice(text: string, i: nat, j: nat): (r: string)
    requires i <= j
    ensures |r| <= j - i
  {
    if |text| <= i then [] else if |text| <= j then text[i..] else text[i..j]
  }

  /** `int()` of a text, failing with the text. */
  function ReadInt(text: string): (r: Result<int, Failure>)
    ensures r.Err? ==> r.error == NotANumber(text)
    ensures r.Ok? ==> PyInt(text) == Some(r.value)
  {
    match PyInt(text)
    case None => Err(NotANumber(text))
    case Some(n) => Ok(n)
  }

  /** The fallback: the year is the name of the directory holding the
      meeting's directory, and the meeting directory's name holds the day,
      month, hour and minute as two characters each. They are read in the
      order year, day, month, hour, minute, and the first that is no
      integer stops the scraper. */
  function Fallback(dirpath: string): (r: Result<DateTime, Failure>)
    ensures r.Ok? ==> ValidDateTime(r.value)
    ensures r.Ok? ==> PyInt(BaseName(DirName(dirpath))) == Some(r.value.year)
    ensures r.Ok? ==> PyInt(Slice(BaseName(dirpath), 0, 2)) == Some(r.value.day)
    ensures r.Ok? ==> PyInt(Slice(BaseName(dirpath), 2, 4)) == Some(r.value.month)
    ensures r.Ok? ==> PyInt(Slice(BaseName(dirpath), 4, 6)) == Some(r.value.hour)
    ensures r.Ok? ==> PyInt(Slice(BaseName(dirpath), 6, 8)) == Some(r.value.minute)
  {
    var name := BaseName(dirpath);
    match ReadInt(BaseName(DirName(dirpath)))
    case Err(e) => Err(e)
    case Ok(year) =>
      match ReadInt(Slice(name, 0, 2))
      case Err(e) => Err(e)
      case Ok(day) =>
        match ReadInt(Slice(name, 2, 4))
        case Err(e) => Err(e)
        case Ok(month) =>
          match ReadInt(Slice(name, 4, 6))
          case Err(e) => Err(e)
          case Ok(hour) =>
            match ReadInt(Slice(name, 6, 8))
            case Err(e) => Err(e)
            case Ok(minute) => MakeDateTime(year, month, day, hour, minute)
  }

  /** The start date and time from the kept paragraphs: the first
      paragraph the pattern matches decides it, even when its fields are
      out of range; with no such paragraph the directory path does. */
  function StartDateTime(texts: seq<string>, dirpath: string): (r: Result<DateTime, Failure>)
    ensures r.Ok? ==> ValidDateTime(r.value)
  {
    match FirstIndex(texts, Matches)
    case Some(i) => LineDateTime(texts[i]).value
    case None => Fallback(dirpath)
  }

  /** `_parse_cover_page`, from the texts of the `<p>` elements of the
      meeting-information cell. */
  function CoverPageStart(paras: seq<string>, dirpath: string): (r: Result<DateTime, Failure>)
    ensures r.Ok? ==> ValidDateTime(r.value)
  {
    StartDateTime(InfoTexts(paras), dirpath)
  }

  /** The first matching paragraph wins, whatever follows it. */
  lemma StartFirstLineWins(texts: seq<string>, dirpath: string, i: nat)
    requires i < |texts| && Matches(texts[i])
    requires forall j :: 0 <= j < i ==> !Matches(texts[j])
    ensures LineDateTime(texts[i]).Some?
    ensures StartDateTime(texts, dirpath) == LineDateTime(texts[i]).value
  {
    FirstIndexAt(texts, Matches, i);
  }

  /** With no matching paragraph the directory path decides. */
  lemma StartFromPath(texts: seq<string>, dirpath: string)
    requires forall j :: 0 <= j < |texts| ==> !Matches(texts[j])
    ensures StartDateTime(texts, dirpath) == Fallback(dirpath)
  {
    FirstIndexNone(texts, Matches);
  }

  /** A paragraph the start pattern matches is not blank. */
  lemma MatchesNonEmpty(t: string)
    requires Matches(t)
    ensures |t| > 0
  {
  }

  /** The kept texts around a paragraph that is not blank: those of the
      paragraphs before it, the paragraph trimmed, those after it. */
  lemma InfoTextsAround(paras: seq<string>, i: nat)
    requires i < |paras| && |TrimWs(paras[i])| > 0
    ensures InfoTexts(paras) == InfoTexts(paras[..i]) + [TrimWs(paras[i])] + InfoTexts(paras[i + 1..])
  {
    var pre, post := paras[..i], paras[i + 1..];
    assert paras == pre + [paras[i]] + post;
    InfoTextsConcat(pre + [paras[i]], post);
    InfoTextsConcat(pre, [paras[i]]);
    InfoTextsOne(paras[i]);
  }

  /** A test on the kept texts first holds for the text of the first
      paragraph it holds for once trimmed. */
  lemma InfoTextsFirst(paras: seq<string>, p: string -> bool, i: nat)
    requires i < |paras| && |TrimWs(paras[i])| > 0 && p(TrimWs(paras[i]))
    requires forall j :: 0 <= j < i ==> !p(TrimWs(paras[j]))
    ensures FirstIndex(InfoTexts(paras), p) == Some(|InfoTexts(paras[..i])|)
    ensures InfoTexts(paras)[|InfoTexts(paras[..i])|] == TrimWs(paras[i])
  {
    var pre, post := paras[..i], paras[i + 1..];
    InfoTextsAround(paras, i);
    InfoTextsNone(pre, p);
    FirstIndexAfter(InfoTexts(pre), [TrimWs(paras[i])] + InfoTexts(post), p);
    ConcatAssoc(InfoTexts(pre), [TrimWs(paras[i])], InfoTexts(post));
  }

  /** A test that holds for no trimmed paragraph holds for no kept text. */
  lemma InfoTextsNone(paras: seq<string>, p: string -> bool)
    requires forall j :: 0 <= j < |paras| ==> !p(TrimWs(paras[j]))
    ensures FirstIndex(InfoTexts(paras), p) == None
  {
    var texts := InfoTexts(paras);
    forall k | 0 <= k < |texts|
      ensures !p(texts[k])
    {
      InfoTextsMembers(paras, texts[k]);
    }
    FirstIndexNone(texts, p);
  }

  /** Over the paragraphs of the page: the first one that the pattern
      matches once trimmed decides the start, whatever follows it. */
  lemma CoverPageStartFirst(paras: seq<string>, dirpath: string, i: nat)
    requires i < |paras| && Matches(TrimWs(paras[i]))
    requires forall j :: 0 <= j < i ==> !Matches(TrimWs(paras[j]))
    ensures LineDateTime(TrimWs(paras[i])).Some?
    ensures CoverPageStart(paras, dirpath) == LineDateTime(TrimWs(paras[i])).value
  {
    MatchesNonEmpty(TrimWs(paras[i]));
    InfoTextsFirst(paras, Matches, i);
  }

  /** Over the paragraphs of the page: when the pattern matches none of
      them, trimmed, the directory path decides. */
  lemma CoverPageStartFromPath(paras: seq<string>, dirpath: string)
    requires forall j :: 0 <= j < |paras| ==> !Matches(TrimWs(paras[j]))
    ensures CoverPageStart(paras, dirpath) == Fallback(dirpath)
  {
    InfoTextsNone(paras, Matches);
  }

  /** The meeting directory name `<dd><mm><HH><MM>`. */
  function DirStamp(dt: DateTime): string
    requires ValidDateTime(dt)
  {
    Padded(dt.day as nat, 2) + Padded(dt.month as nat, 2) + Padded(dt.hour as nat, 2) + Padded(dt.minute as nat, 2)
  }

  /** The four two-character slices of a stamp. */
  lemma DirStampSlices(dt: DateTime)
    requires ValidDateTime(dt)
    ensures Slice(DirStamp(dt), 0, 2) == Padded(dt.day as nat, 2)
    ensures Slice(DirStamp(dt), 2, 4) == Padded(dt.month as nat, 2)
    ensures Slice(DirStamp(dt), 4, 6) == Padded(dt.hour as nat, 2)
    ensures Slice(DirStamp(dt), 6, 8) == Padded(dt.minute as nat, 2)
  {
    var s := DirStamp(dt);
    assert |s| == 8;
    assert s[0..2] == Padded(dt.day as nat, 2);
    assert s[2..4] == Padded(dt.month as nat, 2);
    assert s[4..6] == Padded(dt.hour as nat, 2);
    assert s[6..8] == Padded(dt.minute as nat, 2);
  }

  /** The fallback reads back the date and time of a directory path
      `<dir>/<year>/<ddmmHHMM>`, whatever the leading directories are. */
  lemma FallbackOf(dir: string, dt: DateTime)
    requires ValidDateTime(dt)
    ensures Fallback(dir + ['/'] + Dec(dt.year as nat) + ['/'] + DirStamp(dt)) == Ok(dt)
  {
    var yearDir := dir + ['/'] + Dec(dt.year as nat);
    var stamp := DirStamp(dt);
    var path := yearDir + ['/'] + stamp;
    assert '/' !in stamp by {
      assert AllIn(stamp, Digits);
    }
    assert '/' !in Dec(dt.year as nat) by {
      assert AllIn(Dec(dt.year as nat), Digits);
    }
    assert BaseName(path) == stamp by {
      BaseNameOf(yearDir, stamp);
    }
    assert DirName(path) == yearDir by {
      assert yearDir[|yearDir| - 1] in Digits;
      DirNameOf(yearDir, stamp);
    }
    assert BaseName(yearDir) == Dec(dt.year as nat) by {
      BaseNameOf(dir, Dec(dt.year as nat));
    }
    assert ReadInt(Dec(dt.year as nat)) == Ok(dt.year) by {
      PyIntReadsDec(dt.year as nat);
    }
    DirStampSlices(dt);
    assert ReadInt(Padded(dt.day as nat, 2)) == Ok(dt.day) by {
      PyIntReadsPadded(dt.day as nat, 2);
    }
    assert ReadInt(Padded(dt.month as nat, 2)) == Ok(dt.month) by {
      PyIntReadsPadded(dt.month as nat, 2);
    }
    assert ReadInt(Padded(dt.hour as nat, 2)) == Ok(dt.hour) by {
      PyIntReadsPadded(dt.hour as nat, 2);
    }
    assert ReadInt(Padded(dt.minute as nat, 2)) == Ok(dt.minute) by {
      PyIntReadsPadded(dt.minute as nat, 2);
    }
    MakeDateTimeValid(dt);
  }

  /** A year directory that is no integer stops the scraper with that
      name. */
  lemma FallbackBadYear(dirpath: string)
    requires PyInt(BaseName(DirName(dirpath))).None?
    ensures Fallback(dirpath) == Err(NotANumber(BaseName(DirName(dirpath))))
  {
  }

  /** The year directory 2013 and the meeting directory 15091000 give
      15 September 2013 at 10:00. */
  lemma FallbackExample()
    ensures Fallback("Kvsto/2013/15091000") == Ok(DateTime(2013, 9, 15, 10, 0))
  {
    var dt := DateTime(2013, 9, 15, 10, 0);
    assert Dec(2013) == "2013";
    assert DirStamp(dt) == "15091000";
    assert "Kvsto" + ['/'] + Dec(2013) + ['/'] + DirStamp(dt) == "Kvsto/2013/15091000";
    FallbackOf("Kvsto", dt);
  }
}

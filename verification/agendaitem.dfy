/** The agenda-item extractors of klupung/ktweb.py: the item number from
    the file name, and the subject, the register number (Dnro), the
    preparers and the resolution from the paragraphs of the item's page.
    A page is given as the texts of its `<p>` elements, in document order:
    those inside `<body>` for the subject, the register number and the
    resolution, and those of the whole document for the preparers. */
module AgendaItem {
  import opened Wrappers
  import opened Text
  import opened Whitespace
  import opened Names
  import opened Scan

  // ---------------------------------------------------------------------
  // Subject

  /** The pattern `"%d " % number`: the item number in decimal and a space. */
  function SubjectPrefix(number: nat): string {
    Dec(number) + " "
  }

  /** A subject is not empty, and starts and ends with no whitespace. */
  predicate SubjectShape(s: string) {
    |s| > 0 && s[0] !in ReWs && !IsPySpace(s[|s| - 1])
  }

  /** After a prefix ending in a space, a trimmed text goes on with a
      character that is not whitespace, and what follows the prefix ends
      as the text does. */
  lemma AfterSpacePrefix(t: string, prefix: string)
    requires TrimShape(t)
    requires |prefix| > 0 && prefix[|prefix| - 1] == ' ' && StartsWith(t, prefix)
    ensures SubjectShape(t[|prefix|..])
  {
    assert t[|prefix| - 1] == ' ' && CollapsedAt(t, ReWs, |prefix| - 1);
    var s := t[|prefix|..];
    assert s[|s| - 1] == t[|t| - 1];
  }

  /** The texts that start with `prefix`. */
  function Opens(prefix: string): string -> bool {
    t => StartsWith(t, prefix)
  }

  /** `_parse_agendaitem_subject`: the first trimmed paragraph that starts
      with the item number and a space gives the rest of that paragraph,
      which is never empty and starts and ends with no whitespace. */
  function Subject(paras: seq<string>, number: nat): (r: Option<string>)
    ensures r.Some? ==> SubjectShape(r.value)
  {
    var texts := Trimmed(paras);
    var prefix := SubjectPrefix(number);
    match FirstIndex(texts, Opens(prefix))
    case None => None
    case Some(i) => Some(SubjectAt(paras, i, number))
  }

  /** The rest of paragraph `i` after the number and the space. */
  function SubjectAt(paras: seq<string>, i: nat, number: nat): (r: string)
    requires i < |paras| && StartsWith(Trimmed(paras)[i], SubjectPrefix(number))
    ensures SubjectShape(r)
  {
    var prefix := SubjectPrefix(number);
    TrimmedAt(paras, i);
    AfterSpacePrefix(Trimmed(paras)[i], prefix);
    Trimmed(paras)[i][|prefix|..]
  }

  /** Only the first paragraph that starts with the number counts. */
  lemma SubjectFirstMatch(paras: seq<string>, number: nat, i: nat)
    requires i < |paras| && StartsWith(Trimmed(paras)[i], SubjectPrefix(number))
    requires forall j :: 0 <= j < i ==> !StartsWith(Trimmed(paras)[j], SubjectPrefix(number))
    ensures Subject(paras, number) == Some(Trimmed(paras)[i][|SubjectPrefix(number)|..])
  {
    FirstIndexAt(Trimmed(paras), Opens(SubjectPrefix(number)), i);
  }

  /** There is no subject exactly when no paragraph starts with the number. */
  lemma SubjectAbsent(paras: seq<string>, number: nat)
    ensures Subject(paras, number).None? ==>
              forall i :: 0 <= i < |paras| ==> !StartsWith(Trimmed(paras)[i], SubjectPrefix(number))
    ensures (forall i :: 0 <= i < |paras| ==> !StartsWith(Trimmed(paras)[i], SubjectPrefix(number))) ==>
              Subject(paras, number).None?
  {
    FirstIndexNone(Trimmed(paras), Opens(SubjectPrefix(number)));
  }

  /** A heading written as the number, a space and a trimmed title gives
      back that title. */
  lemma SubjectOfHeading(number: nat, title: string)
    requires |title| > 0 && TrimShape(title)
    ensures Subject([SubjectPrefix(number) + title], number) == Some(title)
  {
    var d := Dec(number);
    var heading := SubjectPrefix(number) + title;
    assert Collapsed(d, ReWs) by {
      forall i | 0 <= i < |d|
        ensures CollapsedAt(d, ReWs, i)
      {
        assert d[i] in Digits;
        if i + 1 < |d| {
          assert d[i + 1] in Digits;
        }
      }
    }
    assert !IsPySpace(d[0]) by {
      assert d[0] in Digits;
    }
    assert title[0] !in ReWs by {
      assert CollapsedAt(title, ReWs, 0);
    }
    CollapsedConcat(d, " ", ReWs);
    CollapsedConcat(d + " ", title, ReWs);
    assert heading[0] == d[0] && heading[|heading| - 1] == title[|title| - 1];
    TrimWsFixed(heading);
    assert Trimmed([heading]) == [heading];
    SubjectFirstMatch([heading], number, 0);
    assert heading[..|d + " "|] == d + " ";
    assert heading[|d + " "|..] == title;
  }

  // ---------------------------------------------------------------------
  // Register number (Dnro)

  /** The two numbers of `_RE_DNRO` and the optional whitespace character
      before the slash, all exactly as written. */
  datatype DnroParts = DnroParts(number: string, sep: string, year: string)

  predicate ValidDnro(p: DnroParts) {
    && |p.number| > 0 && AllIn(p.number, Digits)
    && |p.sep| <= 1 && AllIn(p.sep, ReWs)
    && |p.year| > 0 && AllIn(p.year, Digits)
  }

  /** Group 1 of the match: the register number as it appears. */
  function Render(p: DnroParts): string {
    p.number + (p.sep + (['/'] + p.year))
  }

  const DnroLead: string := "Dnro "

  /** The value `_parse_agendaitem_dnro` treats as no register number. */
  const DnroSentinel: string := "0/00"

  /** What is left after a successful read cannot start with a digit:
      the digit loops of the pattern are greedy. */
  predicate NoDigitNext(rest: string) {
    |rest| == 0 || rest[0] !in Digits
  }

  /** `/\d+`: a slash and the year digits at the start of `s`. */
  function ReadYear(s: string): (r: Option<string>)
    ensures r.Some? ==> |r.value| > 0 && AllIn(r.value, Digits)
    ensures r.Some? ==> StartsWith(s, ['/'] + r.value) && NoDigitNext(s[|['/'] + r.value|..])
  {
    if |s| == 0 || s[0] != '/' then None
    else
      var year := TakeRun(s[1..], Digits);
      if |year| == 0 then None
      else
        assert StartsWith(s, ['/'] + year) && s[|['/'] + year|..] == SkipRun(s[1..], Digits) by {
          ConcatParts(year, SkipRun(s[1..], Digits));
          StartsWithConcat(s, ['/'], year);
        }
        Some(year)
  }

  /** `[\s\xa0\xad]?/\d+`: a separator character is taken when there is
      one; giving it back cannot help, since the slash must follow. */
  function ReadSepYear(s: string): (r: Option<(string, string)>)
    ensures r.Some? ==> |r.value.0| <= 1 && AllIn(r.value.0, ReWs) && |r.value.1| > 0 && AllIn(r.value.1, Digits)
    ensures r.Some? ==> var read := r.value.0 + (['/'] + r.value.1);
                        StartsWith(s, read) && NoDigitNext(s[|read|..])
  {
    var sep := if |s| > 0 && s[0] in ReWs then s[..1] else [];
    match ReadYear(s[|sep|..])
    case None => None
    case Some(year) =>
      assert StartsWith(s, sep);
      StartsWithConcat(s, sep, ['/'] + year);
      Some((sep, year))
  }

  /** `\d+[\s\xa0\xad]?/\d+`, group 1 of `_RE_DNRO`, at the start of `s`. */
  function ReadDnro(s: string): (r: Option<DnroParts>)
    ensures r.Some? ==> ValidDnro(r.value)
    ensures r.Some? ==> StartsWith(s, Render(r.value)) && NoDigitNext(s[|Render(r.value)|..])
  {
    var number := TakeRun(s, Digits);
    if |number| == 0 then None
    else
      var s1 := SkipRun(s, Digits);
      match ReadSepYear(s1)
      case None => None
      case Some((sep, year)) =>
        var p := DnroParts(number, sep, year);
        ConcatParts(number, s1);
        StartsWithConcat(s, number, sep + (['/'] + year));
        Some(p)
  }

  /** `_RE_DNRO.match(t)`: "Dnro " and then the register number, at the
      start of `t`. The text starts with the lead and the register number,
      and no digit follows them. */
  function MatchDnro(t: string): (r: Option<DnroParts>)
    ensures r.Some? ==> ValidDnro(r.value)
    ensures r.Some? ==> StartsWith(t, DnroLead) && StartsWith(t[|DnroLead|..], Render(r.value))
    ensures r.Some? ==> NoDigitNext(t[|DnroLead|..][|Render(r.value)|..])
  {
    if StartsWith(t, DnroLead) then ReadDnro(t[|DnroLead|..]) else None
  }

  lemma ReadYearOf(year: string, rest: string)
    requires |year| > 0 && AllIn(year, Digits) && NoDigitNext(rest)
    ensures ReadYear(['/'] + (year + rest)) == Some(year)
  {
    var s := ['/'] + (year + rest);
    assert s[1..] == year + rest;
    RunSplitsAtBoundary(year, rest, Digits);
  }

  lemma ReadSepYearOf(sep: string, year: string, rest: string)
    requires |sep| <= 1 && AllIn(sep, ReWs) && |year| > 0 && AllIn(year, Digits) && NoDigitNext(rest)
    ensures ReadSepYear(sep + (['/'] + (year + rest))) == Some((sep, year))
  {
    var after := ['/'] + (year + rest);
    var s := sep + after;
    ConcatParts(sep, after);
    if |sep| == 1 {
      assert s[..1] == sep;
    } else {
      assert s[0] == '/';
    }
    ReadYearOf(year, rest);
  }

  /** Every register number is read back from its text, whatever follows
      it but a digit. */
  lemma ReadDnroOf(p: DnroParts, rest: string)
    requires ValidDnro(p) && NoDigitNext(rest)
    ensures ReadDnro(Render(p) + rest) == Some(p)
  {
    var yearRest := p.year + rest;
    var after := p.sep + (['/'] + yearRest);
    var s := Render(p) + rest;
    assert s == p.number + after by {
      ConcatAssoc(p.number, p.sep + (['/'] + p.year), rest);
      ConcatAssoc(p.sep, ['/'] + p.year, rest);
      ConcatAssoc(['/'], p.year, rest);
    }
    assert after[0] !in Digits by {
      if |p.sep| == 1 {
        assert after[0] == p.sep[0] && p.sep[0] in ReWs;
      } else {
        assert after[0] == '/';
      }
    }
    RunSplitsAtBoundary(p.number, after, Digits);
    ReadSepYearOf(p.sep, p.year, rest);
  }

  /** The paragraph text "Dnro " and a register number is matched back,
      whatever follows but a digit. */
  lemma MatchDnroOfParts(p: DnroParts, rest: string)
    requires ValidDnro(p) && NoDigitNext(rest)
    ensures MatchDnro(DnroLead + (Render(p) + rest)) == Some(p)
  {
    ConcatParts(DnroLead, Render(p) + rest);
    ReadDnroOf(p, rest);
  }

  /** The first paragraph, trimmed, that `_RE_DNRO` matches (the first
      entry of the `dnros` list). */
  function FirstDnro(paras: seq<string>): (r: Option<DnroParts>)
    ensures r.Some? ==> ValidDnro(r.value)
  {
    var texts := Trimmed(paras);
    match FirstIndex(texts, Found(MatchDnro))
    case None => None
    case Some(i) => MatchDnro(texts[i])
  }

  /** `_parse_agendaitem_dnro`: the register number of the first matching
      paragraph, kept as written (a whitespace character before the slash
      stays), unless there is none or it is the placeholder "0/00". */
  function Dnro(paras: seq<string>): (r: Option<string>)
    ensures r.Some? ==> r.value != DnroSentinel
  {
    match FirstDnro(paras)
    case None => None
    case Some(p) => if Render(p) == DnroSentinel then None else Some(Render(p))
  }

  /** The first matching paragraph decides; later ones are ignored. */
  lemma FirstDnroIsFirst(paras: seq<string>, i: nat)
    requires i < |paras| && MatchDnro(Trimmed(paras)[i]).Some?
    requires forall j :: 0 <= j < i ==> MatchDnro(Trimmed(paras)[j]).None?
    ensures FirstDnro(paras) == MatchDnro(Trimmed(paras)[i])
    ensures Dnro(paras) == if Render(MatchDnro(Trimmed(paras)[i]).value) == DnroSentinel then None
                           else Some(Render(MatchDnro(Trimmed(paras)[i]).value))
  {
    FirstIndexAt(Trimmed(paras), Found(MatchDnro), i);
  }

  /** No paragraph gives a register number exactly when none matches. */
  lemma FirstDnroAbsent(paras: seq<string>)
    ensures FirstDnro(paras).None? ==> forall i :: 0 <= i < |paras| ==> MatchDnro(Trimmed(paras)[i]).None?
    ensures (forall i :: 0 <= i < |paras| ==> MatchDnro(Trimmed(paras)[i]).None?) ==> FirstDnro(paras).None?
  {
    FirstIndexNone(Trimmed(paras), Found(MatchDnro));
  }

  /** No register number is reported when no paragraph has one, or when the
      first one is the placeholder. */
  lemma DnroAbsent(paras: seq<string>)
    ensures Dnro(paras).None? <==> FirstDnro(paras).None? || FirstDnro(paras).value == DnroParts("0", "", "00")
  {
    if FirstDnro(paras).Some? {
      SentinelParts(FirstDnro(paras).value);
    }
  }

  /** The placeholder has exactly one spelling. */
  lemma SentinelParts(p: DnroParts)
    requires ValidDnro(p)
    ensures Render(p) == DnroSentinel <==> p == DnroParts("0", "", "00")
  {
    if Render(p) == DnroSentinel {
      var r := Render(p);
      assert r[|p.number| + |p.sep|] == '/';
      assert forall k :: 0 <= k < |p.number| ==> r[k] == p.number[k];
      assert p.number == r[..1];
      assert p.year == r[2..];
    }
  }

  /** A register number written with a space before the slash keeps it. */
  lemma DnroKeepsSeparator()
    ensures MatchDnro("Dnro 123 /2013") == Some(DnroParts("123", " ", "2013"))
  {
    var p := DnroParts("123", " ", "2013");
    assert AllIn(p.number, Digits) && AllIn(p.year, Digits);
    MatchDnroOfParts(p, "");
    assert Render(p) + "" == Render(p);
    SeparatorText();
  }

  lemma SeparatorText()
    ensures DnroLead + Render(DnroParts("123", " ", "2013")) == "Dnro 123 /2013"
  {
  }

  // ---------------------------------------------------------------------
  // Preparers

  const PreparerLead: string := "Asian valmisteli"

  /** `_parse_agendaitem_preparers`: the names in the first trimmed
      paragraph that starts with "Asian valmisteli", none if there is no
      such paragraph. */
  function Preparers(paras: seq<string>): (r: seq<string>)
    ensures AllNames(r)
  {
    var texts := Trimmed(paras);
    match FirstIndex(texts, Opens(PreparerLead))
    case None => []
    case Some(i) => FindNames(texts[i])
  }

  /** Only the first "Asian valmisteli" paragraph is read. */
  lemma PreparersFirstParagraph(paras: seq<string>, i: nat)
    requires i < |paras| && StartsWith(Trimmed(paras)[i], PreparerLead)
    requires forall j :: 0 <= j < i ==> !StartsWith(Trimmed(paras)[j], PreparerLead)
    ensures Preparers(paras) == FindNames(Trimmed(paras)[i])
  {
    FirstIndexAt(Trimmed(paras), Opens(PreparerLead), i);
  }

  /** Without an "Asian valmisteli" paragraph there are no preparers. */
  lemma PreparersAbsent(paras: seq<string>)
    requires forall j :: 0 <= j < |paras| ==> !StartsWith(Trimmed(paras)[j], PreparerLead)
    ensures Preparers(paras) == []
  {
    FirstIndexNone(Trimmed(paras), Opens(PreparerLead));
  }

  // ---------------------------------------------------------------------
  // Resolution

  const DecisionWord: string := "Päätös"

  /** `Päätös[\s\xa0\xad]+(.*)` at the start of `s`: the word, at least one
      whitespace character, and group 1 is everything after that run (the
      pattern is compiled with `re.DOTALL`). Group 1 is a tail of `s` that
      does not start with whitespace. */
  function ReadDecision(s: string): (r: Option<string>)
    ensures r.Some? ==> StartsWith(s, DecisionWord) && |r.value| < |s| - |DecisionWord|
    ensures r.Some? ==> |r.value| == 0 || r.value[0] !in ReWs
  {
    if !StartsWith(s, DecisionWord) then None
    else
      var after := s[|DecisionWord|..];
      if |after| == 0 || after[0] !in ReWs then None
      else
        var g := SkipRun(after, ReWs);
        assert |TakeRun(after, ReWs)| > 0;
        Some(g)
  }

  /** Group 1 is a tail of the text it is read from. */
  lemma ReadDecisionTail(s: string)
    requires ReadDecision(s).Some?
    ensures EndsWith(s, ReadDecision(s).value)
  {
    var after := s[|DecisionWord|..];
    assert EndsWith(s, after);
    SkipRunEndsWith(after, ReWs);
    EndsWithTrans(s, after, ReadDecision(s).value);
  }

  /** `re.match(ur"^[\s\xa0\xad]*Päätös[\s\xa0\xad]+(.*)", text,
      re.DOTALL)`: optional leading whitespace, then `ReadDecision`. */
  function MatchResolution(text: string): (r: Option<string>)
    ensures r.Some? ==> |r.value| < |text|
    ensures r.Some? ==> |r.value| == 0 || r.value[0] !in ReWs
  {
    ReadDecision(SkipRun(text, ReWs))
  }

  lemma MatchResolutionTail(text: string)
    requires MatchResolution(text).Some?
    ensures EndsWith(text, MatchResolution(text).value)
  {
    var s := SkipRun(text, ReWs);
    SkipRunEndsWith(text, ReWs);
    ReadDecisionTail(s);
    EndsWithTrans(text, s, MatchResolution(text).value);
  }

  lemma ReadDecisionOf(gap: string, body: string)
    requires AllIn(gap, ReWs) && |gap| > 0
    requires |body| == 0 || body[0] !in ReWs
    ensures ReadDecision(DecisionWord + (gap + body)) == Some(body)
  {
    ConcatParts(DecisionWord, gap + body);
    assert (gap + body)[0] == gap[0];
    RunSplitsAtBoundary(gap, body, ReWs);
  }

  /** Every text laid out as whitespace, the word, whitespace and a body is
      matched, and the body is group 1. */
  lemma MatchResolutionOf(lead: string, gap: string, body: string)
    requires AllIn(lead, ReWs) && AllIn(gap, ReWs) && |gap| > 0
    requires |body| == 0 || body[0] !in ReWs
    ensures MatchResolution(lead + (DecisionWord + (gap + body))) == Some(body)
  {
    var s := DecisionWord + (gap + body);
    assert s[0] == 'P';
    RunSplitsAtBoundary(lead, s, ReWs);
    ReadDecisionOf(gap, body);
  }

  /** Group 1 of the resolution pattern, trimmed, for a matching
      paragraph. */
  function TrimmedResolution(text: string): (r: Option<string>)
    ensures r.Some? <==> MatchResolution(text).Some?
    ensures r.Some? ==> TrimShape(r.value)
  {
    match MatchResolution(text)
    case None => None
    case Some(g) => Some(TrimWs(g))
  }

  lemma TrimmedResolutionOf(text: string)
    requires MatchResolution(text).Some?
    ensures TrimmedResolution(text) == Some(TrimWs(MatchResolution(text).value))
  {
  }

  /** `_parse_agendaitem_resolution`: every matching paragraph overwrites
      the value found so far; the result is trimmed. */
  function Resolution(paras: seq<string>): (r: Option<string>)
    ensures r.Some? ==> TrimShape(r.value)
  {
    OverwriteIsLast(paras, TrimmedResolution, None);
    Overwrite(paras, TrimmedResolution, None)
  }

  /** The overwriting loop keeps the value of the last paragraph with one. */
  lemma ResolutionOfLast(paras: seq<string>, i: nat)
    requires LastIndex(paras, Found(TrimmedResolution)) == Some(i)
    ensures Resolution(paras) == TrimmedResolution(paras[i])
  {
    OverwriteIsLast(paras, TrimmedResolution, None);
  }

  /** A paragraph has a trimmed resolution exactly when it matches. */
  lemma ResolutionFound()
    ensures forall x :: Found(TrimmedResolution)(x) == Found(MatchResolution)(x)
  {
    forall x
      ensures Found(TrimmedResolution)(x) == Found(MatchResolution)(x)
    {
      assert TrimmedResolution(x).Some? == MatchResolution(x).Some?;
    }
  }

  /** The last matching paragraph decides. */
  lemma ResolutionLastMatch(paras: seq<string>, i: nat)
    requires i < |paras| && MatchResolution(paras[i]).Some?
    requires forall j :: i < j < |paras| ==> MatchResolution(paras[j]).None?
    ensures Resolution(paras) == Some(TrimWs(MatchResolution(paras[i]).value))
  {
    LastIndexAt(paras, Found(MatchResolution), i);
    ResolutionFound();
    LastIndexSame(paras, Found(TrimmedResolution), Found(MatchResolution));
    ResolutionOfLast(paras, i);
    TrimmedResolutionOf(paras[i]);
  }

  /** There is no resolution exactly when no paragraph matches. */
  lemma ResolutionAbsent(paras: seq<string>)
    ensures Resolution(paras).None? ==> forall j :: 0 <= j < |paras| ==> MatchResolution(paras[j]).None?
    ensures (forall j :: 0 <= j < |paras| ==> MatchResolution(paras[j]).None?) ==> Resolution(paras).None?
  {
    OverwriteIsLast(paras, TrimmedResolution, None);
    LastIndexNone(paras, Found(TrimmedResolution));
  }

  // ---------------------------------------------------------------------
  // The whole item

  const ItemLead: string := "htmtxt"
  const ItemTail: string := ".htm"

  /** `re.match(r"htmtxt([0-9]+)\.htm", filename).group(1)`: the digits of
      the file name, followed by ".htm" (anything may come after that). */
  function ItemDigits(filename: string): (r: Option<string>)
    ensures r.Some? ==> |r.value| > 0 && AllIn(r.value, Digits)
    ensures r.Some? ==> StartsWith(filename, ItemLead + r.value + ItemTail)
  {
    if !StartsWith(filename, ItemLead) then None
    else
      var rest := filename[|ItemLead|..];
      var digits := TakeRun(rest, Digits);
      var tail := SkipRun(rest, Digits);
      if |digits| == 0 || !StartsWith(tail, ItemTail) then None
      else
        assert StartsWith(filename, ItemLead + digits + ItemTail) by {
          ConcatParts(digits, tail);
          StartsWithConcat(filename, ItemLead, digits);
          StartsWithConcat(filename, ItemLead + digits, ItemTail);
        }
        Some(digits)
  }

  /** The item number `int(...)` reads from the file name. */
  function ItemNumber(filename: string): (r: Option<nat>)
    ensures r.Some? <==> ItemDigits(filename).Some?
    ensures r.Some? ==> r.value == DigitsValue(ItemDigits(filename).value)
  {
    match ItemDigits(filename)
    case None => None
    case Some(d) => Some(DigitsValue(d))
  }

  /** The file name of item `n`, with or without leading zeros, gives `n`
      back. */
  lemma ItemNumberOfName(n: nat, width: nat, rest: string)
    requires width > 0 && n < Pow10(width)
    ensures ItemNumber(ItemLead + Padded(n, width) + ItemTail + rest) == Some(n)
    ensures ItemNumber(ItemLead + Dec(n) + ItemTail + rest) == Some(n)
  {
    assert ItemDigits(ItemLead + Padded(n, width) + ItemTail + rest) == Some(Padded(n, width)) by {
      DigitsThenTail(Padded(n, width), rest);
    }
    PaddedRoundTrip(n, width);
    assert ItemDigits(ItemLead + Dec(n) + ItemTail + rest) == Some(Dec(n)) by {
      DigitsThenTail(Dec(n), rest);
    }
    DecRoundTrip(n);
  }

  lemma DigitsThenTail(d: string, rest: string)
    requires |d| > 0 && AllIn(d, Digits)
    ensures ItemDigits(ItemLead + d + ItemTail + rest) == Some(d)
  {
    var filename := ItemLead + d + ItemTail + rest;
    assert filename[|ItemLead|..] == d + (ItemTail + rest);
    RunSplitsAtBoundary(d, ItemTail + rest, Digits);
    assert StartsWith(ItemTail + rest, ItemTail);
  }

  /** What `_parse_agendaitem` returns. */
  datatype Item = Item(
    number: nat,
    dnro: Option<string>,
    preparers: seq<string>,
    subject: Option<string>,
    resolution: Option<string>)

  /** What the extractors promise of the fields: no placeholder register
      number, only names as preparers, and a subject and a resolution in
      trimmed shape. */
  predicate ItemShape(item: Item) {
    && item.dnro != Some(DnroSentinel)
    && AllNames(item.preparers)
    && (item.subject.Some? ==> SubjectShape(item.subject.value))
    && (item.resolution.Some? ==> TrimShape(item.resolution.value))
  }

  /** The fields `_parse_agendaitem` reads once the number is known. */
  function ItemOf(number: nat, docParas: seq<string>, bodyParas: seq<string>): (item: Item)
    ensures item.number == number && ItemShape(item)
  {
    var d, p, s, res := Dnro(bodyParas), Preparers(docParas), Subject(bodyParas, number), Resolution(bodyParas);
    assert d != Some(DnroSentinel);
    assert AllNames(p);
    assert s.Some? ==> SubjectShape(s.value);
    assert res.Some? ==> TrimShape(res.value);
    Item(number, d, p, s, res)
  }

  /** `_parse_agendaitem` on a file name, the paragraphs of the whole
      document and those inside `<body>`. A file name the number pattern
      does not match is an error, as the Python code fails on it. */
  function ParseItem(filename: string, docParas: seq<string>, bodyParas: seq<string>): (r: Option<Item>)
    ensures r.Some? <==> ItemDigits(filename).Some?
    ensures r.Some? ==> r.value.number == DigitsValue(ItemDigits(filename).value)
    ensures r.Some? ==> ItemShape(r.value)
  {
    match ItemNumber(filename)
    case None => None
    case Some(n) => Some(ItemOf(n, docParas, bodyParas))
  }
}

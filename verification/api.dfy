/** The query-argument handling of the read API (klupung/api.py): the
    unsigned and the choice arguments with the error they raise, the page
    window with its next and previous links, the sort order, and the slug of
    a policymaker's abbreviation. A missing argument and an empty one are
    the same to the API, so both are given as the empty string. */
module Api {
  import opened Wrappers
  import opened Text
  import opened Scan

  // ---------------------------------------------------------------------
  // Errors

  /** `InvalidArgumentError(arg, name, expected)`, and the `IndexError` of
      `choices[0]` when there are no choices. */
  datatype ApiError = InvalidArgument(arg: string, name: string, expected: string) | NoChoices

  /** The HTTP status the error is reported with. */
  function Code(e: ApiError): (code: int)
    requires e.InvalidArgument?
    ensures code == 400
  {
    400
  }

  /** `"Invalid value '%s' for argument '%s', expected %s."`. */
  function Message(e: ApiError): (m: string)
    requires e.InvalidArgument?
    ensures StartsWith(m, "Invalid value '" + e.arg)
  {
    var head := "Invalid value '" + e.arg;
    var m := head + "' for argument '" + e.name + "', expected " + e.expected + ".";
    assert m[..|head|] == head;
    m
  }

  // ---------------------------------------------------------------------
  // Unsigned arguments

  const PositiveInteger: string := "a positive integer"

  /** `str()` of an integer. */
  function IntText(n: int): (r: string)
    ensures n >= 0 ==> r == Dec(n)
  {
    if n < 0 then "-" + Dec(-n) else Dec(n)
  }

  /** `_get_uint_arg(name, default)`: the default for a missing or empty
      argument, else `int()` of the argument; an argument that is no
      integer or is negative is an invalid argument. Zero is accepted. */
  function GetUintArg(arg: string, name: string, default: int): (r: Result<nat, ApiError>)
    ensures r.Ok? <==> if arg == "" then default >= 0 else PyInt(arg).Some? && PyInt(arg).value >= 0
    ensures r.Ok? && arg == "" ==> r.value == default
    ensures r.Ok? && arg != "" ==> PyInt(arg) == Some(r.value as int)
    ensures r.Err? ==> r.error == InvalidArgument(if arg == "" then IntText(default) else arg, name, PositiveInteger)
  {
    if arg == "" then
      if default < 0 then Err(InvalidArgument(IntText(default), name, PositiveInteger)) else Ok(default)
    else
      match PyInt(arg)
      case None => Err(InvalidArgument(arg, name, PositiveInteger))
      case Some(v) => if v < 0 then Err(InvalidArgument(arg, name, PositiveInteger)) else Ok(v)
  }

  /** Every numeral is read back as its value. */
  lemma GetUintArgOfDec(n: nat, name: string, default: int)
    ensures GetUintArg(Dec(n), name, default) == Ok(n)
  {
    PyIntReadsDec(n);
  }

  /** A negative number is rejected, with the argument as given. */
  lemma GetUintArgNegative(n: nat, name: string, default: int)
    requires n > 0
    ensures GetUintArg("-" + Dec(n), name, default) == Err(InvalidArgument("-" + Dec(n), name, PositiveInteger))
  {
    assert PyInt("-" + Dec(n)) == Some(-(n as int)) by {
      PyIntReadsDec(n);
    }
  }

  /** An argument that `int()` does not read is rejected. */
  lemma GetUintArgNotANumber(arg: string, name: string, default: int)
    requires arg != "" && PyInt(arg).None?
    ensures GetUintArg(arg, name, default) == Err(InvalidArgument(arg, name, PositiveInteger))
  {
  }

  /** `int()` lets whitespace separate the sign from the digits, so
      `limit=+ 5` is the limit 5. */
  lemma GetUintArgSpaceAfterSign()
    ensures GetUintArg("+ 5", "limit", 20) == Ok(5)
  {
    PyIntSpaceAfterPlus();
  }

  // ---------------------------------------------------------------------
  // The page window

  const DefaultLimit: nat := 20
  const MaxLimit: nat := 1000

  /** The `limit` and `offset` a listing is read with. */
  datatype Window = Window(limit: nat, offset: nat)

  /** `limit = min(_get_uint_arg("limit", 20), 1000)` and then
      `offset = _get_uint_arg("offset", 0)`: an invalid limit is reported
      before the offset is looked at. */
  function PageWindow(limitArg: string, offsetArg: string): (r: Result<Window, ApiError>)
    ensures r.Ok? ==> r.value.limit <= MaxLimit
    ensures r.Err? ==> r.error.InvalidArgument?
    ensures r.Err? && GetUintArg(limitArg, "limit", DefaultLimit).Ok? ==> r.error.name == "offset"
  {
    match GetUintArg(limitArg, "limit", DefaultLimit)
    case Err(e) => Err(e)
    case Ok(limit) =>
      match GetUintArg(offsetArg, "offset", 0)
      case Err(e) => Err(e)
      case Ok(offset) => Ok(Window(if limit < MaxLimit then limit else MaxLimit, offset))
  }

  /** Without arguments the window is the first twenty entries. */
  lemma PageWindowDefault()
    ensures PageWindow("", "") == Ok(Window(DefaultLimit, 0))
  {
  }

  /** Numerals give the window they spell, the limit capped at 1000. */
  lemma PageWindowOf(limit: nat, offset: nat)
    ensures PageWindow(Dec(limit), Dec(offset)) == Ok(Window(if limit < MaxLimit then limit else MaxLimit, offset))
  {
    GetUintArgOfDec(limit, "limit", DefaultLimit);
    GetUintArgOfDec(offset, "offset", 0);
  }

  /** The offset of the next page, when entries remain after this one. */
  function NextOffset(w: Window, total: nat): (r: Option<nat>)
    ensures r.Some? <==> w.offset + w.limit < total
    ensures r.Some? ==> w.offset <= r.value < total
    ensures r.Some? ==> r.value - w.offset == w.limit
  {
    if w.limit + w.offset < total then Some(w.offset + w.limit) else None
  }

  /** The offset of the previous page, `max(offset - limit, 0)`, when this
      page does not start at the first entry. */
  function PrevOffset(w: Window): (r: Option<nat>)
    ensures r.Some? <==> w.offset > 0
    ensures r.Some? ==> r.value < w.offset || w.limit == 0
    ensures r.Some? ==> r.value + w.limit >= w.offset
    ensures r.Some? && w.offset <= w.limit ==> r.value == 0
  {
    if w.offset > 0 then Some(if w.offset - w.limit > 0 then w.offset - w.limit else 0) else None
  }

  /** Following the next link and then the previous link comes back to the
      same page. */
  lemma PrevUndoesNext(w: Window, total: nat)
    requires NextOffset(w, total).Some? && w.offset + w.limit > 0
    ensures PrevOffset(Window(w.limit, NextOffset(w, total).value)) == Some(w.offset)
  {
  }

  /** Following the previous link from a page that starts a whole page or
      more into the listing, and then the next link, comes back too. */
  lemma NextUndoesPrev(w: Window, total: nat)
    requires w.offset > 0 && w.limit <= w.offset < total
    ensures NextOffset(Window(w.limit, PrevOffset(w).value), total) == Some(w.offset)
  {
  }

  /** With `limit=0` the next link points at the page itself. */
  lemma NextWithoutLimit(w: Window, total: nat)
    requires w.limit == 0 && w.offset < total
    ensures NextOffset(w, total) == Some(w.offset)
  {
  }

  // ---------------------------------------------------------------------
  // Choice arguments and the sort order

  /** `repr()` of a choice: the text in single quotes. */
  function Repr(s: string): (r: string)
    ensures |r| == |s| + 2 && r[0] == '\'' && r[|r| - 1] == '\''
  {
    "'" + s + "'"
  }

  /** `" or ".join([repr(s) for s in choices])`. */
  function ChoicesText(choices: seq<string>): (r: string)
    ensures |choices| == 0 <==> r == ""
    decreases |choices|
  {
    if |choices| == 0 then ""
    else if |choices| == 1 then Repr(choices[0])
    else Repr(choices[0]) + " or " + ChoicesText(choices[1..])
  }

  /** `_get_choice_arg(name, choices)`: the first choice for a missing or
      empty argument, else the argument when it is one of the choices. */
  function GetChoiceArg(arg: string, name: string, choices: seq<string>): (r: Result<string, ApiError>)
    ensures r.Ok? ==> r.value in choices
    ensures r.Ok? && arg != "" ==> r.value == arg
    ensures r.Ok? && arg == "" ==> r.value == choices[0]
    ensures r.Err? && arg != "" ==> arg !in choices && r.error == InvalidArgument(arg, name, ChoicesText(choices))
    ensures r.Err? && arg == "" ==> |choices| == 0 && r.error == NoChoices
  {
    if arg == "" then
      if |choices| == 0 then Err(NoChoices) else Ok(choices[0])
    else if arg in choices then Ok(arg)
    else Err(InvalidArgument(arg, name, ChoicesText(choices)))
  }

  /** Every choice is accepted as it is. */
  lemma GetChoiceArgAccepts(c: string, name: string, choices: seq<string>)
    requires c in choices && c != ""
    ensures GetChoiceArg(c, name, choices) == Ok(c)
  {
  }

  /** The choices offered for sorting: each field, and each field with a
      leading `-`. */
  function SortChoices(fields: seq<string>): (r: seq<string>)
    ensures |r| == 2 * |fields|
    decreases |fields|
  {
    if |fields| == 0 then []
    else
      var f := fields[|fields| - 1];
      SortChoices(fields[..|fields| - 1]) + [f, "-" + f]
  }

  /** Choice `2i` is field `i` and choice `2i+1` is field `i` descending. */
  lemma {:induction false} SortChoicesAt(fields: seq<string>, i: nat)
    requires i < |fields|
    ensures SortChoices(fields)[2 * i] == fields[i]
    ensures SortChoices(fields)[2 * i + 1] == "-" + fields[i]
    decreases |fields|
  {
    var init := fields[..|fields| - 1];
    if i < |init| {
      SortChoicesAt(init, i);
      assert init[i] == fields[i];
    }
  }

  /** Every choice is a field or a field with a leading `-`. */
  lemma {:induction false} SortChoicesMembers(fields: seq<string>, c: string)
    requires c in SortChoices(fields)
    ensures c in fields || (|c| > 0 && c[0] == '-' && c[1..] in fields)
    decreases |fields|
  {
    var init := fields[..|fields| - 1];
    var f := fields[|fields| - 1];
    if c in SortChoices(init) {
      SortChoicesMembers(init, c);
      if c in init {
        var j :| 0 <= j < |init| && init[j] == c;
        assert fields[j] == c;
      } else {
        var j :| 0 <= j < |init| && init[j] == c[1..];
        assert fields[j] == c[1..];
      }
    } else {
      assert c == f || c == "-" + f;
      if c == "-" + f {
        assert c[1..] == f;
      }
    }
  }

  /** The sort a choice asks for: on the choice with its leading `-`s
      stripped, descending when it starts with `-`. */
  datatype SortOrder = SortOrder(field: string, descending: bool)

  /** `s.lstrip("-")`. */
  function StripDashes(s: string): (r: string)
    ensures EndsWith(s, r)
    ensures |r| == 0 || r[0] != '-'
    decreases |s|
  {
    if |s| > 0 && s[0] == '-' then StripDashes(s[1..]) else s
  }

  function OrderOf(choice: string): (o: SortOrder)
    ensures o.descending <==> |choice| > 0 && choice[0] == '-'
    ensures |o.field| == 0 || o.field[0] != '-'
  {
    SortOrder(StripDashes(choice), StartsWith(choice, "-"))
  }

  /** A field name, and the same name with `-`, sort on that field, up
      and down. */
  lemma OrderOfField(f: string)
    requires |f| == 0 || f[0] != '-'
    ensures OrderOf(f) == SortOrder(f, false)
    ensures OrderOf("-" + f) == SortOrder(f, true)
  {
    assert ("-" + f)[1..] == f;
  }

  /** No field name starts with a dash. */
  predicate PlainFields(fields: seq<string>) {
    forall i :: 0 <= i < |fields| ==> |fields[i]| == 0 || fields[i][0] != '-'
  }

  /** The sort of a listing. Without sortable fields there is none and
      `order_by` is not read. Otherwise it is the first field ascending
      when the argument is missing, else the order the argument names when
      it is one of the choices, and an invalid argument when it is not. The
      field sorted on is always one of the listing's fields. */
  function Order(arg: string, fields: seq<string>): (r: Result<Option<SortOrder>, ApiError>)
    ensures r == Ok(None) <==> |fields| == 0
    ensures r.Ok? && r.value.Some? && PlainFields(fields) ==> r.value.value.field in fields
    ensures r.Err? ==> arg != "" && arg !in SortChoices(fields)
    ensures r.Err? ==> r.error == InvalidArgument(arg, "order_by", ChoicesText(SortChoices(fields)))
    ensures |fields| > 0 && arg != "" && arg !in SortChoices(fields) ==> r.Err?
  {
    if |fields| == 0 then Ok(None)
    else
      match GetChoiceArg(arg, "order_by", SortChoices(fields))
      case Err(e) => Err(e)
      case Ok(choice) =>
        ChoiceField(fields, choice);
        Ok(Some(OrderOf(choice)))
  }

  /** Every choice sorts on one of the fields. */
  lemma ChoiceField(fields: seq<string>, choice: string)
    requires choice in SortChoices(fields)
    ensures PlainFields(fields) ==> OrderOf(choice).field in fields
  {
    SortChoicesMembers(fields, choice);
    if PlainFields(fields) {
      if choice in fields {
        var j :| 0 <= j < |fields| && fields[j] == choice;
        OrderOfField(choice);
      } else {
        var f := choice[1..];
        var j :| 0 <= j < |fields| && fields[j] == f;
        assert choice == "-" + f;
        OrderOfField(f);
      }
    }
  }

  /** Without `order_by` a listing sorts on its first field, ascending. */
  lemma OrderDefault(fields: seq<string>)
    requires |fields| > 0 && (|fields[0]| == 0 || fields[0][0] != '-')
    ensures Order("", fields) == Ok(Some(SortOrder(fields[0], false)))
  {
    SortChoicesAt(fields, 0);
    OrderOfField(fields[0]);
  }

  /** Each field can be asked for either way. */
  lemma OrderOfChoice(fields: seq<string>, i: nat, descending: bool)
    requires i < |fields| && |fields[i]| > 0 && fields[i][0] != '-'
    ensures Order(if descending then "-" + fields[i] else fields[i], fields) == Ok(Some(SortOrder(fields[i], descending)))
  {
    SortChoicesAt(fields, i);
    OrderOfField(fields[i]);
    var choices := SortChoices(fields);
    assert choices[2 * i] == fields[i] && choices[2 * i + 1] == "-" + fields[i];
  }

  // ---------------------------------------------------------------------
  // _slugify

  /** The class of `_SLUG_PUNCT_RE`. `:`, `;`, `+` and `~` are not in it. */
  const SlugPunct: set<char> := {
    '\t', ' ', '!', '"', '#', '$', '%', '&', '\'', '(', ')', '*', '-', '/',
    '<', '=', '>', '?', '@', '[', '\\', ']', '^', '_', '`', '{', '|', '}',
    ',', '.'}

  /** No character of `w` is in `cls`. */
  predicate NoneIn(w: string, cls: set<char>) {
    forall k :: 0 <= k < |w| ==> w[k] !in cls
  }

  /** `re.split` on a pattern matching maximal runs of `cls` characters:
      the texts between the runs, with an empty text before a leading run
      and after a trailing one. */
  function SplitRuns(s: string, cls: set<char>): (r: seq<string>)
    ensures |r| > 0
    ensures forall i :: 0 <= i < |r| ==> NoneIn(r[i], cls)
    decreases |s|
  {
    if |s| == 0 then [""]
    else if s[0] in cls then [""] + SplitRuns(SkipRun(s[1..], cls), cls)
    else
      var rest := SplitRuns(s[1..], cls);
      assert NoneIn([s[0]] + rest[0], cls) by {
        assert forall k :: 1 <= k < |rest[0]| + 1 ==> ([s[0]] + rest[0])[k] == rest[0][k - 1];
      }
      [[s[0]] + rest[0]] + rest[1..]
  }

  /** A text without a run is one piece. */
  lemma {:induction false} SplitRunsNone(p: string, cls: set<char>)
    requires NoneIn(p, cls)
    ensures SplitRuns(p, cls) == [p]
    decreases |p|
  {
    if |p| > 0 {
      assert NoneIn(p[1..], cls) by {
        assert forall k :: 0 <= k < |p| - 1 ==> p[1..][k] == p[k + 1];
      }
      SplitRunsNone(p[1..], cls);
      assert [p[0]] + p[1..] == p;
    }
  }

  /** A piece, one separator and a text starting outside the class. */
  lemma {:induction false} SplitRunsAfterPiece(p: string, sep: char, t: string, cls: set<char>)
    requires NoneIn(p, cls) && sep in cls
    requires |t| > 0 && t[0] !in cls
    ensures SplitRuns(p + [sep] + t, cls) == [p] + SplitRuns(t, cls)
    decreases |p|
  {
    if |p| == 0 {
      assert p + [sep] + t == [sep] + t;
      assert ([sep] + t)[1..] == t;
    } else {
      assert NoneIn(p[1..], cls) by {
        assert forall k :: 0 <= k < |p| - 1 ==> p[1..][k] == p[k + 1];
      }
      assert (p + [sep] + t)[1..] == p[1..] + [sep] + t;
      SplitRunsAfterPiece(p[1..], sep, t, cls);
      assert [p[0]] + p[1..] == p;
    }
  }

  /** Words joined by a class character split back into the words. */
  lemma {:induction false} SplitRunsJoin(words: seq<string>, sep: char, cls: set<char>)
    requires |words| > 0 && sep in cls
    requires forall i :: 0 <= i < |words| ==> |words[i]| > 0 && NoneIn(words[i], cls)
    ensures SplitRuns(Join(words, sep), cls) == words
    decreases |words|
  {
    if |words| == 1 {
      SplitRunsNone(words[0], cls);
    } else {
      var t := Join(words[1..], sep);
      SplitRunsJoin(words[1..], sep, cls);
      assert |t| > 0 && t[0] !in cls by {
        JoinHead(words[1..], sep);
      }
      SplitRunsAfterPiece(words[0], sep, t, cls);
      assert [words[0]] + words[1..] == words;
    }
  }

  /** A join starts with the first word's first character. */
  lemma JoinHead(words: seq<string>, sep: char)
    requires |words| > 0 && |words[0]| > 0
    ensures |Join(words, sep)| > 0 && Join(words, sep)[0] == words[0][0]
  {
  }

  /** `[f(x) for x in xs]`. */
  function Mapped(xs: seq<string>, f: string -> string): (r: seq<string>)
    ensures |r| == |xs|
    ensures forall i :: 0 <= i < |xs| ==> r[i] == f(xs[i])
  {
    seq(|xs|, i requires 0 <= i < |xs| => f(xs[i]))
  }

  /** The words of a slug: the pieces of the lower-cased text between the
      punctuation runs, each folded to ASCII, the empty ones dropped. */
  function SlugWords(text: string, lower: string -> string, fold: string -> string): (r: seq<string>)
    ensures forall i :: 0 <= i < |r| ==> |r[i]| > 0
  {
    Filter(Mapped(SplitRuns(lower(text), SlugPunct), fold), NonEmpty)
  }

  /** `_slugify(text, delim)`. `lower` is `unicode.lower`, and `fold` is
      `unicodedata.normalize('NFKD', w).encode('ascii', 'ignore')`. */
  function Slugify(text: string, delim: char, lower: string -> string, fold: string -> string): (r: string)
    ensures |SlugWords(text, lower, fold)| == 0 ==> r == ""
  {
    Join(SlugWords(text, lower, fold), delim)
  }

  /** No empty word: splitting a slug at the delimiter gives its words
      back, so it neither starts nor ends with the delimiter nor holds two
      in a row, when no word holds the delimiter. */
  lemma SlugifySplits(text: string, delim: char, lower: string -> string, fold: string -> string)
    requires forall i :: 0 <= i < |SlugWords(text, lower, fold)| ==> delim !in SlugWords(text, lower, fold)[i]
    requires |SlugWords(text, lower, fold)| > 0
    ensures Split(Slugify(text, delim, lower, fold), delim) == SlugWords(text, lower, fold)
    ensures Count(Slugify(text, delim, lower, fold), delim) == |SlugWords(text, lower, fold)| - 1
  {
    var words := SlugWords(text, lower, fold);
    SplitJoin(words, delim);
    JoinCount(words, delim);
  }

  /** A phrase of words that lower-casing and folding leave alone, written
      with punctuation between the words, becomes the words joined by the
      delimiter. */
  lemma SlugifyOfWords(words: seq<string>, sep: char, delim: char, lower: string -> string, fold: string -> string)
    requires |words| > 0 && sep in SlugPunct
    requires forall i :: 0 <= i < |words| ==> |words[i]| > 0 && NoneIn(words[i], SlugPunct)
    requires lower(Join(words, sep)) == Join(words, sep)
    requires forall i :: 0 <= i < |words| ==> fold(words[i]) == words[i]
    ensures Slugify(Join(words, sep), delim, lower, fold) == Join(words, delim)
  {
    SplitRunsJoin(words, sep, SlugPunct);
    var mapped := Mapped(words, fold);
    assert mapped == words;
    FilterAll(words, NonEmpty);
  }

  /** A slug, with a delimiter from the punctuation class, is its own slug
      when lower-casing and folding leave it alone. */
  lemma SlugifyIdempotent(text: string, delim: char, lower: string -> string, fold: string -> string)
    requires delim in SlugPunct
    requires forall w :: fold(fold(w)) == fold(w)
    requires forall i :: 0 <= i < |SlugWords(text, lower, fold)| ==> NoneIn(SlugWords(text, lower, fold)[i], SlugPunct)
    requires |SlugWords(text, lower, fold)| > 0
    requires lower(Slugify(text, delim, lower, fold)) == Slugify(text, delim, lower, fold)
    ensures Slugify(Slugify(text, delim, lower, fold), delim, lower, fold) == Slugify(text, delim, lower, fold)
  {
    var words := SlugWords(text, lower, fold);
    var mapped := Mapped(SplitRuns(lower(text), SlugPunct), fold);
    forall i | 0 <= i < |words|
      ensures fold(words[i]) == words[i]
    {
      FilterMembers(mapped, NonEmpty, words[i]);
      var j :| 0 <= j < |mapped| && mapped[j] == words[i];
    }
    SlugifyOfWords(words, delim, delim, lower, fold);
  }
}

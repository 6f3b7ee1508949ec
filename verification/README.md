# KlupuNG meeting-document scraper and read API, modelled in Dafny

KlupuNG mirrors the meeting minutes of the City of Jyväskylä's governing
bodies (their KTweb publishing system) and turns them into records. This
project models the core of that pipeline as pure functions over strings
and sequences, and proves what each step promises.

- **Fetching** (`klupung/ktweb.py`). An index-row link `<prefix>frmtxt<digits>.htm`
  is rewritten to the agenda-item page `<prefix>htmtxt<digits>.htm` (module
  `Links`). Before each agenda-item download the scraper waits until one
  interval has passed since the index page was downloaded; the clock is a
  real parameter. Every fetched page passes through the HTML sanitiser
  `_cleanup_soup` (module `Sanitizer`).
- **Meeting document**. The agenda-item files of a mirror directory come
  from `Paths.AgendaItemFiles`. The `origin_id` is the last three path
  components (`Paths.OriginId`). The start date and time come from the
  cover page's info lines: the first line that parses wins. When no line
  parses, they are read from the directory names (module `CoverPage`).
- **Agenda item**. The item number is read from the file name. The subject,
  the register number (Dnro), the preparers and the resolution are read
  from the paragraph texts after `_trimws` (modules `AgendaItem`, `Names`
  and `Whitespace`).
- **Read API** (`klupung/api.py`):
  - the `InvalidArgumentError` message;
  - `_get_uint_arg`, built on a model of Python 2's `int()` on text (`Text.PyInt`);
  - `_get_choice_arg`;
  - the limit cap and the next and previous offsets;
  - the sort choices and the `order_by` reading;
  - `_slugify` (module `Api`).
- **Classic scraper** (`classic/klupu/__init__.py`). Its `cleanws` is
  module `Classic`. Its `clean_soup` is the same sequence of steps as
  `_cleanup_soup`, so `Sanitizer.Cleanup` models both. Its
  `iter_issue_filepaths` applies the same filter as `_parse_agendaitems`,
  so `Paths.AgendaItemFiles` models both.

What is proved, in short: each value a parser reads from a well-formed
text is the value that text was written from; the subject, the register
number and the start are taken from the first paragraph that matches, and
the resolution from the last, whatever the other paragraphs hold; both
whitespace clean-ups change whitespace only, turn every run between two
other characters into exactly one space, and are idempotent; the
sanitiser works node by node and is idempotent; and the paging offsets of
the read API undo one another.

Three behaviours of the code worth knowing, each modelled as the code
has it:
- The register number keeps its separator verbatim: `Dnro 123 /2013`
  gives `123 /2013`, not a normalised `123/2013` (`AgendaItem.DnroKeepsSeparator`).
- A cover-page line, or a directory name, that yields an out-of-range date
  (say `31.2.2013 klo 10.00`) makes `datetime()` raise, and nothing catches
  it. The model returns `Err(OutOfRange(...))`. It does not fall back to
  the next line or to the directory names.
- A file name that does not start with `htmtxt<digits>.htm` makes the item
  parser fail (`re.match(...)` is `None`). The model returns `None` for
  that item.

## Model

| member | source | states |
|---|---|---|
| Whitespace.SubRuns | klupung/ktweb.py:133-136 | `re.sub(<class>+, " ", s)`: no longer than `s`, empty only for empty `s`, its ends are the ends of `s` with class characters turned into spaces, and no class character other than a single space survives, never two in a row |
| Whitespace.SubRunsKeepsContent | klupung/ktweb.py:133-136 | apart from the class and the space, the substitution keeps every character of the text, in order |
| Whitespace.SubRunsFixed | klupung/ktweb.py:133-136 | a text with no class run to collapse is left unchanged |
| Whitespace.TrimWs | klupung/ktweb.py:135-136 | `_trimws` gives a text with no leading or trailing whitespace, and every `[\s\xa0\xad]` character inside it is a single space between two other characters |
| Whitespace.TrimWsFixed | klupung/ktweb.py:135-136 | a text already of that shape is its own `_trimws` |
| Whitespace.TrimWsIdempotent | klupung/ktweb.py:135-136 | applying `_trimws` twice is applying it once |
| Whitespace.TrimWsKeepsContent | klupung/ktweb.py:135-136 | `_trimws` changes whitespace only: with whitespace removed, text and result are equal |
| Whitespace.Trimmed | klupung/ktweb.py:157 | the list comprehension `[_trimws(p.text) for p in ps]` has one entry per paragraph |
| Whitespace.TrimmedAt | klupung/ktweb.py:157 | entry `i` of that list is `_trimws` of paragraph `i` |
| Whitespace.SubEach | classic/klupu/__init__.py:61 | `re.sub(r"[\r\n]", " ", text)` replaces each line-break character by one space and keeps the length |
| Whitespace.SubEachKeepsContent | classic/klupu/__init__.py:61 | apart from line breaks and spaces, that substitution keeps every character, in order |
| Whitespace.SubRunsConcat | klupung/ktweb.py:133-136 | two texts that do not meet inside a run are substituted each on its own |
| Whitespace.SubRunsOfRun | klupung/ktweb.py:133-136 | a whole run of the class becomes exactly one space |
| Whitespace.SubRunsSplit | klupung/ktweb.py:133-136 | a run between two characters outside the class becomes exactly one space, and the text on either side is substituted on its own |
| Whitespace.TrimWsJoins | klupung/ktweb.py:133-136 | two trimmed words with a run of `[\s\xa0\xad]` between them, say `Matti\xa0Virtanen`, come out joined by one plain space |
| Whitespace.TrimmedConcat | klupung/ktweb.py:157 | trimming a list of paragraphs works paragraph by paragraph, in order |
| Whitespace.SubRunsMember | classic/klupu/__init__.py:62-64 | a character that is neither the space nor in the class is in the result exactly when it is in the text |
| Classic.CleanWs | classic/klupu/__init__.py:60-65 | `cleanws` never makes a text longer and never leaves two spaces in a row |
| Classic.CleanWsDrops | classic/klupu/__init__.py:60-65 | no carriage return, newline, soft hyphen or no-break space survives `cleanws` |
| Classic.CleanWsKeepsContent | classic/klupu/__init__.py:60-65 | apart from those four characters and the space, `cleanws` keeps the text as it was, in order |
| Classic.CleanWsKeepsTabs | classic/klupu/__init__.py:60-65 | unlike `_trimws`, `cleanws` keeps tabs: a tab is in the result exactly when it is in the text |
| Classic.CleanWsIdempotent | classic/klupu/__init__.py:60-65 | applying `cleanws` twice is applying it once |
| Classic.CleanWsEnds | classic/klupu/__init__.py:60-65 | `cleanws` does not trim: a non-empty text stays non-empty, and its first and last characters stay, or become a space when they are a line break, soft hyphen, no-break space or space |
| Classic.CleanWsJoins | classic/klupu/__init__.py:60-65 | any mix of line breaks, soft hyphens, no-break spaces and spaces between two other characters becomes exactly one space, and the text on either side is cleaned on its own |
| Sanitizer.KeepAttributes | klupung/ktweb.py:63-66 | the attributes kept are exactly those of `class`, `href` and `target` that the tag has, with their values unchanged |
| Sanitizer.DropCarriageReturns | klupung/ktweb.py:68-69 | no carriage return is left in a string |
| Sanitizer.CleanupNode | klupung/ktweb.py:50-71 | a node is dropped exactly when it is a comment, a declaration or a `style`/`meta` element; what is kept is sanitised |
| Sanitizer.Cleanup | klupung/ktweb.py:50-71 | the cleaned document has no more nodes than the original and is sanitised throughout |
| Sanitizer.CleanupOne | classic/klupu/__init__.py:36-58 | per node, as `clean_soup` and `_cleanup_soup` both do it: dropped exactly when it is a comment, a declaration, a `style` or a `meta`; an element keeps its name and filtered attributes; a string becomes plain text without `\r` |
| Sanitizer.CleanupConcat | klupung/ktweb.py:50-71 | the clean-up works node by node: cleaning a concatenation is concatenating the cleaned parts |
| Sanitizer.CleanupFixed | klupung/ktweb.py:50-71 | a document that is already sanitised is left unchanged |
| Sanitizer.CleanupIdempotent | klupung/ktweb.py:50-71 | cleaning twice is cleaning once |
| Names.NameLength | klupung/ktweb.py:131 | the length of the `_RE_PERSON` match at the start of a text; when positive, that prefix is a name |
| Names.NameLengthMaximal | klupung/ktweb.py:131 | the match is greedy: no longer prefix is a name |
| Names.NameLengthOfName | klupung/ktweb.py:131 | a name followed by a character that cannot extend it is matched exactly |
| Names.ChainEndMaximal | klupung/ktweb.py:131 | the repetition of capitalised tokens runs as far as it can |
| Names.FindNames | klupung/ktweb.py:150 | every string `findall` of `_RE_PERSON` returns is a name |
| Names.FindNamesLeadingName | klupung/ktweb.py:150 | a text that starts with a name yields that name, then the names of the rest |
| Names.FindNamesNone | klupung/ktweb.py:150 | a text with no upper-case letter yields no name |
| AgendaItem.Subject | klupung/ktweb.py:175-181 | the subject, when found, is non-empty, does not start with a `[\s\xa0\xad]` character and does not end in whitespace |
| AgendaItem.SubjectFirstMatch | klupung/ktweb.py:175-181 | the first trimmed paragraph that starts with `"<number> "` gives the subject: the rest of that paragraph |
| AgendaItem.SubjectAbsent | klupung/ktweb.py:175-181 | there is no subject exactly when no trimmed paragraph starts with `"<number> "` |
| AgendaItem.SubjectOfHeading | klupung/ktweb.py:175-181 | the heading `"<number> <title>"` gives the subject `<title>` |
| AgendaItem.MatchDnro | klupung/ktweb.py:132 | `_RE_DNRO.match`: the text starts with `Dnro `, then digits, at most one `[\s\xa0\xad]` character, `/` and digits, with the digit runs taken greedily |
| AgendaItem.ReadDnroOf | klupung/ktweb.py:132 | a rendered register number followed by a non-digit is read back as itself |
| AgendaItem.MatchDnroOfParts | klupung/ktweb.py:132 | `Dnro <number>` followed by a non-digit is matched, and the captured parts are returned exactly |
| AgendaItem.FirstDnro | klupung/ktweb.py:154-163 | the register number picked is a well-formed match |
| AgendaItem.Dnro | klupung/ktweb.py:154-173 | the register number is never the placeholder `0/00` |
| AgendaItem.FirstDnroIsFirst | klupung/ktweb.py:154-173 | the first matching trimmed paragraph decides: its capture, or nothing when it is `0/00` |
| AgendaItem.FirstDnroAbsent | klupung/ktweb.py:162-168 | no register number is picked exactly when no trimmed paragraph matches |
| AgendaItem.DnroAbsent | klupung/ktweb.py:162-173 | the result is `None` exactly when nothing matched or the first match is `0/00` |
| AgendaItem.SentinelParts | klupung/ktweb.py:170-171 | a match reads as `0/00` exactly when its parts are `0`, no separator, `00` |
| AgendaItem.DnroKeepsSeparator | klupung/ktweb.py:132 | `Dnro 123 /2013` is captured with its space kept: `123`, `" "`, `2013` |
| AgendaItem.Preparers | klupung/ktweb.py:146-152 | every preparer returned is a name |
| AgendaItem.PreparersFirstParagraph | klupung/ktweb.py:146-152 | the preparers are the names in the first trimmed paragraph of the whole document that starts with `Asian valmisteli`, and in no other |
| AgendaItem.PreparersAbsent | klupung/ktweb.py:146-152 | without such a paragraph there are no preparers |
| AgendaItem.MatchResolution | klupung/ktweb.py:141 | the group after `Päätös` and its whitespace run is shorter than the paragraph and does not start with whitespace |
| AgendaItem.MatchResolutionTail | klupung/ktweb.py:141 | the group is a suffix of the paragraph |
| AgendaItem.MatchResolutionOf | klupung/ktweb.py:141 | whitespace, `Päätös`, more whitespace and a body give back exactly that body |
| AgendaItem.TrimmedResolution | klupung/ktweb.py:141-143 | a paragraph gives a resolution exactly when it matches, and that resolution is trimmed |
| AgendaItem.TrimmedResolutionOf | klupung/ktweb.py:141-143 | the resolution of a matching paragraph is `_trimws` of its group |
| AgendaItem.Resolution | klupung/ktweb.py:138-144 | the resolution, when found, has the trimmed shape |
| AgendaItem.ResolutionOfLast | klupung/ktweb.py:138-144 | the overwriting loop ends with the value of the last paragraph that gives one |
| AgendaItem.ResolutionLastMatch | klupung/ktweb.py:138-144 | the last matching body paragraph decides: the resolution is `_trimws` of its group |
| AgendaItem.ResolutionAbsent | klupung/ktweb.py:138-144 | there is no resolution exactly when no paragraph matches |
| AgendaItem.ItemDigits | klupung/ktweb.py:187 | the digits captured are non-empty and are followed by `.htm` at the start of the file name after `htmtxt` |
| AgendaItem.ItemNumber | klupung/ktweb.py:186-187 | a number is read exactly when the file name matches, and it is the decimal value of the captured digits |
| AgendaItem.ItemNumberOfName | klupung/ktweb.py:186-187 | `htmtxt<n>.htm`, zero-padded or not, gives back `n` |
| AgendaItem.ItemOf | klupung/ktweb.py:189-200 | the record carries the given number, and each field has its extractor's shape |
| AgendaItem.ParseItem | klupung/ktweb.py:183-200 | an item is produced exactly when the file name gives a number; it carries that number and well-shaped fields |
| Paths.SlashEnd | klupung/ktweb.py:186 | the position after the last slash: every character after it is not a slash |
| Paths.BaseName | klupung/ktweb.py:186 | `os.path.basename`: a suffix of the path with no slash, preceded by a slash unless it is the whole path |
| Paths.BaseNameOf | klupung/ktweb.py:186 | the base name of `dir/name` is `name` |
| Paths.BaseNameOfName | klupung/ktweb.py:186 | a name without a slash is its own base name |
| Paths.DirName | klupung/ktweb.py:263 | `os.path.dirname`: a prefix of the path that ends no later than its last slash |
| Paths.DirNameOf | klupung/ktweb.py:263 | the directory part of `dir/name` is `dir` |
| Paths.AgendaItemFiles | klupung/ktweb.py:205-208 | no path kept by the filter names the cover page `htmtxt0.htm` |
| Paths.AgendaItemFilesMembers | classic/klupu/__init__.py:26-30 | the filter keeps exactly the paths whose base name is not `htmtxt0.htm` |
| Paths.AgendaItemFilesConcat | klupung/ktweb.py:205-210 | the filter works path by path, so the order in which the paths come is kept |
| Paths.LastThree | klupung/ktweb.py:287 | `parts[-3:]`: the last three elements, or all of them when there are fewer |
| Paths.OriginId | klupung/ktweb.py:287 | the identifier is no longer than the path |
| Paths.OriginIdIsSuffix | klupung/ktweb.py:287 | the identifier is a suffix of the path |
| Paths.OriginIdSlashes | klupung/ktweb.py:287 | the identifier holds two slashes, or as many as the path when it has fewer |
| Paths.OriginIdOf | klupung/ktweb.py:287 | `<anything>/a/b/c` has the identifier `a/b/c` |
| Links.LineEnd | klupung/ktweb.py:107 | where `.` stops matching: the first newline, or the end |
| Links.LinkAt | klupung/ktweb.py:107 | a match of `frmtxt(\d+)\.htm` at a position captures a non-empty, greedy run of digits |
| Links.MatchLink | klupung/ktweb.py:107 | a match of `(.*)frmtxt(\d+)\.htm` gives a prefix without a newline and digits, and together they start the href |
| Links.MatchLinkIsLast | klupung/ktweb.py:107 | the greedy `(.*)` takes the last `frmtxt<digits>.htm` on the first line: none starts after the captured prefix |
| Links.MatchLinkNone | klupung/ktweb.py:107 | when there is no match, no `frmtxt<digits>.htm` starts on the first line |
| Links.MatchLinkOf | klupung/ktweb.py:107 | `<prefix>frmtxt<digits>.htm` is matched with exactly that prefix and those digits |
| Scan.LastAtOrBeforeIsLast | klupung/ktweb.py:107 | backtracking from a position down to 0, as the greedy `(.*)` does, the position found is the last one where the rest matches |
| Scan.LastAtOrBeforeNone | klupung/ktweb.py:107 | backtracking finds nothing exactly when no position up to the start matches |
| Links.ItemLink | klupung/ktweb.py:106-111 | a link is produced only for a stripped href that matches, and it is no longer than it |
| Links.ItemLinkOf | klupung/ktweb.py:106-111 | `<prefix>frmtxt<digits>.htm` becomes `<prefix>htmtxt<digits>.htm` with prefix and digits kept; the digits `9999` yield nothing |
| Links.ItemLinkNoMatch | klupung/ktweb.py:107-109 | an href with no `frmtxt<digits>.htm` on its first line yields nothing |
| Links.Pause | klupung/ktweb.py:112 | the pause is never negative, it ends no earlier than one interval after `last_download_time`, and it is no longer than that |
| Links.PauseZero | klupung/ktweb.py:112 | there is no pause exactly when an interval has already passed since `last_download_time` |
| Links.StartsAsWritten | klupung/ktweb.py:96-114 | with `last_download_time` the time of the index page, each agenda-item download begins after its clock reading and at least one interval after the index page |
| Links.AsWrittenStopsPausing | klupung/ktweb.py:99-113 | once one interval has passed since the index page, a download does not wait at all |
| Links.AsWrittenBurst | klupung/ktweb.py:99-113 | with the index page at 0 s, an interval of 1 s and clock readings of 1 s and 1.5 s, two downloads begin half an interval apart |
| Links.Starts | klupung/ktweb.py:96-114 | with the time recorded at every download, each download begins at least one interval after the one before it, the first one interval after the index page, and waits no longer than that |
| CoverPage.DaysInMonth | klupung/ktweb.py:232 | a month has 28 to 31 days, and 29 exactly for February of a leap year |
| CoverPage.MakeDateTime | klupung/ktweb.py:232 | `datetime(...)` succeeds only with a valid date and time, made of exactly the given fields, and fails with a range error otherwise |
| CoverPage.MakeDateTimeValid | klupung/ktweb.py:232 | every valid date and time is accepted as it is |
| CoverPage.Dotted | klupung/ktweb.py:217 | one or two digits, then a dot |
| CoverPage.DottedOf | klupung/ktweb.py:217 | one or two digits and a dot are read back as they were |
| CoverPage.Keyword | klupung/ktweb.py:218 | the keyword is `kello` or `klo`, and the text starts with it |
| CoverPage.KeywordOf | klupung/ktweb.py:218 | `kello` and `klo` are each read back with the text after them |
| CoverPage.TwoDigits | klupung/ktweb.py:219 | exactly two digits start the text |
| CoverPage.MatchTime | klupung/ktweb.py:219-220 | a match of `h.mm` and the rest of the line is made of those parts |
| CoverPage.MatchTimeOf | klupung/ktweb.py:219-220 | every well-shaped time part is matched back as itself |
| CoverPage.MatchYear | klupung/ktweb.py:217-220 | a match of the year, separators, keyword and time is made of those parts |
| CoverPage.MatchYearOf | klupung/ktweb.py:217-220 | every well-shaped year part is matched back as itself |
| CoverPage.MatchDate | klupung/ktweb.py:217-220 | a match of `d.m.` and what follows is made of those parts |
| CoverPage.MatchDateOf | klupung/ktweb.py:217-220 | every well-shaped date part is matched back as itself |
| CoverPage.MatchStart | klupung/ktweb.py:215-222 | a match of the whole start-time pattern splits the line into well-shaped parts that compose it again |
| CoverPage.MatchStartOf | klupung/ktweb.py:215-222 | every well-shaped composition of weekday, spaces, date, separators, keyword and time is matched back into the same parts |
| CoverPage.LineDateTime | klupung/ktweb.py:214-232 | a line gives nothing exactly when the pattern does not match; otherwise it gives a valid date and time, or the range error |
| CoverPage.StartLine | klupung/ktweb.py:214-232 | the pieces of `<weekday> <d>.<m>.<yyyy> klo <H>.<MM><rest>` compose exactly that text, and they have the pattern's shape when the weekday is made of letters |
| CoverPage.LineDateTimeOf | klupung/ktweb.py:214-232 | `<weekday> d.m.yyyy klo h.mm<rest>`, written for a valid date and time, parses back to that date and time |
| CoverPage.InfoTexts | klupung/ktweb.py:246-250 | the candidate lines are no more than the paragraphs, and none is empty |
| CoverPage.InfoTextsMembers | klupung/ktweb.py:246-250 | a text is a candidate line exactly when it is non-empty and is `_trimws` of some paragraph |
| CoverPage.InfoTextsConcat | klupung/ktweb.py:246-250 | the selection works paragraph by paragraph, so the candidate lines come in the order of the paragraphs |
| CoverPage.InfoTextsOne | klupung/ktweb.py:246-250 | one paragraph is kept, trimmed, unless it is blank once trimmed |
| CoverPage.InfoTextsShape | klupung/ktweb.py:246-250 | every candidate line is non-empty and trimmed |
| CoverPage.InfoTextsFixed | klupung/ktweb.py:246-250 | lines that are already non-empty and trimmed are kept as they are |
| CoverPage.InfoTextsIdempotent | klupung/ktweb.py:246-250 | selecting the candidate lines twice is selecting them once |
| CoverPage.Slice | klupung/ktweb.py:265-268 | Python's clamped slice `s[i:j]` is no longer than `j - i` |
| CoverPage.ReadInt | klupung/ktweb.py:263-268 | `int()` of a directory-name piece gives the value `int()` reads, or the `ValueError` that names the text |
| CoverPage.Fallback | klupung/ktweb.py:259-269 | the fallback gives only a valid date and time: its year is `int()` of the parent directory's name, and its day, month, hour and minute are `int()` of the directory name's slices `[0:2]`, `[2:4]`, `[4:6]` and `[6:8]` |
| CoverPage.DirStampSlices | klupung/ktweb.py:265-268 | the directory name `ddmmhhmm` holds day, month, hour and minute in slices `[0:2]`, `[2:4]`, `[4:6]` and `[6:8]` |
| CoverPage.FallbackOf | klupung/ktweb.py:259-269 | for every valid date and time, the directory `<dir>/<year>/<ddmmhhmm>` gives back exactly that date and time |
| CoverPage.FallbackBadYear | klupung/ktweb.py:263 | a parent directory name that `int()` rejects makes the fallback fail with that name |
| CoverPage.FallbackExample | klupung/ktweb.py:259-269 | the directory `2013/15091000` gives 2013-09-15 10:00 |
| CoverPage.StartDateTime | klupung/ktweb.py:252-269 | a start date and time that is found is valid |
| CoverPage.StartFirstLineWins | klupung/ktweb.py:252-257 | the first candidate line that matches decides the start, whatever the later lines and the directory say |
| CoverPage.StartFromPath | klupung/ktweb.py:259-269 | when no candidate line matches, the start is the directory fallback |
| CoverPage.CoverPageStart | klupung/ktweb.py:241-269 | the start read from the cover page's paragraphs, when found, is valid |
| CoverPage.CoverPageStartFirst | klupung/ktweb.py:246-257 | over the paragraphs of the cell: the first one the pattern matches once trimmed decides the start, whatever follows it |
| CoverPage.CoverPageStartFromPath | klupung/ktweb.py:246-269 | when the pattern matches none of the trimmed paragraphs, the directory fallback decides the start |
| Text.Strip | klupung/ktweb.py:136 | `unicode.strip()`: no longer than the text, with no whitespace at either end |
| Text.StripKeepsContent | klupung/ktweb.py:136 | stripping removes whitespace only |
| Text.StripUnpadded | klupung/ktweb.py:136 | a text with no whitespace at either end is left as it is |
| Text.Dec | klupung/ktweb.py:187 | the decimal numeral of a number is a non-empty run of digits |
| Text.DecRoundTrip | klupung/ktweb.py:187 | reading a number's decimal numeral gives back the number |
| Text.PaddedRoundTrip | klupung/ktweb.py:187 | reading a zero-padded numeral gives back the number |
| Text.PyInt | klupung/api.py:67 | Python 2's `int()` of a text: anything it reads comes from a non-empty text |
| Text.PyIntOfDigits | klupung/api.py:67 | whitespace, digits and whitespace read as the digits' value |
| Text.PyIntOfSigned | klupung/api.py:67 | a sign, then whitespace, digits and whitespace, read as the signed value |
| Text.PyIntReadsDec | klupung/api.py:67 | a number's decimal numeral, with or without a minus sign, reads back as that number or its negation |
| Text.PyIntReadsPadded | klupung/ktweb.py:265-268 | a zero-padded numeral reads back as its number |
| Text.PyIntSpaceAfterPlus | klupung/api.py:67 | `int("+ 5")` is 5, because Python 2 skips whitespace after the sign |
| Text.PyIntSpaceAfterMinus | klupung/api.py:67 | `int(" - 7 ")` is -7 |
| Text.PyIntNeedsDigit | klupung/api.py:67-69 | a text without a digit is rejected |
| Text.PyIntRejects | klupung/api.py:67-69 | a text holding any character other than whitespace, digits and signs is rejected |
| Text.Split | klupung/ktweb.py:287 | `str.split` on one character gives at least one piece, and no piece holds the separator |
| Text.JoinSplit | klupung/ktweb.py:287 | joining the pieces of a split with the separator gives back the text |
| Text.SplitJoin | klupung/ktweb.py:287 | splitting the join of pieces without the separator gives back the pieces |
| Text.SplitCount | klupung/ktweb.py:287 | a split gives one piece more than the number of separators |
| Text.JoinCount | klupung/api.py:53 | joining pieces without the separator puts exactly one separator between neighbours |
| Api.Message | klupung/api.py:39-42 | the message starts `Invalid value '<arg>` |
| Api.GetUintArg | klupung/api.py:55-73 | a missing argument gives the default; an accepted value is what `int()` reads from the argument; any failure is `InvalidArgumentError` naming the argument, or the default, and `a positive integer`; it succeeds exactly when `int()` reads a value of at least 0 from the argument, or the argument is missing and the default is at least 0 |
| Api.GetUintArgOfDec | klupung/api.py:55-73 | every decimal numeral is accepted as its value |
| Api.GetUintArgNegative | klupung/api.py:71-72 | a negative numeral is refused with `a positive integer` |
| Api.GetUintArgNotANumber | klupung/api.py:66-69 | a text `int()` rejects is refused with `a positive integer` |
| Api.GetUintArgSpaceAfterSign | klupung/api.py:67 | `limit=+ 5` is accepted as 5 |
| Api.PageWindow | klupung/api.py:96-97 | the limit is at most 1000, and an error names `limit` first, then `offset` |
| Api.PageWindowDefault | klupung/api.py:96-97 | without arguments the window is 20 items from offset 0 |
| Api.PageWindowOf | klupung/api.py:96-97 | numerals for limit and offset give that offset and the limit capped at 1000 |
| Api.NextOffset | klupung/api.py:120-123 | there is a next page exactly when `limit + offset < total`, and it starts one limit further on, before the total |
| Api.PrevOffset | klupung/api.py:125-128 | there is a previous page exactly when `offset > 0`; it starts at most one limit back, and at 0 when the offset is no more than the limit |
| Api.PrevUndoesNext | klupung/api.py:120-128 | going to the next page and back returns to the same offset |
| Api.NextUndoesPrev | klupung/api.py:120-128 | going back a full page and forward again returns to the same offset |
| Api.NextWithoutLimit | klupung/api.py:120-123 | with `limit=0` the next link points at the same offset |
| Api.Repr | klupung/api.py:88 | `repr` of a choice is quoted with single quotes |
| Api.ChoicesText | klupung/api.py:88 | the `or`-joined choices are empty exactly when there are no choices |
| Api.GetChoiceArg | klupung/api.py:75-89 | an accepted value is one of the choices: the argument itself, or the first choice when it is missing; a refused argument is not a choice and the error lists the choices; without an argument and without choices the lookup `choices[0]` fails |
| Api.GetChoiceArgAccepts | klupung/api.py:75-89 | every non-empty choice is accepted as itself |
| Api.SortChoices | klupung/api.py:107-111 | there are two choices per field |
| Api.SortChoicesAt | klupung/api.py:107-111 | field `i` is offered as choice `2i`, and `-<field>` as choice `2i+1` |
| Api.SortChoicesMembers | klupung/api.py:107-111 | every choice is a field or `-` followed by a field |
| Api.StripDashes | klupung/api.py:114 | `lstrip("-")` leaves a suffix that does not start with `-` |
| Api.OrderOf | klupung/api.py:113-114 | the order is descending exactly when the choice starts with `-`, and the field does not start with `-` |
| Api.OrderOfField | klupung/api.py:113-114 | `f` sorts ascending on `f`, and `-f` descending on `f` |
| Api.Order | klupung/api.py:107-115 | without sortable fields `order_by` is not read and there is no sort; otherwise an accepted order sorts on one of the fields, and `order_by` is refused, with the choices listed, exactly when it is given and is not a choice |
| Api.ChoiceField | klupung/api.py:107-115 | every offered choice sorts on one of the fields |
| Api.OrderDefault | klupung/api.py:107-115 | without `order_by` the order is ascending on the first field |
| Api.OrderOfChoice | klupung/api.py:107-115 | `order_by=<field>` and `order_by=-<field>` sort on that field, ascending and descending |
| Api.SplitRuns | klupung/api.py:44-49 | `_SLUG_PUNCT_RE.split` gives at least one piece, and no piece holds a punctuation character |
| Api.SplitRunsNone | klupung/api.py:44-49 | a text without punctuation is one piece |
| Api.SplitRunsAfterPiece | klupung/api.py:44-49 | a piece, one punctuation character and a text not starting with punctuation split into the piece and the pieces of the text |
| Api.SplitRunsJoin | klupung/api.py:44-49 | non-empty words joined by one punctuation character split back into those words |
| Api.Mapped | klupung/api.py:50 | each word is normalised on its own, and the list keeps its length |
| Api.SlugWords | klupung/api.py:48-52 | every word kept for the slug is non-empty |
| Api.Slugify | klupung/api.py:46-53 | a text with no word left gives the empty slug |
| Api.SlugifySplits | klupung/api.py:46-53 | when no kept word holds the delimiter, splitting the slug at the delimiter gives back the kept words, with one delimiter fewer than words |
| Api.SlugifyOfWords | klupung/api.py:46-53 | lower-case ASCII words joined by punctuation give those words joined by the delimiter |
| Api.SlugifyIdempotent | klupung/api.py:46-53 | with a punctuation delimiter, a slug is its own slug |

## Left out

- I/O. Reading and writing files, `os.walk` (`is_meetingdoc_dir`),
  `os.makedirs`, `glob` itself, `urlopen`, `urljoin`, `urlsplit` and the
  `origin_url` file are not modelled. The functions take the data these
  produce as parameters: the list of paths `glob` yields, a directory path,
  the href text of an index row.
- BeautifulSoup parsing. A page is its `<p>` texts, in document order, that
  is what `p.text` gives. `AgendaItem.ParseItem` takes them twice: every
  `<p>` of the document for the preparers (`agendaitem_soup("p")`), and
  those under `<html><body>` for the other three fields. The
  `AttributeError` raised when a page has no `<html>` or `<body>` is not
  modelled. The sanitiser works on a node tree given as data.
- The cover page's positional navigation from the `KOKOUSTIEDOT` marker up
  four levels to the second cell is not modelled, nor the `IndexError`
  when the marker is missing. `CoverPage.CoverPageStart` takes that cell's
  paragraph texts.
- `query_meetingdoc_urls`, `_download_page` and `_print_to_file` are not
  modelled. They are fetching and storage; only the sanitiser they apply is.
- Links.Pause: `time.time()` and `time.sleep` are not modelled. The clock
  readings and the interval are real parameters, and floating-point
  rounding is not modelled. A download is taken to begin when the pause
  ends; the time the download itself takes shows only in the next clock
  reading.
- CoverPage.Fallback: the directory path is a Python 2 byte string, so
  `int()` there skips only ASCII whitespace and the slices count bytes.
  The model reads characters with the Unicode whitespace table of
  `Text.PyInt`; for a directory name holding non-ASCII characters, or
  control characters such as `\x1c`, the two differ (`\x1c2013` is a
  `ValueError` in the code and 2013 in the model).
- CoverPage.ReadInt: the same difference, as it reads the directory names
  for the fallback.
- Links.ItemLink: the href is taken as the text after `.strip()`; the
  table-row traversal (`index_soup("table")[0]("tr")`, `tr("a")[0]`) is not
  modelled.
- Paths.BaseName and Paths.DirName: POSIX paths only (`/` as separator),
  as `os.path` behaves on the systems the scraper runs on.
- Paths.OriginId: `os.path.sep` is taken to be `/`.
- `policymaker_abbreviation` (`os.path.abspath` of `../..`) is not
  modelled, since it needs the process's working directory.
- Text.PyInt: Python 2's `int()` on a unicode text also accepts non-ASCII
  decimal digits; the model reads ASCII digits only. Python's whitespace
  set is modelled as Unicode 5.2's, the table of Python 2.7.
- Api.GetUintArg: `int()` of a default given as a Python `int` never
  fails, so the default is taken as an integer and refused only when
  negative, as the source does; its text in the error is its decimal
  numeral.
- Api.Repr: `repr` of a unicode choice is modelled as the text between
  single quotes. Python 2's `u` prefix and its escaping of quotes and
  non-ASCII characters are not modelled.
- Api.Slugify: `text.lower()` and `unicodedata.normalize('NFKD', w)
  .encode('ascii', 'ignore')` are function parameters, since the Unicode
  case and decomposition tables are not modelled. The delimiter is one
  character, the default `-` being the only one the source uses.
- Api.Order: `objects.sort(key=..., reverse=...)` on the records and the
  SQLAlchemy queries (`limit`, `offset`, `count`) are not modelled. The
  model gives the field and the direction the sort uses.
- Api: `flask.request.args`, `flask.jsonify`, `urllib.urlencode` and the
  path strings of the next and previous links are not modelled. The model
  gives the offsets they carry.
- CoverPage.MakeDateTime: only the range check of `datetime.datetime` is
  modelled. An `OverflowError` on a huge number is reported as the same
  range error.
- AgendaItem.ParseItem: the orchestration of `parse_meetingdoc` and
  `_parse_agendaitems` (reading one soup per file, building the
  dictionaries) is not modelled beyond the fields it combines.

## Findings

| source | as written | input that shows it | evidently intended | confidence | as-written member | corrected member |
|---|---|---|---|---|---|---|
| klupung/ktweb.py:99-113 | `last_download_time` is set once, after the index page, and never updated in the loop, so the pause is measured from the index page | index page at 0 s, interval 1 s, clock readings 1 s and 1.5 s before two agenda items: the two downloads begin 0.5 s apart | `download_interval` between consecutive downloads, with the time recorded at each download | medium, not executed | Links.AsWrittenBurst | Links.Starts |

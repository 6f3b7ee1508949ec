/** String helpers shared by the scraper and the read API: prefixes, runs of
    characters from a class, character removal, Python's `str.strip()`,
    decimal numerals, Python's `int()` on text, and `str.split`/`str.join`
    on a single separator character. */
module Text {
  import opened Wrappers

  predicate StartsWith(s: string, prefix: string) {
    |prefix| <= |s| && s[..|prefix|] == prefix
  }

  /** A prefix followed, in what is left, by a second prefix: together they
      are a prefix, and what is left after both is the same either way. */
  lemma StartsWithConcat(t: string, a: string, b: string)
    requires StartsWith(t, a) && StartsWith(t[|a|..], b)
    ensures StartsWith(t, a + b)
    ensures t[|a + b|..] == t[|a|..][|b|..]
  {
    var ab := a + b;
    forall k | 0 <= k < |ab|
      ensures t[k] == ab[k]
    {
      if k >= |a| {
        assert t[k] == t[|a|..][k - |a|];
      }
    }
    assert t[..|ab|] == ab;
  }

  lemma ConcatAssoc<T>(a: seq<T>, b: seq<T>, c: seq<T>)
    ensures (a + b) + c == a + (b + c)
  {
  }

  /** The parts of a concatenation, seen as prefix and rest. */
  lemma ConcatParts(a: string, b: string)
    ensures StartsWith(a + b, a)
    ensures (a + b)[|a|..] == b
  {
    assert (a + b)[..|a|] == a;
  }

  /** The head and the tail of a concatenation with a non-empty front. */
  lemma ConcatTail(a: string, b: string)
    requires |a| > 0
    ensures (a + b)[0] == a[0] && (a + b)[1..] == a[1..] + b
  {
  }

  predicate EndsWith(s: string, suffix: string) {
    |suffix| <= |s| && s[|s| - |suffix|..] == suffix
  }

  /** A suffix of a suffix is a suffix. */
  lemma EndsWithTrans(a: string, b: string, c: string)
    requires EndsWith(a, b) && EndsWith(b, c)
    ensures EndsWith(a, c)
  {
    var k := |a| - |b|;
    forall i | 0 <= i < |c|
      ensures a[|a| - |c| + i] == c[i]
    {
      assert c[i] == b[|b| - |c| + i] == a[k + |b| - |c| + i];
    }
  }

  /** ASCII decimal digits, the `\d` and `[0-9]` of a non-Unicode pattern. */
  const Digits: set<char> := set c: char | '0' <= c <= '9'

  predicate AllIn(s: string, cls: set<char>) {
    forall i :: 0 <= i < |s| ==> s[i] in cls
  }

  /** The longest prefix of `s` made of characters of `cls`. */
  function TakeRun(s: string, cls: set<char>): (r: string)
    ensures |r| <= |s| && r == s[..|r|]
    ensures AllIn(r, cls)
    ensures |r| == |s| || s[|r|] !in cls
    decreases |s|
  {
    if |s| > 0 && s[0] in cls then [s[0]] + TakeRun(s[1..], cls) else []
  }

  /** What is left of `s` after its longest prefix of `cls` characters. */
  function SkipRun(s: string, cls: set<char>): (r: string)
    ensures s == TakeRun(s, cls) + r
    ensures |r| == 0 || r[0] !in cls
    decreases |s|
  {
    if |s| > 0 && s[0] in cls then SkipRun(s[1..], cls) else s
  }

  lemma SkipRunEndsWith(s: string, cls: set<char>)
    ensures EndsWith(s, SkipRun(s, cls))
  {
    ConcatParts(TakeRun(s, cls), SkipRun(s, cls));
  }

  /** A run of `cls` characters followed by text not starting with one
      splits exactly at the boundary. */
  lemma {:induction false} RunSplitsAtBoundary(run: string, rest: string, cls: set<char>)
    requires AllIn(run, cls)
    requires |rest| == 0 || rest[0] !in cls
    ensures TakeRun(run + rest, cls) == run
    ensures SkipRun(run + rest, cls) == rest
    decreases |run|
  {
    if |run| > 0 {
      assert (run + rest)[1..] == run[1..] + rest;
      RunSplitsAtBoundary(run[1..], rest, cls);
    } else {
      assert run + rest == rest;
    }
  }

  /** Nothing is left after the run only when the whole text is the run. */
  lemma {:induction false} SkipRunEmpty(s: string, cls: set<char>)
    requires |SkipRun(s, cls)| == 0
    ensures AllIn(s, cls)
    decreases |s|
  {
    if |s| > 0 {
      SkipRunEmpty(s[1..], cls);
    }
  }

  /** When `u` holds a character outside `cls`, what follows `u` is not
      part of its leading run. */
  lemma {:induction false} SkipRunAppend(u: string, x: string, cls: set<char>)
    requires |SkipRun(u, cls)| > 0
    ensures SkipRun(u + x, cls) == SkipRun(u, cls) + x
    decreases |u|
  {
    if u[0] in cls {
      assert (u + x)[1..] == u[1..] + x;
      SkipRunAppend(u[1..], x, cls);
    }
  }

  /** `s` with every character of `cls` deleted. */
  function Remove(s: string, cls: set<char>): (r: string)
    ensures |r| <= |s|
    ensures forall i :: 0 <= i < |r| ==> r[i] !in cls
    decreases |s|
  {
    if |s| == 0 then []
    else if s[0] in cls then Remove(s[1..], cls)
    else [s[0]] + Remove(s[1..], cls)
  }

  lemma {:induction false} RemoveConcat(a: string, b: string, cls: set<char>)
    ensures Remove(a + b, cls) == Remove(a, cls) + Remove(b, cls)
    decreases |a|
  {
    if |a| == 0 {
      assert a + b == b;
    } else {
      assert (a + b)[1..] == a[1..] + b;
      RemoveConcat(a[1..], b, cls);
    }
  }

  lemma {:induction false} RemoveAllGone(s: string, cls: set<char>)
    requires AllIn(s, cls)
    ensures Remove(s, cls) == []
    decreases |s|
  {
    if |s| > 0 {
      RemoveAllGone(s[1..], cls);
    }
  }

  /** Deleting the characters of `cls` leaves every other character where
      it was present, and brings in none. */
  lemma {:induction false} RemoveMember(s: string, cls: set<char>, c: char)
    requires c !in cls
    ensures c in Remove(s, cls) ==> c in s
    ensures c in s ==> c in Remove(s, cls)
    decreases |s|
  {
    if |s| > 0 {
      RemoveMember(s[1..], cls, c);
      assert s == [s[0]] + s[1..];
    }
  }

  /** Only a text made of `cls` characters is deleted entirely. */
  lemma {:induction false} RemoveEmpty(s: string, cls: set<char>)
    requires Remove(s, cls) == []
    ensures AllIn(s, cls)
    decreases |s|
  {
    if |s| > 0 {
      RemoveEmpty(s[1..], cls);
    }
  }

  lemma {:induction false} RemoveNoneGone(s: string, cls: set<char>)
    requires forall i :: 0 <= i < |s| ==> s[i] !in cls
    ensures Remove(s, cls) == s
    decreases |s|
  {
    if |s| > 0 {
      RemoveNoneGone(s[1..], cls);
    }
  }

  /** Whitespace as Python 2.7's `unicode.isspace()` sees it (Unicode 5.2
      data): what `strip()` and `int()` discard at the ends of a string. */
  predicate IsPySpace(c: char) {
    || '\t' <= c <= '\r'
    || '\U{1C}' <= c <= ' '
    || c == '\U{85}' || c == '\U{A0}' || c == '\U{1680}' || c == '\U{180E}'
    || '\U{2000}' <= c <= '\U{200A}'
    || c == '\U{2028}' || c == '\U{2029}' || c == '\U{202F}' || c == '\U{205F}'
    || c == '\U{3000}'
  }

  /** `lstrip()`: a suffix of `s` that does not start with whitespace. */
  function TrimLeft(s: string): (r: string)
    ensures |r| <= |s| && r == s[|s| - |r|..]
    ensures |r| == 0 || !IsPySpace(r[0])
    decreases |s|
  {
    if |s| > 0 && IsPySpace(s[0]) then TrimLeft(s[1..]) else s
  }

  /** `rstrip()`: a prefix of `s` that does not end with whitespace. */
  function TrimRight(s: string): (r: string)
    ensures |r| <= |s| && r == s[..|r|]
    ensures |r| == 0 || !IsPySpace(r[|r| - 1])
    decreases |s|
  {
    if |s| > 0 && IsPySpace(s[|s| - 1]) then TrimRight(s[..|s| - 1]) else s
  }

  /** `lstrip()` takes away whitespace only. */
  lemma {:induction false} TrimLeftDropsSpaces(s: string, i: nat)
    requires i < |s| - |TrimLeft(s)|
    ensures IsPySpace(s[i])
    decreases |s|
  {
    if i > 0 {
      TrimLeftDropsSpaces(s[1..], i - 1);
    }
  }

  /** `rstrip()` takes away whitespace only. */
  lemma {:induction false} TrimRightDropsSpaces(s: string, i: nat)
    requires |TrimRight(s)| <= i < |s|
    ensures IsPySpace(s[i])
    decreases |s|
  {
    if i < |s| - 1 {
      TrimRightDropsSpaces(s[..|s| - 1], i);
    }
  }

  /** The characters `IsPySpace` accepts, as a set. */
  const PySpaces: set<char> := set c: char | '\t' <= c <= '\U{3000}' && IsPySpace(c)

  lemma PySpaceMember(c: char)
    requires IsPySpace(c)
    ensures c in PySpaces
  {
  }

  /** Deleting the characters of `gone` erases a prefix made only of them. */
  lemma {:induction false} RemoveGonePrefix(s: string, k: nat, gone: set<char>)
    requires k <= |s|
    requires forall i :: 0 <= i < k ==> s[i] in gone
    ensures Remove(s, gone) == Remove(s[k..], gone)
  {
    assert s == s[..k] + s[k..];
    RemoveConcat(s[..k], s[k..], gone);
    assert AllIn(s[..k], gone) by {
      forall i | 0 <= i < k
        ensures s[..k][i] in gone
      {
        assert s[..k][i] == s[i];
      }
    }
    RemoveAllGone(s[..k], gone);
  }

  /** Deleting the characters of `gone` erases a suffix made only of them. */
  lemma {:induction false} RemoveGoneSuffix(s: string, k: nat, gone: set<char>)
    requires k <= |s|
    requires forall i :: k <= i < |s| ==> s[i] in gone
    ensures Remove(s, gone) == Remove(s[..k], gone)
  {
    assert s == s[..k] + s[k..];
    RemoveConcat(s[..k], s[k..], gone);
    assert AllIn(s[k..], gone) by {
      forall i | 0 <= i < |s| - k
        ensures s[k..][i] in gone
      {
        assert s[k..][i] == s[k + i];
      }
    }
    RemoveAllGone(s[k..], gone);
  }

  /** Stripping the ends of `s` deletes nothing but characters of `gone`,
      as long as `gone` holds all whitespace. */
  lemma StripKeepsContent(s: string, gone: set<char>)
    requires PySpaces <= gone
    ensures Remove(Strip(s), gone) == Remove(s, gone)
  {
    var l := TrimLeft(s);
    var r := TrimRight(l);
    forall i | 0 <= i < |s| - |l|
      ensures s[i] in gone
    {
      TrimLeftDropsSpaces(s, i);
      PySpaceMember(s[i]);
    }
    RemoveGonePrefix(s, |s| - |l|, gone);
    forall i | |r| <= i < |l|
      ensures l[i] in gone
    {
      TrimRightDropsSpaces(l, i);
      PySpaceMember(l[i]);
    }
    RemoveGoneSuffix(l, |r|, gone);
  }

  /** Python's `str.strip()` with no argument: neither end of the result is
      whitespace (and `StripKeepsContent`: only whitespace was taken away). */
  function Strip(s: string): (r: string)
    ensures |r| <= |s|
    ensures |r| == 0 || (!IsPySpace(r[0]) && !IsPySpace(r[|r| - 1]))
  {
    TrimRight(TrimLeft(s))
  }

  lemma StripUnpadded(s: string)
    requires |s| == 0 || (!IsPySpace(s[0]) && !IsPySpace(s[|s| - 1]))
    ensures Strip(s) == s
  {
  }

  // Decimal numerals

  function DigitChar(d: nat): (c: char)
    requires d < 10
    ensures c in Digits
  {
    ('0' as int + d) as char
  }

  function DigitValue(c: char): (d: nat)
    requires c in Digits
    ensures d < 10
  {
    (c as int - '0' as int) as nat
  }

  /** The value of a string of ASCII digits read in base ten (leading zeros
      allowed, as in `int("0005")`). */
  function DigitsValue(s: string): nat
    requires AllIn(s, Digits)
    decreases |s|
  {
    if |s| == 0 then 0 else 10 * DigitsValue(s[..|s| - 1]) + DigitValue(s[|s| - 1])
  }

  /** Python's `"%d" % n` for a non-negative `n`. */
  function Dec(n: nat): (r: string)
    ensures |r| > 0 && AllIn(r, Digits)
    ensures n < 10 <==> |r| == 1
    ensures 10 <= n < 100 <==> |r| == 2
    decreases n
  {
    if n < 10 then [DigitChar(n)] else Dec(n / 10) + [DigitChar(n % 10)]
  }

  lemma {:induction false} DecRoundTrip(n: nat)
    ensures DigitsValue(Dec(n)) == n
    decreases n
  {
    if n >= 10 {
      var s := Dec(n);
      assert s[..|s| - 1] == Dec(n / 10);
      DecRoundTrip(n / 10);
    }
  }

  /** `n` written with exactly `width` digits, zero padded. */
  function Padded(n: nat, width: nat): (r: string)
    ensures |r| == width && AllIn(r, Digits)
    decreases width
  {
    if width == 0 then [] else Padded(n / 10, width - 1) + [DigitChar(n % 10)]
  }

  function Pow10(k: nat): (p: nat)
    ensures p >= 1
  {
    if k == 0 then 1 else 10 * Pow10(k - 1)
  }

  lemma {:induction false} PaddedRoundTrip(n: nat, width: nat)
    requires n < Pow10(width)
    ensures DigitsValue(Padded(n, width)) == n
    decreases width
  {
    if width > 0 {
      var s := Padded(n, width);
      assert s[..|s| - 1] == Padded(n / 10, width - 1);
      PaddedRoundTrip(n / 10, width - 1);
    }
  }

  /** A string Python counts as true. */
  predicate NonEmpty(t: string) {
    |t| > 0
  }

  /** Every character of `w` is whitespace. */
  predicate AllSpace(w: string) {
    forall i :: 0 <= i < |w| ==> IsPySpace(w[i])
  }

  /** `lstrip()` goes through leading whitespace whatever follows it. */
  lemma {:induction false} TrimLeftSkips(w: string, s: string)
    requires AllSpace(w)
    ensures TrimLeft(w + s) == TrimLeft(s)
    decreases |w|
  {
    if |w| == 0 {
      assert w + s == s;
    } else {
      assert IsPySpace((w + s)[0]);
      assert (w + s)[1..] == w[1..] + s;
      TrimLeftSkips(w[1..], s);
    }
  }

  /** `\d+` and then only whitespace: the value of the digits. */
  function ReadDigits(u: string): (r: Option<nat>)
    ensures r.Some? ==> |u| > 0 && u[0] in Digits
  {
    var digits := TakeRun(u, Digits);
    if |digits| == 0 || |TrimLeft(SkipRun(u, Digits))| != 0 then None
    else Some(DigitsValue(digits))
  }

  /** `n` with a minus sign or without. */
  function Signed(negative: bool, n: nat): (v: int)
    ensures v < 0 ==> negative
    ensures v == 0 <==> n == 0
  {
    if negative then -(n as int) else n
  }

  /** An optional sign, whitespace when there is a sign, then
      `ReadDigits`. */
  function ReadSigned(t: string): (r: Option<int>)
    ensures r.Some? ==> |t| > 0 && (t[0] in Digits || t[0] == '+' || t[0] == '-')
  {
    if |t| > 0 && (t[0] == '+' || t[0] == '-') then
      var u := TrimLeft(t[1..]);
      match ReadDigits(u)
      case None => None
      case Some(n) => Some(Signed(t[0] == '-', n))
    else
      match ReadDigits(t)
      case None => None
      case Some(n) => Some(n as int)
  }

  /** Python 2.7's `int(text)` on a unicode `text`, in base ten. The C
      parser skips whitespace, takes an optional sign, skips whitespace
      again, reads ASCII digits, and accepts only whitespace after them;
      any other text raises ValueError, here None. */
  function PyInt(text: string): (r: Option<int>)
    ensures r.Some? ==> |text| > 0
  {
    ReadSigned(TrimLeft(text))
  }

  lemma TrimLeftStops(s: string)
    requires |s| == 0 || !IsPySpace(s[0])
    ensures TrimLeft(s) == s
  {
  }

  lemma ReadDigitsOf(digits: string, w: string)
    requires |digits| > 0 && AllIn(digits, Digits) && AllSpace(w)
    ensures ReadDigits(digits + w) == Some(DigitsValue(digits))
  {
    assert |w| > 0 ==> IsPySpace(w[0]) && w[0] !in Digits;
    RunSplitsAtBoundary(digits, w, Digits);
    TrimLeftSkips(w, []);
    assert w + [] == w;
  }

  lemma ReadSignedDigits(t: string, n: nat)
    requires |t| > 0 && t[0] in Digits && ReadDigits(t) == Some(n)
    ensures ReadSigned(t) == Some(n as int)
  {
  }

  lemma ReadSignedSign(t: string, n: nat)
    requires |t| > 0 && (t[0] == '+' || t[0] == '-') && ReadDigits(TrimLeft(t[1..])) == Some(n)
    ensures ReadSigned(t) == Some(Signed(t[0] == '-', n))
  {
  }

  /** `int()` of digits with whitespace around them is their value. */
  lemma PyIntOfDigits(w1: string, digits: string, w2: string)
    requires AllSpace(w1) && AllSpace(w2)
    requires |digits| > 0 && AllIn(digits, Digits)
    ensures PyInt(w1 + (digits + w2)) == Some(DigitsValue(digits) as int)
  {
    var body := digits + w2;
    var n := DigitsValue(digits);
    assert ReadSigned(body) == Some(n as int) by {
      ReadDigitsOf(digits, w2);
      assert body[0] in Digits;
      ReadSignedDigits(body, n);
    }
    assert PyInt(w1 + body) == ReadSigned(body) by {
      PyIntSkipsSpace(w1, body);
    }
  }

  /** `int()` of a sign and digits, with whitespace around either, is
      their signed value. */
  lemma PyIntOfSigned(w1: string, sign: char, w2: string, digits: string, w3: string)
    requires sign == '+' || sign == '-'
    requires AllSpace(w1) && AllSpace(w2) && AllSpace(w3)
    requires |digits| > 0 && AllIn(digits, Digits)
    ensures PyInt(w1 + ([sign] + (w2 + (digits + w3)))) == Some(Signed(sign == '-', DigitsValue(digits)))
  {
    var body := digits + w3;
    var n := DigitsValue(digits);
    var t := [sign] + (w2 + body);
    assert ReadSigned(t) == Some(Signed(sign == '-', n)) by {
      ReadDigitsOf(digits, w3);
      ReadSignedOf(sign, w2, body, n);
    }
    assert PyInt(w1 + t) == ReadSigned(t) by {
      PyIntSkipsSpace(w1, t);
    }
  }

  /** A sign, whitespace, then digits and whitespace. */
  lemma ReadSignedOf(sign: char, w: string, body: string, n: nat)
    requires sign == '+' || sign == '-'
    requires AllSpace(w) && ReadDigits(body) == Some(n)
    ensures ReadSigned([sign] + (w + body)) == Some(Signed(sign == '-', n))
  {
    var t := [sign] + (w + body);
    assert TrimLeft(t[1..]) == body by {
      TrimLeftStops(body);
      TrimLeftSkips(w, body);
      assert t[1..] == w + body;
    }
    ReadSignedSign(t, n);
  }

  /** `int()` skips leading whitespace. */
  lemma PyIntSkipsSpace(w: string, t: string)
    requires AllSpace(w) && (|t| == 0 || !IsPySpace(t[0]))
    ensures PyInt(w + t) == ReadSigned(t)
  {
    TrimLeftSkips(w, t);
    TrimLeftStops(t);
  }

  /** A bare numeral is its value. */
  lemma PyIntOfNumeral(d: string)
    requires |d| > 0 && AllIn(d, Digits)
    ensures PyInt(d) == Some(DigitsValue(d) as int)
  {
    assert [] + (d + []) == d;
    PyIntOfDigits([], d, []);
  }

  /** A numeral after a minus sign is its value negated. */
  lemma PyIntOfNegated(d: string)
    requires |d| > 0 && AllIn(d, Digits)
    ensures PyInt(['-'] + d) == Some(Signed(true, DigitsValue(d)))
  {
    assert [] + (['-'] + ([] + (d + []))) == ['-'] + d;
    PyIntOfSigned([], '-', [], d, []);
  }

  /** `int()` reads back what `"%d"` writes, for either sign. */
  lemma PyIntReadsDec(n: nat)
    ensures PyInt(Dec(n)) == Some(n as int)
    ensures PyInt(['-'] + Dec(n)) == Some(-(n as int))
  {
    DecRoundTrip(n);
    PyIntOfNumeral(Dec(n));
    PyIntOfNegated(Dec(n));
  }

  /** Zero-padded numerals read back as their value. */
  lemma PyIntReadsPadded(n: nat, width: nat)
    requires width > 0 && n < Pow10(width)
    ensures PyInt(Padded(n, width)) == Some(n as int)
  {
    PaddedRoundTrip(n, width);
    PyIntOfNumeral(Padded(n, width));
  }

  /** Whitespace may separate the sign from the digits: `int(u"+ 5")` is
      5 ... */
  lemma PyIntSpaceAfterPlus()
    ensures PyInt("+ 5") == Some(5)
  {
    assert [] + (['+'] + (" " + ("5" + []))) == "+ 5";
    FiveSeven();
    PyIntOfSigned([], '+', " ", "5", []);
  }

  /** ... and `int(u" - 7 ")` is -7. */
  lemma PyIntSpaceAfterMinus()
    ensures PyInt(" - 7 ") == Some(-7)
  {
    assert " " + (['-'] + (" " + ("7" + " "))) == " - 7 ";
    FiveSeven();
    PyIntOfSigned(" ", '-', " ", "7", " ");
  }

  lemma FiveSeven()
    ensures DigitsValue("5") == 5 && DigitsValue("7") == 7
  {
    assert "5"[..0] == [] && "7"[..0] == [];
  }

  /** A text without a digit is never a number. */
  lemma PyIntNeedsDigit(text: string)
    requires forall i :: 0 <= i < |text| ==> text[i] !in Digits
    ensures PyInt(text) == None
  {
  }

  /** A character other than whitespace, a sign or a digit makes the text
      no number. */
  lemma PyIntRejects(text: string, k: nat)
    requires k < |text| && !IsPySpace(text[k]) && text[k] !in Digits && text[k] != '+' && text[k] != '-'
    ensures PyInt(text) == None
  {
    var t := TrimLeft(text);
    if PyInt(text).Some? {
      var j := |text| - |t|;
      assert k >= j by {
        if k < j {
          TrimLeftDropsSpaces(text, k);
        }
      }
      assert t[k - j] == text[k];
      RejectsAfterTrim(t, k - j);
    }
  }

  lemma RejectsAfterTrim(t: string, k: nat)
    requires |t| == 0 || !IsPySpace(t[0])
    requires k < |t| && !IsPySpace(t[k]) && t[k] !in Digits && t[k] != '+' && t[k] != '-'
    ensures ReadSigned(t) == None
  {
    if |t| > 0 && (t[0] == '+' || t[0] == '-') {
      var rest := t[1..];
      assert rest[k - 1] == t[k];
      ReadDigitsRejects(TrimLeft(rest), rest, k - 1);
    } else {
      TrimLeftStops(t);
      ReadDigitsRejects(t, t, k);
    }
  }

  /** `u` is what `lstrip()` leaves of `s`, and `s[k]` is neither whitespace
      nor a digit: then `ReadDigits(u)` fails. */
  lemma ReadDigitsRejects(u: string, s: string, k: nat)
    requires u == TrimLeft(s) && k < |s| && !IsPySpace(s[k]) && s[k] !in Digits
    ensures ReadDigits(u) == None
  {
    var j := |s| - |u|;
    assert k >= j by {
      if k < j {
        TrimLeftDropsSpaces(s, k);
      }
    }
    assert u[k - j] == s[k];
    ReadDigitsRejectsAt(u, k - j);
  }

  /** A character that is neither whitespace nor a digit stops `\d+\s*$`. */
  lemma ReadDigitsRejectsAt(u: string, m: nat)
    requires m < |u| && !IsPySpace(u[m]) && u[m] !in Digits
    ensures ReadDigits(u) == None
  {
    var digits := TakeRun(u, Digits);
    var rest := SkipRun(u, Digits);
    TakeRunStops(u, Digits, m);
    assert rest[m - |digits|] == u[m] by {
      assert u == digits + rest;
    }
    if |TrimLeft(rest)| == 0 {
      TrimLeftDropsSpaces(rest, m - |digits|);
    }
  }

  /** The run ends at the first character outside the class, or earlier. */
  lemma TakeRunStops(s: string, cls: set<char>, m: nat)
    requires m < |s| && s[m] !in cls
    ensures |TakeRun(s, cls)| <= m
  {
  }

  // Splitting and joining on one separator character

  /** Python's `s.split(sep)` for a one-character separator: always at least
      one piece, and no piece contains the separator. */
  function Split(s: string, sep: char): (r: seq<string>)
    ensures |r| > 0
    ensures forall i :: 0 <= i < |r| ==> sep !in r[i]
    decreases |s|
  {
    if |s| == 0 then [""]
    else
      var rest := Split(s[1..], sep);
      if s[0] == sep then [""] + rest else [[s[0]] + rest[0]] + rest[1..]
  }

  /** Python's `sep.join(parts)`. */
  function Join(parts: seq<string>, sep: char): string
    decreases |parts|
  {
    if |parts| == 0 then ""
    else if |parts| == 1 then parts[0]
    else parts[0] + [sep] + Join(parts[1..], sep)
  }

  lemma {:induction false} JoinSplit(s: string, sep: char)
    ensures Join(Split(s, sep), sep) == s
    decreases |s|
  {
    if |s| > 0 {
      var rest := Split(s[1..], sep);
      JoinSplit(s[1..], sep);
      if s[0] == sep {
        assert Join([""] + rest, sep) == "" + [sep] + Join(rest, sep);
        assert s == [sep] + s[1..];
      } else {
        var parts := [[s[0]] + rest[0]] + rest[1..];
        if |rest| == 1 {
          assert Join(parts, sep) == [s[0]] + rest[0];
        } else {
          assert parts[1..] == rest[1..];
          assert Join(parts, sep) == [s[0]] + rest[0] + [sep] + Join(rest[1..], sep);
          assert Join(rest, sep) == rest[0] + [sep] + Join(rest[1..], sep);
        }
        assert s == [s[0]] + s[1..];
      }
    }
  }

  lemma {:induction false} SplitNoSeparator(p: string, sep: char)
    requires sep !in p
    ensures Split(p, sep) == [p]
    decreases |p|
  {
    if |p| > 0 {
      assert sep !in p[1..] by { assert forall i :: 0 <= i < |p| - 1 ==> p[1..][i] == p[i + 1]; }
      SplitNoSeparator(p[1..], sep);
      assert [p[0]] + p[1..] == p;
    }
  }

  lemma {:induction false} SplitAfterPiece(p: string, sep: char, t: string)
    requires sep !in p
    ensures Split(p + [sep] + t, sep) == [p] + Split(t, sep)
    decreases |p|
  {
    if |p| == 0 {
      assert p + [sep] + t == [sep] + t;
      assert ([sep] + t)[1..] == t;
    } else {
      assert sep !in p[1..] by { assert forall i :: 0 <= i < |p| - 1 ==> p[1..][i] == p[i + 1]; }
      assert (p + [sep] + t)[1..] == p[1..] + [sep] + t;
      SplitAfterPiece(p[1..], sep, t);
      assert [p[0]] + p[1..] == p;
    }
  }

  /** Joining pieces that do not contain the separator and splitting again
      gives the pieces back. */
  lemma {:induction false} SplitJoin(parts: seq<string>, sep: char)
    requires |parts| > 0
    requires forall i :: 0 <= i < |parts| ==> sep !in parts[i]
    ensures Split(Join(parts, sep), sep) == parts
    decreases |parts|
  {
    if |parts| == 1 {
      SplitNoSeparator(parts[0], sep);
    } else {
      SplitJoin(parts[1..], sep);
      SplitAfterPiece(parts[0], sep, Join(parts[1..], sep));
      assert [parts[0]] + parts[1..] == parts;
    }
  }

  /** The number of occurrences of `c` in `s`. */
  function Count(s: string, c: char): nat
    decreases |s|
  {
    if |s| == 0 then 0 else (if s[0] == c then 1 else 0) + Count(s[1..], c)
  }

  lemma {:induction false} CountConcat(a: string, b: string, c: char)
    ensures Count(a + b, c) == Count(a, c) + Count(b, c)
    decreases |a|
  {
    if |a| == 0 {
      assert a + b == b;
    } else {
      assert (a + b)[1..] == a[1..] + b;
      CountConcat(a[1..], b, c);
    }
  }

  lemma {:induction false} CountAbsent(s: string, c: char)
    requires c !in s
    ensures Count(s, c) == 0
    decreases |s|
  {
    if |s| > 0 {
      assert c !in s[1..] by { assert forall i :: 0 <= i < |s| - 1 ==> s[1..][i] == s[i + 1]; }
      CountAbsent(s[1..], c);
    }
  }

  /** Joining `n` separator-free pieces writes exactly `n - 1` separators. */
  lemma {:induction false} JoinCount(parts: seq<string>, sep: char)
    requires |parts| > 0
    requires forall i :: 0 <= i < |parts| ==> sep !in parts[i]
    ensures Count(Join(parts, sep), sep) == |parts| - 1
    decreases |parts|
  {
    CountAbsent(parts[0], sep);
    if |parts| > 1 {
      JoinCount(parts[1..], sep);
      CountConcat(parts[0] + [sep], Join(parts[1..], sep), sep);
      CountConcat(parts[0], [sep], sep);
      assert Count([sep], sep) == 1 by { assert [sep][1..] == []; }
    }
  }

  /** Joining a tail of the pieces gives a suffix of the whole join. */
  lemma {:induction false} JoinTail(parts: seq<string>, sep: char, k: nat)
    requires k < |parts|
    ensures var whole := Join(parts, sep);
            var tail := Join(parts[k..], sep);
            |tail| <= |whole| && tail == whole[|whole| - |tail|..]
    decreases k
  {
    if k > 0 {
      JoinTail(parts[1..], sep, k - 1);
      assert parts[1..][k - 1..] == parts[k..];
      var whole := Join(parts, sep);
      assert whole == parts[0] + [sep] + Join(parts[1..], sep);
    }
  }

  /** Splitting at a separator between two texts splits each of them. */
  lemma {:induction false} SplitAppend(x: string, sep: char, t: string)
    ensures Split(x + [sep] + t, sep) == Split(x, sep) + Split(t, sep)
    decreases |x|
  {
    var s := x + [sep] + t;
    var tail := Split(t, sep);
    if |x| == 0 {
      assert s[0] == sep && s[1..] == t by {
        assert s == [sep] + t;
      }
      assert Split(s, sep) == [""] + tail;
    } else {
      var rest := Split(x[1..], sep);
      assert s[0] == x[0] && s[1..] == x[1..] + [sep] + t;
      assert Split(s[1..], sep) == rest + tail by {
        SplitAppend(x[1..], sep, t);
      }
      if x[0] != sep {
        ExtendFirst(x[0], rest, tail);
      } else {
        assert [""] + (rest + tail) == ([""] + rest) + tail;
      }
    }
  }

  /** Gluing a character to the first piece commutes with appending more
      pieces. */
  lemma ExtendFirst(c: char, rest: seq<string>, tail: seq<string>)
    requires |rest| > 0
    ensures [[c] + (rest + tail)[0]] + (rest + tail)[1..] == ([[c] + rest[0]] + rest[1..]) + tail
  {
    assert (rest + tail)[1..] == rest[1..] + tail;
  }

  /** Splitting gives one piece more than there are separators. */
  lemma {:induction false} SplitCount(s: string, sep: char)
    ensures |Split(s, sep)| == Count(s, sep) + 1
    decreases |s|
  {
    if |s| > 0 {
      SplitCount(s[1..], sep);
    }
  }
}

/** Whitespace normalisation of extracted paragraph text: the scraper's
    `_trimws` (klupung/ktweb.py) and the pattern substitution it is built on.
    The classic scraper's `cleanws` reuses the same substitution, see
    module Classic. */
module Whitespace {
  import opened Text

  /** The character class `[\s\xa0\xad]` of `_RE_WS`: the pattern is compiled
      without `re.UNICODE`, so `\s` is ASCII whitespace only. */
  const ReWs: set<char> := {' ', '\t', '\n', '\r', '\U{0B}', '\U{0C}', '\U{A0}', '\U{AD}'}

  /** What a substitution by `' '` makes of one character of class `cls`. */
  function Replaced(c: char, cls: set<char>): char {
    if c in cls then ' ' else c
  }

  /** Position `i` of a substitution result: a character of `cls` there
      is the space, and the next character is not of `cls` too. */
  predicate CollapsedAt(r: string, cls: set<char>, i: nat)
    requires i < |r|
  {
    && (r[i] in cls ==> r[i] == ' ')
    && (i + 1 < |r| ==> !(r[i] in cls && r[i + 1] in cls))
  }

  /** Shape of a substitution result: no character of `cls` but the space,
      and no two characters of `cls` side by side. */
  predicate Collapsed(r: string, cls: set<char>) {
    forall i :: 0 <= i < |r| ==> CollapsedAt(r, cls, i)
  }

  lemma ConsCollapsed(head: char, rest: string, cls: set<char>)
    requires head in cls ==> head == ' '
    requires Collapsed(rest, cls)
    requires head in cls && |rest| > 0 ==> rest[0] !in cls
    ensures Collapsed([head] + rest, cls)
  {
    var r := [head] + rest;
    forall i | 0 <= i < |r|
      ensures CollapsedAt(r, cls, i)
    {
      if i > 0 {
        assert CollapsedAt(rest, cls, i - 1);
        assert r[i] == rest[i - 1];
        if i + 1 < |r| {
          assert r[i + 1] == rest[i];
        }
      } else if |rest| > 0 {
        assert r[1] == rest[0];
      }
    }
  }

  /** Two `Collapsed` strings that do not meet in two class characters
      give a `Collapsed` string. */
  lemma CollapsedConcat(a: string, b: string, cls: set<char>)
    requires Collapsed(a, cls) && Collapsed(b, cls)
    requires |a| == 0 || |b| == 0 || !(a[|a| - 1] in cls && b[0] in cls)
    ensures Collapsed(a + b, cls)
  {
    var r := a + b;
    forall i | 0 <= i < |r|
      ensures CollapsedAt(r, cls, i)
    {
      if i < |a| {
        assert CollapsedAt(a, cls, i);
        assert r[i] == a[i];
        if i + 1 < |a| {
          assert r[i + 1] == a[i + 1];
        } else if i + 1 < |r| {
          assert r[i + 1] == b[0];
        }
      } else {
        assert CollapsedAt(b, cls, i - |a|);
        assert r[i] == b[i - |a|];
        if i + 1 < |r| {
          assert r[i + 1] == b[i - |a| + 1];
        }
      }
    }
  }

  lemma SkipRunKeepsLast(s: string, cls: set<char>)
    requires |SkipRun(s, cls)| > 0
    ensures SkipRun(s, cls)[|SkipRun(s, cls)| - 1] == s[|s| - 1]
  {
    var rest := SkipRun(s, cls);
    assert s == TakeRun(s, cls) + rest;
  }

  lemma SkipRunEmptyLast(s: string, cls: set<char>)
    requires |s| > 0 && |SkipRun(s, cls)| == 0
    ensures s[|s| - 1] in cls
  {
    var run := TakeRun(s, cls);
    assert s == run + SkipRun(s, cls);
    assert s[|s| - 1] == run[|run| - 1];
  }

  /** What follows the first character or the first run: its last character
      is the last character of `s`, or else `s` ends in that run. */
  lemma TailKeepsLast(s: string, cls: set<char>, tail: string)
    requires |s| > 0
    requires tail == if s[0] in cls then SkipRun(s[1..], cls) else s[1..]
    ensures |tail| > 0 ==> tail[|tail| - 1] == s[|s| - 1]
    ensures |tail| == 0 ==> Replaced(s[|s| - 1], cls) == Replaced(s[0], cls)
  {
    if s[0] in cls {
      if |tail| > 0 {
        SkipRunKeepsLast(s[1..], cls);
      } else if |s| > 1 {
        SkipRunEmptyLast(s[1..], cls);
      }
    }
  }

  /** `re.sub(<cls>+, " ", s)`: every maximal run of characters of `cls` is
      replaced by a single space. The first and last characters are those of
      `s` after replacement, and the result is `Collapsed`. */
  function SubRuns(s: string, cls: set<char>): (r: string)
    ensures |r| <= |s|
    ensures |r| == 0 <==> |s| == 0
    ensures |s| > 0 ==> r[0] == Replaced(s[0], cls)
    ensures |s| > 0 ==> r[|r| - 1] == Replaced(s[|s| - 1], cls)
    ensures Collapsed(r, cls)
    decreases |s|
  {
    if |s| == 0 then []
    else
      var head := Replaced(s[0], cls);
      var tail := if s[0] in cls then SkipRun(s[1..], cls) else s[1..];
      var rest := SubRuns(tail, cls);
      SubRunsStep(s, cls, tail, rest);
      [head] + rest
  }

  /** One step of the substitution: the replaced first character in front
      of the substitution of what follows its run. */
  lemma SubRunsStep(s: string, cls: set<char>, tail: string, rest: string)
    requires |s| > 0
    requires tail == if s[0] in cls then SkipRun(s[1..], cls) else s[1..]
    requires |rest| <= |tail| && (|rest| == 0 <==> |tail| == 0)
    requires |tail| > 0 ==> rest[0] == Replaced(tail[0], cls)
    requires |tail| > 0 ==> rest[|rest| - 1] == Replaced(tail[|tail| - 1], cls)
    requires Collapsed(rest, cls)
    ensures |[Replaced(s[0], cls)] + rest| <= |s|
    ensures ([Replaced(s[0], cls)] + rest)[|rest|] == Replaced(s[|s| - 1], cls)
    ensures Collapsed([Replaced(s[0], cls)] + rest, cls)
  {
    var head := Replaced(s[0], cls);
    ConsCollapsed(head, rest, cls);
    TailKeepsLast(s, cls, tail);
    if s[0] in cls {
      assert |tail| <= |s[1..]| by {
        assert s[1..] == TakeRun(s[1..], cls) + tail;
      }
    }
  }

  /** A `Collapsed` string holds no character of a class without the
      space. */
  lemma CollapsedAvoids(r: string, cls: set<char>, c: char)
    requires Collapsed(r, cls) && ' ' !in cls && c in cls
    ensures c !in r
  {
    forall i | 0 <= i < |r|
      ensures r[i] != c
    {
      assert CollapsedAt(r, cls, i);
    }
  }

  /** A string with no character of the class is `Collapsed`. */
  lemma AvoidsCollapsed(r: string, cls: set<char>)
    requires forall i :: 0 <= i < |r| ==> r[i] !in cls
    ensures Collapsed(r, cls)
  {
    forall i | 0 <= i < |r|
      ensures CollapsedAt(r, cls, i)
    {
    }
  }

  /** A character other than the space and outside `cls` is in the result
      of the substitution exactly when it is in the text. */
  lemma SubRunsMember(s: string, cls: set<char>, c: char)
    requires c != ' ' && c !in cls
    ensures c in SubRuns(s, cls) ==> c in s
    ensures c in s ==> c in SubRuns(s, cls)
  {
    var gone := cls + {' '};
    SubRunsKeepsContent(s, cls, gone);
    RemoveMember(s, gone, c);
    RemoveMember(SubRuns(s, cls), gone, c);
  }

  /** Two texts that do not meet inside a run of `cls` are substituted
      each on its own. */
  lemma {:induction false} SubRunsConcat(x: string, y: string, cls: set<char>)
    requires |x| == 0 || |y| == 0 || x[|x| - 1] !in cls || y[0] !in cls
    ensures SubRuns(x + y, cls) == SubRuns(x, cls) + SubRuns(y, cls)
    decreases |x|
  {
    if |x| == 0 {
      assert x + y == y;
    } else if x[0] !in cls {
      SubRunsConcat(x[1..], y, cls);
      ConcatAfterKept(x, y, cls);
    } else if |SkipRun(x[1..], cls)| > 0 {
      var x' := SkipRun(x[1..], cls);
      SkipRunKeepsLast(x[1..], cls);
      assert |x'| < |x| by {
        assert x[1..] == TakeRun(x[1..], cls) + x';
      }
      SubRunsConcat(x', y, cls);
      ConcatAfterRun(x, y, cls);
    } else {
      ConcatAfterWholeRun(x, y, cls);
    }
  }

  /** `SubRunsConcat` when `x` starts with a kept character. */
  lemma ConcatAfterKept(x: string, y: string, cls: set<char>)
    requires |x| > 0 && x[0] !in cls
    requires SubRuns(x[1..] + y, cls) == SubRuns(x[1..], cls) + SubRuns(y, cls)
    ensures SubRuns(x + y, cls) == SubRuns(x, cls) + SubRuns(y, cls)
  {
    var h := x[0];
    assert SubRuns(x + y, cls) == [h] + SubRuns(x[1..] + y, cls) by {
      ConcatTail(x, y);
    }
    assert SubRuns(x, cls) == [h] + SubRuns(x[1..], cls);
    ConcatAssoc([h], SubRuns(x[1..], cls), SubRuns(y, cls));
  }

  /** `SubRunsConcat` when `x` starts with a run that some kept character
      of `x` ends. */
  lemma ConcatAfterRun(x: string, y: string, cls: set<char>)
    requires |x| > 0 && x[0] in cls && |SkipRun(x[1..], cls)| > 0
    requires SubRuns(SkipRun(x[1..], cls) + y, cls) == SubRuns(SkipRun(x[1..], cls), cls) + SubRuns(y, cls)
    ensures SubRuns(x + y, cls) == SubRuns(x, cls) + SubRuns(y, cls)
  {
    var x' := SkipRun(x[1..], cls);
    assert SubRuns(x + y, cls) == [' '] + SubRuns(x' + y, cls) by {
      ConcatTail(x, y);
      SkipRunAppend(x[1..], y, cls);
    }
    assert SubRuns(x, cls) == [' '] + SubRuns(x', cls);
    ConcatAssoc([' '], SubRuns(x', cls), SubRuns(y, cls));
  }

  /** `SubRunsConcat` when `x` is one run of `cls`, so that `y` starts
      with a kept character. */
  lemma ConcatAfterWholeRun(x: string, y: string, cls: set<char>)
    requires |x| > 0 && x[0] in cls && |SkipRun(x[1..], cls)| == 0
    requires |y| == 0 || x[|x| - 1] !in cls || y[0] !in cls
    ensures SubRuns(x + y, cls) == SubRuns(x, cls) + SubRuns(y, cls)
  {
    SkipRunEmpty(x[1..], cls);
    assert x[|x| - 1] in cls by {
      if |x| > 1 {
        assert x[|x| - 1] == x[1..][|x| - 2];
      }
    }
    assert SubRuns(x + y, cls) == [' '] + SubRuns(y, cls) by {
      ConcatTail(x, y);
      RunSplitsAtBoundary(x[1..], y, cls);
    }
    assert SubRuns(x, cls) == [' '] by {
      assert SubRuns(x, cls) == [' '] + SubRuns([], cls);
    }
  }

  /** A whole run of `cls` becomes one space. */
  lemma SubRunsOfRun(run: string, cls: set<char>)
    requires |run| > 0 && AllIn(run, cls)
    ensures SubRuns(run, cls) == " "
  {
    RunSplitsAtBoundary(run[1..], [], cls);
    assert run[1..] + [] == run[1..];
  }

  /** A run of `cls` between two characters outside it becomes exactly one
      space, and the text on either side is substituted on its own. */
  lemma SubRunsSplit(a: string, run: string, b: string, cls: set<char>)
    requires |a| == 0 || a[|a| - 1] !in cls
    requires |run| > 0 && AllIn(run, cls)
    requires |b| == 0 || b[0] !in cls
    ensures SubRuns(a + run + b, cls) == SubRuns(a, cls) + " " + SubRuns(b, cls)
  {
    var tail := run + b;
    assert SubRuns(tail, cls) == " " + SubRuns(b, cls) by {
      SubRunsConcat(run, b, cls);
      SubRunsOfRun(run, cls);
    }
    assert SubRuns(a + run + b, cls) == SubRuns(a, cls) + SubRuns(tail, cls) by {
      ConcatAssoc(a, run, b);
      SubRunsConcat(a, tail, cls);
    }
    ConcatAssoc(SubRuns(a, cls), " ", SubRuns(b, cls));
  }

  /** `re.sub(<cls>, " ", s)` for a class without `+`: each character of
      `cls` becomes a space on its own, everything else is kept in place. */
  function SubEach(s: string, cls: set<char>): (r: string)
    ensures |r| == |s|
    ensures forall i :: 0 <= i < |s| ==> r[i] == Replaced(s[i], cls)
  {
    seq(|s|, i requires 0 <= i < |s| => Replaced(s[i], cls))
  }

  lemma SubEachConcat(x: string, y: string, cls: set<char>)
    ensures SubEach(x + y, cls) == SubEach(x, cls) + SubEach(y, cls)
  {
    var l := SubEach(x + y, cls);
    var r := SubEach(x, cls) + SubEach(y, cls);
    forall i | 0 <= i < |l|
      ensures l[i] == r[i]
    {
      if i < |x| {
        assert (x + y)[i] == x[i];
      } else {
        assert (x + y)[i] == y[i - |x|];
      }
    }
  }

  /** Once every character of `cls` is a space and no two of them touch,
      the substitution changes nothing. */
  lemma {:induction false} SubRunsFixed(s: string, cls: set<char>)
    requires Collapsed(s, cls)
    ensures SubRuns(s, cls) == s
    decreases |s|
  {
    if |s| > 0 {
      var t := s[1..];
      CollapsedTail(s, cls);
      SubRunsFixed(t, cls);
      assert Replaced(s[0], cls) == s[0] && (s[0] in cls ==> SkipRun(t, cls) == t) by {
        assert CollapsedAt(s, cls, 0);
        if s[0] in cls && |t| > 0 {
          assert t[0] == s[1];
        }
      }
      assert s == [s[0]] + t;
    }
  }

  lemma CollapsedTail(s: string, cls: set<char>)
    requires |s| > 0 && Collapsed(s, cls)
    ensures Collapsed(s[1..], cls)
  {
    var t := s[1..];
    forall i | 0 <= i < |t|
      ensures CollapsedAt(t, cls, i)
    {
      assert CollapsedAt(s, cls, i + 1);
      assert t[i] == s[i + 1];
      if i + 1 < |t| {
        assert t[i + 1] == s[i + 2];
      }
    }
  }

  /** Characters outside `cls` and other than the space survive the
      substitution unchanged and in order. */
  lemma {:induction false} SubRunsKeepsContent(s: string, cls: set<char>, gone: set<char>)
    requires cls <= gone && ' ' in gone
    ensures Remove(SubRuns(s, cls), gone) == Remove(s, gone)
    decreases |s|
  {
    if |s| > 0 {
      if s[0] in cls {
        var rest := SkipRun(s[1..], cls);
        var run := TakeRun(s[1..], cls);
        SubRunsKeepsContent(rest, cls, gone);
        assert AllIn(run, gone);
        RemoveAllGone(run, gone);
        RemoveConcat(run, rest, gone);
        assert Remove([' '] + SubRuns(rest, cls), gone) == Remove(SubRuns(rest, cls), gone);
      } else {
        SubRunsKeepsContent(s[1..], cls, gone);
      }
    }
  }

  lemma SubEachFixed(s: string, cls: set<char>)
    requires forall i :: 0 <= i < |s| ==> s[i] !in cls
    ensures SubEach(s, cls) == s
  {
  }

  lemma {:induction false} SubEachKeepsContent(s: string, cls: set<char>, gone: set<char>)
    requires cls <= gone && ' ' in gone
    ensures Remove(SubEach(s, cls), gone) == Remove(s, gone)
    decreases |s|
  {
    if |s| > 0 {
      var r := SubEach(s, cls);
      assert r[1..] == SubEach(s[1..], cls);
      SubEachKeepsContent(s[1..], cls, gone);
    }
  }

  /** The shape `_trimws` leaves: neither end is whitespace, the only class
      character left is the plain space, and no two class characters are
      adjacent. */
  predicate TrimShape(t: string) {
    && (|t| == 0 || (!IsPySpace(t[0]) && !IsPySpace(t[|t| - 1])))
    && Collapsed(t, ReWs)
  }

  /** `_trimws`: collapse every run of `[\s\xa0\xad]` to one space, then
      `strip()`. The result has the `TrimShape`. */
  function TrimWs(text: string): (r: string)
    ensures TrimShape(r)
  {
    var collapsed := SubRuns(text, ReWs);
    var r := Strip(collapsed);
    SliceKeepsShape(collapsed, r, ReWs);
    r
  }

  /** Trimming the ends keeps a string `Collapsed`. */
  lemma SliceKeepsShape(collapsed: string, r: string, cls: set<char>)
    requires Collapsed(collapsed, cls)
    requires r == Strip(collapsed)
    ensures Collapsed(r, cls)
  {
    var left := TrimLeft(collapsed);
    assert Collapsed(left, cls) by {
      assert left == collapsed[|collapsed| - |left|..|collapsed|];
      CollapsedSlice(collapsed, |collapsed| - |left|, |collapsed|, cls);
    }
    assert r == left[..|r|];
    CollapsedSlice(left, 0, |r|, cls);
  }

  /** Any slice of a `Collapsed` string is `Collapsed`. */
  lemma CollapsedSlice(s: string, a: nat, b: nat, cls: set<char>)
    requires a <= b <= |s| && Collapsed(s, cls)
    ensures Collapsed(s[a..b], cls)
  {
    var t := s[a..b];
    forall i | 0 <= i < |t|
      ensures CollapsedAt(t, cls, i)
    {
      assert CollapsedAt(s, cls, a + i);
      assert t[i] == s[a + i];
      if i + 1 < |t| {
        assert t[i + 1] == s[a + i + 1];
      }
    }
  }

  /** A string already in `_trimws` shape is left as it is. */
  lemma TrimWsFixed(s: string)
    requires TrimShape(s)
    ensures TrimWs(s) == s
  {
    SubRunsFixed(s, ReWs);
    StripUnpadded(s);
  }

  /** Applying `_trimws` twice is the same as applying it once. */
  lemma TrimWsIdempotent(text: string)
    ensures TrimWs(TrimWs(text)) == TrimWs(text)
  {
    TrimWsFixed(TrimWs(text));
  }

  /** The last character of a non-empty trimmed text is no class
      character, nor is its first. */
  lemma TrimShapeEnds(t: string)
    requires |t| > 0 && TrimShape(t)
    ensures t[0] !in ReWs && t[|t| - 1] !in ReWs
  {
    assert CollapsedAt(t, ReWs, 0);
    assert CollapsedAt(t, ReWs, |t| - 1);
  }

  /** Two trimmed words with whitespace, soft hyphens or no-break spaces
      between them come out joined by one plain space. */
  lemma TrimWsJoins(a: string, run: string, b: string)
    requires |a| > 0 && TrimShape(a)
    requires |run| > 0 && AllIn(run, ReWs)
    requires |b| > 0 && TrimShape(b)
    ensures TrimWs(a + run + b) == a + " " + b
  {
    TrimShapeEnds(a);
    TrimShapeEnds(b);
    SubRunsSplit(a, run, b, ReWs);
    SubRunsFixed(a, ReWs);
    SubRunsFixed(b, ReWs);
    var j := a + " " + b;
    assert j[0] == a[0] && j[|j| - 1] == b[|b| - 1];
    StripUnpadded(j);
  }

  /** All whitespace, soft hyphens and no-break spaces aside, `_trimws`
      keeps every character of its input, in order. */
  lemma TrimWsKeepsContent(text: string)
    ensures Remove(TrimWs(text), ReWs + PySpaces) == Remove(text, ReWs + PySpaces)
  {
    var gone := ReWs + PySpaces;
    SubRunsKeepsContent(text, ReWs, gone);
    StripKeepsContent(SubRuns(text, ReWs), gone);
  }

  /** `[_trimws(p.text) for p in ps]`. */
  function Trimmed(paras: seq<string>): (r: seq<string>)
    ensures |r| == |paras|
    decreases |paras|
  {
    if |paras| == 0 then []
    else Trimmed(paras[..|paras| - 1]) + [TrimWs(paras[|paras| - 1])]
  }

  /** Paragraph `i` of the list is paragraph `i` of the page, trimmed, so it
      has the shape `_trimws` gives. */
  lemma {:induction false} TrimmedAt(paras: seq<string>, i: nat)
    requires i < |paras|
    ensures Trimmed(paras)[i] == TrimWs(paras[i])
    ensures TrimShape(Trimmed(paras)[i])
    decreases |paras|
  {
    if i < |paras| - 1 {
      var init := paras[..|paras| - 1];
      TrimmedAt(init, i);
      assert init[i] == paras[i];
    }
  }
  /** Trimming works paragraph by paragraph. */
  lemma {:induction false} TrimmedConcat(a: seq<string>, b: seq<string>)
    ensures Trimmed(a + b) == Trimmed(a) + Trimmed(b)
    decreases |b|
  {
    if |b| == 0 {
      assert a + b == a;
    } else {
      var init, last := b[..|b| - 1], b[|b| - 1];
      assert Trimmed(a + b) == Trimmed(a + init) + [TrimWs(last)] by {
        assert (a + b)[..|a + b| - 1] == a + init;
        assert (a + b)[|a + b| - 1] == last;
      }
      assert Trimmed(b) == Trimmed(init) + [TrimWs(last)];
      TrimmedConcat(a, init);
      ConcatAssoc(Trimmed(a), Trimmed(init), [TrimWs(last)]);
    }
  }


}

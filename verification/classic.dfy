/** The whitespace clean-up of the classic scraper (classic/klupu,
    `cleanws`). Its other parts are shared with the current scraper: the
    issue-file filter is `Paths.AgendaItemFiles`, with the information page
    `htmtxt0.htm` as the cover page, and `clean_soup` is the sanitiser of
    module Sanitizer, to the letter. */
module Classic {
  import opened Text
  import opened Whitespace

  const LineBreaks: set<char> := {'\r', '\n'}
  const SoftHyphens: set<char> := {'\U{AD}'}
  const NoBreakSpaces: set<char> := {'\U{A0}'}
  const Spaces: set<char> := {' '}

  /** Every character `cleanws` turns into a space. */
  const Blanks: set<char> := {'\r', '\n', '\U{AD}', '\U{A0}', ' '}

  /** `cleanws`: each carriage return and newline becomes a space, then each
      run of soft hyphens, of no-break spaces and of spaces, in that order,
      becomes one space. Unlike `_trimws`, tabs and the other whitespace
      are kept and the ends are not stripped. */
  function CleanWs(text: string): (r: string)
    ensures |r| <= |text|
    ensures Collapsed(r, Spaces)
  {
    var s1 := SubEach(text, LineBreaks);
    var s2 := SubRuns(s1, SoftHyphens);
    var s3 := SubRuns(s2, NoBreakSpaces);
    SubRuns(s3, Spaces)
  }

  /** No line break, soft hyphen or no-break space is left. */
  lemma CleanWsDrops(text: string)
    ensures '\r' !in CleanWs(text) && '\n' !in CleanWs(text)
    ensures '\U{AD}' !in CleanWs(text) && '\U{A0}' !in CleanWs(text)
  {
    var s1 := SubEach(text, LineBreaks);
    var s2 := SubRuns(s1, SoftHyphens);
    var s3 := SubRuns(s2, NoBreakSpaces);
    var r := SubRuns(s3, Spaces);
    assert '\r' !in s1 && '\n' !in s1 by {
      assert forall i :: 0 <= i < |s1| ==> s1[i] == Replaced(text[i], LineBreaks);
    }
    assert '\r' !in s2 && '\n' !in s2 && '\U{AD}' !in s2 by {
      SubRunsMember(s1, SoftHyphens, '\r');
      SubRunsMember(s1, SoftHyphens, '\n');
      CollapsedAvoids(s2, SoftHyphens, '\U{AD}');
    }
    assert '\r' !in s3 && '\n' !in s3 && '\U{AD}' !in s3 && '\U{A0}' !in s3 by {
      SubRunsMember(s2, NoBreakSpaces, '\r');
      SubRunsMember(s2, NoBreakSpaces, '\n');
      SubRunsMember(s2, NoBreakSpaces, '\U{AD}');
      CollapsedAvoids(s3, NoBreakSpaces, '\U{A0}');
    }
    SubRunsMember(s3, Spaces, '\r');
    SubRunsMember(s3, Spaces, '\n');
    SubRunsMember(s3, Spaces, '\U{AD}');
    SubRunsMember(s3, Spaces, '\U{A0}');
  }

  /** Apart from the characters it turns into spaces, the text is kept as
      it was, in order. */
  lemma CleanWsKeepsContent(text: string)
    ensures Remove(CleanWs(text), Blanks) == Remove(text, Blanks)
  {
    var s1 := SubEach(text, LineBreaks);
    var s2 := SubRuns(s1, SoftHyphens);
    var s3 := SubRuns(s2, NoBreakSpaces);
    SubEachKeepsContent(text, LineBreaks, Blanks);
    SubRunsKeepsContent(s1, SoftHyphens, Blanks);
    SubRunsKeepsContent(s2, NoBreakSpaces, Blanks);
    SubRunsKeepsContent(s3, Spaces, Blanks);
  }

  /** Tabs are kept: a tab is in the result exactly when it is in the
      text. */
  lemma CleanWsKeepsTabs(text: string)
    ensures '\t' in CleanWs(text) ==> '\t' in text
    ensures '\t' in text ==> '\t' in CleanWs(text)
  {
    CleanWsKeepsContent(text);
    RemoveMember(text, Blanks, '\t');
    RemoveMember(CleanWs(text), Blanks, '\t');
  }

  /** Cleaning a cleaned text changes nothing. */
  lemma CleanWsIdempotent(text: string)
    ensures CleanWs(CleanWs(text)) == CleanWs(text)
  {
    var r := CleanWs(text);
    CleanWsDrops(text);
    assert forall i :: 0 <= i < |r| ==> r[i] !in LineBreaks;
    SubEachFixed(r, LineBreaks);
    assert SubRuns(r, SoftHyphens) == r by {
      AvoidsCollapsed(r, SoftHyphens);
      SubRunsFixed(r, SoftHyphens);
    }
    assert SubRuns(r, NoBreakSpaces) == r by {
      AvoidsCollapsed(r, NoBreakSpaces);
      SubRunsFixed(r, NoBreakSpaces);
    }
    SubRunsFixed(r, Spaces);
  }

  /** The ends are not stripped: the first and the last character are those
      of the text, or a space where the text has a character `cleanws`
      turns into one. */
  lemma CleanWsEnds(text: string)
    requires |text| > 0
    ensures |CleanWs(text)| > 0
    ensures CleanWs(text)[0] == (if text[0] in Blanks then ' ' else text[0])
    ensures CleanWs(text)[|CleanWs(text)| - 1] == (if text[|text| - 1] in Blanks then ' ' else text[|text| - 1])
  {
    var s1 := SubEach(text, LineBreaks);
    var s2 := SubRuns(s1, SoftHyphens);
    var s3 := SubRuns(s2, NoBreakSpaces);
    var r := SubRuns(s3, Spaces);
    assert r[0] == Replaced(Replaced(Replaced(Replaced(text[0], LineBreaks), SoftHyphens), NoBreakSpaces), Spaces);
    assert r[|r| - 1] == Replaced(Replaced(Replaced(Replaced(text[|text| - 1], LineBreaks), SoftHyphens), NoBreakSpaces), Spaces);
  }

  /** The text on either side of a middle piece that holds only characters
      `cleanws` turns into spaces. */
  predicate Bounded(a: string, m: string, b: string) {
    && (|a| == 0 || a[|a| - 1] !in Blanks)
    && |m| > 0 && AllIn(m, Blanks)
    && (|b| == 0 || b[0] !in Blanks)
  }

  /** A substitution of runs of a class of `Blanks` works on the three
      pieces one by one, and keeps them bounded. */
  lemma SubRunsThree(a: string, m: string, b: string, cls: set<char>)
    requires cls <= Blanks && Bounded(a, m, b)
    ensures SubRuns(a + m + b, cls) == SubRuns(a, cls) + SubRuns(m, cls) + SubRuns(b, cls)
    ensures Bounded(SubRuns(a, cls), SubRuns(m, cls), SubRuns(b, cls))
  {
    assert SubRuns(m + b, cls) == SubRuns(m, cls) + SubRuns(b, cls) by {
      SubRunsConcat(m, b, cls);
    }
    assert SubRuns(a + m + b, cls) == SubRuns(a, cls) + SubRuns(m + b, cls) by {
      ConcatAssoc(a, m, b);
      SubRunsConcat(a, m + b, cls);
    }
    ConcatAssoc(SubRuns(a, cls), SubRuns(m, cls), SubRuns(b, cls));
    assert AllIn(SubRuns(m, cls), Blanks) by {
      SubRunsKeepsContent(m, cls, Blanks);
      RemoveAllGone(m, Blanks);
      RemoveEmpty(SubRuns(m, cls), Blanks);
    }
  }

  /** The same for the line breaks, each on its own. */
  lemma SubEachThree(a: string, m: string, b: string)
    requires Bounded(a, m, b)
    ensures SubEach(a + m + b, LineBreaks) == SubEach(a, LineBreaks) + SubEach(m, LineBreaks) + SubEach(b, LineBreaks)
    ensures Bounded(SubEach(a, LineBreaks), SubEach(m, LineBreaks), SubEach(b, LineBreaks))
  {
    SubEachConcat(a + m, b, LineBreaks);
    SubEachConcat(a, m, LineBreaks);
  }

  /** A cleaned text made of `Blanks` only is a single space. */
  lemma SingleSpace(r: string)
    requires |r| > 0 && AllIn(r, Blanks) && Collapsed(r, Spaces)
    requires '\r' !in r && '\n' !in r && '\U{AD}' !in r && '\U{A0}' !in r
    ensures r == " "
  {
    assert r[0] == ' ';
    assert CollapsedAt(r, Spaces, 0);
  }

  /** A run of line breaks, soft hyphens, no-break spaces and spaces, in any
      mix, between two other characters becomes exactly one space, and the
      text on either side is cleaned on its own. */
  lemma CleanWsJoins(a: string, run: string, b: string)
    requires |a| == 0 || a[|a| - 1] !in Blanks
    requires |run| > 0 && AllIn(run, Blanks)
    requires |b| == 0 || b[0] !in Blanks
    ensures CleanWs(a + run + b) == CleanWs(a) + " " + CleanWs(b)
  {
    var a1, m1, b1 := SubEach(a, LineBreaks), SubEach(run, LineBreaks), SubEach(b, LineBreaks);
    SubEachThree(a, run, b);
    var a2, m2, b2 := SubRuns(a1, SoftHyphens), SubRuns(m1, SoftHyphens), SubRuns(b1, SoftHyphens);
    SubRunsThree(a1, m1, b1, SoftHyphens);
    var a3, m3, b3 := SubRuns(a2, NoBreakSpaces), SubRuns(m2, NoBreakSpaces), SubRuns(b2, NoBreakSpaces);
    SubRunsThree(a2, m2, b2, NoBreakSpaces);
    SubRunsThree(a3, m3, b3, Spaces);
    assert CleanWs(run) == " " by {
      CleanWsDrops(run);
      SingleSpace(CleanWs(run));
    }
  }
}

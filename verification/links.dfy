/** The agenda-item links of a meeting-document index page
    (klupung/ktweb.py, `download_meetingdoc`): each row's `href`, stripped,
    is matched against `(.*)frmtxt(\d+)\.htm` from its start, rows that do
    not match or whose number is the sentinel 9999 are skipped, and the
    others are rewritten to `<prefix>htmtxt<digits>.htm` before `urljoin`
    resolves them. Also the pause between downloads. */
module Links {
  import opened Wrappers
  import opened Text
  import opened Scan

  /** What the pattern captures: the text before `frmtxt`, and the
      number. */
  datatype LinkMatch = LinkMatch(prefix: string, digits: string)

  /** Rows with this number are not agenda items. */
  const Sentinel: string := "9999"

  /** The part of the pattern after `(.*)`, for a given number. */
  function Frame(digits: string): string {
    "frmtxt" + digits + ".htm"
  }

  /** The text a match covers, from the start of the `href`. */
  function FrameLink(m: LinkMatch): string {
    m.prefix + Frame(m.digits)
  }

  /** The link the scraper downloads instead. */
  function TextLink(m: LinkMatch): string {
    m.prefix + "htmtxt" + m.digits + ".htm"
  }

  /** How far `.*` can reach: up to the first newline, which `.` does not
      match, or to the end. */
  function LineEnd(h: string): (k: nat)
    ensures k <= |h|
    ensures forall i :: 0 <= i < k ==> h[i] != '\n'
    ensures k < |h| ==> h[k] == '\n'
    decreases |h|
  {
    if |h| == 0 || h[0] == '\n' then 0 else 1 + LineEnd(h[1..])
  }

  /** `frmtxt(\d+)\.htm` at position `k`: the digit run after `frmtxt`,
      when `.htm` follows it. `\d+` takes the whole run, since a dot is not
      a digit. */
  function LinkAt(h: string, k: nat): (r: Option<string>)
    requires k <= |h|
    ensures r.Some? ==> |r.value| > 0 && AllIn(r.value, Digits)
    ensures r.Some? ==> StartsWith(h[k..], Frame(r.value))
  {
    var rest := h[k..];
    if StartsWith(rest, "frmtxt") then
      var after := rest[6..];
      var digits := TakeRun(after, Digits);
      var tail := SkipRun(after, Digits);
      if |digits| > 0 && StartsWith(tail, ".htm") then
        assert StartsWith(rest[6..], digits) by {
          ConcatParts(digits, tail);
        }
        StartsWithConcat(rest, "frmtxt", digits);
        assert rest[|"frmtxt" + digits|..] == tail;
        StartsWithConcat(rest, "frmtxt" + digits, ".htm");
        assert Frame(digits) == "frmtxt" + digits + ".htm";
        Some(digits)
      else None
    else None
  }

  /** The positions of `h` where the rest of the pattern matches. */
  function LinkStarts(h: string): nat -> bool {
    (i: nat) => i <= |h| && LinkAt(h, i).Some?
  }

  /** The greedy `(.*)` with backtracking: the largest position `j <= k`
      where the rest of the pattern matches. */
  function Search(h: string, k: nat): (r: Option<nat>)
    ensures r.Some? ==> r.value <= k && r.value <= |h| && LinkAt(h, r.value).Some?
  {
    LastAtOrBefore(k, LinkStarts(h))
  }

  /** `re.match(r"(.*)frmtxt(\d+)\.htm", h)`: the two groups. */
  function MatchLink(h: string): (r: Option<LinkMatch>)
    ensures r.Some? ==> StartsWith(h, FrameLink(r.value))
    ensures r.Some? ==> '\n' !in r.value.prefix
    ensures r.Some? ==> |r.value.digits| > 0 && AllIn(r.value.digits, Digits)
  {
    match Search(h, LineEnd(h))
    case None => None
    case Some(k) =>
      var m := LinkMatch(h[..k], LinkAt(h, k).value);
      MatchShape(h, k);
      Some(m)
  }

  /** The groups taken at a matching position within the first line cover
      a frame link from the start, with a prefix free of newlines. */
  lemma MatchShape(h: string, k: nat)
    requires k <= LineEnd(h) && LinkAt(h, k).Some?
    ensures StartsWith(h, FrameLink(LinkMatch(h[..k], LinkAt(h, k).value)))
    ensures '\n' !in h[..k]
  {
    var digits := LinkAt(h, k).value;
    PrefixThen(h, k, Frame(digits));
    PrefixInLine(h, k);
  }

  /** What follows position `k` extends the text before it. */
  lemma PrefixThen(h: string, k: nat, rest: string)
    requires k <= |h| && StartsWith(h[k..], rest)
    ensures StartsWith(h, h[..k] + rest)
  {
    var t := h[..k] + rest;
    forall i | 0 <= i < |t|
      ensures h[i] == t[i]
    {
      if i >= k {
        assert h[k..][i - k] == h[i];
      }
    }
    assert h[..|t|] == t;
  }

  /** The text before a position within the first line has no newline. */
  lemma PrefixInLine(h: string, k: nat)
    requires k <= LineEnd(h)
    ensures '\n' !in h[..k]
  {
    assert forall i :: 0 <= i < k ==> h[..k][i] != '\n';
  }

  /** The link to download for one index row, or None for a row that is
      skipped. */
  function ItemLink(href: string): (r: Option<string>)
    ensures r.Some? ==> MatchLink(Strip(href)).Some?
    ensures r.Some? ==> |r.value| <= |Strip(href)|
  {
    match MatchLink(Strip(href))
    case None => None
    case Some(m) => if m.digits == Sentinel then None else Some(TextLink(m))
  }

  /** The match at a position starts with the letter f. */
  lemma LinkAtStartsWithF(h: string, k: nat)
    requires k <= |h| && LinkAt(h, k).Some?
    ensures k < |h| && h[k] == 'f'
  {
    var d := LinkAt(h, k).value;
    assert Frame(d)[0] == 'f';
    assert h[k..][0] == h[k];
  }




  /** Greediness: the prefix taken is the longest one, within the first
      line, that the rest of the pattern can follow. */
  lemma MatchLinkIsLast(h: string, i: nat)
    requires MatchLink(h).Some?
    requires |MatchLink(h).value.prefix| < i <= LineEnd(h)
    ensures LinkAt(h, i).None?
  {
    LastAtOrBeforeIsLast(LineEnd(h), LinkStarts(h), i);
  }

  /** A row without `frmtxt<digits>.htm` in its first line is no link. */
  lemma MatchLinkNone(h: string, i: nat)
    requires MatchLink(h).None? && i <= LineEnd(h)
    ensures LinkAt(h, i).None?
  {
    assert Search(h, LineEnd(h)).None?;
    LastAtOrBeforeNone(LineEnd(h), LinkStarts(h));
    assert !LinkStarts(h)(i);
  }

  /** The pattern at the end of `prefix`, in a text whose later positions
      hold no `f`, is the match. */
  lemma MatchLinkOf(h: string, m: LinkMatch)
    requires '\n' !in m.prefix
    requires |m.digits| > 0 && AllIn(m.digits, Digits)
    requires h == FrameLink(m)
    ensures MatchLink(h) == Some(m)
  {
    var k := |m.prefix|;
    var frame := Frame(m.digits);
    assert h == m.prefix + frame;
    assert LineEnd(h) == |h| by {
      FrameLinkLine(m);
    }
    assert LinkAt(h, k) == Some(m.digits) by {
      assert h[k..] == frame;
      FrameLinkAt(m.digits);
    }
    forall i | k < i <= |h|
      ensures LinkAt(h, i).None?
    {
      NoLaterMatch(m, i);
    }
    LastAtOrBeforeFinds(|h|, LinkStarts(h), k);
    assert h[..k] == m.prefix;
  }

  /** A frame link has no newline when its prefix has none. */
  lemma FrameLinkLine(m: LinkMatch)
    requires '\n' !in m.prefix && AllIn(m.digits, Digits)
    ensures LineEnd(FrameLink(m)) == |FrameLink(m)|
  {
    var h := FrameLink(m);
    var frame := Frame(m.digits);
    assert h == m.prefix + frame;
    assert forall i :: 0 <= i < |m.prefix| ==> h[i] == m.prefix[i];
    assert forall i :: |m.prefix| <= i < |h| ==> h[i] == frame[i - |m.prefix|];
    assert forall i :: 0 <= i < |frame| ==> frame[i] != '\n';
    LineEndAll(h);
  }

  /** No match starts inside the frame link's own `frmtxt<digits>.htm`. */
  lemma NoLaterMatch(m: LinkMatch, i: nat)
    requires AllIn(m.digits, Digits)
    requires |m.prefix| < i <= |FrameLink(m)|
    ensures LinkAt(FrameLink(m), i).None?
  {
    var h := FrameLink(m);
    var frame := Frame(m.digits);
    assert h == m.prefix + frame;
    if i < |h| {
      assert h[i] == frame[i - |m.prefix|];
      NoLaterF(m.digits, i - |m.prefix|);
    }
    if LinkAt(h, i).Some? {
      LinkAtStartsWithF(h, i);
    }
  }

  /** Past its first letter, `frmtxt<digits>.htm` holds no `f`. */
  lemma NoLaterF(digits: string, i: nat)
    requires AllIn(digits, Digits) && 0 < i < |Frame(digits)|
    ensures Frame(digits)[i] != 'f'
  {
    var frame := Frame(digits);
    if 6 <= i < 6 + |digits| {
      assert frame[i] == digits[i - 6];
    }
  }

  /** `frmtxt<digits>.htm` matches at its own start. */
  lemma FrameLinkAt(digits: string)
    requires |digits| > 0 && AllIn(digits, Digits)
    ensures LinkAt(Frame(digits), 0) == Some(digits)
  {
    var h := Frame(digits);
    assert h[0..] == h;
    assert h[6..] == digits + ".htm";
    RunSplitsAtBoundary(digits, ".htm", Digits);
  }

  lemma {:induction false} LineEndAll(h: string)
    requires forall i :: 0 <= i < |h| ==> h[i] != '\n'
    ensures LineEnd(h) == |h|
    decreases |h|
  {
    if |h| > 0 {
      LineEndAll(h[1..]);
    }
  }

  /** An `href` of the form `<prefix>frmtxt<digits>.htm`, already stripped,
      is rewritten to `<prefix>htmtxt<digits>.htm` with the same prefix and
      digits, unless the digits are the sentinel. */
  lemma ItemLinkOf(m: LinkMatch)
    requires '\n' !in m.prefix
    requires |m.digits| > 0 && AllIn(m.digits, Digits)
    requires |m.prefix| == 0 || !IsPySpace(m.prefix[0])
    ensures m.digits != Sentinel ==> ItemLink(FrameLink(m)) == Some(TextLink(m))
    ensures m.digits == Sentinel ==> ItemLink(FrameLink(m)) == None
  {
    var h := FrameLink(m);
    assert h[|h| - 1] == 'm';
    assert |m.prefix| == 0 ==> h[0] == 'f';
    assert |m.prefix| > 0 ==> h[0] == m.prefix[0];
    StripUnpadded(h);
    MatchLinkOf(h, m);
  }

  /** Rows the pattern does not match are skipped. */
  lemma ItemLinkNoMatch(href: string)
    requires forall i :: 0 <= i <= LineEnd(Strip(href)) ==> LinkAt(Strip(href), i).None?
    ensures ItemLink(href) == None
  {
    var h := Strip(href);
    LastAtOrBeforeNone(LineEnd(h), LinkStarts(h));
  }


  // The pause between downloads

  /** `max(last_download_time - time.time() + download_interval, 0)`: how
      long to sleep before the next download, with times as real numbers of
      seconds. It is never negative, it waits until `interval` after `last`,
      and it is zero exactly when that moment has passed. */
  function Pause(last: real, now: real, interval: real): (r: real)
    ensures r >= 0.0
    ensures now + r >= last + interval
    ensures r == 0.0 || now + r == last + interval
  {
    if last - now + interval > 0.0 then last - now + interval else 0.0
  }

  /** The pause is zero exactly when the interval after `last` has passed. */
  lemma PauseZero(last: real, now: real, interval: real)
    ensures Pause(last, now, interval) == 0.0 ==> now >= last + interval
    ensures now >= last + interval ==> Pause(last, now, interval) == 0.0
  {
  }

  /** The times the agenda-item downloads begin in the loop as written:
      `nows[k]` is the clock reading before download `k`, and `last` stays
      `last_download_time`, the time the index page was downloaded, for
      the whole loop. Each download begins after its reading, and none
      before one interval after the index page. */
  function StartsAsWritten(last: real, nows: seq<real>, interval: real): (r: seq<real>)
    ensures |r| == |nows|
    ensures forall k :: 0 <= k < |r| ==> r[k] >= nows[k] && r[k] >= last + interval
  {
    seq(|nows|, k requires 0 <= k < |nows| => nows[k] + Pause(last, nows[k], interval))
  }

  /** As written, once one interval has passed since the index page, no
      download waits at all. */
  lemma AsWrittenStopsPausing(last: real, nows: seq<real>, interval: real, k: nat)
    requires k < |nows| && nows[k] >= last + interval
    ensures StartsAsWritten(last, nows, interval)[k] == nows[k]
  {
    PauseZero(last, nows[k], interval);
  }

  /** An index page downloaded at 0 s, an interval of 1 s, and two agenda
      items whose clock readings are 1 s and 1.5 s: the two downloads begin
      half an interval apart. */
  lemma AsWrittenBurst()
    ensures StartsAsWritten(0.0, [1.0, 1.5], 1.0) == [1.0, 1.5]
  {
    AsWrittenStopsPausing(0.0, [1.0, 1.5], 1.0, 0);
    AsWrittenStopsPausing(0.0, [1.0, 1.5], 1.0, 1);
  }

  /** The loop with the time of each download recorded as it begins:
      every download begins at least one interval after the one before it,
      the first one interval after the index page, and no later than its
      clock reading requires. */
  function Starts(last: real, nows: seq<real>, interval: real): (r: seq<real>)
    ensures |r| == |nows|
    ensures forall k :: 0 <= k < |r| ==> r[k] >= nows[k]
    ensures |r| > 0 ==> r[0] >= last + interval
    ensures forall k :: 0 < k < |r| ==> r[k] >= r[k - 1] + interval
    ensures forall k :: 0 <= k < |r| ==> r[k] == nows[k] || r[k] == (if k == 0 then last else r[k - 1]) + interval
    decreases |nows|
  {
    if |nows| == 0 then []
    else
      var first := nows[0] + Pause(last, nows[0], interval);
      [first] + Starts(first, nows[1..], interval)
  }
}

/** The person-name pattern `_RE_PERSON` of the preparer extractor
    (klupung/ktweb.py) and `findall` over it. A name is two or more
    space-separated tokens, a token is one or more capitalised words joined
    by hyphens, and a capitalised word is an upper-case letter followed by
    lower-case letters, where the letters are the ASCII ones plus the
    Finnish and Swedish vowels. */
module Names {
  import opened Text

  const Upper: set<char> := (set c: char | 'A' <= c <= 'Z') + {'Ö', 'Ä', 'Å'}
  const Lower: set<char> := (set c: char | 'a' <= c <= 'z') + {'ö', 'ä', 'å'}

  /** The characters that join capitalised words inside a name. */
  const Joiners: set<char> := {'-', ' '}

  /** `s[..i]` is capitalised words separated by single joiners: it starts
      with an upper-case letter, an upper-case letter appears exactly after
      a joiner, and it does not end with a joiner. */
  predicate ChainPrefix(s: string, i: nat)
    requires i <= |s|
  {
    && 0 < i && s[0] in Upper && s[i - 1] !in Joiners
    && (forall k :: 0 <= k < i ==> ChainAt(s, k))
  }

  /** Position `k` of a chain: a letter or a joiner, and an upper-case
      letter exactly after a joiner. */
  predicate ChainAt(s: string, k: nat)
    requires k < |s|
  {
    && (s[k] in Upper || s[k] in Lower || s[k] in Joiners)
    && (0 < k ==> (s[k] in Upper <==> s[k - 1] in Joiners))
  }

  /** A string the whole of `_RE_PERSON` matches: hyphen- and space-joined
      capitalised words with at least one space. */
  predicate IsName(n: string) {
    ChainPrefix(n, |n|) && ' ' in n
  }

  /** Every string of `ns` is a name. */
  predicate AllNames(ns: seq<string>) {
    forall k :: 0 <= k < |ns| ==> IsName(ns[k])
  }

  /** How far the pattern's greedy loops carry a match that has reached
      `s[..i]`: on over a lower-case letter, or over a joiner followed by an
      upper-case letter, for as long as possible. */
  function ChainEnd(s: string, i: nat): (e: nat)
    requires 0 < i <= |s|
    ensures i <= e <= |s|
    decreases |s| - i
  {
    if i < |s| && s[i] in Lower then ChainEnd(s, i + 1)
    else if i + 1 < |s| && s[i] in Joiners && s[i + 1] in Upper then ChainEnd(s, i + 2)
    else i
  }

  /** Length of the `_RE_PERSON` match at the start of `s`, 0 for none.
      Greedy matching runs the longest chain of capitalised words it can;
      backtracking cannot help afterwards, since giving back a letter or a
      hyphen part leaves a character that is not a space. The match succeeds
      when that chain holds a space. */
  function NameLength(s: string): (k: nat)
    ensures k <= |s|
    ensures k > 0 ==> IsName(s[..k])
  {
    if |s| > 0 && s[0] in Upper then
      var e := ChainEnd(s, 1);
      ChainEndExtends(s, 1);
      ChainPrefixSlice(s, e);
      if ' ' in s[..e] then e else 0
    else 0
  }

  /** `_RE_PERSON.findall(text)`: scan left to right, take each match and go
      on after it, otherwise move one character on. Every result is a name. */
  function FindNames(text: string): (r: seq<string>)
    ensures AllNames(r)
    decreases |text|
  {
    if |text| == 0 then []
    else
      var n := NameLength(text);
      if n > 0 then [text[..n]] + FindNames(text[n..])
      else FindNames(text[1..])
  }

  lemma ChainPrefixSlice(s: string, i: nat)
    requires i <= |s|
    ensures ChainPrefix(s, i) <==> ChainPrefix(s[..i], i)
  {
    forall k | 0 <= k < i
      ensures ChainAt(s, k) <==> ChainAt(s[..i], k)
    {
      if k > 0 {
        assert s[..i][k - 1] == s[k - 1];
      }
    }
  }

  /** The scanner keeps a chain a chain. */
  lemma {:induction false} ChainEndExtends(s: string, i: nat)
    requires 0 < i <= |s| && ChainPrefix(s, i)
    ensures ChainPrefix(s, ChainEnd(s, i))
    decreases |s| - i
  {
    assert Upper !! Lower && Upper !! Joiners && Lower !! Joiners;
    if i < |s| && s[i] in Lower {
      assert ChainPrefix(s, i + 1);
      ChainEndExtends(s, i + 1);
    } else if i + 1 < |s| && s[i] in Joiners && s[i + 1] in Upper {
      assert ChainPrefix(s, i + 2);
      ChainEndExtends(s, i + 2);
    }
  }

  /** The scanner stops at the longest chain: no longer prefix of `s` is
      one. */
  lemma {:induction false} ChainEndMaximal(s: string, i: nat, j: nat)
    requires 0 < i <= |s| && ChainPrefix(s, i)
    requires i <= j <= |s| && ChainPrefix(s, j)
    ensures j <= ChainEnd(s, i)
    decreases |s| - i
  {
    assert Upper !! Lower && Upper !! Joiners && Lower !! Joiners;
    if i < |s| && s[i] in Lower {
      if i < j {
        assert ChainPrefix(s, i + 1);
        ChainEndMaximal(s, i + 1, j);
      }
    } else if i + 1 < |s| && s[i] in Joiners && s[i + 1] in Upper {
      if i < j {
        assert ChainAt(s, i + 1);
        assert ChainPrefix(s, i + 2);
        assert i + 1 < j;
        ChainEndMaximal(s, i + 2, j);
      }
    } else if i < j {
      ChainCannotPass(s, i, j);
    }
  }

  /** No prefix of `s` longer than the match is a name. */
  lemma NameLengthMaximal(s: string, j: nat)
    requires NameLength(s) > 0 && NameLength(s) < j <= |s|
    ensures !IsName(s[..j])
  {
    if IsName(s[..j]) {
      ChainPrefixSlice(s, j);
      ChainPrefixSlice(s, 1);
      ChainEndMaximal(s, 1, j);
    }
  }

  /** A name followed by something that cannot extend it is matched whole. */
  lemma NameLengthOfName(n: string, rest: string)
    requires IsName(n)
    requires |rest| == 0 || (rest[0] !in Lower && (rest[0] in Joiners ==> |rest| == 1 || rest[1] !in Upper))
    ensures NameLength(n + rest) == |n|
  {
    var s := n + rest;
    assert s[..|n|] == n;
    ChainPrefixSlice(s, |n|);
    ChainPrefixSlice(s, 1);
    ChainEndMaximal(s, 1, |n|);
    ChainEndExtends(s, 1);
    var e := ChainEnd(s, 1);
    if e > |n| {
      assert s[|n| - 1] == n[|n| - 1] && s[|n|] == rest[0];
      assert |n| + 1 < |s| ==> s[|n| + 1] == rest[1];
      ChainCannotPass(s, |n|, e);
    }
    assert s[..e] == n;
  }

  /** A chain that ends before a character that neither continues a word
      nor joins a new one cannot go on past it. */
  lemma ChainCannotPass(s: string, m: nat, j: nat)
    requires 0 < m < j <= |s| && s[m - 1] !in Joiners && s[m] !in Lower
    requires s[m] in Joiners ==> m + 1 == |s| || s[m + 1] !in Upper
    ensures !(ChainAt(s, m) && s[j - 1] !in Joiners && (m + 1 < j ==> ChainAt(s, m + 1)))
  {
    assert Upper !! Lower && Upper !! Joiners && Lower !! Joiners;
  }

  /** A name at the start of the text, followed by something that cannot
      extend it, is the first name found, and the search goes on after it. */
  lemma FindNamesLeadingName(n: string, rest: string)
    requires IsName(n)
    requires |rest| == 0 || (rest[0] !in Lower && (rest[0] in Joiners ==> |rest| == 1 || rest[1] !in Upper))
    ensures FindNames(n + rest) == [n] + FindNames(rest)
  {
    NameLengthOfName(n, rest);
    var s := n + rest;
    assert s[..|n|] == n && s[|n|..] == rest;
  }

  /** Text without upper-case letters holds no name. */
  lemma {:induction false} FindNamesNone(text: string)
    requires forall i :: 0 <= i < |text| ==> text[i] !in Upper
    ensures FindNames(text) == []
    decreases |text|
  {
    if |text| > 0 {
      FindNamesNone(text[1..]);
    }
  }
}

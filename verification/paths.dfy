/** Path handling of the meeting-document parser, with `/` as the path
    separator: `os.path.basename` and `os.path.dirname` as `posixpath`
    defines them, the agenda-item file filter that both scrapers apply to
    what `glob` yields (klupung/ktweb.py, classic/klupu/__init__.py), and
    the `origin_id` built from the last three path components. */
module Paths {
  import opened Text
  import opened Scan

  /** The file name of the meeting cover page, which is not an agenda item. */
  const CoverPageName: string := "htmtxt0.htm"

  /** `p.rfind('/') + 1`: the position just after the last slash, 0 when
      there is none. */
  function SlashEnd(p: string): (k: nat)
    ensures k <= |p|
    ensures k > 0 ==> p[k - 1] == '/'
    ensures forall i :: k <= i < |p| ==> p[i] != '/'
    decreases |p|
  {
    if |p| == 0 then 0
    else if p[|p| - 1] == '/' then |p|
    else SlashEnd(p[..|p| - 1])
  }

  /** `posixpath.basename`: the longest suffix without a slash. */
  function BaseName(p: string): (r: string)
    ensures '/' !in r
    ensures EndsWith(p, r)
    ensures |r| < |p| ==> p[|p| - |r| - 1] == '/'
  {
    var k := SlashEnd(p);
    assert forall i :: 0 <= i < |p| - k ==> p[k..][i] == p[k + i];
    p[k..]
  }

  /** `s.rstrip('/')`. */
  function TrimSlashes(s: string): (r: string)
    ensures StartsWith(s, r)
    ensures |r| == 0 || r[|r| - 1] != '/'
    ensures forall i :: |r| <= i < |s| ==> s[i] == '/'
    decreases |s|
  {
    if |s| > 0 && s[|s| - 1] == '/' then
      var r := TrimSlashes(s[..|s| - 1]);
      assert s[..|s| - 1][..|r|] == s[..|r|];
      r
    else s
  }

  /** Every character of `s` is a slash. */
  predicate AllSlashes(s: string) {
    forall i :: 0 <= i < |s| ==> s[i] == '/'
  }

  /** `posixpath.dirname`: everything up to the last slash, with the
      trailing slashes taken off unless nothing but slashes is left. */
  function DirName(p: string): (r: string)
    ensures StartsWith(p, r)
    ensures |r| <= SlashEnd(p)
  {
    var head := p[..SlashEnd(p)];
    if |head| > 0 && !AllSlashes(head) then
      var r := TrimSlashes(head);
      assert head[..|r|] == p[..|r|];
      r
    else head
  }

  /** The base name of a path that ends in a component is that component. */
  lemma BaseNameOf(dir: string, name: string)
    requires '/' !in name
    ensures BaseName(dir + ['/'] + name) == name
  {
    var p := dir + ['/'] + name;
    SlashEndOf(dir + ['/'], name);
    assert p[|dir| + 1..] == name;
  }

  /** A path without a slash is its own base name. */
  lemma BaseNameOfName(name: string)
    requires '/' !in name
    ensures BaseName(name) == name
  {
    assert forall i :: 0 <= i < |name| ==> name[i] != '/';
  }

  /** The directory part of `dir/name` is `dir`, when `dir` does not end in
      a slash. */
  lemma DirNameOf(dir: string, name: string)
    requires '/' !in name
    requires |dir| > 0 && dir[|dir| - 1] != '/'
    ensures DirName(dir + ['/'] + name) == dir
  {
    var p := dir + ['/'] + name;
    var k := |dir| + 1;
    assert SlashEnd(p) == k by {
      SlashEndOf(dir + ['/'], name);
    }
    var head := p[..k];
    assert head == dir + ['/'];
    assert !AllSlashes(head) by {
      assert head[|dir| - 1] == dir[|dir| - 1];
    }
    assert TrimSlashes(head) == dir by {
      assert head[..|head| - 1] == dir;
    }
  }

  lemma SlashEndOf(front: string, name: string)
    requires |front| > 0 && front[|front| - 1] == '/' && '/' !in name
    ensures SlashEnd(front + name) == |front|
  {
    var p := front + name;
    assert p[|front| - 1] == '/';
    assert forall i :: |front| <= i < |p| ==> p[i] == name[i - |front|];
    assert forall i :: 0 <= i < |name| ==> name[i] != '/';
  }

  // The agenda-item file filter

  /** A path the scrapers parse as an agenda item: any but the cover page. */
  predicate IsAgendaItemFile(p: string) {
    BaseName(p) != CoverPageName
  }

  /** What the scrapers keep of the paths `glob` yields for `htmtxt*.htm`:
      every path whose base name is not the cover page, in order. */
  function AgendaItemFiles(paths: seq<string>): (r: seq<string>)
    ensures |r| <= |paths|
    ensures forall i :: 0 <= i < |r| ==> BaseName(r[i]) != CoverPageName
  {
    Filter(paths, IsAgendaItemFile)
  }

  /** The filter keeps exactly the paths that are not the cover page. */
  lemma AgendaItemFilesMembers(paths: seq<string>, p: string)
    ensures p in AgendaItemFiles(paths) ==> p in paths && BaseName(p) != CoverPageName
    ensures p in paths && BaseName(p) != CoverPageName ==> p in AgendaItemFiles(paths)
  {
    FilterMembers(paths, IsAgendaItemFile, p);
  }

  /** The filter works path by path, so the order `glob` yields is kept. */
  lemma AgendaItemFilesConcat(a: seq<string>, b: seq<string>)
    ensures AgendaItemFiles(a + b) == AgendaItemFiles(a) + AgendaItemFiles(b)
  {
    FilterConcat(a, b, IsAgendaItemFile);
  }

  // origin_id

  /** `parts[-3:]`: the last three elements, or all when there are fewer. */
  function LastThree(parts: seq<string>): (r: seq<string>)
    ensures |r| == if |parts| < 3 then |parts| else 3
    ensures r == parts[|parts| - |r|..]
  {
    if |parts| <= 3 then parts else parts[|parts| - 3..]
  }

  /** `"/".join(path.split("/")[-3:])`: the meeting document's identifier,
      made of the last three components of its directory path. */
  function OriginId(path: string): (r: string)
    ensures |r| <= |path|
  {
    var parts := Split(path, '/');
    var r := Join(LastThree(parts), '/');
    OriginIdIsSuffix(path);
    r
  }

  /** The identifier is the tail of the path from the third slash from
      the end on. */
  lemma OriginIdIsSuffix(path: string)
    ensures EndsWith(path, Join(LastThree(Split(path, '/')), '/'))
  {
    var parts := Split(path, '/');
    JoinSplit(path, '/');
    JoinTail(parts, '/', |parts| - |LastThree(parts)|);
  }

  /** The identifier holds at most two slashes: as many as the path when
      it has fewer. */
  lemma OriginIdSlashes(path: string)
    ensures Count(OriginId(path), '/') == if Count(path, '/') < 2 then Count(path, '/') else 2
  {
    var parts := Split(path, '/');
    var tail := LastThree(parts);
    assert |parts| == Count(path, '/') + 1 by {
      SplitCount(path, '/');
    }
    assert Count(Join(tail, '/'), '/') == |tail| - 1 by {
      forall i | 0 <= i < |tail|
        ensures '/' !in tail[i]
      {
        assert tail[i] == parts[|parts| - |tail| + i];
      }
      JoinCount(tail, '/');
    }
    assert OriginId(path) == Join(tail, '/');
  }

  /** Under any leading directories, `.../a/b/c` has the identifier
      `a/b/c`. */
  lemma OriginIdOf(front: string, a: string, b: string, c: string)
    requires '/' !in a && '/' !in b && '/' !in c
    ensures OriginId(front + ['/'] + Join([a, b, c], '/')) == Join([a, b, c], '/')
  {
    var abc := [a, b, c];
    var t := Join(abc, '/');
    SplitJoin(abc, '/');
    SplitAppend(front, '/', t);
    var parts := Split(front, '/') + abc;
    assert LastThree(parts) == abc;
  }
}

/** The HTML sanitiser `_cleanup_soup` (klupung/ktweb.py), applied to every
    fetched page before it is stored; `clean_soup` of the classic scraper
    (classic/klupu) is the same sequence of steps. A parsed document is a
    sequence of nodes; elements carry a name, attributes and children, and
    string nodes carry the kind of string BeautifulSoup made of them. */
module Sanitizer {
  import opened Text

  /** The NavigableString subclasses a parsed document may contain. */
  datatype StringKind =
    | PlainText
    | CommentText
    | DeclarationText
    | DoctypeText
    | CDataText
    | ProcessingInstructionText

  datatype Node =
    | Element(name: string, attrs: map<string, string>, children: seq<Node>)
    | Str(kind: StringKind, text: string)

  /** The only attributes a sanitised element keeps. */
  const KeptAttributes: set<string> := {"class", "href", "target"}

  /** Elements removed together with everything inside them. */
  const DroppedTags: set<string> := {"style", "meta"}

  /** The node is removed outright: a comment, a declaration, or a `style`
      or `meta` element. */
  predicate Dropped(n: Node) {
    match n
    case Str(kind, _) => kind == CommentText || kind == DeclarationText
    case Element(name, _, _) => name in DroppedTags
  }

  /** What every node of a sanitised document satisfies: no dropped node,
      only kept attributes, and text without carriage returns held in plain
      strings. */
  predicate Sanitized(ns: seq<Node>)
    decreases ns
  {
    |ns| == 0 ||
    (&& Sanitized(ns[1..])
     && match ns[0]
        case Str(kind, text) => kind == PlainText && '\r' !in text
        case Element(name, attrs, children) =>
          name !in DroppedTags && attrs.Keys <= KeptAttributes && Sanitized(children))
  }

  /** `{a: attrs[a] for a in saved_attrs}`: the attributes named in
      `KeptAttributes`, with their values untouched. */
  function KeepAttributes(attrs: map<string, string>): (r: map<string, string>)
    ensures r.Keys == attrs.Keys * KeptAttributes
    ensures forall a :: a in r ==> r[a] == attrs[a]
  {
    map a | a in attrs && a in KeptAttributes :: attrs[a]
  }

  /** `re.sub(r"\r", "", text)`. */
  function DropCarriageReturns(text: string): (r: string)
    ensures '\r' !in r
  {
    Remove(text, {'\r'})
  }

  lemma SanitizedCons(n: Node, rest: seq<Node>)
    requires Sanitized([n]) && Sanitized(rest)
    ensures Sanitized([n] + rest)
  {
    assert ([n] + rest)[1..] == rest;
    assert [n][1..] == [];
  }

  /** `_cleanup_soup` on one node: nothing for a dropped node, otherwise
      the node cleaned. A string that stays becomes a plain string
      (BeautifulSoup wraps the replacement `str` in a NavigableString) with
      its carriage returns deleted; an element that stays keeps its name and
      only its kept attributes, and its children are cleaned in turn. */
  function CleanupNode(n: Node): (r: seq<Node>)
    ensures |r| <= 1 && Sanitized(r)
    ensures |r| == 0 <==> Dropped(n)
    decreases n, 0
  {
    var r := match n
      case Str(kind, text) =>
        if kind == CommentText || kind == DeclarationText then []
        else [Str(PlainText, DropCarriageReturns(text))]
      case Element(name, attrs, children) =>
        if name in DroppedTags then []
        else [Element(name, KeepAttributes(attrs), Cleanup(children))];
    assert |r| == 1 ==> r[1..] == [];
    r
  }

  /** `_cleanup_soup` on a sequence of sibling nodes: each node cleaned in
      place. The result is `Sanitized`, and no node is added. */
  function Cleanup(ns: seq<Node>): (r: seq<Node>)
    ensures |r| <= |ns|
    ensures Sanitized(r)
    decreases ns, 1
  {
    if |ns| == 0 then []
    else
      var head, rest := CleanupNode(ns[0]), Cleanup(ns[1..]);
      if |head| == 1 then SanitizedCons(head[0], rest); assert head == [head[0]]; head + rest
      else assert head + rest == rest; head + rest
  }

  /** A node disappears exactly when it is `Dropped`; a surviving element
      keeps its name and the values of its kept attributes, and a surviving
      string keeps its text but for carriage returns. */
  lemma CleanupOne(n: Node)
    ensures Dropped(n) <==> Cleanup([n]) == []
    ensures !Dropped(n) ==> |Cleanup([n])| == 1
    ensures !Dropped(n) && n.Element? ==>
              && Cleanup([n])[0].Element?
              && Cleanup([n])[0].name == n.name
              && Cleanup([n])[0].attrs.Keys == n.attrs.Keys * KeptAttributes
              && (forall a :: a in Cleanup([n])[0].attrs ==> Cleanup([n])[0].attrs[a] == n.attrs[a])
              && Cleanup([n])[0].children == Cleanup(n.children)
    ensures !Dropped(n) && n.Str? ==> Cleanup([n])[0] == Str(PlainText, Remove(n.text, {'\r'}))
  {
    assert [n][1..] == [];
  }

  /** Siblings are sanitised independently of one another. */
  lemma {:induction false} CleanupConcat(a: seq<Node>, b: seq<Node>)
    ensures Cleanup(a + b) == Cleanup(a) + Cleanup(b)
    decreases |a|
  {
    if |a| == 0 {
      assert a + b == b;
    } else {
      assert (a + b)[0] == a[0];
      assert (a + b)[1..] == a[1..] + b;
      CleanupConcat(a[1..], b);
    }
  }

  /** A sanitised document is left as it is. */
  lemma {:induction false} CleanupFixed(ns: seq<Node>)
    requires Sanitized(ns)
    ensures Cleanup(ns) == ns
    decreases ns
  {
    if |ns| > 0 {
      CleanupFixed(ns[1..]);
      match ns[0]
      case Str(kind, text) =>
        RemoveNoneGone(text, {'\r'});
      case Element(name, attrs, children) =>
        CleanupFixed(children);
        assert KeepAttributes(attrs) == attrs;
      assert ns == [ns[0]] + ns[1..];
    }
  }

  /** Sanitising twice is the same as sanitising once. */
  lemma CleanupIdempotent(ns: seq<Node>)
    ensures Cleanup(Cleanup(ns)) == Cleanup(ns)
  {
    CleanupFixed(Cleanup(ns));
  }
}

/**
 * The parsed page: a finite tree of elements and text, positions in it as paths of
 * child indices, the CSS selections the scraper uses, and the fetcher as a map from
 * locator to page.
 */
module Dom {
  import opened Wrappers
  import opened JavaText
  import opened Folds

  datatype Node =
    | Element(tag: string, attrs: map<string, string>, children: seq<Node>)
    | Text(content: string)

  /** A position: the child indices leading from the root down to a node. */
  type Path = seq<nat>

  /** What each locator fetches to; a locator that is absent or maps to None failed to load. */
  type Web = map<string, Option<Node>>

  /** WebParser.fetchPage, with the network replaced by a lookup. */
  function Fetch(web: Web, url: string): (r: Option<Node>)
    ensures r.Some? <==> url in web && web[url].Some?
  {
    if url in web then web[url] else None
  }

  // ---------------------------------------------------------------- node contents

  /** Element.attr: the attribute's value, or "" when it is absent. */
  function Attr(n: Node, key: string): string {
    if n.Element? && key in n.attrs then n.attrs[key] else ""
  }

  /** Element.hasClass: one of the whitespace-separated class names equals cls, ignoring case. */
  predicate HasClass(n: Node, cls: string) {
    n.Element? && Any(w => EqIgnoreCase(w, cls), Words(Attr(n, "class")))
  }

  /** hasClass holds exactly when some class name equals cls, ignoring case. */
  lemma HasClassMeaning(n: Node, cls: string)
    ensures HasClass(n, cls) <==>
      n.Element? && exists k :: 0 <= k < |Words(Attr(n, "class"))| && EqIgnoreCase(Words(Attr(n, "class"))[k], cls)
  {
    var ws := Words(Attr(n, "class"));
    var same := w => EqIgnoreCase(w, cls);
    AnyMeaning(same, ws);
    assert forall k :: 0 <= k < |ws| ==> same(ws[k]) == EqIgnoreCase(ws[k], cls);
  }

  /** Element.text: the text of every descendant text node, in document order. */
  function TextOf(n: Node): string
    decreases n, 1
  {
    match n
    case Text(s) => s
    case Element(_, _, cs) => TextUpTo(n, |cs|)
  }

  /** The text of the first i children of an element. */
  function TextUpTo(n: Node, i: nat): string
    requires n.Element? && i <= |n.children|
    decreases n, 0, i
  {
    if i == 0 then "" else TextUpTo(n, i - 1) + TextOf(n.children[i - 1])
  }

  /** Element.ownText: the text of the direct text children only. */
  function OwnText(n: Node): string {
    if n.Element? then OwnTextOf(n.children) else ""
  }

  function OwnTextOf(cs: seq<Node>): string {
    if cs == [] then ""
    else
      var last := cs[|cs| - 1];
      OwnTextOf(cs[..|cs| - 1]) + (if last.Text? then last.content else "")
  }

  // ---------------------------------------------------------------- positions

  /** The node at a path, if the path leads anywhere. */
  function At(n: Node, p: Path): Option<Node>
    decreases |p|
  {
    if p == [] then Some(n)
    else match n
      case Text(_) => None
      case Element(_, _, cs) => if p[0] < |cs| then At(cs[p[0]], p[1..]) else None
  }

  /** Following a path and then another is following their concatenation. */
  lemma {:induction false} AtAppend(n: Node, p: Path, q: Path)
    requires At(n, p).Some?
    ensures At(n, p + q) == At(At(n, p).value, q)
    decreases |p|
  {
    if p == [] {
      assert p + q == q;
    } else {
      assert (p + q)[0] == p[0] && (p + q)[1..] == p[1..] + q;
      AtAppend(n.children[p[0]], p[1..], q);
    }
  }

  /** A child of the node at p sits at p extended by its index. */
  lemma AtChild(n: Node, p: Path, j: nat)
    requires At(n, p).Some? && At(n, p).value.Element? && j < |At(n, p).value.children|
    ensures At(n, p + [j]) == Some(At(n, p).value.children[j])
  {
    AtAppend(n, p, [j]);
  }

  /** Whatever lies below a node hangs off an element: the parent position of a reachable one. */
  lemma {:induction false} AtParent(n: Node, p: Path)
    requires p != [] && At(n, p).Some?
    ensures At(n, p[..|p| - 1]).Some? && At(n, p[..|p| - 1]).value.Element?
    ensures p[|p| - 1] < |At(n, p[..|p| - 1]).value.children|
    ensures At(n, p) == Some(At(n, p[..|p| - 1]).value.children[p[|p| - 1]])
    decreases |p|
  {
    if |p| > 1 {
      var c := n.children[p[0]];
      AtParent(c, p[1..]);
      assert p[..|p| - 1][0] == p[0] && p[..|p| - 1][1..] == p[1..][..|p| - 2];
    }
  }

  /** Every element position under n (n itself first), in document order (pre-order). */
  function AllPaths(n: Node): seq<Path>
    decreases n, 1
  {
    match n
    case Text(_) => []
    case Element(_, _, _) => [[]] + PathsFrom(n, 0)
  }

  function PathsFrom(n: Node, i: nat): seq<Path>
    requires n.Element?
    decreases n, 0, |n.children| - i
  {
    if i >= |n.children| then [] else Under(i, AllPaths(n.children[i])) + PathsFrom(n, i + 1)
  }

  /** The paths of a child's subtree, seen from its parent. */
  function Under(i: nat, ps: seq<Path>): (r: seq<Path>)
    ensures |r| == |ps|
    ensures forall k :: 0 <= k < |ps| ==> r[k] == [i] + ps[k]
  {
    seq(|ps|, k requires 0 <= k < |ps| => [i] + ps[k])
  }

  /** A subtree's position k, seen from the parent, is among the positions from child j on. */
  lemma {:induction false} PathsFromHas(n: Node, j: nat, i: nat, rest: Path)
    requires n.Element? && j <= i < |n.children| && rest in AllPaths(n.children[i])
    ensures [i] + rest in PathsFrom(n, j)
    decreases i - j
  {
    if j < i {
      PathsFromHas(n, j + 1, i, rest);
    } else {
      var ps := AllPaths(n.children[i]);
      var k :| 0 <= k < |ps| && ps[k] == rest;
      assert Under(i, ps)[k] == [i] + rest;
    }
  }

  /** AllPaths lists every element position. */
  lemma {:induction false} AllPathsComplete(n: Node, p: Path)
    requires At(n, p).Some? && At(n, p).value.Element?
    ensures p in AllPaths(n)
    decreases |p|
  {
    if p != [] {
      AllPathsComplete(n.children[p[0]], p[1..]);
      PathsFromHas(n, 0, p[0], p[1..]);
      assert [p[0]] + p[1..] == p;
    }
  }

  /** Element.parent: the path one level up; the root has none. */
  function Parent(p: Path): Option<Path> {
    if p == [] then None else Some(p[..|p| - 1])
  }

  /** The index of the first element among cs at or after j. */
  function FirstElementFrom(cs: seq<Node>, j: nat): (r: Option<nat>)
    ensures r.Some? ==> j <= r.value < |cs| && cs[r.value].Element?
    ensures r.Some? ==> forall k :: j <= k < r.value ==> !cs[k].Element?
    ensures r.None? ==> forall k :: j <= k < |cs| ==> !cs[k].Element?
    decreases |cs| - j
  {
    if j >= |cs| then None
    else if cs[j].Element? then Some(j)
    else FirstElementFrom(cs, j + 1)
  }

  /** How many positions of p's parent lie at or after p; what a sibling walk uses up. */
  function SiblingsAfter(root: Node, p: Path): nat {
    if p == [] then 0
    else match At(root, p[..|p| - 1])
      case Some(Element(_, _, cs)) => if p[|p| - 1] < |cs| then |cs| - p[|p| - 1] else 0
      case _ => 0
  }

  /** Element.nextElementSibling: the next element child of the same parent, skipping text. */
  function NextElementSibling(root: Node, p: Path): (r: Option<Path>)
    ensures r.Some? ==> p != [] && |r.value| == |p| && r.value[..|p| - 1] == p[..|p| - 1]
    ensures r.Some? ==> r.value[|p| - 1] > p[|p| - 1]
    ensures r.Some? ==> At(root, r.value).Some? && At(root, r.value).value.Element?
    ensures r.Some? ==> SiblingsAfter(root, r.value) < SiblingsAfter(root, p)
  {
    if p == [] then None
    else
      var up := p[..|p| - 1];
      match At(root, up)
      case Some(Element(_, _, cs)) =>
        (match FirstElementFrom(cs, p[|p| - 1] + 1)
         case Some(j) =>
           AtChild(root, up, j);
           assert (up + [j])[..|p| - 1] == up;
           Some(up + [j])
         case None => None)
      case _ => None
  }

  /** The element at p is the first element child of its parent (the :first-child pseudo-class). */
  predicate IsFirstElementChild(root: Node, p: Path) {
    p != [] &&
    match At(root, p[..|p| - 1])
    case Some(Element(_, _, cs)) =>
      p[|p| - 1] < |cs| && forall k :: 0 <= k < p[|p| - 1] ==> !cs[k].Element?
    case _ => false
  }

  // ---------------------------------------------------------------- selectors

  /** The CSS selectors the scraper passes to select / selectFirst. */
  datatype Query =
    | Tag(name: string)                                   // td
    | TagClass(name: string, cls: string)                 // table.infobox
    | TagClasses(name: string, cls1: string, cls2: string) // table.wikitable.sortable
    | Class(cls: string)                                  // .hlist
    | TagId(name: string, id: string)                     // h3#Podium_sweeps
    | TagAttr(name: string, key: string, value: string)  // a[title=...]
    | TagOwnText(name: string, text: string)              // th:matchesOwn(^Died$)
    | FirstChild(inner: Query)                            // ...:first-child

  /** Whether an element satisfies a selector that does not depend on its position. */
  predicate NodeMatches(m: Node, q: Query) {
    m.Element? &&
    match q
    case Tag(t) => m.tag == t
    case TagClass(t, c) => m.tag == t && HasClass(m, c)
    case TagClasses(t, c1, c2) => m.tag == t && HasClass(m, c1) && HasClass(m, c2)
    case Class(c) => HasClass(m, c)
    case TagId(t, id) => m.tag == t && Attr(m, "id") == id
    case TagAttr(t, k, v) => m.tag == t && k in m.attrs && EqIgnoreCase(Trim(m.attrs[k]), v)
    case TagOwnText(t, s) => m.tag == t && OwnText(m) == s
    case FirstChild(_) => true
  }

  /**
   * Whether the element at p under root satisfies q. A :first-child test at the root of
   * the selection is false: its parent lies outside the tree being searched.
   */
  predicate MatchesAt(root: Node, p: Path, q: Query)
    decreases q
  {
    match At(root, p)
    case None => false
    case Some(m) =>
      m.Element? &&
      match q
      case FirstChild(inner) => IsFirstElementChild(root, p) && MatchesAt(root, p, inner)
      case _ => NodeMatches(m, q)
  }

  function FilterPaths(root: Node, ps: seq<Path>, q: Query): seq<Path> {
    if ps == [] then []
    else (if MatchesAt(root, ps[0], q) then [ps[0]] else []) + FilterPaths(root, ps[1..], q)
  }

  /** Filtering keeps only positions that match. */
  lemma {:induction false} FilterPathsMatch(root: Node, ps: seq<Path>, q: Query)
    ensures forall k :: 0 <= k < |FilterPaths(root, ps, q)| ==> MatchesAt(root, FilterPaths(root, ps, q)[k], q)
  {
    if ps != [] {
      FilterPathsMatch(root, ps[1..], q);
    }
  }

  /** Element.select, as positions relative to n, in document order (n itself included). */
  function SelectPaths(n: Node, q: Query): seq<Path> {
    FilterPaths(n, AllPaths(n), q)
  }

  /** Element.select: the matching elements themselves. */
  function Select(n: Node, q: Query): (r: seq<Node>)
    ensures |r| == |SelectPaths(n, q)|
  {
    var ps := SelectPaths(n, q);
    SelectPathsMatch(n, q);
    seq(|ps|, k requires 0 <= k < |ps| => At(n, ps[k]).value)
  }

  /** Every selected position matches, so it exists and holds an element. */
  lemma SelectPathsMatch(n: Node, q: Query)
    ensures forall k :: 0 <= k < |SelectPaths(n, q)| ==>
      MatchesAt(n, SelectPaths(n, q)[k], q) && At(n, SelectPaths(n, q)[k]).Some? &&
      At(n, SelectPaths(n, q)[k]).value.Element?
  {
    FilterPathsMatch(n, AllPaths(n), q);
  }

  /** Each selected element is the node at the matching position. */
  lemma SelectAt(n: Node, q: Query)
    ensures forall k :: 0 <= k < |Select(n, q)| ==>
      Some(Select(n, q)[k]) == At(n, SelectPaths(n, q)[k]) && Select(n, q)[k].Element?
  {
    SelectPathsMatch(n, q);
  }

  /** Elements.first / selectFirst. */
  function First<T>(s: seq<T>): (r: Option<T>)
    ensures r.Some? <==> s != []
    ensures r.Some? ==> r.value == s[0]
  {
    if s == [] then None else Some(s[0])
  }

  /** Elements.last. */
  function Last<T>(s: seq<T>): (r: Option<T>)
    ensures r.Some? <==> s != []
    ensures r.Some? ==> r.value == s[|s| - 1]
  {
    if s == [] then None else Some(s[|s| - 1])
  }

  /** The first element under n (n included) that satisfies q. */
  function SelectFirst(n: Node, q: Query): Option<Node> {
    First(Select(n, q))
  }

  lemma {:induction false} FilterPathsHas(root: Node, ps: seq<Path>, q: Query, p: Path)
    requires p in ps && MatchesAt(root, p, q)
    ensures p in FilterPaths(root, ps, q)
  {
    if ps[0] != p {
      FilterPathsHas(root, ps[1..], q, p);
    }
  }

  /** Select finds every matching element: no match is missed. */
  lemma SelectComplete(n: Node, q: Query, p: Path)
    requires MatchesAt(n, p, q)
    ensures p in SelectPaths(n, q) && Select(n, q) != []
  {
    AllPathsComplete(n, p);
    FilterPathsHas(n, AllPaths(n), q, p);
  }

  /** A selected element that matches a positionless selector satisfies it as a node. */
  lemma SelectNodeMatches(n: Node, q: Query, k: nat)
    requires !q.FirstChild? && k < |Select(n, q)|
    ensures NodeMatches(Select(n, q)[k], q)
  {
    SelectPathsMatch(n, q);
    assert MatchesAt(n, SelectPaths(n, q)[k], q);
  }
}

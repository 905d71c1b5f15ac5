/**
 * The heuristics every WebParser query is built from: locating a heading by level
 * priority, walking a heading's parent's next siblings to a table, and rendering the
 * mixed text-and-link content of a table cell.
 */
module Navigation {
  import opened Wrappers
  import opened JavaText
  import opened Dom

  // ---------------------------------------------------------------- heading locator

  /** The two text tests a heading (or a th, or an anchor) is located by. */
  datatype TextTest =
    | EqualsIgnoringCase(expected: string)      // text().equalsIgnoreCase(label)
    | MentionsBoth(first: string, second: string) // text().toLowerCase() contains both

  predicate Passes(n: Node, t: TextTest) {
    match t
    case EqualsIgnoringCase(l) => EqIgnoreCase(TextOf(n), l)
    case MentionsBoth(a, b) => Contains(ToLower(TextOf(n)), a) && Contains(ToLower(TextOf(n)), b)
  }

  predicate PassesAt(root: Node, p: Path, t: TextTest) {
    At(root, p).Some? && Passes(At(root, p).value, t)
  }

  /** filter(..).findFirst() over the positions ps[i..]: the index of the first that passes. */
  function FirstPassing(root: Node, ps: seq<Path>, t: TextTest, i: nat): (r: Option<nat>)
    requires i <= |ps|
    ensures r.Some? ==> i <= r.value < |ps| && PassesAt(root, ps[r.value], t)
    ensures r.Some? ==> forall j :: i <= j < r.value ==> !PassesAt(root, ps[j], t)
    ensures r.None? ==> forall j :: i <= j < |ps| ==> !PassesAt(root, ps[j], t)
    decreases |ps| - i
  {
    if i == |ps| then None
    else if PassesAt(root, ps[i], t) then Some(i)
    else FirstPassing(root, ps, t, i + 1)
  }

  /** The first position of ps that passes t. */
  function FindFirst(root: Node, ps: seq<Path>, t: TextTest): (r: Option<Path>)
    ensures r.Some? ==> r.value in ps && PassesAt(root, r.value, t)
    ensures r.None? <==> forall j :: 0 <= j < |ps| ==> !PassesAt(root, ps[j], t)
  {
    match FirstPassing(root, ps, t, 0)
    case Some(k) => Some(ps[k])
    case None => None
  }

  /** The heading levels, in the order they are tried. */
  const Levels: seq<string> := ["h2", "h3", "h1"]

  function LevelPaths(root: Node, lv: nat): seq<Path>
    requires lv < |Levels|
  {
    SelectPaths(root, Tag(Levels[lv]))
  }

  /** No heading of level lv passes the test. */
  predicate LevelMisses(root: Node, t: TextTest, lv: nat)
    requires lv < |Levels|
  {
    forall j :: 0 <= j < |LevelPaths(root, lv)| ==> !PassesAt(root, LevelPaths(root, lv)[j], t)
  }

  /**
   * The k-th heading of level lv is the one chosen: it passes, no earlier heading of that
   * level passes, and no heading of a level tried before passes.
   */
  predicate Chosen(root: Node, t: TextTest, lv: nat, k: nat) {
    lv < |Levels| && k < |LevelPaths(root, lv)| &&
    PassesAt(root, LevelPaths(root, lv)[k], t) &&
    (forall j :: 0 <= j < k ==> !PassesAt(root, LevelPaths(root, lv)[j], t)) &&
    (forall l :: 0 <= l < lv ==> LevelMisses(root, t, l))
  }

  function LocateFrom(root: Node, t: TextTest, lv: nat): (r: Option<Path>)
    requires lv <= |Levels|
    requires forall l :: 0 <= l < lv ==> LevelMisses(root, t, l)
    ensures r.None? <==> forall l :: lv <= l < |Levels| ==> LevelMisses(root, t, l)
    ensures r.Some? ==> exists l: nat, k: nat :: Chosen(root, t, l, k) && r.value == LevelPaths(root, l)[k]
    decreases |Levels| - lv
  {
    if lv == |Levels| then None
    else match FirstPassing(root, LevelPaths(root, lv), t, 0)
      case Some(k) =>
        assert Chosen(root, t, lv, k);
        assert !LevelMisses(root, t, lv);
        Some(LevelPaths(root, lv)[k])
      case None => LocateFrom(root, t, lv + 1)
  }

  /** The heading search: the first passing h2, else the first passing h3, else h1. */
  function LocateHeading(root: Node, t: TextTest): (r: Option<Path>)
    ensures r.None? <==> forall l :: 0 <= l < |Levels| ==> LevelMisses(root, t, l)
    ensures r.Some? ==> exists l: nat, k: nat :: Chosen(root, t, l, k) && r.value == LevelPaths(root, l)[k]
  {
    LocateFrom(root, t, 0)
  }

  // ---------------------------------------------------------------- sibling walk

  /** When a sibling walk stops. */
  datatype Stop =
    | TagIs(tag: string)                  // tagName().equals(tag)
    | TagOrClass(tag: string, cls: string) // tagName().equals(tag) || hasClass(cls)

  predicate StopsAt(n: Node, stop: Stop) {
    n.Element? &&
    match stop
    case TagIs(t) => n.tag == t
    case TagOrClass(t, c) => n.tag == t || HasClass(n, c)
  }

  /** The first next element sibling of p that stops the walk. */
  function SiblingAfter(root: Node, p: Path, stop: Stop): Option<Path>
    decreases SiblingsAfter(root, p)
  {
    match NextElementSibling(root, p)
    case None => None
    case Some(q) => if StopsAt(At(root, q).value, stop) then Some(q) else SiblingAfter(root, q, stop)
  }

  /** The nodes sharing p's parent, p's among them. */
  function Siblings(root: Node, p: Path): seq<Node> {
    if p == [] then []
    else match At(root, p[..|p| - 1])
      case Some(Element(_, _, cs)) => cs
      case _ => []
  }

  /** The walk's result is the first later sibling that stops it; the siblings passed over do not. */
  lemma {:induction false} SiblingAfterFirst(root: Node, p: Path, stop: Stop, q: Path)
    requires SiblingAfter(root, p, stop) == Some(q)
    ensures p != [] && |q| == |p| && q[..|q| - 1] == p[..|p| - 1]
    ensures p[|p| - 1] < q[|q| - 1] < |Siblings(root, p)| && StopsAt(Siblings(root, p)[q[|q| - 1]], stop)
    ensures forall k :: p[|p| - 1] < k < q[|q| - 1] ==> !StopsAt(Siblings(root, p)[k], stop)
    decreases SiblingsAfter(root, p)
  {
    var up := p[..|p| - 1];
    var cs := At(root, up).value.children;
    var j := FirstElementFrom(cs, p[|p| - 1] + 1).value;
    SiblingStep(root, p, j);
    if !StopsAt(cs[j], stop) {
      SiblingAfterFirst(root, up + [j], stop, q);
    }
  }

  /** The walk finds nothing exactly when no later sibling stops it. */
  lemma {:induction false} SiblingAfterNone(root: Node, p: Path, stop: Stop)
    ensures SiblingAfter(root, p, stop).None? ==>
      forall k :: p != [] && p[|p| - 1] < k < |Siblings(root, p)| ==> !StopsAt(Siblings(root, p)[k], stop)
    decreases SiblingsAfter(root, p)
  {
    if p != [] {
      var up := p[..|p| - 1];
      if At(root, up).Some? && At(root, up).value.Element? {
        var cs := At(root, up).value.children;
        var j := FirstElementFrom(cs, p[|p| - 1] + 1);
        if j.Some? {
          var q := up + [j.value];
          SiblingStep(root, p, j.value);
          if !StopsAt(cs[j.value], stop) {
            SiblingAfterNone(root, q, stop);
          }
        }
      }
    }
  }

  /** One step of the walk: to the next element among the siblings, which share the parent. */
  lemma SiblingStep(root: Node, p: Path, j: nat)
    requires p != [] && At(root, p[..|p| - 1]).Some? && At(root, p[..|p| - 1]).value.Element?
    requires FirstElementFrom(At(root, p[..|p| - 1]).value.children, p[|p| - 1] + 1) == Some(j)
    ensures
      var up := p[..|p| - 1];
      var q := up + [j];
      NextElementSibling(root, p) == Some(q) && q[..|q| - 1] == up && q[|q| - 1] == j &&
      Siblings(root, q) == At(root, up).value.children && At(root, q) == Some(At(root, up).value.children[j])
  {
    var up := p[..|p| - 1];
    var q := up + [j];
    AtChild(root, up, j);
    assert q[..|q| - 1] == up;
  }

  /** The `while (next != null && !stop) next = next.nextElementSibling()` walk. */
  method FindAfter(root: Node, p: Path, stop: Stop) returns (r: Option<Path>)
    ensures r == SiblingAfter(root, p, stop)
  {
    var cur := p;
    var next := NextElementSibling(root, p);
    while next.Some? && !StopsAt(At(root, next.value).value, stop)
      invariant next == NextElementSibling(root, cur)
      invariant SiblingAfter(root, cur, stop) == SiblingAfter(root, p, stop)
      decreases SiblingsAfter(root, cur)
    {
      cur := next.value;
      next := NextElementSibling(root, cur);
    }
    r := next;
  }

  /** The walk from a located heading: its parent's first later sibling that stops the walk. */
  function TableAfter(root: Node, heading: Option<Path>, stop: Stop): Option<Path> {
    match heading
    case None => None
    case Some(h) =>
      match Parent(h)
      case None => None
      case Some(up) => SiblingAfter(root, up, stop)
  }

  /** TableAfter, walked step by step. */
  method FindTableAfter(root: Node, heading: Option<Path>, stop: Stop) returns (r: Option<Path>)
    ensures r == TableAfter(root, heading, stop)
    ensures r.Some? ==> At(root, r.value).Some? && StopsAt(At(root, r.value).value, stop)
  {
    r := None;
    if heading.Some? {
      var ancestor := Parent(heading.value);
      if ancestor.Some? {
        r := FindAfter(root, ancestor.value, stop);
        SiblingAfterStops(root, ancestor.value, stop);
      }
    }
  }

  /** Whatever the walk finds is an element that stops it. */
  lemma {:induction false} SiblingAfterStops(root: Node, p: Path, stop: Stop)
    ensures SiblingAfter(root, p, stop).Some? ==>
      At(root, SiblingAfter(root, p, stop).value).Some? &&
      StopsAt(At(root, SiblingAfter(root, p, stop).value).value, stop)
    decreases SiblingsAfter(root, p)
  {
    match NextElementSibling(root, p)
    case None =>
    case Some(q) =>
      if !StopsAt(At(root, q).value, stop) {
        SiblingAfterStops(root, q, stop);
      }
  }

  // ---------------------------------------------------------------- cell renderers

  /** What one child of a Headquarters cell contributes: a text node, or an anchor's text. */
  function LinkPiece(n: Node): string {
    match n
    case Text(s) => s
    case Element(t, _, _) => if t == "a" then TextOf(n) else ""
  }

  /** The rendering of a Headquarters cell's children, in order. */
  function LinkText(cs: seq<Node>): string {
    if cs == [] then "" else LinkText(cs[..|cs| - 1]) + LinkPiece(cs[|cs| - 1])
  }

  /** Appends the text nodes and anchor texts among a cell's children. */
  method RenderLinks(cell: Node) returns (s: string)
    ensures s == LinkText(if cell.Element? then cell.children else [])
  {
    var cs := if cell.Element? then cell.children else [];
    s := "";
    var i := 0;
    while i < |cs|
      invariant 0 <= i <= |cs|
      invariant s == LinkText(cs[..i])
    {
      var node := cs[i];
      if node.Text? {
        if node.content != "" {
          s := s + node.content;
        }
      } else if node.tag == "a" {
        var text := TextOf(node);
        if text != "" {
          s := s + text;
        }
      }
      assert cs[..i + 1][..i] == cs[..i];
      i := i + 1;
    }
    assert cs[..i] == cs;
  }

  predicate IsTextOrAnchor(n: Node) {
    n.Text? || n.tag == "a"
  }

  /** A cell holding only text and anchors renders to exactly its text. */
  lemma {:induction false} LinkTextIsText(cell: Node, i: nat)
    requires cell.Element? && i <= |cell.children|
    requires forall k :: 0 <= k < i ==> IsTextOrAnchor(cell.children[k])
    ensures LinkText(cell.children[..i]) == TextUpTo(cell, i)
  {
    if i > 0 {
      LinkTextIsText(cell, i - 1);
      assert cell.children[..i][..i - 1] == cell.children[..i - 1];
    }
  }

  /**
   * What one child of a "Died" cell contributes: a text node, an anchor's text, or an
   * italic's whole text followed once more by the italic's own direct text nodes.
   */
  function StatusPiece(n: Node): string {
    match n
    case Text(s) => s
    case Element(t, _, cs) =>
      if t == "a" then TextOf(n)
      else if t == "i" then TextOf(n) + OwnTextOf(cs)
      else ""
  }

  function StatusText(cs: seq<Node>): string {
    if cs == [] then "" else StatusText(cs[..|cs| - 1]) + StatusPiece(cs[|cs| - 1])
  }

  /** Renders the cell beside a "Died" header, italics included. */
  method RenderStatus(cell: Node) returns (s: string)
    ensures s == StatusText(if cell.Element? then cell.children else [])
  {
    var cs := if cell.Element? then cell.children else [];
    s := "";
    var i := 0;
    while i < |cs|
      invariant 0 <= i <= |cs|
      invariant s == StatusText(cs[..i])
    {
      var node := cs[i];
      if node.Text? {
        if node.content != "" {
          s := s + node.content;
        }
      } else if node.tag == "a" {
        var text := TextOf(node);
        if text != "" {
          s := s + text;
        }
      } else if node.tag == "i" {
        var piece := RenderItalic(node);
        s := s + piece;
      }
      assert cs[..i + 1][..i] == cs[..i];
      i := i + 1;
    }
    assert cs[..i] == cs;
  }

  /** Renders an italic child of a "Died" cell: its whole text, then its direct text nodes. */
  method RenderItalic(italic: Node) returns (s: string)
    requires italic.Element? && italic.tag == "i"
    ensures s == StatusPiece(italic)
  {
    s := "";
    var text := TextOf(italic);
    if text != "" {
      s := s + text;
    }
    var inner := italic.children;
    var j := 0;
    while j < |inner|
      invariant 0 <= j <= |inner|
      invariant s == text + OwnTextOf(inner[..j])
    {
      var elnode := inner[j];
      if elnode.Text? {
        if elnode.content != "" {
          s := s + elnode.content;
        }
      } else if italic.tag == "a" {
        // tests the italic's own tag, so an anchor inside an italic is never appended
        var aText := TextOf(elnode);
        if aText != "" {
          s := s + aText;
        }
      }
      assert inner[..j + 1][..j] == inner[..j];
      j := j + 1;
    }
    assert inner[..j] == inner;
  }

  /** An italic holding only text is rendered twice over. */
  lemma {:induction false} ItalicTextTwice(n: Node, i: nat)
    requires n.Element? && n.tag == "i" && i <= |n.children|
    requires forall k :: 0 <= k < i ==> n.children[k].Text?
    ensures OwnTextOf(n.children[..i]) == TextUpTo(n, i)
  {
    if i > 0 {
      ItalicTextTwice(n, i - 1);
      assert n.children[..i][..i - 1] == n.children[..i - 1];
    }
  }

  /** An italic child made only of text contributes its text twice. */
  lemma ItalicOfTextDoubled(n: Node)
    requires n.Element? && n.tag == "i"
    requires forall k :: 0 <= k < |n.children| ==> n.children[k].Text?
    ensures StatusPiece(n) == TextOf(n) + TextOf(n)
  {
    ItalicTextTwice(n, |n.children|);
    assert n.children[..|n.children|] == n.children;
  }

  /** An italic child made only of elements (anchors, say) contributes its text once. */
  lemma {:induction false} ItalicOfElementsOnce(n: Node)
    requires n.Element? && n.tag == "i"
    requires forall k :: 0 <= k < |n.children| ==> n.children[k].Element?
    ensures StatusPiece(n) == TextOf(n)
  {
    NoOwnText(n.children);
  }

  lemma {:induction false} NoOwnText(cs: seq<Node>)
    requires forall k :: 0 <= k < |cs| ==> cs[k].Element?
    ensures OwnTextOf(cs) == ""
  {
    if cs != [] {
      NoOwnText(cs[..|cs| - 1]);
    }
  }

  /** The href a link child carries: an anchor's own, or an anchor's inside an italic. */
  predicate HrefIn(n: Node, h: string) {
    n.Element? &&
    ((n.tag == "a" && Attr(n, "href") == h) ||
     (n.tag == "i" && exists m :: 0 <= m < |n.children| && IsAnchorWithHref(n.children[m], h)))
  }

  predicate IsAnchorWithHref(n: Node, h: string) {
    n.Element? && n.tag == "a" && Attr(n, "href") == h
  }

  /** The href an anchor contributes: its own, when non-empty. */
  function AnchorHref(n: Node): set<string> {
    if n.Element? && n.tag == "a" && Attr(n, "href") != "" then {Attr(n, "href")} else {}
  }

  /** The non-empty hrefs of the anchors directly inside an italic's children. */
  function ItalicHrefs(cs: seq<Node>): set<string> {
    if cs == [] then {} else ItalicHrefs(cs[..|cs| - 1]) + AnchorHref(cs[|cs| - 1])
  }

  /** What one child of a torch-relay cell contributes: an anchor's href, or its italic's anchors'. */
  function HrefsOf(n: Node): set<string> {
    if n.Text? then {}
    else if n.tag == "a" then AnchorHref(n)
    else if n.tag == "i" then ItalicHrefs(n.children)
    else {}
  }

  /** The deduplicated non-empty hrefs of a cell's direct anchors and of its italics' anchors. */
  function Hrefs(cs: seq<Node>): set<string> {
    if cs == [] then {} else Hrefs(cs[..|cs| - 1]) + HrefsOf(cs[|cs| - 1])
  }

  /** The italic's hrefs are exactly the non-empty hrefs of its anchor children. */
  lemma {:induction false} ItalicHrefsMeaning(cs: seq<Node>)
    ensures forall h :: h in ItalicHrefs(cs) <==> h != "" && exists m :: 0 <= m < |cs| && IsAnchorWithHref(cs[m], h)
  {
    if cs != [] {
      ItalicHrefsMeaning(cs[..|cs| - 1]);
      assert forall m :: 0 <= m < |cs| - 1 ==> cs[..|cs| - 1][m] == cs[m];
    }
  }

  /**
   * The cell's hrefs are exactly the non-empty hrefs carried by a child: an anchor's own,
   * or that of an anchor directly inside an italic child.
   */
  lemma {:induction false} HrefsMeaning(cs: seq<Node>)
    ensures forall h :: h in Hrefs(cs) <==> h != "" && exists k :: 0 <= k < |cs| && HrefIn(cs[k], h)
  {
    if cs != [] {
      var last := cs[|cs| - 1];
      HrefsMeaning(cs[..|cs| - 1]);
      assert forall k :: 0 <= k < |cs| - 1 ==> cs[..|cs| - 1][k] == cs[k];
      if last.Element? && last.tag == "i" {
        ItalicHrefsMeaning(last.children);
      }
    }
  }

  /** Collects the link extensions of the last cell of a torch-relay row. */
  method CollectHrefs(cell: Node) returns (hs: set<string>)
    ensures hs == Hrefs(if cell.Element? then cell.children else [])
  {
    var cs := if cell.Element? then cell.children else [];
    hs := {};
    var i := 0;
    while i < |cs|
      invariant 0 <= i <= |cs|
      invariant hs == Hrefs(cs[..i])
    {
      assert cs[..i + 1][..i] == cs[..i];
      var node := cs[i];
      if node.Element? && node.tag == "a" {
        var link := Attr(node, "href");
        if link != "" {
          hs := hs + {link};
        }
      } else if node.Element? && node.tag == "i" {
        hs := AddItalicHrefs(hs, node.children);
      }
      assert Hrefs(cs[..i + 1]) == Hrefs(cs[..i]) + HrefsOf(node);
      i := i + 1;
    }
    assert cs[..i] == cs;
  }

  /** The inner loop over an italic's children, adding each anchor's non-empty href. */
  method AddItalicHrefs(hs0: set<string>, inner: seq<Node>) returns (hs: set<string>)
    ensures hs == hs0 + ItalicHrefs(inner)
  {
    hs := hs0;
    var j := 0;
    while j < |inner|
      invariant 0 <= j <= |inner|
      invariant hs == hs0 + ItalicHrefs(inner[..j])
    {
      assert inner[..j + 1][..j] == inner[..j];
      var elnode := inner[j];
      if elnode.Element? && elnode.tag == "a" {
        var link := Attr(elnode, "href");
        if link != "" {
          hs := hs + {link};
        }
      }
      assert ItalicHrefs(inner[..j + 1]) == ItalicHrefs(inner[..j]) + AnchorHref(elnode);
      j := j + 1;
    }
    assert inner[..j] == inner;
  }
}

/**
 * WebParser.fetchCountry: which country a city's page names, by an ordered chain of
 * strategies over the page.
 */
module CountryResolver {
  import opened Wrappers
  import opened JavaText
  import opened Dom
  import opened Navigation

  /** The text of the element a walk stopped at, if it stopped at one. */
  function TextAt(root: Node, q: Option<Path>): Option<string> {
    match q
    case None => None
    case Some(p) =>
      match At(root, p)
      case Some(n) => Some(TextOf(n))
      case None => None
  }

  /** The text of the first td after the element at p among its siblings. */
  function TdTextAfter(root: Node, p: Path): Option<string> {
    TextAt(root, SiblingAfter(root, p, TagIs("td")))
  }

  /** The text of the last anchor under the element at p. */
  function LastAnchorText(root: Node, p: Path): Option<string> {
    match At(root, p)
    case None => None
    case Some(n) =>
      match Last(Select(n, Tag("a")))
      case Some(a) => Some(TextOf(a))
      case None => None
  }

  /**
   * The first strategy, from the header cell at th: the last anchor in the header's
   * parent, otherwise the text of the next td after the header (walked a second time
   * when the first walk found nothing, to the same end).
   */
  function HeaderAnswer(root: Node, th: Path): Option<string>
    requires At(root, th).Some?
  {
    var fromParent :=
      if th == [] then None
      else if LastAnchorText(root, th[..|th| - 1]).Some? then LastAnchorText(root, th[..|th| - 1])
      else TdTextAfter(root, th);
    if fromParent.Some? then fromParent else TdTextAfter(root, th)
  }

  /**
   * The third strategy, from the "sovereign state" anchor at s: the last anchor under
   * its grandparent, otherwise the text of the next td after its parent.
   */
  function SovereignAnswer(root: Node, s: Path): Option<string>
    requires At(root, s).Some?
  {
    var viaGrandparent :=
      if |s| < 2 then None
      else if LastAnchorText(root, s[..|s| - 2]).Some? then LastAnchorText(root, s[..|s| - 2])
      else TdTextAfter(root, s[..|s| - 1]);
    if viaGrandparent.Some? then viaGrandparent
    else if s != [] then TdTextAfter(root, s[..|s| - 1])
    else None
  }

  const CountryHeader := EqualsIgnoringCase("country")
  const Prefecture := EqualsIgnoringCase("prefecture")
  const SovereignState := EqualsIgnoringCase("sovereign state")

  /** The second and third strategies, tried only on a page that has an infobox. */
  function InfoboxAnswer(root: Node): Option<string> {
    if SelectFirst(root, TagClass("table", "infobox")).None? then None
    else if FindFirst(root, SelectPaths(root, Tag("a")), Prefecture).Some? then Some("Japan")
    else match FindFirst(root, SelectPaths(root, Tag("a")), SovereignState)
      case None => None
      case Some(s) => SovereignAnswer(root, s)
  }

  /** The header strategy's outcome on a page, None when the page has no country header. */
  function HeaderAnswerOf(root: Node): Option<string> {
    match FindFirst(root, SelectPaths(root, Tag("th")), CountryHeader)
    case Some(th) => HeaderAnswer(root, th)
    case None => None
  }

  /** The country a city page names, or None (null) when no strategy yields one. */
  function CountryOf(page: Option<Node>): Option<string> {
    match page
    case None => None
    case Some(root) => if HeaderAnswerOf(root).Some? then HeaderAnswerOf(root) else InfoboxAnswer(root)
  }

  /** The first strategy, walked step by step from the header cell at th. */
  method HeaderStrategy(root: Node, th: Path) returns (r: Option<string>)
    requires At(root, th).Some?
    ensures r == HeaderAnswer(root, th)
  {
    if th != [] {
      AtParent(root, th);
      var a := Last(Select(At(root, th[..|th| - 1]).value, Tag("a")));
      if a.Some? {
        return Some(TextOf(a.value));
      } else {
        var next := FindAfter(root, th, TagIs("td"));
        var text := TextAt(root, next);
        if text.Some? {
          return text;
        }
      }
    }
    var next := FindAfter(root, th, TagIs("td"));
    var text := TextAt(root, next);
    if text.Some? {
      return text;
    }
    return None;
  }

  /** The third strategy, walked step by step from the "sovereign state" anchor at s. */
  method SovereignStrategy(root: Node, s: Path) returns (r: Option<string>)
    requires At(root, s).Some?
    ensures r == SovereignAnswer(root, s)
  {
    if |s| >= 2 {
      AtParent(root, s);
      AtParent(root, s[..|s| - 1]);
      assert s[..|s| - 1][..|s| - 2] == s[..|s| - 2];
      var a := Last(Select(At(root, s[..|s| - 2]).value, Tag("a")));
      if a.Some? {
        return Some(TextOf(a.value));
      } else {
        var next := FindAfter(root, s[..|s| - 1], TagIs("td"));
        var text := TextAt(root, next);
        if text.Some? {
          return text;
        }
      }
    }
    if s != [] {
      var next := FindAfter(root, s[..|s| - 1], TagIs("td"));
      var text := TextAt(root, next);
      if text.Some? {
        return text;
      }
    }
    return None;
  }

  /** Walks the page the way fetchCountry does, strategy after strategy. */
  method FetchCountry(cityPage: Option<Node>) returns (r: Option<string>)
    ensures r == CountryOf(cityPage)
  {
    if cityPage.None? {
      return None;
    }
    var root := cityPage.value;
    var countryTh := FindFirst(root, SelectPaths(root, Tag("th")), CountryHeader);
    if countryTh.Some? {
      r := HeaderStrategy(root, countryTh.value);
      if r.Some? {
        return r;
      }
    }
    var infoBox := SelectFirst(root, TagClass("table", "infobox"));
    if infoBox.Some? {
      var countryType := FindFirst(root, SelectPaths(root, Tag("a")), Prefecture);
      if countryType.None? {
        countryType := FindFirst(root, SelectPaths(root, Tag("a")), SovereignState);
      } else {
        return Some("Japan");
      }
      if countryType.Some? {
        r := SovereignStrategy(root, countryType.value);
        return r;
      }
    }
    return None;
  }

  /** A page without a country header answer and without an infobox names no country. */
  lemma NoInfoboxNoCountry(root: Node)
    requires forall j :: 0 <= j < |SelectPaths(root, Tag("th"))| ==>
      !PassesAt(root, SelectPaths(root, Tag("th"))[j], CountryHeader)
    requires Select(root, TagClass("table", "infobox")) == []
    ensures CountryOf(Some(root)) == None
  {
  }

  /**
   * Once the header strategy fails, any "prefecture" anchor anywhere on a page with an
   * infobox makes the answer "Japan", whatever the infobox says and wherever the anchor is.
   */
  lemma PrefectureMeansJapan(root: Node, k: nat)
    requires HeaderAnswerOf(root).None?
    requires Select(root, TagClass("table", "infobox")) != []
    requires k < |SelectPaths(root, Tag("a"))| && PassesAt(root, SelectPaths(root, Tag("a"))[k], Prefecture)
    ensures CountryOf(Some(root)) == Some("Japan")
  {
  }

  /** With no "prefecture" and no "sovereign state" anchor, only the header can answer. */
  lemma NoAnchorNoCountry(root: Node)
    requires HeaderAnswerOf(root).None?
    requires forall k :: 0 <= k < |SelectPaths(root, Tag("a"))| ==>
      !PassesAt(root, SelectPaths(root, Tag("a"))[k], Prefecture) &&
      !PassesAt(root, SelectPaths(root, Tag("a"))[k], SovereignState)
    ensures CountryOf(Some(root)) == None
  {
  }

  /**
   * Without a "prefecture" anchor, the first "sovereign state" anchor in document order
   * decides the answer.
   */
  lemma FirstSovereignDecides(root: Node, k: nat)
    requires HeaderAnswerOf(root).None?
    requires Select(root, TagClass("table", "infobox")) != []
    requires forall j :: 0 <= j < |SelectPaths(root, Tag("a"))| ==> !PassesAt(root, SelectPaths(root, Tag("a"))[j], Prefecture)
    requires k < |SelectPaths(root, Tag("a"))| && PassesAt(root, SelectPaths(root, Tag("a"))[k], SovereignState)
    requires forall j :: 0 <= j < k ==> !PassesAt(root, SelectPaths(root, Tag("a"))[j], SovereignState)
    ensures CountryOf(Some(root)) == SovereignAnswer(root, SelectPaths(root, Tag("a"))[k])
  {
    var ps := SelectPaths(root, Tag("a"));
    var f := FirstPassing(root, ps, SovereignState, 0);
    assert f.Some? ==> f.value <= k ==> f == Some(k);
  }

  /**
   * The first th in document order whose text is "country", ignoring case, decides first:
   * its answer wins whenever it yields one, and only otherwise do the infobox strategies run.
   */
  lemma HeaderFirst(root: Node, k: nat)
    requires k < |SelectPaths(root, Tag("th"))| && PassesAt(root, SelectPaths(root, Tag("th"))[k], CountryHeader)
    requires forall j :: 0 <= j < k ==> !PassesAt(root, SelectPaths(root, Tag("th"))[j], CountryHeader)
    ensures HeaderAnswer(root, SelectPaths(root, Tag("th"))[k]).Some? ==>
      CountryOf(Some(root)) == HeaderAnswer(root, SelectPaths(root, Tag("th"))[k])
    ensures HeaderAnswer(root, SelectPaths(root, Tag("th"))[k]).None? ==>
      CountryOf(Some(root)) == InfoboxAnswer(root)
  {
    var ps := SelectPaths(root, Tag("th"));
    var f := FirstPassing(root, ps, CountryHeader, 0);
    assert f.Some? ==> f.value <= k ==> f == Some(k);
  }

  /**
   * The td fallback of the "sovereign state" strategy never runs for an anchor with a
   * grandparent: the anchor itself lies under the grandparent, so a last anchor exists.
   */
  lemma {:induction false} SovereignViaGrandparent(root: Node, s: Path)
    requires At(root, s).Some? && At(root, s).value.Element? && At(root, s).value.tag == "a"
    requires |s| >= 2
    ensures At(root, s[..|s| - 2]).Some?
    ensures Select(At(root, s[..|s| - 2]).value, Tag("a")) != []
    ensures SovereignAnswer(root, s) == Some(TextOf(Last(Select(At(root, s[..|s| - 2]).value, Tag("a"))).value))
  {
    AtParent(root, s);
    AtParent(root, s[..|s| - 1]);
    var g := s[..|s| - 2];
    assert s[..|s| - 1][..|s| - 2] == g;
    var rel := s[|s| - 2..];
    assert g + rel == s;
    AtAppend(root, g, rel);
    var gn := At(root, g).value;
    assert MatchesAt(gn, rel, Tag("a"));
    SelectComplete(gn, Tag("a"), rel);
  }
}

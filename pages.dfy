/**
 * The page-to-page hops of WebParser: from the main Summer Olympics page (or a page the
 * caller already holds) to the per-year, per-season and torch-relay pages it links to.
 */
module Pages {
  import opened Wrappers
  import opened JavaText
  import opened Dom
  import opened Helpers
  import opened Folds

  /** The site every relative link is resolved against. */
  const Base: string := "https://en.wikipedia.org"

  /** The main page fetched when a caller passes no document (Querybase.GLOBAL_URL). */
  const GlobalUrl: string := "https://en.wikipedia.org/wiki/Summer_Olympic_Games"

  /** A null document argument replaced by a fetch of the main page. */
  function OrMainPage(web: Web, parent: Option<Node>): (r: Option<Node>)
    ensures parent.Some? ==> r == parent
    ensures parent.None? ==> r == Fetch(web, GlobalUrl)
  {
    if parent.Some? then parent else Fetch(web, GlobalUrl)
  }

  /** Element.getElementsByTag("tbody").first().select("tr"): no rows without a tbody. */
  function BodyRows(n: Node): seq<Node> {
    match SelectFirst(n, Tag("tbody"))
    case None => []
    case Some(b) => Select(b, Tag("tr"))
  }

  /** The rows of a table after the header row a loop skips. */
  function AfterHeader(rows: seq<Node>): seq<Node> {
    if rows == [] then [] else rows[1..]
  }

  /** The body rows of the first table on the page that matches q. */
  function TableBodyRows(page: Node, q: Query): seq<Node> {
    match SelectFirst(page, q)
    case None => []
    case Some(t) => BodyRows(t)
  }

  // ---------------------------------------------------------------- torch relay page

  const TorchRelayTitle: string := "List of Olympic torch relays"

  /** WebParser.fetchTorchRelayPage: the page linked from the main page's sidebar. */
  function FetchTorchRelayPage(web: Web, parent: Option<Node>): (r: Option<Node>)
    ensures r.Some? ==>
      OrMainPage(web, parent).Some? &&
      SelectFirst(OrMainPage(web, parent).value, TagClass("table", "sidebar")).Some? &&
      exists a :: a in Select(SelectFirst(OrMainPage(web, parent).value, TagClass("table", "sidebar")).value,
                               TagAttr("a", "title", TorchRelayTitle)) &&
                  r == Fetch(web, Base + Attr(a, "href"))
  {
    match OrMainPage(web, parent)
    case None => None
    case Some(p) =>
      match SelectFirst(p, TagClass("table", "sidebar"))
      case None => None
      case Some(sidebar) =>
        match SelectFirst(sidebar, TagAttr("a", "title", TorchRelayTitle))
        case None => None
        case Some(torchLink) => Fetch(web, Base + Attr(torchLink, "href"))
  }

  // ---------------------------------------------------------------- season pages

  /** The title of the participating-nations link for a (capitalised) season. */
  function NationsTitle(season: string): string {
    "List of participating nations at the " + season + " Olympic Games"
  }

  /**
   * WebParser.fetchCurrentFromParent: follows the last link titled for the capitalised
   * season, if its href is not empty.
   */
  function FetchCurrentFromParent(web: Web, parent: Option<Node>, season: string): (r: Option<Node>)
    ensures r.Some? ==> parent.Some? && season != []
    ensures r.Some? ==>
      var holders := Select(parent.value, TagAttr("a", "title", NationsTitle(Capitalized(season, true))));
      holders != [] && Attr(holders[|holders| - 1], "href") != [] &&
      r == Fetch(web, Base + "/" + Attr(holders[|holders| - 1], "href"))
  {
    if parent.None? || season == [] then None
    else
      match Last(Select(parent.value, TagAttr("a", "title", NationsTitle(Capitalized(season, true)))))
      case None => None
      case Some(linkHolder) =>
        var link := Attr(linkHolder, "href");
        if link != [] then Fetch(web, Base + "/" + link) else None
  }

  /**
   * WebParser.fetchParentPage: the main page for "summer"; for "winter", the summer
   * nations page reached from it; nothing for any other description.
   */
  function FetchParentPage(web: Web, description: string): (r: Option<Node>)
    ensures description != "summer" && description != "winter" ==> r.None?
    ensures description == "summer" ==> r == Fetch(web, GlobalUrl)
    ensures description == "winter" ==> r == FetchCurrentFromParent(web, Fetch(web, GlobalUrl), "summer")
  {
    if description == [] then None
    else if description == "summer" then Fetch(web, GlobalUrl)
    else if description == "winter" then
      var parent := Fetch(web, GlobalUrl);
      if parent.Some? then FetchCurrentFromParent(web, parent, "summer") else None
    else None
  }

  // ---------------------------------------------------------------- year pages

  /** The href of a list item's first anchor when its text is exactly the year. */
  function YearLink(li: Node, year: string): Option<string> {
    match SelectFirst(li, Tag("a"))
    case None => None
    case Some(a) => if TextOf(a) == year then Some(Attr(a, "href")) else None
  }

  function YearLinks(lis: seq<Node>, year: string): (r: seq<Option<string>>)
    ensures |r| == |lis| && forall k :: 0 <= k < |lis| ==> r[k] == YearLink(lis[k], year)
  {
    seq(|lis|, k requires 0 <= k < |lis| => YearLink(lis[k], year))
  }

  /**
   * WebParser.getPodiumSweepsPage: the page linked from the first item of the sixth
   * .hlist list whose anchor reads exactly the year; a page with fewer than six such
   * lists raises IndexOutOfBoundsException.
   */
  function PodiumSweepsPage(web: Web, parent: Option<Node>, year: string): (r: Result<Option<Node>>)
    ensures r.Err? <==> OrMainPage(web, parent).Some? && |Select(OrMainPage(web, parent).value, Class("hlist"))| < 6
    ensures r.Err? ==> r.error == IndexOutOfBounds
  {
    match OrMainPage(web, parent)
    case None => Ok(None)
    case Some(p) =>
      var lists := Select(p, Class("hlist"));
      if |lists| < 6 then Err(IndexOutOfBounds)
      else
        var links := YearLinks(Select(lists[5], Tag("li")), year);
        match FirstSome(links)
        case Some(link) => Ok(Fetch(web, Base + link))
        case None => Ok(None)
  }

  /** A podium-sweeps page is only ever reached through an item reading exactly the year. */
  lemma PodiumSweepsPageLinked(web: Web, parent: Option<Node>, year: string)
    requires PodiumSweepsPage(web, parent, year).Ok? && PodiumSweepsPage(web, parent, year).value.Some?
    ensures OrMainPage(web, parent).Some? && |Select(OrMainPage(web, parent).value, Class("hlist"))| >= 6
    ensures
      var lis := Select(Select(OrMainPage(web, parent).value, Class("hlist"))[5], Tag("li"));
      exists k :: 0 <= k < |lis| && YearLink(lis[k], year).Some? &&
        PodiumSweepsPage(web, parent, year).value == Fetch(web, Base + YearLink(lis[k], year).value)
  {
    var lis := Select(Select(OrMainPage(web, parent).value, Class("hlist"))[5], Tag("li"));
    var links := YearLinks(lis, year);
    FirstSomeMeaning(links);
    var k :| 0 <= k < |links| && links[k] == FirstSome(links);
    assert YearLink(lis[k], year) == links[k];
  }

  /** The for loop of getPodiumSweepsPage, over the list items, up to its early return. */
  method FindYearLink(years: seq<Node>, year: string) returns (link: Option<string>)
    ensures link == FirstSome(YearLinks(years, year))
  {
    ghost var links := YearLinks(years, year);
    var i := 0;
    while i < |years|
      invariant 0 <= i <= |years|
      invariant FirstSome(links[i..]) == FirstSome(links)
    {
      var yearBox := SelectFirst(years[i], Tag("a"));
      if yearBox.Some? && TextOf(yearBox.value) == year {
        assert links[i..][0] == Some(Attr(yearBox.value, "href"));
        return Some(Attr(yearBox.value, "href"));
      }
      FirstSomeSkip(links, i);
      i := i + 1;
    }
    assert links[i..] == [];
    return None;
  }

  method GetPodiumSweepsPage(web: Web, parent: Option<Node>, year: string) returns (r: Result<Option<Node>>)
    ensures r == PodiumSweepsPage(web, parent, year)
  {
    var page := OrMainPage(web, parent);
    if page.None? {
      return Ok(None);
    }
    var lists := Select(page.value, Class("hlist"));
    if |lists| < 6 {
      return Err(IndexOutOfBounds);
    }
    var link := FindYearLink(Select(lists[5], Tag("li")), year);
    if link.Some? {
      return Ok(Fetch(web, Base + link.value));
    }
    return Ok(None);
  }

  /** The href of a list item's first anchor when its trimmed text is exactly the year. */
  function TrimmedYearLink(li: Node, year: string): Option<string> {
    match SelectFirst(li, Tag("a"))
    case None => None
    case Some(a) => if year == Trim(TextOf(a)) then Some(Attr(a, "href")) else None
  }

  function TrimmedYearLinks(lis: seq<Node>, year: string): (r: seq<Option<string>>)
    ensures |r| == |lis| && forall k :: 0 <= k < |lis| ==> r[k] == TrimmedYearLink(lis[k], year)
  {
    seq(|lis|, k requires 0 <= k < |lis| => TrimmedYearLink(lis[k], year))
  }

  /** The items of the list in the .plainlist block of the last row of the fourth wikitable. */
  function YearItems(table: Node): seq<Node> {
    match Last(Select(table, Tag("tr")))
    case None => []
    case Some(row) =>
      match SelectFirst(row, Class("plainlist"))
      case None => []
      case Some(plainlist) =>
        match SelectFirst(plainlist, Tag("ul"))
        case None => []
        case Some(list) => Select(list, Tag("li"))
  }

  /**
   * WebParser.getYearMedalNationsPage: the page linked from the first year item whose
   * trimmed anchor text is the year; fewer than four wikitables raise
   * IndexOutOfBoundsException.
   */
  function YearMedalNationsPage(web: Web, parent: Option<Node>, year: string): (r: Result<Option<Node>>)
    ensures r.Err? <==>
      OrMainPage(web, parent).Some? && |Select(OrMainPage(web, parent).value, TagClass("table", "wikitable"))| < 4
    ensures r.Err? ==> r.error == IndexOutOfBounds
  {
    match OrMainPage(web, parent)
    case None => Ok(None)
    case Some(p) =>
      var tables := Select(p, TagClass("table", "wikitable"));
      if |tables| < 4 then Err(IndexOutOfBounds)
      else
        match FirstSome(TrimmedYearLinks(YearItems(tables[3]), year))
        case Some(link) => Ok(Fetch(web, Base + link))
        case None => Ok(None)
  }

  /** A year's medal page is only ever reached through an item whose trimmed text is the year. */
  lemma YearMedalNationsPageLinked(web: Web, parent: Option<Node>, year: string)
    requires YearMedalNationsPage(web, parent, year).Ok? && YearMedalNationsPage(web, parent, year).value.Some?
    ensures OrMainPage(web, parent).Some? && |Select(OrMainPage(web, parent).value, TagClass("table", "wikitable"))| >= 4
    ensures
      var lis := YearItems(Select(OrMainPage(web, parent).value, TagClass("table", "wikitable"))[3]);
      exists k :: 0 <= k < |lis| && TrimmedYearLink(lis[k], year).Some? &&
        YearMedalNationsPage(web, parent, year).value == Fetch(web, Base + TrimmedYearLink(lis[k], year).value)
  {
    var lis := YearItems(Select(OrMainPage(web, parent).value, TagClass("table", "wikitable"))[3]);
    var links := TrimmedYearLinks(lis, year);
    FirstSomeMeaning(links);
    var k :| 0 <= k < |links| && links[k] == FirstSome(links);
    assert TrimmedYearLink(lis[k], year) == links[k];
  }

  /** The for loop of getYearMedalNationsPage, over the year items, up to its early return. */
  method FindTrimmedYearLink(items: seq<Node>, year: string) returns (link: Option<string>)
    ensures link == FirstSome(TrimmedYearLinks(items, year))
  {
    ghost var links := TrimmedYearLinks(items, year);
    var i := 0;
    while i < |items|
      invariant 0 <= i <= |items|
      invariant FirstSome(links[i..]) == FirstSome(links)
    {
      var aTag := SelectFirst(items[i], Tag("a"));
      if aTag.Some? && year == Trim(TextOf(aTag.value)) {
        assert links[i..][0] == Some(Attr(aTag.value, "href"));
        return Some(Attr(aTag.value, "href"));
      }
      FirstSomeSkip(links, i);
      i := i + 1;
    }
    assert links[i..] == [];
    return None;
  }

  method GetYearMedalNationsPage(web: Web, parent: Option<Node>, year: string) returns (r: Result<Option<Node>>)
    ensures r == YearMedalNationsPage(web, parent, year)
  {
    var page := OrMainPage(web, parent);
    if page.None? {
      return Ok(None);
    }
    var tables := Select(page.value, TagClass("table", "wikitable"));
    if |tables| < 4 {
      return Err(IndexOutOfBounds);
    }
    var link := FindTrimmedYearLink(YearItems(tables[3]), year);
    if link.Some? {
      return Ok(Fetch(web, Base + link.value));
    }
    return Ok(None);
  }
}

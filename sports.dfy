/**
 * The sports table of the main page and what WebParser reads through it: each sport's
 * page, its governing body's headquarters, and a country's medal total in a sport.
 */
module Sports {
  import opened Wrappers
  import opened JavaText
  import opened Dom
  import opened Navigation
  import opened Pages
  import opened Folds

  // ---------------------------------------------------------------- fetchSportsPage

  /** A row's first anchor: its text and its href. */
  datatype Link = Link(name: string, href: string)

  function RowLink(row: Node): Option<Link> {
    match SelectFirst(row, Tag("a"))
    case None => None
    case Some(a) => Some(Link(TextOf(a), Attr(a, "href")))
  }

  function RowLinkOpts(rows: seq<Node>): (r: seq<Option<Link>>)
    ensures |r| == |rows| && forall k :: 0 <= k < |rows| ==> r[k] == RowLink(rows[k])
  {
    seq(|rows|, k requires 0 <= k < |rows| => RowLink(rows[k]))
  }

  /** The rows of the main page's sortable wikitable. */
  function SportRows(parent: Node): seq<Node> {
    TableBodyRows(parent, TagClasses("table", "wikitable", "sortable"))
  }

  /** The index of the first link named exactly sport, from i on. */
  function NamedFrom(links: seq<Link>, sport: string, i: nat): (r: Option<nat>)
    requires i <= |links|
    ensures r.Some? ==> i <= r.value < |links| && links[r.value].name == sport
    ensures r.Some? ==> forall j :: i <= j < r.value ==> links[j].name != sport
    ensures r.None? ==> forall j :: i <= j < |links| ==> links[j].name != sport
    decreases |links| - i
  {
    if i == |links| then None
    else if links[i].name == sport then Some(i)
    else NamedFrom(links, sport, i + 1)
  }

  function FetchAll(web: Web, links: seq<Link>): (pages: seq<Option<Node>>)
    ensures |pages| == |links|
    ensures forall k :: 0 <= k < |links| ==> pages[k] == Fetch(web, Base + links[k].href)
  {
    seq(|links|, k requires 0 <= k < |links| => Fetch(web, Base + links[k].href))
  }

  /** Only the named sport's page when some link reads exactly its name, otherwise every page. */
  function PagesOf(web: Web, links: seq<Link>, sport: string): seq<Option<Node>> {
    match NamedFrom(links, sport, 0)
    case Some(k) => [Fetch(web, Base + links[k].href)]
    case None => FetchAll(web, links)
  }

  /** The pages of the sports listed on the main page, as fetchSportsPage returns them. */
  function SportsPages(web: Web, parent: Node, sport: string): seq<Option<Node>> {
    PagesOf(web, Somes(RowLinkOpts(SportRows(parent))), sport)
  }

  /** At most one page per row; exactly one when the sport is listed. */
  lemma SportsPagesShape(web: Web, parent: Node, sport: string)
    ensures |SportsPages(web, parent, sport)| <= |SportRows(parent)|
    ensures (exists k :: 0 <= k < |Somes(RowLinkOpts(SportRows(parent)))| &&
                         Somes(RowLinkOpts(SportRows(parent)))[k].name == sport)
      ==> |SportsPages(web, parent, sport)| == 1
  {
  }

  /**
   * With the sport not listed, the first page returned is the first listed sport's: the
   * page getTotalMedals then reads.
   */
  lemma UnlistedSportGivesFirstSport(web: Web, parent: Node, sport: string)
    requires forall k :: 0 <= k < |Somes(RowLinkOpts(SportRows(parent)))| ==>
      Somes(RowLinkOpts(SportRows(parent)))[k].name != sport
    requires Somes(RowLinkOpts(SportRows(parent))) != []
    ensures SportsPages(web, parent, sport) != []
    ensures SportsPages(web, parent, sport)[0] == Fetch(web, Base + Somes(RowLinkOpts(SportRows(parent)))[0].href)
  {
    assert NamedFrom(Somes(RowLinkOpts(SportRows(parent))), sport, 0) == None;
  }

  /** The first link naming the sport, met after links that do not, is the one PagesOf picks. */
  lemma NamedAt(opts: seq<Option<Link>>, i: nat, sport: string)
    requires i < |opts| && opts[i].Some? && opts[i].value.name == sport
    requires forall j :: 0 <= j < |Somes(opts[..i])| ==> Somes(opts[..i])[j].name != sport
    ensures |Somes(opts[..i])| < |Somes(opts)|
    ensures Somes(opts)[|Somes(opts[..i])|] == opts[i].value
    ensures NamedFrom(Somes(opts), sport, 0) == Some(|Somes(opts[..i])|)
  {
    var links := Somes(opts);
    var k := |Somes(opts[..i])|;
    SomesAppend(opts[..i], [opts[i]]);
    SomesAppend(opts[..i + 1], opts[i + 1..]);
    assert opts[..i] + [opts[i]] == opts[..i + 1];
    assert opts[..i + 1] + opts[i + 1..] == opts;
    assert links[k] == opts[i].value;
    var f := NamedFrom(links, sport, 0);
    assert f.Some? ==> f.value >= k;
    assert f.Some? ==> f.value <= k;
  }

  lemma FetchAllStep(web: Web, links: seq<Link>, l: Link)
    ensures FetchAll(web, links + [l]) == FetchAll(web, links) + [Fetch(web, Base + l.href)]
  {
  }

  /**
   * The loop of fetchSportsPage, over each row's first anchor (absent for a row without
   * one): fetch every link, but return at once with only the page of a link naming the sport.
   */
  method FetchLinks(web: Web, titles: seq<Option<Link>>, sport: string) returns (result: seq<Option<Node>>)
    ensures result == PagesOf(web, Somes(titles), sport)
  {
    result := [];
    var i := 0;
    while i < |titles|
      invariant 0 <= i <= |titles|
      invariant result == FetchAll(web, Somes(titles[..i]))
      invariant forall j :: 0 <= j < |Somes(titles[..i])| ==> Somes(titles[..i])[j].name != sport
    {
      var title := titles[i];
      SomesStep(titles, i);
      if title.Some? {
        var thisPage := Fetch(web, Base + title.value.href);
        FetchAllStep(web, Somes(titles[..i]), title.value);
        result := result + [thisPage];
        if title.value.name == sport {
          NamedAt(titles, i, sport);
          return [thisPage];
        }
      }
      i := i + 1;
    }
    assert titles[..i] == titles;
  }

  /** WebParser.fetchSportsPage. */
  method FetchSportsPage(web: Web, parent: Node, sport: string) returns (result: seq<Option<Node>>)
    ensures result == SportsPages(web, parent, sport)
  {
    var rows := SportRows(parent);
    result := FetchLinks(web, RowLinkOpts(rows), sport);
  }

  // ---------------------------------------------------------------- headquarters

  /** The rows of the page's first infobox table. */
  function InfoboxRows(doc: Node): seq<Node> {
    match SelectFirst(doc, TagClass("table", "infobox"))
    case None => []
    case Some(t) => Select(t, Tag("tr"))
  }

  /** The row's first th reads exactly title. */
  predicate TitledRow(row: Node, title: string) {
    SelectFirst(row, Tag("th")).Some? && TextOf(SelectFirst(row, Tag("th")).value) == title
  }

  /** The href of a "Governing body" row's first anchor. */
  function GoverningHref(row: Node): Option<string> {
    if !TitledRow(row, "Governing body") then None
    else match SelectFirst(row, Tag("a"))
      case None => None
      case Some(a) => Some(Attr(a, "href"))
  }

  function GoverningHrefs(rows: seq<Node>): (r: seq<Option<string>>)
    ensures |r| == |rows| && forall k :: 0 <= k < |rows| ==> r[k] == GoverningHref(rows[k])
  {
    seq(|rows|, k requires 0 <= k < |rows| => GoverningHref(rows[k]))
  }

  /** The governing body's page: the link of the first infobox row titled "Governing body" that has one. */
  function GoverningPage(web: Web, doc: Option<Node>): Option<Node> {
    match doc
    case None => None
    case Some(d) =>
      match FirstSome(GoverningHrefs(InfoboxRows(d)))
      case Some(h) => Fetch(web, Base + h)
      case None => None
  }

  /** The loop of headQuarterPage, up to its early return. */
  method FindGoverningHref(rows: seq<Node>) returns (link: Option<string>)
    ensures link == FirstSome(GoverningHrefs(rows))
  {
    ghost var hrefs := GoverningHrefs(rows);
    var i := 0;
    while i < |rows|
      invariant 0 <= i <= |rows|
      invariant FirstSome(hrefs[i..]) == FirstSome(hrefs)
    {
      var title := SelectFirst(rows[i], Tag("th"));
      if title.Some? && TextOf(title.value) == "Governing body" {
        var textBox := SelectFirst(rows[i], Tag("a"));
        if textBox.Some? {
          assert hrefs[i..][0] == Some(Attr(textBox.value, "href"));
          return Some(Attr(textBox.value, "href"));
        }
      }
      FirstSomeSkip(hrefs, i);
      i := i + 1;
    }
    assert hrefs[i..] == [];
    return None;
  }

  /** WebParser.headQuarterPage. */
  method HeadQuarterPage(web: Web, doc: Option<Node>) returns (r: Option<Node>)
    ensures r == GoverningPage(web, doc)
  {
    if doc.None? {
      return None;
    }
    var link := FindGoverningHref(InfoboxRows(doc.value));
    if link.Some? {
      return Fetch(web, Base + link.value);
    }
    return None;
  }

  /** The data cell of a row titled "Headquarters". */
  function HqCell(row: Node): Option<Node> {
    if TitledRow(row, "Headquarters") then SelectFirst(row, Tag("td")) else None
  }

  /** The words a Headquarters cell is split into, commas deleted. */
  function HqTokens(cell: Node): seq<string> {
    JavaSplit(ReplaceAll(LinkText(if cell.Element? then cell.children else []), ",", ""))
  }

  /** Some word of the list equals the (trimmed) country, ignoring case. */
  predicate NamesCountry(parts: seq<string>, country: string) {
    exists t :: t in parts && EqIgnoreCase(t, Trim(country))
  }

  /** An infobox row whose Headquarters cell names the country. */
  predicate NamesHeadquarters(row: Node, country: string) {
    HqCell(row).Some? && NamesCountry(HqTokens(HqCell(row).value), country)
  }

  /** Some infobox row of the document names the country as the headquarters. */
  predicate HeadquarteredIn(doc: Option<Node>, country: string) {
    doc.Some? && Any(row => NamesHeadquarters(row, country), InfoboxRows(doc.value))
  }

  /** The innermost loop of isHeadQuarteredIn, over the words of the cell. */
  method AnyPartNames(parts: seq<string>, country: string) returns (found: bool)
    ensures found <==> NamesCountry(parts, country)
  {
    var j := 0;
    while j < |parts|
      invariant 0 <= j <= |parts|
      invariant forall m :: 0 <= m < j ==> !EqIgnoreCase(parts[m], Trim(country))
    {
      if EqIgnoreCase(parts[j], Trim(country)) {
        return true;
      }
      j := j + 1;
    }
    return false;
  }

  /** The row loop of isHeadQuarteredIn. */
  method AnyRowNames(rows: seq<Node>, country: string) returns (found: bool)
    ensures found == Any(row => NamesHeadquarters(row, country), rows)
  {
    var i := 0;
    while i < |rows|
      invariant 0 <= i <= |rows|
      invariant !Any(row => NamesHeadquarters(row, country), rows[..i])
    {
      assert rows[..i + 1][..i] == rows[..i];
      found := RowNames(rows[i], country);
      if found {
        AnyGrows(row => NamesHeadquarters(row, country), rows, i + 1);
        return;
      }
      i := i + 1;
    }
    assert rows[..i] == rows;
    return false;
  }

  /** A page counts exactly when it loaded and some row of its first infobox names the country. */
  lemma HeadquarteredInMeaning(doc: Option<Node>, country: string)
    ensures HeadquarteredIn(doc, country) <==>
      doc.Some? &&
      exists k :: 0 <= k < |InfoboxRows(doc.value)| && NamesHeadquarters(InfoboxRows(doc.value)[k], country)
  {
    if doc.Some? {
      AnyMeaning(row => NamesHeadquarters(row, country), InfoboxRows(doc.value));
    }
  }

  /** The body of the row loop of isHeadQuarteredIn. */
  method RowNames(row: Node, country: string) returns (found: bool)
    ensures found <==> NamesHeadquarters(row, country)
  {
    var dataCell := HqCell(row);
    if dataCell.None? {
      return false;
    }
    var combined := RenderLinks(dataCell.value);
    var parts := JavaSplit(ReplaceAll(combined, ",", ""));
    found := AnyPartNames(parts, country);
  }

  /** WebParser.isHeadQuarteredIn: 1 when some Headquarters row names the country, else 0. */
  method IsHeadQuarteredIn(doc: Option<Node>, country: string) returns (r: int)
    ensures r == 0 || r == 1
    ensures r == 1 <==> HeadquarteredIn(doc, country)
  {
    if doc.None? {
      return 0;
    }
    var found := AnyRowNames(InfoboxRows(doc.value), country);
    return if found then 1 else 0;
  }

  /** For each page, whether it names the country as its headquarters. */
  function HqFlags(pages: seq<Option<Node>>, country: string): seq<bool> {
    MapSeq(page => HeadquarteredIn(page, country), pages)
  }

  /** How many of the pages name the country as their headquarters. */
  function HqCount(pages: seq<Option<Node>>, country: string): nat {
    CountTrue(HqFlags(pages, country))
  }

  /**
   * The count is at most the number of pages; it is 0 exactly when no page names the
   * country, and all of them exactly when every page does.
   */
  lemma HqCountMeaning(pages: seq<Option<Node>>, country: string)
    ensures HqCount(pages, country) <= |pages|
    ensures HqCount(pages, country) == 0 <==> forall k :: 0 <= k < |pages| ==> !HeadquarteredIn(pages[k], country)
    ensures HqCount(pages, country) == |pages| <==> forall k :: 0 <= k < |pages| ==> HeadquarteredIn(pages[k], country)
  {
    CountMapExtremes(page => HeadquarteredIn(page, country), pages);
  }

  /** The page of each sport's governing body, as HeadQuarterPage finds it. */
  function GoverningPages(web: Web, docs: seq<Option<Node>>): seq<Option<Node>> {
    MapSeq(doc => GoverningPage(web, doc), docs)
  }

  /** The first loop of fetchNumHeadquartered. */
  method GoverningPagesOf(web: Web, documents: seq<Option<Node>>) returns (countryPages: seq<Option<Node>>)
    ensures countryPages == GoverningPages(web, documents)
  {
    countryPages := [];
    var i := 0;
    while i < |documents|
      invariant 0 <= i <= |documents|
      invariant countryPages == GoverningPages(web, documents[..i])
    {
      assert documents[..i + 1][..i] == documents[..i];
      var page := HeadQuarterPage(web, documents[i]);
      countryPages := countryPages + [page];
      i := i + 1;
    }
    assert documents[..i] == documents;
  }

  /** The second loop of fetchNumHeadquartered. */
  method CountHeadquartered(countryPages: seq<Option<Node>>, country: string) returns (result: int)
    ensures result == HqCount(countryPages, country)
  {
    result := 0;
    var j := 0;
    while j < |countryPages|
      invariant 0 <= j <= |countryPages|
      invariant result == HqCount(countryPages[..j], country)
    {
      var pages := countryPages[..j + 1];
      assert pages[..j] == countryPages[..j];
      MapSeqLength(page => HeadquarteredIn(page, country), countryPages[..j]);
      assert HqFlags(pages, country)[..j] == HqFlags(countryPages[..j], country);
      var one := IsHeadQuarteredIn(countryPages[j], country);
      result := result + one;
      j := j + 1;
    }
    assert countryPages[..j] == countryPages;
  }

  /** The sport name fetchNumHeadquartered asks for, so that every sport's page is listed. */
  const NoSport: string := "impossibleStringCountry"

  /**
   * WebParser.fetchNumHeadquartered: how many sports' governing bodies are headquartered
   * in the country; never more than the number of sports pages. A null parent raises
   * NullPointerException.
   */
  method FetchNumHeadquartered(web: Web, parent: Option<Node>, country: string) returns (r: Result<int>)
    ensures parent.None? ==> r == Err(NullPointer)
    ensures parent.Some? ==>
      r == Ok(HqCount(GoverningPages(web, SportsPages(web, parent.value, NoSport)), country))
    ensures r.Ok? ==> 0 <= r.value <= |SportsPages(web, parent.value, NoSport)|
  {
    if parent.None? {
      return Err(NullPointer);
    }
    var documents := FetchSportsPage(web, parent.value, NoSport);
    var countryPages := GoverningPagesOf(web, documents);
    var result := CountHeadquartered(countryPages, country);
    MapSeqAt(doc => GoverningPage(web, doc), documents);
    HqCountMeaning(countryPages, country);
    return Ok(result);
  }

  // ---------------------------------------------------------------- getTotalMedals

  const MedalTable := EqualsIgnoringCase("Medal table")

  /**
   * What one row of a medal table adds: the last td parsed as an int when the row's first
   * anchor reads exactly the country, nothing otherwise.
   */
  function RowMedal(row: Node, country: string): Result<int> {
    match SelectFirst(row, Tag("a"))
    case None => Ok(0)
    case Some(title) =>
      if TextOf(title) != country then Ok(0)
      else match Last(Select(row, Tag("td")))
        case None => Ok(0)
        case Some(cell) => ParseInt(TextOf(cell))
  }

  function RowMedals(rows: seq<Node>, country: string): (r: seq<Result<int>>)
    ensures |r| == |rows| && forall k :: 0 <= k < |rows| ==> r[k] == RowMedal(rows[k], country)
  {
    seq(|rows|, k requires 0 <= k < |rows| => RowMedal(rows[k], country))
  }

  /** The rows of the tbody of the first table after the "Medal table" heading's parent. */
  function MedalRows(page: Node): seq<Node> {
    match TableAfter(page, LocateHeading(page, MedalTable), TagIs("table"))
    case None => []
    case Some(t) =>
      match At(page, t)
      case None => []
      case Some(table) => BodyRows(table)
  }

  /** A sum wrapped to 32 bits as repeated `result +=` leaves it. */
  function Wrapped(r: Result<int>): (w: Result<int>)
    ensures w.Err? <==> r.Err?
    ensures w.Err? ==> w == r
    ensures w.Ok? ==> IsInt32(w.value) && w.value == Wrap32(r.value)
  {
    match r
    case Err(e) => Err(e)
    case Ok(s) => Ok(Wrap32(s))
  }

  /**
   * The medal total of getTotalMedals: read from the first sports page, which raises
   * NullPointerException when it failed to load.
   */
  function TotalMedals(web: Web, parent: Option<Node>, country: string, sport: string): Result<int> {
    match OrMainPage(web, parent)
    case None => Ok(0)
    case Some(p) =>
      var pages := SportsPages(web, p, sport);
      if pages == [] then Ok(0)
      else match pages[0]
        case None => Err(NullPointer)
        case Some(page) => Wrapped(SumResults(RowMedals(MedalRows(page), country)))
  }

  /** Without a medal-table heading at any level, no row is read and the total is 0. */
  lemma NoHeadingNoMedals(web: Web, parent: Option<Node>, country: string, sport: string, page: Node)
    requires OrMainPage(web, parent).Some?
    requires SportsPages(web, OrMainPage(web, parent).value, sport) != []
    requires SportsPages(web, OrMainPage(web, parent).value, sport)[0] == Some(page)
    requires forall l :: 0 <= l < |Levels| ==> LevelMisses(page, MedalTable, l)
    ensures TotalMedals(web, parent, country, sport) == Ok(0)
  {
  }

  /**
   * A row adds something only when its first anchor reads exactly the country and it has
   * a td; it then adds its last td parsed as an int, or raises NumberFormatException.
   */
  lemma RowMedalMeaning(row: Node, country: string)
    ensures RowMedal(row, country) != Ok(0) ==>
      SelectFirst(row, Tag("a")).Some? && TextOf(SelectFirst(row, Tag("a")).value) == country &&
      Select(row, Tag("td")) != [] &&
      RowMedal(row, country) == ParseInt(TextOf(Select(row, Tag("td"))[|Select(row, Tag("td"))| - 1]))
    ensures RowMedal(row, country).Err? ==> RowMedal(row, country).error == NumberFormat
  {
  }

  /**
   * Once the first sports page is loaded, the total raises exactly when some medal-table
   * row adds a last cell that does not parse, and then with NumberFormatException;
   * otherwise it is the 32-bit wrap of the exact sum of what the rows add.
   */
  lemma TotalMedalsOfPage(web: Web, parent: Option<Node>, country: string, sport: string, page: Node)
    requires OrMainPage(web, parent).Some?
    requires SportsPages(web, OrMainPage(web, parent).value, sport) != []
    requires SportsPages(web, OrMainPage(web, parent).value, sport)[0] == Some(page)
    ensures TotalMedals(web, parent, country, sport).Err? <==>
      exists k :: 0 <= k < |MedalRows(page)| && RowMedal(MedalRows(page)[k], country).Err?
    ensures TotalMedals(web, parent, country, sport).Err? ==>
      TotalMedals(web, parent, country, sport).error == NumberFormat
    ensures TotalMedals(web, parent, country, sport).Ok? ==>
      TotalMedals(web, parent, country, sport).value == Wrap32(SumResults(RowMedals(MedalRows(page), country)).value)
  {
    var ms := RowMedals(MedalRows(page), country);
    SumResultsRaises(ms);
    if SumResults(ms).Err? {
      var k :| 0 <= k < |ms| && ms[k] == SumResults(ms) && forall j :: 0 <= j < k ==> ms[j].Ok?;
      RowMedalMeaning(MedalRows(page)[k], country);
    }
  }

  /**
   * The row loop of getTotalMedals, over what each row adds: `result +=` each value in
   * 32-bit arithmetic, leaving at the first NumberFormatException.
   */
  method SumMedals(ms: seq<Result<int>>) returns (r: Result<int>)
    ensures r == Wrapped(SumResults(ms))
  {
    var result := 0;
    var i := 0;
    while i < |ms|
      invariant 0 <= i <= |ms|
      invariant SumResults(ms[..i]).Ok?
      invariant result == Wrap32(SumResults(ms[..i]).value)
    {
      assert ms[..i + 1][..i] == ms[..i];
      var v := ms[i];
      if v.Err? {
        SumResultsAppend(ms[..i + 1], ms[i + 1..]);
        assert ms[..i + 1] + ms[i + 1..] == ms;
        return Err(v.error);
      }
      AddWrap32(SumResults(ms[..i]).value, v.value);
      result := Wrap32(result + v.value);
      i := i + 1;
    }
    assert ms[..i] == ms;
    return Ok(result);
  }

  /** WebParser.getTotalMedals. */
  method GetTotalMedals(web: Web, parent: Option<Node>, country: string, sport: string) returns (r: Result<int>)
    ensures r == TotalMedals(web, parent, country, sport)
  {
    var p := OrMainPage(web, parent);
    if p.None? {
      return Ok(0);
    }
    var sportsPages := FetchSportsPage(web, p.value, sport);
    if sportsPages == [] {
      return Ok(0);
    }
    if sportsPages[0].None? {
      return Err(NullPointer);
    }
    var page := sportsPages[0].value;
    var heading := LocateHeading(page, MedalTable);
    var next := FindTableAfter(page, heading, TagIs("table"));
    if next.None? {
      return Ok(0);
    }
    var rows := BodyRows(At(page, next.value).value);
    r := SumMedals(RowMedals(rows, country));
  }
}

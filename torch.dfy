/**
 * The torch-relay query: the largest number of distinct countries a relay of the given
 * country passed through, over the relays from the given year on, never less than 2.
 */
module Torch {
  import opened Wrappers
  import opened JavaText
  import opened Dom
  import opened Navigation
  import opened Pages
  import opened Helpers
  import opened Folds
  import opened CountryResolver

  /** A word of the year anchor is a valid year that parses to at least yearInt. */
  predicate Reaches(s: string, yearInt: int) {
    IsValidYear(s) && ParseInt(s).Ok? && ParseInt(s).value >= yearInt
  }

  /** The title of the anchor in the first cell's flag icon. */
  function IconTitle(firstColumn: Node): Option<string> {
    match SelectFirst(firstColumn, TagClass("span", "flagicon"))
    case None => None
    case Some(icon) =>
      match SelectFirst(icon, Tag("a"))
      case None => None
      case Some(a) => Some(Attr(a, "title"))
  }

  /** The whitespace-separated words of the first cell's last anchor hold a year reached. */
  predicate YearReached(firstColumn: Node, yearInt: int) {
    match Last(Select(firstColumn, Tag("a")))
    case None => false
    case Some(yearTag) => exists s :: s in JavaSplit(TextOf(yearTag)) && Reaches(s, yearInt)
  }

  /** The country a link leads to, when fetchCountry names one. */
  function LinkCountry(web: Web, link: string): Option<string> {
    match CountryOf(Fetch(web, Base + link))
    case None => None
    case Some(name) => if name != "" then Some(name) else None
  }

  /** The distinct non-empty country names the links lead to. */
  function Countries(web: Web, links: set<string>): set<string> {
    set s | s in links && LinkCountry(web, s).Some? :: LinkCountry(web, s).value
  }

  /**
   * What a row of the relay table contributes: for a relay of the country reaching the
   * year, the number of distinct countries its last cell's links lead to.
   */
  function RowSeen(web: Web, row: Node, country: string, yearInt: int): Option<nat> {
    match SelectFirst(row, Tag("td"))
    case None => None
    case Some(firstColumn) =>
      if IconTitle(firstColumn) != Some(country) || !YearReached(firstColumn, yearInt) then None
      else match Last(Select(row, Tag("td")))
        case None => None
        case Some(lastColumn) =>
          Some(|Countries(web, Hrefs(if lastColumn.Element? then lastColumn.children else []))|)
  }

  /** RowSeen of each row, in order. */
  function RowSeens(web: Web, rows: seq<Node>, country: string, yearInt: int): seq<Option<nat>> {
    MapSeq(row => RowSeen(web, row, country, yearInt), rows)
  }

  /** The relay page: the one passed in, else the one linked from the main page. */
  function TorchPage(web: Web, parent: Option<Node>, target: Option<Node>): Option<Node> {
    if target.Some? then target else FetchTorchRelayPage(web, parent)
  }

  /** The body rows of the first sortable wikitable of the relay page. */
  function TorchRows(page: Option<Node>): seq<Node> {
    match page
    case None => []
    case Some(p) => TableBodyRows(p, TagClasses("table", "sortable", "wikitable"))
  }

  /** What fetchNumTorchPassed returns: -1 for a year that does not parse. */
  function TorchPassed(web: Web, parent: Option<Node>, target: Option<Node>, country: string, year: string): int {
    match ParseInt(year)
    case Err(_) => -1
    case Ok(yearInt) => MaxOf(2, RowSeens(web, TorchRows(TorchPage(web, parent, target)), country, yearInt))
  }

  /**
   * The result is -1 exactly when the year does not parse. Otherwise it is at least 2 and
   * at least every qualifying relay's count, and it is 2 or the count of one of them.
   */
  lemma TorchPassedMeaning(web: Web, parent: Option<Node>, target: Option<Node>, country: string, year: string)
    ensures TorchPassed(web, parent, target, country, year) == -1 <==> ParseInt(year).Err?
    ensures ParseInt(year).Ok? ==>
      var rows := TorchRows(TorchPage(web, parent, target));
      var r := TorchPassed(web, parent, target, country, year);
      r >= 2 &&
      (forall k :: 0 <= k < |rows| && RowSeen(web, rows[k], country, ParseInt(year).value).Some? ==>
         RowSeen(web, rows[k], country, ParseInt(year).value).value <= r) &&
      (r == 2 || exists k :: 0 <= k < |rows| && RowSeen(web, rows[k], country, ParseInt(year).value) == Some(r))
  {
    if ParseInt(year).Ok? {
      var rows := TorchRows(TorchPage(web, parent, target));
      var vs := RowSeens(web, rows, country, ParseInt(year).value);
      MapSeqAt(row => RowSeen(web, row, country, ParseInt(year).value), rows);
      MaxOfMeaning(2, vs);
    }
  }

  /** One more link adds its country, if it leads to one. */
  lemma CountriesAdd(web: Web, links: set<string>, s: string)
    ensures Countries(web, links + {s}) ==
      Countries(web, links) + (if LinkCountry(web, s).Some? then {LinkCountry(web, s).value} else {})
  {
  }

  /** A relay never counts more countries than it has distinct links. */
  lemma {:induction false} CountriesBound(web: Web, links: set<string>)
    ensures |Countries(web, links)| <= |links|
    decreases |links|
  {
    if links != {} {
      var x :| x in links;
      var rest := links - {x};
      CountriesBound(web, rest);
      CountriesAdd(web, rest, x);
      assert rest + {x} == links;
    }
  }

  /** A relay's count is at most the number of distinct links in its last cell. */
  lemma RowSeenBound(web: Web, row: Node, country: string, yearInt: int)
    requires RowSeen(web, row, country, yearInt).Some?
    ensures
      var lastColumn := Last(Select(row, Tag("td"))).value;
      RowSeen(web, row, country, yearInt).value <=
        |Hrefs(if lastColumn.Element? then lastColumn.children else [])|
  {
    var lastColumn := Last(Select(row, Tag("td"))).value;
    CountriesBound(web, Hrefs(if lastColumn.Element? then lastColumn.children else []));
  }

  /** The loop over the split words, up to its break. */
  method YearFound(text: seq<string>, yearInt: int) returns (found: bool)
    ensures found <==> exists s :: s in text && Reaches(s, yearInt)
  {
    var i := 0;
    while i < |text|
      invariant 0 <= i <= |text|
      invariant forall k :: 0 <= k < i ==> !Reaches(text[k], yearInt)
    {
      if IsValidYear(text[i]) {
        ValidYearParses(text[i]);
        var year1Int := ParseInt(text[i]).value;
        if year1Int >= yearInt {
          assert text[i] in text && Reaches(text[i], yearInt);
          return true;
        }
      }
      i := i + 1;
    }
    return false;
  }

  /** The body of the loop over the links: fetch the city page and read its country. */
  method LinkReading(web: Web, link: string) returns (name: Option<string>)
    ensures name == LinkCountry(web, link)
  {
    var cityPage := Fetch(web, Base + link);
    var countryName := FetchCountry(cityPage);
    if countryName.Some? && countryName.value != "" {
      return countryName;
    }
    return None;
  }

  /** The loop over the HashSet of links, in whatever order it yields them. */
  method SeenCountries(web: Web, links: set<string>) returns (seen: set<string>)
    ensures seen == Countries(web, links)
  {
    seen := {};
    var remaining := links;
    while remaining != {}
      invariant remaining <= links
      invariant seen == Countries(web, links - remaining)
      decreases |remaining|
    {
      var s :| s in remaining;
      var countryName := LinkReading(web, s);
      CountriesAdd(web, links - remaining, s);
      assert links - (remaining - {s}) == (links - remaining) + {s};
      if countryName.Some? {
        seen := seen + {countryName.value};
      }
      remaining := remaining - {s};
    }
    assert links - remaining == links;
  }

  /** The body of the loop over the relay table's rows. */
  method RowReading(web: Web, row: Node, country: string, yearInt: int) returns (v: Option<nat>)
    ensures v == RowSeen(web, row, country, yearInt)
  {
    var firstColumn := SelectFirst(row, Tag("td"));
    if firstColumn.None? {
      return None;
    }
    var rowIcon := SelectFirst(firstColumn.value, TagClass("span", "flagicon"));
    if rowIcon.None? {
      return None;
    }
    var aTag := SelectFirst(rowIcon.value, Tag("a"));
    if aTag.None? {
      return None;
    }
    var title := Attr(aTag.value, "title");
    if country != title {
      return None;
    }
    var yearTag := Last(Select(firstColumn.value, Tag("a")));
    if yearTag.None? {
      return None;
    }
    var found := YearFound(JavaSplit(TextOf(yearTag.value)), yearInt);
    if !found {
      return None;
    }
    var lastColumn := Last(Select(row, Tag("td")));
    if lastColumn.None? {
      return None;
    }
    var linkExtensions := CollectHrefs(lastColumn.value);
    var seenCountries := SeenCountries(web, linkExtensions);
    return Some(|seenCountries|);
  }

  /** RowReading for each row of the relay table. */
  method ReadRows(web: Web, rows: seq<Node>, country: string, yearInt: int) returns (seens: seq<Option<nat>>)
    ensures seens == RowSeens(web, rows, country, yearInt)
  {
    seens := [];
    var i := 0;
    while i < |rows|
      invariant 0 <= i <= |rows|
      invariant seens == RowSeens(web, rows[..i], country, yearInt)
    {
      assert rows[..i + 1][..i] == rows[..i];
      var seen := RowReading(web, rows[i], country, yearInt);
      seens := seens + [seen];
      i := i + 1;
    }
    assert rows[..i] == rows;
  }

  /** `if (seenCountries.size() > maxSeen) maxSeen = seenCountries.size()`, row after row. */
  method MaxSeen(seens: seq<Option<nat>>) returns (maxSeen: int)
    ensures maxSeen == MaxOf(2, seens)
  {
    maxSeen := 2;
    var i := 0;
    while i < |seens|
      invariant 0 <= i <= |seens|
      invariant maxSeen == MaxOf(2, seens[..i])
    {
      assert seens[..i + 1][..i] == seens[..i];
      if seens[i].Some? && seens[i].value > maxSeen {
        maxSeen := seens[i].value;
      }
      i := i + 1;
    }
    assert seens[..i] == seens;
  }

  /** WebParser.fetchNumTorchPassed. */
  method FetchNumTorchPassed(web: Web, parent: Option<Node>, target: Option<Node>, country: string, year: string)
    returns (r: int)
    ensures r == TorchPassed(web, parent, target, country, year)
  {
    var page := target;
    if page.None? {
      page := FetchTorchRelayPage(web, parent);
    }
    var yearInt := ParseInt(year);
    if yearInt.Err? {
      return -1;
    }
    var seens := ReadRows(web, TorchRows(page), country, yearInt.value);
    r := MaxSeen(seens);
  }
}

/**
 * The nation lists WebParser reads off season and year pages: nations that no longer
 * compete, nations with enough medals of a kind, the country list filtered by prefix, and
 * the medal lookup table of a year.
 */
module Nations {
  import opened Wrappers
  import opened JavaText
  import opened Dom
  import opened Pages
  import opened Folds

  // ---------------------------------------------------------------- getObsoleteOlympicNations

  /** The cell marking a nation that no longer competes: a grey first td of its row. */
  const GreyFirstCell := FirstChild(TagAttr("td", "bgcolor", "#e0e0e0"))

  /** The name in the anchor of a row's grey first cell. */
  function ObsoleteReading(row: Node): Option<string> {
    match SelectFirst(row, GreyFirstCell)
    case None => None
    case Some(cell) =>
      match SelectFirst(cell, Tag("a"))
      case None => None
      case Some(a) => Some(TextOf(a))
  }

  function ObsoleteReadings(rows: seq<Node>): (r: seq<Option<string>>)
    ensures |r| == |rows| && forall k :: 0 <= k < |rows| ==> r[k] == ObsoleteReading(rows[k])
  {
    seq(|rows|, k requires 0 <= k < |rows| => ObsoleteReading(rows[k]))
  }

  /**
   * The season's nations page: the one given, else the one linked from the given parent,
   * else the one linked from the season's parent page.
   */
  function SeasonPage(web: Web, parent: Option<Node>, page: Option<Node>, season: string): (r: Option<Node>)
    ensures page.Some? ==> r == page
    ensures page.None? && parent.Some? ==> r == FetchCurrentFromParent(web, parent, season)
  {
    if page.Some? then page
    else
      var p := if parent.None? then FetchParentPage(web, season) else parent;
      if p.Some? then FetchCurrentFromParent(web, p, season) else None
  }

  /** What getObsoleteOlympicNations returns. */
  function ObsoleteNations(web: Web, parent: Option<Node>, page: Option<Node>, season: string): set<string> {
    match SeasonPage(web, parent, page, season)
    case None => {}
    case Some(pg) => Gather(ObsoleteReadings(TableBodyRows(pg, TagClass("table", "wikitable"))))
  }

  /**
   * A nation is reported exactly when some body row of the first wikitable has a grey
   * first cell whose anchor reads the nation's name; that cell is its row's first element
   * child and carries the grey background.
   */
  lemma ObsoleteMembers(web: Web, parent: Option<Node>, page: Option<Node>, season: string, pg: Node, nation: string)
    requires SeasonPage(web, parent, page, season) == Some(pg)
    ensures nation in ObsoleteNations(web, parent, page, season) <==>
      exists k :: 0 <= k < |TableBodyRows(pg, TagClass("table", "wikitable"))| &&
        ObsoleteReading(TableBodyRows(pg, TagClass("table", "wikitable"))[k]) == Some(nation)
  {
    var rows := TableBodyRows(pg, TagClass("table", "wikitable"));
    var xs := ObsoleteReadings(rows);
    if Some(nation) in xs {
      var k :| 0 <= k < |xs| && xs[k] == Some(nation);
      assert ObsoleteReading(rows[k]) == Some(nation);
    }
  }

  /** A row only yields a name through a grey cell that is the first element child of its parent. */
  lemma ObsoleteRowIsGrey(row: Node)
    requires ObsoleteReading(row).Some?
    ensures exists p ::
      (MatchesAt(row, p, GreyFirstCell) && IsFirstElementChild(row, p) &&
       At(row, p).Some? && Attr(At(row, p).value, "bgcolor") != "")
  {
    var p := SelectPaths(row, GreyFirstCell)[0];
    SelectPathsMatch(row, GreyFirstCell);
    assert MatchesAt(row, p, GreyFirstCell);
    var cell := At(row, p).value;
    assert NodeMatches(cell, TagAttr("td", "bgcolor", "#e0e0e0"));
    assert EqIgnoreCase(Trim(cell.attrs["bgcolor"]), "#e0e0e0");
    assert |Trim(cell.attrs["bgcolor"])| == 7;
  }

  /** WebParser.getObsoleteOlympicNations. */
  method GetObsoleteOlympicNations(web: Web, parent: Option<Node>, page: Option<Node>, season: string)
    returns (obsoleteNations: set<string>)
    ensures obsoleteNations == ObsoleteNations(web, parent, page, season)
  {
    var current := page;
    var home := parent;
    if current.None? {
      if home.None? {
        home := FetchParentPage(web, season);
      }
      if home.Some? && current.None? {
        current := FetchCurrentFromParent(web, home, season);
      }
    }
    obsoleteNations := {};
    if current.Some? {
      var rows := TableBodyRows(current.value, TagClass("table", "wikitable"));
      obsoleteNations := GatherAll(ObsoleteReadings(rows));
    }
  }

  // ---------------------------------------------------------------- getMedalNations

  /** The text of the row's first anchor, if it has one. */
  function FirstAnchorText(row: Node): Option<string> {
    match SelectFirst(row, Tag("a"))
    case None => None
    case Some(a) => Some(TextOf(a))
  }

  /**
   * What one body row adds, from its td cells and its first anchor's text: a row with
   * fewer cells than `medal` is skipped; otherwise the cell `medal` places from the end (an
   * index past the end, raising IndexOutOfBoundsException, when medal is not positive) is
   * parsed, raising NumberFormatException when it is not an int, and the name is reported
   * when the count reaches the threshold.
   */
  function MedalCells(columns: seq<Node>, name: Option<string>, threshold: int, medal: int): Result<Option<string>> {
    if |columns| < medal then Ok(None)
    else
      var index := |columns| - medal;
      if index >= |columns| then Err(IndexOutOfBounds)
      else
        match ParseInt(TextOf(columns[index]))
        case Err(e) => Err(e)
        case Ok(count) => if count < threshold then Ok(None) else Ok(name)
  }

  function MedalReading(row: Node, threshold: int, medal: int): Result<Option<string>> {
    MedalCells(Select(row, Tag("td")), FirstAnchorText(row), threshold, medal)
  }

  function MedalReadings(rows: seq<Node>, threshold: int, medal: int): (r: seq<Result<Option<string>>>)
    ensures |r| == |rows| && forall k :: 0 <= k < |rows| ==> r[k] == MedalReading(rows[k], threshold, medal)
  {
    seq(|rows|, k requires 0 <= k < |rows| => MedalReading(rows[k], threshold, medal))
  }

  /** What getMedalNations returns or raises. */
  function MedalNations(web: Web, parent: Option<Node>, threshold: int, year: string, medal: int): Result<set<string>> {
    match YearMedalNationsPage(web, parent, year)
    case Err(e) => Err(e)
    case Ok(None) => Ok({})
    case Ok(Some(target)) =>
      Collect(MedalReadings(TableBodyRows(target, TagClass("table", "wikitable")), threshold, medal))
  }

  /**
   * A row reports its name exactly when it has at least `medal` cells, `medal` is positive,
   * and the cell `medal` places from the end parses to a count reaching the threshold.
   */
  lemma MedalCellsMeaning(columns: seq<Node>, name: Option<string>, threshold: int, medal: int, nation: string)
    ensures MedalCells(columns, name, threshold, medal) == Ok(Some(nation)) <==>
      (1 <= medal <= |columns| && name == Some(nation) &&
       ParseInt(TextOf(columns[|columns| - medal])).Ok? &&
       ParseInt(TextOf(columns[|columns| - medal])).value >= threshold)
  {
  }

  /**
   * When no row raises, a nation is reported exactly when some body row of the medal table
   * reports it.
   */
  lemma MedalNationsMembers(web: Web, parent: Option<Node>, threshold: int, year: string, medal: int,
                            target: Node, nation: string)
    requires YearMedalNationsPage(web, parent, year) == Ok(Some(target))
    requires MedalNations(web, parent, threshold, year, medal).Ok?
    ensures nation in MedalNations(web, parent, threshold, year, medal).value <==>
      exists k :: 0 <= k < |TableBodyRows(target, TagClass("table", "wikitable"))| &&
        MedalReading(TableBodyRows(target, TagClass("table", "wikitable"))[k], threshold, medal) == Ok(Some(nation))
  {
    var rows := TableBodyRows(target, TagClass("table", "wikitable"));
    var rs := MedalReadings(rows, threshold, medal);
    CollectMeaning(rs);
    if Ok(Some(nation)) in rs {
      var k :| 0 <= k < |rs| && rs[k] == Ok(Some(nation));
      assert MedalReading(rows[k], threshold, medal) == Ok(Some(nation));
    }
  }

  /**
   * With a medal column that is not positive, the first body row already reads past the
   * end of its cells: any page with a body row raises IndexOutOfBoundsException.
   */
  lemma NonPositiveMedalRaises(web: Web, parent: Option<Node>, threshold: int, year: string, medal: int, target: Node)
    requires YearMedalNationsPage(web, parent, year) == Ok(Some(target))
    requires medal <= 0
    requires TableBodyRows(target, TagClass("table", "wikitable")) != []
    ensures MedalNations(web, parent, threshold, year, medal) == Err(IndexOutOfBounds)
  {
    var rows := TableBodyRows(target, TagClass("table", "wikitable"));
    var rs := MedalReadings(rows, threshold, medal);
    CollectMeaning(rs);
    NonPositiveMedalCells(Select(rows[0], Tag("td")), FirstAnchorText(rows[0]), threshold, medal);
    assert rs[0] == Err(IndexOutOfBounds);
  }

  lemma NonPositiveMedalCells(columns: seq<Node>, name: Option<string>, threshold: int, medal: int)
    requires medal <= 0
    ensures MedalCells(columns, name, threshold, medal) == Err(IndexOutOfBounds)
  {
  }

  /** With a positive medal column, the only exception a body row can raise is NumberFormatException. */
  lemma PositiveMedalOnlyParseFails(web: Web, parent: Option<Node>, threshold: int, year: string, medal: int, target: Node)
    requires YearMedalNationsPage(web, parent, year) == Ok(Some(target))
    requires medal >= 1
    ensures MedalNations(web, parent, threshold, year, medal).Err? ==>
      MedalNations(web, parent, threshold, year, medal).error == NumberFormat
  {
    var rows := TableBodyRows(target, TagClass("table", "wikitable"));
    var rs := MedalReadings(rows, threshold, medal);
    CollectMeaning(rs);
    forall k | 0 <= k < |rs|
      ensures rs[k].Err? ==> rs[k].error == NumberFormat
    {
      PositiveMedalCells(Select(rows[k], Tag("td")), FirstAnchorText(rows[k]), threshold, medal);
    }
  }

  lemma PositiveMedalCells(columns: seq<Node>, name: Option<string>, threshold: int, medal: int)
    requires medal >= 1
    ensures MedalCells(columns, name, threshold, medal).Err? ==>
      MedalCells(columns, name, threshold, medal).error == NumberFormat
  {
  }

  /** WebParser.getMedalNations. */
  method GetMedalNations(web: Web, parent: Option<Node>, threshold: int, year: string, medal: int)
    returns (r: Result<set<string>>)
    ensures r == MedalNations(web, parent, threshold, year, medal)
  {
    var target := GetYearMedalNationsPage(web, parent, year);
    if target.Err? {
      return Err(target.error);
    }
    if target.value.None? {
      return Ok({});
    }
    var rows := TableBodyRows(target.value.value, TagClass("table", "wikitable"));
    r := CollectAll(MedalReadings(rows, threshold, medal));
  }

  // ---------------------------------------------------------------- scrapeCountriesStartingWith

  /** The lower-cased text of a row's first-child td, when it starts with the lower-cased prefix. */
  function CountryReading(row: Node, prefix: string): Option<string> {
    match SelectFirst(row, FirstChild(Tag("td")))
    case None => None
    case Some(firstColumn) =>
      var country := ToLower(TextOf(firstColumn));
      if StartsWith(country, prefix) then Some(country) else None
  }

  function CountryReadings(rows: seq<Node>, prefix: string): (r: seq<Option<string>>)
    ensures |r| == |rows| && forall k :: 0 <= k < |rows| ==> r[k] == CountryReading(rows[k], prefix)
  {
    seq(|rows|, k requires 0 <= k < |rows| => CountryReading(rows[k], prefix))
  }

  /** The rows of the first sortable wikitable, header row included. */
  function CountryRows(page: Node): seq<Node> {
    match SelectFirst(page, TagClasses("table", "sortable", "wikitable"))
    case None => []
    case Some(table) => Select(table, Tag("tr"))
  }

  /** What scrapeCountriesStartingWith returns. */
  function CountriesStartingWith(web: Web, prefix: string, page: Option<Node>): set<string> {
    match OrMainPage(web, page)
    case None => {}
    case Some(p) => Gather(CountryReadings(AfterHeader(CountryRows(p)), ToLower(prefix)))
  }

  /** Every reported country is lower case and starts with the prefix, ignoring its case. */
  lemma CountriesAreLowerPrefixed(web: Web, prefix: string, page: Option<Node>, country: string)
    requires country in CountriesStartingWith(web, prefix, page)
    ensures StartsWith(country, ToLower(prefix))
    ensures forall i :: 0 <= i < |country| ==> !IsUpper(country[i])
  {
    var p := OrMainPage(web, page).value;
    var rows := AfterHeader(CountryRows(p));
    var xs := CountryReadings(rows, ToLower(prefix));
    var k :| 0 <= k < |xs| && xs[k] == Some(country);
    assert CountryReading(rows[k], ToLower(prefix)) == Some(country);
  }

  /** Prefixes that differ only in case select the same countries. */
  lemma CountriesIgnorePrefixCase(web: Web, prefix1: string, prefix2: string, page: Option<Node>)
    requires EqIgnoreCase(prefix1, prefix2)
    ensures CountriesStartingWith(web, prefix1, page) == CountriesStartingWith(web, prefix2, page)
  {
  }

  /**
   * A country is reported exactly when some row after the header has a first-child td
   * whose lower-cased text is that country and starts with the lower-cased prefix.
   */
  lemma CountriesMembers(web: Web, prefix: string, page: Option<Node>, p: Node, country: string)
    requires OrMainPage(web, page) == Some(p)
    ensures country in CountriesStartingWith(web, prefix, page) <==>
      exists k :: 1 <= k < |CountryRows(p)| && CountryReading(CountryRows(p)[k], ToLower(prefix)) == Some(country)
  {
    var rows := CountryRows(p);
    var xs := CountryReadings(AfterHeader(rows), ToLower(prefix));
    if Some(country) in xs {
      var k :| 0 <= k < |xs| && xs[k] == Some(country);
      assert AfterHeader(rows)[k] == rows[k + 1];
    }
    if exists k :: 1 <= k < |rows| && CountryReading(rows[k], ToLower(prefix)) == Some(country) {
      var k :| 1 <= k < |rows| && CountryReading(rows[k], ToLower(prefix)) == Some(country);
      assert AfterHeader(rows)[k - 1] == rows[k];
      assert xs[k - 1] == Some(country);
    }
  }

  /** A row after the header whose lower-cased first-child td starts with the prefix is reported. */
  lemma CountryReported(web: Web, prefix: string, page: Option<Node>, p: Node, k: int, cell: Node)
    requires OrMainPage(web, page) == Some(p)
    requires 1 <= k < |CountryRows(p)|
    requires SelectFirst(CountryRows(p)[k], FirstChild(Tag("td"))) == Some(cell)
    requires StartsWith(ToLower(TextOf(cell)), ToLower(prefix))
    ensures ToLower(TextOf(cell)) in CountriesStartingWith(web, prefix, page)
  {
    var rows := CountryRows(p);
    var xs := CountryReadings(AfterHeader(rows), ToLower(prefix));
    assert AfterHeader(rows)[k - 1] == rows[k];
    assert xs[k - 1] == Some(ToLower(TextOf(cell)));
  }

  /**
   * The header row is never read: two pages whose sortable wikitables differ only in
   * their first row give the same countries.
   */
  lemma CountriesSkipHeader(web: Web, prefix: string, page1: Option<Node>, page2: Option<Node>, p1: Node, p2: Node)
    requires OrMainPage(web, page1) == Some(p1) && OrMainPage(web, page2) == Some(p2)
    requires |CountryRows(p1)| == |CountryRows(p2)|
    requires forall k :: 1 <= k < |CountryRows(p1)| ==> CountryRows(p1)[k] == CountryRows(p2)[k]
    ensures CountriesStartingWith(web, prefix, page1) == CountriesStartingWith(web, prefix, page2)
  {
    assert AfterHeader(CountryRows(p1)) == AfterHeader(CountryRows(p2));
  }

  /** WebParser.scrapeCountriesStartingWith. */
  method ScrapeCountriesStartingWith(web: Web, prefix: string, page: Option<Node>) returns (countries: set<string>)
    ensures countries == CountriesStartingWith(web, prefix, page)
  {
    var lowered := ToLower(prefix);
    var p := OrMainPage(web, page);
    countries := {};
    if p.Some? {
      var rows := CountryRows(p.value);
      countries := GatherAll(CountryReadings(AfterHeader(rows), lowered));
    }
  }

  // ---------------------------------------------------------------- getAllMedals

  /** The first line of the medal lookup file. */
  const CsvHeader: string := "Country,Gold,Silver,Bronze"

  /** The name column of a lookup line: the row's first anchor, or "Unknown". */
  function RowName(row: Node): string {
    match SelectFirst(row, Tag("a"))
    case None => "Unknown"
    case Some(a) => TextOf(a)
  }

  /** The texts of the cells 4, 3 and 2 places from the end, each after a comma. */
  function MedalFields(columns: seq<Node>): string
    requires |columns| >= 4
  {
    "," + TextOf(columns[|columns| - 4]) + "," + TextOf(columns[|columns| - 3]) + "," + TextOf(columns[|columns| - 2])
  }

  /**
   * The lookup line as getAllMedals writes it, from the row's name and td cells: rows of at
   * least three cells are written, but the first field is read four cells from the end,
   * so a row of exactly three cells raises IndexOutOfBoundsException.
   */
  function CsvCellsAsWritten(name: string, columns: seq<Node>): Result<Option<string>> {
    if |columns| < 3 then Ok(None)
    else if |columns| - 4 < 0 then Err(IndexOutOfBounds)
    else Ok(Some(name + MedalFields(columns)))
  }

  /** The lookup line with the guard the indices need: rows of at least four cells. */
  function CsvCells(name: string, columns: seq<Node>): Option<string> {
    if |columns| < 4 then None else Some(name + MedalFields(columns))
  }

  function CsvLineAsWritten(row: Node): Result<Option<string>> {
    CsvCellsAsWritten(RowName(row), Select(row, Tag("td")))
  }

  function CsvLine(row: Node): Option<string> {
    CsvCells(RowName(row), Select(row, Tag("td")))
  }

  /** The written guard lets a three-cell row through to an index before the first cell. */
  lemma ThreeCellRowRaises(name: string, columns: seq<Node>)
    requires |columns| == 3
    ensures CsvCellsAsWritten(name, columns) == Err(IndexOutOfBounds)
  {
  }

  /**
   * The as-written and corrected lines agree on every row except the three-cell rows,
   * where only the written one raises.
   */
  lemma CsvCellsAgree(name: string, columns: seq<Node>)
    ensures |columns| != 3 ==> CsvCellsAsWritten(name, columns) == Ok(CsvCells(name, columns))
    ensures CsvCellsAsWritten(name, columns).Err? <==> |columns| == 3
  {
  }

  /**
   * A corrected line is written exactly for the rows of at least four cells, and never
   * raises; its fields are the name and the gold, silver and bronze cells that precede
   * the last cell.
   */
  lemma CsvCellsFields(name: string, columns: seq<Node>)
    ensures CsvCells(name, columns).Some? <==> |columns| >= 4
    ensures CsvCells(name, columns).Some? ==>
      CsvCells(name, columns).value ==
        name + "," + TextOf(columns[|columns| - 4]) + "," + TextOf(columns[|columns| - 3]) +
        "," + TextOf(columns[|columns| - 2])
  {
  }

  /** The fields the loop has appended once its counter has come down to i. */
  function MedalFieldsFrom(columns: seq<Node>, i: nat): string
    requires |columns| >= 4 && 1 <= i <= 4
    decreases 4 - i
  {
    if i == 4 then "" else MedalFieldsFrom(columns, i + 1) + "," + TextOf(columns[|columns| - (i + 1)])
  }

  /** Counting down from 4 to 2 appends exactly the three medal fields. */
  lemma MedalFieldsFromAll(columns: seq<Node>)
    requires |columns| >= 4
    ensures MedalFieldsFrom(columns, 1) == MedalFields(columns)
  {
    var n := |columns|;
    var g, s, b := TextOf(columns[n - 4]), TextOf(columns[n - 3]), TextOf(columns[n - 2]);
    assert MedalFieldsFrom(columns, 3) == "" + "," + g;
    assert MedalFieldsFrom(columns, 2) == "" + "," + g + "," + s;
    assert MedalFieldsFrom(columns, 1) == "" + "," + g + "," + s + "," + b;
    assert "" + "," + g == "," + g;
  }

  /** The loop `for (int i = 4; i > 1; i--)` that appends the three medal fields as written. */
  method FormatRowAsWritten(name: string, columns: seq<Node>) returns (r: Result<Option<string>>)
    ensures r == CsvCellsAsWritten(name, columns)
  {
    if |columns| < 3 {
      return Ok(None);
    }
    var csvRow := name;
    var i := 4;
    while i > 1
      invariant 1 <= i <= 4
      invariant |columns| >= 4 ==> csvRow == name + MedalFieldsFrom(columns, i)
      invariant i < 4 ==> |columns| >= 4
    {
      csvRow := csvRow + ",";
      var index := |columns| - i;
      if index < 0 {
        return Err(IndexOutOfBounds);
      }
      csvRow := csvRow + TextOf(columns[index]);
      i := i - 1;
    }
    MedalFieldsFromAll(columns);
    return Ok(Some(csvRow));
  }

  /** The same loop behind the corrected guard, which never indexes outside the cells. */
  method FormatRow(name: string, columns: seq<Node>) returns (r: Option<string>)
    ensures r == CsvCells(name, columns)
  {
    if |columns| < 4 {
      return None;
    }
    var csvRow := name;
    var i := 4;
    while i > 1
      invariant 1 <= i <= 4
      invariant csvRow == name + MedalFieldsFrom(columns, i)
    {
      csvRow := csvRow + "," + TextOf(columns[|columns| - i]);
      i := i - 1;
    }
    MedalFieldsFromAll(columns);
    return Some(csvRow);
  }

  function CsvLines(rows: seq<Node>): (r: seq<Option<string>>)
    ensures |r| == |rows| && forall k :: 0 <= k < |rows| ==> r[k] == CsvLine(rows[k])
  {
    seq(|rows|, k requires 0 <= k < |rows| => CsvLine(rows[k]))
  }

  /**
   * The lines of the medal lookup file getAllMedals writes (with the corrected guard): the
   * header, then one line per body row of the year page's first wikitable; nothing is
   * written without such a table body.
   */
  function AllMedals(web: Web, home: Option<Node>, year: string): Result<Option<seq<string>>> {
    match OrMainPage(web, home)
    case None => Ok(None)
    case Some(h) =>
      match YearMedalNationsPage(web, Some(h), year)
      case Err(e) => Err(e)
      case Ok(None) => Ok(None)
      case Ok(Some(medalPage)) =>
        match SelectFirst(medalPage, TagClass("table", "wikitable"))
        case None => Ok(None)
        case Some(table) =>
          match SelectFirst(table, Tag("tbody"))
          case None => Ok(None)
          case Some(tbody) => Ok(Some([CsvHeader] + Somes(CsvLines(Select(tbody, Tag("tr"))))))
  }

  /** After the header, a written file has at most one line per body row, each that row's line. */
  lemma CsvLinesFromRows(rows: seq<Node>)
    ensures |Somes(CsvLines(rows))| <= |rows|
    ensures forall l :: l in Somes(CsvLines(rows)) ==> exists k :: 0 <= k < |rows| && CsvLine(rows[k]) == Some(l)
  {
    SomesMembers(CsvLines(rows));
  }

  /** WebParser.getAllMedals, the lines of the file in place of the file. */
  method GetAllMedals(web: Web, home: Option<Node>, year: string) returns (r: Result<Option<seq<string>>>)
    ensures r == AllMedals(web, home, year)
  {
    var h := OrMainPage(web, home);
    if h.None? {
      return Ok(None);
    }
    var medalPage := GetYearMedalNationsPage(web, h, year);
    if medalPage.Err? {
      return Err(medalPage.error);
    }
    if medalPage.value.None? {
      return Ok(None);
    }
    var table := SelectFirst(medalPage.value.value, TagClass("table", "wikitable"));
    if table.None? {
      return Ok(None);
    }
    var tbody := SelectFirst(table.value, Tag("tbody"));
    if tbody.None? {
      return Ok(None);
    }
    var rows := Select(tbody.value, Tag("tr"));
    var lines := WriteLines(rows);
    return Ok(Some([CsvHeader] + lines));
  }

  /** The row loop of getAllMedals: one line per row that passes the guard. */
  method WriteLines(rows: seq<Node>) returns (lines: seq<string>)
    ensures lines == Somes(CsvLines(rows))
  {
    ghost var xs := CsvLines(rows);
    lines := [];
    var i := 0;
    while i < |rows|
      invariant 0 <= i <= |rows|
      invariant lines == Somes(xs[..i])
    {
      var line := FormatRow(RowName(rows[i]), Select(rows[i], Tag("td")));
      SomesStep(xs, i);
      if line.Some? {
        lines := lines + [line.value];
      }
      i := i + 1;
    }
    assert xs[..i] == xs;
  }
}

/**
 * The queries over a year's podium-sweeps page: the nations that swept a podium, and the
 * flag images of the participating nations.
 */
module Podium {
  import opened Wrappers
  import opened JavaText
  import opened Dom
  import opened Navigation
  import opened Pages
  import opened Folds

  // ---------------------------------------------------------------- getPodiumSweepsByYear

  /**
   * What one body row of the podium-sweeps table adds: `td.get(3)` raises
   * IndexOutOfBoundsException when the row has fewer than four cells; otherwise the text
   * of the fourth cell's first anchor, if it has one.
   */
  function SweepReading(row: Node): Result<Option<string>> {
    var tds := Select(row, Tag("td"));
    if |tds| < 4 then Err(IndexOutOfBounds)
    else
      match SelectFirst(tds[3], Tag("a"))
      case None => Ok(None)
      case Some(a) => Ok(Some(TextOf(a)))
  }

  /** SweepReading of each row, in order. */
  function SweepReadings(rows: seq<Node>): seq<Result<Option<string>>> {
    MapSeq(SweepReading, rows)
  }

  /** The rows of the first table after the parent of the first h3#Podium_sweeps. */
  function SweepRows(home: Node): seq<Node> {
    match TableAfter(home, First(SelectPaths(home, TagId("h3", "Podium_sweeps"))), TagIs("table"))
    case None => []
    case Some(t) =>
      match At(home, t)
      case None => []
      case Some(table) => Select(table, Tag("tr"))
  }

  /** What getPodiumSweepsByYear returns or raises. */
  function PodiumSweepers(web: Web, parent: Option<Node>, year: string): Result<set<string>> {
    match PodiumSweepsPage(web, parent, year)
    case Err(e) => Err(e)
    case Ok(None) => Ok({})
    case Ok(Some(home)) => Collect(SweepReadings(AfterHeader(SweepRows(home))))
  }

  /**
   * Once the year page is reached, the query raises exactly when a table row after the
   * header has fewer than four cells, and then with IndexOutOfBoundsException.
   */
  lemma PodiumSweepersRaises(web: Web, home: Node, parent: Option<Node>, year: string)
    requires PodiumSweepsPage(web, parent, year) == Ok(Some(home))
    ensures PodiumSweepers(web, parent, year).Err? <==>
      exists k :: 0 <= k < |AfterHeader(SweepRows(home))| && |Select(AfterHeader(SweepRows(home))[k], Tag("td"))| < 4
    ensures PodiumSweepers(web, parent, year).Err? ==> PodiumSweepers(web, parent, year).error == IndexOutOfBounds
  {
    var rows := AfterHeader(SweepRows(home));
    var rs := SweepReadings(rows);
    MapSeqAt(SweepReading, rows);
    CollectMeaning(rs);
    assert forall k :: 0 <= k < |rs| ==> (rs[k].Err? <==> |Select(rows[k], Tag("td"))| < 4);
    assert forall k :: 0 <= k < |rs| ==> (rs[k].Err? ==> rs[k].error == IndexOutOfBounds);
  }

  /**
   * A nation is reported exactly when some row after the header has at least four cells
   * and the fourth cell's first anchor reads the nation's name.
   */
  lemma PodiumSweepersMembers(web: Web, home: Node, parent: Option<Node>, year: string, nation: string)
    requires PodiumSweepsPage(web, parent, year) == Ok(Some(home))
    requires PodiumSweepers(web, parent, year).Ok?
    ensures nation in PodiumSweepers(web, parent, year).value <==>
      exists k :: 0 <= k < |AfterHeader(SweepRows(home))| &&
        SweepReading(AfterHeader(SweepRows(home))[k]) == Ok(Some(nation))
  {
    var rows := AfterHeader(SweepRows(home));
    MapSeqAt(SweepReading, rows);
    CollectMeaning(SweepReadings(rows));
  }

  /** WebParser.getPodiumSweepsByYear. */
  method GetPodiumSweepsByYear(web: Web, parent: Option<Node>, year: string) returns (r: Result<set<string>>)
    ensures r == PodiumSweepers(web, parent, year)
  {
    var home := GetPodiumSweepsPage(web, parent, year);
    if home.Err? {
      return Err(home.error);
    }
    if home.value.None? {
      return Ok({});
    }
    var page := home.value.value;
    var heading := First(SelectPaths(page, TagId("h3", "Podium_sweeps")));
    var next := FindTableAfter(page, heading, TagIs("table"));
    if next.None? {
      return Ok({});
    }
    var rows := Select(At(page, next.value).value, Tag("tr"));
    r := CollectAll(SweepReadings(AfterHeader(rows)));
  }

  // ---------------------------------------------------------------- getFlagSources

  const ParticipatingNations := MentionsBoth("participating", "nation")

  /** The protocol-relative src of a list item's first img, made absolute. */
  function FlagSrc(li: Node): Option<string> {
    match SelectFirst(li, Tag("img"))
    case None => None
    case Some(img) => Some("https:" + Attr(img, "src"))
  }

  /** The flag source of each list item of a row, in order. */
  function RowFlagSrcs(row: Node): seq<Option<string>> {
    MapSeq(FlagSrc, Select(row, Tag("li")))
  }

  /** The body rows of the first table or wikitable after the participating-nations heading. */
  function FlagRows(home: Node): seq<Node> {
    match TableAfter(home, LocateHeading(home, ParticipatingNations), TagOrClass("table", "wikitable"))
    case None => []
    case Some(t) =>
      match At(home, t)
      case None => []
      case Some(table) => BodyRows(table)
  }

  /** What getFlagSources returns or raises. */
  function FlagSources(web: Web, parent: Option<Node>, year: string): Result<seq<string>> {
    match PodiumSweepsPage(web, parent, year)
    case Err(e) => Err(e)
    case Ok(None) => Ok([])
    case Ok(Some(home)) => Ok(Flatten(MapSeq(RowFlagSrcs, FlagRows(home))))
  }

  /**
   * A source is reported exactly when it is "https:" followed by the src of the first img
   * of some list item in some body row of the table.
   */
  lemma FlagSourcesAreImages(web: Web, parent: Option<Node>, year: string, home: Node, s: string)
    requires PodiumSweepsPage(web, parent, year) == Ok(Some(home))
    ensures s in FlagSources(web, parent, year).value <==> exists k, j ::
      (0 <= k < |FlagRows(home)| && 0 <= j < |Select(FlagRows(home)[k], Tag("li"))| &&
       FlagSrc(Select(FlagRows(home)[k], Tag("li"))[j]) == Some(s))
    ensures s in FlagSources(web, parent, year).value ==> StartsWith(s, "https:")
  {
    var rows := FlagRows(home);
    FlattenMapMembers(RowFlagSrcs, rows, s);
    forall k | 0 <= k < |rows|
      ensures |RowFlagSrcs(rows[k])| == |Select(rows[k], Tag("li"))|
      ensures forall j :: 0 <= j < |Select(rows[k], Tag("li"))| ==>
        RowFlagSrcs(rows[k])[j] == FlagSrc(Select(rows[k], Tag("li"))[j])
    {
      MapSeqAt(FlagSrc, Select(rows[k], Tag("li")));
    }
    if s in FlagSources(web, parent, year).value {
      var k, j :| 0 <= k < |rows| && 0 <= j < |RowFlagSrcs(rows[k])| && RowFlagSrcs(rows[k])[j] == Some(s);
      var lis := Select(rows[k], Tag("li"));
      var img := SelectFirst(lis[j], Tag("img")).value;
      assert s == "https:" + Attr(img, "src");
      assert s[..|"https:"|] == "https:";
    }
  }

  /**
   * The sources keep row order, then item order: everything read from earlier rows and
   * earlier items of the same row comes before an item's source, everything later after it.
   */
  lemma FlagSourcesInOrder(web: Web, parent: Option<Node>, year: string, home: Node, k: int, j: int)
    requires PodiumSweepsPage(web, parent, year) == Ok(Some(home))
    requires 0 <= k < |FlagRows(home)| && 0 <= j < |Select(FlagRows(home)[k], Tag("li"))|
    ensures FlagSources(web, parent, year).value ==
      Flatten(MapSeq(RowFlagSrcs, FlagRows(home)[..k])) +
      Somes(MapSeq(FlagSrc, Select(FlagRows(home)[k], Tag("li"))[..j])) +
      Somes([FlagSrc(Select(FlagRows(home)[k], Tag("li"))[j])]) +
      Somes(MapSeq(FlagSrc, Select(FlagRows(home)[k], Tag("li"))[j + 1..])) +
      Flatten(MapSeq(RowFlagSrcs, FlagRows(home)[k + 1..]))
  {
    var rows := FlagRows(home);
    var lis := Select(rows[k], Tag("li"));
    MapSeqSlices(RowFlagSrcs, rows, k);
    MapSeqSlices(FlagSrc, lis, j);
    FlattenSplitAt(MapSeq(RowFlagSrcs, rows), k, j);
  }

  /** WebParser.getFlagSources. */
  method GetFlagSources(web: Web, parent: Option<Node>, year: string) returns (r: Result<seq<string>>)
    ensures r == FlagSources(web, parent, year)
  {
    var home := GetPodiumSweepsPage(web, parent, year);
    if home.Err? {
      return Err(home.error);
    }
    if home.value.None? {
      return Ok([]);
    }
    var page := home.value.value;
    var participatingNations := LocateHeading(page, ParticipatingNations);
    var next := FindTableAfter(page, participatingNations, TagOrClass("table", "wikitable"));
    if next.None? {
      return Ok([]);
    }
    var rows := BodyRows(At(page, next.value).value);
    var ret := FlattenAll(MapSeq(RowFlagSrcs, rows));
    return Ok(ret);
  }
}

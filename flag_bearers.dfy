/**
 * The flag-bearer queries: from a year's medal page to the page of a nation's
 * delegation, from there to the pages of its flag bearers, and from each of those to
 * whether the person has died.
 */
module FlagBearers {
  import opened Wrappers
  import opened JavaText
  import opened Dom
  import opened Navigation
  import opened Pages
  import opened Folds
  import opened Sports

  // ---------------------------------------------------------------- getStatus

  /** th:matchesOwn(^Died$): a header cell whose own text is exactly "Died". */
  const Died := TagOwnText("th", "Died")

  const PassedAway: string := " passed away: "
  const StillAlive: string := " is still alive."

  function Infoboxes(root: Node): seq<Node> {
    Select(root, TagClass("table", "infobox"))
  }

  /** The infobox has a "Died" header cell. */
  predicate HasDied(infobox: Node) {
    First(SelectPaths(infobox, Died)).Some?
  }

  /** The first td among the later siblings of the infobox's first "Died" header cell. */
  function DeathCell(infobox: Node): (r: Option<Node>)
    ensures r.Some? ==> HasDied(infobox) && r.value.Element? && r.value.tag == "td"
  {
    match First(SelectPaths(infobox, Died))
    case None => None
    case Some(th) =>
      match SiblingAfter(infobox, th, TagIs("td"))
      case None => None
      case Some(q) =>
        SiblingAfterStops(infobox, th, TagIs("td"));
        At(infobox, q)
  }

  /**
   * What one infobox settles: alive when it has no "Died" cell, dead (with the rendered
   * cell beside it) when that cell has a td after it, and nothing when it has none.
   */
  function InfoboxVerdict(name: string, infobox: Node): Option<string> {
    if !HasDied(infobox) then Some(name + StillAlive)
    else match DeathCell(infobox)
      case None => None
      case Some(cell) => Some(name + PassedAway + StatusText(cell.children))
  }

  /** The verdict of each infobox, in document order. */
  function InfoboxVerdicts(name: string, infoboxes: seq<Node>): seq<Option<string>> {
    MapSeq(ib => InfoboxVerdict(name, ib), infoboxes)
  }

  /** What getStatus returns: the first infobox that settles the question, else "". */
  function Status(name: string, root: Node): string {
    match FirstSome(InfoboxVerdicts(name, Infoboxes(root)))
    case None => ""
    case Some(s) => s
  }

  /** An infobox that leaves the question open: a "Died" cell with no td after it. */
  predicate Undecided(infobox: Node) {
    HasDied(infobox) && DeathCell(infobox).None?
  }

  /** The status is empty exactly when every infobox leaves the question open. */
  lemma StatusEmptyIff(name: string, root: Node)
    ensures Status(name, root) == "" <==> forall k :: 0 <= k < |Infoboxes(root)| ==> Undecided(Infoboxes(root)[k])
  {
    var vs := InfoboxVerdicts(name, Infoboxes(root));
    MapSeqAt(ib => InfoboxVerdict(name, ib), Infoboxes(root));
    FirstSomeMeaning(vs);
    if FirstSome(vs).Some? {
      var k :| 0 <= k < |vs| && vs[k] == FirstSome(vs);
      assert !Undecided(Infoboxes(root)[k]);
    }
  }

  /**
   * The first infobox that does not leave the question open decides it: "is still alive."
   * without a "Died" cell, "passed away: " and the rendered td beside it otherwise.
   */
  lemma StatusDecided(name: string, root: Node, k: nat)
    requires k < |Infoboxes(root)|
    requires forall j :: 0 <= j < k ==> Undecided(Infoboxes(root)[j])
    ensures !HasDied(Infoboxes(root)[k]) ==> Status(name, root) == name + StillAlive
    ensures DeathCell(Infoboxes(root)[k]).Some? ==>
      Status(name, root) == name + PassedAway + StatusText(DeathCell(Infoboxes(root)[k]).value.children)
  {
    var vs := InfoboxVerdicts(name, Infoboxes(root));
    MapSeqAt(ib => InfoboxVerdict(name, ib), Infoboxes(root));
    assert forall j :: 0 <= j < k ==> vs[j].None?;
    if vs[k].Some? {
      FirstSomeAt(vs, k);
    }
  }

  /** The body of getStatus's for loop for one infobox. */
  method InfoboxStatus(name: string, infobox: Node) returns (v: Option<string>)
    ensures v == InfoboxVerdict(name, infobox)
  {
    var th := First(SelectPaths(infobox, Died));
    if th.None? {
      return Some(name + StillAlive);
    }
    var next := FindAfter(infobox, th.value, TagIs("td"));
    if next.None? {
      return None;
    }
    SiblingAfterStops(infobox, th.value, TagIs("td"));
    var combined := RenderStatus(At(infobox, next.value).value);
    return Some(name + PassedAway + combined);
  }

  /** WebParser.getStatus. */
  method GetStatus(name: string, root: Node) returns (s: string)
    ensures s == Status(name, root)
  {
    var infoboxes := Infoboxes(root);
    ghost var verdicts := InfoboxVerdicts(name, infoboxes);
    MapSeqAt(ib => InfoboxVerdict(name, ib), infoboxes);
    var i := 0;
    while i < |infoboxes|
      invariant 0 <= i <= |infoboxes|
      invariant FirstSome(verdicts[i..]) == FirstSome(verdicts)
    {
      var v := InfoboxStatus(name, infoboxes[i]);
      if v.Some? {
        assert verdicts[i..][0] == v;
        return v.value;
      }
      FirstSomeSkip(verdicts, i);
      i := i + 1;
    }
    assert verdicts[i..] == [];
    return "";
  }

  // ---------------------------------------------------------------- getFlagBearerPage

  /** A flag bearer: the anchor text and the non-empty href it links with. */
  datatype Bearer = Bearer(name: string, link: string)

  /** A th whose text mentions flag bearers, or failing that the row's first anchor's. */
  predicate IsBearerRow(row: Node) {
    match SelectFirst(row, Tag("th"))
    case None => false
    case Some(th) =>
      Contains(TextOf(th), "Flag bearer") ||
      (match SelectFirst(row, Tag("a"))
       case None => false
       case Some(a) => Contains(TextOf(a), "Flag bearer"))
  }

  /** The anchors of a row's first td. */
  function People(row: Node): seq<Node> {
    match SelectFirst(row, Tag("td"))
    case None => []
    case Some(td) => Select(td, Tag("a"))
  }

  function BearerOf(a: Node): Option<Bearer> {
    if Attr(a, "href") != "" then Some(Bearer(TextOf(a), Attr(a, "href"))) else None
  }

  /** The bearers a row lists: one per anchor of its first td, when the row is about flag bearers. */
  function Listed(row: Node): seq<Option<Bearer>> {
    if IsBearerRow(row) then MapSeq(BearerOf, People(row)) else []
  }

  /** What each row lists, in order. */
  function RowBearers(rows: seq<Node>): seq<seq<Option<Bearer>>> {
    MapSeq(Listed, rows)
  }

  /** The rows of the tbody of the page's first infobox. */
  function InfoboxBodyRows(flagBearer: Option<Node>): seq<Node> {
    match flagBearer
    case None => []
    case Some(page) =>
      match SelectFirst(page, TagClass("table", "infobox"))
      case None => []
      case Some(infobox) => BodyRows(infobox)
  }

  /** The bearers in the order the loops meet them. */
  function BearerList(flagBearer: Option<Node>): seq<Bearer> {
    Flatten(RowBearers(InfoboxBodyRows(flagBearer)))
  }

  /** HashMap.put of each bearer's fetched page in turn: a later bearer of the same name wins. */
  function Register(web: Web, bs: seq<Bearer>): map<string, Option<Node>> {
    if bs == [] then map[]
    else
      var last := bs[|bs| - 1];
      Register(web, bs[..|bs| - 1])[last.name := Fetch(web, Base + last.link)]
  }

  /** What getFlagBearerPage returns. */
  function FlagBearerMap(web: Web, flagBearer: Option<Node>): map<string, Option<Node>> {
    Register(web, BearerList(flagBearer))
  }

  /** The keys are exactly the names registered. */
  lemma {:induction false} RegisterKeys(web: Web, bs: seq<Bearer>)
    ensures forall n :: n in Register(web, bs) <==> exists k :: 0 <= k < |bs| && bs[k].name == n
  {
    if bs != [] {
      var init := bs[..|bs| - 1];
      RegisterKeys(web, init);
      assert forall k :: 0 <= k < |init| ==> init[k] == bs[k];
    }
  }

  /** A name maps to the page of the last bearer registered under it. */
  lemma {:induction false} RegisterLastWins(web: Web, bs: seq<Bearer>, k: nat)
    requires k < |bs|
    requires forall j :: k < j < |bs| ==> bs[j].name != bs[k].name
    ensures bs[k].name in Register(web, bs)
    ensures Register(web, bs)[bs[k].name] == Fetch(web, Base + bs[k].link)
  {
    if k < |bs| - 1 {
      var init := bs[..|bs| - 1];
      assert forall j :: k < j < |init| ==> init[j] == bs[j];
      RegisterLastWins(web, init, k);
    }
  }

  /** The bearer an anchor of a flag-bearer row's first td names. */
  predicate NamedIn(rows: seq<Node>, k: int, j: int, b: Bearer) {
    0 <= k < |rows| && IsBearerRow(rows[k]) && 0 <= j < |People(rows[k])| &&
    BearerOf(People(rows[k])[j]) == Some(b)
  }

  /** Entry j of what a row lists is the bearer of its j-th person, for a flag-bearer row. */
  lemma ListedAt(row: Node, j: nat, b: Bearer)
    ensures (j < |Listed(row)| && Listed(row)[j] == Some(b)) <==>
      (IsBearerRow(row) && j < |People(row)| && BearerOf(People(row)[j]) == Some(b))
  {
    MapSeqAt(BearerOf, People(row));
  }

  /** The bearers listed are exactly those named by anchors with a non-empty href in flag-bearer rows. */
  lemma ListedIff(rows: seq<Node>, b: Bearer)
    ensures b in Flatten(RowBearers(rows)) <==> exists k, j :: NamedIn(rows, k, j, b)
  {
    FlattenMapMembers(Listed, rows, b);
    if b in Flatten(RowBearers(rows)) {
      var k, j :| 0 <= k < |rows| && 0 <= j < |Listed(rows[k])| && Listed(rows[k])[j] == Some(b);
      ListedAt(rows[k], j, b);
      assert NamedIn(rows, k, j, b);
    }
    if exists k, j :: NamedIn(rows, k, j, b) {
      var k, j :| NamedIn(rows, k, j, b);
      ListedAt(rows[k], j, b);
    }
  }

  /** A name is a key exactly when some linked anchor of a flag-bearer row reads it. */
  lemma BearerNames(web: Web, rows: seq<Node>, n: string)
    ensures
      n in Register(web, Flatten(RowBearers(rows))) <==>
        exists k, j ::
          (0 <= k < |rows| && IsBearerRow(rows[k]) && 0 <= j < |People(rows[k])| &&
           Attr(People(rows[k])[j], "href") != "" && TextOf(People(rows[k])[j]) == n)
  {
    var bs := Flatten(RowBearers(rows));
    RegisterKeys(web, bs);
    if n in Register(web, bs) {
      var i :| 0 <= i < |bs| && bs[i].name == n;
      ListedIff(rows, bs[i]);
      var k, j :| NamedIn(rows, k, j, bs[i]);
      assert TextOf(People(rows[k])[j]) == n;
    }
    if exists k, j ::
        (0 <= k < |rows| && IsBearerRow(rows[k]) && 0 <= j < |People(rows[k])| &&
         Attr(People(rows[k])[j], "href") != "" && TextOf(People(rows[k])[j]) == n) {
      var k, j :|
        0 <= k < |rows| && IsBearerRow(rows[k]) && 0 <= j < |People(rows[k])| &&
        Attr(People(rows[k])[j], "href") != "" && TextOf(People(rows[k])[j]) == n;
      var a := People(rows[k])[j];
      var b := Bearer(n, Attr(a, "href"));
      assert NamedIn(rows, k, j, b);
      ListedIff(rows, b);
      var i :| 0 <= i < |bs| && bs[i] == b;
    }
  }

  /** The for loop putting each bearer's fetched page into the map. */
  method RegisterAll(web: Web, bs: seq<Bearer>) returns (ret: map<string, Option<Node>>)
    ensures ret == Register(web, bs)
  {
    ret := map[];
    var i := 0;
    while i < |bs|
      invariant 0 <= i <= |bs|
      invariant ret == Register(web, bs[..i])
    {
      assert bs[..i + 1][..i] == bs[..i];
      ret := ret[bs[i].name := Fetch(web, Base + bs[i].link)];
      i := i + 1;
    }
    assert bs[..i] == bs;
  }

  /** WebParser.getFlagBearerPage. */
  method GetFlagBearerPage(web: Web, flagBearer: Option<Node>) returns (ret: map<string, Option<Node>>)
    ensures ret == FlagBearerMap(web, flagBearer)
  {
    if flagBearer.None? {
      return map[];
    }
    var infobox := SelectFirst(flagBearer.value, TagClass("table", "infobox"));
    if infobox.None? {
      return map[];
    }
    var bearers := FlattenAll(RowBearers(BodyRows(infobox.value)));
    ret := RegisterAll(web, bearers);
  }

  // ---------------------------------------------------------------- getFlagBearerRoot

  /** The href of a medal-table row's first anchor, when it reads the country and is non-empty. */
  function CountryLink(row: Node, country: string): Option<string> {
    match SelectFirst(row, Tag("a"))
    case None => None
    case Some(title) =>
      if TextOf(title) == country && Attr(title, "href") != "" then Some(Attr(title, "href")) else None
  }

  /** The country link of each row, in order. */
  function CountryLinks(rows: seq<Node>, country: string): seq<Option<string>> {
    MapSeq(row => CountryLink(row, country), rows)
  }

  /**
   * What getFlagBearerRoot returns: the page linked from the first medal-table row whose
   * first anchor reads the country; it raises when the year's medal page does.
   */
  function FlagBearerRoot(web: Web, parent: Option<Node>, year: string, country: string): (r: Result<Option<Node>>)
    ensures r.Err? <==>
      OrMainPage(web, parent).Some? && |Select(OrMainPage(web, parent).value, TagClass("table", "wikitable"))| < 4
    ensures r.Err? ==> r.error == IndexOutOfBounds
  {
    match YearMedalNationsPage(web, parent, year)
    case Err(e) => Err(e)
    case Ok(None) => Ok(None)
    case Ok(Some(page)) =>
      match FirstSome(CountryLinks(MedalRows(page), country))
      case None => Ok(None)
      case Some(link) => Ok(Fetch(web, Base + link))
  }

  /**
   * On the year's medal page, the first row whose first anchor reads the country with a
   * non-empty href decides the result; without such a row there is none.
   */
  lemma FlagBearerRootRow(web: Web, parent: Option<Node>, year: string, country: string, page: Node, k: nat)
    requires YearMedalNationsPage(web, parent, year) == Ok(Some(page))
    requires k < |MedalRows(page)| && CountryLink(MedalRows(page)[k], country).Some?
    requires forall j :: 0 <= j < k ==> CountryLink(MedalRows(page)[j], country).None?
    ensures FlagBearerRoot(web, parent, year, country) ==
      Ok(Fetch(web, Base + CountryLink(MedalRows(page)[k], country).value))
  {
    MapSeqAt(row => CountryLink(row, country), MedalRows(page));
    FirstSomeAt(CountryLinks(MedalRows(page), country), k);
  }

  /** A root is found only through a row whose first anchor reads the country. */
  lemma FlagBearerRootFound(web: Web, parent: Option<Node>, year: string, country: string, page: Node)
    requires YearMedalNationsPage(web, parent, year) == Ok(Some(page))
    requires FlagBearerRoot(web, parent, year, country) != Ok(None)
    ensures exists k :: 0 <= k < |MedalRows(page)| && CountryLink(MedalRows(page)[k], country).Some?
  {
    var links := CountryLinks(MedalRows(page), country);
    MapSeqAt(row => CountryLink(row, country), MedalRows(page));
    FirstSomeMeaning(links);
    var i :| 0 <= i < |links| && links[i] == FirstSome(links);
  }

  /** The for loop over the medal-table rows, up to its early return. */
  method FindCountryLink(rows: seq<Node>, country: string) returns (link: Option<string>)
    ensures link == FirstSome(CountryLinks(rows, country))
  {
    ghost var links := CountryLinks(rows, country);
    MapSeqAt(row => CountryLink(row, country), rows);
    var i := 0;
    while i < |rows|
      invariant 0 <= i <= |rows|
      invariant FirstSome(links[i..]) == FirstSome(links)
    {
      var title := SelectFirst(rows[i], Tag("a"));
      if title.Some? && TextOf(title.value) == country && Attr(title.value, "href") != "" {
        assert links[i..][0] == Some(Attr(title.value, "href"));
        return Some(Attr(title.value, "href"));
      }
      FirstSomeSkip(links, i);
      i := i + 1;
    }
    assert links[i..] == [];
    return None;
  }

  /** WebParser.getFlagBearerRoot. */
  method GetFlagBearerRoot(web: Web, parent: Option<Node>, year: string, country: string) returns (r: Result<Option<Node>>)
    ensures r == FlagBearerRoot(web, parent, year, country)
  {
    var medalPage := GetYearMedalNationsPage(web, parent, year);
    if medalPage.Err? {
      return Err(medalPage.error);
    }
    if medalPage.value.None? {
      return Ok(None);
    }
    var page := medalPage.value.value;
    var medalTableHeading := LocateHeading(page, MedalTable);
    var next := FindTableAfter(page, medalTableHeading, TagIs("table"));
    if next.None? {
      return Ok(None);
    }
    var rows := BodyRows(At(page, next.value).value);
    var link := FindCountryLink(rows, country);
    if link.Some? {
      return Ok(Fetch(web, Base + link.value));
    }
    return Ok(None);
  }

  // ---------------------------------------------------------------- didFlagBearerDie

  const NoneKnown: string := "No flagbearers known!"

  /** A non-empty status framed by line breaks; an empty one is skipped. */
  function Segment(status: string): string {
    if status == "" then "" else "\n" + status + "\n"
  }

  /**
   * What visiting a name adds: None when its page failed to load (getStatus then raises
   * NullPointerException), its status otherwise.
   */
  function Reading(roots: map<string, Option<Node>>, name: string): Option<string> {
    if name !in roots then Some("")
    else match roots[name]
      case None => None
      case Some(page) => Some(Status(name, page))
  }

  /** The reading of each name, in the order visited. */
  function Readings(roots: map<string, Option<Node>>, order: seq<string>): seq<Option<string>> {
    MapSeq(name => Reading(roots, name), order)
  }

  /** The report built from the readings in turn; the first missing page aborts it. */
  function Report(rs: seq<Option<string>>): Result<string> {
    if rs == [] then Ok("")
    else
      match Report(rs[..|rs| - 1])
      case Err(e) => Err(e)
      case Ok(s) =>
        match rs[|rs| - 1]
        case None => Err(NullPointer)
        case Some(status) => Ok(s + Segment(status))
  }

  /** `order` visits every key of the map exactly once, as a HashMap's entry set does. */
  predicate Enumerates(order: seq<string>, roots: map<string, Option<Node>>) {
    (forall i :: 0 <= i < |order| ==> order[i] in roots) &&
    (forall n :: n in roots ==> n in order) &&
    (forall i, j :: 0 <= i < j < |order| ==> order[i] != order[j])
  }

  /** What didFlagBearerDie returns or raises when it visits the flag bearers in `order`. */
  function DeathReport(web: Web, parent: Option<Node>, year: string, country: string, order: seq<string>): Result<string> {
    match FlagBearerRoot(web, parent, year, country)
    case Err(e) => Err(e)
    case Ok(flagBearer) =>
      var roots := FlagBearerMap(web, flagBearer);
      if roots == map[] then Ok(NoneKnown) else Report(Readings(roots, order))
  }

  /** The report raises exactly when a reading is missing, and then with NullPointerException. */
  lemma {:induction false} ReportRaises(rs: seq<Option<string>>)
    ensures Report(rs).Err? <==> exists i :: 0 <= i < |rs| && rs[i].None?
    ensures Report(rs).Err? ==> Report(rs).error == NullPointer
  {
    if rs != [] {
      var init := rs[..|rs| - 1];
      ReportRaises(init);
      if exists i :: 0 <= i < |init| && init[i].None? {
        var i :| 0 <= i < |init| && init[i].None?;
        assert rs[i].None?;
      } else if rs[|rs| - 1].Some? {
        assert forall i :: 0 <= i < |rs| ==> rs[i] == if i < |init| then init[i] else rs[|rs| - 1];
      }
    }
  }

  /** A report is empty or starts with a line break. */
  lemma {:induction false} ReportShape(rs: seq<Option<string>>)
    ensures Report(rs).Ok? ==> Report(rs).value == "" || Report(rs).value[0] == '\n'
  {
    if rs != [] {
      ReportShape(rs[..|rs| - 1]);
    }
  }

  /** One more reading: a missing page aborts, a status appends its segment. */
  lemma ReportStep(rs: seq<Option<string>>, i: nat, sb: string)
    requires i < |rs| && Report(rs[..i]) == Ok(sb)
    ensures rs[i].None? ==> Report(rs[..i + 1]) == Err(NullPointer)
    ensures rs[i].Some? && rs[i].value == "" ==> Report(rs[..i + 1]) == Ok(sb)
    ensures rs[i].Some? && rs[i].value != "" ==> Report(rs[..i + 1]) == Ok(sb + "\n" + rs[i].value + "\n")
  {
    assert rs[..i + 1][..i] == rs[..i];
    if rs[i].Some? {
      var status := rs[i].value;
      assert Report(rs[..i + 1]) == Ok(sb + Segment(status));
      if status == "" {
        assert sb + Segment(status) == sb;
      } else {
        assert sb + Segment(status) == sb + "\n" + status + "\n";
      }
    }
  }

  /** Once a prefix of the readings aborts, so does the whole report. */
  lemma {:induction false} ReportAbort(rs: seq<Option<string>>, m: nat)
    requires m <= |rs| && Report(rs[..m]).Err?
    ensures Report(rs) == Report(rs[..m])
  {
    if m < |rs| {
      var init := rs[..|rs| - 1];
      assert init[..m] == rs[..m];
      ReportAbort(init, m);
    } else {
      assert rs[..m] == rs;
    }
  }

  /** The report of a prefix of the readings is a prefix of the whole report. */
  lemma {:induction false} ReportGrows(rs: seq<Option<string>>, m: nat)
    requires m <= |rs| && Report(rs).Ok?
    ensures Report(rs[..m]).Ok? && StartsWith(Report(rs).value, Report(rs[..m]).value)
  {
    if m < |rs| {
      var init := rs[..|rs| - 1];
      assert init[..m] == rs[..m];
      ReportGrows(init, m);
      var p := Report(rs[..m]).value;
      var s := Report(init).value;
      assert Report(rs).value[..|s|] == s;
      assert Report(rs).value[..|p|] == s[..|p|];
    } else {
      assert rs[..m] == rs;
    }
  }

  /** Every non-empty status read stands on a line of its own in the report. */
  lemma ReportMentions(rs: seq<Option<string>>, i: nat, status: string)
    requires Report(rs).Ok? && i < |rs| && rs[i] == Some(status) && status != ""
    ensures Contains(Report(rs).value, "\n" + status + "\n")
  {
    ReportGrows(rs, i + 1);
    var upto := rs[..i + 1];
    assert upto[..i] == rs[..i];
    var p := Report(rs[..i]).value;
    var seg := "\n" + status + "\n";
    assert Report(upto).value == p + seg;
    var s := Report(rs).value;
    assert s[..|p + seg|] == p + seg;
    assert s[|p|..|p| + |seg|] == (p + seg)[|p|..];
    ContainsAt(s, seg, |p|);
  }

  /**
   * Visiting every entry once, in any order: a failure exactly when some page did not
   * load, and otherwise every status that settles the question on a line of its own.
   */
  lemma VisitMeaning(roots: map<string, Option<Node>>, order: seq<string>)
    requires Enumerates(order, roots)
    ensures
      var r := Report(Readings(roots, order));
      (r.Err? <==> exists n :: n in roots && roots[n].None?) &&
      (r.Err? ==> r.error == NullPointer) &&
      (r.Ok? ==> r.value == "" || r.value[0] == '\n') &&
      (forall n, page :: r.Ok? && n in roots && roots[n] == Some(page) && Status(n, page) != "" ==>
         Contains(r.value, "\n" + Status(n, page) + "\n"))
  {
    var rs := Readings(roots, order);
    var r := Report(rs);
    MapSeqAt(name => Reading(roots, name), order);
    ReportRaises(rs);
    ReportShape(rs);
    if exists n :: n in roots && roots[n].None? {
      var n :| n in roots && roots[n].None?;
      var i :| 0 <= i < |order| && order[i] == n;
      assert rs[i].None?;
    }
    forall n, page | r.Ok? && n in roots && roots[n] == Some(page) && Status(n, page) != ""
      ensures Contains(r.value, "\n" + Status(n, page) + "\n")
    {
      var i :| 0 <= i < |order| && order[i] == n;
      ReportMentions(rs, i, Status(n, page));
    }
  }

  /**
   * Once the delegation page is reached: "No flagbearers known!" exactly when no flag
   * bearer is listed, a failure exactly when a listed bearer's page did not load, and
   * otherwise every bearer whose page settles the question has its status on a line of
   * its own, whatever order the entries are visited in.
   */
  lemma DeathReportMeaning(web: Web, parent: Option<Node>, year: string, country: string, order: seq<string>)
    requires FlagBearerRoot(web, parent, year, country).Ok?
    requires Enumerates(order, FlagBearerMap(web, FlagBearerRoot(web, parent, year, country).value))
    ensures
      var roots := FlagBearerMap(web, FlagBearerRoot(web, parent, year, country).value);
      var r := DeathReport(web, parent, year, country, order);
      (r == Ok(NoneKnown) <==> roots == map[]) &&
      (r.Err? <==> exists n :: n in roots && roots[n].None?) &&
      (r.Err? ==> r.error == NullPointer) &&
      (forall n, page :: r.Ok? && n in roots && roots[n] == Some(page) && Status(n, page) != "" ==>
         Contains(r.value, "\n" + Status(n, page) + "\n"))
  {
    var roots := FlagBearerMap(web, FlagBearerRoot(web, parent, year, country).value);
    if roots != map[] {
      VisitMeaning(roots, order);
      assert NoneKnown[0] != '\n';
    }
  }

  /** Lists the map's keys in some order, as iterating its entry set does. */
  method EntryOrder(roots: map<string, Option<Node>>) returns (order: seq<string>)
    ensures Enumerates(order, roots)
  {
    order := [];
    var remaining := roots.Keys;
    while remaining != {}
      invariant remaining <= roots.Keys
      invariant forall i :: 0 <= i < |order| ==> order[i] in roots && order[i] !in remaining
      invariant forall n :: n in roots ==> n in remaining || n in order
      invariant forall i, j :: 0 <= i < j < |order| ==> order[i] != order[j]
      decreases |remaining|
    {
      var name :| name in remaining;
      order := order + [name];
      remaining := remaining - {name};
    }
  }

  /** getStatus for each entry in `order`, None for an entry whose page failed to load. */
  method ReadAll(roots: map<string, Option<Node>>, order: seq<string>) returns (rs: seq<Option<string>>)
    requires forall i :: 0 <= i < |order| ==> order[i] in roots
    ensures rs == Readings(roots, order)
  {
    rs := [];
    var i := 0;
    while i < |order|
      invariant 0 <= i <= |order|
      invariant rs == Readings(roots, order[..i])
    {
      assert order[..i + 1][..i] == order[..i];
      var root := roots[order[i]];
      if root.None? {
        rs := rs + [None];
      } else {
        var result := GetStatus(order[i], root.value);
        rs := rs + [Some(result)];
      }
      i := i + 1;
    }
    assert order[..i] == order;
  }

  /**
   * The for loop over the entries: appends each non-empty status between line breaks,
   * and stops at the first entry whose page failed to load.
   */
  method ReportAll(rs: seq<Option<string>>) returns (r: Result<string>)
    ensures r == Report(rs)
  {
    var sb := "";
    var i := 0;
    while i < |rs|
      invariant 0 <= i <= |rs|
      invariant Report(rs[..i]) == Ok(sb)
    {
      ReportStep(rs, i, sb);
      if rs[i].None? {
        ReportAbort(rs, i + 1);
        return Err(NullPointer);
      }
      var result := rs[i].value;
      if result != "" {
        sb := sb + "\n" + result + "\n";
      }
      i := i + 1;
    }
    assert rs[..i] == rs;
    return Ok(sb);
  }

  /**
   * WebParser.didFlagBearerDie. The entries of a HashMap come in an unspecified order;
   * `order` is the one this run visited.
   */
  method DidFlagBearerDie(web: Web, parent: Option<Node>, year: string, country: string)
    returns (r: Result<string>, ghost order: seq<string>)
    ensures r == DeathReport(web, parent, year, country, order)
    ensures FlagBearerRoot(web, parent, year, country).Ok? ==>
      Enumerates(order, FlagBearerMap(web, FlagBearerRoot(web, parent, year, country).value))
  {
    order := [];
    var flagBearer := GetFlagBearerRoot(web, parent, year, country);
    if flagBearer.Err? {
      return Err(flagBearer.error), order;
    }
    var roots := GetFlagBearerPage(web, flagBearer.value);
    var keys := EntryOrder(roots);
    order := keys;
    if roots == map[] {
      return Ok(NoneKnown), order;
    }
    var statuses := ReadAll(roots, keys);
    r := ReportAll(statuses);
  }
}

# Wiki Olympics scraper: the page-navigation core, modelled in Dafny

The scraper answers questions about the Olympic Games by walking Wikipedia pages. Examples:
how many sports' governing bodies are headquartered in a country, a country's medal total in
a sport, which nations swept a podium, and whether a delegation's flag bearers have died.
Each query in `WebParser` is made from a few recurring heuristics:

- a heading locator tries h2, then h3, then h1;
- a table resolver walks the next siblings of the heading's parent;
- row extractors read rows;
- mixed-content renderers flatten table cells;
- an ordered fallback chain finds the country a city page names;
- multi-hop walkers follow links from page to page.

`Helpers` adds three string utilities: word capitalisation, the year check and the flag-file
country name.

This project models all of these in Dafny:

- A parsed page is a `Dom.Node` tree (`Element(tag, attrs, children) | Text(content)`).
- Positions in a page are paths of child indices, so parents and next element siblings are
  definable.
- `Element.select` is the list of matching positions in document order.
- The network is a map `Web` from locator to `Option<Node>`. A locator that is missing, or
  that maps to `None`, failed to load, which is where `fetchPage` returns null.
- Exceptions the code can actually raise become `Result` errors:
  - `IndexOutOfBounds` for `get(3)`, `get(5)` and `size - medal`;
  - `NumberFormat` for `Integer.parseInt`;
  - `NullPointer` for a null page that is then dereferenced.

Each imperative Java method is a Dafny `method` whose loops carry invariants. It is proved
equal to a specification function, and lemmas state what the source promises about that
function.

Modules, leaves first:

- `Wrappers`: `Option`, `Result`, the exception kinds.
- `JavaText`: `String.split("\\s+")`, `trim`, ASCII case mapping, `Integer.parseInt`, 32-bit
  wrap-around.
- `Folds`: generic list folds and their lemmas.
- `Helpers`: `Helpers.java`.
- `Dom`: the tree, selectors, `fetchPage`.
- `Navigation`: the heading locator, the sibling walk, the cell renderers.
- `CountryResolver`: `fetchCountry`.
- `Pages`: the page-to-page hops.
- `Sports`, `Podium`, `Nations`, `FlagBearers`, `Torch`: the queries.

Where the design-level description of a heuristic and the code differ, the model follows the
code:

- **Italic content in a cell.**
  - The renderer of `getStatus` appends an italic element's whole text. It then appends the
    italic element's direct text children a second time.
  - Its inner anchor branch tests the outer `i` element's tag, so it never fires.
- **Country resolver.**
  - The "country" header strategy falls through to the infobox strategies whenever it yields
    nothing, not only when there is no such header.
  - The "prefecture" anchor is looked for among all anchors of the page. The only gate is
    that the page has an infobox.
  - The sovereign-state fallback reads the td after the anchor's parent.
- **getFlagSources table walk.** The walk stops at any sibling that is a table or has class
  `wikitable`.

## Model

| member | source | states |
|---|---|---|
| Helpers.Capitalize | src/main/java/Helpers.java:24-44 | The builder loop returns the capitalised string. The empty string comes back unchanged. For text without stray control characters, the result is the words, single-space joined, each recased (only the first when `onlyFirst`). |
| Helpers.CapitalizedMeaning | src/main/java/Helpers.java:28-43 | The capitalised string is the single-space join of the recased words, with no leading or trailing whitespace. |
| Helpers.CapitalizedWordsOfResult | src/main/java/Helpers.java:31-43 | Splitting the result gives back exactly the recased words, so the number of non-empty words is preserved. |
| Helpers.CapitalizeIdempotent | src/main/java/Helpers.java:24-44 | Capitalising twice gives the same string as capitalising once. |
| Helpers.ValidYearRange | src/main/java/Helpers.java:54-57 | The year regex accepts a string iff it is four decimal digits whose value lies in 1800..2025. |
| Helpers.ValidYearParses | src/main/java/Helpers.java:54-57 | `Integer.parseInt` never raises on an accepted year, and yields its digit value. |
| Helpers.FindFlagLeftmost | src/main/java/Helpers.java:71-73 | `Matcher.find` returns the leftmost index where the flag pattern matches, and finds none only when there is none. |
| Helpers.ExtractUnknownIff | src/main/java/Helpers.java:70-79 | The result is "Unknown" iff no "Flag_of_" is followed by one or more name-class characters and then a dot. |
| Helpers.ExtractLeftmost | src/main/java/Helpers.java:71-77 | For the leftmost such occurrence, the result is its run of name-class characters, normalised. |
| Helpers.ExtractNormalized | src/main/java/Helpers.java:73-77 | A found name contains no '-' and no upper-case letter, and only name-class characters. |
| Helpers.KnownName | src/main/java/Helpers.java:73-78 | A found name is never "Unknown". |
| JavaText.ParseIntOfDecimal | src/main/java/WebParser.java:928-932 | `Integer.parseInt` of a non-negative int's decimal form gives the int back. |
| JavaText.ParseIntOfNegative | src/main/java/WebParser.java:928-932 | `Integer.parseInt` of "-" and a decimal form gives the negated value. |
| JavaText.ParseInt | src/main/java/WebParser.java:195 | A parse that succeeds gives a 32-bit int. One that fails raises NumberFormatException. |
| JavaText.JavaSplitWords | src/main/java/Helpers.java:28 | The non-empty parts of `split("\\s+")` are exactly the words of the string. |
| JavaText.WordsOfJoin | src/main/java/Helpers.java:28-43 | Splitting a single-space join of words gives the words back. |
| JavaText.AddWrap32 | src/main/java/WebParser.java:195 | Adding with 32-bit wrap-around at every step equals wrapping the exact sum once. |
| Dom.Fetch | src/main/java/WebParser.java:31-39 | A page is returned exactly when the locator is known and loads. |
| Dom.HasClassMeaning | src/main/java/WebParser.java:366-367 | `hasClass` holds exactly when one of the element's class words equals the class, ignoring case. |
| Dom.SelectPathsMatch | src/main/java/WebParser.java:75 | Every selected position holds an element matching the selector. |
| Dom.SelectComplete | src/main/java/WebParser.java:75 | Every matching position is selected. |
| Dom.NextElementSibling | src/main/java/WebParser.java:179-181 | A next element sibling shares the parent and lies further right. It is an element. |
| Dom.FirstElementFrom | src/main/java/WebParser.java:179-181 | It returns the first element among the children from index j on, skipping only non-elements. |
| Navigation.LocateHeading | src/main/java/WebParser.java:159-174 | A heading is found iff some level passes. The one found is the first passing heading of the first level (h2, h3, h1) that has one. |
| Navigation.FindFirst | src/main/java/WebParser.java:1018-1021 | `filter(..).findFirst()` returns a passing position, and none only when nothing passes. |
| Navigation.SiblingAfterFirst | src/main/java/WebParser.java:177-183 | The walk ends at a later sibling under the same parent that stops it. Every sibling in between is passed over. |
| Navigation.SiblingAfterNone | src/main/java/WebParser.java:179-183 | The walk ends with nothing only when no later sibling stops it. |
| Navigation.FindAfter | src/main/java/WebParser.java:179-182 | The `while (next != null && ...)` loop computes the sibling walk. |
| Navigation.FindTableAfter | src/main/java/WebParser.java:177-183 | Starting at the heading's parent, the walk returns a position whose element stops it. |
| Navigation.RenderLinks | src/main/java/WebParser.java:81-94 | The builder loop concatenates the text nodes and anchors of a cell. |
| Navigation.LinkTextIsText | src/main/java/WebParser.java:82-94 | For a cell of text and anchors only, that is the cell's text. |
| Navigation.RenderStatus | src/main/java/WebParser.java:564-598 | The builder loop of getStatus renders a cell: text, anchors, and italics as the italic renderer does. |
| Navigation.RenderItalic | src/main/java/WebParser.java:577-596 | An italic adds its full text, then its direct text children again. |
| Navigation.ItalicOfTextDoubled | src/main/java/WebParser.java:579-588 | An italic holding only text is rendered twice over. |
| Navigation.ItalicOfElementsOnce | src/main/java/WebParser.java:589-595 | An italic holding only elements is rendered once: the inner anchor branch adds nothing. |
| Navigation.HrefsMeaning | src/main/java/WebParser.java:966-990 | A link is collected iff it is non-empty and is the href of a direct anchor, or of an anchor directly in a direct italic. |
| Navigation.CollectHrefs | src/main/java/WebParser.java:966-990 | The HashSet loop collects exactly those links. |
| CountryResolver.FetchCountry | src/main/java/WebParser.java:1016-1094 | The method follows the fallback chain and returns the country the page names, or null. |
| CountryResolver.HeaderFirst | src/main/java/WebParser.java:1018-1045 | The first th in document order whose text is "country", ignoring case, decides first: its answer wins when it yields one, and only otherwise are the infobox strategies tried. |
| CountryResolver.PrefectureMeansJapan | src/main/java/WebParser.java:1046-1059 | Otherwise, on a page with an infobox and any "prefecture" anchor, the answer is "Japan". |
| CountryResolver.FirstSovereignDecides | src/main/java/WebParser.java:1052-1090 | Otherwise the first "sovereign state" anchor decides the answer. |
| CountryResolver.SovereignViaGrandparent | src/main/java/WebParser.java:1061-1070 | The sovereign strategy answers with the last anchor under the anchor's grandparent. |
| CountryResolver.NoAnchorNoCountry | src/main/java/WebParser.java:1046-1093 | With no header answer and neither anchor, there is no country. |
| CountryResolver.NoInfoboxNoCountry | src/main/java/WebParser.java:1016-1093 | With no "country" header and no infobox, there is no country. |
| CountryResolver.HeaderStrategy | src/main/java/WebParser.java:1022-1044 | The walks of the header strategy compute its answer. |
| CountryResolver.SovereignStrategy | src/main/java/WebParser.java:1061-1089 | The walks of the sovereign strategy compute its answer. |
| Pages.FetchTorchRelayPage | src/main/java/WebParser.java:1106-1121 | A relay page is only the fetch of a torch-relay anchor in the sidebar of the (main) page. |
| Pages.FetchCurrentFromParent | src/main/java/WebParser.java:455-469 | A page comes only from the last anchor titled for the capitalised season, with a non-empty href. |
| Pages.FetchParentPage | src/main/java/WebParser.java:847-860 | "summer" gives the main page. "winter" gives the summer nations page reached from it. Anything else gives nothing. |
| Pages.PodiumSweepsPage | src/main/java/WebParser.java:304-322 | It raises IndexOutOfBoundsException exactly when the main page has fewer than six `.hlist` lists. |
| Pages.PodiumSweepsPageLinked | src/main/java/WebParser.java:310-318 | A year page is reached only through a list item whose anchor reads exactly the year. |
| Pages.GetPodiumSweepsPage | src/main/java/WebParser.java:304-322 | The method computes `PodiumSweepsPage`. |
| Pages.FindYearLink | src/main/java/WebParser.java:312-319 | The loop returns the first item's link reading the year. |
| Pages.YearMedalNationsPage | src/main/java/WebParser.java:809-836 | It raises IndexOutOfBoundsException exactly when the main page has fewer than four wikitables. |
| Pages.YearMedalNationsPageLinked | src/main/java/WebParser.java:815-830 | A medal page is reached only through an item whose trimmed anchor text is the year. |
| Pages.GetYearMedalNationsPage | src/main/java/WebParser.java:809-836 | The method computes `YearMedalNationsPage`. |
| Pages.FindTrimmedYearLink | src/main/java/WebParser.java:822-830 | The loop returns the first item's link whose trimmed text is the year. |
| Sports.FetchSportsPage | src/main/java/WebParser.java:221-245 | The method returns the pages of the listed sports. |
| Sports.FetchLinks | src/main/java/WebParser.java:228-241 | The row loop fetches every link. It returns early with only the page of a link named exactly the sport. |
| Sports.SportsPagesShape | src/main/java/WebParser.java:221-245 | There is at most one page per row, and exactly one when the sport is listed. |
| Sports.UnlistedSportGivesFirstSport | src/main/java/WebParser.java:228-244 | For an unlisted sport, the first page is the first listed sport's page, which `getTotalMedals` then reads. |
| Sports.HeadQuarterPage | src/main/java/WebParser.java:119-138 | The method follows the first infobox row titled "Governing body" that has an anchor. |
| Sports.FindGoverningHref | src/main/java/WebParser.java:125-134 | The loop returns that row's href. |
| Sports.IsHeadQuarteredIn | src/main/java/WebParser.java:70-108 | The result is 0 or 1. It is 1 iff the page loaded and some Headquarters row names the country. |
| Sports.HeadquarteredInMeaning | src/main/java/WebParser.java:70-108 | That holds iff some infobox row's first th is "Headquarters" and a token of its rendered, comma-free td equals the trimmed country, ignoring case. |
| Sports.AnyRowNames | src/main/java/WebParser.java:76-104 | The row loop returns on the first row naming the country. |
| Sports.RowNames | src/main/java/WebParser.java:77-103 | One row's test: title, data cell, rendering, tokens. |
| Sports.AnyPartNames | src/main/java/WebParser.java:97-101 | The token loop finds a token equal to the trimmed country, ignoring case. |
| Sports.HqCountMeaning | src/main/java/WebParser.java:49-60 | The count is at most the number of pages. It is 0 iff no page names the country, and all pages iff every page does. |
| Sports.FetchNumHeadquartered | src/main/java/WebParser.java:49-60 | The result counts the governing bodies headquartered in the country. It never exceeds the number of sports pages. A null parent raises NullPointerException. |
| Sports.GoverningPagesOf | src/main/java/WebParser.java:52-55 | The first loop maps each sports page to its governing body's page. |
| Sports.CountHeadquartered | src/main/java/WebParser.java:56-58 | The second loop adds up the 0/1 tests. |
| Sports.GetTotalMedals | src/main/java/WebParser.java:150-207 | The method computes the medal total. A failed first sports page raises NullPointerException. |
| Sports.TotalMedalsOfPage | src/main/java/WebParser.java:184-199 | It raises exactly when a row naming the country has a last cell that does not parse, and then NumberFormatException. Otherwise the total is the 32-bit wrap of the exact sum. |
| Sports.RowMedalMeaning | src/main/java/WebParser.java:188-197 | A row adds something only when its first anchor reads the country exactly, and then adds its last td parsed. |
| Sports.NoHeadingNoMedals | src/main/java/WebParser.java:159-176 | Without a "Medal table" heading at any level, the total is 0. |
| Sports.SumMedals | src/main/java/WebParser.java:188-199 | `result +=` in 32-bit arithmetic leaves at the first parse failure. |
| Podium.GetPodiumSweepsByYear | src/main/java/WebParser.java:257-289 | The method computes the sweepers, or the exception raised. |
| Podium.PodiumSweepersRaises | src/main/java/WebParser.java:271-282 | It raises exactly when a row after the header has fewer than four td, and then IndexOutOfBoundsException. |
| Podium.PodiumSweepersMembers | src/main/java/WebParser.java:272-282 | A nation is reported iff a row after the header has the nation as its fourth cell's first anchor text. |
| Podium.GetFlagSources | src/main/java/WebParser.java:337-391 | The method computes the flag sources in row and item order. |
| Podium.FlagSourcesAreImages | src/main/java/WebParser.java:374-384 | A string is a source iff it is "https:" plus the src of the first img of some list item in a body row. Every source starts with "https:". |
| Podium.FlagSourcesInOrder | src/main/java/WebParser.java:374-384 | The list keeps row order, then item order: an item's source comes after those of earlier rows and earlier items, and before all later ones. |
| Nations.GetObsoleteOlympicNations | src/main/java/WebParser.java:409-439 | The method computes the obsolete nations of the season page. |
| Nations.SeasonPage | src/main/java/WebParser.java:411-418 | A given page is used as is. Otherwise the page is reached from the given parent. |
| Nations.ObsoleteMembers | src/main/java/WebParser.java:424-434 | A nation is reported iff some body row's grey first cell has an anchor reading it. |
| Nations.ObsoleteRowIsGrey | src/main/java/WebParser.java:426 | That cell is its row's first element child and carries the grey bgcolor. |
| Nations.GetMedalNations | src/main/java/WebParser.java:487-513 | The method computes the nations, or the exception raised. |
| Nations.MedalCellsMeaning | src/main/java/WebParser.java:498-506 | A row reports its first anchor's text iff `medal` is positive, the row has at least `medal` td, and the td `medal` places from the end parses to a count at least the threshold. |
| Nations.MedalNationsMembers | src/main/java/WebParser.java:497-507 | When no row raises, a nation is in the set iff some body row reports it. |
| Nations.NonPositiveMedalRaises | src/main/java/WebParser.java:497-501 | With `medal <= 0`, any body row raises IndexOutOfBoundsException. |
| Nations.PositiveMedalOnlyParseFails | src/main/java/WebParser.java:497-501 | With `medal >= 1`, the only exception is NumberFormatException. |
| Nations.ScrapeCountriesStartingWith | src/main/java/WebParser.java:876-900 | The method computes the matching countries. |
| Nations.CountriesAreLowerPrefixed | src/main/java/WebParser.java:879-894 | Each reported country is lower case and starts with the lower-cased prefix. |
| Nations.CountriesMembers | src/main/java/WebParser.java:885-894 | A country is reported iff some row after the header has a first-child td whose lower-cased text is the country and starts with the lower-cased prefix. |
| Nations.CountryReported | src/main/java/WebParser.java:887-894 | A row after the header whose lower-cased first-child td starts with the prefix has that text reported. |
| Nations.CountriesIgnorePrefixCase | src/main/java/WebParser.java:879 | Prefixes that differ only in case select the same countries. |
| Nations.CountriesSkipHeader | src/main/java/WebParser.java:887 | The first row is never read: tables that differ only in their first row give the same countries. |
| Nations.GetAllMedals | src/main/java/WebParser.java:749-795 | The method computes the lines of the lookup file, header first, with the corrected row guard. |
| Nations.WriteLines | src/main/java/WebParser.java:767-785 | The row loop writes one line per row that passes the guard. |
| Nations.CsvLinesFromRows | src/main/java/WebParser.java:767-785 | There is at most one line per row, and each line is its row's line. |
| Nations.FormatRowAsWritten | src/main/java/WebParser.java:769-781 | The `for (i = 4; i > 1; i--)` loop behind the written `size >= 3` guard. |
| Nations.ThreeCellRowRaises | src/main/java/WebParser.java:769-779 | As written, a three-cell row raises IndexOutOfBoundsException. |
| Nations.FormatRow | src/main/java/WebParser.java:769-781 | The same loop behind a `size >= 4` guard. |
| Nations.CsvCellsAgree | src/main/java/WebParser.java:769-781 | The written and corrected lines agree except on three-cell rows, where only the written one raises. |
| Nations.CsvCellsFields | src/main/java/WebParser.java:770-781 | A corrected line is written iff the row has four or more cells. Its fields are the name and the three cells before the last. |
| FlagBearers.GetStatus | src/main/java/WebParser.java:553-607 | The method computes the status from the first infobox that settles it. |
| FlagBearers.InfoboxStatus | src/main/java/WebParser.java:557-603 | One infobox gives alive, dead with its rendered cell, or open. |
| FlagBearers.DeathCell | src/main/java/WebParser.java:557-563 | The death cell is a td found only after a "Died" header. |
| FlagBearers.StatusEmptyIff | src/main/java/WebParser.java:553-607 | The status is "" iff every infobox has a "Died" header with no td after it, including when there is no infobox. |
| FlagBearers.StatusDecided | src/main/java/WebParser.java:556-603 | The first deciding infobox gives "<name> is still alive." or "<name> passed away: <cell>". |
| FlagBearers.GetFlagBearerPage | src/main/java/WebParser.java:621-675 | The method computes the map from bearer name to fetched page. |
| FlagBearers.RegisterAll | src/main/java/WebParser.java:637-644 | The `put` loop builds that map. |
| FlagBearers.RegisterKeys | src/main/java/WebParser.java:637-644 | The keys are exactly the names put. |
| FlagBearers.RegisterLastWins | src/main/java/WebParser.java:641 | A name maps to the page of the last bearer put under it. |
| FlagBearers.ListedIff | src/main/java/WebParser.java:628-668 | A bearer is listed iff a linked anchor of a flag-bearer row names it. |
| FlagBearers.BearerNames | src/main/java/WebParser.java:621-675 | A name is a key iff such an anchor with a non-empty href reads it. |
| FlagBearers.GetFlagBearerRoot | src/main/java/WebParser.java:687-737 | The method computes the delegation page, or the exception raised. |
| FlagBearers.FlagBearerRoot | src/main/java/WebParser.java:687-737 | It raises exactly when the main page has fewer than four wikitables. |
| FlagBearers.FlagBearerRootRow | src/main/java/WebParser.java:719-728 | The first medal row whose anchor reads the country with a non-empty href decides the page. |
| FlagBearers.FlagBearerRootFound | src/main/java/WebParser.java:719-736 | A page is only found through such a row. |
| FlagBearers.FindCountryLink | src/main/java/WebParser.java:719-730 | The row loop returns that row's link. |
| FlagBearers.DidFlagBearerDie | src/main/java/WebParser.java:525-539 | The method computes the report for the order it visits the entries in. That order lists each key once. |
| FlagBearers.DeathReportMeaning | src/main/java/WebParser.java:525-539 | "No flagbearers known!" iff no bearer is listed. A NullPointerException iff a bearer's page failed to load. Otherwise every deciding status stands on its own line, in any visiting order. |
| FlagBearers.VisitMeaning | src/main/java/WebParser.java:531-538 | The same, for any enumeration of the entries. |
| FlagBearers.ReportAll | src/main/java/WebParser.java:531-538 | The builder loop appends "\n" + status + "\n" for each non-empty status. |
| FlagBearers.ReportRaises | src/main/java/WebParser.java:532-533 | It raises exactly when a page is missing, and then NullPointerException. |
| FlagBearers.ReportMentions | src/main/java/WebParser.java:534-535 | Each non-empty status stands on a line of its own. |
| FlagBearers.ReportGrows | src/main/java/WebParser.java:532-537 | The report of a prefix of the entries is a prefix of the report. |
| FlagBearers.ReportShape | src/main/java/WebParser.java:531-538 | A report is empty or starts with a line break. |
| FlagBearers.EntryOrder | src/main/java/WebParser.java:532 | Iterating the entry set lists every key exactly once. |
| Torch.FetchNumTorchPassed | src/main/java/WebParser.java:917-1014 | The method computes the relay count. |
| Torch.TorchPassedMeaning | src/main/java/WebParser.java:926-1013 | The result is -1 iff the year does not parse. Otherwise it is at least 2, at least every qualifying row's count, and either 2 or one of them. |
| Torch.YearFound | src/main/java/WebParser.java:951-962 | The loop up to its break finds a valid year at or after the given one. |
| Torch.RowReading | src/main/java/WebParser.java:941-1002 | One row's count, if the row qualifies. |
| Torch.ReadRows | src/main/java/WebParser.java:940-1009 | The row loop reads every row. |
| Torch.MaxSeen | src/main/java/WebParser.java:999-1001 | The `maxSeen` update is the maximum of 2 and the counts. |
| Torch.SeenCountries | src/main/java/WebParser.java:991-998 | The HashSet loop, in any order, collects the distinct non-empty country names. |
| Torch.LinkReading | src/main/java/WebParser.java:993-997 | One link gives its country, or nothing. |
| Torch.CountriesBound | src/main/java/WebParser.java:991-998 | A row counts at most as many countries as it has distinct links. |
| Torch.RowSeenBound | src/main/java/WebParser.java:964-1001 | A row's count is at most the number of distinct links in its last cell. |

## Left out

- `fetchPage` (WebParser.java:31-39): the Jsoup connection and the error messages it prints. It is a lookup in the `Web` map.
- The default fetches of `Querybase.GLOBAL_URL`: they are `Fetch(web, GlobalUrl)`, with the constant copied from `Querybase.java`.
- The debug `System.out.println` calls (WebParser.java:316, 958, 786-787) and the `System.err` message (789).
- `getAllMedals` file handling (WebParser.java:761-790): the directory, the file `medallookup.csv`, the writer and its IOException. The model returns the lines the file would hold.
- jsoup's CSS engine. Only the selectors the code passes are modelled: tag, tag.class, tag.class.class, .class, tag#id, `[attr=value]`, `:first-child` and `th:matchesOwn(^Died$)`. The last is read as own text exactly "Died".
- jsoup's `text()` whitespace normalisation: `Dom.TextOf` is the raw concatenation of the descendant text.
- Case mapping, `equalsIgnoreCase` and `toLowerCase`, which are restricted to ASCII letters. Locale and Unicode case rules are not modelled.
- Null strings: `country`, `year`, `season` and `prefix` are never null here. The `season == null` test of `fetchCurrentFromParent` is therefore unmodelled.
- HashSet results are Dafny sets. The HashMap entry order of `didFlagBearerDie` is the `order` out-parameter, constrained only to list each key once.
- `Querybase.java`: the interactive menu and its retries. `SrcGetter.java`: image download, resizing and the collage.
- Helpers.CapitalizeIdempotent: stated only for strings in which every character `trim()` strips is regex whitespace. A control character such as U+0001 is kept by `split` but stripped by `trim`.
- Helpers.CapitalizedMeaning: the same restriction as Helpers.CapitalizeIdempotent.
- Helpers.CapitalizedWordsOfResult: the same restriction as Helpers.CapitalizeIdempotent.
- Sports.TotalMedalsOfPage: the Ok value is stated as the wrap of `SumResults`, the exact sum of what the rows add. It is not restated as a sum over the matching rows only; Sports.RowMedalMeaning gives that per row.
- Torch.TorchPassedMeaning: it does not restate the qualifying test; that is `Torch.RowSeen`.

## Findings

| source | as written | input that shows it | evidently intended | confidence | as-written member | corrected member |
|---|---|---|---|---|---|---|
| src/main/java/WebParser.java:769-779 | Rows with `columns.size() >= 3` are written. The loop then reads `columns.get(columns.size() - i)` for i = 4, 3, 2. | A body row with exactly three td cells: `get(-1)` raises IndexOutOfBoundsException, which the `catch (IOException)` does not handle. | Only rows with at least four cells are written (name, gold, silver, bronze before the total). | not executed | Nations.ThreeCellRowRaises | Nations.CsvCellsFields |

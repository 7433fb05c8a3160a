/** The station detail page `{data_type}.exe?ID=..&KIND=..&PAGE=0` and the three
    readings the downloaders take from it: the header text, the availability
    table and the station triple, plus the list of years that have data.

    The HTML is abstracted: a page is its status code, every `tr` as its `td`
    cells, the rows of the first `border=1` table and the text of the first
    `<font size="+2">`. Cell texts stand for `get_text(strip=True)`. */
module DetailPage {
  import opened Wrappers
  import opened Text

  const BaseUrl: string := "http://www1.river.go.jp/cgi-bin/"

  /** The URL the header, table and station readers all request. */
  function DetailUrl(dataType: string, id: string, kind: nat): string
  {
    BaseUrl + dataType + ".exe?ID=" + id + "&KIND=" + NatToString(kind) + "&PAGE=0"
  }

  /** An `<img>` tag; `src` is None when the attribute is absent. */
  datatype Img = Img(src: Option<string>)

  datatype Cell = Cell(bgcolor: Option<string>, text: string, img: Option<Img>)

  type Row = seq<Cell>

  datatype Page = Page(status: int, rows: seq<Row>, borderTable: Option<seq<Row>>, largeFont: Option<string>)

  /** Why a reading produced no list: the page could not be fetched (the
      sentinel string), an `<img>` without `src` (KeyError), or an entry that
      does not split into year and status (ValueError). */
  datatype Failure = PageError | MissingImgSrc | BadEntry

  const PageErrorText: string := "Error accessing the page"
  const HeaderMissingText: string := "Header not found"
  const NoTableText: string := "No table found"
  const HeaderColor: string := "#FFFFCC"

  // ---------------------------------------------------------------------
  // Header
  // ---------------------------------------------------------------------

  /** `fetch_header_value`: the large-font text, or one of two sentinels. */
  function FetchHeaderValue(page: Page): (header: string)
    ensures page.status != 200 ==> header == PageErrorText
    ensures page.status == 200 && page.largeFont.None? ==> header == HeaderMissingText
    ensures page.status == 200 && page.largeFont.Some? ==> header == page.largeFont.value
  {
    if page.status != 200 then PageErrorText
    else match page.largeFont
      case None => HeaderMissingText
      case Some(t) => t
  }

  // ---------------------------------------------------------------------
  // Availability table: specification
  // ---------------------------------------------------------------------

  /** One availability entry before it is printed as `"{prefix}{offset} - {status}"`. */
  datatype Record = Record(prefix: string, offset: nat, ari: bool)

  function StatusText(ari: bool): string
  {
    if ari then "ari" else "nashi"
  }

  function Year(r: Record): string
  {
    r.prefix + NatToString(r.offset)
  }

  function Render(r: Record): string
  {
    Year(r) + " - " + StatusText(r.ari)
  }

  function RenderAll(rs: seq<Record>): (es: seq<string>)
    ensures |es| == |rs|
    ensures forall k | 0 <= k < |rs| :: es[k] == Render(rs[k])
  {
    seq(|rs|, k requires 0 <= k < |rs| => Render(rs[k]))
  }

  predicate IsHeader(c: Cell)
  {
    c.bgcolor == Some(HeaderColor)
  }

  /** The first decade-header cell at or after `i`. */
  function FirstHeaderFrom(row: Row, i: nat): (h: Option<nat>)
    requires i <= |row|
    ensures h.Some? ==> i <= h.value < |row| && IsHeader(row[h.value])
    ensures h.Some? ==> forall k | i <= k < h.value :: !IsHeader(row[k])
    ensures h.None? ==> forall k | i <= k < |row| :: !IsHeader(row[k])
    decreases |row| - i
  {
    if i == |row| then None
    else if IsHeader(row[i]) then Some(i)
    else FirstHeaderFrom(row, i + 1)
  }

  /** `cells[h+1:h+11]`, clamped at the end of the row. */
  function DataCells(row: Row, h: nat): seq<Cell>
    requires h < |row|
  {
    row[h + 1 .. if h + 11 <= |row| then h + 11 else |row|]
  }

  /** The records one header produces from its data cells: one per cell with an image. */
  function CellRecords(prefix: string, cells: seq<Cell>): Result<seq<Record>, Failure>
    decreases |cells|
  {
    if cells == [] then Ok([])
    else
      var j := |cells| - 1;
      match CellRecords(prefix, cells[..j])
      case Err(e) => Err(e)
      case Ok(rs) =>
        match cells[j].img
        case None => Ok(rs)
        case Some(img) =>
          match img.src
          case None => Err(MissingImgSrc)
          case Some(src) => Ok(rs + [Record(prefix, j, Contains(src, "ari.gif"))])
  }

  /** Only the first header cell of a row is read; its text loses every `'*'`. */
  function RowRecords(row: Row): Result<seq<Record>, Failure>
  {
    match FirstHeaderFrom(row, 0)
    case None => Ok([])
    case Some(h) => CellRecords(RemoveChar(row[h].text, '*'), DataCells(row, h))
  }

  function TableRecords(rows: seq<Row>): Result<seq<Record>, Failure>
    decreases |rows|
  {
    if rows == [] then Ok([])
    else
      match TableRecords(rows[..|rows| - 1])
      case Err(e) => Err(e)
      case Ok(rs) =>
        match RowRecords(rows[|rows| - 1])
        case Err(e) => Err(e)
        case Ok(more) => Ok(rs + more)
  }

  /** What `fetch_table_data` yields for a page. */
  function TableData(page: Page): Result<seq<string>, Failure>
  {
    if page.status != 200 then Err(PageError)
    else match TableRecords(page.rows)
      case Err(e) => Err(e)
      case Ok(rs) => Ok(RenderAll(rs))
  }

  lemma RenderAllAppend(a: seq<Record>, b: seq<Record>)
    ensures RenderAll(a + b) == RenderAll(a) + RenderAll(b)
  {
    assert forall k | 0 <= k < |a + b| :: RenderAll(a + b)[k] == (RenderAll(a) + RenderAll(b))[k];
  }

  lemma {:induction false} CellRecordsErrPersists(prefix: string, cells: seq<Cell>, j: nat)
    requires j <= |cells| && CellRecords(prefix, cells[..j]).Err?
    ensures CellRecords(prefix, cells) == CellRecords(prefix, cells[..j])
    decreases |cells| - j
  {
    if j == |cells| {
      assert cells[..j] == cells;
    } else {
      assert cells[..j + 1][..j] == cells[..j];
      CellRecordsErrPersists(prefix, cells, j + 1);
    }
  }

  lemma {:induction false} TableRecordsErrPersists(rows: seq<Row>, n: nat)
    requires n <= |rows| && TableRecords(rows[..n]).Err?
    ensures TableRecords(rows) == TableRecords(rows[..n])
    decreases |rows| - n
  {
    if n == |rows| {
      assert rows[..n] == rows;
    } else {
      assert rows[..n + 1][..n] == rows[..n];
      TableRecordsErrPersists(rows, n + 1);
    }
  }

  // ---------------------------------------------------------------------
  // Availability table: the reader
  // ---------------------------------------------------------------------

  /** The ten-cell scan after a header, appending one entry per cell with an image. */
  method ReadDecade(currentYear: string, dataCells: seq<Cell>) returns (r: Result<seq<string>, Failure>)
    ensures CellRecords(currentYear, dataCells).Err? ==> r == Err(CellRecords(currentYear, dataCells).error)
    ensures CellRecords(currentYear, dataCells).Ok? ==> r == Ok(RenderAll(CellRecords(currentYear, dataCells).value))
  {
    var entries: seq<string> := [];
    ghost var rowRecs: seq<Record> := [];
    for j := 0 to |dataCells|
      invariant CellRecords(currentYear, dataCells[..j]) == Ok(rowRecs)
      invariant entries == RenderAll(rowRecs)
    {
      assert dataCells[..j + 1][..j] == dataCells[..j];
      var img := dataCells[j].img;
      if img.Some? {
        if img.value.src.None? {
          CellRecordsErrPersists(currentYear, dataCells, j + 1);
          return Err(MissingImgSrc);
        }
        var ari := Contains(img.value.src.value, "ari.gif");
        var status := if ari then "ari" else "nashi";
        entries := entries + [currentYear + NatToString(j) + " - " + status];
        rowRecs := rowRecs + [Record(currentYear, j, ari)];
      }
    }
    assert dataCells[..|dataCells|] == dataCells;
    return Ok(entries);
  }

  /** One row: the first `#FFFFCC` cell is the decade header, the scan stops after it. */
  method ReadRow(cells: Row) returns (r: Result<seq<string>, Failure>)
    ensures RowRecords(cells).Err? ==> r == Err(RowRecords(cells).error)
    ensures RowRecords(cells).Ok? ==> r == Ok(RenderAll(RowRecords(cells).value))
  {
    for i := 0 to |cells|
      invariant forall k | 0 <= k < i :: !IsHeader(cells[k])
    {
      if cells[i].bgcolor == Some(HeaderColor) {
        assert FirstHeaderFrom(cells, 0) == Some(i);
        var currentYear := RemoveChar(cells[i].text, '*');
        var dataCells := cells[i + 1 .. if i + 11 <= |cells| then i + 11 else |cells|];
        r := ReadDecade(currentYear, dataCells);
        return;
      }
    }
    assert RowRecords(cells) == Ok([]);
    return Ok([]);
  }

  /** `fetch_table_data`: scans every row, reads the first `#FFFFCC` cell of
      each as a decade header and turns the (up to) ten cells after it into
      entries. */
  method FetchTableData(page: Page) returns (r: Result<seq<string>, Failure>)
    ensures r == TableData(page)
  {
    if page.status != 200 {
      return Err(PageError);
    }
    var dataList: seq<string> := [];
    ghost var recs: seq<Record> := [];
    for n := 0 to |page.rows|
      invariant TableRecords(page.rows[..n]) == Ok(recs)
      invariant dataList == RenderAll(recs)
    {
      assert page.rows[..n + 1][..n] == page.rows[..n];
      var rowEntries := ReadRow(page.rows[n]);
      if rowEntries.Err? {
        TableRecordsErrPersists(page.rows, n + 1);
        return Err(rowEntries.error);
      }
      assert TableRecords(page.rows[..n + 1]) == Ok(recs + RowRecords(page.rows[n]).value);
      RenderAllAppend(recs, RowRecords(page.rows[n]).value);
      dataList := dataList + rowEntries.value;
      recs := recs + RowRecords(page.rows[n]).value;
    }
    assert page.rows[..|page.rows|] == page.rows;
    return Ok(dataList);
  }

  // ---------------------------------------------------------------------
  // Availability table: properties
  // ---------------------------------------------------------------------

  lemma {:induction false} CellRecordsBound(prefix: string, cells: seq<Cell>)
    ensures CellRecords(prefix, cells).Ok? ==> |CellRecords(prefix, cells).value| <= |cells|
    ensures CellRecords(prefix, cells).Ok? ==>
      forall r | r in CellRecords(prefix, cells).value :: r.prefix == prefix && r.offset < |cells|
    decreases |cells|
  {
    if cells != [] {
      CellRecordsBound(prefix, cells[..|cells| - 1]);
    }
  }

  /** One header yields at most ten entries, each at offset 0..9 after it. */
  lemma RowRecordsAtMostTen(row: Row)
    ensures RowRecords(row).Ok? ==> |RowRecords(row).value| <= 10
    ensures RowRecords(row).Ok? ==> forall r | r in RowRecords(row).value :: r.offset <= 9
  {
    match FirstHeaderFrom(row, 0)
    case None =>
    case Some(h) =>
      CellRecordsBound(RemoveChar(row[h].text, '*'), DataCells(row, h));
  }

  /** Every decade prefix is a header text with its asterisks removed. */
  lemma {:induction false} TableRecordsShape(rows: seq<Row>)
    ensures TableRecords(rows).Ok? ==>
      forall r | r in TableRecords(rows).value ::
        r.offset <= 9 && '*' !in r.prefix
    decreases |rows|
  {
    if rows != [] {
      TableRecordsShape(rows[..|rows| - 1]);
      var row := rows[|rows| - 1];
      RowRecordsAtMostTen(row);
      match FirstHeaderFrom(row, 0)
      case None =>
      case Some(h) =>
        CellRecordsBound(RemoveChar(row[h].text, '*'), DataCells(row, h));
    }
  }

  /** Each table entry reads `"{prefix}{j} - ari"` or `"{prefix}{j} - nashi"`
      with a single digit `j`. */
  lemma EntryForm(page: Page)
    requires TableData(page).Ok?
    ensures forall e | e in TableData(page).value ::
      exists r: Record | r in TableRecords(page.rows).value ::
        r.offset <= 9 && e == r.prefix + [DigitChar(r.offset)] + " - " + StatusText(r.ari)
  {
    var rs := TableRecords(page.rows).value;
    TableRecordsShape(page.rows);
    forall e | e in TableData(page).value
      ensures exists r: Record | r in rs ::
        r.offset <= 9 && e == r.prefix + [DigitChar(r.offset)] + " - " + StatusText(r.ari)
    {
      var k :| 0 <= k < |rs| && e == Render(rs[k]);
      assert rs[k] in rs;
    }
  }

  // ---------------------------------------------------------------------
  // Years with data
  // ---------------------------------------------------------------------

  /** `filter_years` over a list of entries: each must split on `" - "` into
      exactly two parts; the year part of the `"ari"` ones is kept in order. */
  function FilterEntries(es: seq<string>): Result<seq<string>, Failure>
    decreases |es|
  {
    if es == [] then Ok([])
    else
      match FilterEntries(es[..|es| - 1])
      case Err(e) => Err(e)
      case Ok(ys) =>
        var parts := Split(es[|es| - 1], " - ");
        if |parts| != 2 then Err(BadEntry)
        else if parts[1] == "ari" then Ok(ys + [parts[0]])
        else Ok(ys)
  }

  function FilterYearsOf(page: Page): Result<seq<string>, Failure>
  {
    match TableData(page)
    case Err(e) => Err(e)
    case Ok(es) => FilterEntries(es)
  }

  lemma {:induction false} FilterEntriesErrPersists(es: seq<string>, n: nat)
    requires n <= |es| && FilterEntries(es[..n]).Err?
    ensures FilterEntries(es) == FilterEntries(es[..n])
    decreases |es| - n
  {
    if n == |es| {
      assert es[..n] == es;
    } else {
      assert es[..n + 1][..n] == es[..n];
      FilterEntriesErrPersists(es, n + 1);
    }
  }

  lemma FilterEntriesSnoc(es: seq<string>, e: string, ys: seq<string>, year: string, status: string)
    requires FilterEntries(es) == Ok(ys)
    requires Split(e, " - ") == [year, status]
    ensures FilterEntries(es + [e]) == Ok(if status == "ari" then ys + [year] else ys)
  {
    assert (es + [e])[..|es|] == es;
  }

  /** `filter_years`: reads the table and keeps the years marked `ari`. */
  method FilterYears(page: Page) returns (r: Result<seq<string>, Failure>)
    ensures r == FilterYearsOf(page)
  {
    var dataList := FetchTableData(page);
    if dataList.Err? {
      return Err(dataList.error);
    }
    var es := dataList.value;
    var filteredYears: seq<string> := [];
    for n := 0 to |es|
      invariant FilterEntries(es[..n]) == Ok(filteredYears)
    {
      assert es[..n + 1][..n] == es[..n];
      var parts := Split(es[n], " - ");
      if |parts| != 2 {
        FilterEntriesErrPersists(es, n + 1);
        return Err(BadEntry);
      }
      if parts[1] == "ari" {
        filteredYears := filteredYears + [parts[0]];
      }
    }
    assert es[..|es|] == es;
    return Ok(filteredYears);
  }

  /** The years of the `ari` records, in table order. */
  function AriYears(rs: seq<Record>): seq<string>
    decreases |rs|
  {
    if rs == [] then []
    else
      var last := rs[|rs| - 1];
      AriYears(rs[..|rs| - 1]) + (if last.ari then [Year(last)] else [])
  }

  /** The kept years are exactly the years of `ari` records. */
  lemma {:induction false} AriYearsMembers(rs: seq<Record>, y: string)
    ensures y in AriYears(rs) <==> exists r | r in rs :: r.ari && Year(r) == y
    decreases |rs|
  {
    if rs != [] {
      var init := rs[..|rs| - 1];
      var last := rs[|rs| - 1];
      assert rs == init + [last];
      AriYearsMembers(init, y);
      if y in AriYears(rs) && !(y in AriYears(init)) {
        assert last.ari && Year(last) == y;
      }
    }
  }

  /** A printed entry splits back into its year and its status. */
  lemma SplitRender(r: Record)
    requires '-' !in r.prefix
    ensures Split(Render(r), " - ") == [Year(r), StatusText(r.ari)]
  {
    var x := Year(r);
    var sep := " - ";
    var y := StatusText(r.ari);
    DigitsLack(NatToString(r.offset), '-');
    assert '-' !in x;
    var s := x + sep + y;
    forall k: nat | k < |x| ensures !OccursAt(s, sep, k) {
      if k + 1 < |x| {
        assert s[k + 1] == x[k + 1];
      } else {
        assert s[k + 1] == ' ';
      }
    }
    if Contains(y, sep) {
      ContainsFirst(y, sep);
    }
    SplitPair(x, sep, y);
  }

  /** One more printed record extends the kept years by its year exactly when it is `ari`. */
  lemma FilterEntriesStep(init: seq<Record>, last: Record)
    requires FilterEntries(RenderAll(init)) == Ok(AriYears(init))
    requires '-' !in last.prefix
    ensures FilterEntries(RenderAll(init + [last])) == Ok(AriYears(init + [last]))
  {
    var rs := init + [last];
    assert rs[..|rs| - 1] == init;
    SplitRender(last);
    assert RenderAll(rs) == RenderAll(init) + [Render(last)];
    var ys := AriYears(init);
    if last.ari {
      assert AriYears(rs) == ys + [Year(last)];
      FilterEntriesSnoc(RenderAll(init), Render(last), ys, Year(last), "ari");
    } else {
      assert AriYears(rs) == ys + [];
      assert "nashi" != "ari" by { assert "nashi"[0] != "ari"[0]; }
      FilterEntriesSnoc(RenderAll(init), Render(last), ys, Year(last), "nashi");
      assert ys + [] == ys;
    }
  }

  /** When no decade prefix holds a `'-'`, the years kept are exactly the
      years of the `ari` entries, in order. */
  lemma {:induction false} FilterEntriesOfRecords(rs: seq<Record>)
    requires forall r | r in rs :: '-' !in r.prefix
    ensures FilterEntries(RenderAll(rs)) == Ok(AriYears(rs))
    decreases |rs|
  {
    if rs == [] {
      assert RenderAll(rs) == [];
    } else {
      var init := rs[..|rs| - 1];
      var last := rs[|rs| - 1];
      assert rs == init + [last];
      assert forall r | r in init :: r in rs;
      FilterEntriesOfRecords(init);
      FilterEntriesStep(init, last);
    }
  }

  /** `filter_years` on a readable page: the `ari` years of the table. */
  lemma FilterYearsSpec(page: Page)
    requires TableData(page).Ok?
    requires forall r | r in TableRecords(page.rows).value :: '-' !in r.prefix
    ensures FilterYearsOf(page) == Ok(AriYears(TableRecords(page.rows).value))
  {
    FilterEntriesOfRecords(TableRecords(page.rows).value);
  }

  // ---------------------------------------------------------------------
  // Station triple
  // ---------------------------------------------------------------------

  /** The dictionary `{観測所名, 水系名, 河川名}`. */
  datatype Station = Station(name: string, system: string, river: string)

  /** Row `k` is the first row after the table's first one with exactly four cells. */
  predicate IsFirstStationRow(t: seq<Row>, k: nat)
  {
    1 <= k < |t| && |t[k]| == 4 && forall k' | 1 <= k' < k :: |t[k']| != 4
  }

  /** What `fetch_station_data` returns for a page: Err carries a returned
      sentinel string, Ok(None) is the empty dictionary, and a station is read
      from the first row after the table's first one that has four cells. */
  ghost predicate StationReading(page: Page, r: Result<Option<Station>, string>)
  {
    (page.status != 200 ==> r == Err(PageErrorText)) &&
    (page.status == 200 && page.borderTable.None? ==> r == Err(NoTableText)) &&
    (r.Ok? <==> page.status == 200 && page.borderTable.Some?) &&
    (r == Ok(None) ==>
      forall k | 1 <= k < |page.borderTable.value| :: |page.borderTable.value[k]| != 4) &&
    (r.Ok? && r.value.Some? ==>
      exists k: nat | IsFirstStationRow(page.borderTable.value, k) ::
        var row := page.borderTable.value[k];
        r.value.value == Station(row[1].text, row[2].text, row[3].text))
  }

  /** The reading above leaves no choice: a page has exactly one station reading. */
  lemma StationReadingUnique(page: Page, r1: Result<Option<Station>, string>, r2: Result<Option<Station>, string>)
    requires StationReading(page, r1) && StationReading(page, r2)
    ensures r1 == r2
  {
    if r1.Ok? && r1.value.Some? && r2.value.Some? {
      var t := page.borderTable.value;
      var k1: nat :| IsFirstStationRow(t, k1) &&
        r1.value.value == Station(t[k1][1].text, t[k1][2].text, t[k1][3].text);
      var k2: nat :| IsFirstStationRow(t, k2) &&
        r2.value.value == Station(t[k2][1].text, t[k2][2].text, t[k2][3].text);
      assert k1 == k2;
    }
  }

  /** `fetch_station_data`. */
  method FetchStationData(page: Page) returns (r: Result<Option<Station>, string>)
    ensures StationReading(page, r)
  {
    if page.status != 200 {
      return Err(PageErrorText);
    }
    if page.borderTable.None? {
      return Err(NoTableText);
    }
    var table := page.borderTable.value;
    var stationData: Option<Station> := None;
    var rows := if |table| == 0 then [] else table[1..];
    for n := 0 to |rows|
      invariant stationData == None
      invariant forall k | 0 <= k < n :: |rows[k]| != 4
    {
      var cells := rows[n];
      if |cells| == 4 {
        stationData := Some(Station(cells[1].text, cells[2].text, cells[3].text));
        assert IsFirstStationRow(table, n + 1) by {
          forall k' | 1 <= k' < n + 1 ensures |table[k']| != 4 {
            assert table[k'] == rows[k' - 1];
          }
        }
        break;
      }
    }
    if stationData.None? {
      forall k | 1 <= k < |table| ensures |table[k]| != 4 {
        assert table[k] == rows[k - 1];
      }
    }
    return Ok(stationData);
  }
}

/** `RiverDataScraper`: the station-list search. It pages through the list
    of observation sites for a prefecture (`KEN`), a river system (`SUIKEI`)
    and an observed item (`KOMOKU`), turns each table row into a CSV entry
    and keeps the rows that carry data. The parsed page is given as its
    `<tr align="CENTER">` rows; each row is its cell texts and, when the row
    holds an `<a href=...>`, that anchor's markup. */
module SiteList {
  import opened Wrappers
  import opened Text

  /** One `<tr align="CENTER">`: the text of each `<td>` and the markup of
      the row's first anchor with an `href`, if any. */
  datatype SiteRow = SiteRow(cells: seq<string>, anchor: Option<string>)

  /** `self.data`: the kept entries, and whether the scan raised before it
      finished. */
  datatype Scan = Scan(data: seq<seq<string>>, raised: bool)

  const CsvHeader: seq<string> := ["No", "項目", "水系名", "河川名", "観測所名", "所在地", "SUIKEI", "JavaScriptSiteDetail"]

  /** A name the code files do not list maps to `'-1'`. */
  function CodeOf(values: map<string, string>, name: string): (code: string)
    ensures name in values ==> code == values[name]
    ensures name !in values ==> code == "-1"
  {
    if name in values then values[name] else "-1"
  }

  function ListUrl(baseUrl: string, ken: string, suikei: string, komoku: string, page: nat): string
  {
    baseUrl + "?KOMOKU=" + komoku + "&SUIKEI=" + suikei + "&KEN=" + ken + "&CITY=&PAGE=" + NatToString(page)
  }

  function CsvName(kenName: string, suikeiName: string, komokuName: string): string
  {
    "river_data_" + kenName + "_" + suikeiName + "_" + komokuName + ".csv"
  }

  /** `os.path.join(os.path.join('.', 'output'), name)`. */
  function CsvPath(name: string): string
  {
    "./output/" + name
  }

  // ---------------------------------------------------------------------
  // re.search(r"SiteDetail1\('(\d+)'\)", str(js_detail))
  // ---------------------------------------------------------------------

  const DetailCall := "SiteDetail1('"

  /** The pattern matches at `i`: the call, at least one digit, then `')`. */
  predicate DetailAt(h: string, i: nat)
  {
    OccursAt(h, DetailCall, i) && i + 13 <= |h| &&
    var run := DigitRun(h[i + 13..]);
    |run| > 0 && OccursAt(h, "')", i + 13 + |run|)
  }

  /** The digits captured by the leftmost match. */
  function DetailSearch(h: string): (id: Option<string>)
    ensures id.Some? ==> |id.value| > 0 && AllDigits(id.value)
    decreases |h|
  {
    if |h| < 13 then None
    else if DetailAt(h, 0) then Some(DigitRun(h[13..]))
    else DetailSearch(h[1..])
  }

  lemma DetailAtShift(h: string, i: nat)
    requires |h| > 0
    ensures DetailAt(h, i + 1) <==> DetailAt(h[1..], i)
  {
    OccursShift(h, DetailCall, i);
    if i + 14 <= |h| {
      assert h[1..][i + 13..] == h[i + 14..];
      OccursShift(h, "')", i + 13 + |DigitRun(h[i + 14..])|);
    }
  }

  /** The search reports the leftmost match, and nothing only when the
      pattern matches nowhere. */
  lemma {:induction false} DetailSearchSpec(h: string)
    ensures DetailSearch(h).Some? ==> exists i: nat ::
      && DetailAt(h, i)
      && (forall j: nat | j < i :: !DetailAt(h, j))
      && DetailSearch(h).value == DigitRun(h[i + 13..])
    ensures DetailSearch(h).None? ==> forall i: nat :: !DetailAt(h, i)
    decreases |h|
  {
    if |h| < 13 {
    } else if DetailAt(h, 0) {
    } else {
      DetailSearchSpec(h[1..]);
      if DetailSearch(h[1..]).Some? {
        var i: nat :| DetailAt(h[1..], i) && (forall j: nat | j < i :: !DetailAt(h[1..], j)) &&
          DetailSearch(h[1..]).value == DigitRun(h[1..][i + 13..]);
        DetailLeftmostShift(h, i);
        assert h[1..][i + 13..] == h[i + 1 + 13..];
      } else {
        DetailNoneShift(h);
      }
    }
  }

  /** A leftmost match in the tail is a leftmost match one place later in
      the whole text, when the text does not match at its start. */
  lemma DetailLeftmostShift(h: string, i: nat)
    requires |h| > 0 && !DetailAt(h, 0)
    requires DetailAt(h[1..], i) && forall j: nat | j < i :: !DetailAt(h[1..], j)
    ensures DetailAt(h, i + 1) && forall j: nat | j < i + 1 :: !DetailAt(h, j)
  {
    DetailAtShift(h, i);
    forall j: nat | j < i + 1 ensures !DetailAt(h, j) {
      if j > 0 { DetailAtShift(h, j - 1); }
    }
  }

  lemma DetailNoneShift(h: string)
    requires |h| > 0 && !DetailAt(h, 0) && forall i: nat :: !DetailAt(h[1..], i)
    ensures forall i: nat :: !DetailAt(h, i)
  {
    forall i: nat ensures !DetailAt(h, i) {
      if i > 0 { DetailAtShift(h, i - 1); }
    }
  }

  // ---------------------------------------------------------------------
  // The entry of one row and the filter
  // ---------------------------------------------------------------------

  /** The entry of a row: the stripped cell texts, the `SUIKEI` code and the
      site id (`''` without an anchor); None where `.group(1)` is called on
      a failed search and raises. */
  function EntryOf(row: SiteRow, suikei: string): (e: Option<seq<string>>)
    ensures e.Some? <==> row.anchor.None? || DetailSearch(row.anchor.value).Some?
    ensures e.Some? ==> (
      && |e.value| == |row.cells| + 2 && e.value[|row.cells|] == suikei
      && (forall i | 0 <= i < |row.cells| :: e.value[i] == Strip(row.cells[i]))
      && e.value[|row.cells| + 1] == if row.anchor.None? then "" else DetailSearch(row.anchor.value).value)
  {
    var texts := seq(|row.cells|, i requires 0 <= i < |row.cells| => Strip(row.cells[i]));
    match row.anchor
    case None => Some(texts + [suikei] + [""])
    case Some(a) =>
      match DetailSearch(a)
      case None => None
      case Some(id) => Some(texts + [suikei] + [id])
  }

  /** `re.match(r'^,,,,,,\d+,$', s)`: six commas, digits, a comma, and the
      end of the string or a final newline. */
  predicate BlankPattern(s: string)
  {
    |s| >= 6 && s[..6] == ",,,,,," &&
    var rest := s[6..];
    var body := if |rest| > 0 && rest[|rest| - 1] == '\n' then rest[..|rest| - 1] else rest;
    |body| >= 2 && body[|body| - 1] == ',' && AllDigits(body[..|body| - 1])
  }

  /** Six empty cells, a numeric `SUIKEI` code and no site id. */
  predicate BlankEntry(e: seq<string>)
  {
    |e| == 8 && (forall i | 0 <= i < 6 :: e[i] == "") &&
    |e[6]| > 0 && AllDigits(e[6]) && e[7] == ""
  }

  /** The entry is kept: its comma-join is not the blank-row pattern and
      some field is non-empty (`any(entry)`). */
  predicate Keep(e: seq<string>)
  {
    !BlankPattern(Join(e, ",")) && exists f | f in e :: f != ""
  }

  function BlankFields(d: string): seq<string>
  {
    ["", "", "", "", "", "", d, ""]
  }

  lemma JoinBlankFields(d: string)
    ensures Join(BlankFields(d), ",") == ",,,,,," + d + ","
  {
    var f := BlankFields(d);
    assert Join(f[7..], ",") == "" by { assert f[7..] == [""]; }
    assert Join(f[6..], ",") == d + "," by { assert f[6..][1..] == f[7..]; }
    assert Join(f[5..], ",") == "," + d + "," by { assert f[5..][1..] == f[6..]; }
    assert Join(f[4..], ",") == ",," + d + "," by { assert f[4..][1..] == f[5..]; }
    assert Join(f[3..], ",") == ",,," + d + "," by { assert f[3..][1..] == f[4..]; }
    assert Join(f[2..], ",") == ",,,," + d + "," by { assert f[2..][1..] == f[3..]; }
    assert Join(f[1..], ",") == ",,,,," + d + "," by { assert f[1..][1..] == f[2..]; }
    assert Join(f, ",") == ",,,,,," + d + ",";
  }

  /** A blank entry matches the pattern. */
  lemma BlankEntryMatches(e: seq<string>)
    requires BlankEntry(e)
    ensures BlankPattern(Join(e, ","))
  {
    assert e == BlankFields(e[6]);
    JoinBlankFields(e[6]);
    var s := Join(e, ",");
    assert s[..6] == ",,,,,,";
    assert s[6..] == e[6] + ",";
    assert (e[6] + ",")[..|e[6]|] == e[6];
  }

  /** Without a newline, a match is six commas, digits and a comma. */
  lemma BlankShape(s: string) returns (d: string)
    requires BlankPattern(s) && '\n' !in s
    ensures |d| > 0 && AllDigits(d) && s == ",,,,,," + d + ","
  {
    var rest := s[6..];
    assert rest[|rest| - 1] == s[|s| - 1];
    d := rest[..|rest| - 1];
    assert rest == d + ",";
    assert s == s[..6] + rest;
  }

  /** An entry whose fields hold no comma or newline matches the pattern
      only when it is blank. */
  lemma MatchIsBlankEntry(e: seq<string>)
    requires forall f | f in e :: ',' !in f && '\n' !in f
    requires BlankPattern(Join(e, ","))
    ensures BlankEntry(e)
  {
    if e != [] {
      JoinLacks(e, ',', '\n');
      var d := BlankShape(Join(e, ","));
      JoinBlankFields(d);
      BlankFieldsShape(d);
      SplitJoin(e, ',');
      SplitJoin(BlankFields(d), ',');
    }
  }

  /** The fields of a blank row hold no comma, and with a numeric code they
      form a blank entry. */
  lemma BlankFieldsShape(d: string)
    requires |d| > 0 && AllDigits(d)
    ensures |BlankFields(d)| > 0 && forall f | f in BlankFields(d) :: ',' !in f
    ensures BlankEntry(BlankFields(d))
  {
    DigitsLack(d, ',');
  }

  /** For fields without commas or newlines, the pattern drops exactly the
      entries of six empty cells, a numeric code and no site id. */
  lemma BlankPatternMeaning(e: seq<string>)
    requires forall f | f in e :: ',' !in f && '\n' !in f
    ensures BlankPattern(Join(e, ",")) <==> BlankEntry(e)
  {
    if BlankEntry(e) {
      BlankEntryMatches(e);
    }
    if BlankPattern(Join(e, ",")) {
      MatchIsBlankEntry(e);
    }
  }

  // ---------------------------------------------------------------------
  // scrape_data
  // ---------------------------------------------------------------------

  /** The rows after the header row (`rows[1:]`). */
  function Body(rows: seq<SiteRow>): (body: seq<SiteRow>)
    ensures |rows| > 0 ==> body == rows[1..]
    ensures |rows| == 0 ==> body == []
  {
    if |rows| == 0 then [] else rows[1..]
  }

  /** What each row reads as. */
  function Reads(rows: seq<SiteRow>, suikei: string): (rs: seq<Option<seq<string>>>)
    ensures |rs| == |rows| && forall i | 0 <= i < |rows| :: rs[i] == EntryOf(rows[i], suikei)
  {
    seq(|rows|, i requires 0 <= i < |rows| => EntryOf(rows[i], suikei))
  }

  /** The loop over the rows read: it stops at the first row that raises,
      keeping what it had. */
  function ScanEntries(rs: seq<Option<seq<string>>>): Scan
    decreases |rs|
  {
    if rs == [] then Scan([], false)
    else
      var before := ScanEntries(rs[..|rs| - 1]);
      if before.raised then before
      else
        match rs[|rs| - 1]
        case None => Scan(before.data, true)
        case Some(e) => Scan(if Keep(e) then before.data + [e] else before.data, false)
  }

  /** `scrape_data` over the rows after the header. */
  function ScrapeRows(rows: seq<SiteRow>, suikei: string): Scan
  {
    ScanEntries(Reads(rows, suikei))
  }

  /** The members of `xs` that `keep` accepts, in order. */
  function Filter<T>(keep: T -> bool, xs: seq<T>): (ys: seq<T>)
    ensures |ys| <= |xs|
  {
    if xs == [] then []
    else (if keep(xs[0]) then [xs[0]] else []) + Filter(keep, xs[1..])
  }

  /** Filtering distributes over concatenation. */
  lemma {:induction false} FilterAppend<T>(keep: T -> bool, a: seq<T>, b: seq<T>)
    ensures Filter(keep, a + b) == Filter(keep, a) + Filter(keep, b)
    decreases |a|
  {
    if a == [] {
      assert a + b == b;
    } else {
      var head := if keep(a[0]) then [a[0]] else [];
      FilterAppend(keep, a[1..], b);
      assert (a + b)[0] == a[0] && (a + b)[1..] == a[1..] + b;
      calc {
        Filter(keep, a + b);
        head + Filter(keep, a[1..] + b);
        head + (Filter(keep, a[1..]) + Filter(keep, b));
        (head + Filter(keep, a[1..])) + Filter(keep, b);
      }
    }
  }

  /** What is left is exactly what passes the filter. */
  lemma {:induction false} FilterMembers<T>(keep: T -> bool, xs: seq<T>)
    ensures forall x :: x in Filter(keep, xs) <==> x in xs && keep(x)
    decreases |xs|
  {
    if xs != [] {
      FilterMembers(keep, xs[1..]);
      assert xs == [xs[0]] + xs[1..];
    }
  }

  /** The kept entries, read front to back. */
  function KeptEntries(es: seq<seq<string>>): seq<seq<string>>
  {
    Filter(Keep, es)
  }

  /** The entries of rows that all read. */
  function Values(rs: seq<Option<seq<string>>>): (es: seq<seq<string>>)
    requires None !in rs
    ensures |es| == |rs| && forall i | 0 <= i < |rs| :: rs[i] == Some(es[i])
  {
    assert forall i | 0 <= i < |rs| :: rs[i] in rs && rs[i].Some?;
    seq(|rs|, i requires 0 <= i < |rs| && rs[i].Some? => rs[i].value)
  }

  /** The scan raises exactly when some row raises. */
  lemma {:induction false} ScanRaised(rs: seq<Option<seq<string>>>)
    ensures ScanEntries(rs).raised <==> None in rs
    decreases |rs|
  {
    if rs != [] {
      var init := rs[..|rs| - 1];
      ScanRaised(init);
      assert rs == init + [rs[|rs| - 1]];
    }
  }

  /** When no row raises, `data` is the kept entries of all rows, in order. */
  lemma {:induction false} ScanData(rs: seq<Option<seq<string>>>)
    requires None !in rs
    ensures ScanEntries(rs) == Scan(KeptEntries(Values(rs)), false)
    decreases |rs|
  {
    if rs != [] {
      var init := rs[..|rs| - 1];
      assert rs == init + [rs[|rs| - 1]];
      ScanData(init);
      var e := rs[|rs| - 1].value;
      assert Values(rs) == Values(init) + [e];
      FilterAppend(Keep, Values(init), [e]);
      assert Filter(Keep, [e]) == if Keep(e) then [e] else [];
    }
  }

  /** Whatever is kept passes the filter and was read from some row. */
  lemma {:induction false} ScanKept(rs: seq<Option<seq<string>>>)
    ensures forall e | e in ScanEntries(rs).data :: Keep(e) && Some(e) in rs
    decreases |rs|
  {
    if rs != [] {
      var init := rs[..|rs| - 1];
      ScanKept(init);
      assert rs == init + [rs[|rs| - 1]];
    }
  }

  /** Once a prefix raises, the whole scan does, with the same data. */
  lemma {:induction false} ScanRaisedPersists(rs: seq<Option<seq<string>>>, n: nat)
    requires n <= |rs| && ScanEntries(rs[..n]).raised
    ensures ScanEntries(rs) == ScanEntries(rs[..n])
    decreases |rs| - n
  {
    if n < |rs| {
      assert rs[..n + 1][..n] == rs[..n];
      ScanRaisedPersists(rs, n + 1);
    } else {
      assert rs[..n] == rs;
    }
  }

  /** The row has an anchor whose text the site-id pattern does not match. */
  predicate AnchorFails(row: SiteRow)
  {
    row.anchor.Some? && DetailSearch(row.anchor.value).None?
  }

  /** `scrape_data` raises exactly when some row's anchor does not match. */
  lemma ScrapeRowsRaised(rows: seq<SiteRow>, suikei: string)
    ensures ScrapeRows(rows, suikei).raised <==> exists i | 0 <= i < |rows| :: AnchorFails(rows[i])
  {
    var rs := Reads(rows, suikei);
    ScanRaised(rs);
    if None in rs {
      var i :| 0 <= i < |rs| && rs[i] == None;
      assert AnchorFails(rows[i]);
    }
    if exists i | 0 <= i < |rows| :: AnchorFails(rows[i]) {
      var i :| 0 <= i < |rows| && AnchorFails(rows[i]);
      assert rs[i] == None;
    }
  }

  /** Otherwise it keeps, in page order, the entries of the rows that pass
      the filter. */
  lemma ScrapeRowsData(rows: seq<SiteRow>, suikei: string)
    requires !ScrapeRows(rows, suikei).raised
    ensures None !in Reads(rows, suikei)
    ensures ScrapeRows(rows, suikei).data == KeptEntries(Values(Reads(rows, suikei)))
  {
    ScanRaised(Reads(rows, suikei));
    ScanData(Reads(rows, suikei));
  }

  /** Every entry it keeps passes the filter and ends in the `SUIKEI` code
      and the site id. */
  lemma ScrapeRowsEntries(rows: seq<SiteRow>, suikei: string)
    ensures forall e | e in ScrapeRows(rows, suikei).data ::
      Keep(e) && |e| >= 2 && e[|e| - 2] == suikei
  {
    var rs := Reads(rows, suikei);
    ScanKept(rs);
    forall e | e in ScrapeRows(rows, suikei).data ensures |e| >= 2 && e[|e| - 2] == suikei {
      var i :| 0 <= i < |rs| && rs[i] == Some(e);
      assert EntryOf(rows[i], suikei) == Some(e);
    }
  }

  /** The entries pass `any(entry)` whenever the code is non-empty, so only
      the blank-row pattern and a failed anchor drop a row then. */
  lemma KeepWithCode(e: seq<string>, suikei: string)
    requires |e| >= 2 && e[|e| - 2] == suikei && suikei != ""
    ensures Keep(e) <==> !BlankPattern(Join(e, ","))
  {
    assert e[|e| - 2] in e;
  }

  // ---------------------------------------------------------------------
  // The scraper object
  // ---------------------------------------------------------------------

  /** The CSV files written, as the rows each holds. */
  class CsvOutput {
    var files: map<string, seq<seq<string>>>

    constructor(files: map<string, seq<seq<string>>>)
      ensures this.files == files
    {
      this.files := files;
    }

    /** One `csv.writer` pass: the file is created or overwritten. */
    method Write(path: string, rows: seq<seq<string>>)
      modifies this
      ensures files == old(files)[path := rows]
    {
      files := files[path := rows];
    }
  }

  class RiverDataScraper {
    const baseUrl: string
    const kenValues: map<string, string>
    const suikeiValues: map<string, string>
    const komokuValues: map<string, string>
    var pageNumber: int
    var data: seq<seq<string>>

    /** The page number never goes below zero. */
    predicate Valid()
      reads this
    {
      pageNumber >= 0
    }

    /** The three code files are given as their loaded contents. */
    constructor(baseUrl: string, kenValues: map<string, string>, suikeiValues: map<string, string>,
                komokuValues: map<string, string>)
      ensures Valid()
      ensures this.baseUrl == baseUrl && this.kenValues == kenValues
      ensures this.suikeiValues == suikeiValues && this.komokuValues == komokuValues
      ensures pageNumber == 0 && data == []
    {
      this.baseUrl := baseUrl;
      this.kenValues := kenValues;
      this.suikeiValues := suikeiValues;
      this.komokuValues := komokuValues;
      pageNumber := 0;
      data := [];
    }

    method IncrementPage()
      requires Valid()
      modifies this
      ensures Valid()
      ensures pageNumber == old(pageNumber) + 1 && data == old(data)
      ensures pageNumber == Move(old(pageNumber), Next)
    {
      pageNumber := pageNumber + 1;
    }

    /** Steps back one page, never below the first. */
    method DecrementPage()
      requires Valid()
      modifies this
      ensures Valid()
      ensures old(pageNumber) > 0 ==> pageNumber == old(pageNumber) - 1
      ensures old(pageNumber) == 0 ==> pageNumber == 0
      ensures pageNumber == Move(old(pageNumber), Prev) && data == old(data)
    {
      if pageNumber > 0 {
        pageNumber := pageNumber - 1;
      }
    }

    method ResetPageNumber()
      requires Valid()
      modifies this
      ensures Valid()
      ensures pageNumber == 0 && data == old(data)
      ensures pageNumber == Move(old(pageNumber), Start)
    {
      pageNumber := 0;
    }

    /** `scrape_data`: `fetch` stands for the request and the parse of the
        list page. `data` is emptied first and then filled row by row; a row
        whose anchor does not match raises and leaves what was kept before
        it. */
    method ScrapeData(fetch: string -> seq<SiteRow>, ken: string, suikei: string, komoku: string)
      returns (raised: bool)
      requires Valid()
      modifies this
      ensures Valid() && pageNumber == old(pageNumber)
      ensures var scan := ScrapeRows(Body(fetch(ListUrl(baseUrl, ken, suikei, komoku, pageNumber))), suikei);
        data == scan.data && raised == scan.raised
    {
      var rows := fetch(ListUrl(baseUrl, ken, suikei, komoku, pageNumber));
      var body := Body(rows);
      ghost var rs := Reads(body, suikei);
      data := [];
      for n := 0 to |body|
        invariant ScanEntries(rs[..n]) == Scan(data, false)
        invariant pageNumber == old(pageNumber)
      {
        assert rs[..n + 1][..n] == rs[..n];
        var entry := EntryOf(body[n], suikei);
        if entry.None? {
          ScanRaisedPersists(rs, n + 1);
          return true;
        }
        if Keep(entry.value) {
          data := data + [entry.value];
        }
      }
      assert rs[..|rs|] == rs;
      return false;
    }

    /** `run`: look the names up, scrape, and write the CSV with its header
        row, unless the scrape raised. */
    method Run(fetch: string -> seq<SiteRow>, out: CsvOutput, kenName: string, suikeiName: string, komokuName: string)
      returns (raised: bool)
      requires Valid()
      modifies this, out
      ensures Valid() && pageNumber == old(pageNumber)
      ensures var suikei := CodeOf(suikeiValues, suikeiName);
        var url := ListUrl(baseUrl, CodeOf(kenValues, kenName), suikei, CodeOf(komokuValues, komokuName), pageNumber);
        var scan := ScrapeRows(Body(fetch(url)), suikei);
        data == scan.data && raised == scan.raised
      ensures raised ==> out.files == old(out.files)
      ensures !raised ==> out.files == old(out.files)[CsvPath(CsvName(kenName, suikeiName, komokuName)) := [CsvHeader] + data]
    {
      var ken := CodeOf(kenValues, kenName);
      var suikei := CodeOf(suikeiValues, suikeiName);
      var komoku := CodeOf(komokuValues, komokuName);
      raised := ScrapeData(fetch, ken, suikei, komoku);
      if raised {
        return;
      }
      out.Write(CsvPath(CsvName(kenName, suikeiName, komokuName)), [CsvHeader] + data);
    }
  }

  // ---------------------------------------------------------------------
  // The page counter as a value
  // ---------------------------------------------------------------------

  datatype PageMove = Next | Prev | Start

  /** The page number after one button: next, previous (not below the
      first page) or back to the start. */
  function Move(page: int, m: PageMove): (p: int)
    ensures page >= 0 ==> p >= 0
  {
    match m
    case Next => page + 1
    case Prev => if page > 0 then page - 1 else page
    case Start => 0
  }

  function Moves(page: int, ms: seq<PageMove>): int
    decreases |ms|
  {
    if ms == [] then page else Moves(Move(page, ms[0]), ms[1..])
  }

  /** No sequence of buttons takes the page number below zero, and from
      the first page the number never exceeds the count of presses. */
  lemma {:induction false} MovesBounds(ms: seq<PageMove>)
    ensures 0 <= Moves(0, ms) <= |ms|
  {
    MovesFrom(0, ms);
  }

  lemma {:induction false} MovesFrom(page: int, ms: seq<PageMove>)
    requires page >= 0
    ensures 0 <= Moves(page, ms) <= page + |ms|
    decreases |ms|
  {
    if ms != [] {
      MovesFrom(Move(page, ms[0]), ms[1..]);
    }
  }

  /** Previous undoes next, and previous on the first page stays there. */
  lemma PrevAfterNext(page: int)
    requires page >= 0
    ensures Move(Move(page, Next), Prev) == page
    ensures Move(0, Prev) == 0
  {
  }
}

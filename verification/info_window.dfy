/** `App`: the main window. It shows the kept rows of a station-list page
    in a table, pages back and forth through the list, searches the table's
    texts and steps through the hits, and turns a station's coordinates
    into the digits the map service expects. Widgets, colours, message
    boxes and the crawler thread are left out; what they would show is kept
    as the window's state. */
module InfoWindow {
  import opened Wrappers
  import opened Text
  import SiteList

  const SrchSiteUrl := "http://www1.river.go.jp/cgi-bin/SrchSite.exe"

  // ---------------------------------------------------------------------
  // extractCoords
  // ---------------------------------------------------------------------

  /** `re.findall(r'(\d+)<unit>', s)`: the scan tries each position in turn;
      at a digit it takes the whole run of digits, and a match needs the
      unit right after it; after a match it resumes past the unit. */
  function FindAll(s: string, unit: char): (groups: seq<string>)
    ensures forall g | g in groups :: |g| > 0 && AllDigits(g)
    decreases |s|
  {
    if s == [] then []
    else
      var run := DigitRun(s);
      if |run| > 0 && |run| < |s| && s[|run|] == unit then [run] + FindAll(s[|run| + 1..], unit)
      else FindAll(s[1..], unit)
  }

  /** A digit immediately followed by the unit. */
  predicate UnitAfterDigit(s: string, unit: char, i: nat)
  {
    0 < i < |s| && s[i] == unit && IsDigit(s[i - 1])
  }

  /** The scan finds something exactly when a digit stands right before the
      unit somewhere. */
  lemma {:induction false} FindAllEmpty(s: string, unit: char)
    requires !IsDigit(unit)
    ensures FindAll(s, unit) == [] <==> forall i: nat :: !UnitAfterDigit(s, unit, i)
    decreases |s|
  {
    if s != [] {
      var run := DigitRun(s);
      if |run| > 0 && |run| < |s| && s[|run|] == unit {
        assert run[|run| - 1] == s[|run| - 1];
        assert UnitAfterDigit(s, unit, |run|);
      } else {
        FindAllEmpty(s[1..], unit);
        forall i: nat | i > 1 ensures UnitAfterDigit(s, unit, i) <==> UnitAfterDigit(s[1..], unit, i - 1) {
        }
        if exists i: nat :: UnitAfterDigit(s[1..], unit, i) {
          var i: nat :| UnitAfterDigit(s[1..], unit, i);
          assert UnitAfterDigit(s, unit, i + 1);
        }
      }
    }
  }

  /** The longest all-digit suffix of `x`. */
  function TrailingDigits(x: string): (t: string)
    ensures AllDigits(t) && |t| <= |x| && t == x[|x| - |t|..]
    ensures |t| < |x| ==> !IsDigit(x[|x| - |t| - 1])
    decreases |x|
  {
    if AllDigits(x) then x else TrailingDigits(x[1..])
  }

  /** The reference reading of `findall(r'(\d+)<unit>')`: cut the text at
      every unit; each piece but the last ends right before a unit, and
      contributes the digit run it ends with, when it ends with one. */
  function RunsBeforeUnits(pieces: seq<string>): seq<string>
    decreases |pieces|
  {
    if |pieces| <= 1 then []
    else
      var t := TrailingDigits(pieces[0]);
      (if t != [] then [t] else []) + RunsBeforeUnits(pieces[1..])
  }

  /** Without the unit there is nothing to find. */
  lemma {:induction false} FindAllNoUnit(s: string, unit: char)
    requires unit !in s
    ensures FindAll(s, unit) == []
    decreases |s|
  {
    if s != [] {
      var run := DigitRun(s);
      if |run| < |s| {
        assert s[|run|] in s;
      }
      assert unit !in s[1..] by {
        forall k | 0 <= k < |s[1..]| ensures s[1..][k] != unit {
          assert s[1..][k] == s[k + 1];
        }
      }
      FindAllNoUnit(s[1..], unit);
    }
  }

  /** The scan up to the first unit finds the digit run that ends right
      before it, if any, and then goes on after the unit. */
  lemma {:induction false} FindAllFirstUnit(x: string, unit: char, rest: string)
    requires !IsDigit(unit) && unit !in x
    ensures var t := TrailingDigits(x);
      FindAll(x + [unit] + rest, unit) == (if t != [] then [t] else []) + FindAll(rest, unit)
    decreases |x|
  {
    if AllDigits(x) {
      FindAllDigitsUnit(x, unit, rest);
    } else {
      FindAllSkip(x, unit, rest);
      assert unit !in x[1..] by {
        forall m | 0 <= m < |x[1..]| ensures x[1..][m] != unit {
          assert x[1..][m] == x[m + 1] && x[m + 1] in x;
        }
      }
      FindAllFirstUnit(x[1..], unit, rest);
    }
  }

  /** Digits right before the unit are one match, and the scan resumes
      after the unit. */
  lemma FindAllDigitsUnit(x: string, unit: char, rest: string)
    requires !IsDigit(unit) && AllDigits(x)
    ensures FindAll(x + [unit] + rest, unit) == (if x != [] then [x] else []) + FindAll(rest, unit)
  {
    var s := x + [unit] + rest;
    assert s == x + ([unit] + rest);
    DigitRunOfDigits(x, [unit] + rest);
    assert s[|x|] == unit && s[|x| + 1..] == rest;
    if x == [] {
      assert s[1..] == rest;
    }
  }

  /** At a position whose digit run stops before the unit, the scan moves
      on by one character. */
  lemma FindAllSkip(x: string, unit: char, rest: string)
    requires !IsDigit(unit) && unit !in x && !AllDigits(x)
    ensures FindAll(x + [unit] + rest, unit) == FindAll(x[1..] + [unit] + rest, unit)
  {
    var s := x + [unit] + rest;
    var k := |DigitRun(x)|;
    assert s == x + ([unit] + rest);
    DigitRunExtend(x, [unit] + rest);
    assert s[k] == x[k] && x[k] in x;
    assert s[1..] == x[1..] + [unit] + rest;
  }

  /** A digit run that stops inside `x` stays the same whatever follows `x`. */
  lemma {:induction false} DigitRunExtend(x: string, t: string)
    requires !AllDigits(x)
    ensures |DigitRun(x)| < |x| && DigitRun(x + t) == DigitRun(x)
    decreases |x|
  {
    assert x != [];
    assert (x + t)[1..] == x[1..] + t;
    if IsDigit(x[0]) {
      var m :| 0 <= m < |x| && !IsDigit(x[m]);
      assert x[1..][m - 1] == x[m];
      DigitRunExtend(x[1..], t);
    }
  }

  /** The digit run of a text that starts with digits and goes on with a
      non-digit is those digits. */
  lemma {:induction false} DigitRunOfDigits(x: string, rest: string)
    requires AllDigits(x) && (rest == [] || !IsDigit(rest[0]))
    ensures DigitRun(x + rest) == x
    decreases |x|
  {
    if x == [] {
      assert x + rest == rest;
    } else {
      assert (x + rest)[1..] == x[1..] + rest;
      DigitRunOfDigits(x[1..], rest);
    }
  }

  /** `re.findall(r'(\d+)<unit>')` yields, left to right, the whole digit
      run standing right before each occurrence of the unit, skipping the
      occurrences with no digit before them. */
  lemma {:induction false} FindAllSpec(s: string, unit: char)
    requires !IsDigit(unit)
    ensures FindAll(s, unit) == RunsBeforeUnits(Split(s, [unit]))
    decreases |s|
  {
    if unit !in s {
      FindAllNoUnit(s, unit);
      SplitNone(s, unit);
    } else {
      var j :| 0 <= j < |s| && s[j] == unit;
      FirstOccurrence(s, unit, j);
      var i :| 0 <= i < |s| && s[i] == unit && forall k | 0 <= k < i :: s[k] != unit;
      var x, rest := s[..i], s[i + 1..];
      assert s == x + [unit] + rest;
      assert unit !in x by {
        forall k | 0 <= k < |x| ensures x[k] != unit { }
      }
      SplitCons(x, unit, rest);
      FindAllFirstUnit(x, unit, rest);
      FindAllSpec(rest, unit);
    }
  }

  /** `int(g)` for each group. */
  function Numbers(groups: seq<string>): (ns: seq<nat>)
    requires forall g | g in groups :: AllDigits(g)
    ensures |ns| == |groups| && forall i | 0 <= i < |groups| :: ns[i] == ParseNat(groups[i])
  {
    seq(|groups|, i requires 0 <= i < |groups| && AllDigits(groups[i]) => ParseNat(groups[i]))
  }

  /** `str(d).zfill(3) + str(m).zfill(2) + str(s).zfill(2) + "000"`. */
  function Coord(d: nat, m: nat, s: nat): string
  {
    ZeroPad(NatToString(d), 3) + ZeroPad(NatToString(m), 2) + ZeroPad(NatToString(s), 2) + "000"
  }

  /** The latitude from the first 度/分/秒 numbers and the longitude from
      the second; None where fewer than two of some unit are found and the
      indexing raises. */
  function ExtractCoords(text: string): (r: Option<(string, string)>)
    ensures r.None? <==> |FindAll(text, '度')| < 2 || |FindAll(text, '分')| < 2 || |FindAll(text, '秒')| < 2
  {
    var degrees := Numbers(FindAll(text, '度'));
    var minutes := Numbers(FindAll(text, '分'));
    var seconds := Numbers(FindAll(text, '秒'));
    if |degrees| < 2 || |minutes| < 2 || |seconds| < 2 then None
    else Some((Coord(degrees[0], minutes[0], seconds[0]), Coord(degrees[1], minutes[1], seconds[1])))
  }

  /** A number below `10^w`, padded to `w`, is `w` digits that read back as it. */
  lemma PaddedField(n: nat, w: nat)
    requires w >= 1 && n < Pow10(w)
    ensures var f := ZeroPad(NatToString(n), w);
      |f| == w && AllDigits(f) && ParseNat(f) == n
  {
    NatToStringLength(n, w);
    ParsePad(n, w);
  }

  lemma FieldsConcat(a: string, b: string, e: string)
    requires |a| == 3 && |b| == 2 && |e| == 2 && AllDigits(a) && AllDigits(b) && AllDigits(e)
    ensures var c := a + b + e + "000";
      |c| == 10 && AllDigits(c) && c[..3] == a && c[3..5] == b && c[5..7] == e && c[7..] == "000"
  {
    var c := a + b + e + "000";
    assert c[..3] == a && c[3..5] == b && c[5..7] == e && c[7..] == "000";
    forall i | 0 <= i < 10 ensures IsDigit(c[i]) {
      if i < 3 { assert c[i] == a[i]; }
      else if i < 5 { assert c[i] == b[i - 3]; }
      else if i < 7 { assert c[i] == e[i - 5]; }
    }
  }

  /** `c` is ten digits ending in `000` whose degree, minute and second
      fields read back as `d`, `m` and `s`. */
  predicate CoordReadsAs(c: string, d: nat, m: nat, s: nat)
  {
    && |c| == 10 && AllDigits(c) && c[7..] == "000"
    && ParseNat(c[..3]) == d && ParseNat(c[3..5]) == m && ParseNat(c[5..7]) == s
  }

  /** In range, a coordinate is ten digits ending in `000`, and its three
      fields read back as the numbers it was built from. */
  lemma CoordFields(d: nat, m: nat, s: nat)
    requires d < 1000 && m < 100 && s < 100
    ensures CoordReadsAs(Coord(d, m, s), d, m, s)
  {
    assert Pow10(3) == 1000 && Pow10(2) == 100;
    PaddedField(d, 3);
    PaddedField(m, 2);
    PaddedField(s, 2);
    FieldsConcat(ZeroPad(NatToString(d), 3), ZeroPad(NatToString(m), 2), ZeroPad(NatToString(s), 2));
  }

  /** What the two results are, for text that has both coordinates. */
  lemma ExtractCoordsValues(text: string)
    requires ExtractCoords(text).Some?
    ensures var degrees, minutes, seconds := FindAll(text, '度'), FindAll(text, '分'), FindAll(text, '秒');
      ExtractCoords(text).value == (
        Coord(ParseNat(degrees[0]), ParseNat(minutes[0]), ParseNat(seconds[0])),
        Coord(ParseNat(degrees[1]), ParseNat(minutes[1]), ParseNat(seconds[1])))
  {
  }

  // ---------------------------------------------------------------------
  // updateTable
  // ---------------------------------------------------------------------

  /** A row is shown when it has a site id (index 7, non-empty) and some
      non-empty field among indices 1 to 5. */
  predicate KeepRow(row: seq<string>)
  {
    |row| > 7 && row[7] != "" && exists j | 1 <= j < 6 :: row[j] != ""
  }

  /** The shown cells: fields 1 to 5 as items, and the detail button (no
      item) in column 5. */
  function DisplayRow(row: seq<string>): (cells: seq<Option<string>>)
    requires |row| > 7
    ensures |cells| == 6 && cells[5].None?
    ensures forall c | 0 <= c < 5 :: cells[c] == Some(row[c + 1])
  {
    [Some(row[1]), Some(row[2]), Some(row[3]), Some(row[4]), Some(row[5]), None]
  }

  function DisplayRows(data: seq<seq<string>>): (rows: seq<seq<Option<string>>>)
    ensures forall r | 0 <= r < |rows| :: |rows[r]| == 6
    decreases |data|
  {
    if data == [] then []
    else
      var last := data[|data| - 1];
      DisplayRows(data[..|data| - 1]) + (if KeepRow(last) then [DisplayRow(last)] else [])
  }

  /** The table shows the shown rows of the data, in order, and nothing else. */
  lemma {:induction false} DisplayRowsSpec(data: seq<seq<string>>)
    ensures |DisplayRows(data)| <= |data|
    ensures forall row | row in data && KeepRow(row) :: DisplayRow(row) in DisplayRows(data)
    ensures forall cells | cells in DisplayRows(data) :: exists row | row in data :: KeepRow(row) && cells == DisplayRow(row)
    decreases |data|
  {
    if data != [] {
      var init, last := data[..|data| - 1], data[|data| - 1];
      DisplayRowsSpec(init);
      assert data == init + [last];
      forall row | row in data && KeepRow(row) ensures DisplayRow(row) in DisplayRows(data) {
        if row != last { assert row in init; }
      }
      forall cells | cells in DisplayRows(data) ensures exists row | row in data :: KeepRow(row) && cells == DisplayRow(row) {
        if cells in DisplayRows(init) {
          var row :| row in init && KeepRow(row) && cells == DisplayRow(row);
          assert row in data;
        } else {
          assert KeepRow(last) && cells == DisplayRow(last);
        }
      }
    }
  }

  // ---------------------------------------------------------------------
  // on_search
  // ---------------------------------------------------------------------

  /** The cell at (r, c) holds an item whose lower-cased text contains the
      query; the button column 5 is never searched. */
  predicate Hit(cells: seq<seq<Option<string>>>, q: string, r: nat, c: nat)
  {
    r < |cells| && c < |cells[r]| && c != 5 && cells[r][c].Some? &&
    (q == [] || Contains(Lower(cells[r][c].value), q))
  }

  /** The hits among the first `n` columns of row `r`, left to right. */
  function RowHits(cells: seq<seq<Option<string>>>, q: string, r: nat, n: nat): (hits: seq<(nat, nat)>)
    decreases n
  {
    if n == 0 then []
    else RowHits(cells, q, r, n - 1) + (if Hit(cells, q, r, n - 1) then [(r, n - 1)] else [])
  }

  /** The hits among the first `m` rows, row by row. */
  function GridHits(cells: seq<seq<Option<string>>>, q: string, m: nat): (hits: seq<(nat, nat)>)
    requires m <= |cells|
    decreases m
  {
    if m == 0 then []
    else GridHits(cells, q, m - 1) + RowHits(cells, q, m - 1, |cells[m - 1]|)
  }

  /** Row-major order. */
  predicate Before(a: (nat, nat), b: (nat, nat))
  {
    a.0 < b.0 || (a.0 == b.0 && a.1 < b.1)
  }

  lemma {:induction false} RowHitsSpec(cells: seq<seq<Option<string>>>, q: string, r: nat, n: nat)
    ensures forall p: (nat, nat) :: p in RowHits(cells, q, r, n) <==> p.0 == r && p.1 < n && Hit(cells, q, r, p.1)
    ensures forall i, j | 0 <= i < j < |RowHits(cells, q, r, n)| ::
      Before(RowHits(cells, q, r, n)[i], RowHits(cells, q, r, n)[j])
    decreases n
  {
    if n > 0 {
      RowHitsSpec(cells, q, r, n - 1);
    }
  }

  /** The hits are exactly the matching cells, each once, in row-major order. */
  lemma {:induction false} GridHitsSpec(cells: seq<seq<Option<string>>>, q: string, m: nat)
    requires m <= |cells|
    ensures forall p: (nat, nat) :: p in GridHits(cells, q, m) <==> p.0 < m && Hit(cells, q, p.0, p.1)
    ensures forall i, j | 0 <= i < j < |GridHits(cells, q, m)| ::
      Before(GridHits(cells, q, m)[i], GridHits(cells, q, m)[j])
    decreases m
  {
    if m > 0 {
      GridHitsSpec(cells, q, m - 1);
      RowHitsSpec(cells, q, m - 1, |cells[m - 1]|);
      var a, b := GridHits(cells, q, m - 1), RowHits(cells, q, m - 1, |cells[m - 1]|);
      forall p: (nat, nat) ensures p in a + b <==> p.0 < m && Hit(cells, q, p.0, p.1) {
        if p.0 == m - 1 && Hit(cells, q, p.0, p.1) {
          assert p.1 < |cells[m - 1]|;
        }
      }
      forall i, j | 0 <= i < j < |a + b| ensures Before((a + b)[i], (a + b)[j]) {
        if i < |a| && j >= |a| {
          assert (a + b)[i] in a && (a + b)[j] in b;
        }
      }
    }
  }

  /** `update_search_count`: `"{index + 1}/{count}"`, or nothing without hits. */
  function CountLabel(results: seq<(nat, nat)>, index: int): (text: string)
    requires results != [] ==> 0 <= index
  {
    if results != [] then NatToString(index + 1) + "/" + NatToString(|results|) else ""
  }

  /** The label names the current hit and the number of hits. */
  lemma CountLabelRoundTrip(results: seq<(nat, nat)>, index: int)
    requires results != [] && 0 <= index < |results|
    ensures var parts := Split(CountLabel(results, index), "/");
      |parts| == 2 && AllDigits(parts[0]) && AllDigits(parts[1]) &&
      ParseNat(parts[0]) == index + 1 && ParseNat(parts[1]) == |results| &&
      1 <= ParseNat(parts[0]) <= ParseNat(parts[1])
  {
    var a, b := NatToString(index + 1), NatToString(|results|);
    DigitsLack(a, '/');
    DigitsLack(b, '/');
    SplitPairChar(a, '/', b);
    ParseNatToString(index + 1);
    ParseNatToString(|results|);
  }

  /** `update_page_number_label`: the one-based page number. */
  function PageLabel(page: nat): (text: string)
    ensures |text| > 0 && AllDigits(text) && text[0] != '0'
  {
    NatToString(page + 1)
  }

  lemma PageLabelValue(page: nat)
    ensures ParseNat(PageLabel(page)) == page + 1
  {
    ParseNatToString(page + 1);
  }

  // ---------------------------------------------------------------------
  // The window
  // ---------------------------------------------------------------------

  class App {
    const scraper: SiteList.RiverDataScraper
    var cells: seq<seq<Option<string>>>
    var columnCount: nat
    var searchResults: seq<(nat, nat)>
    var searchIndex: int
    var countLabel: string
    var pageLabel: string

    /** The scraper's page is never negative, every row has the table's
        column count, and with hits the index points at one of them. */
    predicate Valid()
      reads this, scraper
    {
      && scraper.Valid()
      && (forall r | 0 <= r < |cells| :: |cells[r]| == columnCount)
      && (searchResults != [] ==> 0 <= searchIndex < |searchResults|)
    }

    /** Every hit names a cell of the table that holds an item, so
        `tableWidget.item(row, column)` finds something to colour. */
    predicate HitsShown()
      reads this
    {
      forall k | 0 <= k < |searchResults| ::
        searchResults[k].0 < |cells| && searchResults[k].1 < |cells[searchResults[k].0]| &&
        searchResults[k].1 != 5 && cells[searchResults[k].0][searchResults[k].1].Some?
    }

    /** The code files are given as their loaded contents. */
    constructor(ken: map<string, string>, suikei: map<string, string>, komoku: map<string, string>)
      ensures Valid() && fresh(scraper)
      ensures scraper.pageNumber == 0 && scraper.baseUrl == SrchSiteUrl
      ensures cells == [] && columnCount == 5 && searchResults == [] && searchIndex == -1
      ensures countLabel == "" && pageLabel == "1"
    {
      scraper := new SiteList.RiverDataScraper(SrchSiteUrl, ken, suikei, komoku);
      cells := [];
      columnCount := 5;
      searchResults := [];
      searchIndex := -1;
      countLabel := "";
      pageLabel := "1";
    }

    method UpdateSearchCount()
      requires Valid()
      modifies this
      ensures Valid() && countLabel == CountLabel(searchResults, searchIndex)
      ensures cells == old(cells) && columnCount == old(columnCount)
      ensures searchResults == old(searchResults) && searchIndex == old(searchIndex)
      ensures pageLabel == old(pageLabel)
    {
      countLabel := CountLabel(searchResults, searchIndex);
    }

    /** `on_search` with the search field's text: an empty query changes
        nothing; otherwise the hits are recomputed over the whole table and
        the first one, if any, becomes current. */
    method OnSearch(text: string)
      requires Valid()
      modifies this
      ensures Valid()
      ensures cells == old(cells) && columnCount == old(columnCount) && pageLabel == old(pageLabel)
      ensures text == [] ==>
        searchResults == old(searchResults) && searchIndex == old(searchIndex) && countLabel == old(countLabel)
      ensures text != [] ==> searchResults == GridHits(cells, Lower(text), |cells|)
      ensures text != [] ==> searchIndex == (if searchResults != [] then 0 else -1)
      ensures text != [] ==> countLabel == CountLabel(searchResults, searchIndex)
      ensures text != [] ==> HitsShown()
    {
      var q := Lower(text);
      if q == [] {
        return;
      }
      searchResults := [];
      searchIndex := -1;
      for row := 0 to |cells|
        invariant cells == old(cells) && columnCount == old(columnCount) && pageLabel == old(pageLabel)
        invariant searchResults == GridHits(cells, q, row)
        invariant searchIndex == -1
      {
        for column := 0 to columnCount
          invariant cells == old(cells) && columnCount == old(columnCount) && pageLabel == old(pageLabel)
          invariant searchResults == GridHits(cells, q, row) + RowHits(cells, q, row, column)
          invariant searchIndex == -1
        {
          if column != 5 && cells[row][column].Some? && Contains(Lower(cells[row][column].value), q) {
            searchResults := searchResults + [(row, column)];
          }
        }
      }
      if searchResults != [] {
        searchIndex := 0;
      }
      UpdateSearchCount();
      GridHitsSpec(cells, q, |cells|);
      assert forall k | 0 <= k < |searchResults| :: searchResults[k] in GridHits(cells, q, |cells|);
    }

    /** `on_next_search`: one hit forward, never past the last. Moving
        re-colours every hit first; a hit whose cell is gone (the table was
        redrawn after the search) makes that raise before the label is
        updated, which `raised` reports. */
    method OnNextSearch() returns (raised: bool)
      requires Valid()
      modifies this
      ensures Valid()
      ensures cells == old(cells) && columnCount == old(columnCount) && pageLabel == old(pageLabel)
      ensures searchResults == old(searchResults)
      ensures var moved := searchResults != [] && old(searchIndex) < |searchResults| - 1;
        && searchIndex == (if moved then old(searchIndex) + 1 else old(searchIndex))
        && (raised <==> moved && !HitsShown())
        && countLabel == (if moved && !raised then CountLabel(searchResults, searchIndex) else old(countLabel))
    {
      raised := false;
      if searchResults != [] && searchIndex < |searchResults| - 1 {
        searchIndex := searchIndex + 1;
        if !HitsShown() {
          return true;
        }
        UpdateSearchCount();
      }
    }

    /** `on_prev_search`: one hit back, never before the first; a stale
        hit makes the re-colouring raise as in `OnNextSearch`. */
    method OnPrevSearch() returns (raised: bool)
      requires Valid()
      modifies this
      ensures Valid()
      ensures cells == old(cells) && columnCount == old(columnCount) && pageLabel == old(pageLabel)
      ensures searchResults == old(searchResults)
      ensures var moved := searchResults != [] && old(searchIndex) > 0;
        && searchIndex == (if moved then old(searchIndex) - 1 else old(searchIndex))
        && (raised <==> moved && !HitsShown())
        && countLabel == (if moved && !raised then CountLabel(searchResults, searchIndex) else old(countLabel))
    {
      raised := false;
      if searchResults != [] && searchIndex > 0 {
        searchIndex := searchIndex - 1;
        if !HitsShown() {
          return true;
        }
        UpdateSearchCount();
      }
    }

    /** `reset_search`: the table is emptied and the hits dropped; the
        index is left as it was. */
    method ResetSearch()
      requires Valid()
      modifies this
      ensures Valid()
      ensures cells == [] && columnCount == old(columnCount) && pageLabel == old(pageLabel)
      ensures searchResults == [] && searchIndex == old(searchIndex) && countLabel == ""
    {
      cells := [];
      searchResults := [];
      UpdateSearchCount();
    }

    /** `clear_search`: the hits are dropped and the table kept. */
    method ClearSearch()
      requires Valid()
      modifies this
      ensures Valid()
      ensures cells == old(cells) && columnCount == old(columnCount) && pageLabel == old(pageLabel)
      ensures searchResults == [] && searchIndex == old(searchIndex) && countLabel == ""
    {
      searchResults := [];
      UpdateSearchCount();
    }

    /** `on_next_page` up to the reload, which is left out. */
    method OnNextPage()
      requires Valid()
      modifies this, scraper
      ensures Valid()
      ensures scraper.pageNumber == old(scraper.pageNumber) + 1 && scraper.data == old(scraper.data)
      ensures pageLabel == PageLabel(scraper.pageNumber)
      ensures cells == [] && searchResults == [] && countLabel == ""
      ensures searchIndex == old(searchIndex) && columnCount == old(columnCount)
    {
      scraper.IncrementPage();
      pageLabel := PageLabel(scraper.pageNumber);
      ResetSearch();
    }

    /** `on_prev_page` up to the reload: back one page, never before the first. */
    method OnPrevPage()
      requires Valid()
      modifies this, scraper
      ensures Valid()
      ensures scraper.pageNumber == SiteList.Move(old(scraper.pageNumber), SiteList.Prev)
      ensures scraper.data == old(scraper.data)
      ensures pageLabel == PageLabel(scraper.pageNumber)
      ensures cells == [] && searchResults == [] && countLabel == ""
      ensures searchIndex == old(searchIndex) && columnCount == old(columnCount)
    {
      scraper.DecrementPage();
      pageLabel := PageLabel(scraper.pageNumber);
      ResetSearch();
    }

    /** `on_start_button_clicked` up to the reload. */
    method OnStartButtonClicked()
      requires Valid()
      modifies this, scraper
      ensures Valid()
      ensures scraper.pageNumber == 0 && scraper.data == old(scraper.data) && pageLabel == "1"
      ensures cells == old(cells) && searchResults == old(searchResults)
      ensures searchIndex == old(searchIndex) && countLabel == old(countLabel) && columnCount == old(columnCount)
    {
      scraper.ResetPageNumber();
      pageLabel := PageLabel(scraper.pageNumber);
    }

    /** `updateTable` with the scraper's data: the shown rows replace the
        table; with no data, or no row worth showing, the page steps back
        when it can (the reload that follows is left out). */
    method UpdateTable(data: seq<seq<string>>, dataEmpty: bool)
      requires Valid()
      modifies this, scraper
      ensures Valid()
      ensures dataEmpty ==> cells == old(cells) && columnCount == old(columnCount)
      ensures !dataEmpty ==> cells == DisplayRows(data) && columnCount == 6
      ensures searchResults == old(searchResults) && searchIndex == old(searchIndex)
      ensures countLabel == old(countLabel)
      ensures scraper.data == old(scraper.data)
      ensures var stepBack := (dataEmpty || DisplayRows(data) == []) && old(scraper.pageNumber) > 0;
        && (stepBack ==> scraper.pageNumber == old(scraper.pageNumber) - 1 && pageLabel == PageLabel(scraper.pageNumber))
        && (!stepBack ==> scraper.pageNumber == old(scraper.pageNumber) && pageLabel == old(pageLabel))
    {
      if dataEmpty {
        if scraper.pageNumber > 0 {
          scraper.DecrementPage();
          pageLabel := PageLabel(scraper.pageNumber);
        }
        return;
      }
      cells := [];
      columnCount := 6;
      for n := 0 to |data|
        invariant cells == DisplayRows(data[..n])
        invariant columnCount == 6 && searchResults == old(searchResults) && searchIndex == old(searchIndex)
        invariant scraper.pageNumber == old(scraper.pageNumber) && scraper.data == old(scraper.data)
        invariant pageLabel == old(pageLabel) && countLabel == old(countLabel)
      {
        assert data[..n + 1][..n] == data[..n];
        if KeepRow(data[n]) {
          cells := cells + [DisplayRow(data[n])];
        }
      }
      assert data[..|data|] == data;
      if cells == [] && scraper.pageNumber > 0 {
        scraper.DecrementPage();
        pageLabel := PageLabel(scraper.pageNumber);
      }
    }

    /** The crawler thread's `run` (without the server check and the log)
        and the `updateTable` it signals: the scraper reads the current
        page; a scrape that raises is only logged and the table stays as
        it was, otherwise the scraper's data is shown. */
    method Crawl(fetch: string -> seq<SiteList.SiteRow>, ken: string, suikei: string, komoku: string)
      returns (raised: bool)
      requires Valid()
      modifies this, scraper
      ensures Valid()
      ensures var url := SiteList.ListUrl(scraper.baseUrl, ken, suikei, komoku, old(scraper.pageNumber));
        var scan := SiteList.ScrapeRows(SiteList.Body(fetch(url)), suikei);
        raised == scan.raised && scraper.data == scan.data
      ensures raised || scraper.data == [] ==> cells == old(cells) && columnCount == old(columnCount)
      ensures !raised && scraper.data != [] ==> cells == DisplayRows(scraper.data) && columnCount == 6
      ensures var stepBack := !raised && DisplayRows(scraper.data) == [] && old(scraper.pageNumber) > 0;
        && (stepBack ==> scraper.pageNumber == old(scraper.pageNumber) - 1 && pageLabel == PageLabel(scraper.pageNumber))
        && (!stepBack ==> scraper.pageNumber == old(scraper.pageNumber) && pageLabel == old(pageLabel))
      ensures searchResults == old(searchResults) && searchIndex == old(searchIndex)
      ensures countLabel == old(countLabel)
    {
      raised := scraper.ScrapeData(fetch, ken, suikei, komoku);
      if !raised {
        UpdateTable(scraper.data, |scraper.data| == 0);
      }
    }
  }
}

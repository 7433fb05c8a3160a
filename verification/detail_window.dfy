/** `DetailInfoWindow`: the station window that picks a handler for the
    station's data type and kind, draws the availability table, and on
    confirmation checks the requested years against the table before any
    download starts. Widgets and message boxes are left out; what they would
    show is returned as a value. */
module DetailWindow {
  import opened Wrappers
  import opened Text
  import opened Planner
  import opened DetailPage
  import opened Downloader
  import DateInput
  import Observation

  // ---------------------------------------------------------------------
  // get_data_type and the kind dispatch
  // ---------------------------------------------------------------------

  const UnknownData := "UnknownData"

  /** `get_data_type`: the code's class-name prefix, `UnknownData` for any
      other code (including no code at all). */
  function DataTypeName(code: Option<nat>): (name: string)
    ensures code.Some? && code.value < |Observation.DataTypeNames| ==> name == Observation.DataTypeNames[code.value]
    ensures name == UnknownData <==> !(code.Some? && code.value < |Observation.DataTypeNames|)
  {
    if code.Some? && code.value < |Observation.DataTypeNames| then Observation.DataTypeNames[code.value]
    else UnknownData
  }

  /** The names the page matcher reports and the prefixes the downloaders and
      `data_type_decorator` use agree for rain (code 0) and water (code 1). */
  lemma PrefixesAgree()
    ensures DataTypeName(Some(0)) == ClassName(Rain) && DataTypeName(Some(1)) == ClassName(Water)
    ensures DateInput.ClassPrefix("rain") == Ok(ClassName(Rain))
    ensures DateInput.ClassPrefix("water") == Ok(ClassName(Water))
  {
  }

  /** What a detail window does with a data type and kind: set up a handler,
      need a handler class the downloaders do not define (water kinds 5 to 8),
      show "Not Supported Data Type", or show "Not Supported Yet". */
  datatype Dispatch =
    | Handle(kind: DataKind, variant: Variant)
    | HandlerMissing(variant: Variant)
    | NotSupportedDataType
    | NotSupportedYet

  /** Kinds 1 and 5 plan exact months, 2 and 6 padded months, 3 and 7 years,
      4 and 8 one period. */
  function VariantOfKind(kindValue: nat): (v: Variant)
    requires 1 <= kindValue <= 8
    ensures kindValue > 4 ==> v == VariantOfKind(kindValue - 4)
    ensures v == MonthlyExact || v == MonthlyPadded <==> kindValue in {1, 2, 5, 6}
    ensures v == Yearly <==> kindValue in {3, 7}
    ensures v == Period <==> kindValue in {4, 8}
  {
    match (kindValue - 1) % 4
    case 0 => MonthlyExact
    case 1 => MonthlyPadded
    case 2 => Yearly
    case _ => Period
  }

  /** `process_data` after `int(kind_value)`, with `handle_data_rain` and
      `handle_data_water`. */
  function DispatchKind(dataType: string, kindValue: nat): (d: Dispatch)
    ensures d.Handle? <==> (dataType == ClassName(Rain) || dataType == ClassName(Water)) && 1 <= kindValue <= 4
    ensures d.Handle? ==> ClassName(d.kind) == dataType && d.variant == VariantOfKind(kindValue)
    ensures d.HandlerMissing? <==> dataType == ClassName(Water) && 5 <= kindValue <= 8
    ensures d.HandlerMissing? ==> d.variant == VariantOfKind(kindValue - 4)
    ensures d == NotSupportedYet <==> dataType != ClassName(Rain) && dataType != ClassName(Water)
  {
    if dataType == "SrchRainData" then
      if 1 <= kindValue <= 4 then Handle(Rain, VariantOfKind(kindValue)) else NotSupportedDataType
    else if dataType == "SrchWaterData" then
      if 1 <= kindValue <= 4 then Handle(Water, VariantOfKind(kindValue))
      else if 5 <= kindValue <= 8 then HandlerMissing(VariantOfKind(kindValue))
      else NotSupportedDataType
    else NotSupportedYet
  }

  /** `process_data`: `int(kind_value)` is taken before the data type is
      looked at, so a page without a kind (None) raises; the result is then
      None. */
  function ProcessData(site: Observation.SitePage, name: string): (d: Option<Dispatch>)
    ensures d.None? <==> !Observation.CheckNameInPage(site, name).0
    ensures site.status != 200 ==> d.None?
  {
    var (present, kind) := Observation.CheckNameInPage(site, name);
    if kind.None? then None
    else Some(DispatchKind(DataTypeName(Observation.CheckDataType(site)), ParseNat(kind.value)))
  }

  /** A handler is set up only for a site page that links a rain or water
      data type and names the station's kind, and then the kind is the
      number in the first matching anchor. */
  lemma ProcessDataHandles(site: Observation.SitePage, name: string)
    requires ProcessData(site, name).Some? && ProcessData(site, name).value.Handle?
    ensures var c := Observation.CheckDataType(site);
      c == Some(0) || c == Some(1)
    ensures var k := Observation.CheckNameInPage(site, name).1;
      k.Some? && 1 <= ParseNat(k.value) <= 4 &&
      ProcessData(site, name).value.variant == VariantOfKind(ParseNat(k.value))
  {
    var c := Observation.CheckDataType(site);
    var nm := DataTypeName(c);
    assert nm == ClassName(Rain) || nm == ClassName(Water);
    if c.Some? && c.value < |Observation.DataTypeNames| {
      assert Observation.DataTypeNames[c.value] == nm;
    }
  }

  // ---------------------------------------------------------------------
  // validate_years_range
  // ---------------------------------------------------------------------

  /** `[str(year) for year in range(start_year, end_year + 1)]`. */
  function RequiredYears(sy: nat, ey: nat): (ys: seq<string>)
    ensures |ys| == if sy <= ey then ey - sy + 1 else 0
    ensures forall i | 0 <= i < |ys| :: ys[i] == NatToString(sy + i)
  {
    if sy > ey then [] else seq(ey - sy + 1, i requires 0 <= i => NatToString(sy + i))
  }

  /** Each year of the range, written in decimal, is among `filtered`. */
  predicate YearsAmong(filtered: seq<string>, sy: nat, ey: nat)
  {
    forall y: nat | sy <= y <= ey :: NatToString(y) in filtered
  }

  /** `validate_years_range` once the years are filtered: every required
      year is among them. An inverted range requires nothing. */
  function ValidateYearsRange(filtered: seq<string>, sy: nat, ey: nat): (ok: bool)
    ensures ok <==> YearsAmong(filtered, sy, ey)
    ensures sy > ey ==> ok
  {
    var required := RequiredYears(sy, ey);
    RequiredAmong(filtered, sy, ey);
    forall i | 0 <= i < |required| :: required[i] in filtered
  }

  /** Every required year is among `filtered` exactly when each year of the
      range is. */
  lemma RequiredAmong(filtered: seq<string>, sy: nat, ey: nat)
    ensures var required := RequiredYears(sy, ey);
      (forall i | 0 <= i < |required| :: required[i] in filtered) <==> YearsAmong(filtered, sy, ey)
  {
    var required := RequiredYears(sy, ey);
    if forall i | 0 <= i < |required| :: required[i] in filtered {
      forall y: nat | sy <= y <= ey ensures NatToString(y) in filtered {
        assert required[y - sy] == NatToString(y);
      }
    }
    if YearsAmong(filtered, sy, ey) {
      forall i | 0 <= i < |required| ensures required[i] in filtered {
        var y: nat := sy + i;
        assert required[i] == NatToString(y);
      }
    }
  }

  /** Some record for year `y` is marked `ari`. */
  predicate AriYear(rs: seq<Record>, y: nat)
  {
    exists r | r in rs :: r.ari && Year(r) == NatToString(y)
  }

  /** Every year of the range has a record marked `ari`. */
  predicate AriCovers(rs: seq<Record>, sy: nat, ey: nat)
  {
    forall y: nat | sy <= y <= ey :: AriYear(rs, y)
  }

  /** Against records: the range passes on their `ari` years exactly when
      every year in it has an `ari` record. */
  lemma ValidateAgainstRecords(rs: seq<Record>, sy: nat, ey: nat)
    ensures ValidateYearsRange(AriYears(rs), sy, ey) <==> AriCovers(rs, sy, ey)
  {
    if YearsAmong(AriYears(rs), sy, ey) {
      forall y: nat | sy <= y <= ey ensures AriYear(rs, y) {
        AriYearsMembers(rs, NatToString(y));
      }
      assert AriCovers(rs, sy, ey);
    }
    if AriCovers(rs, sy, ey) {
      forall y: nat | sy <= y <= ey ensures NatToString(y) in AriYears(rs) {
        assert AriYear(rs, y);
        AriYearsMembers(rs, NatToString(y));
      }
      assert YearsAmong(AriYears(rs), sy, ey);
    }
  }

  /** Against the availability table: the range passes exactly when every
      year in it has an `ari` cell. */
  lemma ValidateAgainstTable(page: Page, sy: nat, ey: nat)
    requires TableData(page).Ok?
    requires forall r | r in TableRecords(page.rows).value :: '-' !in r.prefix
    ensures FilterYearsOf(page).Ok?
    ensures ValidateYearsRange(FilterYearsOf(page).value, sy, ey) <==>
      AriCovers(TableRecords(page.rows).value, sy, ey)
  {
    FilterYearsSpec(page);
    ValidateAgainstRecords(TableRecords(page.rows).value, sy, ey);
  }

  // ---------------------------------------------------------------------
  // prepare_table_dict
  // ---------------------------------------------------------------------

  const Nashi := "nashi"

  function NashiRow(): (row: seq<string>)
    ensures |row| == 10 && forall i | 0 <= i < 10 :: row[i] == Nashi
  {
    seq(10, _ => Nashi)
  }

  /** An entry `"{decade}{d} - {status}"` read back as (decade, d, status);
      None where Python raises (not two parts, an empty year, a last
      character that is not a digit). */
  function ParseEntry(e: string): (r: Option<(string, nat, string)>)
    ensures r.Some? ==> r.value.1 < 10
  {
    var parts := Split(e, " - ");
    if |parts| != 2 then None
    else
      var year := parts[0];
      if |year| == 0 || !IsDigit(year[|year| - 1]) then None
      else Some((year[..|year| - 1], DigitValue(year[|year| - 1]), parts[1]))
  }

  /** Every printed table entry reads back as its decade, offset and status. */
  lemma ParseRender(r: Record)
    requires r.offset <= 9 && '-' !in r.prefix
    ensures ParseEntry(Render(r)) == Some((r.prefix, r.offset, StatusText(r.ari)))
  {
    SplitRender(r);
    var year := Year(r);
    assert NatToString(r.offset) == [DigitChar(r.offset)];
    assert year == r.prefix + [DigitChar(r.offset)];
    assert year[..|year| - 1] == r.prefix;
  }

  /** The dictionary with its keys in insertion order. */
  datatype DecadeTable = DecadeTable(keys: seq<string>, rows: map<string, seq<string>>)

  /** Keys without repeats, exactly the dictionary's keys, ten slots each. */
  predicate WellFormed(t: DecadeTable)
  {
    (forall i, j | 0 <= i < j < |t.keys| :: t.keys[i] != t.keys[j]) &&
    (forall d | d in t.rows :: d in t.keys) &&
    (forall d | d in t.keys :: d in t.rows) &&
    (forall d | d in t.rows :: |t.rows[d]| == 10)
  }

  /** One loop iteration: a new decade gets ten `nashi` slots, then the
      entry's slot is set. */
  function Put(t: DecadeTable, d: string, i: nat, s: string): (u: DecadeTable)
    requires WellFormed(t) && i < 10
    ensures WellFormed(u)
    ensures forall x :: x in u.rows <==> x in t.rows || x == d
    ensures u.keys == if d in t.rows then t.keys else t.keys + [d]
  {
    var row := if d in t.rows then t.rows[d] else NashiRow();
    var u := DecadeTable(if d in t.rows then t.keys else t.keys + [d], t.rows[d := row[i := s]]);
    u
  }

  /** `Put` as the loop performs it: first the new row, then the slot. */
  lemma PutInPlace(keys: seq<string>, rows: map<string, seq<string>>, d: string, i: nat, s: string)
    requires WellFormed(DecadeTable(keys, rows)) && i < 10
    ensures var rows1 := if d in rows then rows else rows[d := NashiRow()];
      var keys1 := if d in rows then keys else keys + [d];
      DecadeTable(keys1, rows1[d := rows1[d][i := s]]) == Put(DecadeTable(keys, rows), d, i, s)
  {
  }

  /** The table after the given entries, None once an entry raises. */
  function TableDict(es: seq<string>): (r: Option<DecadeTable>)
    ensures r.Some? ==> WellFormed(r.value)
    decreases |es|
  {
    if es == [] then Some(DecadeTable([], map[]))
    else
      match TableDict(es[..|es| - 1])
      case None => None
      case Some(t) =>
        match ParseEntry(es[|es| - 1])
        case None => None
        case Some(p) => Some(Put(t, p.0, p.1, p.2))
  }

  /** The reference reading of a slot: the status of the last entry for that
      decade and slot, `nashi` if there is none. */
  function SlotValue(es: seq<string>, d: string, i: nat): string
    decreases |es|
  {
    if es == [] then Nashi
    else
      var p := ParseEntry(es[|es| - 1]);
      if p.Some? && p.value.0 == d && p.value.1 == i then p.value.2
      else SlotValue(es[..|es| - 1], d, i)
  }

  /** The decade of an entry that reads back. */
  predicate HasDecade(e: string, d: string)
  {
    ParseEntry(e).Some? && ParseEntry(e).value.0 == d
  }

  lemma {:induction false} TableDictNonePersists(es: seq<string>, n: nat)
    requires n <= |es| && TableDict(es[..n]).None?
    ensures TableDict(es).None?
    decreases |es| - n
  {
    if n < |es| {
      assert es[..n + 1][..n] == es[..n];
      TableDictNonePersists(es, n + 1);
    } else {
      assert es[..n] == es;
    }
  }

  /** One step of the fold, unfolded once. */
  lemma TableDictStep(es: seq<string>)
    requires es != [] && TableDict(es).Some?
    ensures TableDict(es[..|es| - 1]).Some? && ParseEntry(es[|es| - 1]).Some?
    ensures var p := ParseEntry(es[|es| - 1]).value;
      TableDict(es) == Some(Put(TableDict(es[..|es| - 1]).value, p.0, p.1, p.2))
  {
  }

  /** The fold over the first `n + 1` entries is one `Put` past the fold over
      the first `n`. */
  lemma TableDictExtend(es: seq<string>, n: nat)
    requires n < |es| && TableDict(es[..n]).Some? && ParseEntry(es[n]).Some?
    ensures var p := ParseEntry(es[n]).value;
      TableDict(es[..n + 1]) == Some(Put(TableDict(es[..n]).value, p.0, p.1, p.2))
  {
    assert es[..n + 1][..n] == es[..n];
  }

  /** The table is built exactly when every entry reads back. */
  lemma {:induction false} TableDictDefined(es: seq<string>)
    ensures TableDict(es).Some? <==> forall e | e in es :: ParseEntry(e).Some?
    decreases |es|
  {
    if es != [] {
      var init, last := es[..|es| - 1], es[|es| - 1];
      assert es == init + [last];
      TableDictDefined(init);
      if forall e | e in es :: ParseEntry(e).Some? {
        assert forall e | e in init :: e in es;
        assert last in es;
      }
      if TableDict(es).Some? {
        TableDictStep(es);
        forall e | e in es ensures ParseEntry(e).Some? {
          if e != last { assert e in init; }
        }
      }
    }
  }

  /** The index of the first entry of decade `d`; `|es|` when there is none. */
  function FirstIndex(es: seq<string>, d: string): (k: nat)
    ensures k <= |es|
    decreases |es|
  {
    if es == [] then 0
    else
      var k0 := FirstIndex(es[..|es| - 1], d);
      if k0 < |es| - 1 then k0
      else if HasDecade(es[|es| - 1], d) then |es| - 1
      else |es|
  }

  /** The first index is where decade `d` first occurs, and it is `|es|`
      exactly when `d` does not occur at all. */
  lemma {:induction false} FirstIndexSpec(es: seq<string>, d: string)
    ensures FirstIndex(es, d) < |es| ==> HasDecade(es[FirstIndex(es, d)], d)
    ensures forall q | 0 <= q < FirstIndex(es, d) :: !HasDecade(es[q], d)
    decreases |es|
  {
    if es != [] {
      var init := es[..|es| - 1];
      FirstIndexSpec(init, d);
      forall q | 0 <= q < FirstIndex(es, d) ensures !HasDecade(es[q], d) {
        if q < |init| { assert es[q] == init[q]; }
      }
      if FirstIndex(init, d) < |init| {
        assert es[FirstIndex(es, d)] == init[FirstIndex(init, d)];
      }
    }
  }

  /** The table holds a key for exactly the decades that occur. */
  lemma {:induction false} TableDictKeys(es: seq<string>)
    requires TableDict(es).Some?
    ensures forall d :: d in TableDict(es).value.rows <==> FirstIndex(es, d) < |es|
    decreases |es|
  {
    if es != [] {
      var init := es[..|es| - 1];
      TableDictStep(es);
      TableDictKeys(init);
      var d := ParseEntry(es[|es| - 1]).value.0;
      assert HasDecade(es[|es| - 1], d);
    }
  }

  /** Every slot reads as the status of the last entry for it, `nashi` if
      there is none; a later entry overwrites an earlier one. */
  lemma {:induction false} TableDictSlots(es: seq<string>)
    requires TableDict(es).Some?
    ensures var t := TableDict(es).value;
      forall d, i | d in t.rows && 0 <= i < 10 :: t.rows[d][i] == SlotValue(es, d, i)
    decreases |es|
  {
    if es != [] {
      var init := es[..|es| - 1];
      TableDictStep(es);
      TableDictSlots(init);
      TableDictKeys(init);
      var t0, t := TableDict(init).value, TableDict(es).value;
      var (d, i, s) := ParseEntry(es[|es| - 1]).value;
      if d !in t0.rows {
        forall m | 0 <= m < 10 && m != i ensures SlotValue(init, d, m) == Nashi {
          SlotValueAbsent(init, d, m);
        }
      }
    }
  }

  /** Keys stand in the order their decades first occur. */
  lemma {:induction false} TableDictOrder(es: seq<string>)
    requires TableDict(es).Some?
    ensures var t := TableDict(es).value;
      forall j, k | 0 <= j < k < |t.keys| :: FirstIndex(es, t.keys[j]) < FirstIndex(es, t.keys[k])
    decreases |es|
  {
    if es != [] {
      var init := es[..|es| - 1];
      TableDictStep(es);
      TableDictOrder(init);
      TableDictKeys(init);
      var t0, t := TableDict(init).value, TableDict(es).value;
      var d := ParseEntry(es[|es| - 1]).value.0;
      assert HasDecade(es[|es| - 1], d);
      forall j, k | 0 <= j < k < |t.keys| ensures FirstIndex(es, t.keys[j]) < FirstIndex(es, t.keys[k]) {
        assert t0.keys[j] in t0.rows;
        if k < |t0.keys| {
          assert t0.keys[k] in t0.rows;
        }
      }
    }
  }

  /** A decade that never occurs leaves its slots at `nashi`. */
  lemma {:induction false} SlotValueAbsent(es: seq<string>, d: string, i: nat)
    requires FirstIndex(es, d) == |es|
    ensures SlotValue(es, d, i) == Nashi
    decreases |es|
  {
    if es != [] {
      SlotValueAbsent(es[..|es| - 1], d, i);
    }
  }

  /** The table of a page's entries never raises. */
  lemma TableDictOfPage(page: Page)
    requires TableData(page).Ok?
    requires forall r | r in TableRecords(page.rows).value :: '-' !in r.prefix
    ensures TableDict(TableData(page).value).Some?
  {
    var rs := TableRecords(page.rows).value;
    TableRecordsShape(page.rows);
    TableDictOfRecords(rs);
  }

  lemma {:induction false} TableDictOfRecords(rs: seq<Record>)
    requires forall r | r in rs :: r.offset <= 9 && '-' !in r.prefix
    ensures TableDict(RenderAll(rs)).Some?
    decreases |rs|
  {
    if rs != [] {
      var init := rs[..|rs| - 1];
      var last := rs[|rs| - 1];
      assert rs == init + [last];
      RenderAllAppend(init, [last]);
      forall r | r in init ensures r.offset <= 9 && '-' !in r.prefix {
        assert r in rs;
      }
      TableDictOfRecords(init);
      var es := RenderAll(rs);
      assert es[..|es| - 1] == RenderAll(init);
      assert es[|es| - 1] == Render(last);
      ParseRender(last);
    }
  }

  /** `prepare_table_dict`. */
  method PrepareTableDict(tableData: seq<string>) returns (r: Option<DecadeTable>)
    ensures r == TableDict(tableData)
  {
    var keys: seq<string> := [];
    var tableDict: map<string, seq<string>> := map[];
    for n := 0 to |tableData|
      invariant TableDict(tableData[..n]) == Some(DecadeTable(keys, tableDict))
    {
      var entry := ParseEntry(tableData[n]);
      if entry.None? {
        assert tableData[..n + 1][..n] == tableData[..n];
        TableDictNonePersists(tableData, n + 1);
        return None;
      }
      var (decade, slot, status) := entry.value;
      TableDictExtend(tableData, n);
      PutInPlace(keys, tableDict, decade, slot, status);
      if decade !in tableDict {
        tableDict := tableDict[decade := NashiRow()];
        keys := keys + [decade];
      }
      tableDict := tableDict[decade := tableDict[decade][slot := status]];
    }
    assert tableData[..|tableData|] == tableData;
    return Some(DecadeTable(keys, tableDict));
  }

  // ---------------------------------------------------------------------
  // on_data_confirm_*: validate, then download
  // ---------------------------------------------------------------------

  /** What a confirmed span does to the files and to the requests sent: the
      checker's handler and the check each fetch the detail page; a span the
      check passes is then downloaded by a third handler, which fetches the
      page once more and runs the plan's steps, saving into the directory its
      station reading gives. */
  ghost predicate ConfirmOutcome(server: Server, t: Target, v: Variant, sy: nat, sm: nat, ey: nat, em: nat,
                                 files0: map<string, seq<bv8>>, sent0: seq<string>,
                                 files1: map<string, seq<bv8>>, sent1: seq<string>, downloaded: bool)
  {
    var d := DetailUrlOf(t);
    var years := FilterYearsOf(server.detail(d));
    && (downloaded <==> years.Ok? && ValidateYearsRange(years.value, sy, ey))
    && (!downloaded ==> files1 == files0 && sent1 == sent0 + [d, d])
    && (downloaded ==> exists sd, steps ::
          && StationReading(server.detail(d), sd)
          && IsPlan(v, sy, sm, ey, em, steps)
          && files1 == StoreAll(files0, server, t, Directory(t, v, sd), steps)
          && sent1 == sent0 + [d, d, d] + AllRequests(server, t, steps))
  }

  /** `validate_years_range` followed, when it passes, by a new handler's
      download. The check reads the detail page's table; a failing check
      or a table that does not read (where Python raises) downloads
      nothing. */
  method ConfirmAndDownload(portal: Portal, disk: Disk, t: Target, v: Variant, sy: nat, sm: nat, ey: nat, em: nat)
    returns (downloaded: bool)
    modifies portal, disk
    ensures ConfirmOutcome(portal.server, t, v, sy, sm, ey, em,
      old(disk.files), old(portal.sent), disk.files, portal.sent, downloaded)
  {
    var d := DetailUrlOf(t);
    var checker := new Handler(portal, t, v, sy, sm, ey, em);
    var page := portal.GetDetail(d);
    var filtered := FilterYears(page);
    if filtered.Err? || !ValidateYearsRange(filtered.value, sy, ey) {
      return false;
    }
    var handler := new Handler(portal, t, v, sy, sm, ey, em);
    ghost var sent2 := portal.sent;
    assert sent2 == old(portal.sent) + [d, d, d];
    handler.Scrape(portal, disk);
    ghost var steps :| IsPlan(v, sy, sm, ey, em, steps)
      && disk.files == StoreAll(old(disk.files), portal.server, t, handler.SaveDirectory(), steps)
      && portal.sent == sent2 + AllRequests(portal.server, t, steps);
    assert StationReading(portal.server.detail(d), handler.stationData);
    return true;
  }

  /** A confirm button: `data_confirm` reads the two texts ('date' mode for
      the monthly variants, 'year' mode otherwise); a rejection changes
      nothing and sends nothing, an accepted span goes on to the check and
      the download. */
  method OnDataConfirm(portal: Portal, disk: Disk, t: Target, v: Variant, startText: string, endText: string)
    returns (r: Result<bool, DateInput.Rejection>)
    modifies portal, disk
    ensures v == MonthlyExact || v == MonthlyPadded ==>
      (r.Err? <==> DateInput.ConfirmDates(startText, endText).Err?)
    ensures v == Yearly || v == Period ==>
      (r.Err? <==> DateInput.ConfirmYears(startText, endText).Err?)
    ensures r.Err? ==> disk.files == old(disk.files) && portal.sent == old(portal.sent)
    ensures (v == MonthlyExact || v == MonthlyPadded) && r.Ok? ==>
      var span := DateInput.ConfirmDates(startText, endText).value;
      ConfirmOutcome(portal.server, t, v, span.startYear, span.startMonth, span.endYear, span.endMonth,
        old(disk.files), old(portal.sent), disk.files, portal.sent, r.value)
    ensures (v == Yearly || v == Period) && r.Ok? ==>
      var span := DateInput.ConfirmYears(startText, endText).value;
      ConfirmOutcome(portal.server, t, v, span.startYear, 0, span.endYear, 0,
        old(disk.files), old(portal.sent), disk.files, portal.sent, r.value)
  {
    if v == MonthlyExact || v == MonthlyPadded {
      match DateInput.ConfirmDates(startText, endText)
      case Err(e) => return Err(e);
      case Ok(span) =>
        var done := ConfirmAndDownload(portal, disk, t, v, span.startYear, span.startMonth, span.endYear, span.endMonth);
        return Ok(done);
    } else {
      match DateInput.ConfirmYears(startText, endText)
      case Err(e) => return Err(e);
      case Ok(span) =>
        var done := ConfirmAndDownload(portal, disk, t, v, span.startYear, 0, span.endYear, 0);
        return Ok(done);
    }
  }
}

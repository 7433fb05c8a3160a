/** The rain and water downloaders (`SrchRainData_1`..`_4`,
    `SrchWaterData_1`..`_4`). A handler reads its station's detail page once,
    then for every step of its plan asks the data page for a download link,
    fetches the linked `.dat` payload and saves it under a directory named
    after the station. The remote site is a deterministic `Server`, the
    download folder a map from path to bytes. */
module Downloader {
  import opened Wrappers
  import opened Text
  import opened Calendar
  import opened Planner
  import DetailPage

  datatype DataKind = Rain | Water

  /** The `data_type` each family passes to the shared fetchers; it also opens
      the name of the download directory. */
  function ClassName(k: DataKind): string
  {
    match k
    case Rain => "SrchRainData"
    case Water => "SrchWaterData"
  }

  /** The CGI program that answers data queries. */
  function QueryEndpoint(k: DataKind): string
  {
    match k
    case Rain => "DspRainData.exe"
    case Water => "DspWaterData.exe"
  }

  /** A handler's station: data kind, `kind_value` and the `js_detail` id. */
  datatype Target = Target(kind: DataKind, kindValue: nat, id: string)

  /** The detail page the station data is read from. */
  function DetailUrlOf(t: Target): string
  {
    DetailPage.DetailUrl(ClassName(t.kind), t.id, t.kindValue)
  }

  // ---------------------------------------------------------------------
  // URLs and the download token
  // ---------------------------------------------------------------------

  /** The data query for one step. */
  function QueryUrl(t: Target, s: Step): string
  {
    DetailPage.BaseUrl + QueryEndpoint(t.kind) + "?KIND=" + NatToString(t.kindValue) + "&ID=" + t.id
      + "&BGNDATE=" + s.bgnDate + "&ENDDATE=" + s.endDate + "&KAWABOU=NO"
  }

  const DownloadBase := "http://www1.river.go.jp/dat/dload/download/"

  function DownloadUrl(token: string): string
  {
    DownloadBase + token + ".dat"
  }

  /** `href.split('/')[-1].split('.')[0]`: the file stem of the link's last
      path segment, which never holds a `'/'` or a `'.'`. */
  function Token(href: string): (token: string)
    ensures '/' !in token && '.' !in token
  {
    var segments := Split(href, "/");
    var last := segments[|segments| - 1];
    var stems := Split(last, ".");
    SplitPartsFree(last, ".");
    ContainsChar(stems[0], '.');
    SplitPartChars(last, ".", stems[0]);
    SplitPartsFree(href, "/");
    ContainsChar(last, '/');
    stems[0]
  }

  /** A link `{path}/{token}.{ext}` yields back its token. */
  lemma TokenOfLink(path: string, token: string, ext: string)
    requires '/' !in token && '/' !in ext && '.' !in token
    ensures Token(path + "/" + token + "." + ext) == token
  {
    var file := token + "." + ext;
    assert '/' !in file;
    assert path + "/" + token + "." + ext == path + ['/'] + file;
    SplitLast(path, '/', file);
    assert file == token + ['.'] + ext;
    SplitCons(token, '.', ext);
  }

  // ---------------------------------------------------------------------
  // The remote site
  // ---------------------------------------------------------------------

  /** The data page's status and the `href` of its first
      `<a href=... target="_blank">`, if it has one. */
  datatype QueryReply = QueryReply(status: int, blankHref: Option<string>)

  datatype DownloadReply = DownloadReply(status: int, content: seq<bv8>)

  /** Each URL always answers the same. */
  datatype Server = Server(
    detail: string -> DetailPage.Page,
    query: string -> QueryReply,
    download: string -> DownloadReply)

  /** The payload one step saves, if any: the query answered 200 with a
      link, and the linked download answered 200. */
  function Payload(server: Server, t: Target, s: Step): Option<seq<bv8>>
  {
    var q := server.query(QueryUrl(t, s));
    if q.status != 200 || q.blankHref.None? then None
    else
      var d := server.download(DownloadUrl(Token(q.blankHref.value)));
      if d.status == 200 then Some(d.content) else None
  }

  /** The URLs one step requests, in order. */
  function StepRequests(server: Server, t: Target, s: Step): seq<string>
  {
    var q := server.query(QueryUrl(t, s));
    if q.status != 200 || q.blankHref.None? then [QueryUrl(t, s)]
    else [QueryUrl(t, s), DownloadUrl(Token(q.blankHref.value))]
  }

  function AllRequests(server: Server, t: Target, steps: seq<Step>): seq<string>
  {
    if |steps| == 0 then []
    else AllRequests(server, t, steps[..|steps| - 1]) + StepRequests(server, t, steps[|steps| - 1])
  }

  /** Every step sends its query, and a download request only when the query
      answered 200 with a link; so a plan sends at least one request per step
      and at most two. */
  lemma {:induction false} RequestsPerStep(server: Server, t: Target, steps: seq<Step>)
    ensures |steps| <= |AllRequests(server, t, steps)| <= 2 * |steps|
  {
    if |steps| > 0 {
      RequestsPerStep(server, t, steps[..|steps| - 1]);
    }
  }

  /** Every step's query is sent, and so is the download request of every
      step that got a payload. */
  lemma {:induction false} RequestsCoverSteps(server: Server, t: Target, steps: seq<Step>)
    ensures forall s | s in steps :: QueryUrl(t, s) in AllRequests(server, t, steps)
    ensures forall s | s in steps && Payload(server, t, s).Some? ::
      DownloadUrl(Token(server.query(QueryUrl(t, s)).blankHref.value)) in AllRequests(server, t, steps)
  {
    if |steps| > 0 {
      var init, last := steps[..|steps| - 1], steps[|steps| - 1];
      RequestsCoverSteps(server, t, init);
      var sent := AllRequests(server, t, steps);
      assert sent == AllRequests(server, t, init) + StepRequests(server, t, last);
      forall s | s in steps ensures QueryUrl(t, s) in sent {
        if s != last { assert s in init; }
      }
      forall s | s in steps && Payload(server, t, s).Some?
        ensures DownloadUrl(Token(server.query(QueryUrl(t, s)).blankHref.value)) in sent
      {
        if s != last { assert s in init; }
      }
    }
  }

  // ---------------------------------------------------------------------
  // The download directory
  // ---------------------------------------------------------------------

  const Unknown := "Unknown"

  /** `{水系名}_{河川名}_{観測所名}`, each `Unknown` when the dictionary lacks it. */
  function StationPart(st: Option<DetailPage.Station>): string
  {
    match st
    case None => Unknown + "_" + Unknown + "_" + Unknown
    case Some(s) => s.system + "_" + s.river + "_" + s.name
  }

  /** `./Download/{class}_{kind}_`, the part every directory of a handler shares. */
  function DirectoryHead(t: Target): string
  {
    "./Download/" + ClassName(t.kind) + "_" + NatToString(t.kindValue) + "_"
  }

  /** The directory for a station dictionary. Only the yearly variant tests the
      dictionary first and uses `{js_detail}` for the empty one. */
  function DirectoryOf(t: Target, v: Variant, st: Option<DetailPage.Station>): (dir: string)
    ensures v == Yearly && st.None? ==> dir == DirectoryHead(t) + t.id
    ensures v != Yearly || st.Some? ==> dir == DirectoryHead(t) + StationPart(st)
  {
    if v == Yearly && st.None? then DirectoryHead(t) + t.id else DirectoryHead(t) + StationPart(st)
  }

  /** `save_to_file` as written: `.get` on a returned sentinel string raises,
      and there is then no directory and no file. */
  function DirectoryAsWritten(t: Target, v: Variant, stationData: Result<Option<DetailPage.Station>, string>)
    : (dir: Option<string>)
    ensures dir.None? <==> stationData.Err?
  {
    match stationData
    case Err(_) => None
    case Ok(st) => Some(DirectoryOf(t, v, st))
  }

  /** The directory the model saves to: a sentinel counts as a station whose
      three names are all `Unknown`, for every variant; otherwise the
      directory is the one the code builds. */
  function Directory(t: Target, v: Variant, stationData: Result<Option<DetailPage.Station>, string>)
    : (dir: string)
    ensures stationData.Ok? ==> DirectoryAsWritten(t, v, stationData) == Some(dir)
    ensures stationData.Err? ==> dir == DirectoryHead(t) + StationPart(None)
    ensures DirectoryHead(t) <= dir
  {
    match stationData
    case Err(_) => DirectoryHead(t) + StationPart(None)
    case Ok(st) => DirectoryOf(t, v, st)
  }

  /** The discrepancy: a detail page that does not answer 200, or answers
      without the `border=1` station table, gives a sentinel; the code as
      written then has no directory to save into, while the corrected
      directory is the `Unknown` one, whatever the variant. */
  lemma SentinelBreaksSave(t: Target, v: Variant, page: DetailPage.Page, r: Result<Option<DetailPage.Station>, string>)
    requires page.status != 200 || page.borderTable.None?
    requires DetailPage.StationReading(page, r)
    ensures r.Err?
    ensures DirectoryAsWritten(t, v, r) == None
    ensures Directory(t, v, r) == DirectoryHead(t) + "Unknown_Unknown_Unknown"
  {
  }

  /** The years check before a download reads only the availability table,
      so a page whose station table is missing passes it exactly when the
      same page with the table would: the `No table found` sentinel reaches
      `save_to_file`. */
  lemma MissingStationTableUnchecked(page: DetailPage.Page, table: seq<DetailPage.Row>)
    requires page.status == 200 && page.borderTable.None?
    ensures DetailPage.FilterYearsOf(page) == DetailPage.FilterYearsOf(page.(borderTable := Some(table)))
    ensures DetailPage.StationReading(page, Err(DetailPage.NoTableText))
  {
  }

  /** With `'_'` inside a station's names, two different stations share a
      directory. */
  lemma DirectoriesCollide(t: Target, v: Variant)
    ensures var a := DetailPage.Station("n", "a_b", "c");
      var b := DetailPage.Station("n", "a", "b_c");
      a != b && DirectoryOf(t, v, Some(a)) == DirectoryOf(t, v, Some(b))
  {
    assert "a_b" + "_" + "c" + "_" + "n" == "a" + "_" + "b_c" + "_" + "n";
  }

  predicate NoUnderscore(st: DetailPage.Station)
  {
    '_' !in st.system && '_' !in st.river && '_' !in st.name
  }

  lemma ClassDirectoryFree(k: DataKind)
    ensures '_' !in "./Download/" + ClassName(k)
  {
    assert '_' !in "./Download/";
    assert '_' !in ClassName(k);
  }

  lemma StationFields(st: DetailPage.Station)
    requires NoUnderscore(st)
    ensures Split(StationPart(Some(st)), "_") == [st.system, st.river, st.name]
  {
    assert StationPart(Some(st)) == st.system + ['_'] + (st.river + ['_'] + st.name);
    SplitCons(st.system, '_', st.river + ['_'] + st.name);
    SplitPairChar(st.river, '_', st.name);
  }

  /** A directory splits at `'_'` into the class, the kind code and the three
      station names, when none of them holds a `'_'`. */
  lemma DirectoryFields(t: Target, v: Variant, st: DetailPage.Station)
    requires NoUnderscore(st)
    ensures Split(DirectoryOf(t, v, Some(st)), "_") ==
      ["./Download/" + ClassName(t.kind), NatToString(t.kindValue), st.system, st.river, st.name]
  {
    var c := "./Download/" + ClassName(t.kind);
    var k := NatToString(t.kindValue);
    var tail := StationPart(Some(st));
    var rest := k + ['_'] + tail;
    ClassDirectoryFree(t.kind);
    DigitsLack(k, '_');
    assert DirectoryOf(t, v, Some(st)) == c + ['_'] + rest by {
      assert "_" == ['_'];
    }
    SplitCons(c, '_', rest);
    SplitCons(k, '_', tail);
    StationFields(st);
    assert "_" == ['_'];
    assert Split(DirectoryOf(t, v, Some(st)), "_") == [c] + ([k] + [st.system, st.river, st.name]);
  }

  /** Without `'_'` in the names, the directory tells the data kind, the kind
      code and the station apart. */
  lemma DirectoryInjective(t1: Target, v1: Variant, s1: DetailPage.Station,
                           t2: Target, v2: Variant, s2: DetailPage.Station)
    requires NoUnderscore(s1) && NoUnderscore(s2)
    requires DirectoryOf(t1, v1, Some(s1)) == DirectoryOf(t2, v2, Some(s2))
    ensures t1.kind == t2.kind && t1.kindValue == t2.kindValue && s1 == s2
  {
    DirectoryFields(t1, v1, s1);
    DirectoryFields(t2, v2, s2);
    var c1, c2 := "./Download/" + ClassName(t1.kind), "./Download/" + ClassName(t2.kind);
    assert c1 == c2;
    NatToStringInjective(t1.kindValue, t2.kindValue);
  }

  // ---------------------------------------------------------------------
  // Saving payloads
  // ---------------------------------------------------------------------

  /** `os.path.join(directory, name)`. */
  function PathOf(dir: string, s: Step): string
  {
    dir + "/" + FileName(s)
  }

  /** The download folder after one step. */
  function Store(files: map<string, seq<bv8>>, server: Server, t: Target, dir: string, s: Step)
    : map<string, seq<bv8>>
  {
    match Payload(server, t, s)
    case None => files
    case Some(content) => files[PathOf(dir, s) := content]
  }

  /** The download folder after a sequence of steps, in order. */
  function StoreAll(files: map<string, seq<bv8>>, server: Server, t: Target, dir: string, steps: seq<Step>)
    : map<string, seq<bv8>>
  {
    if |steps| == 0 then files
    else Store(StoreAll(files, server, t, dir, steps[..|steps| - 1]), server, t, dir, steps[|steps| - 1])
  }

  /** One more step of a plan stores one more payload and sends its requests. */
  lemma PrefixStep(files: map<string, seq<bv8>>, server: Server, t: Target, dir: string, steps: seq<Step>, i: nat)
    requires i < |steps|
    ensures StoreAll(files, server, t, dir, steps[..i + 1]) ==
      Store(StoreAll(files, server, t, dir, steps[..i]), server, t, dir, steps[i])
    ensures AllRequests(server, t, steps[..i + 1]) == AllRequests(server, t, steps[..i]) + StepRequests(server, t, steps[i])
  {
    assert steps[..i + 1][..i] == steps[..i];
  }

  /** A run overrides the folder with what it downloads, whatever was there. */
  lemma {:induction false} StoreAllOverrides(files: map<string, seq<bv8>>, server: Server, t: Target, dir: string, steps: seq<Step>)
    ensures StoreAll(files, server, t, dir, steps) == files + StoreAll(map[], server, t, dir, steps)
  {
    if |steps| > 0 {
      StoreAllOverrides(files, server, t, dir, steps[..|steps| - 1]);
    }
  }

  /** Running the same plan against the same site twice leaves the folder as
      one run does. */
  lemma RunIdempotent(files: map<string, seq<bv8>>, server: Server, t: Target, dir: string, steps: seq<Step>)
    ensures var once := StoreAll(files, server, t, dir, steps);
      StoreAll(once, server, t, dir, steps) == once
  {
    var w := StoreAll(map[], server, t, dir, steps);
    StoreAllOverrides(files, server, t, dir, steps);
    StoreAllOverrides(files + w, server, t, dir, steps);
    assert (files + w) + w == files + w;
  }

  /** Distinct file names give distinct paths in one directory. */
  lemma PathInjective(dir: string, a: Step, b: Step)
    requires PathOf(dir, a) == PathOf(dir, b)
    ensures FileName(a) == FileName(b)
  {
    assert FileName(a) == PathOf(dir, a)[|dir| + 1..];
    assert FileName(b) == PathOf(dir, b)[|dir| + 1..];
  }

  predicate DistinctFiles(steps: seq<Step>)
  {
    forall i, j | 0 <= i < |steps| && 0 <= j < |steps| && i != j :: FileName(steps[i]) != FileName(steps[j])
  }

  /** Some step of the run got a payload and saves it at `p`. */
  predicate Planned(p: string, server: Server, t: Target, dir: string, steps: seq<Step>)
  {
    exists i | 0 <= i < |steps| :: p == PathOf(dir, steps[i]) && Payload(server, t, steps[i]).Some?
  }

  /** Every step of the run that got a payload has it under its own path in `r`. */
  predicate SavesAll(r: map<string, seq<bv8>>, server: Server, t: Target, dir: string, steps: seq<Step>)
  {
    forall i | 0 <= i < |steps| && Payload(server, t, steps[i]).Some? ::
      PathOf(dir, steps[i]) in r && r[PathOf(dir, steps[i])] == Payload(server, t, steps[i]).value
  }

  lemma PlannedInPrefix(p: string, server: Server, t: Target, dir: string, steps: seq<Step>)
    requires |steps| > 0
    ensures Planned(p, server, t, dir, steps) <==>
      Planned(p, server, t, dir, steps[..|steps| - 1]) ||
      (p == PathOf(dir, steps[|steps| - 1]) && Payload(server, t, steps[|steps| - 1]).Some?)
  {
    var init := steps[..|steps| - 1];
    if Planned(p, server, t, dir, init) {
      var i :| 0 <= i < |init| && p == PathOf(dir, init[i]) && Payload(server, t, init[i]).Some?;
      assert init[i] == steps[i];
    }
    if Planned(p, server, t, dir, steps) {
      var i :| 0 <= i < |steps| && p == PathOf(dir, steps[i]) && Payload(server, t, steps[i]).Some?;
      if i < |init| {
        assert init[i] == steps[i];
      }
    }
  }

  /** After a run whose steps name distinct files, every step that got a
      payload has it saved under its own path. */
  lemma {:induction false} StoreAllSaves(files: map<string, seq<bv8>>, server: Server, t: Target, dir: string, steps: seq<Step>)
    requires DistinctFiles(steps)
    ensures SavesAll(StoreAll(files, server, t, dir, steps), server, t, dir, steps)
  {
    if |steps| > 0 {
      var n := |steps| - 1;
      var init, last := steps[..n], steps[n];
      assert DistinctFiles(init) by {
        forall i, j | 0 <= i < |init| && 0 <= j < |init| && i != j ensures FileName(init[i]) != FileName(init[j]) {
          assert init[i] == steps[i] && init[j] == steps[j];
        }
      }
      StoreAllSaves(files, server, t, dir, init);
      var r := StoreAll(files, server, t, dir, steps);
      forall i | 0 <= i < |steps| && Payload(server, t, steps[i]).Some?
        ensures PathOf(dir, steps[i]) in r && r[PathOf(dir, steps[i])] == Payload(server, t, steps[i]).value
      {
        if i < n {
          assert steps[i] == init[i];
          if Payload(server, t, last).Some? && PathOf(dir, steps[i]) == PathOf(dir, last) {
            PathInjective(dir, steps[i], last);
          }
        }
      }
    }
  }

  /** A run adds a path only where one of its steps saved a payload. */
  lemma {:induction false} StoreAllOnlyPlanned(files: map<string, seq<bv8>>, server: Server, t: Target, dir: string, steps: seq<Step>)
    ensures forall p | p in StoreAll(files, server, t, dir, steps) ::
      p in files || Planned(p, server, t, dir, steps)
  {
    if |steps| > 0 {
      var init := steps[..|steps| - 1];
      StoreAllOnlyPlanned(files, server, t, dir, init);
      forall p | p in StoreAll(files, server, t, dir, steps)
        ensures p in files || Planned(p, server, t, dir, steps)
      {
        PlannedInPrefix(p, server, t, dir, steps);
      }
    }
  }

  /** A file no step saved to is left as it was. */
  lemma {:induction false} StoreAllKeeps(files: map<string, seq<bv8>>, server: Server, t: Target, dir: string, steps: seq<Step>)
    ensures forall p | p in files && !Planned(p, server, t, dir, steps) ::
      p in StoreAll(files, server, t, dir, steps) && StoreAll(files, server, t, dir, steps)[p] == files[p]
  {
    if |steps| > 0 {
      var init := steps[..|steps| - 1];
      StoreAllKeeps(files, server, t, dir, init);
      forall p | p in files && !Planned(p, server, t, dir, steps)
        ensures p in StoreAll(files, server, t, dir, steps) && StoreAll(files, server, t, dir, steps)[p] == files[p]
      {
        PlannedInPrefix(p, server, t, dir, steps);
      }
    }
  }

  // ---------------------------------------------------------------------
  // Plans
  // ---------------------------------------------------------------------

  /** The months a monthly handler visits: those of the span, ascending. */
  ghost predicate MonthPlan(visits: seq<YearMonth>, sy: nat, sm: nat, ey: nat, em: nat)
  {
    StrictlyAscending(visits) &&
    (forall p :: p in visits <==> InMonthRange(p, sy, sm, ey, em)) &&
    (forall i | 0 <= i < |visits| :: 1 <= visits[i].month <= 12)
  }

  /** The steps a handler of variant `v` runs, in order. */
  ghost predicate IsPlan(v: Variant, sy: nat, sm: nat, ey: nat, em: nat, steps: seq<Step>)
  {
    match v
    case Yearly =>
      |steps| == (if sy <= ey then ey - sy + 1 else 0) &&
      forall i | 0 <= i < |steps| :: steps[i] == YearStep(sy + i)
    case Period => steps == [PeriodStep(sy, ey)]
    case MonthlyExact =>
      exists visits :: MonthPlan(visits, sy, sm, ey, em) && steps == MonthSteps(false, visits)
    case MonthlyPadded =>
      exists visits :: MonthPlan(visits, sy, sm, ey, em) && steps == MonthSteps(true, visits)
  }

  /** A handler's plan is determined by its variant and span. */
  lemma PlanUnique(v: Variant, sy: nat, sm: nat, ey: nat, em: nat, a: seq<Step>, b: seq<Step>)
    requires IsPlan(v, sy, sm, ey, em, a) && IsPlan(v, sy, sm, ey, em, b)
    ensures a == b
  {
    if v == MonthlyExact || v == MonthlyPadded {
      var va :| MonthPlan(va, sy, sm, ey, em) && a == MonthSteps(v == MonthlyPadded, va);
      var vb :| MonthPlan(vb, sy, sm, ey, em) && b == MonthSteps(v == MonthlyPadded, vb);
      AscendingUnique(va, vb);
    } else if v == Yearly {
      assert |a| == |b|;
      assert forall i | 0 <= i < |a| :: a[i] == b[i];
    }
  }

  /** No plan saves two of its steps to the same file. */
  lemma PlanDistinctFiles(v: Variant, sy: nat, sm: nat, ey: nat, em: nat, steps: seq<Step>)
    requires IsPlan(v, sy, sm, ey, em, steps)
    ensures DistinctFiles(steps)
  {
    match v
    case MonthlyExact =>
      var visits :| MonthPlan(visits, sy, sm, ey, em) && steps == MonthSteps(false, visits);
      MonthStepsDistinctFiles(false, visits);
    case MonthlyPadded =>
      var visits :| MonthPlan(visits, sy, sm, ey, em) && steps == MonthSteps(true, visits);
      MonthStepsDistinctFiles(true, visits);
    case Yearly =>
      forall i, j | 0 <= i < |steps| && 0 <= j < |steps| && i != j
        ensures FileName(steps[i]) != FileName(steps[j])
      {
        YearStepsDistinctFiles(sy + i, sy + j);
      }
    case Period =>
  }

  // ---------------------------------------------------------------------
  // Effects: the download folder and the site
  // ---------------------------------------------------------------------

  /** The files under `./Download`, by path; directories are implied by paths. */
  class Disk {
    var files: map<string, seq<bv8>>

    constructor (files: map<string, seq<bv8>>)
      ensures this.files == files
    {
      this.files := files;
    }

    /** `open(path, "wb").write(content)`. */
    method Write(path: string, content: seq<bv8>)
      modifies this
      ensures files == old(files)[path := content]
    {
      files := files[path := content];
    }
  }

  /** `requests.get` against one site, with the URLs requested so far. */
  class Portal {
    const server: Server
    var sent: seq<string>

    constructor (server: Server)
      ensures this.server == server && sent == []
    {
      this.server := server;
      sent := [];
    }

    method GetDetail(url: string) returns (page: DetailPage.Page)
      modifies this
      ensures page == server.detail(url) && sent == old(sent) + [url]
    {
      page := server.detail(url);
      sent := sent + [url];
    }

    method GetQuery(url: string) returns (reply: QueryReply)
      modifies this
      ensures reply == server.query(url) && sent == old(sent) + [url]
    {
      reply := server.query(url);
      sent := sent + [url];
    }

    method GetDownload(url: string) returns (reply: DownloadReply)
      modifies this
      ensures reply == server.download(url) && sent == old(sent) + [url]
    {
      reply := server.download(url);
      sent := sent + [url];
    }
  }

  /** One `SrchRainData_N` or `SrchWaterData_N` object. The months are used
      by the monthly variants only. */
  class Handler {
    const target: Target
    const variant: Variant
    const startYear: nat
    const startMonth: nat
    const endYear: nat
    const endMonth: nat
    const stationData: Result<Option<DetailPage.Station>, string>

    /** `__init__`, which reads the station data from the detail page. */
    constructor (portal: Portal, target: Target, variant: Variant, sy: nat, sm: nat, ey: nat, em: nat)
      modifies portal
      ensures this.target == target && this.variant == variant
      ensures startYear == sy && startMonth == sm && endYear == ey && endMonth == em
      ensures DetailPage.StationReading(portal.server.detail(DetailUrlOf(target)), stationData)
      ensures portal.sent == old(portal.sent) + [DetailUrlOf(target)]
    {
      this.target := target;
      this.variant := variant;
      startYear, startMonth, endYear, endMonth := sy, sm, ey, em;
      var page := portal.GetDetail(DetailUrlOf(target));
      var reading := DetailPage.FetchStationData(page);
      stationData := reading;
    }

    function SaveDirectory(): string
    {
      Directory(target, variant, stationData)
    }

    /** `scrape_data_for_month` / `scrape_data_for_year` /
        `scrape_data_for_period` with `download_data_file` and `save_to_file`
        for one step. */
    method ScrapeStep(portal: Portal, disk: Disk, s: Step)
      modifies portal, disk
      ensures disk.files == Store(old(disk.files), portal.server, target, SaveDirectory(), s)
      ensures portal.sent == old(portal.sent) + StepRequests(portal.server, target, s)
    {
      var reply := portal.GetQuery(QueryUrl(target, s));
      if reply.status == 200 && reply.blankHref.Some? {
        var token := Token(reply.blankHref.value);
        var download := portal.GetDownload(DownloadUrl(token));
        if download.status == 200 {
          disk.Write(PathOf(SaveDirectory(), s), download.content);
        }
      }
    }

    /** The steps of a plan, one after the other. */
    method RunSteps(portal: Portal, disk: Disk, steps: seq<Step>)
      modifies portal, disk
      ensures disk.files == StoreAll(old(disk.files), portal.server, target, SaveDirectory(), steps)
      ensures portal.sent == old(portal.sent) + AllRequests(portal.server, target, steps)
    {
      for i := 0 to |steps|
        invariant disk.files == StoreAll(old(disk.files), portal.server, target, SaveDirectory(), steps[..i])
        invariant portal.sent == old(portal.sent) + AllRequests(portal.server, target, steps[..i])
      {
        PrefixStep(old(disk.files), portal.server, target, SaveDirectory(), steps, i);
        ScrapeStep(portal, disk, steps[i]);
      }
      assert steps[..|steps|] == steps;
    }

    /** `scrape_data_for_months`, `scrape_data_for_years` or
        `scrape_data_for_period`, by variant: the plan's steps are run in
        order against the site and their payloads saved. */
    method Scrape(portal: Portal, disk: Disk)
      modifies portal, disk
      ensures exists steps ::
        && IsPlan(variant, startYear, startMonth, endYear, endMonth, steps)
        && disk.files == StoreAll(old(disk.files), portal.server, target, SaveDirectory(), steps)
        && portal.sent == old(portal.sent) + AllRequests(portal.server, target, steps)
    {
      var steps: seq<Step>;
      if variant == Yearly {
        steps := PlanYears(startYear, endYear);
      } else if variant == Period {
        steps := [PeriodStep(startYear, endYear)];
      } else {
        var visits := PlanMonths(startYear, startMonth, endYear, endMonth);
        assert MonthPlan(visits, startYear, startMonth, endYear, endMonth) by {
          forall i | 0 <= i < |visits| ensures 1 <= visits[i].month <= 12 {
            assert visits[i] in visits;
          }
        }
        steps := MonthSteps(variant == MonthlyPadded, visits);
      }
      assert IsPlan(variant, startYear, startMonth, endYear, endMonth, steps);
      RunSteps(portal, disk, steps);
    }
  }
}

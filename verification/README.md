# WIS_Scraper: the download path, modelled in Dafny

WIS_Scraper is a desktop client for the Japanese river information portal
(www1.river.go.jp). A user picks a prefecture, a river system and an observed
item and pages through the list of stations. Opening a station shows its
availability table, which holds one `ari`/`nashi` mark per year. The user then
types a date range, and the client downloads one `.dat` payload per planned
query into `./Download/{class}_{kind}_{水系名}_{河川名}_{観測所名}/`.

This project models that path, from the typed text to the named files:

- `DateInput`: the checks the "Download Data" button runs, in `data_confirm`'s
  date and year modes, and the class prefix `data_type_decorator` injects.
- `DetailPage`: the station detail page.
  - `fetch_header_value`.
  - `fetch_table_data`: decade headers and up to ten image cells after each.
  - `filter_years`.
  - `fetch_station_data`: the station triple, or a sentinel.
- `Planner`: the queries of the four handler variants, with their dates and
  file names.
  - Monthly with the calendar's last day (`_1`).
  - Monthly ending on day 31 (`_2`).
  - Yearly (`_3`).
  - One period (`_4`).
- `Calendar`: the Gregorian month lengths that stand in for
  `calendar.monthrange`.
- `Downloader`: the `SrchRainData_N` and `SrchWaterData_N` handlers as a class.
  - The site is a deterministic `Server`.
  - The download folder is a map from path to bytes.
  - Also: the download token and the directory name.
- `Observation`: `ObservationDataMatcher`, which reads the `KIND=` code and the
  data type from a station's site page.
- `DetailWindow`:
  - the kind→variant dispatch;
  - `validate_years_range`;
  - `prepare_table_dict`;
  - the validate-then-download order of `on_data_confirm_*`.
- `SiteList`: `RiverDataScraper`, which holds the page counter, the row filter
  of `scrape_data`, and `run` with its CSV output.
- `InfoWindow`: the main window's state, which covers the table rows it shows,
  the search hits and their navigation, the page label, and `extractCoords`.
- `Text` and `Wrappers`: the Python string and number operations the code
  relies on, and `Option`/`Result`.

The code's crashes are modelled as `None` or `Err` results, never as
preconditions. These include a `split` that does not give two parts, `int('')`,
`.group(1)` on a failed search, and `.get` on a returned sentinel string. Only
the sentinel crash is corrected (see Findings).

## Model

| member | source | states |
|---|---|---|
| Calendar.DaysInMonth | src/SrchRainData.py:32 | `monthrange(y, m)[1]`: 28..31 days; 31 exactly for months 1,3,5,7,8,10,12 and 30 exactly for 4,6,9,11 |
| Calendar.FebruaryLength | src/SrchRainData.py:32 | February has 29 days exactly in Gregorian leap years and 28 otherwise |
| Calendar.YearLength | src/SrchRainData.py:32 | the twelve month lengths add up to 366 in leap years and 365 otherwise |
| Calendar.AscendingUnique | src/SrchRainData.py:21-28 | two strictly ascending month sequences with the same members are equal, so the months of a span fix the visit order |
| DateInput.CheckSpan | src/utils/decorators.py:44-50 | accepted iff both months are in 1..12 and the start is not after the end; "Invalid Month" is reported before "Invalid range"; accepted spans keep the handler's argument order (start_year, end_year, start_month, end_month) |
| DateInput.ConfirmDates | src/utils/decorators.py:35-56 | `data_confirm('date')`: accepted input has months in 1..12 and a start not after the end |
| DateInput.ConfirmDatesInvalidInput | src/utils/decorators.py:36-38 | "Invalid input" exactly when either text holds a character other than a digit or '/' |
| DateInput.ConfirmDatesSound | src/utils/decorators.py:40-42 | accepted texts are each "digits/digits" with one slash and no empty side, and the handler receives their numbers |
| DateInput.ConfirmDatesComplete | src/utils/decorators.py:40-56 | for two "digits/digits" texts, the outcome is exactly the month and range check on their numbers |
| DateInput.ConfirmDatesRoundTrip | src/utils/decorators.py:40-56 | a valid span typed back as "YYYY/MM" is accepted with the same four numbers |
| DateInput.ConfirmDatesFormatError | src/utils/decorators.py:41-54 | when either text is made of digits and '/' but is not "digits/digits", the answer is "Invalid Date Format" |
| DateInput.SplitYearMonthOf | src/utils/decorators.py:41 | "digits/digits" always parses, to its two numbers |
| DateInput.ConfirmDatesThreeParts | src/utils/decorators.py:41-42 | a text with a third '/'-part, such as "2020/01/05", is "Invalid Date Format" |
| DateInput.SplitYearMonthShape | src/utils/decorators.py:41 | a text that parses has the form digits '/' digits, and its two numbers are what it parses to |
| DateInput.ConfirmYears | src/utils/decorators.py:58-70 | `data_confirm('year')`: accepted only for two non-empty digit strings in order; rejections are "Invalid input" or "Invalid range" |
| DateInput.ConfirmYearsRoundTrip | src/utils/decorators.py:59-70 | decimal years typed back are accepted exactly when in order, with the same numbers |
| DateInput.ConfirmYearsInvalidInput | src/utils/decorators.py:58-60 | "Invalid input" exactly when either text is empty or holds a character that is not a digit |
| DateInput.ConfirmYearsComplete | src/utils/decorators.py:58-70 | for any two digit strings, leading zeros included, the answer is their numbers when in order and "Invalid range" otherwise |
| DateInput.ClassPrefix | src/utils/decorators.py:75-84 | "SrchRainData" for rain and "SrchWaterData" for water; every other data type is the "Invalid data type" error |
| DetailPage.FetchHeaderValue | src/base_srch_data.py:12-22 | the large-font text, "Header not found" without one, and "Error accessing the page" for a status other than 200 |
| DetailPage.FirstHeaderFrom | src/base_srch_data.py:39-40 | the first `#FFFFCC` cell at or after a position, and no header before it |
| DetailPage.ReadDecade | src/base_srch_data.py:42-49 | the ten-cell scan after a header gives the printed records of the cells with images, or the error of an image without `src` |
| DetailPage.ReadRow | src/base_srch_data.py:37-50 | the row loop gives the printed records of the row's reading (only its first header cell, with every '*' removed from the prefix), or that reading's error |
| DetailPage.FetchTableData | src/base_srch_data.py:25-51 | `fetch_table_data` returns exactly the reference reading `TableData`: an error on a status other than 200, otherwise the entries of every row in order |
| DetailPage.RowRecordsAtMostTen | src/base_srch_data.py:42-49 | one header yields at most ten entries, at offsets 0..9 |
| DetailPage.TableRecordsShape | src/base_srch_data.py:41-48 | every entry's offset is at most 9 and its prefix holds no '*' |
| DetailPage.EntryForm | src/base_srch_data.py:47-49 | every entry reads "{prefix}{j} - ari" or "{prefix}{j} - nashi" with one digit j |
| DetailPage.FilterYears | src/base_srch_data.py:80-89 | `filter_years` returns the reference `FilterYearsOf`: the year part of each "ari" entry in order, or an error for an entry that does not split in two |
| DetailPage.AriYearsMembers | src/base_srch_data.py:84-89 | a year is kept exactly when some record of that year is marked ari |
| DetailPage.SplitRender | src/base_srch_data.py:85 | a printed entry splits on " - " back into its year and status |
| DetailPage.FilterEntriesOfRecords | src/base_srch_data.py:80-89 | over printed records whose prefixes hold no '-', `filter_years` keeps exactly the ari years, in table order |
| DetailPage.FilterYearsSpec | src/base_srch_data.py:80-89 | on a readable page, `filter_years` gives the ari years of its table |
| DetailPage.FetchStationData | src/base_srch_data.py:53-78 | the sentinels for a status other than 200 and a missing table; otherwise the triple from the first row after the first with four cells, or the empty dictionary when there is none |
| DetailPage.StationReadingUnique | src/base_srch_data.py:66-78 | the station reading of a page is determined: two readings are equal |
| Planner.PlanMonths | src/SrchRainData.py:21-28 | the months visited are exactly those of the span with month in 1..12, strictly ascending (so no repeats); an inverted span visits none |
| Planner.MonthSteps | src/SrchRainData.py:30-33 | one query per visited month, in visiting order |
| Planner.PlanYears | src/SrchRainData.py:116-118 | one yearly query per year of the span, in order, and none for an inverted span |
| Planner.MonthStepDates | src/SrchRainData.py:31-33 | a monthly query starts on day 01 of its month and ends in the same month on its last day (`_1`) or on day 31 (`_2`, src/SrchRainData.py:81) |
| Planner.FebruaryEndDate | src/SrchRainData.py:32-33 | the exact variant's February query ends on the 29th exactly in leap years and on the 28th otherwise |
| Planner.YearDates | src/SrchRainData.py:121 | yearly and period queries run from January 31 of the first year to December 31 of the last; a yearly query is the period query of one year (the period query is at line 160) |
| Planner.MonthLabelInjective | src/SrchRainData.py:56 | distinct months get distinct `{y}_{mm}` names |
| Planner.FileNameInjective | src/SrchRainData.py:148 | a file name `{stem}.dat` determines its stem |
| Planner.MonthStepsDistinctFiles | src/SrchRainData.py:56 | a monthly plan never saves two months to one file |
| Planner.YearStepsDistinctFiles | src/SrchRainData.py:148 | distinct years get distinct `{y}.dat` names |
| Planner.PeriodLabelRoundTrip | src/SrchRainData.py:176 | the period name `{s}-{e}` splits back into its two years |
| Planner.LabelFamiliesDisjoint | src/SrchRainData.py:56 | monthly names hold '_', period names '-', and yearly names neither, so the three families never share a name (yearly names at line 148, period names at 183) |
| Downloader.Token | src/SrchRainData.py:41 | the token holds no '/' and no '.' |
| Downloader.TokenOfLink | src/SrchRainData.py:41 | a link `{path}/{token}.{ext}` yields its token back |
| Downloader.RequestsPerStep | src/SrchRainData.py:34-49 | a plan sends at least one request per step and at most two |
| Downloader.RequestsCoverSteps | src/SrchRainData.py:34-47 | every step's query is sent, and so is the download of every step that got a payload |
| Downloader.DirectoryOf | src/SrchRainData.py:140-143 | `./Download/{class}_{kind}_{水系名}_{河川名}_{観測所名}` with "Unknown" for the empty dictionary; only the yearly variant falls back to `{js_detail}` (other variants at line 52) |
| Downloader.DirectoryAsWritten | src/SrchRainData.py:52 | as written, there is no directory exactly when the station data is a sentinel string |
| Downloader.Directory | src/SrchRainData.py:52 | the corrected directory: the code's directory when there is station data, and `..._Unknown_Unknown_Unknown` for a sentinel, whatever the variant |
| Downloader.SentinelBreaksSave | src/SrchRainData.py:52 | a detail page that does not answer 200, or answers without the `border=1` table, gives a sentinel; the code as written then has no directory, while the corrected one is `..._Unknown_Unknown_Unknown`, for every variant |
| Downloader.MissingStationTableUnchecked | src/base_srch_data.py:62-64 | a 200 page without the `border=1` table reads as "No table found", and its years filter the same as the page with that table, so the check lets it through |
| Downloader.DirectoriesCollide | src/SrchRainData.py:52 | two different stations with '_' inside their names share one directory |
| Downloader.DirectoryFields | src/SrchRainData.py:52 | without '_' in the names, a directory splits at '_' into the class, the kind code and the three station names |
| Downloader.DirectoryInjective | src/SrchRainData.py:52 | without '_' in the names, the directory determines the data kind, the kind code and the station |
| Downloader.PathInjective | src/SrchRainData.py:56 | in one directory, equal paths mean equal file names |
| Downloader.StoreAllOverrides | src/SrchRainData.py:57-58 | a run overwrites files: the folder afterwards is the old one overridden by what the run saves |
| Downloader.RunIdempotent | src/SrchRainData.py:51-58 | running the same plan against the same site twice leaves the folder as one run does |
| Downloader.StoreAllSaves | src/SrchRainData.py:44-58 | after a plan with distinct file names, every step that got a payload has it under its own path |
| Downloader.StoreAllOnlyPlanned | src/SrchRainData.py:37-49 | a run adds a path only where one of its steps got a 200 query with a link and a 200 download |
| Downloader.StoreAllKeeps | src/SrchRainData.py:51-58 | a file no step saved to is left as it was |
| Downloader.PlanUnique | src/SrchRainData.py:21-28 | a handler's plan is determined by its variant and span (years at lines 116-118) |
| Downloader.PlanDistinctFiles | src/SrchRainData.py:56 | no plan saves two of its steps to one file |
| Downloader.Disk.Write | src/SrchRainData.py:57-58 | `open(path, "wb").write` replaces that path's contents and no other |
| Downloader.Portal.GetDetail | src/base_srch_data.py:53-55 | the reply is the site's detail page for the URL, and the URL is logged as sent |
| Downloader.Portal.GetQuery | src/SrchRainData.py:34 | the reply is the site's query answer, and the URL is logged as sent |
| Downloader.Portal.GetDownload | src/SrchRainData.py:46 | the reply is the site's download answer, and the URL is logged as sent |
| Downloader.Handler.constructor | src/SrchRainData.py:13-19 | `__init__` reads the station data from the detail page with one request |
| Downloader.Handler.ScrapeStep | src/SrchRainData.py:30-58 | one step: no file unless the query answers 200 with a `target="_blank"` link and the download answers 200; then the payload is written to `{dir}/{name}.dat` |
| Downloader.Handler.RunSteps | src/SrchRainData.py:21-28 | the steps run in order: the folder is the fold of the steps' stores and the requests are theirs, in order |
| Downloader.Handler.Scrape | src/SrchRainData.py:21-28 | the variant's plan runs against the site and its payloads are saved (yearly plan at lines 116-118, period query at 159-169) |
| Observation.KindSearch | src/getObservationInfo.py:24 | a captured kind is a non-empty run of digits |
| Observation.KindSearchSpec | src/getObservationInfo.py:24-26 | `re.search(r'KIND=(\d+)')`: the leftmost match's whole digit run, and nothing only when the pattern matches nowhere |
| Observation.FirstKindSpec | src/getObservationInfo.py:18-27 | the first image with the station's name whose anchor matches gives the kind; nothing only when no image does |
| Observation.CheckNameInPage | src/getObservationInfo.py:12-29 | `(True, kind)` with a digit kind or `(False, None)`, which is also the answer for a status other than 200 |
| Observation.CodeInHrefSpec | src/getObservationInfo.py:40-59 | a link's code is the first name in priority order that it contains |
| Observation.FirstCodeSpec | src/getObservationInfo.py:39-61 | the code comes from the first link that names any type, and no earlier link names one |
| Observation.CheckDataType | src/getObservationInfo.py:31-64 | a code in 0..6 or None, which is also the answer for a status other than 200 |
| Observation.CheckDataTypeMeaning | src/getObservationInfo.py:39-59 | some link holds the code's name and none of higher priority, and every earlier link holds none of the names |
| DetailWindow.DataTypeName | src/WIS_DetailInfoWindow.py:119-129 | codes 0..6 map to the seven class names, everything else to "UnknownData" |
| DetailWindow.PrefixesAgree | src/WIS_DetailInfoWindow.py:153-157 | the matcher's names for codes 0 and 1 are the downloader class names that `data_type_decorator` injects |
| DetailWindow.VariantOfKind | src/WIS_DetailInfoWindow.py:171-201 | kinds 1,2 (and 5,6) plan months, 3 (and 7) years, 4 (and 8) one period |
| DetailWindow.DispatchKind | src/WIS_DetailInfoWindow.py:153-204 | rain and water kinds 1..4 get a handler of that kind and variant; water kinds 5..8 need a class that is not defined; other kinds are "Not Supported Data Type"; other types are "Not Supported Yet" (rain dispatch at lines 378-399) |
| DetailWindow.ProcessData | src/WIS_DetailInfoWindow.py:143-160 | no dispatch (the code raises on `int(None)`) exactly when the page names no kind, which includes every page that does not answer 200 |
| DetailWindow.ProcessDataHandles | src/WIS_DetailInfoWindow.py:143-160 | a handler is set up only for a page linking rain or water data, with the kind from the first matching anchor in 1..4 |
| DetailWindow.RequiredYears | src/WIS_DetailInfoWindow.py:136 | the decimal years of the range, in order, and none for an inverted range |
| DetailWindow.ValidateYearsRange | src/WIS_DetailInfoWindow.py:132-140 | true iff every year of the range is among the filtered years; always true for an inverted range |
| DetailWindow.RequiredAmong | src/WIS_DetailInfoWindow.py:136-137 | every string in the list of required years is among the filtered years exactly when every year of the range is |
| DetailWindow.ValidateAgainstRecords | src/WIS_DetailInfoWindow.py:132-140 | on the ari years of some records, the check passes iff every year of the range has an ari record |
| DetailWindow.ValidateAgainstTable | src/WIS_DetailInfoWindow.py:132-140 | on a readable detail page, the check passes iff every year of the range has an ari cell |
| DetailWindow.ParseEntry | src/WIS_DetailInfoWindow.py:88-92 | an entry reads back as decade, slot below 10 and status, or fails where the code raises |
| DetailWindow.ParseRender | src/WIS_DetailInfoWindow.py:88-92 | every printed table entry reads back as its decade, offset and status |
| DetailWindow.Put | src/WIS_DetailInfoWindow.py:90-92 | one step keeps the table well formed (distinct keys, ten slots each) and adds the decade as a key only when it is new |
| DetailWindow.TableDictDefined | src/WIS_DetailInfoWindow.py:85-93 | the table is built exactly when every entry reads back |
| DetailWindow.TableDictKeys | src/WIS_DetailInfoWindow.py:89-91 | one key per decade that occurs, and no other |
| DetailWindow.TableDictOrder | src/WIS_DetailInfoWindow.py:89-91 | keys stand in the order their decades first occur |
| DetailWindow.TableDictSlots | src/WIS_DetailInfoWindow.py:91-92 | every slot holds the status of the last entry for it, or "nashi" when there is none |
| DetailWindow.SlotValueAbsent | src/WIS_DetailInfoWindow.py:91 | a decade that no entry names keeps "nashi" in every slot |
| DetailWindow.FirstIndexSpec | src/WIS_DetailInfoWindow.py:89-91 | the first index is where a decade first occurs |
| DetailWindow.TableDictOfPage | src/WIS_DetailInfoWindow.py:85-93 | the entries of a readable page always build a table |
| DetailWindow.PrepareTableDict | src/WIS_DetailInfoWindow.py:85-93 | `prepare_table_dict` returns exactly the reference fold `TableDict` |
| DetailWindow.ConfirmAndDownload | src/WIS_DetailInfoWindow.py:436-444 | a download happens iff the years read and pass `validate_years_range` (lines 132-140); a failing check changes no file and sends only the two detail-page reads; a download sends a third read and then exactly the plan's requests, and saves the plan's payloads under the directory of the station reading |
| DetailWindow.OnDataConfirm | src/utils/decorators.py:29-72 | a rejected input changes no file and sends no request; date mode for the monthly variants and year mode otherwise; an accepted span's `Ok(b)` is the check-and-download outcome for the parsed years and months, with its files and requests |
| SiteList.CodeOf | src/getWISInfo.py:61-63 | a name the code file does not list maps to '-1' |
| SiteList.DetailSearch | src/getWISInfo.py:39 | a captured site id is a non-empty run of digits |
| SiteList.DetailSearchSpec | src/getWISInfo.py:39 | `re.search(r"SiteDetail1\('(\d+)'\)")`: the leftmost match's digits, and nothing only when the pattern matches nowhere |
| SiteList.EntryOf | src/getWISInfo.py:33-40 | an entry is the stripped cell texts, then the SUIKEI code, then the site id ('' without an anchor); none where the search fails and `.group(1)` raises |
| SiteList.BlankEntryMatches | src/getWISInfo.py:42-44 | an entry of six empty cells, a numeric code and no id matches the blank-row pattern |
| SiteList.MatchIsBlankEntry | src/getWISInfo.py:42-44 | when no field holds a comma or newline, only such a blank entry matches the pattern |
| SiteList.BlankPatternMeaning | src/getWISInfo.py:42-44 | for such fields, the pattern matches iff the entry is blank |
| SiteList.FilterAppend | src/getWISInfo.py:32-47 | filtering distributes over concatenation |
| SiteList.FilterMembers | src/getWISInfo.py:42-47 | what remains is exactly what passes the filter |
| SiteList.ScanRaised | src/getWISInfo.py:32-47 | the row loop raises exactly when some row raises |
| SiteList.ScanData | src/getWISInfo.py:32-47 | with no failing row, the data is the kept entries of all rows, in order |
| SiteList.ScanKept | src/getWISInfo.py:43-47 | whatever is kept passes the filter and was read from some row |
| SiteList.ScrapeRowsRaised | src/getWISInfo.py:32-40 | `scrape_data` raises exactly when some row's anchor does not match the id pattern |
| SiteList.ScrapeRowsData | src/getWISInfo.py:30-47 | otherwise the data is exactly the kept entries of the rows after the header, in page order |
| SiteList.ScrapeRowsEntries | src/getWISInfo.py:34-47 | every kept entry passes the filter and carries the SUIKEI code second to last |
| SiteList.KeepWithCode | src/getWISInfo.py:42-47 | with a non-empty code, only the blank-row pattern drops an entry that reads |
| SiteList.Body | src/getWISInfo.py:32 | the first matching row (the header) is skipped |
| SiteList.CsvOutput.Write | src/getWISInfo.py:54-58 | writing a CSV file replaces that path's rows and no other |
| SiteList.RiverDataScraper.constructor | src/getWISInfo.py:11-18 | page 0, empty data and the three code tables as loaded |
| SiteList.RiverDataScraper.IncrementPage | src/getWISInfo.py:68-69 | the page number goes up by exactly one |
| SiteList.RiverDataScraper.DecrementPage | src/getWISInfo.py:71-73 | the page number goes down by one only above zero, and is never negative |
| SiteList.RiverDataScraper.ResetPageNumber | src/getWISInfo.py:75-76 | the page number is 0 |
| SiteList.RiverDataScraper.ScrapeData | src/getWISInfo.py:25-47 | `self.data` is replaced by the scan of the current page's rows after the header; a row that raises stops the scan |
| SiteList.RiverDataScraper.Run | src/getWISInfo.py:60-66 | unknown names map to '-1'; unless the scrape raises, `river_data_{ken}_{suikei}_{komoku}.csv` in `./output` holds the header row and the data |
| SiteList.Move | src/getWISInfo.py:68-76 | a page button never takes a non-negative page below zero |
| SiteList.MovesBounds | src/getWISInfo.py:68-76 | from page 0, no sequence of buttons goes below zero or above the number of presses |
| SiteList.MovesFrom | src/getWISInfo.py:68-76 | from any page p, n presses stay between 0 and p + n |
| SiteList.PrevAfterNext | src/getWISInfo.py:68-73 | previous undoes next, and previous on the first page stays there |
| InfoWindow.FindAll | src/WIS_InfoWindow.py:489-491 | `re.findall(r'(\d+)unit')` yields non-empty digit runs |
| InfoWindow.TrailingDigits | src/WIS_InfoWindow.py:489-491 | the longest all-digit suffix of a text |
| InfoWindow.FindAllSpec | src/WIS_InfoWindow.py:489-491 | the matches are, left to right, the maximal digit run just before each unit, skipping units with no digit before them |
| InfoWindow.FindAllEmpty | src/WIS_InfoWindow.py:489-491 | it finds nothing exactly when no digit stands right before the unit |
| InfoWindow.ExtractCoords | src/WIS_InfoWindow.py:488-496 | fails (IndexError) exactly when some unit has fewer than two numbers |
| InfoWindow.ExtractCoordsValues | src/WIS_InfoWindow.py:493-494 | latitude from the first degree/minute/second numbers, longitude from the second |
| InfoWindow.CoordFields | src/WIS_InfoWindow.py:493-494 | with degrees below 1000 and minutes and seconds below 100, a coordinate is ten digits ending in "000" whose fields read back as the three numbers |
| InfoWindow.DisplayRow | src/WIS_InfoWindow.py:379-386 | fields 1..5 are shown in columns 0..4 and column 5 holds the button |
| InfoWindow.DisplayRowsSpec | src/WIS_InfoWindow.py:373-387 | the table shows the display of every kept row and nothing else, never more rows than the data |
| InfoWindow.RowHitsSpec | src/WIS_InfoWindow.py:572-577 | the hits of a row are exactly its matching columns, left to right |
| InfoWindow.GridHitsSpec | src/WIS_InfoWindow.py:571-577 | the hits are exactly the cells outside column 5 whose lower-cased text contains the query, each once, in row-major order |
| InfoWindow.CountLabelRoundTrip | src/WIS_InfoWindow.py:615-617 | the count label reads back as the current hit and the number of hits, current ≤ total |
| InfoWindow.PageLabel | src/WIS_InfoWindow.py:657-658 | the page label is a decimal number without a leading zero |
| InfoWindow.PageLabelValue | src/WIS_InfoWindow.py:657-658 | the label reads as the one-based page number |
| InfoWindow.App.constructor | src/WIS_InfoWindow.py:108-126 | no hits, index -1, page label "1", a scraper at page 0 |
| InfoWindow.App.UpdateSearchCount | src/WIS_InfoWindow.py:615-619 | the label is "{index+1}/{n}" with hits and "" without; nothing else changes |
| InfoWindow.App.OnSearch | src/WIS_InfoWindow.py:562-588 | empty text changes nothing; otherwise the hits are all matching cells in row-major order, the first is current, and every hit points at a shown cell |
| InfoWindow.App.OnNextSearch | src/WIS_InfoWindow.py:600-611 | one hit forward only when not at the last; the label follows a move; it raises exactly when it moves while a hit points outside the shown cells, leaving the label; nothing else changes |
| InfoWindow.App.OnPrevSearch | src/WIS_InfoWindow.py:595-611 | one hit back only when not at the first; the label follows a move; it raises exactly when it moves while a hit points outside the shown cells, leaving the label; nothing else changes |
| InfoWindow.App.ResetSearch | src/WIS_InfoWindow.py:536-544 | the table and the hits are emptied and the label cleared; the index is kept |
| InfoWindow.App.ClearSearch | src/WIS_InfoWindow.py:621-629 | the hits are dropped and the label cleared; the table is kept |
| InfoWindow.App.OnNextPage | src/WIS_InfoWindow.py:638-643 | the page goes up by one, the label follows, the search is reset, and the index and column count stay |
| InfoWindow.App.OnPrevPage | src/WIS_InfoWindow.py:631-636 | the page goes back one, never below the first; the label follows; the search is reset, and the index and column count stay |
| InfoWindow.App.OnStartButtonClicked | src/WIS_InfoWindow.py:645-649 | the page is 0 and the label "1"; the search index, count label and column count stay |
| InfoWindow.App.UpdateTable | src/WIS_InfoWindow.py:357-394 | with no data the table is kept, otherwise the kept rows' displays replace it; with no data or no row worth showing, the page steps back one when above the first and the label follows; the search and its count label are untouched |
| InfoWindow.App.Crawl | src/WIS_InfoWindow.py:34-54 | the scraper reads the current page; a scrape that raises, or gives no data, leaves the table; otherwise its displays are shown in six columns; the page steps back one and its label follows exactly when the scrape succeeds with nothing to show above the first page; the count label stays |
| Text.ParseNatToString | src/utils/decorators.py:41 | `int(str(n)) == n` |
| Text.NatToStringInjective | src/SrchRainData.py:148 | `str` is injective on natural numbers |
| Text.ParseZeroPad | src/WIS_InfoWindow.py:493 | `zfill` keeps the value of a digit string |
| Text.ParsePad | src/SrchRainData.py:31 | `f"{m:02d}"` reads back as m |
| Text.IndexOfSpec | src/getWISInfo.py:39 | `find` reports the first occurrence, and none only when there is none |
| Text.JoinSplit | src/utils/decorators.py:41 | joining the parts of a split with its separator gives the text back |
| Text.SplitJoin | src/getWISInfo.py:43 | splitting a join of parts without the separator gives the parts back |
| Text.SplitPartsFree | src/SrchRainData.py:41 | no part of a split holds the separator |
| Text.SplitLast | src/SrchRainData.py:41 | the last part after a separator is the text after the last separator |
| Text.DigitRun | src/getObservationInfo.py:24 | `\d+` takes the longest digit prefix |
| Text.StripSlice | src/getWISInfo.py:34 | `strip()` is the slice between the leading and trailing whitespace |
| Text.RemoveChar | src/base_srch_data.py:41 | `replace('*', '')` drops every '*' and keeps every other character, with its count; a text without '*' is unchanged |
| Text.RemoveCharAppend | src/base_srch_data.py:41 | removing a character distributes over concatenation, so the order of the kept characters is the text's |
| Text.Lower | src/WIS_InfoWindow.py:563 | no upper-case ASCII letter is left, and every other character is kept in place |
| Text.LowerIdempotent | src/WIS_InfoWindow.py:563 | lower-casing twice is lower-casing once |

## Left out

- HTTP and HTML parsing. A page is given as its status code and the parsed
  parts the code reads: rows of cells, links, images, the `border=1` table and
  the large-font text. `requests.get` is a deterministic `Server` with one
  function per kind of page. Connection errors and time-outs are not modelled.
- The `EUC-JP` response encoding. Payloads are kept as the raw bytes
  `response.content`.
- The filesystem. The download folder is a map from path to bytes, and
  `os.makedirs` is implied by the paths. The CSV output is a map from path to
  rows; `csv.writer` quoting is not modelled.
- `load_values` reads a JSON file. The three code tables are given as maps.
- PyQt widgets, message boxes, colours and highlighting, the log, and the
  `QThread` worker and its server check.
  - A warning is returned as a value.
  - Highlighting itself is not modelled, but the AttributeError it raises on a
    hit that points outside the shown cells is the `raised` result of
    `OnNextSearch` and `OnPrevSearch`.
  - `on_click`'s reload after a page change is not modelled. `Crawl` is the
    reload's scrape and table update.
- Python's Unicode semantics are narrowed to ASCII:
  - `isdigit`, `\d` and `int` accept ASCII digits only;
  - `lower` maps A–Z only.
  `strip` removes exactly the characters Python treats as whitespace.
- Water kinds 5–8. `SrchWaterData_5` to `_8` are not defined in the water
  module. Dispatching to them gives `HandlerMissing`, and no download is
  modelled for them.
- `handle_specific_data_rain`'s final `else` builds a handler from two
  arguments. It cannot be reached, because `handle_data_rain` passes only the
  classes for kinds 1–4, so it is not modelled.
- `handle_specific_data_*` receive `(start_year, start_month, end_year,
  end_month)` in the parameter slots `(start_year, end_year, start_month,
  end_month)`. The handler built there only reads the detail page, so the
  swap is not modelled.
- `validate_years_range` constructs its checker with `(start_year, end_year)` as
  positional arguments, which puts the years in other parameters for the monthly
  classes. `ConfirmAndDownload` builds the checker with the right span, because
  only its detail page is read.
- `handle_specific_data_*` shows the header, table and station data. Only the
  readings themselves are modelled.
- `update_manager.py`, `getDetailInfo.py` and `getObservedInfo.py` are not part
  of this model.
- DateInput.ConfirmDates: its own contract states only soundness. The
  "if and only if" statements are in `ConfirmDatesInvalidInput`,
  `ConfirmDatesComplete` and `ConfirmDatesThreeParts`.
- The sentinel run: Python raises AttributeError at the first `save_to_file`,
  so no file is written and the remaining steps are never queried.
  `Downloader.Handler.ScrapeStep`, `Downloader.Handler.Scrape` and
  `DetailWindow.ConfirmAndDownload` instead save every payload under the
  corrected `Directory` (see Findings). The abort, and with it the steps that
  the Python run never reaches, is not modelled.
- `ObservationDataCrawler` in `src/getObservationInfo.py`: no code in the
  repository constructs it or calls `fetch_data`, so it is not modelled.

## Findings

| source | as written | input that shows it | evidently intended | confidence | as-written member | corrected member |
|---|---|---|---|---|---|---|
| src/SrchRainData.py:52 | `fetch_station_data` returns the string "Error accessing the page" (or "No table found"), and `save_to_file` then calls `.get` on that string, which raises AttributeError, so no payload is saved | a detail page answering 200 without the `border=1` station table, whose availability table passes the years check, while the data queries answer 200 with a link | a station that cannot be read counts as unknown, and the payload is saved under `..._Unknown_Unknown_Unknown` | not executed | Downloader.DirectoryAsWritten, Downloader.SentinelBreaksSave, Downloader.MissingStationTableUnchecked | Downloader.Directory |

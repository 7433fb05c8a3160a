/** The checks the "Download Data" button runs on the two text fields before
    any handler is called (src/utils/decorators.py): `data_confirm` in its
    'date' mode ("YYYY/MM") and 'year' mode (bare years), and
    `data_type_decorator`, which injects the handler-class prefix. */
module DateInput {
  import opened Wrappers
  import opened Text
  import opened Calendar

  /** The warning shown for a rejected input; a rejection never reaches the handler. */
  datatype Rejection = InvalidInput | InvalidDateFormat | InvalidMonth | InvalidRange

  function Message(r: Rejection): string
  {
    match r
    case InvalidInput => "Invalid input"
    case InvalidDateFormat => "Invalid Date Format"
    case InvalidMonth => "Invalid Month"
    case InvalidRange => "Invalid range"
  }

  /** The arguments of the date-mode handler, in the order it receives them:
      `func(self, start_year, end_year, start_month, end_month)`. */
  datatype MonthSpan = MonthSpan(startYear: nat, endYear: nat, startMonth: nat, endMonth: nat)

  /** The arguments of the year-mode handler: `func(self, start_year, end_year)`. */
  datatype YearSpan = YearSpan(startYear: nat, endYear: nat)

  predicate DateChars(s: string)
  {
    forall i | 0 <= i < |s| :: IsDigit(s[i]) || s[i] == '/'
  }

  lemma DateCharsConcat(s: string, e: string)
    ensures DateChars(s + e) <==> DateChars(s) && DateChars(e)
  {
    assert forall i | 0 <= i < |s| :: s[i] == (s + e)[i];
    assert forall i | 0 <= i < |e| :: e[i] == (s + e)[|s| + i];
  }

  lemma SlashPartsAreDigits(s: string)
    requires DateChars(s)
    ensures forall p | p in Split(s, "/") :: AllDigits(p)
  {
    assert "/" == ['/'];
    SplitPartsFree(s, "/");
    JoinSplit(s, "/");
    var parts := Split(s, "/");
    forall p | p in parts ensures AllDigits(p) {
      ContainsChar(p, '/');
      forall i | 0 <= i < |p| ensures IsDigit(p[i]) {
        JoinHasPartChars(parts, "/", p, i);
      }
    }
  }

  lemma SlashPairDigits(s: string)
    requires DateChars(s) && |Split(s, "/")| == 2
    ensures AllDigits(Split(s, "/")[0]) && AllDigits(Split(s, "/")[1])
  {
    SlashPartsAreDigits(s);
  }

  /** `year, month = map(int, s.split('/'))` once `s` holds only digits and
      slashes: None where Python raises ValueError (not exactly two parts,
      or an empty part). */
  function SplitYearMonth(s: string): Option<(nat, nat)>
    requires DateChars(s)
  {
    var parts := Split(s, "/");
    if |parts| == 2 && parts[0] != "" && parts[1] != "" then
      SlashPairDigits(s);
      Some((ParseNat(parts[0]), ParseNat(parts[1])))
    else
      None
  }

  /** The month check, then the range check, on the parsed numbers. */
  function CheckSpan(sy: nat, sm: nat, ey: nat, em: nat): (r: Result<MonthSpan, Rejection>)
    ensures r.Ok? <==> 1 <= sm <= 12 && 1 <= em <= 12 && NotAfter(sy, sm, ey, em)
    ensures r.Ok? ==> r.value == MonthSpan(sy, ey, sm, em)
    ensures r.Err? ==> r.error == (if 1 <= sm <= 12 && 1 <= em <= 12 then InvalidRange else InvalidMonth)
  {
    if !(1 <= sm <= 12) || !(1 <= em <= 12) then Err(InvalidMonth)
    else if sy > ey || (sy == ey && sm > em) then Err(InvalidRange)
    else Ok(MonthSpan(sy, ey, sm, em))
  }

  /** `data_confirm('date')`: the checks in the order the program makes them. */
  function ConfirmDates(start: string, end: string): (r: Result<MonthSpan, Rejection>)
    ensures r.Ok? ==> 1 <= r.value.startMonth <= 12 && 1 <= r.value.endMonth <= 12
    ensures r.Ok? ==> NotAfter(r.value.startYear, r.value.startMonth, r.value.endYear, r.value.endMonth)
  {
    if !DateChars(start) || !DateChars(end) then Err(InvalidInput)
    else
      var sp, ep := SplitYearMonth(start), SplitYearMonth(end);
      if sp.None? || ep.None? then Err(InvalidDateFormat)
      else CheckSpan(sp.value.0, sp.value.1, ep.value.0, ep.value.1)
  }

  /** "Invalid input" is the answer exactly when a field holds a character
      other than a digit or a slash. */
  lemma ConfirmDatesInvalidInput(start: string, end: string)
    ensures ConfirmDates(start, end) == Err(InvalidInput) <==> !(DateChars(start) && DateChars(end))
  {
  }

  /** A year-month text that splits into two numbers is "digits/digits". */
  lemma SplitYearMonthShape(s: string)
    requires DateChars(s) && SplitYearMonth(s).Some?
    ensures exists i :: (0 < i < |s| - 1 && s[i] == '/' &&
      AllDigits(s[..i]) && AllDigits(s[i + 1..]) &&
      SplitYearMonth(s).value == (ParseNat(s[..i]), ParseNat(s[i + 1..])))
  {
    SlashPartsAreDigits(s);
    JoinSplit(s, "/");
    var parts := Split(s, "/");
    var i := |parts[0]|;
    assert Join(parts, "/") == parts[0] + "/" + parts[1];
    assert s[..i] == parts[0] && s[i] == '/' && s[i + 1..] == parts[1];
  }

  lemma SplitYearMonthOf(a: string, b: string)
    requires a != "" && b != "" && AllDigits(a) && AllDigits(b)
    ensures DateChars(a + "/" + b)
    ensures SplitYearMonth(a + "/" + b) == Some((ParseNat(a), ParseNat(b)))
  {
    assert "/" == ['/'];
    DigitsLack(a, '/');
    DigitsLack(b, '/');
    SplitPairChar(a, '/', b);
  }

  /** Accepted date input is two "digits/digits" texts whose numbers are the
      handler's arguments: exactly one slash and no empty part on either side. */
  lemma ConfirmDatesSound(start: string, end: string)
    requires ConfirmDates(start, end).Ok?
    ensures exists i :: (0 < i < |start| - 1 && start[i] == '/' &&
      AllDigits(start[..i]) && AllDigits(start[i + 1..]) &&
      ConfirmDates(start, end).value.startYear == ParseNat(start[..i]) &&
      ConfirmDates(start, end).value.startMonth == ParseNat(start[i + 1..]))
    ensures exists i :: (0 < i < |end| - 1 && end[i] == '/' &&
      AllDigits(end[..i]) && AllDigits(end[i + 1..]) &&
      ConfirmDates(start, end).value.endYear == ParseNat(end[..i]) &&
      ConfirmDates(start, end).value.endMonth == ParseNat(end[i + 1..]))
  {
    DateCharsConcat(start, end);
    SplitYearMonthShape(start);
    SplitYearMonthShape(end);
  }


  /** Two "digits/digits" texts are accepted exactly when both months are in
      1..12 and the start does not come after the end, and the handler then
      receives their numbers. */
  lemma ConfirmDatesComplete(a: string, b: string, c: string, d: string)
    requires a != "" && b != "" && c != "" && d != ""
    requires AllDigits(a) && AllDigits(b) && AllDigits(c) && AllDigits(d)
    ensures ConfirmDates(a + "/" + b, c + "/" + d) == CheckSpan(ParseNat(a), ParseNat(b), ParseNat(c), ParseNat(d))
  {
    var s, e := a + "/" + b, c + "/" + d;
    var sy, sm, ey, em := ParseNat(a), ParseNat(b), ParseNat(c), ParseNat(d);
    assert DateChars(s) && SplitYearMonth(s) == Some((sy, sm)) by { SplitYearMonthOf(a, b); }
    assert DateChars(e) && SplitYearMonth(e) == Some((ey, em)) by { SplitYearMonthOf(c, d); }
    ConfirmDatesParsed(s, e, sy, sm, ey, em);
  }

  lemma ConfirmDatesParsed(s: string, e: string, sy: nat, sm: nat, ey: nat, em: nat)
    requires DateChars(s) && DateChars(e)
    requires SplitYearMonth(s) == Some((sy, sm)) && SplitYearMonth(e) == Some((ey, em))
    ensures ConfirmDates(s, e) == CheckSpan(sy, sm, ey, em)
  {
  }

  /** What a user types for a year and month: "YYYY/MM". */
  function FormatYearMonth(year: nat, month: nat): string
  {
    NatToString(year) + "/" + Pad2(month)
  }

  /** Typing back a valid range in "YYYY/MM" form is accepted with the same numbers. */
  lemma ConfirmDatesRoundTrip(sy: nat, sm: nat, ey: nat, em: nat)
    requires 1 <= sm <= 12 && 1 <= em <= 12 && NotAfter(sy, sm, ey, em)
    ensures ConfirmDates(FormatYearMonth(sy, sm), FormatYearMonth(ey, em)) == Ok(MonthSpan(sy, ey, sm, em))
  {
    ParseNatToString(sy);
    ParseNatToString(ey);
    ParsePad(sm, 2);
    ParsePad(em, 2);
    ConfirmDatesComplete(NatToString(sy), Pad2(sm), NatToString(ey), Pad2(em));
  }

  /** A date with a third part, such as "2020/01/05", is a format error. */
  lemma ConfirmDatesThreeParts(a: string, b: string, c: string, end: string)
    requires DateChars(a + "/" + b + "/" + c) && DateChars(end)
    requires '/' !in a && '/' !in b
    ensures ConfirmDates(a + "/" + b + "/" + c, end) == Err(InvalidDateFormat)
  {
    var s := a + "/" + b + "/" + c;
    assert "/" == ['/'];
    assert s == a + ['/'] + (b + ['/'] + c);
    SplitCons(a, '/', b + ['/'] + c);
    SplitCons(b, '/', c);
    assert |Split(s, "/")| >= 3;
    ConfirmDatesFormatError(s, end);
  }

  /** Texts of digits and slashes of which either is not "digits/digits"
      are "Invalid Date Format" (the unpacking raises ValueError). */
  lemma ConfirmDatesFormatError(s: string, e: string)
    requires DateChars(s) && DateChars(e)
    requires SplitYearMonth(s) == None || SplitYearMonth(e) == None
    ensures ConfirmDates(s, e) == Err(InvalidDateFormat)
  {
  }

  /** `data_confirm('year')`: both texts non-empty digit strings, start not after end. */
  function ConfirmYears(start: string, end: string): (r: Result<YearSpan, Rejection>)
    ensures r.Ok? ==> r.value.startYear <= r.value.endYear
    ensures r.Ok? ==> start != "" && end != "" && AllDigits(start) && AllDigits(end)
    ensures r.Err? ==> r.error == InvalidInput || r.error == InvalidRange
  {
    if start == "" || end == "" || !AllDigits(start) || !AllDigits(end) then Err(InvalidInput)
    else if ParseNat(start) > ParseNat(end) then Err(InvalidRange)
    else Ok(YearSpan(ParseNat(start), ParseNat(end)))
  }

  /** Typed-back years are accepted exactly when they are in order. */
  lemma ConfirmYearsRoundTrip(a: nat, b: nat)
    ensures ConfirmYears(NatToString(a), NatToString(b)) ==
      if a <= b then Ok(YearSpan(a, b)) else Err(InvalidRange)
  {
    ParseNatToString(a);
    ParseNatToString(b);
  }

  /** "Invalid input" is the answer exactly when a text is empty or holds
      a non-digit; the range check comes only after it. */
  lemma ConfirmYearsInvalidInput(start: string, end: string)
    ensures ConfirmYears(start, end) == Err(InvalidInput) <==>
      !(start != "" && end != "" && AllDigits(start) && AllDigits(end))
  {
  }

  /** Any two non-empty digit texts, leading zeros included, are accepted
      exactly when their numbers are in order, and then as those numbers. */
  lemma ConfirmYearsComplete(a: string, b: string)
    requires a != "" && b != "" && AllDigits(a) && AllDigits(b)
    ensures ConfirmYears(a, b) ==
      if ParseNat(a) <= ParseNat(b) then Ok(YearSpan(ParseNat(a), ParseNat(b))) else Err(InvalidRange)
  {
  }

  /** `data_type_decorator`: the class-name prefix injected for a data type;
      anything else raises ValueError("Invalid data type"). */
  function ClassPrefix(dataType: string): (r: Result<string, string>)
    ensures r.Ok? <==> dataType == "rain" || dataType == "water"
    ensures r.Err? ==> r.error == "Invalid data type"
  {
    if dataType == "rain" then Ok("SrchRainData")
    else if dataType == "water" then Ok("SrchWaterData")
    else Err("Invalid data type")
  }
}

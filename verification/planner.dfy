/** Query planning shared by the rain and water downloaders: which months or
    years are queried, the `BGNDATE`/`ENDDATE` of each query, and the name of
    the file its payload is saved under. Variants `_1` to `_4` of each data
    kind differ only in these rules. */
module Planner {
  import opened Text
  import opened Calendar

  /** Monthly with the calendar's last day (`_1`), monthly ending on day 31
      (`_2`), one query per year (`_3`), one query for the whole span (`_4`). */
  datatype Variant = MonthlyExact | MonthlyPadded | Yearly | Period

  /** One server query and the stem of the file its payload is saved to. */
  datatype Step = Step(bgnDate: string, endDate: string, stem: string)

  function FileName(s: Step): string
  {
    s.stem + ".dat"
  }

  // ---------------------------------------------------------------------
  // Month enumeration
  // ---------------------------------------------------------------------

  /** A month the monthly downloaders query for the span (sy/sm)..(ey/em). */
  predicate InMonthRange(p: YearMonth, sy: nat, sm: nat, ey: nat, em: nat)
  {
    1 <= p.month <= 12 && NotAfter(sy, sm, p.year, p.month) && NotAfter(p.year, p.month, ey, em)
  }

  /** `scrape_data_for_months`: years `sy..ey`, months 1..12, skipping months
      before the start month in the first year and stopping after the end
      month in the last year. The months visited are exactly the months of
      the span, in strictly increasing order. */
  method PlanMonths(sy: nat, sm: nat, ey: nat, em: nat) returns (visits: seq<YearMonth>)
    ensures StrictlyAscending(visits)
    ensures forall p :: p in visits <==> InMonthRange(p, sy, sm, ey, em)
    ensures !NotAfter(sy, sm, ey, em) ==> visits == []
  {
    visits := [];
    var year := sy;
    while year < ey + 1
      invariant sy <= year
      invariant StrictlyAscending(visits)
      invariant forall p :: p in visits <==> InMonthRange(p, sy, sm, ey, em) && p.year < year
    {
      var month := 1;
      while month < 13
        invariant 1 <= month <= 13
        invariant StrictlyAscending(visits)
        invariant forall p :: p in visits <==>
          InMonthRange(p, sy, sm, ey, em) && (p.year < year || (p.year == year && p.month < month))
      {
        if year == sy && month < sm {
          month := month + 1;
          continue;
        }
        if year == ey && month > em {
          break;
        }
        visits := visits + [YearMonth(year, month)];
        month := month + 1;
      }
      year := year + 1;
    }
    if !NotAfter(sy, sm, ey, em) && visits != [] {
      assert visits[0] in visits;
    }
  }

  // ---------------------------------------------------------------------
  // Steps of each variant
  // ---------------------------------------------------------------------

  /** `f"{year}_{month:02d}"`. */
  function MonthLabel(p: YearMonth): string
  {
    NatToString(p.year) + "_" + Pad2(p.month)
  }

  /** The query for one month: from day 01 to the month's last day (`_1`) or
      to day 31 (`_2`). */
  function MonthStep(padded: bool, p: YearMonth): Step
    requires 1 <= p.month <= 12
  {
    var ym := NatToString(p.year) + Pad2(p.month);
    Step(ym + "01", ym + (if padded then "31" else NatToString(DaysInMonth(p.year, p.month))), MonthLabel(p))
  }

  function MonthSteps(padded: bool, visits: seq<YearMonth>): (steps: seq<Step>)
    requires forall i | 0 <= i < |visits| :: 1 <= visits[i].month <= 12
    ensures |steps| == |visits|
    ensures forall i | 0 <= i < |visits| :: steps[i] == MonthStep(padded, visits[i])
  {
    seq(|visits|, i requires 0 <= i < |visits| => MonthStep(padded, visits[i]))
  }

  /** The query for one year: `{y}0131` to `{y}1231`, saved as `{y}.dat`. */
  function YearStep(year: nat): Step
  {
    Step(NatToString(year) + "0131", NatToString(year) + "1231", NatToString(year))
  }

  /** `for year in range(sy, ey + 1)`. */
  method PlanYears(sy: nat, ey: nat) returns (steps: seq<Step>)
    ensures |steps| == (if sy <= ey then ey - sy + 1 else 0)
    ensures forall i | 0 <= i < |steps| :: steps[i] == YearStep(sy + i)
  {
    steps := [];
    var year := sy;
    while year < ey + 1
      invariant sy <= year
      invariant year <= ey + 1 || year == sy
      invariant |steps| == year - sy
      invariant forall i | 0 <= i < |steps| :: steps[i] == YearStep(sy + i)
    {
      steps := steps + [YearStep(year)];
      year := year + 1;
    }
  }

  /** The single query of the period variant, saved as `{sy}-{ey}.dat`. */
  function PeriodStep(sy: nat, ey: nat): Step
  {
    Step(NatToString(sy) + "0131", NatToString(ey) + "1231", NatToString(sy) + "-" + NatToString(ey))
  }

  // ---------------------------------------------------------------------
  // Dates
  // ---------------------------------------------------------------------

  /** `s` is a date `{y}{mm}{dd}` for the given year, month and day: read
      from its end, the last two digits are the day, the two before them the
      month and the rest the year. */
  predicate DateReads(s: string, year: nat, month: nat, day: nat)
  {
    |s| >= 5 && AllDigits(s[..|s| - 4]) && AllDigits(s[|s| - 4..|s| - 2]) && AllDigits(s[|s| - 2..]) &&
    ParseNat(s[..|s| - 4]) == year && ParseNat(s[|s| - 4..|s| - 2]) == month && ParseNat(s[|s| - 2..]) == day
  }

  lemma DateFields(year: nat, mm: string, dd: string)
    requires |mm| == 2 && |dd| == 2 && AllDigits(mm) && AllDigits(dd)
    ensures DateReads(NatToString(year) + mm + dd, year, ParseNat(mm), ParseNat(dd))
  {
    var y := NatToString(year);
    var s := y + mm + dd;
    assert s[..|s| - 4] == y;
    assert s[|s| - 4..|s| - 2] == mm;
    assert s[|s| - 2..] == dd;
    ParseNatToString(year);
  }

  /** The two-digit fields `"01"`, `"12"` and `"31"` and what they read as. */
  lemma LiteralFields()
    ensures |"01"| == 2 && AllDigits("01") && ParseNat("01") == 1
    ensures |"12"| == 2 && AllDigits("12") && ParseNat("12") == 12
    ensures |"31"| == 2 && AllDigits("31") && ParseNat("31") == 31
  {
    ParseTwoDigits("01");
    ParseTwoDigits("12");
    ParseTwoDigits("31");
  }

  /** A month padded to two digits reads back as the month. */
  lemma MonthField(month: nat) returns (mm: string)
    requires month < 100
    ensures mm == Pad2(month) && |mm| == 2 && AllDigits(mm) && ParseNat(mm) == month
  {
    mm := Pad2(month);
    ParsePad(month, 2);
  }

  /** The last-day field of a monthly query and the day it reads as. */
  lemma EndDayField(padded: bool, p: YearMonth) returns (dd: string)
    requires 1 <= p.month <= 12
    ensures dd == (if padded then "31" else NatToString(DaysInMonth(p.year, p.month)))
    ensures |dd| == 2 && AllDigits(dd)
    ensures ParseNat(dd) == if padded then 31 else DaysInMonth(p.year, p.month)
  {
    if padded {
      dd := "31";
      LiteralFields();
    } else {
      var d := DaysInMonth(p.year, p.month);
      dd := NatToString(d);
      NatToStringLength(d, 2);
      assert NatToString(d) == NatToString(d / 10) + [DigitChar(d % 10)];
      ParseNatToString(d);
    }
  }

  /** A monthly query starts on day 01 of its month and ends in the same
      month on the month's last day (`_1`) or on day 31 (`_2`). */
  lemma MonthStepDates(padded: bool, p: YearMonth)
    requires 1 <= p.month <= 12
    ensures DateReads(MonthStep(padded, p).bgnDate, p.year, p.month, 1)
    ensures DateReads(MonthStep(padded, p).endDate, p.year, p.month,
                      if padded then 31 else DaysInMonth(p.year, p.month))
  {
    var mm := MonthField(p.month);
    var dd := EndDayField(padded, p);
    LiteralFields();
    DateFields(p.year, mm, "01");
    DateFields(p.year, mm, dd);
  }

  /** In the exact variant a February query ends on the 29th exactly in
      Gregorian leap years, and on the 28th otherwise. */
  lemma FebruaryEndDate(year: nat)
    ensures DateReads(MonthStep(false, YearMonth(year, 2)).endDate, year, 2, 29) <==> IsLeapYear(year)
    ensures DateReads(MonthStep(false, YearMonth(year, 2)).endDate, year, 2, 28) <==> !IsLeapYear(year)
  {
    MonthStepDates(false, YearMonth(year, 2));
    FebruaryLength(year);
  }

  /** The yearly and period queries run from January 31 of the first year to
      December 31 of the last; a yearly query is the period query of one year. */
  lemma YearDates(sy: nat, ey: nat)
    ensures DateReads(PeriodStep(sy, ey).bgnDate, sy, 1, 31)
    ensures DateReads(PeriodStep(sy, ey).endDate, ey, 12, 31)
    ensures YearStep(sy).bgnDate == PeriodStep(sy, sy).bgnDate
    ensures YearStep(sy).endDate == PeriodStep(sy, sy).endDate
  {
    LiteralFields();
    DateFields(sy, "01", "31");
    DateFields(ey, "12", "31");
    assert NatToString(sy) + "0131" == NatToString(sy) + "01" + "31";
    assert NatToString(ey) + "1231" == NatToString(ey) + "12" + "31";
  }

  // ---------------------------------------------------------------------
  // File names
  // ---------------------------------------------------------------------

  /** Distinct months of the monthly variants are saved under distinct names. */
  lemma MonthLabelInjective(p: YearMonth, q: YearMonth)
    requires p.month < 100 && q.month < 100
    requires MonthLabel(p) == MonthLabel(q)
    ensures p == q
  {
    var yp, mp := NatToString(p.year), Pad2(p.month);
    var yq, mq := NatToString(q.year), Pad2(q.month);
    DigitsLack(yp, '_');
    DigitsLack(mp, '_');
    DigitsLack(yq, '_');
    DigitsLack(mq, '_');
    SplitPairChar(yp, '_', mp);
    SplitPairChar(yq, '_', mq);
    assert MonthLabel(p) == yp + ['_'] + mp;
    assert MonthLabel(q) == yq + ['_'] + mq;
    NatToStringInjective(p.year, q.year);
    ParsePad(p.month, 2);
    ParsePad(q.month, 2);
  }

  lemma FileNameInjective(a: Step, b: Step)
    requires FileName(a) == FileName(b)
    ensures a.stem == b.stem
  {
    assert a.stem == FileName(a)[..|FileName(a)| - 4];
    assert b.stem == FileName(b)[..|FileName(b)| - 4];
  }

  /** A monthly plan never saves two months to the same file. */
  lemma MonthStepsDistinctFiles(padded: bool, visits: seq<YearMonth>)
    requires StrictlyAscending(visits)
    requires forall i | 0 <= i < |visits| :: 1 <= visits[i].month <= 12
    ensures var steps := MonthSteps(padded, visits);
      forall i, j | 0 <= i < |steps| && 0 <= j < |steps| && i != j :: FileName(steps[i]) != FileName(steps[j])
  {
    var steps := MonthSteps(padded, visits);
    AscendingDistinct(visits);
    forall i, j | 0 <= i < |steps| && 0 <= j < |steps| && i != j
      ensures FileName(steps[i]) != FileName(steps[j])
    {
      assert steps[i].stem == MonthLabel(visits[i]);
      assert steps[j].stem == MonthLabel(visits[j]);
      if FileName(steps[i]) == FileName(steps[j]) {
        FileNameInjective(steps[i], steps[j]);
        MonthLabelInjective(visits[i], visits[j]);
      }
    }
  }

  /** A yearly plan never saves two years to the same file. */
  lemma YearStepsDistinctFiles(a: nat, b: nat)
    requires a != b
    ensures FileName(YearStep(a)) != FileName(YearStep(b))
  {
    if FileName(YearStep(a)) == FileName(YearStep(b)) {
      FileNameInjective(YearStep(a), YearStep(b));
      NatToStringInjective(a, b);
    }
  }

  /** The period file name `{sy}-{ey}` reads back as its two years. */
  lemma PeriodLabelRoundTrip(sy: nat, ey: nat)
    ensures var parts := Split(PeriodStep(sy, ey).stem, "-");
      |parts| == 2 && AllDigits(parts[0]) && AllDigits(parts[1]) &&
      ParseNat(parts[0]) == sy && ParseNat(parts[1]) == ey
  {
    var a, b := NatToString(sy), NatToString(ey);
    DigitsLack(a, '-');
    DigitsLack(b, '-');
    SplitPairChar(a, '-', b);
    assert PeriodStep(sy, ey).stem == a + ['-'] + b;
    ParseNatToString(sy);
    ParseNatToString(ey);
  }

  /** The three naming schemes never share a file name: monthly names hold a
      `'_'`, period names a `'-'`, yearly names only digits. */
  lemma LabelFamiliesDisjoint(p: YearMonth, year: nat, sy: nat, ey: nat)
    ensures '_' in MonthLabel(p) && '-' !in MonthLabel(p)
    ensures '-' in PeriodStep(sy, ey).stem && '_' !in PeriodStep(sy, ey).stem
    ensures '_' !in YearStep(year).stem && '-' !in YearStep(year).stem
  {
    var y, m := NatToString(p.year), Pad2(p.month);
    assert MonthLabel(p)[|y|] == '_';
    DigitsLack(y, '-');
    DigitsLack(m, '-');
    var a, b := NatToString(sy), NatToString(ey);
    assert PeriodStep(sy, ey).stem[|a|] == '-';
    DigitsLack(a, '_');
    DigitsLack(b, '_');
    DigitsLack(NatToString(year), '_');
    DigitsLack(NatToString(year), '-');
  }
}

/** The Gregorian calendar facts the monthly query planner needs, standing in
    for Python's `calendar.monthrange(year, month)[1]`, and the chronological
    order on (year, month) pairs used by the input check and the planners. */
module Calendar {

  /** `calendar.isleap`: divisible by 4, except centuries not divisible by 400. */
  predicate IsLeapYear(year: nat)
  {
    year % 4 == 0 && (year % 100 != 0 || year % 400 == 0)
  }

  /** The number of days in a month of the proleptic Gregorian calendar. */
  function DaysInMonth(year: nat, month: nat): (d: nat)
    requires 1 <= month <= 12
    ensures 28 <= d <= 31
    ensures d == 31 <==> month in {1, 3, 5, 7, 8, 10, 12}
    ensures d == 30 <==> month in {4, 6, 9, 11}
  {
    if month == 2 then (if IsLeapYear(year) then 29 else 28)
    else if month in {4, 6, 9, 11} then 30
    else 31
  }

  /** February has 29 days exactly in leap years, 28 otherwise. */
  lemma FebruaryLength(year: nat)
    ensures DaysInMonth(year, 2) == 29 <==> IsLeapYear(year)
    ensures DaysInMonth(year, 2) == 28 <==> !IsLeapYear(year)
  {
  }

  function DaysBefore(year: nat, month: nat): nat
    requires 1 <= month <= 13
    decreases month
  {
    if month == 1 then 0 else DaysBefore(year, month - 1) + DaysInMonth(year, month - 1)
  }

  /** The twelve month lengths add up to the length of the year. */
  lemma YearLength(year: nat)
    ensures DaysBefore(year, 13) == if IsLeapYear(year) then 366 else 365
  {
    assert DaysBefore(year, 13) == 337 + DaysInMonth(year, 2) by {
      var d := DaysInMonth(year, 2);
      assert DaysBefore(year, 3) == 31 + d;
      assert DaysBefore(year, 7) == 31 + d + 31 + 30 + 31 + 30;
      assert DaysBefore(year, 13) == DaysBefore(year, 7) + 31 + 31 + 30 + 31 + 30 + 31;
    }
  }

  /** A calendar month. */
  datatype YearMonth = YearMonth(year: nat, month: nat)

  /** Lexicographic order on (year, month): the first is not later than the second. */
  predicate NotAfter(y1: nat, m1: nat, y2: nat, m2: nat)
  {
    y1 < y2 || (y1 == y2 && m1 <= m2)
  }

  /** Strict chronological order. */
  predicate Before(a: YearMonth, b: YearMonth)
  {
    a.year < b.year || (a.year == b.year && a.month < b.month)
  }

  predicate StrictlyAscending(s: seq<YearMonth>)
  {
    forall i, j | 0 <= i < j < |s| :: Before(s[i], s[j])
  }

  /** A strictly ascending sequence has no repeats. */
  lemma AscendingDistinct(s: seq<YearMonth>)
    requires StrictlyAscending(s)
    ensures forall i, j | 0 <= i < |s| && 0 <= j < |s| && i != j :: s[i] != s[j]
  {
    forall i, j | 0 <= i < |s| && 0 <= j < |s| && i != j ensures s[i] != s[j] {
      if i < j { assert Before(s[i], s[j]); } else { assert Before(s[j], s[i]); }
    }
  }

  /** The first month of a strictly ascending sequence comes before all others in it. */
  lemma FirstIsLeast(s: seq<YearMonth>, p: YearMonth)
    requires StrictlyAscending(s) && p in s
    ensures p == s[0] || Before(s[0], p)
  {
    var i :| 0 <= i < |s| && s[i] == p;
    if i > 0 {
      assert Before(s[0], s[i]);
    }
  }

  /** Two strictly ascending sequences with the same members are equal: the
      months of a span determine the order they are visited in. */
  lemma {:induction false} AscendingUnique(a: seq<YearMonth>, b: seq<YearMonth>)
    requires StrictlyAscending(a) && StrictlyAscending(b)
    requires forall p :: p in a <==> p in b
    ensures a == b
    decreases |a|
  {
    assert |b| > 0 ==> b[0] in b;
    if |a| > 0 {
      assert a[0] in b;
      FirstIsLeast(b, a[0]);
      FirstIsLeast(a, b[0]);
      AscendingDistinct(a);
      AscendingDistinct(b);
      forall p ensures p in a[1..] <==> p in b[1..] {
        if p in a[1..] {
          var i :| 1 <= i < |a| && a[i] == p;
          assert p in b;
          var j :| 0 <= j < |b| && b[j] == p;
          assert j != 0;
        }
        if p in b[1..] {
          var j :| 1 <= j < |b| && b[j] == p;
          assert p in a;
          var i :| 0 <= i < |a| && a[i] == p;
          assert i != 0;
        }
      }
      AscendingUnique(a[1..], b[1..]);
      assert a == [a[0]] + a[1..] && b == [b[0]] + b[1..];
    }
  }
}

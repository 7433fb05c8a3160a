/** The handful of Python string operations the scraper relies on, over
    `string` = `seq<char>`: `str(n)` and `int(s)` for non-negative decimal
    numbers, `zfill`, `in` on strings, `split`, `join`, `replace(c, '')`
    and ASCII `lower()`. */
module Text {
  import opened Wrappers

  // ---------------------------------------------------------------------
  // Decimal digits and numbers
  // ---------------------------------------------------------------------

  predicate IsDigit(c: char) { '0' <= c <= '9' }

  predicate AllDigits(s: string) { forall i | 0 <= i < |s| :: IsDigit(s[i]) }

  function DigitValue(c: char): (d: nat)
    requires IsDigit(c)
    ensures d < 10
  {
    (c as int) - ('0' as int)
  }

  function DigitChar(d: nat): (c: char)
    requires d < 10
    ensures IsDigit(c) && DigitValue(c) == d
  {
    (('0' as int) + d) as char
  }

  function Pow10(k: nat): (p: nat)
    ensures p >= 1
  {
    if k == 0 then 1 else 10 * Pow10(k - 1)
  }

  /** The longest run of digits at the start of `s` (what `\d+` captures). */
  function DigitRun(s: string): (run: string)
    ensures run <= s && AllDigits(run)
    ensures |run| < |s| ==> !IsDigit(s[|run|])
    decreases |s|
  {
    if s == [] || !IsDigit(s[0]) then []
    else
      var rest := DigitRun(s[1..]);
      assert AllDigits([s[0]] + rest) by {
        forall i | 0 <= i < |[s[0]] + rest| ensures IsDigit(([s[0]] + rest)[i]) {
          if i > 0 { assert ([s[0]] + rest)[i] == rest[i - 1]; }
        }
      }
      [s[0]] + rest
  }

  /** `str(n)` for a non-negative int: decimal digits without a leading zero. */
  function NatToString(n: nat): (s: string)
    ensures |s| > 0 && AllDigits(s)
    ensures s[0] == '0' <==> n == 0
    decreases n
  {
    if n < 10 then [DigitChar(n)] else NatToString(n / 10) + [DigitChar(n % 10)]
  }

  /** `int(s)` for a string of ASCII digits; leading zeros are allowed
      (callers reject the empty string before converting). */
  function ParseNat(s: string): nat
    requires AllDigits(s)
    decreases |s|
  {
    if s == [] then 0 else 10 * ParseNat(s[..|s| - 1]) + DigitValue(s[|s| - 1])
  }

  /** Printing a number and reading it back gives the number. */
  lemma {:induction false} ParseNatToString(n: nat)
    ensures ParseNat(NatToString(n)) == n
  {
    if n >= 10 {
      var s := NatToString(n);
      assert s[..|s| - 1] == NatToString(n / 10);
      ParseNatToString(n / 10);
    }
  }

  /** Distinct numbers print differently. */
  lemma NatToStringInjective(a: nat, b: nat)
    requires NatToString(a) == NatToString(b)
    ensures a == b
  {
    ParseNatToString(a);
    ParseNatToString(b);
  }

  /** A number below 10^k prints with at most k digits. */
  lemma {:induction false} NatToStringLength(n: nat, k: nat)
    ensures k >= 1 && n < Pow10(k) ==> |NatToString(n)| <= k
  {
    if n >= 10 && k >= 1 {
      NatToStringLength(n / 10, k - 1);
    }
  }

  lemma {:induction false} ParseNatAppend(a: string, b: string)
    requires AllDigits(a) && AllDigits(b)
    ensures AllDigits(a + b)
    ensures ParseNat(a + b) == ParseNat(a) * Pow10(|b|) + ParseNat(b)
    decreases |b|
  {
    if b == [] {
      assert a + b == a;
    } else {
      var b' := b[..|b| - 1];
      var d := DigitValue(b[|b| - 1]);
      assert (a + b)[..|a + b| - 1] == a + b';
      assert (a + b)[|a + b| - 1] == b[|b| - 1];
      ParseNatAppend(a, b');
      ScaleByTen(ParseNat(a), Pow10(|b'|));
    }
  }

  lemma ScaleByTen(x: nat, p: nat)
    ensures 10 * (x * p) == x * (10 * p)
  {
  }

  function Zeros(k: nat): (z: string)
    ensures |z| == k && AllDigits(z)
    ensures forall i | 0 <= i < k :: z[i] == '0'
  {
    seq(k, _ => '0')
  }

  lemma {:induction false} ParseZeros(k: nat)
    ensures ParseNat(Zeros(k)) == 0
  {
    if k > 0 {
      assert Zeros(k)[..k - 1] == Zeros(k - 1);
      ParseZeros(k - 1);
    }
  }

  /** `s.zfill(width)` for a digit string; also what `f"{n:0{width}d}"` prints. */
  function ZeroPad(s: string, width: nat): (r: string)
    ensures |r| == if |s| >= width then |s| else width
    ensures r[|r| - |s|..] == s
    ensures forall i | 0 <= i < |r| - |s| :: r[i] == '0'
  {
    if |s| >= width then s else Zeros(width - |s|) + s
  }

  /** Padding with zeros does not change the value read back. */
  lemma ParseZeroPad(s: string, width: nat)
    requires AllDigits(s)
    ensures AllDigits(ZeroPad(s, width))
    ensures ParseNat(ZeroPad(s, width)) == ParseNat(s)
  {
    if |s| < width {
      ParseNatAppend(Zeros(width - |s|), s);
      ParseZeros(width - |s|);
    }
  }

  /** `f"{n:02d}"`. */
  function Pad2(n: nat): (r: string)
    ensures |r| >= 2 && AllDigits(r)
    ensures n < 100 ==> |r| == 2
  {
    NatToStringLength(n, 2);
    ParseZeroPad(NatToString(n), 2);
    ZeroPad(NatToString(n), 2)
  }

  lemma ParsePad(n: nat, width: nat)
    ensures AllDigits(ZeroPad(NatToString(n), width))
    ensures ParseNat(ZeroPad(NatToString(n), width)) == n
  {
    ParseZeroPad(NatToString(n), width);
    ParseNatToString(n);
  }

  lemma ParseTwoDigits(s: string)
    requires |s| == 2 && AllDigits(s)
    ensures ParseNat(s) == 10 * DigitValue(s[0]) + DigitValue(s[1])
  {
    var h := s[..1];
    assert h == [s[0]] && h[..0] == [];
    assert ParseNat(h) == 10 * ParseNat(h[..0]) + DigitValue(s[0]);
    assert ParseNat(s) == 10 * ParseNat(h) + DigitValue(s[1]);
  }

  lemma AllDigitsConcat(a: string, b: string)
    ensures AllDigits(a + b) <==> AllDigits(a) && AllDigits(b)
  {
    if AllDigits(a + b) {
      assert forall i | 0 <= i < |a| :: (a + b)[i] == a[i];
      assert forall i | 0 <= i < |b| :: (a + b)[|a| + i] == b[i];
    }
  }

  /** A digit string holds no character that is not a digit. */
  lemma DigitsLack(s: string, c: char)
    requires AllDigits(s) && !IsDigit(c)
    ensures c !in s
  {
    forall i | 0 <= i < |s| ensures s[i] != c {
    }
  }

  // ---------------------------------------------------------------------
  // Substrings, split and join
  // ---------------------------------------------------------------------

  predicate OccursAt(s: string, pat: string, i: nat)
  {
    i + |pat| <= |s| && s[i..i + |pat|] == pat
  }

  /** `s.find(pat)` for a non-empty pattern, as an option. */
  function IndexOf(s: string, pat: string): Option<nat>
    requires |pat| > 0
    decreases |s|
  {
    if |s| < |pat| then None
    else if s[..|pat|] == pat then Some(0)
    else match IndexOf(s[1..], pat)
      case None => None
      case Some(i) => Some(i + 1)
  }

  lemma OccursShift(s: string, pat: string, k: nat)
    requires |s| > 0
    ensures OccursAt(s, pat, k + 1) <==> OccursAt(s[1..], pat, k)
  {
    if k + 1 + |pat| <= |s| {
      assert s[k + 1..k + 1 + |pat|] == s[1..][k..k + |pat|];
    }
  }

  /** IndexOf finds the first occurrence, and reports none only when there is none. */
  lemma {:induction false} IndexOfSpec(s: string, pat: string)
    requires |pat| > 0
    ensures IndexOf(s, pat).Some? ==> OccursAt(s, pat, IndexOf(s, pat).value)
    ensures IndexOf(s, pat).Some? ==>
      forall k: nat | k < IndexOf(s, pat).value :: !OccursAt(s, pat, k)
    ensures IndexOf(s, pat).None? <==> forall k: nat :: !OccursAt(s, pat, k)
    decreases |s|
  {
    if |s| < |pat| {
    } else if s[..|pat|] == pat {
      assert OccursAt(s, pat, 0);
    } else {
      IndexOfSpec(s[1..], pat);
      assert !OccursAt(s, pat, 0);
      forall k: nat ensures OccursAt(s, pat, k + 1) <==> OccursAt(s[1..], pat, k) {
        OccursShift(s, pat, k);
      }
      match IndexOf(s[1..], pat)
      case None =>
        forall k: nat ensures !OccursAt(s, pat, k) {
          if k > 0 { assert !OccursAt(s[1..], pat, k - 1); }
        }
      case Some(i) =>
        assert OccursAt(s, pat, i + 1);
        forall k: nat | k < i + 1 ensures !OccursAt(s, pat, k) {
          if k > 0 { assert !OccursAt(s[1..], pat, k - 1); }
        }
    }
  }

  /** Python's `pat in s` for a non-empty pattern. */
  predicate Contains(s: string, pat: string)
    requires |pat| > 0
  {
    IndexOf(s, pat).Some?
  }

  lemma ContainsIff(s: string, pat: string)
    requires |pat| > 0
    ensures Contains(s, pat) <==> exists k: nat :: OccursAt(s, pat, k)
  {
    IndexOfSpec(s, pat);
  }

  /** Whatever contains the pattern contains its first character. */
  lemma ContainsFirst(s: string, pat: string)
    requires |pat| > 0
    ensures Contains(s, pat) ==> pat[0] in s
  {
    IndexOfSpec(s, pat);
    if Contains(s, pat) {
      var k := IndexOf(s, pat).value;
      assert s[k..k + |pat|][0] == s[k];
    }
  }

  lemma ContainsChar(s: string, c: char)
    ensures Contains(s, [c]) <==> c in s
  {
    IndexOfSpec(s, [c]);
    if c in s {
      var k :| 0 <= k < |s| && s[k] == c;
      assert OccursAt(s, [c], k);
    }
    if Contains(s, [c]) {
      var k := IndexOf(s, [c]).value;
      assert s[k..k + 1] == [c];
      assert s[k] in s;
    }
  }

  /** An occurrence inside a prefix is an occurrence in the whole string. */
  lemma OccursInPrefix(s: string, n: nat, pat: string, k: nat)
    requires n <= |s| && OccursAt(s[..n], pat, k)
    ensures OccursAt(s, pat, k) && k + |pat| <= n
  {
    assert s[..n][k..k + |pat|] == s[k..k + |pat|];
  }

  /** `s.split(sep)` for a non-empty separator. */
  function Split(s: string, sep: string): (parts: seq<string>)
    requires |sep| > 0
    ensures |parts| >= 1
    decreases |s|
  {
    match IndexOf(s, sep)
    case None => [s]
    case Some(i) =>
      IndexOfSpec(s, sep);
      [s[..i]] + Split(s[i + |sep|..], sep)
  }

  /** `sep.join(parts)`. */
  function Join(parts: seq<string>, sep: string): string
  {
    if |parts| == 0 then ""
    else if |parts| == 1 then parts[0]
    else parts[0] + sep + Join(parts[1..], sep)
  }

  /** Every character of a part is a character of the joined string. */
  lemma {:induction false} JoinHasPartChars(parts: seq<string>, sep: string, p: string, i: nat)
    requires p in parts && i < |p|
    ensures p[i] in Join(parts, sep)
    decreases |parts|
  {
    if |parts| == 1 {
      assert p == parts[0];
    } else if p == parts[0] {
      assert Join(parts, sep) == p + (sep + Join(parts[1..], sep));
      assert Join(parts, sep)[i] == p[i];
    } else {
      assert p in parts[1..];
      JoinHasPartChars(parts[1..], sep, p, i);
      var rest := Join(parts[1..], sep);
      var k :| 0 <= k < |rest| && rest[k] == p[i];
      assert Join(parts, sep) == (parts[0] + sep) + rest;
      assert Join(parts, sep)[|parts[0] + sep| + k] == p[i];
    }
  }

  /** No part of a split contains the separator. */
  lemma {:induction false} SplitPartsFree(s: string, sep: string)
    requires |sep| > 0
    ensures forall p | p in Split(s, sep) :: !Contains(p, sep)
    decreases |s|
  {
    IndexOfSpec(s, sep);
    match IndexOf(s, sep)
    case None =>
    case Some(i) =>
      var head := s[..i];
      IndexOfSpec(head, sep);
      if Contains(head, sep) {
        var k := IndexOf(head, sep).value;
        OccursInPrefix(s, i, sep, k);
        assert false;
      }
      SplitPartsFree(s[i + |sep|..], sep);
  }

  /** Joining the parts of a split with the same separator gives back the string. */
  lemma {:induction false} JoinSplit(s: string, sep: string)
    requires |sep| > 0
    ensures Join(Split(s, sep), sep) == s
    decreases |s|
  {
    match IndexOf(s, sep)
    case None =>
    case Some(i) =>
      IndexOfFound(s, sep);
      var rest := s[i + |sep|..];
      JoinSplit(rest, sep);
      JoinCons(s[..i], Split(rest, sep), sep);
  }

  /** Where `s.find(pat)` answers, `s` is the text before, `pat`, and the text after. */
  lemma IndexOfFound(s: string, pat: string)
    requires |pat| > 0 && IndexOf(s, pat).Some?
    ensures var i := IndexOf(s, pat).value;
      i + |pat| <= |s| && s == s[..i] + pat + s[i + |pat|..]
  {
    IndexOfSpec(s, pat);
    var i := IndexOf(s, pat).value;
    var j := i + |pat|;
    assert s[i..j] == pat;
    assert s[..j] == s[..i] + s[i..j];
    assert s == s[..j] + s[j..];
  }

  lemma JoinCons(x: string, tail: seq<string>, sep: string)
    requires |tail| > 0
    ensures Join([x] + tail, sep) == x + sep + Join(tail, sep)
  {
    assert ([x] + tail)[1..] == tail;
  }

  /** Splitting `x + sep + y` where the only occurrence of `sep` is the one
      placed between them gives exactly `[x, y]`. */
  lemma SplitPair(x: string, sep: string, y: string)
    requires |sep| > 0
    requires forall k: nat | k < |x| :: !OccursAt(x + sep + y, sep, k)
    requires !Contains(y, sep)
    ensures Split(x + sep + y, sep) == [x, y]
  {
    var s := x + sep + y;
    IndexOfSpec(s, sep);
    assert s[|x|..|x| + |sep|] == sep;
    assert OccursAt(s, sep, |x|);
    assert IndexOf(s, sep) == Some(|x|);
    assert s[..|x|] == x;
    assert s[|x| + |sep|..] == y;
    IndexOfSpec(y, sep);
  }

  /** The single-character case of SplitPair. */
  lemma SplitPairChar(x: string, c: char, y: string)
    requires c !in x && c !in y
    ensures Split(x + [c] + y, [c]) == [x, y]
  {
    forall k: nat | k < |x| ensures !OccursAt(x + [c] + y, [c], k) {
      assert (x + [c] + y)[k] == x[k];
    }
    ContainsChar(y, c);
    SplitPair(x, [c], y);
  }

  /** A string free of the separator character splits into itself alone. */
  lemma SplitNone(s: string, c: char)
    requires c !in s
    ensures Split(s, [c]) == [s]
  {
    ContainsChar(s, c);
  }

  /** Splitting cuts at the first separator character. */
  lemma SplitCons(x: string, c: char, rest: string)
    requires c !in x
    ensures Split(x + [c] + rest, [c]) == [x] + Split(rest, [c])
  {
    var s := x + [c] + rest;
    IndexOfSpec(s, [c]);
    assert OccursAt(s, [c], |x|) by {
      assert s[|x|..|x| + 1] == [c];
    }
    forall k: nat | k < |x| ensures !OccursAt(s, [c], k) {
      assert s[k] == x[k];
    }
    assert IndexOf(s, [c]) == Some(|x|);
    assert s[..|x|] == x;
    assert s[|x| + 1..] == rest;
  }

  /** The last part of a split is whatever follows the last separator. */
  lemma {:induction false} SplitLast(a: string, c: char, b: string)
    requires c !in b
    ensures var parts := Split(a + [c] + b, [c]); parts[|parts| - 1] == b
    decreases |a|
  {
    if c !in a {
      SplitCons(a, c, b);
      SplitNone(b, c);
    } else {
      var i :| 0 <= i < |a| && a[i] == c && forall k | 0 <= k < i :: a[k] != c by {
        var j :| 0 <= j < |a| && a[j] == c;
        FirstOccurrence(a, c, j);
      }
      var x, y := a[..i], a[i + 1..];
      assert a == x + [c] + y;
      assert c !in x by {
        forall k | 0 <= k < |x| ensures x[k] != c { assert x[k] == a[k]; }
      }
      assert a + [c] + b == x + [c] + (y + [c] + b);
      SplitCons(x, c, y + [c] + b);
      SplitLast(y, c, b);
    }
  }

  /** A character that occurs has a first occurrence. */
  lemma {:induction false} FirstOccurrence(a: string, c: char, j: nat)
    requires j < |a| && a[j] == c
    ensures exists i | 0 <= i < |a| :: a[i] == c && forall k | 0 <= k < i :: a[k] != c
    decreases j
  {
    if exists k | 0 <= k < j :: a[k] == c {
      var k :| 0 <= k < j && a[k] == c;
      FirstOccurrence(a, c, k);
    } else {
      assert forall k | 0 <= k < j :: a[k] != c;
    }
  }

  /** A part of a split holds only characters of the split string. */
  lemma SplitPartChars(s: string, sep: string, p: string)
    requires |sep| > 0 && p in Split(s, sep)
    ensures forall ch | ch in p :: ch in s
  {
    JoinSplit(s, sep);
    forall ch | ch in p ensures ch in s {
      var i :| 0 <= i < |p| && p[i] == ch;
      JoinHasPartChars(Split(s, sep), sep, p, i);
    }
  }

  /** Parts free of the separator character split back out of their join. */
  lemma {:induction false} SplitJoin(parts: seq<string>, c: char)
    requires |parts| > 0 && forall p | p in parts :: c !in p
    ensures Split(Join(parts, [c]), [c]) == parts
    decreases |parts|
  {
    if |parts| == 1 {
      SplitNone(parts[0], c);
    } else {
      SplitJoin(parts[1..], c);
      assert Join(parts, [c]) == parts[0] + [c] + Join(parts[1..], [c]);
      SplitCons(parts[0], c, Join(parts[1..], [c]));
      assert parts == [parts[0]] + parts[1..];
    }
  }

  /** A character found in neither the parts nor the separator is not in the join. */
  lemma {:induction false} JoinLacks(parts: seq<string>, c: char, x: char)
    requires x != c && forall p | p in parts :: x !in p
    ensures x !in Join(parts, [c])
    decreases |parts|
  {
    if |parts| > 1 {
      JoinLacks(parts[1..], c, x);
      assert parts[0] in parts;
    } else if |parts| == 1 {
      assert parts[0] in parts;
    }
  }

  // ---------------------------------------------------------------------
  // Character-level rewriting
  // ---------------------------------------------------------------------

  /** `s.replace(c, '')`: every occurrence of `c` removed, the rest kept in order. */
  function RemoveChar(s: string, c: char): (r: string)
    ensures c !in r
    ensures forall x | x in r :: x in s
    ensures |r| <= |s|
    ensures multiset(r) == multiset(s)[c := 0]
    ensures c !in s ==> r == s
  {
    if s == [] then []
    else
      assert s == [s[0]] + s[1..];
      (if s[0] == c then [] else [s[0]]) + RemoveChar(s[1..], c)
  }

  /** Removal works piece by piece, so the kept characters stay in their
      order. */
  lemma {:induction false} RemoveCharAppend(a: string, b: string, c: char)
    ensures RemoveChar(a + b, c) == RemoveChar(a, c) + RemoveChar(b, c)
    decreases |a|
  {
    if a != [] {
      assert (a + b)[1..] == a[1..] + b;
      RemoveCharAppend(a[1..], b, c);
    } else {
      assert a + b == b;
    }
  }

  function LowerChar(c: char): char
  {
    if 'A' <= c <= 'Z' then (c as int + 32) as char else c
  }

  /** `s.lower()` restricted to ASCII letters. */
  function Lower(s: string): (r: string)
    ensures |r| == |s|
    ensures forall i | 0 <= i < |s| :: r[i] == LowerChar(s[i])
    ensures forall i | 0 <= i < |r| :: !('A' <= r[i] <= 'Z')
    ensures forall i | 0 <= i < |s| && !('A' <= s[i] <= 'Z') :: r[i] == s[i]
  {
    seq(|s|, i requires 0 <= i < |s| => LowerChar(s[i]))
  }

  /** Lower-casing twice is lower-casing once. */
  lemma LowerIdempotent(s: string)
    ensures Lower(Lower(s)) == Lower(s)
  {
  }

  /** The characters Python's `str.strip()` removes. */
  predicate IsSpace(c: char)
  {
    c == ' ' || '\t' <= c <= '\r' || '\U{001C}' <= c <= '\U{001F}' || c == '\U{0085}' || c == '\U{00A0}' ||
    c == '\U{1680}' || '\U{2000}' <= c <= '\U{200A}' || c == '\U{2028}' || c == '\U{2029}' ||
    c == '\U{202F}' || c == '\U{205F}' || c == '\U{3000}'
  }

  /** `s[i..j]` lies between a whitespace prefix and a whitespace suffix of `s`. */
  predicate Trimmed(s: string, i: nat, j: nat)
  {
    i <= j <= |s| && (forall k | 0 <= k < i :: IsSpace(s[k])) && (forall k | j <= k < |s| :: IsSpace(s[k]))
  }

  lemma TrimmedFront(s: string, i: nat, j: nat)
    requires s != [] && IsSpace(s[0]) && Trimmed(s[1..], i, j)
    ensures Trimmed(s, i + 1, j + 1) && s[1..][i..j] == s[i + 1..j + 1]
  {
    forall k | 0 <= k < i + 1 ensures IsSpace(s[k]) {
      if k > 0 { assert s[k] == s[1..][k - 1]; }
    }
    forall k | j + 1 <= k < |s| ensures IsSpace(s[k]) {
      assert s[k] == s[1..][k - 1];
    }
  }

  lemma TrimmedBack(s: string, i: nat, j: nat)
    requires s != [] && IsSpace(s[|s| - 1]) && Trimmed(s[..|s| - 1], i, j)
    ensures Trimmed(s, i, j) && s[..|s| - 1][i..j] == s[i..j]
  {
    forall k | 0 <= k < i ensures IsSpace(s[k]) {
      assert s[k] == s[..|s| - 1][k];
    }
    forall k | j <= k < |s| ensures IsSpace(s[k]) {
      if k < |s| - 1 { assert s[k] == s[..|s| - 1][k]; }
    }
  }

  /** `s.strip()`: what is left between the leading and the trailing
      whitespace. */
  function Strip(s: string): (r: string)
    ensures |r| <= |s|
    ensures r == [] || (!IsSpace(r[0]) && !IsSpace(r[|r| - 1]))
    decreases |s|
  {
    if s == [] then []
    else if IsSpace(s[0]) then Strip(s[1..])
    else if IsSpace(s[|s| - 1]) then Strip(s[..|s| - 1])
    else s
  }

  /** The stripped text is a slice of `s` with only whitespace outside it. */
  lemma {:induction false} StripSlice(s: string) returns (i: nat, j: nat)
    ensures Trimmed(s, i, j) && Strip(s) == s[i..j]
    decreases |s|
  {
    if s == [] {
      i, j := 0, 0;
    } else if IsSpace(s[0]) {
      var i', j' := StripSlice(s[1..]);
      TrimmedFront(s, i', j');
      i, j := i' + 1, j' + 1;
    } else if IsSpace(s[|s| - 1]) {
      i, j := StripSlice(s[..|s| - 1]);
      TrimmedBack(s, i, j);
    } else {
      i, j := 0, |s|;
    }
  }
}

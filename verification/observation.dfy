/** `ObservationDataMatcher`: reads a station's site-information page to find
    the `KIND` code linked from the station's image and the data type the page
    links to. The parsed page is given as its status, its images (with the
    `href` of the enclosing anchor) and the `href`s of its anchors, in
    document order. */
module Observation {
  import opened Wrappers
  import opened Text

  const SiteInfoBase := "http://www1.river.go.jp/cgi-bin/SiteInfo.exe"

  function SiteInfoUrl(id: string): string
  {
    SiteInfoBase + "?ID=" + id
  }

  /** An `<img>`: its `alt` text and the `href` of its parent `<a>`, when
      there is such an anchor and it has an `href`. */
  datatype Image = Image(alt: string, parentHref: Option<string>)

  datatype SitePage = SitePage(status: int, images: seq<Image>, links: seq<string>)

  // ---------------------------------------------------------------------
  // re.search(r'KIND=(\d+)', href)
  // ---------------------------------------------------------------------

  /** The pattern matches at `i`: `KIND=` followed by at least one digit. */
  predicate KindAt(h: string, i: nat)
  {
    OccursAt(h, "KIND=", i) && i + 5 < |h| && IsDigit(h[i + 5])
  }

  /** The captured group of the leftmost match, if the pattern matches. */
  function KindSearch(h: string): (k: Option<string>)
    ensures k.Some? ==> |k.value| > 0 && AllDigits(k.value)
    decreases |h|
  {
    if |h| < 6 then None
    else if h[..5] == "KIND=" && IsDigit(h[5]) then Some(DigitRun(h[5..]))
    else KindSearch(h[1..])
  }

  /** The search finds the leftmost match and captures its whole digit run;
      it finds nothing only when the pattern matches nowhere. */
  lemma {:induction false} KindSearchSpec(h: string)
    ensures KindSearch(h).Some? ==> exists i: nat ::
      && KindAt(h, i)
      && (forall j: nat | j < i :: !KindAt(h, j))
      && KindSearch(h).value == DigitRun(h[i + 5..])
    ensures KindSearch(h).None? ==> forall i: nat :: !KindAt(h, i)
    decreases |h|
  {
    if |h| < 6 {
    } else if h[..5] == "KIND=" && IsDigit(h[5]) {
      assert KindAt(h, 0);
    } else {
      KindSearchSpec(h[1..]);
      assert !KindAt(h, 0);
      forall i: nat ensures KindAt(h, i + 1) <==> KindAt(h[1..], i) {
        OccursShift(h, "KIND=", i);
      }
      if KindSearch(h[1..]).Some? {
        var i: nat :| KindAt(h[1..], i) && (forall j: nat | j < i :: !KindAt(h[1..], j)) &&
          KindSearch(h[1..]).value == DigitRun(h[1..][i + 5..]);
        assert h[1..][i + 5..] == h[i + 1 + 5..];
        forall j: nat | j < i + 1 ensures !KindAt(h, j) {
          if j > 0 { assert !KindAt(h[1..], j - 1); }
        }
        assert KindAt(h, i + 1);
      } else {
        forall i: nat ensures !KindAt(h, i) {
          if i > 0 { assert !KindAt(h[1..], i - 1); }
        }
      }
    }
  }

  // ---------------------------------------------------------------------
  // check_name_in_page
  // ---------------------------------------------------------------------

  /** The image whose anchor gives the kind: it carries the station's name
      as `alt` and its anchor's `href` matches the pattern. */
  predicate KindImage(img: Image, name: string)
  {
    img.alt == name && img.parentHref.Some? && KindSearch(img.parentHref.value).Some?
  }

  /** The `for img in images` scan, returning at the first match. */
  function FirstKind(images: seq<Image>, name: string): (k: Option<string>)
    ensures k.Some? ==> |k.value| > 0 && AllDigits(k.value)
    decreases |images|
  {
    if images == [] then None
    else if KindImage(images[0], name) then KindSearch(images[0].parentHref.value)
    else FirstKind(images[1..], name)
  }

  /** The scan answers with the kind of the first matching image, and with
      nothing only when no image matches. */
  lemma {:induction false} FirstKindSpec(images: seq<Image>, name: string)
    ensures FirstKind(images, name).Some? ==> exists i | 0 <= i < |images| ::
      KindImage(images[i], name) && (forall j | 0 <= j < i :: !KindImage(images[j], name)) &&
      FirstKind(images, name) == KindSearch(images[i].parentHref.value)
    ensures FirstKind(images, name).None? ==> forall i | 0 <= i < |images| :: !KindImage(images[i], name)
    decreases |images|
  {
    if images != [] && !KindImage(images[0], name) {
      FirstKindSpec(images[1..], name);
      if FirstKind(images[1..], name).Some? {
        var i :| 0 <= i < |images[1..]| && KindImage(images[1..][i], name) &&
          (forall j | 0 <= j < i :: !KindImage(images[1..][j], name)) &&
          FirstKind(images[1..], name) == KindSearch(images[1..][i].parentHref.value);
        assert KindImage(images[i + 1], name);
      }
    }
  }

  /** `check_name_in_page`: `(True, kind)` or `(False, None)`. */
  function CheckNameInPage(page: SitePage, name: string): (r: (bool, Option<string>))
    ensures r.0 <==> r.1.Some?
    ensures r.1.Some? ==> |r.1.value| > 0 && AllDigits(r.1.value)
    ensures page.status != 200 ==> r == (false, None)
  {
    if page.status != 200 then (false, None)
    else
      match FirstKind(page.images, name)
      case None => (false, None)
      case Some(k) => (true, Some(k))
  }

  // ---------------------------------------------------------------------
  // check_data_type
  // ---------------------------------------------------------------------

  /** The names looked for in each link, in priority order; a name's index
      is its data-type code. */
  const DataTypeNames: seq<string> := ["SrchRainData", "SrchWaterData", "SrchWquaData",
    "SrchUWaterData", "SrchDamData", "SrchKaisyoData", "SrchSnowData"]

  /** The first name, from index `c` on, that the link contains. */
  function CodeInHref(h: string, c: nat): (code: Option<nat>)
    requires c <= |DataTypeNames|
    ensures code.Some? ==> c <= code.value < |DataTypeNames|
    decreases |DataTypeNames| - c
  {
    if c == |DataTypeNames| then None
    else if Contains(h, DataTypeNames[c]) then Some(c)
    else CodeInHref(h, c + 1)
  }

  /** A link's code is the first name in priority order that it contains. */
  lemma {:induction false} CodeInHrefSpec(h: string, c: nat)
    requires c <= |DataTypeNames|
    ensures CodeInHref(h, c).Some? ==> var d := CodeInHref(h, c).value;
      c <= d < |DataTypeNames| && Contains(h, DataTypeNames[d]) &&
      forall e | c <= e < d :: !Contains(h, DataTypeNames[e])
    ensures CodeInHref(h, c).None? ==> forall e | c <= e < |DataTypeNames| :: !Contains(h, DataTypeNames[e])
    decreases |DataTypeNames| - c
  {
    if c < |DataTypeNames| && !Contains(h, DataTypeNames[c]) {
      CodeInHrefSpec(h, c + 1);
    }
  }

  /** The `for link in links` scan, returning at the first link that names a type. */
  function FirstCode(links: seq<string>): (code: Option<nat>)
    ensures code.Some? ==> code.value < |DataTypeNames|
    decreases |links|
  {
    if links == [] then None
    else match CodeInHref(links[0], 0)
      case Some(c) => Some(c)
      case None => FirstCode(links[1..])
  }

  /** The code comes from the first link that names any type, and is that
      link's highest-priority name. */
  lemma {:induction false} FirstCodeSpec(links: seq<string>)
    ensures FirstCode(links).Some? ==> exists i | 0 <= i < |links| ::
      CodeInHref(links[i], 0) == FirstCode(links) && NoCodeBefore(links, i)
    ensures FirstCode(links).None? ==> NoCodeBefore(links, |links|)
    decreases |links|
  {
    if links != [] && CodeInHref(links[0], 0).None? {
      FirstCodeSpec(links[1..]);
      if FirstCode(links[1..]).Some? {
        var i :| 0 <= i < |links[1..]| && CodeInHref(links[1..][i], 0) == FirstCode(links[1..]) &&
          NoCodeBefore(links[1..], i);
        NoCodeShift(links, i);
        assert CodeInHref(links[i + 1], 0) == FirstCode(links);
      } else {
        NoCodeShift(links, |links| - 1);
      }
    }
  }

  /** No link before index `n` names a data type. */
  predicate NoCodeBefore(links: seq<string>, n: nat)
    requires n <= |links|
  {
    forall j | 0 <= j < n :: CodeInHref(links[j], 0).None?
  }

  lemma NoCodeShift(links: seq<string>, n: nat)
    requires 0 < |links| && n < |links| && CodeInHref(links[0], 0).None? && NoCodeBefore(links[1..], n)
    ensures NoCodeBefore(links, n + 1)
  {
    forall j | 0 <= j < n + 1 ensures CodeInHref(links[j], 0).None? {
      if j > 0 { assert links[j] == links[1..][j - 1]; }
    }
  }

  /** `check_data_type`: a code in 0..6, or None. */
  function CheckDataType(page: SitePage): (code: Option<nat>)
    ensures code.Some? ==> code.value < |DataTypeNames|
    ensures page.status != 200 ==> code.None?
  {
    if page.status != 200 then None
    else FirstCode(page.links)
  }

  /** What the code means: some link, and every earlier link names no type;
      that link holds the code's name and none of higher priority. */
  lemma CheckDataTypeMeaning(page: SitePage)
    requires CheckDataType(page).Some?
    ensures var c := CheckDataType(page).value;
      exists i | 0 <= i < |page.links| ::
        Contains(page.links[i], DataTypeNames[c]) &&
        (forall e | 0 <= e < c :: !Contains(page.links[i], DataTypeNames[e])) &&
        (forall j | 0 <= j < i :: NamesNone(page.links[j]))
  {
    var c := CheckDataType(page).value;
    FirstCodeSpec(page.links);
    var i :| 0 <= i < |page.links| && CodeInHref(page.links[i], 0) == Some(c) && NoCodeBefore(page.links, i);
    CodeInHrefSpec(page.links[i], 0);
    forall j | 0 <= j < i ensures NamesNone(page.links[j]) {
      CodeInHrefSpec(page.links[j], 0);
    }
  }

  /** The link contains none of the data-type names. */
  predicate NamesNone(h: string)
  {
    forall e | 0 <= e < |DataTypeNames| :: !Contains(h, DataTypeNames[e])
  }
}

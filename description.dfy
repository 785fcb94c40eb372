/** `scrape_job_description` of scrapeandapply.py with its helper
    `_get_full_scraped_content`: which text becomes the job description, how it
    is cleaned, and what the three results are on each path. What the browser
    reports is an input, one observation per read. */
module Description {
  import opened Text

  const DiceIdMarker := "Dice Id:"

  /** The CSS selectors tried for the description, most specific first. */
  const DescriptionSelectors: seq<string> := [
    "[class*=\"jobDescription\"]", "[class*=\"job-description\"]", "[itemprop=\"description\"]",
    "[data-cy=\"job-description\"]", "[data-testid=\"job-description\"]", "#jobDescription",
    ".job-description", "article [class*=\"description\"]", "main [class*=\"description\"]"]

  /** A stripped string: its own strip. */
  predicate Stripped(s: string) { Strip(s) == s }

  /** An occurrence in the strip of `s` is an occurrence in `s`. */
  lemma ContainsOfStrip(s: string, pat: string)
    requires Contains(Strip(s), pat)
    ensures Contains(s, pat)
  {
    var r := Strip(s);
    var i: nat :| i <= |r| && OccursAt(r, pat, i);
    if LeadingSpaces(s) == |s| {
      assert pat == [] && OccursAt(s, pat, 0);
    } else {
      var lo, hi := LeadingSpaces(s), |s| - TrailingSpaces(s);
      assert r == s[lo..hi];
      OccursInSlice(s, lo, hi, pat, i);
    }
  }

  /** `text.split("Dice Id:")[0].strip()` when the marker occurs, the text itself
      otherwise. */
  function CutAtDiceId(text: string): (r: string)
    ensures !Contains(text, DiceIdMarker) ==> r == text
    ensures Contains(text, DiceIdMarker) ==> r == Strip(text[..Find(text, DiceIdMarker).value])
  {
    match Find(text, DiceIdMarker)
    case None => text
    case Some(i) => Strip(text[..i])
  }

  /** The cut never leaves the marker in, and keeps stripped text stripped. */
  lemma CutAtDiceIdSpec(text: string)
    ensures !Contains(CutAtDiceId(text), DiceIdMarker)
    ensures Stripped(text) ==> Stripped(CutAtDiceId(text))
    ensures |CutAtDiceId(text)| <= |text|
  {
    match Find(text, DiceIdMarker)
    case None =>
    case Some(i) =>
      var before := text[..i];
      NoneBefore(text, i, DiceIdMarker);
      if Contains(Strip(before), DiceIdMarker) {
        ContainsOfStrip(before, DiceIdMarker);
      }
      StripIdempotent(before);
  }

  /** A selector candidate: the text is stripped and kept only when longer than
      100 characters; the marker cut comes after that test. */
  function Accept(text: string): (r: Option<string>)
    ensures r.Some? <==> |Strip(text)| > 100
    ensures r.Some? ==> r.value == CutAtDiceId(Strip(text))
  {
    var cleaned := Strip(text);
    if |cleaned| > 100 then Some(CutAtDiceId(cleaned)) else None
  }

  /** An accepted description is stripped, free of the marker and no longer than
      the stripped candidate. */
  lemma AcceptSpec(text: string)
    requires Accept(text).Some?
    ensures Stripped(Accept(text).value) && !Contains(Accept(text).value, DiceIdMarker)
    ensures |Accept(text).value| <= |Strip(text)|
  {
    StripIdempotent(text);
    CutAtDiceIdSpec(Strip(text));
  }

  /** Because the cut follows the length test, a candidate longer than 100
      characters can yield an empty description. */
  lemma AcceptCanBeEmpty(filler: string)
    requires |filler| == 100 && forall k :: 0 <= k < 100 ==> filler[k] == 'x'
    ensures Accept(DiceIdMarker + filler) == Some("")
  {
    var t := DiceIdMarker + filler;
    assert !IsSpace(t[0]) && !IsSpace(t[|t| - 1]);
    StripOfStripped(t);
    assert t[0..8] == DiceIdMarker;
    assert OccursAt(t, DiceIdMarker, 0);
    assert Find(t, DiceIdMarker) == Some(0);
    assert t[..0] == [];
  }

  /** One element matched by a selector: not visible, visible with this inner
      text, or raising while being read, which abandons the selector. */
  datatype Elem = Hidden | Shown(text: string) | Broken

  /** What one selector yielded: its elements, or an exception from the lookup. */
  datatype Scan = ScanFailed | Elements(elems: seq<Elem>)

  /** An element the loop moves past without a result. */
  predicate PassedOver(e: Elem) {
    e.Hidden? || (e.Shown? && Accept(e.text).None?)
  }

  /** An element whose text gives the result `r`. */
  predicate Yields(e: Elem, r: Option<string>) {
    e.Shown? && Accept(e.text) == r
  }

  /** The element loop of one selector: the first visible element whose text is
      accepted; None when the elements run out or one raises. */
  function ScanElements(elems: seq<Elem>): Option<string> {
    if elems == [] then None
    else
      match elems[0]
      case Broken => None
      case Hidden => ScanElements(elems[1..])
      case Shown(t) => if Accept(t).Some? then Accept(t) else ScanElements(elems[1..])
  }

  /** A description comes from an element that yields it, every earlier element
      having been passed over; when no visible element is accepted there is none. */
  lemma {:induction false} ScanElementsSpec(elems: seq<Elem>)
    ensures ScanElements(elems).Some? ==>
      exists k :: 0 <= k < |elems| && Yields(elems[k], ScanElements(elems))
        && forall j :: 0 <= j < k ==> PassedOver(elems[j])
    ensures (forall k :: 0 <= k < |elems| ==> !elems[k].Shown? || Accept(elems[k].text).None?) ==>
      ScanElements(elems).None?
    ensures forall k :: 0 <= k < |elems| && !PassedOver(elems[k]) && (forall j :: 0 <= j < k ==> PassedOver(elems[j])) ==>
      ScanElements(elems) == (if elems[k].Broken? then None else Accept(elems[k].text))
  {
    if elems != [] && PassedOver(elems[0]) {
      var tail := elems[1..];
      ScanElementsSpec(tail);
      ElementsStep(elems, ScanElements(tail));
      assert forall k :: 0 <= k < |tail| ==> tail[k] == elems[k + 1];
      forall k | 0 < k < |elems| && !PassedOver(elems[k]) && (forall j :: 0 <= j < k ==> PassedOver(elems[j]))
        ensures ScanElements(elems) == (if elems[k].Broken? then None else Accept(elems[k].text))
      {
        assert tail[k - 1] == elems[k];
        assert forall j :: 0 <= j < k - 1 ==> PassedOver(tail[j]);
      }
    }
  }

  lemma ElementsStep(elems: seq<Elem>, r: Option<string>)
    requires elems != [] && PassedOver(elems[0])
    requires r.Some? ==>
      exists k :: 0 <= k < |elems[1..]| && Yields(elems[1..][k], r)
        && forall j :: 0 <= j < k ==> PassedOver(elems[1..][j])
    ensures r.Some? ==>
      exists k :: 0 <= k < |elems| && Yields(elems[k], r)
        && forall j :: 0 <= j < k ==> PassedOver(elems[j])
  {
    if r.Some? {
      var k :| 0 <= k < |elems[1..]| && Yields(elems[1..][k], r)
        && forall j :: 0 <= j < k ==> PassedOver(elems[1..][j]);
      ShiftFirst(elems, k, (e: Elem) => PassedOver(e));
      assert elems[k + 1] == elems[1..][k];
    }
  }

  /** A run of passed-over elements after one more passed-over element. */
  lemma ShiftFirst<T>(s: seq<T>, k: nat, pass: T -> bool)
    requires k < |s| - 1 && pass(s[0])
    requires forall j :: 0 <= j < k ==> pass(s[1..][j])
    ensures forall j :: 0 <= j < k + 1 ==> pass(s[j])
  {
    forall j | 0 <= j < k + 1 ensures pass(s[j]) {
      if j > 0 { assert s[j] == s[1..][j - 1]; }
    }
  }

  /** What one selector contributes. */
  function SelectorResult(scan: Scan): Option<string> {
    match scan
    case ScanFailed => None
    case Elements(elems) => ScanElements(elems)
  }

  /** The selector loop: the first selector whose element loop finds a
      description. */
  function ScanSelectors(scans: seq<Scan>): Option<string> {
    if scans == [] then None
    else if SelectorResult(scans[0]).Some? then SelectorResult(scans[0])
    else ScanSelectors(scans[1..])
  }

  /** A description comes from the first selector that yields one; none means
      that no selector yielded one. */
  lemma {:induction false} ScanSelectorsSpec(scans: seq<Scan>)
    ensures ScanSelectors(scans).Some? ==>
      exists k :: 0 <= k < |scans| && SelectorResult(scans[k]) == ScanSelectors(scans)
        && forall j :: 0 <= j < k ==> SelectorResult(scans[j]).None?
    ensures ScanSelectors(scans).None? ==> forall j :: 0 <= j < |scans| ==> SelectorResult(scans[j]).None?
  {
    if scans != [] && SelectorResult(scans[0]).None? {
      ScanSelectorsSpec(scans[1..]);
      SelectorsStep(scans, ScanSelectors(scans[1..]));
    }
  }

  lemma SelectorsStep(scans: seq<Scan>, r: Option<string>)
    requires scans != [] && SelectorResult(scans[0]).None?
    requires r.Some? ==>
      exists k :: 0 <= k < |scans[1..]| && SelectorResult(scans[1..][k]) == r
        && forall j :: 0 <= j < k ==> SelectorResult(scans[1..][j]).None?
    requires r.None? ==> forall j :: 0 <= j < |scans[1..]| ==> SelectorResult(scans[1..][j]).None?
    ensures r.Some? ==>
      exists k :: 0 <= k < |scans| && SelectorResult(scans[k]) == r
        && forall j :: 0 <= j < k ==> SelectorResult(scans[j]).None?
    ensures r.None? ==> forall j :: 0 <= j < |scans| ==> SelectorResult(scans[j]).None?
  {
    if r.Some? {
      var k :| 0 <= k < |scans[1..]| && SelectorResult(scans[1..][k]) == r
        && forall j :: 0 <= j < k ==> SelectorResult(scans[1..][j]).None?;
      ShiftFirst(scans, k, (s: Scan) => SelectorResult(s).None?);
      assert scans[k + 1] == scans[1..][k];
    } else {
      forall j | 0 <= j < |scans| ensures SelectorResult(scans[j]).None? {
        if j > 0 { assert scans[j] == scans[1..][j - 1]; }
      }
    }
  }

  /** Every description a selector yields is stripped and free of the marker. */
  lemma ScanElementsClean(elems: seq<Elem>)
    requires ScanElements(elems).Some?
    ensures Stripped(ScanElements(elems).value) && !Contains(ScanElements(elems).value, DiceIdMarker)
  {
    ScanElementsSpec(elems);
    var k :| 0 <= k < |elems| && Yields(elems[k], ScanElements(elems))
      && forall j :: 0 <= j < k ==> PassedOver(elems[j]);
    AcceptSpec(elems[k].text);
  }

  lemma ScanSelectorsClean(scans: seq<Scan>)
    requires ScanSelectors(scans).Some?
    ensures Stripped(ScanSelectors(scans).value) && !Contains(ScanSelectors(scans).value, DiceIdMarker)
  {
    ScanSelectorsSpec(scans);
    var k :| 0 <= k < |scans| && SelectorResult(scans[k]) == ScanSelectors(scans);
    ScanElementsClean(scans[k].elems);
  }

  /** The `<main>` element: absent, present with this inner text, or raising. */
  datatype MainObs = NoMain | MainText(text: string) | MainRaises

  /** `_get_full_scraped_content`: the stripped text of `<main>` if there is one,
      else the stripped text of `<body>` (None when reading it raises), else "". */
  function FullContent(main: MainObs, body: Option<string>): (r: string)
    ensures Stripped(r)
    ensures main.MainText? ==> r == Strip(main.text)
    ensures !main.MainText? && body.Some? ==> r == Strip(body.value)
    ensures !main.MainText? && body.None? ==> r == []
  {
    match main
    case MainText(t) => StripIdempotent(t); Strip(t)
    case _ =>
      match body
      case Some(b) => StripIdempotent(b); Strip(b)
      case None => []
  }

  /** Everything one call observes: whether navigation succeeded; the `<h1>`
      text (None when there is none, it is hidden, or reading it raises); what
      each entry of `DescriptionSelectors` yields, in order; `<main>` as the
      fallback reads it; `<main>` as `_get_full_scraped_content` reads it again;
      and `<body>` (None when reading it raises). The two reads of `<main>` are
      separate observations. */
  datatype DetailPage = DetailPage(loaded: bool, heading: Option<string>, scans: seq<Scan>,
                                   main: MainObs, contentMain: MainObs, body: Option<string>)

  /** The triple `(job_title, description, full_content)`. */
  datatype Scraped = Scraped(title: string, description: string, content: string)

  /** The `<h1>` text stripped, or "" when there is none, it is hidden or reading
      it raises. */
  function Title(heading: Option<string>): (r: string)
    ensures Stripped(r)
    ensures heading.Some? ==> r == Strip(heading.value)
    ensures heading.None? ==> r == []
  {
    match heading
    case Some(h) => StripIdempotent(h); Strip(h)
    case None => []
  }

  /** `scrape_job_description`. */
  function ScrapeJobDescription(page: DetailPage): (r: Scraped)
    ensures !page.loaded ==> r == Scraped([], [], [])
    ensures !Contains(r.description, DiceIdMarker)
    ensures page.loaded ==> r.title == Title(page.heading) && r.content == FullContent(page.contentMain, page.body)
    ensures page.loaded && ScanSelectors(page.scans).Some? ==> r.description == ScanSelectors(page.scans).value
    ensures page.loaded && ScanSelectors(page.scans).None? ==>
      r.description == (if page.main.MainText? then CutAtDiceId(Strip(page.main.text)) else [])
  {
    if !page.loaded then Scraped([], [], [])
    else
      var title := Title(page.heading);
      var full := FullContent(page.contentMain, page.body);
      match ScanSelectors(page.scans)
      case Some(d) =>
        ScanSelectorsClean(page.scans);
        Scraped(title, d, full)
      case None =>
        match page.main
        case MainText(t) =>
          StripIdempotent(t);
          CutAtDiceIdSpec(Strip(t));
          Scraped(title, CutAtDiceId(Strip(t)), full)
        case _ => Scraped(title, [], full)
  }

  /** All three results are stripped. */
  lemma ScrapeJobDescriptionClean(page: DetailPage)
    ensures Stripped(ScrapeJobDescription(page).title)
    ensures Stripped(ScrapeJobDescription(page).description)
    ensures Stripped(ScrapeJobDescription(page).content)
  {
    if page.loaded {
      match ScanSelectors(page.scans)
      case Some(d) => ScanSelectorsClean(page.scans);
      case None =>
        match page.main
        case MainText(t) =>
          StripIdempotent(t);
          CutAtDiceIdSpec(Strip(t));
        case _ =>
    }
  }
}

/** The listing side of scrapeandapply.py: `get_total_pages` on the first result
    page and the post-processing in `scrape_job_listings` (href normalisation and
    order-preserving de-duplication). HTTP fetching and HTML parsing are replaced
    by their results: the `aria-label` attributes of the page's `<section>`
    elements, in document order, and per result page the list of job anchors. */
module Listings {
  import opened Text

  // ---------------------------------------------------------------------
  // Integers as `int()` reads them and `str()` writes them

  predicate IsDigit(c: char) { '0' <= c <= '9' }

  /** Decimal digits with single underscores between them (PEP 515), the body that
      `int()` accepts after an optional sign. */
  predicate DigitBody(t: string) {
    t != [] && IsDigit(t[0]) && IsDigit(t[|t| - 1])
    && (forall k :: 0 <= k < |t| ==> IsDigit(t[k]) || t[k] == '_')
    && (forall k :: 0 <= k < |t| - 1 && t[k] == '_' ==> t[k + 1] != '_')
  }

  /** The value of the digits of `t`, underscores skipped. */
  function DigitsValue(t: string): nat {
    if t == [] then 0
    else
      var c := t[|t| - 1];
      if IsDigit(c) then DigitsValue(t[..|t| - 1]) * 10 + (c as int - '0' as int)
      else DigitsValue(t[..|t| - 1])
  }

  /** Python's `int(t)` for a token that holds no whitespace; None where it raises
      `ValueError`. */
  function ParseInt(t: string): (r: Option<int>)
    ensures r.Some? <==> DigitBody(t) || (t != [] && (t[0] == '+' || t[0] == '-') && DigitBody(t[1..]))
  {
    if t != [] && (t[0] == '+' || t[0] == '-') then
      if DigitBody(t[1..]) then
        var v: int := DigitsValue(t[1..]);
        Some(if t[0] == '-' then -v else v)
      else None
    else if DigitBody(t) then Some(DigitsValue(t))
    else None
  }

  function DigitChar(d: nat): char
    requires d < 10
  {
    ('0' as int + d) as char
  }

  function ShowNat(n: nat): (r: string)
    ensures r != []
    ensures forall k :: 0 <= k < |r| ==> IsDigit(r[k])
  {
    if n < 10 then [DigitChar(n)] else ShowNat(n / 10) + [DigitChar(n % 10)]
  }

  /** Python's `str(n)`. */
  function Show(n: int): (r: string)
    ensures r != []
  {
    if n < 0 then "-" + ShowNat(-n) else ShowNat(n)
  }

  lemma {:induction false} ShowNatValue(n: nat)
    ensures DigitsValue(ShowNat(n)) == n
  {
    if n >= 10 {
      var s := ShowNat(n);
      assert s[..|s| - 1] == ShowNat(n / 10);
      ShowNatValue(n / 10);
    }
  }

  lemma ShowNatBody(n: nat)
    ensures DigitBody(ShowNat(n)) && ShowNat(n)[0] != '+' && ShowNat(n)[0] != '-'
  {
    var s := ShowNat(n);
    assert IsDigit(s[0]) && IsDigit(s[|s| - 1]);
    assert forall k :: 0 <= k < |s| - 1 && s[k] == '_' ==> false;
  }

  /** `int(str(n)) == n`. */
  lemma ParseShow(n: int)
    ensures ParseInt(Show(n)) == Some(n)
  {
    if n < 0 {
      var d := ShowNat(-n);
      ShowNatValue(-n);
      ShowNatBody(-n);
      ParseNegative(d);
      assert Show(n) == "-" + d;
    } else {
      ShowNatValue(n);
      ShowNatBody(n);
    }
  }

  lemma ParseNegative(d: string)
    requires DigitBody(d)
    ensures ParseInt("-" + d) == Some(-(DigitsValue(d) as int))
  {
    assert ("-" + d)[1..] == d;
  }

  // ---------------------------------------------------------------------
  // get_total_pages

  /** Python's `s.replace(pat, "")`: occurrences removed left to right. */
  function RemoveAll(s: string, pat: string): (r: string)
    requires pat != []
    ensures |r| <= |s|
    decreases |s|
  {
    if s == [] then []
    else if StartsWith(s, pat) then RemoveAll(s[|pat|..], pat)
    else [s[0]] + RemoveAll(s[1..], pat)
  }

  lemma {:induction false} RemoveAllSkips(a: string, b: string, pat: string)
    requires pat != []
    requires forall k :: 0 <= k < |a| ==> a[k] != pat[0]
    ensures RemoveAll(a + b, pat) == a + RemoveAll(b, pat)
  {
    if a != [] {
      assert (a + b)[0] == a[0];
      assert !StartsWith(a + b, pat);
      assert (a + b)[1..] == a[1..] + b;
      RemoveAllSkips(a[1..], b, pat);
    } else {
      assert a + b == b;
    }
  }

  lemma RemoveAllDrops(b: string, pat: string)
    requires pat != []
    ensures RemoveAll(pat + b, pat) == RemoveAll(b, pat)
  {
    assert StartsWith(pat + b, pat);
    assert (pat + b)[|pat|..] == b;
  }

  lemma RemoveAllNone(a: string, pat: string)
    requires pat != []
    requires forall k :: 0 <= k < |a| ==> a[k] != pat[0]
    ensures RemoveAll(a, pat) == a
  {
    RemoveAllSkips(a, [], pat);
    assert a + [] == a;
  }

  /** The `aria-label` the section lookup picks: the first one holding "Page". */
  function FirstPageLabel(labels: seq<Option<string>>): (r: Option<string>)
    ensures r.Some? ==> Some(r.value) in labels && Contains(r.value, "Page")
    ensures r.None? <==> forall k :: 0 <= k < |labels| ==> labels[k].None? || !Contains(labels[k].value, "Page")
    ensures r.Some? ==> exists k :: 0 <= k < |labels| && labels[k] == r
                          && forall j :: 0 <= j < k ==> labels[j].None? || !Contains(labels[j].value, "Page")
  {
    if labels == [] then None
    else if labels[0].Some? && Contains(labels[0].value, "Page") then labels[0]
    else
      var r := FirstPageLabel(labels[1..]);
      assert forall k :: 1 <= k < |labels| ==> labels[k] == labels[1..][k - 1];
      r
  }

  /** The tokens the label splits into once "Page" and then "of" are removed. */
  function PageTokens(aria: string): seq<string> {
    Split(RemoveAll(RemoveAll(aria, "Page"), "of"))
  }

  /** `get_total_pages`: the second integer when the tokens are exactly two
      integers; 1 when there is no such section or the tokens have any other shape.
      The result may be zero or negative; no page is then scraped. */
  function TotalPages(labels: seq<Option<string>>): (r: int)
    ensures FirstPageLabel(labels).None? ==> r == 1
    ensures FirstPageLabel(labels).Some? ==>
      var toks := PageTokens(FirstPageLabel(labels).value);
      if |toks| == 2 && ParseInt(toks[0]).Some? && ParseInt(toks[1]).Some?
      then r == ParseInt(toks[1]).value else r == 1
  {
    match FirstPageLabel(labels)
    case None => 1
    case Some(aria) =>
      var toks := PageTokens(aria);
      if |toks| == 2 && ParseInt(toks[0]).Some? && ParseInt(toks[1]).Some?
      then ParseInt(toks[1]).value else 1
  }

  /** Characters `str()` writes for an integer. */
  predicate Numeral(s: string) {
    s != [] && forall k :: 0 <= k < |s| ==> IsDigit(s[k]) || s[k] == '-'
  }

  lemma ShowNumeral(n: int)
    ensures Numeral(Show(n))
  {
    if n < 0 {
      forall k | 0 <= k < |Show(n)| ensures IsDigit(Show(n)[k]) || Show(n)[k] == '-' {
        if k > 0 { assert Show(n)[k] == ShowNat(-n)[k - 1]; }
      }
    }
  }

  lemma RemovePageWord(a: string, b: string)
    requires Numeral(a) && Numeral(b)
    ensures RemoveAll("Page " + a + " of " + b, "Page") == " " + a + " of " + b
  {
    var rest := " " + a + " of " + b;
    assert "Page " + a + " of " + b == "Page" + rest;
    RemoveAllDrops(rest, "Page");
    RemoveAllNone(rest, "Page");
  }

  lemma RemoveOfWord(a: string, b: string)
    requires Numeral(a) && Numeral(b)
    ensures RemoveAll(" " + a + " of " + b, "of") == " " + a + "  " + b
  {
    var pre, post := " " + a + " ", " " + b;
    assert " " + a + " of " + b == pre + ("of" + post);
    assert pre + post == " " + a + "  " + b;
    RemoveBetween(pre, post, "of");
  }

  /** Removing the one occurrence that sits between two parts free of its first
      character. */
  lemma RemoveBetween(pre: string, post: string, pat: string)
    requires pat != []
    requires forall k :: 0 <= k < |pre| ==> pre[k] != pat[0]
    requires forall k :: 0 <= k < |post| ==> post[k] != pat[0]
    ensures RemoveAll(pre + (pat + post), pat) == pre + post
  {
    RemoveAllSkips(pre, pat + post, pat);
    RemoveAllDrops(post, pat);
    RemoveAllNone(post, pat);
  }

  lemma SplitNumerals(a: string, b: string)
    requires Numeral(a) && Numeral(b)
    ensures Split(" " + a + "  " + b) == [a, b]
  {
    var tail := "  " + b;
    assert " " + a + "  " + b == " " + (a + tail);
    SplitSkipsSpaces(" ", a + tail);
    SplitWord(a, tail);
    SplitSkipsSpaces("  ", b);
    SplitWord(b, []);
    assert b + [] == b;
  }

  /** The label Dice writes, "Page <current> of <total>", gives back <total>. */
  lemma TotalPagesOfLabel(current: int, total: int)
    ensures TotalPages([Some("Page " + Show(current) + " of " + Show(total))]) == total
  {
    var a, b := Show(current), Show(total);
    ShowNumeral(current);
    ShowNumeral(total);
    var aria := "Page " + a + " of " + b;
    assert OccursAt(aria, "Page", 0);
    RemovePageWord(a, b);
    RemoveOfWord(a, b);
    SplitNumerals(a, b);
    assert PageTokens(aria) == [a, b];
    ParseShow(current);
    ParseShow(total);
  }

  // ---------------------------------------------------------------------
  // Anchors and postings

  /** A job anchor: its stripped text and its `href` attribute, if any. */
  datatype Anchor = Anchor(title: string, href: Option<string>)

  /** A collected job: `{"Job Title": title, "Job Link": link}`. */
  datatype Posting = Posting(title: string, link: string)

  /** Root-relative hrefs are made absolute on the Dice host. */
  function NormalizeHref(href: string): (r: string)
    ensures StartsWith(href, "/") ==> r == "https://www.dice.com" + href
    ensures !StartsWith(href, "/") ==> r == href
  {
    if StartsWith(href, "/") then "https://www.dice.com" + href else href
  }

  /** A normalised href is never root-relative and normalising it again is the
      identity; the original href is its suffix. */
  lemma NormalizeHrefIdempotent(href: string)
    ensures !StartsWith(NormalizeHref(href), "/")
    ensures NormalizeHref(NormalizeHref(href)) == NormalizeHref(href)
    ensures NormalizeHref(href)[|NormalizeHref(href)| - |href|..] == href
    ensures NormalizeHref(href) == [] <==> href == []
  {
    if StartsWith(href, "/") {
      assert NormalizeHref(href)[0] == 'h';
    }
  }

  predicate Usable(a: Anchor) { a.href.Some? && a.href.value != [] }

  /** The anchors a page contributes: those whose href is missing or empty are
      dropped, the rest become postings with normalised links, in order. */
  function NormalizeAnchors(anchors: seq<Anchor>): (r: seq<Posting>)
    ensures |r| <= |anchors|
  {
    if anchors == [] then []
    else
      var init, a := anchors[..|anchors| - 1], anchors[|anchors| - 1];
      var r := NormalizeAnchors(init);
      if Usable(a) then r + [Posting(a.title, NormalizeHref(a.href.value))] else r
  }

  /** Every posting comes from a usable anchor, every usable anchor gives one,
      and no posting has an empty link. */
  lemma {:induction false} NormalizeAnchorsSpec(anchors: seq<Anchor>)
    ensures forall p :: p in NormalizeAnchors(anchors) ==>
      exists a :: a in anchors && Usable(a) && p == Posting(a.title, NormalizeHref(a.href.value))
    ensures forall a :: a in anchors && Usable(a) ==> Posting(a.title, NormalizeHref(a.href.value)) in NormalizeAnchors(anchors)
    ensures forall p :: p in NormalizeAnchors(anchors) ==> p.link != []
  {
    if anchors != [] {
      var init, a := anchors[..|anchors| - 1], anchors[|anchors| - 1];
      NormalizeAnchorsSpec(init);
      assert anchors == init + [a];
      assert forall b :: b in anchors <==> b in init || b == a;
      if Usable(a) {
        NormalizeHrefIdempotent(a.href.value);
      }
    }
  }

  /** The anchor loop of one page. */
  method PageJobs(anchors: seq<Anchor>) returns (found: seq<Posting>)
    ensures found == NormalizeAnchors(anchors)
  {
    found := [];
    for i := 0 to |anchors|
      invariant found == NormalizeAnchors(anchors[..i])
    {
      var a := anchors[i];
      assert anchors[..i + 1][..i] == anchors[..i];
      if a.href.Some? && a.href.value != [] {
        var link := a.href.value;
        if StartsWith(link, "/") {
          link := "https://www.dice.com" + link;
        }
        found := found + [Posting(a.title, link)];
      }
    }
    assert anchors[..|anchors|] == anchors;
  }

  datatype PageFetch = Fetched(anchors: seq<Anchor>) | FetchFailed

  function PagePostings(f: PageFetch): seq<Posting> {
    match f
    case FetchFailed => []
    case Fetched(anchors) => NormalizeAnchors(anchors)
  }

  /** Postings of pages 1..n in page order; a page that fails to load adds none. */
  function Collected(fetch: int -> PageFetch, n: int): (r: seq<Posting>)
    ensures n <= 0 ==> r == []
    decreases n
  {
    if n <= 0 then [] else Collected(fetch, n - 1) + PagePostings(fetch(n))
  }

  // ---------------------------------------------------------------------
  // De-duplication

  function Links(s: seq<Posting>): set<string> {
    set p | p in s :: p.link
  }

  lemma LinksSnoc(s: seq<Posting>, p: Posting)
    ensures Links(s + [p]) == Links(s) + {p.link}
  {
    assert forall q :: q in s + [p] <==> q in s || q == p;
  }

  /** The first posting of each link, in input order. */
  function Deduplicated(s: seq<Posting>): seq<Posting>
    decreases |s|
  {
    if s == [] then []
    else
      var d := Deduplicated(s[..|s| - 1]);
      var last := s[|s| - 1];
      if last.link in Links(d) then d else d + [last]
  }

  predicate NoDuplicateLinks(d: seq<Posting>) {
    forall i, j :: 0 <= i < j < |d| ==> d[i].link != d[j].link
  }

  /** The elements of `b` whose mask entry is true, in order. */
  function Select<T>(b: seq<T>, mask: seq<bool>): seq<T>
    requires |mask| == |b|
  {
    if b == [] then []
    else
      var rest := Select(b[..|b| - 1], mask[..|b| - 1]);
      if mask[|b| - 1] then rest + [b[|b| - 1]] else rest
  }

  ghost predicate Subsequence<T>(a: seq<T>, b: seq<T>) {
    exists mask: seq<bool> :: |mask| == |b| && a == Select(b, mask)
  }

  /** Which positions the de-duplication keeps. */
  function FirstMask(s: seq<Posting>): (m: seq<bool>)
    ensures |m| == |s|
  {
    if s == [] then []
    else FirstMask(s[..|s| - 1]) + [s[|s| - 1].link !in Links(s[..|s| - 1])]
  }

  lemma {:induction false} DedupLinks(s: seq<Posting>)
    ensures Links(Deduplicated(s)) == Links(s)
  {
    if s != [] {
      var init, last := s[..|s| - 1], s[|s| - 1];
      DedupLinks(init);
      assert s == init + [last];
      LinksSnoc(init, last);
      LinksSnoc(Deduplicated(init), last);
    }
  }

  lemma {:induction false} DedupSelects(s: seq<Posting>)
    ensures Deduplicated(s) == Select(s, FirstMask(s))
  {
    if s != [] {
      var init := s[..|s| - 1];
      DedupSelects(init);
      DedupLinks(init);
      assert FirstMask(s)[..|s| - 1] == FirstMask(init);
    }
  }

  lemma {:induction false} DedupNoDuplicates(s: seq<Posting>)
    ensures NoDuplicateLinks(Deduplicated(s))
  {
    if s != [] {
      var init, last := s[..|s| - 1], s[|s| - 1];
      DedupNoDuplicates(init);
      var d := Deduplicated(init);
      if last.link !in Links(d) {
        forall i | 0 <= i < |d| ensures d[i].link != last.link {
          assert d[i] in d;
        }
      }
    }
  }

  lemma {:induction false} DedupFirstSeen(s: seq<Posting>)
    ensures forall i :: 0 <= i < |s| && s[i].link !in Links(s[..i]) ==> s[i] in Deduplicated(s)
  {
    if s != [] {
      var init, last := s[..|s| - 1], s[|s| - 1];
      DedupFirstSeen(init);
      DedupLinks(init);
      var d := Deduplicated(init);
      forall i | 0 <= i < |s| && s[i].link !in Links(s[..i]) ensures s[i] in Deduplicated(s) {
        if i < |s| - 1 {
          assert s[..i] == init[..i];
          assert init[i] == s[i];
          assert s[i] in d;
        } else {
          assert s[..i] == init;
        }
      }
    }
  }

  lemma {:induction false} DedupFromInput(s: seq<Posting>)
    ensures forall p :: p in Deduplicated(s) ==> p in s
  {
    if s != [] {
      var init := s[..|s| - 1];
      DedupFromInput(init);
      assert forall p :: p in init ==> p in s;
    }
  }

  /** What the de-duplication promises: no link twice, a subsequence of the input,
      the same set of links, and for every link the posting where it first
      appears (hence its first-seen title). */
  lemma DeduplicatedSpec(s: seq<Posting>)
    ensures NoDuplicateLinks(Deduplicated(s))
    ensures Subsequence(Deduplicated(s), s)
    ensures Links(Deduplicated(s)) == Links(s)
    ensures forall i :: 0 <= i < |s| && s[i].link !in Links(s[..i]) ==> s[i] in Deduplicated(s)
    ensures forall p :: p in Deduplicated(s) ==> p in s
  {
    DedupNoDuplicates(s);
    DedupSelects(s);
    DedupLinks(s);
    DedupFirstSeen(s);
    DedupFromInput(s);
  }

  /** The de-duplication loop over a `seen` set and a `deduped` list. */
  method Dedup(jobs: seq<Posting>) returns (deduped: seq<Posting>)
    ensures deduped == Deduplicated(jobs)
  {
    var seen: set<string> := {};
    deduped := [];
    for i := 0 to |jobs|
      invariant deduped == Deduplicated(jobs[..i])
      invariant seen == Links(deduped)
    {
      var j := jobs[i];
      assert jobs[..i + 1][..i] == jobs[..i];
      if j.link !in seen {
        LinksSnoc(deduped, j);
        seen := seen + {j.link};
        deduped := deduped + [j];
      }
    }
    assert jobs[..|jobs|] == jobs;
  }

  /** The page loop of `scrape_job_listings` over pages 1..total. */
  method ScrapePages(total: int, fetch: int -> PageFetch) returns (collected: seq<Posting>)
    ensures collected == Collected(fetch, total)
  {
    collected := [];
    var p := 1;
    while p <= total
      invariant p == 1 || 1 <= p <= total + 1
      invariant collected == Collected(fetch, p - 1)
      decreases total - p
    {
      match fetch(p) {
        case FetchFailed =>
        case Fetched(anchors) =>
          var found := PageJobs(anchors);
          collected := collected + found;
      }
      p := p + 1;
    }
  }

  /** `scrape_job_listings`: pages 1..TotalPages in order, the anchors of each
      page that loaded, then the de-duplication. `labels` are the section labels
      of the first page (none when it failed to load); `fetch(p)` is page `p`. */
  method ScrapeJobListings(labels: seq<Option<string>>, fetch: int -> PageFetch) returns (jobs: seq<Posting>)
    ensures jobs == Deduplicated(Collected(fetch, TotalPages(labels)))
  {
    var total := TotalPages(labels);
    var collected := ScrapePages(total, fetch);
    jobs := Dedup(collected);
  }
}

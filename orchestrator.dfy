/** The per-link loop of `main` in scrapeandapply.py: which scraped links are
    new, the short-circuiting chain run for each of them (description, marker,
    classifier, apply), the seen-link bookkeeping on every path and the
    `submitted` counter. The browser, the classifier service and the apply
    flow's observations are inputs, one per processed link. */
module Orchestrator {
  import opened Text
  import opened SeenLinks
  import opened Listings
  import opened Description
  import opened Marker
  import opened Classifier
  import opened ApplyFlow

  /** `[j["Job Link"] for j in jobs]` */
  function JobLinks(jobs: seq<Posting>): (r: seq<string>)
    ensures |r| == |jobs| && forall k :: 0 <= k < |jobs| ==> r[k] == jobs[k].link
  {
    if jobs == [] then [] else JobLinks(jobs[..|jobs| - 1]) + [jobs[|jobs| - 1].link]
  }

  /** `[lnk for lnk in links if lnk not in seen_links]` */
  function NewLinks(links: seq<string>, seen: set<string>): (r: seq<string>)
    ensures forall x :: x in r <==> x in links && x !in seen
  {
    if links == [] then []
    else
      var init, last := links[..|links| - 1], links[|links| - 1];
      assert links == init + [last];
      NewLinks(init, seen) + (if last in seen then [] else [last])
  }

  /** Which positions of `links` are new. */
  function NewMask(links: seq<string>, seen: set<string>): (m: seq<bool>)
    ensures |m| == |links| && forall k :: 0 <= k < |links| ==> (m[k] <==> links[k] !in seen)
  {
    if links == [] then [] else NewMask(links[..|links| - 1], seen) + [links[|links| - 1] !in seen]
  }

  /** The new links are exactly the unseen ones, in scraped order. */
  lemma {:induction false} NewLinksInOrder(links: seq<string>, seen: set<string>)
    ensures NewLinks(links, seen) == Select(links, NewMask(links, seen))
    ensures Subsequence(NewLinks(links, seen), links)
  {
    if links != [] {
      var init := links[..|links| - 1];
      NewLinksInOrder(init, seen);
      assert NewMask(links, seen)[..|links| - 1] == NewMask(init, seen);
    }
  }

  /** De-duplicated listings give new links without repeats. */
  lemma {:induction false} NewLinksDistinct(links: seq<string>, seen: set<string>)
    requires forall i, j :: 0 <= i < j < |links| ==> links[i] != links[j]
    ensures forall i, j :: 0 <= i < j < |NewLinks(links, seen)| ==> NewLinks(links, seen)[i] != NewLinks(links, seen)[j]
  {
    if links != [] {
      var init, last := links[..|links| - 1], links[|links| - 1];
      NewLinksDistinct(init, seen);
      assert last !in init;
      assert last !in NewLinks(init, seen);
    }
  }

  /** How one link ended: no description, no marker in the page text, a NO from
      the classifier, or an apply attempt with its result. */
  datatype Verdict = NoDescription | NoMarker | Declined | Attempted(applied: bool)

  /** The verdict and the prompt the classifier was asked, if it was. */
  datatype Handling = Handling(verdict: Verdict, asked: Option<Prompt>)

  /** The chain run for one link, given what its page showed, the classifier's
      replies and the apply flow's observations. */
  function Decide(resume: string, page: DetailPage, service: Prompt -> Reply, flow: Observations): Handling {
    var s := ScrapeJobDescription(page);
    if s.description == [] then Handling(NoDescription, None)
    else if !HasMarkerText(s.content) then Handling(NoMarker, None)
    else
      var c := ShouldApplyToJob(resume, s.title, s.description, service);
      if !c.verdict then Handling(Declined, c.asked)
      else Handling(Attempted(EasyApply(true, flow).applied), c.asked)
  }

  /** The chain run for the first `n` new links, in order. */
  function Handled(resume: string, pages: nat -> DetailPage, services: nat -> (Prompt -> Reply),
                   flows: nat -> Observations, n: nat): (r: seq<Handling>)
    ensures |r| == n
  {
    if n == 0 then [] else Handled(resume, pages, services, flows, n - 1) + [Decide(resume, pages(n - 1), services(n - 1), flows(n - 1))]
  }

  /** The number of links whose apply attempt returned True. */
  function Successes(hs: seq<Handling>): (n: nat)
    ensures n <= |hs|
  {
    if hs == [] then 0
    else Successes(hs[..|hs| - 1]) + (if hs[|hs| - 1].verdict == Attempted(true) then 1 else 0)
  }

  lemma SuccessesStep(hs: seq<Handling>, h: Handling)
    ensures Successes(hs + [h]) == Successes(hs) + (if h.verdict == Attempted(true) then 1 else 0)
  {
    assert (hs + [h])[..|hs|] == hs;
  }

  /** What the seen-link file holds after appending `ls` one by one. */
  function Logged(file: Option<string>, ls: seq<string>): Option<string> {
    if ls == [] then file else Some(Appended(Logged(file, ls[..|ls| - 1]), ls[|ls| - 1]))
  }

  /** Appending one by one is appending the whole log at once; with nothing to
      append the file is left as it was (a missing file stays missing). */
  lemma {:induction false} LoggedSpec(file: Option<string>, ls: seq<string>)
    ensures ls == [] ==> Logged(file, ls) == file
    ensures ls != [] ==> Logged(file, ls) == Some(file.GetOr("") + LogLines(ls))
  {
    if ls != [] {
      var init, last := ls[..|ls| - 1], ls[|ls| - 1];
      LoggedSpec(file, init);
      assert LogLines(ls) == LogLines(init) + last + "\n";
      if init == [] {
        assert LogLines(init) == [] && file.GetOr("") + LogLines(init) == file.GetOr("");
      }
      assert Logged(file, init).GetOr("") == file.GetOr("") + LogLines(init);
      assert file.GetOr("") + LogLines(ls) == file.GetOr("") + LogLines(init) + last + "\n";
    }
  }

  /** The short circuits of the chain: no description or no marker stops it
      before the classifier is asked. */
  lemma DecideStops(resume: string, page: DetailPage, service: Prompt -> Reply, flow: Observations)
    ensures ScrapeJobDescription(page).description == [] ==>
      Decide(resume, page, service, flow) == Handling(NoDescription, None)
    ensures var s := ScrapeJobDescription(page);
      s.description != [] && !HasMarkerText(s.content) ==>
      Decide(resume, page, service, flow) == Handling(NoMarker, None)
  {
  }

  /** Once both gates pass the classifier is always asked: the description is
      stripped and non-empty, so its blank-input guard cannot fire. */
  lemma DecideAsks(resume: string, page: DetailPage, service: Prompt -> Reply, flow: Observations)
    requires ScrapeJobDescription(page).description != []
    requires HasMarkerText(ScrapeJobDescription(page).content)
    ensures var s := ScrapeJobDescription(page);
      Decide(resume, page, service, flow).asked == Some(ApplyPrompt(s.title, s.description, resume))
  {
    ScrapeJobDescriptionClean(page);
  }

  /** The apply flow runs only after a YES, and its result is the verdict. */
  lemma DecideAttempts(resume: string, page: DetailPage, service: Prompt -> Reply, flow: Observations)
    requires Decide(resume, page, service, flow).verdict.Attempted?
    ensures var h := Decide(resume, page, service, flow);
      h.asked.Some? && service(h.asked.value).Answer?
      && StartsWith(ReplyText(service(h.asked.value).content), "YES")
      && h.verdict.applied == EasyApply(true, flow).applied
  {
  }

  /** The body of the loop for one link, up to the bookkeeping. */
  method HandleLink(resume: string, page: DetailPage, service: Prompt -> Reply, flow: Observations)
    returns (h: Handling)
    ensures h == Decide(resume, page, service, flow)
  {
    var scraped := ScrapeJobDescription(page);
    if scraped.description == [] {
      return Handling(NoDescription, None);
    }
    if !HasMarkerText(scraped.content) {
      return Handling(NoMarker, None);
    }
    var c := ShouldApplyToJob(resume, scraped.title, scraped.description, service);
    if !c.verdict {
      return Handling(Declined, c.asked);
    }
    var applied, _ := EasyApplyOnJob(true, flow);
    h := Handling(Attempted(applied), c.asked);
  }

  /** `main`, from the scraped listings on. `store` is the seen-link file. */
  method Run(jobs: seq<Posting>, store: SeenFile, resume: string, pages: nat -> DetailPage,
             services: nat -> (Prompt -> Reply), flows: nat -> Observations)
    returns (newLinks: seq<string>, handled: seq<Handling>, seen: set<string>, submitted: nat)
    modifies store
    ensures newLinks == NewLinks(JobLinks(jobs), ParseSeen(old(store.content)))
    ensures handled == Handled(resume, pages, services, flows, |newLinks|)
    ensures submitted == Successes(handled) && submitted <= |newLinks|
    ensures seen == ParseSeen(old(store.content)) + (set l | l in newLinks)
    ensures store.content == Logged(old(store.content), newLinks)
  {
    seen := store.Links();
    newLinks := NewLinks(JobLinks(jobs), seen);
    handled := [];
    submitted := 0;
    if newLinks == [] {
      return;
    }
    handled, seen, submitted := HandleAll(newLinks, store, seen, resume, pages, services, flows);
    MembersSpec(newLinks);
  }

  /** The loop over the new links: every link is handled, then counted if its
      attempt succeeded, then appended to the file and to `seen`. */
  method HandleAll(newLinks: seq<string>, store: SeenFile, seen0: set<string>, resume: string,
                   pages: nat -> DetailPage, services: nat -> (Prompt -> Reply), flows: nat -> Observations)
    returns (handled: seq<Handling>, seen: set<string>, submitted: nat)
    modifies store
    ensures handled == Handled(resume, pages, services, flows, |newLinks|)
    ensures submitted == Successes(handled)
    ensures seen == seen0 + Members(newLinks)
    ensures store.content == Logged(old(store.content), newLinks)
  {
    handled, seen, submitted := [], seen0, 0;
    ghost var file := store.content;
    ghost var done: seq<string> := [];
    var i := 0;
    while i < |newLinks|
      invariant 0 <= i <= |newLinks| && done == newLinks[..i]
      invariant handled == Handled(resume, pages, services, flows, i)
      invariant submitted == Successes(handled)
      invariant seen == seen0 + Members(done)
      invariant store.content == Logged(file, done)
    {
      var link := newLinks[i];
      TakeStep(newLinks, i);
      var h := HandleLinkAt(resume, pages, services, flows, i);
      if h.verdict == Attempted(true) {
        submitted := submitted + 1;
      }
      SuccessesStep(handled, h);
      Record(store, link, file, done);
      seen := seen + {link};
      MembersStep(done, link);
      handled := handled + [h];
      done := done + [link];
      i := i + 1;
    }
    assert done == newLinks;
  }

  /** Appending one handled link to the seen-link file extends the log by it. */
  method Record(store: SeenFile, link: string, ghost file: Option<string>, ghost done: seq<string>)
    requires store.content == Logged(file, done)
    modifies store
    ensures store.content == Logged(file, done + [link])
  {
    LoggedStep(file, done, link);
    store.Append(link);
  }

  /** The loop body for the `i`-th new link, stated as the next entry of
      `Handled`. */
  method HandleLinkAt(resume: string, pages: nat -> DetailPage, services: nat -> (Prompt -> Reply),
                      flows: nat -> Observations, i: nat) returns (h: Handling)
    ensures Handled(resume, pages, services, flows, i + 1) == Handled(resume, pages, services, flows, i) + [h]
  {
    h := HandleLink(resume, pages(i), services(i), flows(i));
  }

  lemma TakeStep<T>(s: seq<T>, i: nat)
    requires i < |s|
    ensures s[..i + 1] == s[..i] + [s[i]]
  {
  }

  lemma LoggedStep(file: Option<string>, done: seq<string>, link: string)
    ensures Logged(file, done + [link]) == Some(Appended(Logged(file, done), link))
  {
    assert (done + [link])[..|done|] == done;
  }

  /** The links of `s`, as a set. */
  function Members<T>(s: seq<T>): set<T> {
    if s == [] then {} else Members(s[..|s| - 1]) + {s[|s| - 1]}
  }

  lemma MembersStep<T>(s: seq<T>, x: T)
    ensures Members(s + [x]) == Members(s) + {x}
  {
    assert (s + [x])[..|s|] == s;
  }

  lemma {:induction false} MembersSpec<T>(s: seq<T>)
    ensures Members(s) == set l | l in s
  {
    if s != [] {
      MembersSpec(s[..|s| - 1]);
      assert s == s[..|s| - 1] + [s[|s| - 1]];
    }
  }

  /** Logging clean links at a line boundary adds exactly those links to the
      set read back. */
  lemma ParsedAfterLog(file: Option<string>, ls: seq<string>)
    requires EndsLine(file.GetOr(""))
    requires forall k :: 0 <= k < |ls| ==> CleanLink(ls[k])
    ensures ParseSeen(Logged(file, ls)) == ParseSeen(file) + (set l | l in ls)
  {
    LoggedSpec(file, ls);
    if ls != [] {
      AppendAllParsed(file.GetOr(""), ls);
      KeptClean(ls);
      if file.None? {
        assert Lines("") == [""];
        assert Kept([""]) == {};
      }
    }
  }

  /** Links that are all seen give nothing new. */
  lemma NothingNew(links: seq<string>, seen: set<string>)
    requires forall k :: 0 <= k < |links| ==> links[k] in seen
    ensures NewLinks(links, seen) == []
  {
  }

  /** A link with surrounding whitespace is stored as it is but read back
      stripped, so it is new again on every run, whatever the file holds. */
  lemma UnstrippedLinkStaysNew(links: seq<string>, file: Option<string>)
    ensures forall k :: 0 <= k < |links| && Strip(links[k]) != links[k] ==>
      links[k] in NewLinks(links, ParseSeen(file))
  {
    ParseSeenStripped(file);
  }

  /** Running again over the same listings finds nothing new, provided the file
      ended at a line boundary and every link is a clean line. */
  lemma RerunFindsNothing(jobs: seq<Posting>, file: Option<string>)
    requires EndsLine(file.GetOr(""))
    requires forall k :: 0 <= k < |jobs| ==> CleanLink(jobs[k].link)
    ensures NewLinks(JobLinks(jobs), ParseSeen(Logged(file, NewLinks(JobLinks(jobs), ParseSeen(file))))) == []
  {
    var links := JobLinks(jobs);
    var newLinks := NewLinks(links, ParseSeen(file));
    forall k | 0 <= k < |newLinks| ensures CleanLink(newLinks[k]) {
      assert newLinks[k] in links;
    }
    ParsedAfterLog(file, newLinks);
    var after := ParseSeen(Logged(file, newLinks));
    forall k | 0 <= k < |links| ensures links[k] in after {
      if links[k] !in ParseSeen(file) {
        assert links[k] in newLinks;
      }
    }
    NothingNew(links, after);
  }
}

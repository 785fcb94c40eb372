# Dice Easy-Apply bot: a verified model of its decision and bookkeeping core

The bot scrapes Dice job listings. For every posting it has not processed before, it:

1. reads the posting page;
2. checks that the page text carries the "Contract Corp To Corp" employment type;
3. asks a language model whether to apply;
4. if the answer is YES, walks through Dice's Easy Apply form.

Every processed link is recorded in `seen_links.txt` so that a later run skips it. This project models everything in that pipeline that is a decision or bookkeeping. The browser, HTTP and the language model are replaced by what they observed or answered. It proves what each decision promises.

The modules follow the structure of the program:

| module | models |
|---|---|
| `Text` (`text.dfy`) | The Python string operations the code relies on: `str.isspace`, `strip`, `lower`/`upper`, `in`, `startswith`, `find`, slicing and `split()`. It also holds a small case-insensitive pattern language for the two regular expressions `contract\s+corp\s+to\s+corp` and `easy\s*apply\|apply\s*now`. It has an executable matcher, proved equal to the patterns' meaning. |
| `SeenLinks` (`seen_links.dfy`) | `load_seen_links` as a parse of the file's content (`None` when the file does not exist). `append_seen_link` as appending to the content, with a `SeenFile` class whose `Append` method updates the content in place. |
| `Listings` (`listings.dfy`) | `get_total_pages`, with Python's `replace`, `split()` and `int()`. `scrape_job_listings`: the page loop, the href normalisation of the anchor loop and the order-preserving de-duplication loop, each as a method proved equal to a specification function. |
| `Marker` (`marker.dfy`) | `has_contract_corp_to_corp_in_text`. |
| `ApplyButton` (`apply_button.dfy`) | The text tests of `_find_apply_button_anywhere` / `_get_apply_button`, and the order in which their candidates are tried. |
| `Description` (`description.dfy`) | `scrape_job_description` and `_get_full_scraped_content`: the selector and element loops, the length test, the cut at "Dice Id:", the `<main>` fallback and the error path. |
| `Classifier` (`classifier.dfy`) | `should_apply_to_job` and `is_lead_architect_or_manager_role` in helper.py: the blank-input guards, the prompt excerpts and the reply tests. It also covers the reply parsing of `get_matching_score`. |
| `ApplyFlow` (`apply_flow.dfy`) | `easy_apply_on_job` as a bounded state machine over abstract observations: a specification function, and a method with its polling loops proved equal to it. The result also records the page interactions performed, so bounds on polls, clicks and loop rounds can be stated. |
| `Orchestrator` (`orchestrator.dfy`) | `main` from the scraped listings on: the new links, the short-circuiting chain per link, the seen-link bookkeeping on every path and the `submitted` counter. |

Where the documentation and the code disagree, the model follows the code.

- **Order of the checks around the classifier.** The design describes the structural eligibility check as a gate before the reasoning service is asked. In the code, `main` checks only the page *text* before calling `should_apply_to_job`. The visible "Contract Corp To Corp" element is checked later, inside `easy_apply_on_job` (scrapeandapply.py:393). So a page whose text has the marker but whose element is hidden is still sent to the classifier.
- **The no-resume path.** When the resume step never appears, the code tries only a Submit click (scrapeandapply.py:490-505), although its comment mentions Next/Submit. So a flow that shows Next, Next, then Submit with no resume step returns False. `ApplyFlow.AppliedOnlyWhen` states exactly when True is possible.

## Model

| member | source | states |
|---|---|---|
| Text.Strip | scrapeandapply.py:59 | `s.strip()`: never longer than `s`; empty exactly when every character is whitespace in the sense of `str.isspace`; otherwise it begins and ends with a non-space character |
| Text.StripIdempotent | scrapeandapply.py:338-342 | stripping twice is stripping once |
| Text.StripSurrounded | helper.py:67 | whitespace on both sides of a word is exactly what `strip()` removes |
| Text.StripKeepsPrefix | helper.py:157-158 | a word after leading whitespace is a prefix of the stripped text |
| Text.StripKeepsInner | helper.py:107-108 | a word that starts and ends with non-space survives inside the stripped text |
| Text.Find | scrapeandapply.py:341-342 | `s.find(pat)`: a result exactly when `pat in s`, and then the first position where `pat` occurs |
| Text.FindFrom | scrapeandapply.py:341-342 | the first occurrence at or after a start position, and no occurrence before it |
| Text.Take | helper.py:143-146 | `s[:n]`: a prefix of `s` of length at most `n`, all of `s` when it is that short |
| Text.LowerConcat | scrapeandapply.py:168 | `lower()` distributes over concatenation |
| Text.UpperConcat | helper.py:107 | `upper()` distributes over concatenation |
| Text.UpperKeepsPrefix | helper.py:157-158 | upper-casing keeps a prefix a prefix |
| Text.MatchFromSound | scrapeandapply.py:154 | whatever the greedy matcher accepts is a match in the regular-expression sense |
| Text.MatchFromComplete | scrapeandapply.py:282 | for patterns of literals separated by whitespace runs, every match is found by the greedy matcher with the same end |
| Text.Search | scrapeandapply.py:287 | `re.search` succeeds exactly when some position starts a match |
| Text.Split | scrapeandapply.py:77 | `split()` yields non-empty tokens free of whitespace |
| Text.SplitWord | scrapeandapply.py:77 | a word followed by whitespace or the end is the first token |
| Text.SplitSkipsSpaces | scrapeandapply.py:77 | leading whitespace adds no token |
| SeenLinks.ParseSeen | scrapeandapply.py:54-59 | a missing file gives the empty set; the empty string is never a remembered link |
| SeenLinks.ParseSeenStripped | scrapeandapply.py:59 | every remembered link is its own strip |
| SeenLinks.Appended | scrapeandapply.py:62-65 | the old content stays a prefix and exactly `link + "\n"` follows it |
| SeenLinks.SeenFile.Append | scrapeandapply.py:62-65 | the file's new content is the old content (empty if missing) followed by `link + "\n"` |
| SeenLinks.SeenFile.constructor | scrapeandapply.py:51-56 | the store starts with the file's given content, none when it does not exist |
| SeenLinks.LinesConcat | scrapeandapply.py:58-59 | content that ends with a line break splits into its own lines followed by those of whatever comes after |
| SeenLinks.ParseConcat | scrapeandapply.py:56-59 | parsing content joined at a line boundary unions the two parsed sets |
| SeenLinks.ParseOneLine | scrapeandapply.py:58-59 | one line parses to its strip, or to nothing when it is blank |
| SeenLinks.AppendParsed | scrapeandapply.py:58-65 | after appending to a missing, empty or newline-terminated file, the parsed set is the old set plus the link's strip (if that is not empty) |
| SeenLinks.AppendToOpenLine | scrapeandapply.py:58-65 | appended to a file whose last line is not terminated, the link continues that line, and only the joined line's strip is remembered |
| SeenLinks.AppendCleanLink | scrapeandapply.py:58-65 | for a link without surrounding whitespace or line breaks, the parsed set afterwards is exactly the old set plus the link |
| SeenLinks.LogLines | scrapeandapply.py:64-65 | what a series of appends writes always ends at a line boundary |
| SeenLinks.AppendAllParsed | scrapeandapply.py:58-65 | appending several links at a line boundary adds exactly their non-empty strips to the parsed set |
| SeenLinks.KeptClean | scrapeandapply.py:59 | clean lines are kept exactly as they are |
| SeenLinks.Lines | scrapeandapply.py:58-59 | the lines the file is read as |
| SeenLinks.Kept | scrapeandapply.py:59 | the strips of the non-blank lines |
| Listings.ParseInt | scrapeandapply.py:77 | on a token of ASCII characters, `int(token)` succeeds exactly for digits with single underscores between them, optionally signed |
| Listings.PageTokens | scrapeandapply.py:77 | the label with "Page" and "of" removed, split on whitespace |
| Listings.ParseShow | scrapeandapply.py:77 | `int(str(n)) == n` for every integer |
| Listings.ShowNatValue | scrapeandapply.py:77 | the decimal digits of `n` have value `n` |
| Listings.ShowNumeral | scrapeandapply.py:77 | `str(n)` is made of digits and a minus sign only |
| Listings.RemoveAll | scrapeandapply.py:77 | `s.replace(pat, "")` is never longer than `s` |
| Listings.RemoveAllSkips | scrapeandapply.py:77 | text free of the pattern's first character passes through `replace` unchanged |
| Listings.RemoveAllDrops | scrapeandapply.py:77 | a leading occurrence of the pattern is removed |
| Listings.RemoveBetween | scrapeandapply.py:77 | one occurrence between two parts free of the pattern's first character is removed, the parts are kept |
| Listings.FirstPageLabel | scrapeandapply.py:72 | the first `aria-label` that holds "Page", with no earlier label holding it; none exactly when no label holds "Page" |
| Listings.TotalPages | scrapeandapply.py:69-80 | the second integer when the label, with "Page" and "of" removed, splits into exactly two integers; 1 when there is no such section or the tokens have any other shape |
| Listings.TotalPagesOfLabel | scrapeandapply.py:72-80 | the label Dice writes, "Page a of b", gives back b for every pair of integers |
| Listings.NormalizeHref | scrapeandapply.py:116-117 | an href starting with "/" is prefixed with `https://www.dice.com`; any other href is unchanged |
| Listings.NormalizeHrefIdempotent | scrapeandapply.py:116-117 | a normalised href is never root-relative, normalising it again changes nothing, it ends with the original href, and it is empty only when the href was |
| Listings.NormalizeAnchors | scrapeandapply.py:111-118 | no more postings than anchors |
| Listings.NormalizeAnchorsSpec | scrapeandapply.py:111-118 | every posting comes from an anchor with a non-empty href and carries its title and normalised link; every such anchor gives a posting; no posting has an empty link |
| Listings.PageJobs | scrapeandapply.py:111-118 | the anchor loop yields exactly `NormalizeAnchors` of the page's anchors |
| Listings.Collected | scrapeandapply.py:96-107 | no pages, no postings |
| Listings.ScrapePages | scrapeandapply.py:96-121 | the page loop collects the postings of pages 1..total in order, and a page that fails to load adds none |
| Listings.LinksSnoc | scrapeandapply.py:129 | adding a posting adds its link to the set of links |
| Listings.DedupLinks | scrapeandapply.py:124-130 | de-duplication keeps the set of links |
| Listings.DedupSelects | scrapeandapply.py:124-130 | de-duplication keeps exactly the postings whose link has not appeared earlier, in order |
| Listings.DedupNoDuplicates | scrapeandapply.py:124-130 | no link occurs twice in the result |
| Listings.DedupFirstSeen | scrapeandapply.py:124-130 | the first posting of every link is kept, and with it its first-seen title |
| Listings.DedupFromInput | scrapeandapply.py:124-130 | every kept posting comes from the input |
| Listings.DeduplicatedSpec | scrapeandapply.py:124-130 | no link twice, a subsequence of the input, the same set of links, and the first-seen posting of every link |
| Listings.Deduplicated | scrapeandapply.py:124-130 | each posting kept exactly when its link has not appeared earlier |
| Listings.Dedup | scrapeandapply.py:124-130 | the loop over a `seen` set and a `deduped` list computes exactly `Deduplicated` |
| Listings.ScrapeJobListings | scrapeandapply.py:83-132 | the listings are the de-duplicated postings of pages 1..`TotalPages`, in page order |
| Marker.MarkerPatternWellFormed | scrapeandapply.py:282 | the marker pattern is of the shape the greedy matcher decides exactly |
| Marker.HasMarkerText | scrapeandapply.py:285-287 | true exactly when the text is non-empty and `contract\s+corp\s+to\s+corp` occurs in it case-insensitively |
| Marker.SpansShift | scrapeandapply.py:287 | a match inside a piece of text is a match inside any text containing that piece |
| Marker.LabelMatches | scrapeandapply.py:282 | "Contract Corp To Corp" is matched by the pattern from end to end |
| Marker.MarkerFound | scrapeandapply.py:285-287 | any text containing "Contract Corp To Corp" passes the test |
| ApplyButton.PatternsWellFormed | scrapeandapply.py:154 | both alternatives of `EASY_APPLY_TEXT` are of the shape the greedy matcher decides exactly |
| ApplyButton.EasyApplyText | scrapeandapply.py:154 | `EASY_APPLY_TEXT.search` succeeds exactly when `easy\s*apply` or `apply\s*now` occurs case-insensitively |
| ApplyButton.EasyApplyHasApply | scrapeandapply.py:154 | whatever `EASY_APPLY_TEXT` matches has "apply" in its lower-cased form |
| ApplyButton.LinkTextAccepted | scrapeandapply.py:168 | the apply-link text test: the pattern matches or the text contains "easy" |
| ApplyButton.ButtonTextAccepted | scrapeandapply.py:204-206 | the button-scan test: the pattern matches, or the text contains "apply" and not "login" |
| ApplyButton.HostTextAccepted | scrapeandapply.py:232-234 | the web-component test: the pattern matches, or the text is non-empty and contains "apply" |
| ApplyButton.Accepted | scrapeandapply.py:162-236 | a candidate is returned when it is visible and its stripped text passes its strategy's test (none for the text and role strategies) |
| ApplyButton.HostTextAcceptedExactly | scrapeandapply.py:204-206 | for non-empty text the web-component test (lines 232-234) is "apply" in the lower-cased text, and it accepts every text the button-scan test accepts |
| ApplyButton.FindApplyControl | scrapeandapply.py:213-273 | the first accepted candidate wins, with no earlier candidate accepted or raising; an escaping exception is reported only when it comes before any accepted candidate; the script's own click or nothing only when no candidate is accepted or escapes |
| Description.CutAtDiceId | scrapeandapply.py:341-342 | without "Dice Id:" the text is unchanged; with it, the result is the stripped text before its first occurrence |
| Description.CutAtDiceIdSpec | scrapeandapply.py:341-342 | the cut never leaves "Dice Id:" in, keeps stripped text stripped and never lengthens |
| Description.Accept | scrapeandapply.py:338-342 | a candidate is accepted exactly when its stripped text is longer than 100 characters, and then yields that text cut at "Dice Id:" |
| Description.AcceptSpec | scrapeandapply.py:338-342 | an accepted description is stripped, free of "Dice Id:" and no longer than the stripped candidate |
| Description.AcceptCanBeEmpty | scrapeandapply.py:339-342 | because the cut follows the length test, a candidate of 108 characters that starts with "Dice Id:" yields the empty description |
| Description.ScanElementsSpec | scrapeandapply.py:333-344 | a description comes from the first visible element whose text is accepted, every earlier element being hidden or rejected; when no visible element is accepted there is none; the first element that is neither hidden nor rejected decides: it abandons the selector when reading it raises, and otherwise it is the description |
| Description.ScanSelectorsSpec | scrapeandapply.py:331-346 | a description comes from the first selector that yields one; none means that no selector yielded one |
| Description.ScanElementsClean | scrapeandapply.py:333-344 | what an element loop yields is stripped and free of "Dice Id:" |
| Description.ScanElements | scrapeandapply.py:333-344 | the element loop of one selector |
| Description.SelectorResult | scrapeandapply.py:331-346 | one selector: nothing when its lookup raises, else its element loop |
| Description.ScanSelectors | scrapeandapply.py:331-346 | the selectors in order, the first with a result winning |
| Description.ScanSelectorsClean | scrapeandapply.py:331-346 | what the selector loop yields is stripped and free of "Dice Id:" |
| Description.FullContent | scrapeandapply.py:368-379 | the stripped text of `<main>` when present, else the stripped text of `<body>`, else ""; always stripped |
| Description.Title | scrapeandapply.py:310-316 | the title is the stripped `<h1>` text when one was read, and "" when there is none, it is hidden or reading it raises; either way it is stripped |
| Description.ScrapeJobDescription | scrapeandapply.py:302-365 | a failed navigation gives three empty strings; otherwise the title and full content as above, and the description from the selectors, else from `<main>` cut at "Dice Id:", else ""; the description never holds "Dice Id:"; the fallback's read of `<main>` and `_get_full_scraped_content`'s read are separate observations |
| Description.ScrapeJobDescriptionClean | scrapeandapply.py:302-365 | all three results are stripped |
| Classifier.TitleLine | helper.py:140 | `job_title or "(not provided)"` |
| Classifier.ReplyText | helper.py:107 | the answer with None read as "", stripped and upper-cased |
| Classifier.ApplyPrompt | helper.py:140-146 | the prompt shows the title line, at most the first 6000 characters of the description and at most the first 4000 of the resume, as prefixes, all of each when it is short enough |
| Classifier.ShouldApplyToJob | helper.py:121-160 | False without asking when title and description are both blank; otherwise it asks with `ApplyPrompt`, and the verdict is True exactly when there was an answer whose content (None read as "") stripped and upper-cased starts with "YES"; an exception gives False, that is, do not apply |
| Classifier.SkipPrompt | helper.py:93-96 | the title line and a prefix of the description: all of it when it has at most 6000 characters, and exactly its first 6000 otherwise; no resume |
| Classifier.IsLeadArchitectOrManagerRole | helper.py:78-110 | False without asking when both inputs are blank; otherwise True exactly when "SKIP" occurs in the stripped, upper-cased answer; an exception gives False, that is, do not skip |
| Classifier.UpperOfWord | helper.py:107 | an ASCII word upper-cases letter by letter |
| Classifier.ReplyTextStartsWith | helper.py:157 | the normalised reply starts with the upper case of its first word |
| Classifier.YesRecognised | helper.py:157-158 | "YES", "Yes" or "yes" after any whitespace, followed by anything, is a YES |
| Classifier.NotYes | helper.py:157-158 | a reply whose first word does not upper-case to something starting with "Y" is never a YES |
| Classifier.NoRejected | helper.py:157-158 | "NO", "No" or "no" first is never a YES |
| Classifier.UpperKeepsOccurrence | helper.py:107-108 | an occurrence of a word gives an occurrence of its upper case in the upper-cased text |
| Classifier.ReplyTextContains | helper.py:107-108 | the normalised reply contains the upper case of every word of the reply |
| Classifier.SkipRecognised | helper.py:107-108 | "SKIP", "Skip" or "skip" anywhere in the reply makes it a SKIP |
| Classifier.ScoreAt | helper.py:67 | a match of `(100\|[1-9]?\d)` between word boundaries at a position, alternatives tried in order, is a value in 0..100 |
| Classifier.ScoreFrom | helper.py:67 | `re.search` for the score: a value in 0..100 matched at some position from the start on, or none exactly when no such position matches |
| Classifier.ParseScore | helper.py:65-70 | the result is -1 or a score in 0..100 |
| Classifier.ScoreOfNumeral | helper.py:67-69 | the decimal form of every n in 0..100 is read as n |
| Classifier.ScoreRoundTrip | helper.py:65-69 | every score written as the prompt asks, with any surrounding whitespace, is read back |
| Classifier.ScoreRejectsTooLarge | helper.py:67-70 | "101" is not a score and gives -1 |
| ApplyFlow.LocateFrom | scrapeandapply.py:398-404 | the apply-control wait makes at most 25 lookups |
| ApplyFlow.LocateFromSpec | scrapeandapply.py:399-407 | the wait gives nothing only after 25 lookups that all found nothing; otherwise its result is that of its last lookup, all earlier ones having found nothing |
| ApplyFlow.LocateNothing | scrapeandapply.py:399-407 | 25 empty lookups give nothing after exactly 25 polls |
| ApplyFlow.FormFrom | scrapeandapply.py:436-450 | the form wait makes at most 12 polls |
| ApplyFlow.FormFromSpec | scrapeandapply.py:436-453 | the form counts as not open only after 12 polls that all saw none of the indicators; otherwise the result is that of the last poll, all earlier ones having seen none |
| ApplyFlow.FormNever | scrapeandapply.py:437-453 | 12 polls without an indicator give "not opened" |
| ApplyFlow.WaitForApplyControl | scrapeandapply.py:398-404 | the polling loop computes exactly `LocateFrom` |
| ApplyFlow.WaitForForm | scrapeandapply.py:436-450 | the polling loop computes exactly `FormFrom` |
| ApplyFlow.NextUntilSubmit | scrapeandapply.py:518-530 | the final loop computes exactly `StepsFrom` |
| ApplyFlow.StepsFrom | scrapeandapply.py:518-530 | the final loop from round i: Submit wins over Next, neither ends it with False |
| ApplyFlow.Finish | scrapeandapply.py:486-533 | from the resume wait on: an exception gives False, a timeout tries Submit, an upload leads to the final loop |
| ApplyFlow.FormPhase | scrapeandapply.py:436-533 | from the form wait on: no form gives False, otherwise the two Next and Submit attempts and then `Finish` |
| ApplyFlow.ControlPhase | scrapeandapply.py:409-533 | from the apply-control wait's result on: nothing found or an exception gives False, a script click goes to `FormPhase`, an element is clicked (False when the click raises) and then `FormPhase` |
| ApplyFlow.EasyApply | scrapeandapply.py:382-540 | the whole call: navigation, marker check, the lookups and then `ControlPhase` |
| ApplyFlow.UploadAndFinish | scrapeandapply.py:486-533 | the resume step and final loop compute exactly `Finish` |
| ApplyFlow.OpenForm | scrapeandapply.py:436-533 | the phase from the form wait on computes exactly `FormPhase` |
| ApplyFlow.EasyApplyOnJob | scrapeandapply.py:382-540 | the method computes exactly the specification `EasyApply`, result and interactions |
| ApplyFlow.StepsSpec | scrapeandapply.py:518-530 | the final loop clicks Submit exactly once and last when it returns True and never otherwise, and makes at most 6 checks |
| ApplyFlow.StepsApplied | scrapeandapply.py:518-533 | the final loop returns True exactly when, within its six rounds, a Submit button shows after a run of Next-only rounds |
| ApplyFlow.FinishSpec | scrapeandapply.py:486-533 | from the resume step on, Submit clicks agree with the result and the final loop's bound holds |
| ApplyFlow.FormPhaseSpec | scrapeandapply.py:436-533 | from the form wait on: Submit clicks agree with the result, at most 12 form polls and 6 final checks, no apply-control click |
| ApplyFlow.ControlPhaseSpec | scrapeandapply.py:409-533 | from the located control on: the same, with at most one click on the apply control |
| ApplyFlow.EasyApplySpec | scrapeandapply.py:382-540 | True exactly when Submit was clicked, which happens at most once and last; the page is loaded only when not already on it, and first; at most 25 apply-control lookups, one click on the control, 12 form polls and 6 final checks |
| ApplyFlow.OpeningCounts | scrapeandapply.py:385-404 | before the click: one page load unless already on the page, one marker check, the lookups, no Submit |
| ApplyFlow.WholeCallCounts | scrapeandapply.py:382-540 | the bounds of the whole call from those of its pieces |
| ApplyFlow.NoApplyControl | scrapeandapply.py:399-407 | a page on which the apply control never shows gives False after exactly 25 lookups and nothing else |
| ApplyFlow.FormPhaseAbandoned | scrapeandapply.py:451-453 | a form that never opens gives False before any Next click or resume step |
| ApplyFlow.ControlPhaseAbandoned | scrapeandapply.py:405-453 | the click adds no Next click or resume step |
| ApplyFlow.EasyApplyAbandoned | scrapeandapply.py:382-453 | nor do the lookups before it |
| ApplyFlow.FormNeverOpens | scrapeandapply.py:436-453 | when the form never opens, the call returns False with no Next click, no Submit click and no resume step |
| ApplyFlow.AppliedOnlyWhen | scrapeandapply.py:382-533 | True only for a loaded page showing the marker, a control found and clicked without error (or clicked by the script), an opened form, and then the first Submit attempt, or the no-resume Submit, or a replaced resume followed by Submit within the final loop's six rounds |
| Orchestrator.JobLinks | scrapeandapply.py:547 | the links of the listings, position by position |
| Orchestrator.NewLinks | scrapeandapply.py:550 | a link is new exactly when it was scraped and is not in the seen set |
| Orchestrator.NewMask | scrapeandapply.py:550 | which positions hold unseen links |
| Orchestrator.NewLinksInOrder | scrapeandapply.py:550 | the new links are the unseen ones selected in scraped order, a subsequence of the scraped links |
| Orchestrator.NewLinksDistinct | scrapeandapply.py:550 | de-duplicated listings give new links without repeats, so no link is processed twice in a run |
| Orchestrator.UnstrippedLinkStaysNew | scrapeandapply.py:550-596 | a link with surrounding whitespace is never in the parsed set, so it is new on every run whatever the file holds |
| Orchestrator.Handled | scrapeandapply.py:564-601 | one result per processed link |
| Orchestrator.Successes | scrapeandapply.py:598-599 | the number of successful attempts is at most the number of links handled |
| Orchestrator.SuccessesStep | scrapeandapply.py:598-599 | one more link adds one exactly when its attempt returned True |
| Orchestrator.LoggedSpec | scrapeandapply.py:571-596 | appending the links one by one leaves the old content followed by one line per link, in order; with nothing to append the file is untouched and a missing file stays missing |
| Orchestrator.Logged | scrapeandapply.py:571-596 | the file after appending the links one by one |
| Orchestrator.DecideStops | scrapeandapply.py:569-582 | an empty description or a missing marker ends the chain before the classifier is asked |
| Orchestrator.DecideAsks | scrapeandapply.py:585 | once both gates pass, the classifier is asked with the scraped title, description and resume |
| Orchestrator.DecideAttempts | scrapeandapply.py:585-593 | the apply flow runs only after a YES answer, on the already-loaded page, and its result is the verdict |
| Orchestrator.Decide | scrapeandapply.py:568-593 | the chain for one link: description, marker, classifier, apply flow |
| Orchestrator.HandleLink | scrapeandapply.py:568-593 | the loop body computes exactly the chain `Decide` |
| Orchestrator.HandleLinkAt | scrapeandapply.py:564-593 | the body for the i-th new link is the next entry of `Handled` |
| Orchestrator.HandleAll | scrapeandapply.py:563-601 | every new link is handled in order; the counter is the number of successful attempts; every link is appended to the file and added to the seen set on every path |
| Orchestrator.Record | scrapeandapply.py:595 | appending a handled link to the file extends the log by that link |
| Orchestrator.Run | scrapeandapply.py:546-603 | `main` from the listings on: the new links, their handling in order, `submitted` never above their number, the seen set and the file extended by exactly the new links |
| Orchestrator.MembersSpec | scrapeandapply.py:572 | the links added one by one make up the set of the processed links |
| Orchestrator.ParsedAfterLog | scrapeandapply.py:549-596 | after a run over clean links, reading the file back gives the old set plus exactly the processed links |
| Orchestrator.RerunFindsNothing | scrapeandapply.py:549-555 | a second run over the same listings finds nothing new, provided the file ended at a line boundary and every link is a clean line |

## Left out

- Playwright is not modelled: locators, visibility checks, clicks, waits, scrolling, the file upload and the injected shadow-DOM script (scrapeandapply.py:241-268). What each check observed is an input: `ApplyButton.Probe`, `ApplyFlow.Observations` and `Description.DetailPage`.
- `ApplyFlow.Observations` assumes the page does not change between two reads that the code makes of the same control. For example, the visibility of the web-component buttons is read once.
- ScrapeJobDescription: each read of the page is one observation, taken as the code makes it. The two reads of `<main>` (scrapeandapply.py:350-352 in the fallback and 371-373 in `_get_full_scraped_content`) are separate fields of `Description.DetailPage`, so they may differ; a read that could give different answers within one locator call is not modelled.
- StepsSpec: the model assumes nothing raises between a Submit click and the `return True` after it (the wait and the `print` at scrapeandapply.py:521-524). In the code such an exception gives False after Submit was clicked. The "exactly once when True, never otherwise" statement relies on that; "True only when Submit was clicked last" does not.
- StepsApplied: the same assumption about scrapeandapply.py:521-524 underlies its "exactly when".
- FinishSpec: the same assumption, for the no-resume Submit (scrapeandapply.py:498-501) and the final loop, underlies "Submit clicks agree with the result".
- FormPhaseSpec: the same assumption, extended to the first Submit (scrapeandapply.py:479-482). There, an exception after the click would also lead to a second Submit attempt on a later path, which the model does not represent.
- ControlPhaseSpec: the same assumption as FormPhaseSpec.
- EasyApplySpec: the same assumption as FormPhaseSpec underlies "True exactly when Submit was clicked" and "at most once". That True is returned only after a Submit click does not depend on it.
- Listings.ParseInt: only ASCII digits are accepted. Python's `int()` also accepts other Unicode decimal digits (so a label "Page １ of ５" gives 5 in the code and 1 in the model), and it raises `ValueError` for more than 4300 digits, which the model does not bound.
- HTTP fetching (`requests.get`) and BeautifulSoup are replaced by their results: the `aria-label`s of the first page's sections, and per page the job anchors or a failed fetch.
- `login`, `sync_playwright` and the browser session are left out. So is the fact that they run only when there are new links.
- `time.sleep`, `random.uniform` and `page.wait_for_timeout` are pacing only and are left out.
- `print` output is left out.
- The Groq client and the content of the prompts are left out. The service is a function from the prompt's variable parts to an answer (`message.content`, possibly None) or an exception.
- `should_apply_to_job`: building the client (helper.py:123) is outside the `try`. An exception raised there would be raised to the caller, and the model does not represent it.
- IsLeadArchitectOrManagerRole: building the client (helper.py:80) is outside the `try` as well. An exception raised there would reach the caller instead of giving False; the model treats only the call and the reading of the answer (helper.py:100-110) as able to raise.
- `get_matching_score` is modelled only from its reply on: `Classifier.ParseScore`. The call itself is left out, and `main` does not use the function.
- `load_resume_text` involves the file system, python-docx and Word automation. The resume text is an input.
- The module-level configuration and credentials are left out, as are the `__main__` blocks.
- Classifier.ScoreAt: the `\b` and `\d` of the score pattern are taken as ASCII. Python's Unicode digits and word characters are not modelled.
- Text.Upper: only characters whose upper case contains an ASCII capital are mapped. The full Unicode case tables are not modelled.
- Text.Lower: the same holds for lower case. That is enough for every test on the result, since each looks for an ASCII word.
- Text.LitAt: `re.I` case folding is modelled for ASCII letters, KELVIN SIGN, LONG S and the two dotted/dotless capitals of I. Other folds cannot match these patterns' letters.
- SeenLinks.Lines: universal-newline reading is modelled by treating `\r` and `\n` as line ends. A `\r\n` pair therefore yields an extra empty piece, which parsing discards, so the parsed set is the same.
- SeenLinks.SeenFile.Append: an I/O error while writing is not modelled.
- Orchestrator.Run: the links are those of the listings as returned. A crash part-way through a run is not modelled.
- Listings.TotalPages: the page count is used as it is. A label giving zero or a negative total scrapes no page, as in the code.
- ApplyFlow.EasyApplyOnJob: the timeouts and the distinction between `PWTimeoutError` and other exceptions matter only where they change the result, and there they are observations. An escaping exception ends the call with False, which is what both handlers do.

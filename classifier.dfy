/** The language-model helpers of helper.py: `should_apply_to_job`,
    `is_lead_architect_or_manager_role` and the reply parsing of
    `get_matching_score`. The chat-completion call is a parameter `service` that
    maps the prompt data to a reply: the message content (possibly None) or an
    exception. What the model answers is arbitrary. */
module Classifier {
  import opened Text
  import Listings

  /** What a chat-completion call returns: `message.content`, or an exception. */
  datatype Reply = Answer(content: Option<string>) | Raised

  /** The variable parts of the prompt: the title line, the description excerpt
      and (for `should_apply_to_job`) the resume excerpt. */
  datatype Prompt = Prompt(title: string, description: string, resume: string)

  /** Whether the service was asked (and with what), and the boolean returned. */
  datatype Consultation = Consultation(verdict: bool, asked: Option<Prompt>)

  const NotProvided := "(not provided)"
  const DescriptionBudget := 6000
  const ResumeBudget := 4000

  /** `job_title or "(not provided)"`. */
  function TitleLine(title: string): (r: string)
    ensures title == [] ==> r == NotProvided
    ensures title != [] ==> r == title
  {
    if title == [] then NotProvided else title
  }

  /** The prompt of `should_apply_to_job`: the title (or the placeholder), at most
      the first 6000 characters of the description and at most the first 4000 of
      the resume. */
  function ApplyPrompt(title: string, description: string, resume: string): (p: Prompt)
    ensures p.title == TitleLine(title)
    ensures |p.description| <= DescriptionBudget && StartsWith(description, p.description)
    ensures |description| <= DescriptionBudget ==> p.description == description
    ensures |description| > DescriptionBudget ==> |p.description| == DescriptionBudget
    ensures |p.resume| <= ResumeBudget && StartsWith(resume, p.resume)
    ensures |resume| <= ResumeBudget ==> p.resume == resume
    ensures |resume| > ResumeBudget ==> |p.resume| == ResumeBudget
  {
    Prompt(TitleLine(title), Take(description, DescriptionBudget), Take(resume, ResumeBudget))
  }

  /** The normalised reply text: `(content or "").strip().upper()`. */
  function ReplyText(content: Option<string>): string {
    Upper(Strip(content.GetOr("")))
  }

  /** `should_apply_to_job`: False without asking when title and description are
      both blank; otherwise True exactly when the normalised reply starts with
      "YES"; an exception counts as NO. */
  function ShouldApplyToJob(resume: string, title: string, description: string,
                            service: Prompt -> Reply): (r: Consultation)
    ensures AllSpace(title) && AllSpace(description) ==> r == Consultation(false, None)
    ensures !(AllSpace(title) && AllSpace(description)) ==> r.asked == Some(ApplyPrompt(title, description, resume))
    ensures r.asked.Some? ==>
      (r.verdict <==> service(r.asked.value).Answer? && StartsWith(ReplyText(service(r.asked.value).content), "YES"))
    ensures r.asked.Some? && service(r.asked.value).Raised? ==> !r.verdict
  {
    if Strip(title) == [] && Strip(description) == [] then Consultation(false, None)
    else
      var prompt := ApplyPrompt(title, description, resume);
      match service(prompt)
      case Raised => Consultation(false, Some(prompt))
      case Answer(content) => Consultation(StartsWith(ReplyText(content), "YES"), Some(prompt))
  }

  /** The prompt of the seniority helper: the title line and the description
      excerpt (no resume). */
  function SkipPrompt(title: string, description: string): (p: Prompt)
    ensures p.title == TitleLine(title) && p.resume == []
    ensures |p.description| <= DescriptionBudget && StartsWith(description, p.description)
    ensures |description| <= DescriptionBudget ==> p.description == description
    ensures |description| > DescriptionBudget ==> |p.description| == DescriptionBudget
  {
    Prompt(TitleLine(title), Take(description, DescriptionBudget), [])
  }

  /** `is_lead_architect_or_manager_role`: False (do not skip) without asking when
      both inputs are blank; otherwise True exactly when "SKIP" occurs anywhere in
      the normalised reply; an exception counts as do-not-skip. */
  function IsLeadArchitectOrManagerRole(title: string, description: string,
                                        service: Prompt -> Reply): (r: Consultation)
    ensures AllSpace(title) && AllSpace(description) ==> r == Consultation(false, None)
    ensures !(AllSpace(title) && AllSpace(description)) ==> r.asked == Some(SkipPrompt(title, description))
    ensures r.asked.Some? ==>
      (r.verdict <==> service(r.asked.value).Answer? && Contains(ReplyText(service(r.asked.value).content), "SKIP"))
    ensures r.asked.Some? && service(r.asked.value).Raised? ==> !r.verdict
  {
    if Strip(title) == [] && Strip(description) == [] then Consultation(false, None)
    else
      var prompt := SkipPrompt(title, description);
      match service(prompt)
      case Raised => Consultation(false, Some(prompt))
      case Answer(content) => Consultation(Contains(ReplyText(content), "SKIP"), Some(prompt))
  }

  predicate IsAsciiLetter(c: char) { 'a' <= c <= 'z' || 'A' <= c <= 'Z' }

  /** The upper case of an ASCII letter. */
  function UpperLetter(c: char): char {
    if 'a' <= c <= 'z' then (c as int - 32) as char else c
  }

  /** The upper case of an ASCII word, letter by letter. */
  lemma {:induction false} UpperOfWord(w: string)
    requires forall k :: 0 <= k < |w| ==> IsAsciiLetter(w[k])
    ensures |Upper(w)| == |w|
    ensures forall k :: 0 <= k < |w| ==> Upper(w)[k] == UpperLetter(w[k])
  {
    if w != [] {
      var t := w[1..];
      assert forall k :: 0 <= k < |t| ==> t[k] == w[k + 1];
      UpperOfWord(t);
      assert UpperChar(w[0]) == [UpperLetter(w[0])];
      var u := Upper(w);
      assert u == [UpperLetter(w[0])] + Upper(t);
    }
  }

  /** The normalised reply starts with the upper case of its first word. */
  lemma ReplyTextStartsWith(ws: string, w: string, rest: string)
    requires AllSpace(ws)
    requires w != [] && !IsSpace(w[0]) && !IsSpace(w[|w| - 1])
    ensures StartsWith(ReplyText(Some(ws + w + rest)), Upper(w))
  {
    var x := ws + w + rest;
    assert ReplyText(Some(x)) == Upper(Strip(x));
    StripKeepsPrefix(ws, w, rest);
    UpperKeepsPrefix(Strip(x), w);
  }

  /** A reply that begins, after any whitespace, with "yes" in one of its usual
      spellings is a YES, whatever follows. */
  lemma YesRecognised(ws: string, w: string, rest: string)
    requires AllSpace(ws)
    requires w == "YES" || w == "Yes" || w == "yes"
    ensures StartsWith(ReplyText(Some(ws + w + rest)), "YES")
  {
    UpperOfWord(w);
    assert Upper(w) == "YES";
    ReplyTextStartsWith(ws, w, rest);
  }

  /** A reply whose first word does not upper-case to something starting with
      "Y" is never a YES. */
  lemma NotYes(ws: string, w: string, rest: string)
    requires AllSpace(ws)
    requires w != [] && !IsSpace(w[0]) && !IsSpace(w[|w| - 1])
    requires Upper(w) != [] && Upper(w)[0] != 'Y'
    ensures !StartsWith(ReplyText(Some(ws + w + rest)), "YES")
  {
    ReplyTextStartsWith(ws, w, rest);
    var r := ReplyText(Some(ws + w + rest));
    assert r[0] == Upper(w)[0];
  }

  /** A reply that begins, after any whitespace, with "no" is never a YES. */
  lemma NoRejected(ws: string, w: string, rest: string)
    requires AllSpace(ws)
    requires w == "NO" || w == "No" || w == "no"
    ensures !StartsWith(ReplyText(Some(ws + w + rest)), "YES")
  {
    UpperOfWord(w);
    NotYes(ws, w, rest);
  }

  /** Upper-casing keeps an occurrence: `w` in `s` gives `w.upper()` in `s.upper()`. */
  lemma UpperKeepsOccurrence(s: string, w: string, i: nat)
    requires OccursAt(s, w, i)
    ensures Contains(Upper(s), Upper(w))
  {
    var a, b := s[..i], s[i + |w|..];
    assert s == a + w + b;
    UpperConcat(a + w, b);
    UpperConcat(a, w);
    OccursBetween(Upper(a), Upper(w), Upper(b));
  }

  /** The normalised reply contains the upper case of any word of the reply. */
  lemma ReplyTextContains(before: string, w: string, after: string)
    requires w != [] && !IsSpace(w[0]) && !IsSpace(w[|w| - 1])
    ensures Contains(ReplyText(Some(before + w + after)), Upper(w))
  {
    StripKeepsInner(before, w, after);
    var s := Strip(before + w + after);
    var i: nat :| i <= |s| && OccursAt(s, w, i);
    UpperKeepsOccurrence(s, w, i);
  }

  /** "skip" in any of its usual spellings, anywhere in the reply, makes the
      seniority helper answer True. */
  lemma SkipRecognised(before: string, w: string, after: string)
    requires w == "SKIP" || w == "Skip" || w == "skip"
    ensures Contains(ReplyText(Some(before + w + after)), "SKIP")
  {
    UpperOfWord(w);
    assert Upper(w) == "SKIP";
    ReplyTextContains(before, w, after);
  }

  // ---------------------------------------------------------------------
  // get_matching_score: `re.search(r"\b(100|[1-9]?\d)\b", response.strip())`

  predicate IsWordChar(c: char) {
    'a' <= c <= 'z' || 'A' <= c <= 'Z' || '0' <= c <= '9' || c == '_'
  }

  /** `\b` just after a digit at `j - 1`. */
  predicate EndBoundary(s: string, j: nat) {
    j == |s| || (j < |s| && !IsWordChar(s[j]))
  }

  /** `\b` just before a digit at `i`. */
  predicate StartBoundary(s: string, i: nat) {
    i == 0 || (0 < i <= |s| && !IsWordChar(s[i - 1]))
  }

  function DigitValue(c: char): nat
    requires Listings.IsDigit(c)
  {
    c as int - '0' as int
  }

  /** The match of the pattern starting at `i`, alternatives tried in order:
      `100`, then `[1-9]\d`, then `\d`. */
  function ScoreAt(s: string, i: nat): (r: Option<int>)
    ensures r.Some? ==> 0 <= r.value <= 100
  {
    if !StartBoundary(s, i) || i >= |s| then None
    else if OccursAt(s, "100", i) && EndBoundary(s, i + 3) then Some(100)
    else if i + 1 < |s| && '1' <= s[i] <= '9' && Listings.IsDigit(s[i + 1]) && EndBoundary(s, i + 2)
    then Some(10 * DigitValue(s[i]) + DigitValue(s[i + 1]))
    else if Listings.IsDigit(s[i]) && EndBoundary(s, i + 1) then Some(DigitValue(s[i]))
    else None
  }

  /** The leftmost match at or after `from`. */
  function ScoreFrom(s: string, from: nat): (r: Option<int>)
    requires from <= |s|
    ensures r.Some? ==> 0 <= r.value <= 100
    ensures r.Some? ==> exists i :: from <= i < |s| && ScoreAt(s, i) == r
    ensures r.None? ==> forall i :: from <= i < |s| ==> ScoreAt(s, i).None?
    decreases |s| - from
  {
    if from == |s| then None
    else if ScoreAt(s, from).Some? then ScoreAt(s, from)
    else ScoreFrom(s, from + 1)
  }

  /** The parse step of `get_matching_score`: the first score in the stripped
      reply (None content counts as ""), or -1. */
  function ParseScore(content: Option<string>): (r: int)
    ensures r == -1 || 0 <= r <= 100
  {
    var s := Strip(content.GetOr(""));
    match ScoreFrom(s, 0)
    case Some(n) => n
    case None => -1
  }

  /** The decimal form of a score is matched at its first character. */
  lemma ScoreOfNumeral(d: string, n: nat)
    requires n <= 100 && d == Listings.ShowNat(n)
    ensures ScoreFrom(d, 0) == Some(n)
  {
    if n < 10 {
      assert d == [Listings.DigitChar(n)];
      assert !OccursAt(d, "100", 0);
      assert ScoreAt(d, 0) == Some(n);
    } else if n < 100 {
      assert Listings.ShowNat(n / 10) == [Listings.DigitChar(n / 10)];
      assert d == [Listings.DigitChar(n / 10), Listings.DigitChar(n % 10)];
      assert !OccursAt(d, "100", 0);
      assert ScoreAt(d, 0) == Some(n);
    } else {
      assert Listings.ShowNat(10) == [Listings.DigitChar(1), Listings.DigitChar(0)];
      assert d == "100";
      assert OccursAt(d, "100", 0);
      assert ScoreAt(d, 0) == Some(n);
    }
  }

  /** A score written the way the prompt asks, with any surrounding whitespace,
      is read back. */
  lemma ScoreRoundTrip(ws: string, n: nat, ws2: string)
    requires n <= 100 && AllSpace(ws) && AllSpace(ws2)
    ensures ParseScore(Some(ws + Listings.ShowNat(n) + ws2)) == n
  {
    var d := Listings.ShowNat(n);
    StripSurrounded(ws, d, ws2);
    ScoreOfNumeral(d, n);
  }

  /** Numbers above 100 are not scores: "101" parses to -1. */
  lemma ScoreRejectsTooLarge()
    ensures ParseScore(Some("101")) == -1
  {
    var s := "101";
    StripOfStripped(s);
    assert ScoreAt(s, 0).None?;
    assert ScoreAt(s, 1).None?;
    assert ScoreAt(s, 2).None?;
  }
}

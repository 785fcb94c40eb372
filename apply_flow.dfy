/** The control skeleton of `easy_apply_on_job` in scrapeandapply.py: the
    marker check, the polling for the apply control, the click, the polling for
    the application form, the first Next/Submit attempts, the resume step and the
    bounded Submit/Next loop. Every browser query is replaced by what it
    observed; an exception that reaches the outer handler ends the call with
    False. The result records the page interactions performed, in order. */
module ApplyFlow {
  import opened Text
  import opened ApplyButton

  const ApplyPolls := 25
  const FormPolls := 12
  const StepLimit := 6

  /** What one `_get_apply_button` call saw: its candidates and whether the
      shadow-DOM script clicked an element. */
  datatype Poll = Poll(probes: seq<Probe>, scriptClicked: bool)

  function LookupOf(p: Poll): Lookup {
    FindApplyControl(p.probes, p.scriptClicked)
  }

  /** Clicking the located control: the click worked; it raised and the
      web-component fallback ran; or the fallback itself raised. */
  datatype ClickResult = Clicked | FallbackClicked | FallbackRaised

  /** One poll for the opened form: a Next/Submit/file-remove button is visible,
      none is, or a check raised. */
  datatype FormObs = FormOpen | FormClosed | FormRaises

  /** Waiting for the resume step's `button.file-remove`: it appeared, the wait
      timed out, or it failed otherwise. */
  datatype ResumeObs = ResumeShown | ResumeTimeout | ResumeRaises

  /** One iteration of the final loop: the Submit button is visible, only the
      Next button is, neither is, or clicking raised. */
  datatype StepScreen = SubmitShown | NextShown | NothingShown | StepRaises

  /** Everything the call observes. `polls(k)`, `forms(k)` and `steps(k)` are the
      k-th poll of each loop. `firstNext` and `firstSubmit` say whether the
      one-off Next and Submit attempts found and clicked their button (an
      exception there is swallowed and counts as not found); `fallbackSubmit`
      is the same for the Submit attempt of the no-resume path; `uploadOk` says
      the replace-and-upload sequence completed. */
  datatype Observations = Observations(
    navigated: bool, markerVisible: bool, polls: nat -> Poll, click: ClickResult,
    forms: nat -> FormObs, firstNext: bool, firstSubmit: bool, resume: ResumeObs,
    fallbackSubmit: bool, uploadOk: bool, steps: nat -> StepScreen)

  /** The page interactions: loading the job page, the marker check, one apply
      control lookup, the click on the control, one form poll, a Next click, a
      Submit click, the wait for the resume step, the resume upload, and one
      check of the final loop. */
  datatype Action = Navigate | CheckMarker | PollApply | ClickApply | PollForm
                  | ClickNext | ClickSubmit | AwaitResume | UploadResume | CheckStep

  /** The boolean returned and the interactions performed. */
  datatype Outcome = Outcome(applied: bool, trace: seq<Action>)

  function Repeat(a: Action, n: nat): (r: seq<Action>)
    ensures |r| == n
  {
    if n == 0 then [] else Repeat(a, n - 1) + [a]
  }

  /** How often `t` performs `a`. */
  function Count(t: seq<Action>, a: Action): nat {
    multiset(t)[a]
  }

  // ---------------------------------------------------------------------
  // The specification, phase by phase

  /** The apply-control loop from poll `i`: the first lookup that is not `None`
      and the number of polls made, or `None` after all 25. */
  function LocateFrom(polls: nat -> Poll, i: nat): (r: (Lookup, nat))
    requires i <= ApplyPolls
    ensures i <= r.1 <= ApplyPolls
    decreases ApplyPolls - i
  {
    if i == ApplyPolls then (NotLocated, ApplyPolls)
    else
      var l := LookupOf(polls(i));
      if l.NotLocated? then LocateFrom(polls, i + 1) else (l, i + 1)
  }

  /** The wait gives `None` only after 25 polls that all gave `None`; anything
      else is the result of its last poll, all earlier ones having given `None`. */
  lemma {:induction false} LocateFromSpec(polls: nat -> Poll, i: nat)
    requires i <= ApplyPolls
    ensures var r := LocateFrom(polls, i);
      r.0.NotLocated? ==> r.1 == ApplyPolls && forall j :: i <= j < ApplyPolls ==> LookupOf(polls(j)).NotLocated?
    ensures var r := LocateFrom(polls, i);
      !r.0.NotLocated? ==>
        i < r.1 && r.0 == LookupOf(polls(r.1 - 1)) && forall j :: i <= j < r.1 - 1 ==> LookupOf(polls(j)).NotLocated?
    decreases ApplyPolls - i
  {
    if i < ApplyPolls && LookupOf(polls(i)).NotLocated? {
      LocateFromSpec(polls, i + 1);
    }
  }

  /** The form loop from poll `i`: the first poll that sees the form or raises,
      and the number of polls made, or `FormClosed` after all 12. */
  function FormFrom(forms: nat -> FormObs, i: nat): (r: (FormObs, nat))
    requires i <= FormPolls
    ensures i <= r.1 <= FormPolls
    decreases FormPolls - i
  {
    if i == FormPolls then (FormClosed, FormPolls)
    else if forms(i).FormClosed? then FormFrom(forms, i + 1)
    else (forms(i), i + 1)
  }

  /** Likewise for the form wait. */
  lemma {:induction false} FormFromSpec(forms: nat -> FormObs, i: nat)
    requires i <= FormPolls
    ensures var r := FormFrom(forms, i);
      r.0.FormClosed? ==> r.1 == FormPolls && forall j :: i <= j < FormPolls ==> forms(j).FormClosed?
    ensures var r := FormFrom(forms, i);
      !r.0.FormClosed? ==> i < r.1 && r.0 == forms(r.1 - 1) && forall j :: i <= j < r.1 - 1 ==> forms(j).FormClosed?
    decreases FormPolls - i
  {
    if i < FormPolls && forms(i).FormClosed? {
      FormFromSpec(forms, i + 1);
    }
  }

  /** The final loop from iteration `i`: a Submit click ends it with True; a Next
      click goes on; neither button, an exception or the sixth iteration end it
      with False. */
  function StepsFrom(steps: nat -> StepScreen, i: nat): Outcome
    requires i <= StepLimit
    decreases StepLimit - i
  {
    if i == StepLimit then Outcome(false, [])
    else
      match steps(i)
      case SubmitShown => Outcome(true, [CheckStep, ClickSubmit])
      case NextShown =>
        var r := StepsFrom(steps, i + 1);
        Outcome(r.applied, [CheckStep, ClickNext] + r.trace)
      case NothingShown => Outcome(false, [CheckStep])
      case StepRaises => Outcome(false, [CheckStep])
  }

  /** From the wait for the resume step on: the Submit attempt of the no-resume
      path when the wait times out, else the upload and the final loop. */
  function Finish(obs: Observations): Outcome {
    match obs.resume
    case ResumeRaises => Outcome(false, [AwaitResume])
    case ResumeTimeout =>
      if obs.fallbackSubmit then Outcome(true, [AwaitResume, ClickSubmit]) else Outcome(false, [AwaitResume])
    case ResumeShown =>
      if !obs.uploadOk then Outcome(false, [AwaitResume, UploadResume])
      else
        var r := StepsFrom(obs.steps, 0);
        Outcome(r.applied, [AwaitResume, UploadResume] + r.trace)
  }

  /** From the wait for the form on: the form must open, then the one-off Next
      and Submit attempts, then `Finish`. */
  function FormPhase(obs: Observations): Outcome {
    var form := FormFrom(obs.forms, 0);
    var polled := Repeat(PollForm, form.1);
    if !form.0.FormOpen? then Outcome(false, polled)
    else
      var t := polled + (if obs.firstNext then [ClickNext] else []);
      if obs.firstSubmit then Outcome(true, t + [ClickSubmit])
      else
        var r := Finish(obs);
        Outcome(r.applied, t + r.trace)
  }

  /** From the result of the apply-control wait on: nothing found or an exception
      ends the call; an element is clicked (the script already clicked its own);
      then `FormPhase`. */
  function ControlPhase(obs: Observations, l: Lookup): Outcome {
    match l
    case NotLocated => Outcome(false, [])
    case LookupRaised => Outcome(false, [])
    case ScriptClicked => FormPhase(obs)
    case Located(_) =>
      if obs.click.FallbackRaised? then Outcome(false, [ClickApply])
      else
        var r := FormPhase(obs);
        Outcome(r.applied, [ClickApply] + r.trace)
  }

  /** The interactions before the apply-control wait on a page with the marker. */
  function Opening(alreadyOnPage: bool): seq<Action> {
    (if alreadyOnPage then [] else [Navigate]) + [CheckMarker]
  }

  /** `easy_apply_on_job(page, job_url, already_on_page)`. */
  function EasyApply(alreadyOnPage: bool, obs: Observations): Outcome {
    if !alreadyOnPage && !obs.navigated then Outcome(false, [Navigate])
    else if !obs.markerVisible then Outcome(false, Opening(alreadyOnPage))
    else
      var located := LocateFrom(obs.polls, 0);
      var r := ControlPhase(obs, located.0);
      Outcome(r.applied, Opening(alreadyOnPage) + Repeat(PollApply, located.1) + r.trace)
  }

  // ---------------------------------------------------------------------
  // The method

  /** The wait for the apply control: one lookup per second, at most 25. */
  method WaitForApplyControl(polls: nat -> Poll) returns (easy: Lookup, n: nat)
    ensures easy == LocateFrom(polls, 0).0 && n == LocateFrom(polls, 0).1
  {
    easy := NotLocated;
    n := 0;
    while n < ApplyPolls
      invariant 0 <= n <= ApplyPolls
      invariant easy.NotLocated?
      invariant LocateFrom(polls, 0) == LocateFrom(polls, n)
    {
      easy := LookupOf(polls(n));
      n := n + 1;
      if !easy.NotLocated? {
        return;
      }
    }
  }

  /** The wait for the application form: one check per second, at most 12; an
      exception leaves the loop at once. */
  method WaitForForm(forms: nat -> FormObs) returns (f: FormObs, m: nat)
    ensures f == FormFrom(forms, 0).0 && m == FormFrom(forms, 0).1
  {
    f := FormClosed;
    m := 0;
    while m < FormPolls
      invariant 0 <= m <= FormPolls
      invariant f.FormClosed?
      invariant FormFrom(forms, 0) == FormFrom(forms, m)
    {
      f := forms(m);
      m := m + 1;
      if !f.FormClosed? {
        return;
      }
    }
  }

  /** The final loop: at most six rounds of Submit-or-Next. */
  method NextUntilSubmit(steps: nat -> StepScreen) returns (applied: bool, trace: seq<Action>)
    ensures Outcome(applied, trace) == StepsFrom(steps, 0)
  {
    trace := [];
    var k := 0;
    while k < StepLimit
      invariant 0 <= k <= StepLimit
      invariant StepsFrom(steps, 0) == Outcome(StepsFrom(steps, k).applied, trace + StepsFrom(steps, k).trace)
    {
      var screen := steps(k);
      match screen {
        case SubmitShown =>
          return true, trace + [CheckStep, ClickSubmit];
        case NextShown =>
          assert trace + StepsFrom(steps, k).trace == trace + [CheckStep, ClickNext] + StepsFrom(steps, k + 1).trace;
          trace := trace + [CheckStep, ClickNext];
        case NothingShown =>
          return false, trace + [CheckStep];
        case StepRaises =>
          return false, trace + [CheckStep];
      }
      k := k + 1;
    }
    applied := false;
  }

  /** From the wait for the resume step on. */
  method UploadAndFinish(obs: Observations) returns (applied: bool, trace: seq<Action>)
    ensures Outcome(applied, trace) == Finish(obs)
  {
    trace := [AwaitResume];
    match obs.resume {
      case ResumeRaises =>
        return false, trace;
      case ResumeTimeout =>
        if obs.fallbackSubmit {
          return true, trace + [ClickSubmit];
        }
        return false, trace;
      case ResumeShown =>
        trace := trace + [UploadResume];
        if !obs.uploadOk {
          return false, trace;
        }
        var done, rest := NextUntilSubmit(obs.steps);
        return done, trace + rest;
    }
  }

  /** From the wait for the form on. */
  method OpenForm(obs: Observations) returns (applied: bool, trace: seq<Action>)
    ensures Outcome(applied, trace) == FormPhase(obs)
  {
    var f, m := WaitForForm(obs.forms);
    trace := Repeat(PollForm, m);
    if !f.FormOpen? {
      return false, trace;
    }
    if obs.firstNext {
      trace := trace + [ClickNext];
    }
    if obs.firstSubmit {
      return true, trace + [ClickSubmit];
    }
    var done, rest := UploadAndFinish(obs);
    return done, trace + rest;
  }

  /** `easy_apply_on_job`. */
  method EasyApplyOnJob(alreadyOnPage: bool, obs: Observations) returns (applied: bool, trace: seq<Action>)
    ensures Outcome(applied, trace) == EasyApply(alreadyOnPage, obs)
  {
    trace := [];
    if !alreadyOnPage {
      trace := trace + [Navigate];
      if !obs.navigated {
        return false, trace;
      }
    }
    trace := trace + [CheckMarker];
    assert trace == Opening(alreadyOnPage);
    if !obs.markerVisible {
      return false, trace;
    }
    var easy, n := WaitForApplyControl(obs.polls);
    trace := trace + Repeat(PollApply, n);
    var rest: seq<Action>;
    match easy {
      case NotLocated =>
        applied, rest := false, [];
      case LookupRaised =>
        applied, rest := false, [];
      case ScriptClicked =>
        applied, rest := OpenForm(obs);
      case Located(_) =>
        if obs.click.FallbackRaised? {
          applied, rest := false, [ClickApply];
        } else {
          applied, rest := OpenForm(obs);
          rest := [ClickApply] + rest;
        }
    }
    assert Outcome(applied, rest) == ControlPhase(obs, easy);
    trace := trace + rest;
  }

  // ---------------------------------------------------------------------
  // Counting interactions

  /** `n` copies of `a` hold `a` exactly `n` times and nothing else. */
  lemma {:induction false} RepeatMultiset(a: Action, n: nat)
    ensures multiset(Repeat(a, n)) == multiset{}[a := n]
  {
    if n > 0 {
      var p := Repeat(a, n - 1);
      RepeatMultiset(a, n - 1);
      assert Repeat(a, n) == p + [a];
      assert multiset(p + [a]) == multiset(p) + multiset{a};
    }
  }

  /** An outcome whose Submit clicks agree with its result: exactly one when it
      applied, and then as the last interaction; none otherwise. */
  predicate SubmitsAgree(r: Outcome) {
    Count(r.trace, ClickSubmit) == (if r.applied then 1 else 0)
    && (r.applied ==> r.trace != [] && r.trace[|r.trace| - 1] == ClickSubmit)
  }

  /** What the bounds of a phase after the apply-control wait need: its Submit
      clicks agree with its result; at most `clicks` clicks on the apply
      control, `forms` form polls and six final-loop checks; and none of the
      interactions that precede the wait. */
  predicate PhaseBounded(r: Outcome, clicks: nat, forms: nat) {
    SubmitsAgree(r) && Count(r.trace, ClickApply) <= clicks && Count(r.trace, PollForm) <= forms
    && Count(r.trace, CheckStep) <= StepLimit
    && Count(r.trace, Navigate) == 0 && Count(r.trace, CheckMarker) == 0 && Count(r.trace, PollApply) == 0
  }

  lemma CountConcat(a: seq<Action>, b: seq<Action>, x: Action)
    ensures Count(a + b, x) == Count(a, x) + Count(b, x)
  {
    assert multiset(a + b) == multiset(a) + multiset(b);
  }

  /** Prefixing a phase with `k` form polls, at most one Next click and nothing
      else. */
  lemma GlueForms(k: nat, next: seq<Action>, r: Outcome, bound: nat)
    requires next == [] || next == [ClickNext]
    requires k <= bound && PhaseBounded(r, 0, 0)
    ensures PhaseBounded(Outcome(r.applied, Repeat(PollForm, k) + next + r.trace), 0, bound)
  {
    var t := Repeat(PollForm, k) + next;
    FormsCounts(k, next);
    SubmitsAgreePrefix(t, r);
    CountsAdd(t, r.trace);
  }

  /** The form polls and the one-off Next click perform nothing else. */
  lemma FormsCounts(k: nat, next: seq<Action>)
    requires next == [] || next == [ClickNext]
    ensures var t := Repeat(PollForm, k) + next;
      ClickSubmit !in t && Count(t, PollForm) == k && Count(t, ClickApply) == 0
      && Count(t, CheckStep) == 0 && Count(t, Navigate) == 0
      && Count(t, CheckMarker) == 0 && Count(t, PollApply) == 0
  {
    RepeatMultiset(PollForm, k);
    if next == [] {
      assert Repeat(PollForm, k) + next == Repeat(PollForm, k);
    } else {
      assert multiset(Repeat(PollForm, k) + next) == multiset{}[PollForm := k] + multiset{ClickNext};
    }
  }

  // ---------------------------------------------------------------------
  // Properties of each phase

  lemma {:induction false} StepsSpec(steps: nat -> StepScreen, i: nat)
    requires i <= StepLimit
    ensures PhaseBounded(StepsFrom(steps, i), 0, 0)
    ensures Count(StepsFrom(steps, i).trace, CheckStep) <= StepLimit - i
    decreases StepLimit - i
  {
    if i < StepLimit {
      match steps(i)
      case SubmitShown =>
        StepEnds(StepsFrom(steps, i));
      case NextShown =>
        var rest := StepsFrom(steps, i + 1);
        assert StepsFrom(steps, i) == Outcome(rest.applied, [CheckStep, ClickNext] + rest.trace);
        StepsSpec(steps, i + 1);
        StepGoesOn(rest, StepsFrom(steps, i), StepLimit - i - 1);
      case NothingShown =>
        StepEnds(StepsFrom(steps, i));
      case StepRaises =>
        StepEnds(StepsFrom(steps, i));
    }
  }

  /** A last round of the final loop: one check, then a Submit click or nothing. */
  lemma StepEnds(r: Outcome)
    requires r == Outcome(true, [CheckStep, ClickSubmit]) || r == Outcome(false, [CheckStep])
    ensures PhaseBounded(r, 0, 0) && Count(r.trace, CheckStep) == 1
  {
    if r.applied {
      assert multiset(r.trace) == multiset{CheckStep, ClickSubmit};
    } else {
      assert multiset(r.trace) == multiset{CheckStep};
    }
  }

  /** A round of the final loop that clicks Next and goes on. */
  lemma StepGoesOn(rest: Outcome, r: Outcome, n: nat)
    requires PhaseBounded(rest, 0, 0) && Count(rest.trace, CheckStep) <= n < StepLimit
    requires r == Outcome(rest.applied, [CheckStep, ClickNext] + rest.trace)
    ensures PhaseBounded(r, 0, 0) && Count(r.trace, CheckStep) <= n + 1
  {
    SubmitsAgreePrefix([CheckStep, ClickNext], rest);
    assert multiset([CheckStep, ClickNext] + rest.trace) == multiset{CheckStep, ClickNext} + multiset(rest.trace);
  }

  lemma FinishSpec(obs: Observations)
    ensures PhaseBounded(Finish(obs), 0, 0)
  {
    if obs.resume.ResumeShown? && obs.uploadOk {
      var rest := StepsFrom(obs.steps, 0);
      StepsSpec(obs.steps, 0);
      SubmitsAgreePrefix([AwaitResume, UploadResume], rest);
      assert multiset([AwaitResume, UploadResume] + rest.trace)
          == multiset([AwaitResume, UploadResume]) + multiset(rest.trace);
    }
  }

  lemma FormPhaseSpec(obs: Observations)
    ensures PhaseBounded(FormPhase(obs), 0, FormPolls)
  {
    var form := FormFrom(obs.forms, 0);
    var next: seq<Action> := if obs.firstNext then [ClickNext] else [];
    var r: Outcome;
    if !form.0.FormOpen? {
      next, r := [], Outcome(false, []);
      assert Repeat(PollForm, form.1) + next + r.trace == Repeat(PollForm, form.1);
    } else if obs.firstSubmit {
      r := Outcome(true, [ClickSubmit]);
      assert multiset(r.trace) == multiset{ClickSubmit};
    } else {
      r := Finish(obs);
      FinishSpec(obs);
    }
    GlueForms(form.1, next, r, FormPolls);
  }

  lemma ControlPhaseSpec(obs: Observations, l: Lookup)
    ensures PhaseBounded(ControlPhase(obs, l), 1, FormPolls)
  {
    if l.ScriptClicked? || (l.Located? && !obs.click.FallbackRaised?) {
      var r := FormPhase(obs);
      FormPhaseSpec(obs);
      if l.Located? {
        SubmitsAgreePrefix([ClickApply], r);
        assert multiset([ClickApply] + r.trace) == multiset([ClickApply]) + multiset(r.trace);
      }
    }
  }

  // ---------------------------------------------------------------------
  // Properties of the whole call

  /** The call returns True exactly when it clicked Submit, which it does at
      most once and last; it loads the page only when asked to, starts with
      that or with the marker check, and never exceeds any loop's bound. */
  lemma EasyApplySpec(alreadyOnPage: bool, obs: Observations)
    ensures SubmitsAgree(EasyApply(alreadyOnPage, obs))
    ensures EasyApply(alreadyOnPage, obs).trace != []
    ensures EasyApply(alreadyOnPage, obs).trace[0] == if alreadyOnPage then CheckMarker else Navigate
    ensures Count(EasyApply(alreadyOnPage, obs).trace, Navigate) == if alreadyOnPage then 0 else 1
    ensures Count(EasyApply(alreadyOnPage, obs).trace, PollApply) <= ApplyPolls
    ensures Count(EasyApply(alreadyOnPage, obs).trace, ClickApply) <= 1
    ensures Count(EasyApply(alreadyOnPage, obs).trace, PollForm) <= FormPolls
    ensures Count(EasyApply(alreadyOnPage, obs).trace, CheckStep) <= StepLimit
  {
    if (alreadyOnPage || obs.navigated) && obs.markerVisible {
      var located := LocateFrom(obs.polls, 0);
      ControlPhaseSpec(obs, located.0);
      WholeCallCounts(alreadyOnPage, located.1, ControlPhase(obs, located.0));
    }
  }

  /** The counting behind `EasyApplySpec` once the apply control was waited
      for, over the pieces of the trace. */
  lemma WholeCallCounts(alreadyOnPage: bool, n: nat, c: Outcome)
    requires n <= ApplyPolls && PhaseBounded(c, 1, FormPolls)
    ensures var r := Outcome(c.applied, Opening(alreadyOnPage) + Repeat(PollApply, n) + c.trace);
      SubmitsAgree(r) && r.trace[0] == (if alreadyOnPage then CheckMarker else Navigate)
      && Count(r.trace, Navigate) == (if alreadyOnPage then 0 else 1)
      && Count(r.trace, PollApply) <= ApplyPolls && Count(r.trace, ClickApply) <= 1
      && Count(r.trace, PollForm) <= FormPolls && Count(r.trace, CheckStep) <= StepLimit
  {
    var t := Opening(alreadyOnPage) + Repeat(PollApply, n);
    OpeningCounts(alreadyOnPage, n);
    SubmitsAgreePrefix(t, c);
    CountsAdd(t, c.trace);
  }

  /** What the call does before the apply-control phase: the page load (unless
      already there), one marker check and `n` polls for the apply control. */
  lemma OpeningCounts(alreadyOnPage: bool, n: nat)
    ensures var t := Opening(alreadyOnPage) + Repeat(PollApply, n);
      ClickSubmit !in t && t[0] == (if alreadyOnPage then CheckMarker else Navigate)
      && Count(t, Navigate) == (if alreadyOnPage then 0 else 1) && Count(t, CheckMarker) == 1
      && Count(t, PollApply) == n && Count(t, ClickApply) == 0
      && Count(t, PollForm) == 0 && Count(t, CheckStep) == 0
  {
    if alreadyOnPage {
      PrefixCounts([CheckMarker], n, multiset{CheckMarker});
    } else {
      PrefixCounts([Navigate, CheckMarker], n, multiset{Navigate, CheckMarker});
    }
  }

  /** The opening interactions `pre`, holding `m`, followed by `n` polls for the
      apply control. */
  lemma PrefixCounts(pre: seq<Action>, n: nat, m: multiset<Action>)
    requires multiset(pre) == m && m[ClickSubmit] == 0
    ensures var t := pre + Repeat(PollApply, n);
      ClickSubmit !in t && Count(t, Navigate) == m[Navigate] && Count(t, CheckMarker) == m[CheckMarker]
      && Count(t, PollApply) == m[PollApply] + n && Count(t, ClickApply) == m[ClickApply]
      && Count(t, PollForm) == m[PollForm] && Count(t, CheckStep) == m[CheckStep]
  {
    var rep := Repeat(PollApply, n);
    RepeatMultiset(PollApply, n);
    assert multiset(pre + rep) == m + multiset{}[PollApply := n];
  }

  /** Counts add up over a concatenation. */
  lemma CountsAdd(t: seq<Action>, u: seq<Action>)
    ensures forall x :: Count(t + u, x) == Count(t, x) + Count(u, x)
  {
    assert multiset(t + u) == multiset(t) + multiset(u);
  }

  /** Whatever precedes an outcome leaves the agreement intact when it has no
      Submit click. */
  lemma SubmitsAgreePrefix(t: seq<Action>, r: Outcome)
    requires ClickSubmit !in t && SubmitsAgree(r)
    ensures SubmitsAgree(Outcome(r.applied, t + r.trace))
  {
    assert multiset(t + r.trace) == multiset(t) + multiset(r.trace);
  }

  // ---------------------------------------------------------------------
  // Scenarios

  /** The final loop succeeds exactly when, within its six rounds, a Submit
      button shows after a run of Next-only rounds. */
  lemma {:induction false} StepsApplied(steps: nat -> StepScreen, i: nat)
    requires i <= StepLimit
    ensures StepsFrom(steps, i).applied <==>
      exists k :: i <= k < StepLimit && steps(k).SubmitShown? && forall j :: i <= j < k ==> steps(j).NextShown?
    decreases StepLimit - i
  {
    if i < StepLimit {
      StepsApplied(steps, i + 1);
      if steps(i).NextShown? {
        if StepsFrom(steps, i + 1).applied {
          var k :| i + 1 <= k < StepLimit && steps(k).SubmitShown? && forall j :: i + 1 <= j < k ==> steps(j).NextShown?;
          assert forall j :: i <= j < k ==> steps(j).NextShown?;
        }
      }
    }
  }

  /** The apply-control wait gives up only after 25 lookups that all found
      nothing. */
  lemma {:induction false} LocateNothing(polls: nat -> Poll, i: nat)
    requires i <= ApplyPolls
    requires forall j :: i <= j < ApplyPolls ==> LookupOf(polls(j)).NotLocated?
    ensures LocateFrom(polls, i) == (NotLocated, ApplyPolls)
    decreases ApplyPolls - i
  {
    if i < ApplyPolls {
      LocateNothing(polls, i + 1);
    }
  }

  /** Likewise the form wait, after 12 polls that all saw no form. */
  lemma {:induction false} FormNever(forms: nat -> FormObs, i: nat)
    requires i <= FormPolls
    requires forall j :: i <= j < FormPolls ==> forms(j).FormClosed?
    ensures FormFrom(forms, i) == (FormClosed, FormPolls)
    decreases FormPolls - i
  {
    if i < FormPolls {
      FormNever(forms, i + 1);
    }
  }

  /** A job page on which the apply control never shows is given up after
      exactly 25 lookups and nothing else. */
  lemma NoApplyControl(alreadyOnPage: bool, obs: Observations)
    requires alreadyOnPage || obs.navigated
    requires obs.markerVisible
    requires forall j :: 0 <= j < ApplyPolls ==> LookupOf(obs.polls(j)).NotLocated?
    ensures EasyApply(alreadyOnPage, obs) == Outcome(false, Opening(alreadyOnPage) + Repeat(PollApply, ApplyPolls))
  {
    LocateNothing(obs.polls, 0);
  }

  /** A call that returned False before any Next click or resume step. */
  predicate Abandoned(r: Outcome) {
    !r.applied && ClickNext !in r.trace && AwaitResume !in r.trace && UploadResume !in r.trace
  }

  lemma FormPhaseAbandoned(obs: Observations)
    requires forall j :: 0 <= j < FormPolls ==> obs.forms(j).FormClosed?
    ensures Abandoned(FormPhase(obs))
  {
    FormNever(obs.forms, 0);
    RepeatOnly(PollForm, FormPolls);
  }

  lemma ControlPhaseAbandoned(obs: Observations, l: Lookup)
    requires Abandoned(FormPhase(obs))
    ensures Abandoned(ControlPhase(obs, l))
  {
  }

  lemma EasyApplyAbandoned(alreadyOnPage: bool, obs: Observations)
    requires Abandoned(ControlPhase(obs, LocateFrom(obs.polls, 0).0))
    ensures Abandoned(EasyApply(alreadyOnPage, obs))
  {
    RepeatOnly(PollApply, LocateFrom(obs.polls, 0).1);
  }

  /** A click after which the form never opens is given up after the form
      polls, before any Next click, Submit click or resume step. */
  lemma FormNeverOpens(alreadyOnPage: bool, obs: Observations)
    requires forall j :: 0 <= j < FormPolls ==> obs.forms(j).FormClosed?
    ensures Abandoned(EasyApply(alreadyOnPage, obs))
    ensures Count(EasyApply(alreadyOnPage, obs).trace, ClickSubmit) == 0
  {
    FormPhaseAbandoned(obs);
    ControlPhaseAbandoned(obs, LocateFrom(obs.polls, 0).0);
    EasyApplyAbandoned(alreadyOnPage, obs);
    EasyApplySpec(alreadyOnPage, obs);
  }

  lemma {:induction false} RepeatOnly(a: Action, n: nat)
    ensures forall x :: x in Repeat(a, n) ==> x == a
  {
    if n > 0 {
      RepeatOnly(a, n - 1);
    }
  }

  /** True is returned only for a page that loaded and shows the marker, after
      the apply control was found and (unless the script clicked it) clicked
      without error, the form opened, and then either the first Submit attempt
      worked, or the no-resume Submit did, or the resume was replaced and the
      final loop reached Submit. */
  lemma AppliedOnlyWhen(alreadyOnPage: bool, obs: Observations)
    requires EasyApply(alreadyOnPage, obs).applied
    ensures alreadyOnPage || obs.navigated
    ensures obs.markerVisible
    ensures LocateFrom(obs.polls, 0).0.ScriptClicked?
         || (LocateFrom(obs.polls, 0).0.Located? && !obs.click.FallbackRaised?)
    ensures FormFrom(obs.forms, 0).0.FormOpen?
    ensures obs.firstSubmit
         || (obs.resume.ResumeTimeout? && obs.fallbackSubmit)
         || (obs.resume.ResumeShown? && obs.uploadOk
             && exists k :: 0 <= k < StepLimit && obs.steps(k).SubmitShown?
                  && forall j :: 0 <= j < k ==> obs.steps(j).NextShown?)
  {
    if !obs.firstSubmit && obs.resume.ResumeShown? && obs.uploadOk {
      StepsApplied(obs.steps, 0);
    }
  }
}

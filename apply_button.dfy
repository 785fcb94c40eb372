/** The apply-control lookup of scrapeandapply.py (`_find_apply_button_anywhere`
    and `_get_apply_button`): the text tests it applies to candidate elements, and
    the order in which candidates are tried. The browser is replaced by what each
    check observed. */
module ApplyButton {
  import opened Text

  /** `easy\s*apply` */
  const EasyApplyPattern: seq<Token> := [Lit("easy"), Spaces(0), Lit("apply")]
  /** `apply\s*now` */
  const ApplyNowPattern: seq<Token> := [Lit("apply"), Spaces(0), Lit("now")]

  lemma PatternsWellFormed()
    ensures WellFormed(EasyApplyPattern) && WellFormed(ApplyNowPattern)
  {
    assert EasyApplyPattern[0].word == "easy" && EasyApplyPattern[2].word == "apply";
    assert ApplyNowPattern[0].word == "apply" && ApplyNowPattern[2].word == "now";
  }

  /** `EASY_APPLY_TEXT.search(text)` succeeds. */
  predicate EasyApplyText(text: string)
    ensures EasyApplyText(text) <==> Occurs(text, EasyApplyPattern) || Occurs(text, ApplyNowPattern)
  {
    PatternsWellFormed();
    Search(text, EasyApplyPattern) || Search(text, ApplyNowPattern)
  }

  /** Strategy 0 (the apply link): the pattern, or "easy" in the lower-cased text. */
  predicate LinkTextAccepted(text: string) {
    EasyApplyText(text) || Contains(Lower(text), "easy")
  }

  /** Strategy 3 (any button): the pattern, or "apply" but not "login". */
  predicate ButtonTextAccepted(text: string) {
    EasyApplyText(text) || (Contains(Lower(text), "apply") && !Contains(Lower(text), "login"))
  }

  /** Buttons inside the apply web components: the pattern, or non-empty text
      with "apply". */
  predicate HostTextAccepted(text: string) {
    EasyApplyText(text) || (text != [] && Contains(Lower(text), "apply"))
  }

  /** A case-insensitive match of a word without `i`, `k` or `s` lower-cases to
      the word itself. */
  lemma {:induction false} LowerOfPlainLit(u: string, w: string)
    requires |u| == |w|
    requires PlainWord(w)
    requires forall k :: 0 <= k < |w| ==> FoldEq(u[k], w[k])
    ensures Lower(u) == w
  {
    if u != [] {
      assert FoldEq(u[0], w[0]);
      assert LowerChar(u[0]) == [w[0]];
      assert PlainWord(w[1..]) by {
        forall k | 0 <= k < |w| - 1 ensures w[1..][k] == w[k + 1] { }
      }
      LowerOfPlainLit(u[1..], w[1..]);
      assert w == [w[0]] + w[1..];
    }
  }

  /** Lower-case ASCII letters whose case-insensitive matches all lower-case to
      themselves (every letter but `i`, `k` and `s`). */
  predicate PlainWord(w: string) {
    forall k :: 0 <= k < |w| ==> IsAsciiLower(w[k]) && w[k] != 'i' && w[k] != 'k' && w[k] != 's'
  }

  /** A case-insensitive plain word at `m` is that word in the lower-cased text. */
  lemma LitLowered(t: string, m: nat, w: string)
    requires PlainWord(w) && LitAt(t, m, w)
    ensures Contains(Lower(t), w)
  {
    var a, u, b := t[..m], t[m..m + |w|], t[m + |w|..];
    assert forall k :: 0 <= k < |w| ==> u[k] == t[m + k];
    LowerOfPlainLit(u, w);
    assert t == a + u + b;
    LowerConcat(a + u, b);
    LowerConcat(a, u);
    OccursBetween(Lower(a), w, Lower(b));
  }

  /** A case-insensitive "apply" at `m` is an "apply" in the lower-cased text. */
  lemma ApplyLitLowered(t: string, m: nat)
    requires LitAt(t, m, "apply")
    ensures Contains(Lower(t), "apply")
  {
    assert PlainWord("apply");
    LitLowered(t, m, "apply");
  }

  /** Whatever matches `EASY_APPLY_TEXT` has "apply" in its lower-cased form. */
  lemma EasyApplyHasApply(t: string)
    requires EasyApplyText(t)
    ensures Contains(Lower(t), "apply")
  {
    if Occurs(t, EasyApplyPattern) {
      var i: nat, j: nat :| Spans(t, i, EasyApplyPattern, j);
      var rest := EasyApplyPattern[1..];
      assert Spans(t, i + 4, rest, j);
      var m :| i + 4 <= m <= j && AllSpace(t[i + 4..m]) && Spans(t, m, rest[1..], j);
      ApplyLitLowered(t, m);
    } else {
      var i: nat, j: nat :| Spans(t, i, ApplyNowPattern, j);
      ApplyLitLowered(t, i);
    }
  }

  /** For non-empty text the web-component test reduces to "apply" in the
      lower-cased text, and every text the button test accepts it accepts too. */
  lemma HostTextAcceptedExactly(t: string)
    ensures t != [] ==> (HostTextAccepted(t) <==> Contains(Lower(t), "apply"))
    ensures ButtonTextAccepted(t) ==> HostTextAccepted(t)
  {
    if EasyApplyText(t) {
      EasyApplyHasApply(t);
    }
    if Contains(Lower(t), "apply") {
      var i: nat :| i <= |Lower(t)| && OccursAt(Lower(t), "apply", i);
      assert Lower(t) != [];
    }
  }

  // ---------------------------------------------------------------------
  // The ordered search

  /** Where a candidate comes from: the apply-link locators (strategy 0), the
      text locators (strategy 1), the role-based button (strategy 2), the button
      scan (strategy 3) and the buttons of the apply web components. */
  datatype Tier = LinkTier | TextTier | RoleTier | ButtonTier | HostTier

  /** One candidate check: its element's visibility and its inner text before
      stripping, or an exception raised inside the check's own `try` (the
      candidate is skipped), or one raised outside every `try` (a locator count,
      or a web-component wait that fails other than by timing out), which leaves
      the lookup. */
  datatype Probe = Probe(tier: Tier, visible: bool, text: string) | Skipped | Escapes

  /** The candidate is returned. */
  predicate Accepted(p: Probe) {
    match p
    case Probe(tier, visible, text) =>
      visible &&
      (match tier
       case LinkTier => LinkTextAccepted(Strip(text))
       case TextTier => true
       case RoleTier => true
       case ButtonTier => ButtonTextAccepted(Strip(text))
       case HostTier => HostTextAccepted(Strip(text)))
    case Skipped => false
    case Escapes => false
  }

  /** The result of one `_get_apply_button` call: the element found (its place in
      the probe order), the shadow-DOM script clicked one itself (`"js_clicked"`),
      nothing found (`None`), or an exception. */
  datatype Lookup = Located(index: nat) | ScriptClicked | NotLocated | LookupRaised

  /** `_get_apply_button`: the candidates are tried in order and the first one
      accepted wins; an escaping exception ends the lookup; when none is
      accepted, the shadow-DOM script decides (`scriptClicked`). */
  function FindApplyControl(probes: seq<Probe>, scriptClicked: bool): (r: Lookup)
    ensures r.Located? ==>
      r.index < |probes| && Accepted(probes[r.index])
      && forall j :: 0 <= j < r.index ==> !Accepted(probes[j]) && !probes[j].Escapes?
    ensures r.LookupRaised? ==>
      exists k :: 0 <= k < |probes| && probes[k].Escapes?
        && forall j :: 0 <= j < k ==> !Accepted(probes[j]) && !probes[j].Escapes?
    ensures r.ScriptClicked? || r.NotLocated? <==>
      forall j :: 0 <= j < |probes| ==> !Accepted(probes[j]) && !probes[j].Escapes?
    ensures r.ScriptClicked? ==> scriptClicked
    ensures r.NotLocated? ==> !scriptClicked
  {
    if probes == [] then (if scriptClicked then ScriptClicked else NotLocated)
    else if Accepted(probes[0]) then Located(0)
    else if probes[0].Escapes? then LookupRaised
    else
      var r := FindApplyControl(probes[1..], scriptClicked);
      assert forall j :: 1 <= j < |probes| ==> probes[j] == probes[1..][j - 1];
      match r
      case Located(i) =>
        assert probes[i + 1] == probes[1..][i];
        Located(i + 1)
      case LookupRaised =>
        var k :| 0 <= k < |probes[1..]| && probes[1..][k].Escapes?
          && forall j :: 0 <= j < k ==> !Accepted(probes[1..][j]) && !probes[1..][j].Escapes?;
        assert probes[k + 1].Escapes?;
        assert forall j :: 0 <= j < k + 1 ==> !Accepted(probes[j]) && !probes[j].Escapes?;
        LookupRaised
      case ScriptClicked => r
      case NotLocated => r
  }
}

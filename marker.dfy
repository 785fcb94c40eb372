/** `has_contract_corp_to_corp_in_text` of scrapeandapply.py: the scraped page
    text must contain `contract\s+corp\s+to\s+corp`, case-insensitively. */
module Marker {
  import opened Text

  /** `contract\s+corp\s+to\s+corp` */
  const MarkerPattern: seq<Token> :=
    [Lit("contract"), Spaces(1), Lit("corp"), Spaces(1), Lit("to"), Spaces(1), Lit("corp")]

  lemma MarkerPatternWellFormed()
    ensures WellFormed(MarkerPattern)
  {
    var p := MarkerPattern;
    assert p[0].word == "contract" && p[2].word == "corp" && p[4].word == "to" && p[6].word == "corp";
  }

  /** True for non-empty text in which the pattern occurs somewhere. */
  predicate HasMarkerText(text: string)
    ensures HasMarkerText(text) <==> text != [] && Occurs(text, MarkerPattern)
  {
    MarkerPatternWellFormed();
    text != [] && Search(text, MarkerPattern)
  }

  lemma SpansLit(s: string, i: nat, pat: seq<Token>, k: nat, j: nat)
    requires k < |pat| && pat[k].Lit? && i <= j <= |s|
    requires LitAt(s, i, pat[k].word) && Spans(s, i + |pat[k].word|, pat[k + 1..], j)
    ensures Spans(s, i, pat[k..], j)
  {
    assert pat[k..][1..] == pat[k + 1..];
  }

  lemma SpansSpaces(s: string, i: nat, pat: seq<Token>, k: nat, m: nat, j: nat)
    requires k < |pat| && pat[k].Spaces? && i + pat[k].min <= m <= j <= |s|
    requires AllSpace(s[i..m]) && Spans(s, m, pat[k + 1..], j)
    ensures Spans(s, i, pat[k..], j)
  {
    assert pat[k..][1..] == pat[k + 1..];
  }

  /** A match inside `w` is a match inside any text that contains `w`. */
  lemma {:induction false} SpansShift(x: string, w: string, y: string, i: nat, pat: seq<Token>, j: nat)
    requires Spans(w, i, pat, j)
    ensures Spans(x + w + y, |x| + i, pat, |x| + j)
    decreases |pat|
  {
    var s := x + w + y;
    assert forall k :: 0 <= k < |w| ==> s[|x| + k] == w[k];
    if pat != [] {
      match pat[0]
      case Lit(v) =>
        SpansShift(x, w, y, i + |v|, pat[1..], j);
      case Spaces(min) =>
        var m :| i + min <= m <= j && AllSpace(w[i..m]) && Spans(w, m, pat[1..], j);
        SpansShift(x, w, y, m, pat[1..], j);
        assert s[|x| + i..|x| + m] == w[i..m];
    }
  }

  const Label := "Contract Corp To Corp"

  /** The words and gaps of the label, at their places. */
  predicate LabelShape(s: string) {
    |s| == 21 && LitAt(s, 0, "contract") && AllSpace(s[8..9]) && LitAt(s, 9, "corp")
    && AllSpace(s[13..14]) && LitAt(s, 14, "to") && AllSpace(s[16..17]) && LitAt(s, 17, "corp")
  }

  lemma LabelHasShape()
    ensures LabelShape(Label)
  {
    var s := Label;
    assert s[0..8] == "Contract" && s[8..9] == " " && s[9..13] == "Corp" && s[13..14] == " ";
    assert s[14..16] == "To" && s[16..17] == " " && s[17..21] == "Corp";
    LitOfSlice(s, 0, "Contract", "contract");
    LitOfSlice(s, 9, "Corp", "corp");
    LitOfSlice(s, 14, "To", "to");
    LitOfSlice(s, 17, "Corp", "corp");
  }

  lemma LitOfSlice(s: string, i: nat, u: string, w: string)
    requires i + |u| <= |s| && s[i..i + |u|] == u && |u| == |w|
    requires forall k :: 0 <= k < |w| ==> FoldEq(u[k], w[k])
    ensures LitAt(s, i, w)
  {
    forall k | 0 <= k < |w| ensures FoldEq(s[i + k], w[k]) {
      assert s[i + k] == u[k];
    }
  }

  /** "To Corp" at the end of the label matches the last three tokens. */
  lemma LabelTail(s: string, p: seq<Token>)
    requires LabelShape(s) && p == MarkerPattern
    ensures Spans(s, 13, p[3..], 21)
  {
    assert Spans(s, 21, p[7..], 21);
    SpansLit(s, 17, p, 6, 21);
    SpansSpaces(s, 16, p, 5, 17, 21);
    SpansLit(s, 14, p, 4, 21);
    SpansSpaces(s, 13, p, 3, 14, 21);
  }

  lemma LabelMatches(s: string, p: seq<Token>)
    requires LabelShape(s) && p == MarkerPattern
    ensures Spans(s, 0, p, 21)
  {
    LabelTail(s, p);
    SpansLit(s, 9, p, 2, 21);
    SpansSpaces(s, 8, p, 1, 9, 21);
    SpansLit(s, 0, p, 0, 21);
    assert p[0..] == p;
  }

  /** The text written the way a Dice page labels the employment type, anywhere
      inside the scraped content, passes the test. */
  lemma MarkerFound(a: string, b: string)
    ensures HasMarkerText(a + Label + b)
  {
    LabelHasShape();
    LabelMatches(Label, MarkerPattern);
    SpansShift(a, Label, b, 0, MarkerPattern, 21);
  }
}

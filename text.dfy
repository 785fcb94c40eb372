/** Python string primitives the core relies on: `str.isspace`, `strip`,
    `lower`/`upper`, `in`, `startswith`, `find`, slicing, `split()`, and a small
    case-insensitive pattern language standing in for the regular expressions
    `contract\s+corp\s+to\s+corp` and `easy\s*apply|apply\s*now` of scrapeandapply.py. */
module Text {

  datatype Option<T> = None | Some(value: T) {
    function GetOr(default: T): T {
      match this
      case Some(v) => v
      case None => default
    }
  }

  /** The characters for which Python's `str.isspace()` holds; they are also
      what an `\s` in a `str` pattern matches and what `strip()`/`split()` remove. */
  predicate IsSpace(c: char) {
    c == ' ' || ('\t' <= c <= '\r') || ('\U{1C}' <= c <= '\U{1F}')
    || c == '\U{85}' || c == '\U{A0}' || c == '\U{1680}'
    || ('\U{2000}' <= c <= '\U{200A}') || c == '\U{2028}' || c == '\U{2029}'
    || c == '\U{202F}' || c == '\U{205F}' || c == '\U{3000}'
  }

  predicate AllSpace(s: string) {
    forall k :: 0 <= k < |s| ==> IsSpace(s[k])
  }

  /** Number of whitespace characters at the start of `s`. */
  function LeadingSpaces(s: string): (n: nat)
    ensures n <= |s|
    ensures forall k :: 0 <= k < n ==> IsSpace(s[k])
    ensures n == |s| || !IsSpace(s[n])
  {
    if s == [] || !IsSpace(s[0]) then 0 else 1 + LeadingSpaces(s[1..])
  }

  /** Number of whitespace characters at the end of `s`. */
  function TrailingSpaces(s: string): (n: nat)
    ensures n <= |s|
    ensures forall k :: |s| - n <= k < |s| ==> IsSpace(s[k])
    ensures n == |s| || !IsSpace(s[|s| - 1 - n])
  {
    if s == [] || !IsSpace(s[|s| - 1]) then 0 else 1 + TrailingSpaces(s[..|s| - 1])
  }

  /** Python's `s.strip()`. */
  function Strip(s: string): (r: string)
    ensures |r| <= |s|
    ensures r == [] <==> AllSpace(s)
    ensures r != [] ==> !IsSpace(r[0]) && !IsSpace(r[|r| - 1])
  {
    var lead := LeadingSpaces(s);
    if lead == |s| then []
    else
      var trail := TrailingSpaces(s);
      assert !IsSpace(s[lead]);
      s[lead..|s| - trail]
  }

  /** A string without surrounding whitespace is its own strip. */
  lemma StripOfStripped(s: string)
    requires s == [] || (!IsSpace(s[0]) && !IsSpace(s[|s| - 1]))
    ensures Strip(s) == s
  {
    if s != [] {
      assert LeadingSpaces(s) == 0;
      assert TrailingSpaces(s) == 0;
    }
  }

  /** `strip()` is idempotent. */
  lemma StripIdempotent(s: string)
    ensures Strip(Strip(s)) == Strip(s)
  {
    StripOfStripped(Strip(s));
  }

  /** Stripping never cuts into a word: if `s == a + w + b` where `w` starts
      and ends with non-whitespace, `w` survives inside `Strip(s)`. */
  lemma StripKeepsInner(a: string, w: string, b: string)
    requires w != [] && !IsSpace(w[0]) && !IsSpace(w[|w| - 1])
    ensures Contains(Strip(a + w + b), w)
  {
    var s := a + w + b;
    assert s[|a|] == w[0] && s[|a| + |w| - 1] == w[|w| - 1];
    var lo, hi := LeadingSpaces(s), |s| - TrailingSpaces(s);
    assert lo <= |a| && |a| + |w| <= hi;
    assert s[|a|..|a| + |w|] == w;
    SliceKeepsOccurrence(s, lo, hi, w, |a|);
    assert Strip(s) == s[lo..hi];
  }

  /** An occurrence that lies within a slice is an occurrence in the slice. */
  lemma SliceKeepsOccurrence(s: string, lo: nat, hi: nat, pat: string, j: nat)
    requires lo <= j && j + |pat| <= hi <= |s| && OccursAt(s, pat, j)
    ensures OccursAt(s[lo..hi], pat, j - lo)
  {
    var t := s[lo..hi];
    assert forall k :: 0 <= k < |pat| ==> t[j - lo + k] == s[j + k] == pat[k];
    assert t[j - lo..j - lo + |pat|] == pat;
  }

  /** Stripping a string that starts with a non-space word keeps that word as a prefix. */
  lemma StripKeepsPrefix(ws: string, w: string, t: string)
    requires AllSpace(ws)
    requires w != [] && !IsSpace(w[0]) && !IsSpace(w[|w| - 1])
    ensures StartsWith(Strip(ws + w + t), w)
  {
    var s := ws + w + t;
    assert s[|ws|] == w[0] && s[|ws| + |w| - 1] == w[|w| - 1];
    assert forall k :: 0 <= k < |ws| ==> s[k] == ws[k];
    var lo, hi := LeadingSpaces(s), |s| - TrailingSpaces(s);
    assert lo == |ws| && |ws| + |w| <= hi;
    assert s[|ws|..|ws| + |w|] == w;
    SliceKeepsOccurrence(s, lo, hi, w, |ws|);
    assert Strip(s) == s[lo..hi];
  }

  /** Whitespace around a word is exactly what `strip()` removes. */
  lemma StripSurrounded(ws: string, w: string, ws2: string)
    requires AllSpace(ws) && AllSpace(ws2)
    requires w != [] && !IsSpace(w[0]) && !IsSpace(w[|w| - 1])
    ensures Strip(ws + w + ws2) == w
  {
    var s := ws + w + ws2;
    StripKeepsPrefix(ws, w, ws2);
    var r := Strip(s);
    var lead := LeadingSpaces(s);
    var trail := TrailingSpaces(s);
    assert s[|ws|] == w[0];
    assert forall k :: 0 <= k < |ws| ==> s[k] == ws[k];
    assert lead == |ws|;
    assert s[|ws| + |w| - 1] == w[|w| - 1];
    assert forall k :: |ws| + |w| <= k < |s| ==> s[k] == ws2[k - |ws| - |w|];
    assert !IsSpace(s[|s| - 1 - |ws2|]);
    assert trail == |ws2|;
    assert r == s[|ws|..|ws| + |w|];
  }

  // ---------------------------------------------------------------------
  // Substrings

  /** Python's `pat in s`. */
  predicate Contains(s: string, pat: string) {
    exists i: nat :: i <= |s| && OccursAt(s, pat, i)
  }

  /** `pat` occurs in `s` starting at index `i`. */
  predicate OccursAt(s: string, pat: string, i: nat) {
    i + |pat| <= |s| && s[i..i + |pat|] == pat
  }

  /** `p` occurs in `x + p + y` right after `x`. */
  lemma OccursBetween(x: string, p: string, y: string)
    ensures OccursAt(x + p + y, p, |x|)
  {
    assert (x + p + y)[|x|..|x| + |p|] == p;
  }

  /** An occurrence inside a slice is an occurrence in the whole string. */
  lemma OccursInSlice(s: string, lo: nat, hi: nat, pat: string, i: nat)
    requires lo <= hi <= |s| && OccursAt(s[lo..hi], pat, i)
    ensures OccursAt(s, pat, lo + i)
  {
    var t := s[lo..hi];
    assert forall k :: 0 <= k < |pat| ==> s[lo + i + k] == t[i + k] == pat[k];
    assert s[lo + i..lo + i + |pat|] == pat;
  }

  /** A string that holds no occurrence before `n` holds none in its first `n`
      characters. */
  lemma NoneBefore(s: string, n: nat, pat: string)
    requires n <= |s|
    requires forall i: nat :: i < n ==> !OccursAt(s, pat, i)
    requires pat != []
    ensures !Contains(s[..n], pat)
  {
    forall k: nat | k <= n ensures !OccursAt(s[..n], pat, k) {
      if OccursAt(s[..n], pat, k) {
        OccursInSlice(s, 0, n, pat, k);
      }
    }
  }

  /** Python's `s.startswith(pat)`. */
  predicate StartsWith(s: string, pat: string) {
    |pat| <= |s| && s[..|pat|] == pat
  }

  /** Index of the first occurrence of `pat` in `s` at or after `from`
      (Python's `s.find(pat)` when `from == 0`, with -1 as None). */
  function FindFrom(s: string, pat: string, from: nat): (r: Option<nat>)
    requires from <= |s|
    ensures r.Some? ==> from <= r.value && OccursAt(s, pat, r.value)
    ensures forall i: nat :: from <= i && (r.None? || i < r.value) ==> !OccursAt(s, pat, i)
    decreases |s| - from
  {
    if |s| - from < |pat| then None
    else if s[from..from + |pat|] == pat then Some(from)
    else if from == |s| then None
    else FindFrom(s, pat, from + 1)
  }

  /** Python's `s.find(pat)`, with None for -1: the first occurrence. */
  function Find(s: string, pat: string): (r: Option<nat>)
    ensures r.Some? <==> Contains(s, pat)
    ensures r.Some? ==> OccursAt(s, pat, r.value) && forall i: nat :: i < r.value ==> !OccursAt(s, pat, i)
  {
    FindFrom(s, pat, 0)
  }

  /** Python's `s[:n]`. */
  function Take(s: string, n: nat): (r: string)
    ensures |r| <= n && |r| <= |s|
    ensures r == s[..|r|]
    ensures |s| <= n ==> r == s
  {
    if |s| <= n then s else s[..n]
  }

  // ---------------------------------------------------------------------
  // Case mapping

  /** Python's `str.lower()` on one character, for every character whose lower
      case contains an ASCII letter: the ASCII capitals, CAPITAL I WITH DOT ABOVE
      (which lowers to `i` and a combining dot) and KELVIN SIGN. Other characters
      are kept: what Python makes of them holds no ASCII letter, so a test for an
      ASCII word in the result is unaffected. */
  function LowerChar(c: char): string {
    if 'A' <= c <= 'Z' then [(c as int + 32) as char]
    else if c == '\U{130}' then "i\U{307}"
    else if c == '\U{212A}' then "k"
    else [c]
  }

  /** Python's `s.lower()`. */
  function Lower(s: string): (r: string)
    ensures |r| >= |s|
  {
    if s == [] then [] else LowerChar(s[0]) + Lower(s[1..])
  }

  lemma {:induction false} LowerConcat(a: string, b: string)
    ensures Lower(a + b) == Lower(a) + Lower(b)
  {
    if a != [] {
      assert (a + b)[0] == a[0];
      assert (a + b)[1..] == a[1..] + b;
      assert Lower(a + b) == LowerChar(a[0]) + Lower(a[1..] + b);
      LowerConcat(a[1..], b);
      assert Lower(a) == LowerChar(a[0]) + Lower(a[1..]);
    } else {
      assert a + b == b;
    }
  }

  /** Python's `str.upper()` on one character, for every character whose upper
      case contains an ASCII capital: the ASCII small letters, SHARP S, DOTLESS I,
      N PRECEDED BY APOSTROPHE, LONG S, J WITH CARON, the letters with a
      transformed upper case in U+1E96..U+1E9A, and the Latin ligatures. Other
      characters are kept, as for `LowerChar`. */
  function UpperChar(c: char): string {
    if 'a' <= c <= 'z' then [(c as int - 32) as char]
    else if c == '\U{DF}' then "SS"
    else if c == '\U{131}' then "I"
    else if c == '\U{149}' then "\U{2BC}N"
    else if c == '\U{17F}' then "S"
    else if c == '\U{1F0}' then "J\U{30C}"
    else if c == '\U{1E96}' then "H\U{331}"
    else if c == '\U{1E97}' then "T\U{308}"
    else if c == '\U{1E98}' then "W\U{30A}"
    else if c == '\U{1E99}' then "Y\U{30A}"
    else if c == '\U{1E9A}' then "A\U{2BE}"
    else if c == '\U{FB00}' then "FF"
    else if c == '\U{FB01}' then "FI"
    else if c == '\U{FB02}' then "FL"
    else if c == '\U{FB03}' then "FFI"
    else if c == '\U{FB04}' then "FFL"
    else if c == '\U{FB05}' || c == '\U{FB06}' then "ST"
    else [c]
  }

  /** Python's `s.upper()`. */
  function Upper(s: string): (r: string)
    ensures |r| >= |s|
  {
    if s == [] then [] else UpperChar(s[0]) + Upper(s[1..])
  }

  lemma {:induction false} UpperConcat(a: string, b: string)
    ensures Upper(a + b) == Upper(a) + Upper(b)
  {
    if a != [] {
      assert (a + b)[0] == a[0];
      assert (a + b)[1..] == a[1..] + b;
      assert Upper(a + b) == UpperChar(a[0]) + Upper(a[1..] + b);
      UpperConcat(a[1..], b);
      assert Upper(a) == UpperChar(a[0]) + Upper(a[1..]);
    } else {
      assert a + b == b;
    }
  }

  /** Upper-casing keeps a prefix. */
  lemma UpperKeepsPrefix(s: string, w: string)
    requires StartsWith(s, w)
    ensures StartsWith(Upper(s), Upper(w))
  {
    var x := s[|w|..];
    assert s == w + x;
    UpperConcat(w, x);
    assert (Upper(w) + Upper(x))[..|Upper(w)|] == Upper(w);
  }

  /** One character of a case-insensitive (`re.I`) pattern: `p` is a lower-case
      ASCII letter and `c` is a character `re` treats as equal to it: `p` itself,
      its capital, KELVIN SIGN for `k`, LONG S for `s`, and CAPITAL I WITH DOT
      ABOVE and DOTLESS I for `i`. */
  predicate FoldEq(c: char, p: char) {
    c == p || (c as int + 32 == p as int && 'A' <= c <= 'Z')
    || (p == 'k' && c == '\U{212A}') || (p == 's' && c == '\U{17F}')
    || (p == 'i' && (c == '\U{130}' || c == '\U{131}'))
  }

  predicate IsAsciiLower(p: char) { 'a' <= p <= 'z' }

  lemma FoldEqNotSpace(c: char, p: char)
    requires IsAsciiLower(p) && FoldEq(c, p)
    ensures !IsSpace(c)
  {
  }

  /** `w` (lower-case letters) occurs case-insensitively at position `i` of `s`. */
  predicate LitAt(s: string, i: nat, w: string) {
    i + |w| <= |s| && forall k :: 0 <= k < |w| ==> FoldEq(s[i + k], w[k])
  }

  /** Position of the first non-space character at or after `i`. */
  function SpaceRun(s: string, i: nat): (r: nat)
    requires i <= |s|
    ensures i <= r <= |s|
    ensures AllSpace(s[i..r])
    ensures r == |s| || !IsSpace(s[r])
    decreases |s| - i
  {
    if i == |s| || !IsSpace(s[i]) then i else SpaceRun(s, i + 1)
  }

  lemma {:induction false} SpaceRunStopsAt(s: string, i: nat, m: nat)
    requires i <= m < |s| && AllSpace(s[i..m]) && !IsSpace(s[m])
    ensures SpaceRun(s, i) == m
    decreases m - i
  {
    if i < m {
      assert IsSpace(s[i..m][0]);
      assert s[i + 1..m] == s[i..m][1..];
      SpaceRunStopsAt(s, i + 1, m);
    }
  }

  // ---------------------------------------------------------------------
  // Case-insensitive token patterns: literals separated by whitespace runs

  /** `Lit(w)` matches `w` case-insensitively; `Spaces(min)` matches a run of at
      least `min` whitespace characters (`\s*` is `Spaces(0)`, `\s+` is `Spaces(1)`). */
  datatype Token = Lit(word: string) | Spaces(min: nat)

  /** Every literal is non-empty lower-case ASCII and every whitespace run is
      followed by a literal: then greedy matching of the runs is exact. */
  predicate WellFormed(pat: seq<Token>) {
    (forall k :: 0 <= k < |pat| && pat[k].Lit? ==>
       pat[k].word != [] && forall j :: 0 <= j < |pat[k].word| ==> IsAsciiLower(pat[k].word[j]))
    && (forall k :: 0 <= k < |pat| && pat[k].Spaces? ==> k + 1 < |pat| && pat[k + 1].Lit?)
  }

  /** The regular-expression meaning of a pattern: `s[i..j]` is matched by `pat`. */
  ghost predicate Spans(s: string, i: nat, pat: seq<Token>, j: nat)
    decreases |pat|
  {
    i <= j <= |s| &&
    if pat == [] then i == j
    else match pat[0]
      case Lit(w) => LitAt(s, i, w) && Spans(s, i + |w|, pat[1..], j)
      case Spaces(min) =>
        exists m :: i + min <= m <= j && AllSpace(s[i..m]) && Spans(s, m, pat[1..], j)
  }

  /** Greedy matcher of `pat` at `i`; the end of the match, if any. */
  function MatchFrom(s: string, i: nat, pat: seq<Token>): (r: Option<nat>)
    requires i <= |s|
    ensures r.Some? ==> i <= r.value <= |s|
    decreases |pat|
  {
    if pat == [] then Some(i)
    else match pat[0]
      case Lit(w) => if LitAt(s, i, w) then MatchFrom(s, i + |w|, pat[1..]) else None
      case Spaces(min) =>
        var m := SpaceRun(s, i);
        if m - i >= min then MatchFrom(s, m, pat[1..]) else None
  }

  lemma {:induction false} MatchFromSound(s: string, i: nat, pat: seq<Token>)
    requires i <= |s| && MatchFrom(s, i, pat).Some?
    ensures Spans(s, i, pat, MatchFrom(s, i, pat).value)
    decreases |pat|
  {
    if pat != [] {
      match pat[0]
      case Lit(w) => MatchFromSound(s, i + |w|, pat[1..]);
      case Spaces(min) =>
        var m := SpaceRun(s, i);
        MatchFromSound(s, m, pat[1..]);
    }
  }

  lemma WellFormedTail(pat: seq<Token>)
    requires pat != [] && WellFormed(pat)
    ensures WellFormed(pat[1..])
  {
    forall k | 0 <= k < |pat[1..]| && pat[1..][k].Spaces?
      ensures k + 1 < |pat[1..]| && pat[1..][k + 1].Lit?
    {
      assert pat[1..][k] == pat[k + 1];
    }
    forall k | 0 <= k < |pat[1..]| && pat[1..][k].Lit?
      ensures pat[1..][k].word != [] && forall j :: 0 <= j < |pat[1..][k].word| ==> IsAsciiLower(pat[1..][k].word[j])
    {
      assert pat[1..][k] == pat[k + 1];
    }
  }

  lemma {:induction false} MatchFromComplete(s: string, i: nat, pat: seq<Token>, j: nat)
    requires WellFormed(pat) && Spans(s, i, pat, j)
    ensures MatchFrom(s, i, pat) == Some(j)
    decreases |pat|
  {
    if pat != [] {
      WellFormedTail(pat);
      match pat[0]
      case Lit(w) => MatchFromComplete(s, i + |w|, pat[1..], j);
      case Spaces(min) =>
        var m :| i + min <= m <= j && AllSpace(s[i..m]) && Spans(s, m, pat[1..], j);
        assert pat[1] == pat[1..][0];
        var w := pat[1].word;
        assert w != [] && IsAsciiLower(w[0]);
        assert LitAt(s, m, w);
        FoldEqNotSpace(s[m + 0], w[0]);
        SpaceRunStopsAt(s, i, m);
        MatchFromComplete(s, m, pat[1..], j);
    }
  }

  /** Python's `re.search(pat, s)` succeeds: some position starts a match. */
  ghost predicate Occurs(s: string, pat: seq<Token>) {
    exists i, j :: Spans(s, i, pat, j)
  }

  /** Executable search: try every start position with the greedy matcher. */
  predicate Search(s: string, pat: seq<Token>)
    requires WellFormed(pat)
    ensures Search(s, pat) <==> Occurs(s, pat)
  {
    var found := exists i :: 0 <= i <= |s| && MatchFrom(s, i, pat).Some?;
    assert found ==> Occurs(s, pat) by {
      if found {
        var i :| 0 <= i <= |s| && MatchFrom(s, i, pat).Some?;
        MatchFromSound(s, i, pat);
      }
    }
    assert Occurs(s, pat) ==> found by {
      if Occurs(s, pat) {
        var i, j :| Spans(s, i, pat, j);
        MatchFromComplete(s, i, pat, j);
      }
    }
    found
  }

  // ---------------------------------------------------------------------
  // Whitespace splitting

  /** Length of the leading run of non-space characters. */
  function WordLen(s: string): (n: nat)
    ensures n <= |s|
    ensures forall k :: 0 <= k < n ==> !IsSpace(s[k])
    ensures n == |s| || IsSpace(s[n])
  {
    if s == [] || IsSpace(s[0]) then 0 else 1 + WordLen(s[1..])
  }

  /** Python's `s.split()` with no separator. */
  function Split(s: string): (r: seq<string>)
    ensures forall k :: 0 <= k < |r| ==> r[k] != [] && forall j :: 0 <= j < |r[k]| ==> !IsSpace(r[k][j])
    decreases |s|
  {
    if s == [] then []
    else if IsSpace(s[0]) then Split(s[1..])
    else
      var n := WordLen(s);
      [s[..n]] + Split(s[n..])
  }

  lemma {:induction false} SplitSkipsSpaces(ws: string, t: string)
    requires AllSpace(ws)
    ensures Split(ws + t) == Split(t)
  {
    if ws != [] {
      assert (ws + t)[0] == ws[0];
      assert IsSpace(ws[0]);
      assert (ws + t)[1..] == ws[1..] + t;
      assert Split(ws + t) == Split(ws[1..] + t);
      SplitSkipsSpaces(ws[1..], t);
    } else {
      assert ws + t == t;
    }
  }

  lemma {:induction false} WordLenOfWord(w: string, t: string)
    requires forall j :: 0 <= j < |w| ==> !IsSpace(w[j])
    requires t == [] || IsSpace(t[0])
    ensures WordLen(w + t) == |w|
  {
    if w != [] {
      assert (w + t)[1..] == w[1..] + t;
      WordLenOfWord(w[1..], t);
    }
  }

  lemma SplitWord(w: string, t: string)
    requires w != [] && forall j :: 0 <= j < |w| ==> !IsSpace(w[j])
    requires t == [] || IsSpace(t[0])
    ensures Split(w + t) == [w] + Split(t)
  {
    WordLenOfWord(w, t);
    assert (w + t)[..|w|] == w;
    assert (w + t)[|w|..] == t;
  }
}

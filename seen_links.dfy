/** The processed-link store of scrapeandapply.py: `seen_links.txt`, a text file
    with one link per line, read by `load_seen_links` and grown by
    `append_seen_link`. The file is modelled as its content, `None` when it does
    not exist. */
module SeenLinks {
  import opened Text

  /** Characters that end a line when a file is read in text mode with universal
      newlines (`"\r\n"`, `"\r"` and `"\n"` all end a line). */
  predicate IsLineBreak(c: char) { c == '\n' || c == '\r' }

  predicate NoLineBreaks(s: string) {
    forall j :: 0 <= j < |s| ==> !IsLineBreak(s[j])
  }

  /** Content that is empty or whose last line is complete. */
  predicate EndsLine(s: string) {
    s == [] || IsLineBreak(s[|s| - 1])
  }

  /** The pieces of `s` between line breaks, last (possibly empty) piece included.
      Each piece is a line as the file iterator yields it, minus its terminator;
      a `"\r\n"` pair also yields an empty piece, which parsing discards. */
  function Lines(s: string): (r: seq<string>)
    ensures |r| >= 1
  {
    if s == [] then [""]
    else
      var r := Lines(s[1..]);
      if IsLineBreak(s[0]) then [""] + r else [[s[0]] + r[0]] + r[1..]
  }

  /** The non-empty stripped lines, as a set. */
  function Kept(ls: seq<string>): set<string> {
    set l | l in ls && Strip(l) != [] :: Strip(l)
  }

  /** `load_seen_links`: a missing file gives the empty set; otherwise the set of
      the file's stripped, non-empty lines. */
  function ParseSeen(file: Option<string>): (r: set<string>)
    ensures file.None? ==> r == {}
    ensures "" !in r
  {
    match file
    case None => {}
    case Some(c) => Kept(Lines(c))
  }

  /** Every remembered link is its own strip. */
  lemma ParseSeenStripped(file: Option<string>)
    ensures forall x :: x in ParseSeen(file) ==> Strip(x) == x
  {
    if file.Some? {
      forall x | x in ParseSeen(file) ensures Strip(x) == x {
        var l :| l in Lines(file.value) && Strip(l) != [] && Strip(l) == x;
        StripIdempotent(l);
      }
    }
  }

  /** `append_seen_link`: what the file holds after appending `link`
      (an absent file is created). */
  function Appended(file: Option<string>, link: string): (r: string)
    ensures StartsWith(r, file.GetOr(""))
    ensures r[|file.GetOr("")|..] == link + "\n"
  {
    file.GetOr("") + link + "\n"
  }

  lemma KeptConcat(x: seq<string>, y: seq<string>)
    ensures Kept(x + y) == Kept(x) + Kept(y)
  {
    forall v | v in Kept(x + y) ensures v in Kept(x) + Kept(y) {
      var l :| l in x + y && Strip(l) != [] && Strip(l) == v;
      if l in x { assert v in Kept(x); } else { assert v in Kept(y); }
    }
    forall v | v in Kept(x) + Kept(y) ensures v in Kept(x + y) {
      if v in Kept(x) {
        var l :| l in x && Strip(l) != [] && Strip(l) == v;
        assert l in x + y;
      } else {
        var l :| l in y && Strip(l) != [] && Strip(l) == v;
        assert l in x + y;
      }
    }
  }

  /** Splitting content whose last line is complete, followed by more content. */
  lemma {:induction false} LinesConcat(a: string, b: string)
    requires a != [] && IsLineBreak(a[|a| - 1])
    ensures |Lines(a)| >= 2
    ensures Lines(a) == Lines(a)[..|Lines(a)| - 1] + [""]
    ensures Lines(a + b) == Lines(a)[..|Lines(a)| - 1] + Lines(b)
  {
    var c, a' := a[0], a[1..];
    assert (a + b)[0] == c;
    assert (a + b)[1..] == a' + b;
    if a' == [] {
      assert a' + b == b;
    } else {
      assert a'[|a'| - 1] == a[|a| - 1];
      LinesConcat(a', b);
      var la' := Lines(a');
      var init := la'[..|la'| - 1];
      assert la' == init + [""];
      assert Lines(a' + b) == init + Lines(b);
      if IsLineBreak(c) {
        BreakStep(init, Lines(b));
      } else {
        MergeStep(c, init, Lines(b));
      }
    }
  }

  /** The line lists of `"\n" + a` and `"\n" + a + b`, from those of `a` and `a + b`. */
  lemma BreakStep(init: seq<string>, lb: seq<string>)
    ensures var la := [""] + (init + [""]);
      |la| >= 2 && la == la[..|la| - 1] + [""] && [""] + (init + lb) == la[..|la| - 1] + lb
  {
    var la := [""] + (init + [""]);
    assert la[..|la| - 1] == [""] + init;
  }

  /** The same when the first character is not a line break: it joins the first line. */
  lemma MergeStep(c: char, init: seq<string>, lb: seq<string>)
    requires |init| >= 1
    ensures var la := [[c] + (init + [""])[0]] + (init + [""])[1..];
      |la| >= 2 && la == la[..|la| - 1] + [""]
      && [[c] + (init + lb)[0]] + (init + lb)[1..] == la[..|la| - 1] + lb
  {
    var la := [[c] + (init + [""])[0]] + (init + [""])[1..];
    assert (init + [""])[0] == init[0] == (init + lb)[0];
    assert (init + [""])[1..] == init[1..] + [""];
    assert (init + lb)[1..] == init[1..] + lb;
    assert la[..|la| - 1] == [[c] + init[0]] + init[1..];
  }

  /** Concatenation at a line boundary unions the parsed sets. */
  lemma ParseConcat(a: string, b: string)
    requires EndsLine(a)
    ensures ParseSeen(Some(a + b)) == ParseSeen(Some(a)) + ParseSeen(Some(b))
  {
    if a == [] {
      assert a + b == b;
      assert Lines(a) == [""];
      assert Kept([""]) == {};
    } else {
      LinesConcat(a, b);
      var init := Lines(a)[..|Lines(a)| - 1];
      KeptConcat(init, [""]);
      KeptConcat(init, Lines(b));
      assert Kept([""]) == {};
    }
  }

  lemma {:induction false} LinesOfLine(w: string)
    requires NoLineBreaks(w)
    ensures Lines(w + "\n") == [w, ""]
  {
    if w != [] {
      assert (w + "\n")[0] == w[0];
      assert (w + "\n")[1..] == w[1..] + "\n";
      LinesOfLine(w[1..]);
      assert [w[0]] + w[1..] == w;
    } else {
      assert w + "\n" == "\n";
      assert Lines("\n") == [""] + Lines([]);
    }
  }

  /** The file content that holds exactly one line `link` parses to its strip. */
  lemma ParseOneLine(link: string)
    requires NoLineBreaks(link)
    ensures ParseSeen(Some(link + "\n")) == if Strip(link) == [] then {} else {Strip(link)}
  {
    LinesOfLine(link);
    assert Kept([""]) == {};
    KeptConcat([link], [""]);
  }

  /** What appending does to the parsed set: when the file is missing, empty or
      ends with a line break, appending `link` adds exactly its strip (if non-empty). */
  /** A file whose last line is not terminated: the appended link continues
      that line, so what is remembered is the joined line, not either part. */
  lemma AppendToOpenLine(tail: string, link: string)
    requires NoLineBreaks(tail) && NoLineBreaks(link)
    ensures ParseSeen(Some(Appended(Some(tail), link)))
         == if Strip(tail + link) == [] then {} else {Strip(tail + link)}
  {
    var w := tail + link;
    assert NoLineBreaks(w) by {
      forall j | 0 <= j < |w| ensures !IsLineBreak(w[j]) {
        if j < |tail| { assert w[j] == tail[j]; } else { assert w[j] == link[j - |tail|]; }
      }
    }
    assert Appended(Some(tail), link) == w + "\n";
    ParseOneLine(w);
  }

  lemma AppendParsed(file: Option<string>, link: string)
    requires EndsLine(file.GetOr(""))
    requires NoLineBreaks(link)
    ensures ParseSeen(Some(Appended(file, link)))
         == ParseSeen(file) + (if Strip(link) == [] then {} else {Strip(link)})
  {
    var c := file.GetOr("");
    assert c + link + "\n" == c + (link + "\n");
    ParseConcat(c, link + "\n");
    ParseOneLine(link);
    if file.None? {
      assert Lines("") == [""];
      assert Kept([""]) == {};
    }
  }

  /** A link that round-trips through the file unchanged. */
  predicate CleanLink(link: string) {
    link != [] && NoLineBreaks(link) && Strip(link) == link
  }

  /** For a clean link, the parsed set after appending is the old set plus the link. */
  lemma AppendCleanLink(file: Option<string>, link: string)
    requires EndsLine(file.GetOr(""))
    requires CleanLink(link)
    ensures ParseSeen(Some(Appended(file, link))) == ParseSeen(file) + {link}
  {
    AppendParsed(file, link);
  }

  /** What a sequence of `append_seen_link` calls writes, in order. */
  function LogLines(ls: seq<string>): (r: string)
    ensures EndsLine(r)
  {
    if ls == [] then [] else LogLines(ls[..|ls| - 1]) + ls[|ls| - 1] + "\n"
  }

  /** Appending several links at a line boundary adds exactly their stripped,
      non-empty forms to the parsed set. */
  lemma {:induction false} AppendAllParsed(c: string, ls: seq<string>)
    requires EndsLine(c)
    requires forall k :: 0 <= k < |ls| ==> NoLineBreaks(ls[k])
    ensures ParseSeen(Some(c + LogLines(ls))) == ParseSeen(Some(c)) + Kept(ls)
  {
    if ls == [] {
      assert c + LogLines(ls) == c;
      assert Kept(ls) == {};
    } else {
      var init, last := ls[..|ls| - 1], ls[|ls| - 1];
      assert NoLineBreaks(last);
      AppendAllParsed(c, init);
      var before := c + LogLines(init);
      AppendParsed(Some(before), last);
      LogLinesSnoc(c, init, last);
      KeptSnoc(ls);
      UnionSteps(ParseSeen(Some(c)), ParseSeen(Some(before)), ParseSeen(Some(c + LogLines(ls))),
                 Kept(init), if Strip(last) == [] then {} else {Strip(last)}, Kept(ls));
    }
  }

  lemma UnionSteps<T>(p0: set<T>, p1: set<T>, p2: set<T>, k: set<T>, step: set<T>, all: set<T>)
    requires p1 == p0 + k && p2 == p1 + step && all == k + step
    ensures p2 == p0 + all
  {
  }

  lemma LogLinesSnoc(c: string, init: seq<string>, last: string)
    ensures c + LogLines(init + [last]) == Appended(Some(c + LogLines(init)), last)
  {
    var ls := init + [last];
    assert ls[..|ls| - 1] == init;
  }

  lemma KeptSnoc(ls: seq<string>)
    requires ls != []
    ensures Kept(ls) == Kept(ls[..|ls| - 1]) + (if Strip(ls[|ls| - 1]) == [] then {} else {Strip(ls[|ls| - 1])})
  {
    assert ls == ls[..|ls| - 1] + [ls[|ls| - 1]];
    KeptConcat(ls[..|ls| - 1], [ls[|ls| - 1]]);
    KeptSingle(ls[|ls| - 1]);
  }

  lemma KeptSingle(l: string)
    ensures Kept([l]) == if Strip(l) == [] then {} else {Strip(l)}
  {
  }

  /** Clean links are kept as they are. */
  lemma KeptClean(ls: seq<string>)
    requires forall k :: 0 <= k < |ls| ==> CleanLink(ls[k])
    ensures Kept(ls) == set l | l in ls
  {
  }

  /** The file as the program sees it: appended to, never rewritten. */
  class SeenFile {
    var content: Option<string>

    constructor (initial: Option<string>)
      ensures content == initial
    {
      content := initial;
    }

    function Text(): string
      reads this
    {
      content.GetOr("")
    }

    /** `load_seen_links` on this file. */
    function Links(): set<string>
      reads this
    {
      ParseSeen(content)
    }

    /** `append_seen_link`: the old content stays a prefix; `link + "\n"` follows. */
    method Append(link: string)
      modifies this
      ensures content == Some(Appended(old(content), link))
    {
      content := Some(Text() + link + "\n");
    }
  }
}

/**
 * Text cleaning, page filtering and chunk bookkeeping of the PDF processor.
 * Reading the PDF is outside the model: the raw text of every page, in page
 * order, is an input. The text splitter is an opaque function `split`.
 */
module PdfProcessing {
  import opened Types
  import opened Text
  import opened Documents
  import Seqs

  /** Pages whose stripped raw text is shorter than this are skipped. */
  const MinPageChars: nat := 50
  /** Chunks whose stripped text is shorter than this are dropped. */
  const MinChunkChars: nat := 30
  const SoftHyphen: char := '\U{00AD}'

  // ---------------------------------------------------------------------------
  // Text cleaning
  // ---------------------------------------------------------------------------

  /** Length of the run of newlines that starts `s`. */
  function NewlineRun(s: string): (n: nat)
    ensures n <= |s|
    ensures forall k :: 0 <= k < n ==> s[k] == '\n'
    ensures n == |s| || s[n] != '\n'
  {
    if s != [] && s[0] == '\n' then 1 + NewlineRun(s[1..]) else 0
  }

  /** `re.sub(r"\n{3,}", "\n\n", s)`: every maximal run of three or more newlines becomes two. */
  function CollapseNewlines(s: string): string
    decreases |s|
  {
    if s == [] then []
    else if s[0] != '\n' then [s[0]] + CollapseNewlines(s[1..])
    else
      var n := NewlineRun(s);
      (if n >= 3 then "\n\n" else s[..n]) + CollapseNewlines(s[n..])
  }

  ghost predicate HasTripleNewline(s: string)
  {
    exists k :: 0 <= k && k + 2 < |s| && s[k] == '\n' && s[k + 1] == '\n' && s[k + 2] == '\n'
  }

  /** After the substitution no three newlines follow each other, and only newlines were touched. */
  lemma CollapseNewlinesSpec(s: string)
    ensures !HasTripleNewline(CollapseNewlines(s))
    ensures (s == [] || s[0] != '\n') ==> (CollapseNewlines(s) == [] || CollapseNewlines(s)[0] != '\n')
    ensures RemoveChar(CollapseNewlines(s), '\n') == RemoveChar(s, '\n')
  {
    CollapseNoTriple(s);
    CollapseKeepsText(s);
  }

  /** Text that does not start with a newline still does not after the substitution. */
  lemma CollapseStart(s: string)
    ensures (s == [] || s[0] != '\n') ==> (CollapseNewlines(s) == [] || CollapseNewlines(s)[0] != '\n')
  {
  }

  lemma {:induction false} CollapseNoTriple(s: string)
    ensures !HasTripleNewline(CollapseNewlines(s))
    decreases |s|
  {
    if s != [] && s[0] != '\n' {
      CollapseNoTriple(s[1..]);
      NoTripleCons(s[0], CollapseNewlines(s[1..]));
    } else if s != [] {
      var n := NewlineRun(s);
      var head := if n >= 3 then "\n\n" else s[..n];
      CollapseNoTriple(s[n..]);
      CollapseStart(s[n..]);
      NoTripleAfterRun(head, CollapseNewlines(s[n..]));
    }
  }

  /** A character other than a newline in front creates no run of three newlines. */
  lemma NoTripleCons(c: char, rest: string)
    requires c != '\n' && !HasTripleNewline(rest)
    ensures !HasTripleNewline([c] + rest)
  {
    var r := [c] + rest;
    forall k | 0 <= k && k + 2 < |r|
      ensures !(r[k] == '\n' && r[k + 1] == '\n' && r[k + 2] == '\n')
    {
      if k > 0 {
        assert r[k] == rest[k - 1] && r[k + 1] == rest[k] && r[k + 2] == rest[k + 1];
      }
    }
  }

  /** At most two newlines in front of text that does not start with one create no run of three. */
  lemma NoTripleAfterRun(head: string, rest: string)
    requires |head| <= 2 && forall k :: 0 <= k < |head| ==> head[k] == '\n'
    requires !HasTripleNewline(rest) && (rest == [] || rest[0] != '\n')
    ensures !HasTripleNewline(head + rest)
  {
    var r := head + rest;
    var h := |head|;
    forall k | 0 <= k && k + 2 < |r|
      ensures !(r[k] == '\n' && r[k + 1] == '\n' && r[k + 2] == '\n')
    {
      if k >= h {
        assert r[k] == rest[k - h] && r[k + 1] == rest[k - h + 1] && r[k + 2] == rest[k - h + 2];
      } else {
        assert r[h] == rest[0];
      }
    }
  }

  /** The substitution removes newlines only. */
  lemma {:induction false} CollapseKeepsText(s: string)
    ensures RemoveChar(CollapseNewlines(s), '\n') == RemoveChar(s, '\n')
    decreases |s|
  {
    if s == [] {
    } else if s[0] != '\n' {
      var rest := CollapseNewlines(s[1..]);
      CollapseKeepsText(s[1..]);
      var r := [s[0]] + rest;
      assert r[1..] == rest;
      assert s == [s[0]] + s[1..];
      RemoveCharCons(s[0], s[1..], '\n');
      RemoveCharCons(s[0], rest, '\n');
    } else {
      var n := NewlineRun(s);
      var head := if n >= 3 then "\n\n" else s[..n];
      var rest := CollapseNewlines(s[n..]);
      CollapseKeepsText(s[n..]);
      assert forall k :: 0 <= k < |head| ==> head[k] == '\n';
      RemoveCharNewlines(head, rest);
      assert s == s[..n] + s[n..];
      RemoveCharNewlines(s[..n], s[n..]);
    }
  }

  lemma RemoveCharCons(c: char, s: string, d: char)
    requires c != d
    ensures RemoveChar([c] + s, d) == [c] + RemoveChar(s, d)
  {
    assert ([c] + s)[1..] == s;
  }

  /** Removing newlines from a text that starts with newlines only drops that prefix. */
  lemma {:induction false} RemoveCharNewlines(head: string, rest: string)
    requires forall k :: 0 <= k < |head| ==> head[k] == '\n'
    ensures RemoveChar(head + rest, '\n') == RemoveChar(rest, '\n')
    decreases |head|
  {
    if head != [] {
      var s := head + rest;
      assert s[0] == head[0] == '\n';
      assert RemoveChar(s, '\n') == RemoveChar(s[1..], '\n');
      assert s[1..] == head[1..] + rest;
      RemoveCharNewlines(head[1..], rest);
    } else {
      assert head + rest == rest;
    }
  }

  /** `"\n".join(line.strip() for line in s.split("\n"))`. */
  function StripLines(s: string): string
  {
    Join(StripEach(SplitOn(s, '\n')), "\n")
  }

  /** `[line.strip() for line in lines]`. */
  function StripEach(lines: seq<string>): (r: seq<string>)
    ensures |r| == |lines|
    ensures forall i :: 0 <= i < |lines| ==> r[i] == Strip(lines[i])
  {
    seq(|lines|, i requires 0 <= i < |lines| => Strip(lines[i]))
  }

  /**
   * `_clean_text`: collapse newline runs, strip every line, drop soft hyphens,
   * strip the whole text. The result holds no soft hyphen and neither starts
   * nor ends with whitespace.
   */
  function CleanText(text: string): (r: string)
    ensures SoftHyphen !in r
    ensures r == [] || (!IsSpace(r[0]) && !IsSpace(r[|r| - 1]))
  {
    var t := RemoveChar(StripLines(CollapseNewlines(text)), SoftHyphen);
    var r := Strip(t);
    StripSpec(t);
    assert SoftHyphen !in r by {
      if SoftHyphen in r {
        StripKeepsOnlyItsInput(t, SoftHyphen);
      }
    }
    r
  }

  /** The lines of the line-stripped text are the stripped lines of the input, one for one. */
  lemma StripLinesSplit(s: string)
    ensures SplitOn(StripLines(s), '\n') == StripEach(SplitOn(s, '\n'))
  {
    var lines := SplitOn(s, '\n');
    var stripped := StripEach(lines);
    forall i | 0 <= i < |stripped|
      ensures '\n' !in stripped[i]
    {
      if '\n' in stripped[i] {
        StripKeepsOnlyItsInput(lines[i], '\n');
      }
    }
    SplitOnJoin(stripped, '\n');
  }

  /** A character that prints: neither whitespace nor a soft hyphen. */
  predicate Printed(c: char)
  {
    !IsSpace(c) && c != SoftHyphen
  }

  /** The substitution keeps every character other than a newline, in order. */
  lemma FilterCollapse(s: string, keep: char -> bool)
    requires !keep('\n')
    ensures Seqs.Filter(CollapseNewlines(s), keep) == Seqs.Filter(s, keep)
  {
    CollapseKeepsText(s);
    FilterRemoveChar(CollapseNewlines(s), '\n', keep);
    FilterRemoveChar(s, '\n', keep);
  }

  /** Stripping every line keeps every character other than whitespace, in order. */
  lemma FilterStripLines(s: string, keep: char -> bool)
    requires forall d :: IsSpace(d) ==> !keep(d)
    ensures Seqs.Filter(StripLines(s), keep) == Seqs.Filter(s, keep)
  {
    var lines := SplitOn(s, '\n');
    var stripped := StripEach(lines);
    forall i | 0 <= i < |lines|
      ensures Seqs.Filter(stripped[i], keep) == Seqs.Filter(lines[i], keep)
    {
      FilterStrip(lines[i], keep);
    }
    FilterJoin(stripped, lines, "\n", keep);
    JoinSplitOn(s, '\n');
  }

  /**
   * Cleaning loses no printed character and invents none: the characters that
   * are neither whitespace nor soft hyphens are those of the input, in order.
   */
  lemma CleanTextKeepsPrinted(text: string)
    ensures Seqs.Filter(CleanText(text), Printed) == Seqs.Filter(text, Printed)
  {
    var a := CollapseNewlines(text);
    var b := StripLines(a);
    var c := RemoveChar(b, SoftHyphen);
    FilterCollapse(text, Printed);
    FilterStripLines(a, Printed);
    FilterRemoveChar(b, SoftHyphen, Printed);
    FilterStrip(c, Printed);
  }

  /** `NewlineRun` stops at the first character that is not a newline. */
  lemma {:induction false} NewlineRunIs(s: string, n: nat)
    requires n < |s| && s[n] != '\n'
    requires forall k :: 0 <= k < n ==> s[k] == '\n'
    ensures NewlineRun(s) == n
    decreases n
  {
    if n > 0 {
      assert forall k :: 0 <= k < n - 1 ==> s[1..][k] == s[k + 1];
      NewlineRunIs(s[1..], n - 1);
    }
  }

  /** Text without newlines passes through the substitution unchanged. */
  lemma {:induction false} CollapseNoNewline(x: string, y: string)
    requires '\n' !in x
    ensures CollapseNewlines(x + y) == x + CollapseNewlines(y)
    decreases |x|
  {
    if x != [] {
      var s := x + y;
      assert s[0] == x[0] && s[1..] == x[1..] + y;
      assert forall c :: c in x[1..] ==> c in x;
      CollapseNoNewline(x[1..], y);
    } else {
      assert x + y == y;
    }
  }

  /** A word: non-empty, without whitespace (so without newlines) and without soft hyphens. */
  ghost predicate PlainWord(w: string)
  {
    w != [] && forall k :: 0 <= k < |w| ==> !IsSpace(w[k]) && w[k] != SoftHyphen
  }

  lemma PlainWordNoNewline(w: string)
    requires PlainWord(w)
    ensures '\n' !in w && SoftHyphen !in w
  {
  }

  /**
   * A maximal run of newlines in front of text: three or more become two
   * newlines, one or two are kept as they are.
   */
  lemma CollapseRun(run: string, y: string)
    requires forall k :: 0 <= k < |run| ==> run[k] == '\n'
    requires y == [] || y[0] != '\n'
    ensures CollapseNewlines(run + y) == (if |run| >= 3 then "\n\n" else run) + CollapseNewlines(y)
  {
    var s := run + y;
    assert s[..|run|] == run && s[|run|..] == y;
    if run == [] {
      assert s == y;
    } else if y == [] {
      assert NewlineRun(s) == |run|;
    } else {
      assert forall k :: 0 <= k < |run| ==> s[k] == '\n';
      NewlineRunIs(s, |run|);
    }
  }

  /**
   * The substitution works run by run: cutting the text right after a
   * character that is not a newline cuts no run, so the two parts are
   * substituted separately.
   */
  lemma {:induction false} CollapseAppend(x: string, z: string)
    requires x == [] || x[|x| - 1] != '\n'
    ensures CollapseNewlines(x + z) == CollapseNewlines(x) + CollapseNewlines(z)
    decreases |x|, 1
  {
    if x == [] {
      assert x + z == z;
    } else if x[0] != '\n' {
      CollapseAppendChar(x, z);
    } else {
      CollapseAppendRun(x, z);
    }
  }

  lemma {:induction false} CollapseAppendChar(x: string, z: string)
    requires x != [] && x[0] != '\n' && x[|x| - 1] != '\n'
    ensures CollapseNewlines(x + z) == CollapseNewlines(x) + CollapseNewlines(z)
    decreases |x|, 0
  {
    var c, t := x[0], x[1..];
    assert CollapseNewlines(x) == [c] + CollapseNewlines(t) by {
      assert x == [c] + t;
      CollapseCons(c, t);
    }
    assert CollapseNewlines(x + z) == [c] + CollapseNewlines(t + z) by {
      assert x + z == [c] + (t + z);
      CollapseCons(c, t + z);
    }
    assert CollapseNewlines(t + z) == CollapseNewlines(t) + CollapseNewlines(z) by {
      assert t == [] || t[|t| - 1] == x[|x| - 1];
      CollapseAppend(t, z);
    }
    assert [c] + (CollapseNewlines(t) + CollapseNewlines(z))
        == ([c] + CollapseNewlines(t)) + CollapseNewlines(z);
  }

  lemma {:induction false} CollapseAppendRun(x: string, z: string)
    requires x != [] && x[0] == '\n' && x[|x| - 1] != '\n'
    ensures CollapseNewlines(x + z) == CollapseNewlines(x) + CollapseNewlines(z)
    decreases |x|, 0
  {
    var m := NewlineRun(x);
    NewlineRunInside(x);
    var t := x[m..];
    CollapseRunAt(x, m);
    CollapseRunAppended(x, z, m);
    assert t[|t| - 1] == x[|x| - 1];
    CollapseAppend(t, z);
    ConcatAssoc(if m >= 3 then "\n\n" else x[..m], CollapseNewlines(t), CollapseNewlines(z));
  }

  /** The run at the start of `x` is also the run at the start of `x + z`. */
  lemma CollapseRunAppended(x: string, z: string, m: nat)
    requires 1 <= m < |x| && x[m] != '\n'
    requires forall k :: 0 <= k < m ==> x[k] == '\n'
    ensures CollapseNewlines(x + z) == (if m >= 3 then "\n\n" else x[..m]) + CollapseNewlines(x[m..] + z)
  {
    var s := x + z;
    assert s[..m] == x[..m] && s[m..] == x[m..] + z;
    CollapseRunAt(s, m);
  }

  /** A text that ends in another character has its leading newline run strictly inside it. */
  lemma NewlineRunInside(x: string)
    requires x != [] && x[|x| - 1] != '\n'
    ensures NewlineRun(x) < |x|
  {
  }

  lemma ConcatAssoc(a: string, b: string, c: string)
    ensures a + (b + c) == (a + b) + c
  {
  }

  lemma CollapseCons(c: char, t: string)
    requires c != '\n'
    ensures CollapseNewlines([c] + t) == [c] + CollapseNewlines(t)
  {
    assert ([c] + t)[1..] == t;
  }

  /** One step of the substitution at a run of `m` newlines followed by another character. */
  lemma CollapseRunAt(s: string, m: nat)
    requires 1 <= m < |s| && s[m] != '\n'
    requires forall k :: 0 <= k < m ==> s[k] == '\n'
    ensures CollapseNewlines(s) == (if m >= 3 then "\n\n" else s[..m]) + CollapseNewlines(s[m..])
  {
    NewlineRunIs(s, m);
  }

  /**
   * `re.sub(r"\n{3,}", "\n\n", ...)` on a maximal run of newlines between two
   * texts: a run of three or more becomes exactly two newlines, a shorter run
   * is left alone, and the texts on either side are substituted on their own.
   */
  lemma CollapseBetween(x: string, run: string, y: string)
    requires x == [] || x[|x| - 1] != '\n'
    requires forall k :: 0 <= k < |run| ==> run[k] == '\n'
    requires y == [] || y[0] != '\n'
    ensures CollapseNewlines(x + run + y)
         == CollapseNewlines(x) + (if |run| >= 3 then "\n\n" else run) + CollapseNewlines(y)
  {
    assert x + run + y == x + (run + y);
    CollapseAppend(x, run + y);
    CollapseRun(run, y);
  }

  /** Two blank lines, the second holding one space, survive the substitution. */
  lemma CollapseGap(w2: string)
    requires PlainWord(w2)
    ensures CollapseNewlines("\n\n \n" + w2) == "\n\n \n" + w2
  {
    PlainWordNoNewline(w2);
    var u := "\n" + w2;
    var x := " " + u;
    assert "\n\n \n" + w2 == "\n\n" + x;
    CollapseRun("\n\n", x);
    CollapseNoNewline(" ", u);
    CollapseRun("\n", w2);
    CollapseNoNewline(w2, []);
    assert w2 + [] == w2;
  }

  lemma CollapseExample(w1: string, w2: string)
    requires PlainWord(w1) && PlainWord(w2)
    ensures CollapseNewlines(w1 + "\n\n \n" + w2) == w1 + "\n\n \n" + w2
  {
    PlainWordNoNewline(w1);
    assert w1 + "\n\n \n" + w2 == w1 + ("\n\n \n" + w2);
    CollapseNoNewline(w1, "\n\n \n" + w2);
    CollapseGap(w2);
  }

  lemma SplitExample(w1: string, w2: string)
    requires PlainWord(w1) && PlainWord(w2)
    ensures SplitOn(w1 + "\n\n \n" + w2, '\n') == [w1, "", " ", w2]
  {
    assert [w1] + ["", " ", w2] == [w1, "", " ", w2];
    var t := "\n\n \n" + w2;
    var s := w1 + t;
    var n := |w1|;
    assert w1 + "\n\n \n" + w2 == s;
    assert s[..n] == w1 && s[n] == '\n' && s[n + 1..] == t[1..];
    assert t[1..] == "\n \n" + w2;
    PlainWordNoNewline(w1);
    SplitOnAt(s, '\n', n);
    SplitGap(w2);
    assert SplitOn(s, '\n') == [w1] + SplitOn(t[1..], '\n');
  }

  lemma SplitGap(w2: string)
    requires PlainWord(w2)
    ensures SplitOn("\n \n" + w2, '\n') == ["", " ", w2]
  {
    assert [""] + [" ", w2] == ["", " ", w2];
    var s2 := "\n \n" + w2;
    assert s2[..0] == "";
    SplitOnAt(s2, '\n', 0);
    assert s2[1..] == " \n" + w2;
    SplitSpaceLine(w2);
  }

  lemma SplitSpaceLine(w2: string)
    requires PlainWord(w2)
    ensures SplitOn(" \n" + w2, '\n') == [" ", w2]
  {
    PlainWordNoNewline(w2);
    assert [" "] + [w2] == [" ", w2];
    var s3 := " \n" + w2;
    assert s3[..1] == " " && s3[1] == '\n' && '\n' !in s3[..1];
    SplitOnAt(s3, '\n', 1);
    assert s3[2..] == w2;
  }

  lemma JoinExample(w1: string, w2: string)
    ensures Join([w1, "", "", w2], "\n") == w1 + "\n\n\n" + w2
  {
    var ps := [w1, "", "", w2];
    assert ps[..3] == [w1, "", ""] && ps[..3][..2] == [w1, ""] && ps[..3][..2][..1] == [w1];
    assert Join([w1], "\n") == w1;
    assert Join([w1, ""], "\n") == w1 + "\n";
    assert Join([w1, "", ""], "\n") == w1 + "\n\n";
  }

  lemma StripLinesExample(w1: string, w2: string)
    requires PlainWord(w1) && PlainWord(w2)
    ensures StripLines(w1 + "\n\n \n" + w2) == w1 + "\n\n\n" + w2
  {
    SplitExample(w1, w2);
    var lines := [w1, "", " ", w2];
    var stripped := StripEach(lines);
    StripUnchanged(w1);
    StripUnchanged(w2);
    assert Strip(" ") == "" by {
      assert " "[1..] == [];
      assert TrimStart(" ") == "";
    }
    assert stripped[0] == w1 && stripped[1] == "" && stripped[2] == "" && stripped[3] == w2;
    assert stripped == [w1, "", "", w2];
    JoinExample(w1, w2);
  }

  /**
   * Stripping runs after collapsing, so a line made only of whitespace between
   * two blank lines turns back into three newlines in a row: the cleaned text
   * can hold a run the substitution was meant to remove.
   */
  lemma CleanTextCanKeepTripleNewline(w1: string, w2: string)
    requires PlainWord(w1) && PlainWord(w2)
    ensures CleanText(w1 + "\n\n \n" + w2) == w1 + "\n\n\n" + w2
    ensures HasTripleNewline(CleanText(w1 + "\n\n \n" + w2))
  {
    CollapseExample(w1, w2);
    StripLinesExample(w1, w2);
    PlainWordNoNewline(w1);
    PlainWordNoNewline(w2);
    var joined := w1 + "\n\n\n" + w2;
    assert SoftHyphen !in joined by {
      assert forall c :: c in joined ==> c in w1 || c == '\n' || c in w2;
    }
    RemoveCharAbsent(joined, SoftHyphen);
    assert joined[0] == w1[0] && joined[|joined| - 1] == w2[|w2| - 1];
    StripUnchanged(joined);
    var n := |w1|;
    assert joined[n] == '\n' && joined[n + 1] == '\n' && joined[n + 2] == '\n';
  }

  // ---------------------------------------------------------------------------
  // Page extraction
  // ---------------------------------------------------------------------------

  /** A kept page: its cleaned text and its 1-based number. */
  datatype Page = Page(text: string, pageNumber: int)

  predicate KeepPage(raw: string)
  {
    |Strip(raw)| >= MinPageChars
  }

  /** The pages `_extract_pages` keeps, given the raw text of every page in order. */
  function KeptPages(raws: seq<string>): seq<Page>
  {
    if raws == [] then []
    else
      var n := |raws|;
      var prev := KeptPages(raws[..n - 1]);
      if KeepPage(raws[n - 1]) then prev + [Page(CleanText(raws[n - 1]), n)] else prev
  }

  /** `_extract_pages` after the PDF has been opened: one loop over the pages. */
  method ExtractPages(raws: seq<string>) returns (pages: seq<Page>)
    ensures pages == KeptPages(raws)
  {
    pages := [];
    for pageNum := 0 to |raws|
      invariant pages == KeptPages(raws[..pageNum])
    {
      assert raws[..pageNum + 1][..pageNum] == raws[..pageNum];
      var text := raws[pageNum];
      if |Strip(text)| >= MinPageChars {
        text := CleanText(text);
        pages := pages + [Page(text, pageNum + 1)];
      }
    }
    assert raws[..|raws|] == raws;
  }

  /** `p` is raw page `p.pageNumber` (1-based) of `raws`, which passed the filter, with its text cleaned. */
  ghost predicate PageFrom(raws: seq<string>, p: Page)
  {
    && 1 <= p.pageNumber <= |raws|
    && KeepPage(raws[p.pageNumber - 1])
    && p.text == CleanText(raws[p.pageNumber - 1])
  }

  /** Every kept page is a raw page that passed the length filter, cleaned, under its 1-based number. */
  lemma {:induction false} KeptPagesFrom(raws: seq<string>)
    ensures forall i :: 0 <= i < |KeptPages(raws)| ==> PageFrom(raws, KeptPages(raws)[i])
  {
    if raws != [] {
      var n := |raws|;
      var init := raws[..n - 1];
      KeptPagesFrom(init);
      var prev := KeptPages(init);
      var all := KeptPages(raws);
      forall i | 0 <= i < |all|
        ensures PageFrom(raws, all[i])
      {
        if i < |prev| {
          var p := prev[i];
          assert PageFrom(init, p);
          assert all[i] == p;
          assert init[p.pageNumber - 1] == raws[p.pageNumber - 1];
        }
      }
    }
  }

  /** Page numbers strictly increase along the kept pages. */
  lemma {:induction false} KeptPagesIncreasing(raws: seq<string>)
    ensures forall i, j :: 0 <= i < j < |KeptPages(raws)| ==>
      KeptPages(raws)[i].pageNumber < KeptPages(raws)[j].pageNumber
  {
    KeptPagesFrom(raws);
    if raws != [] {
      var n := |raws|;
      var init := raws[..n - 1];
      KeptPagesIncreasing(init);
      KeptPagesFrom(init);
      var prev := KeptPages(init);
      var all := KeptPages(raws);
      forall i, j | 0 <= i < j < |all|
        ensures all[i].pageNumber < all[j].pageNumber
      {
        assert all[i] == prev[i];
        assert PageFrom(init, prev[i]);
        if j < |prev| {
          assert all[j] == prev[j];
        }
      }
    }
  }

  /** Some page of `pages` carries the number `num`. */
  ghost predicate HasPageNumber(pages: seq<Page>, num: int)
  {
    exists i :: 0 <= i < |pages| && pages[i].pageNumber == num
  }

  /** Every raw page that passes the filter shows up among the kept pages under its number. */
  lemma {:induction false} KeptPagesComplete(raws: seq<string>)
    ensures forall k :: 0 <= k < |raws| && KeepPage(raws[k]) ==> HasPageNumber(KeptPages(raws), k + 1)
  {
    forall k | 0 <= k < |raws| && KeepPage(raws[k])
      ensures HasPageNumber(KeptPages(raws), k + 1)
    {
      var i := KeptPosition(raws, k);
    }
  }

  /** The position among the kept pages of raw page `k`, which passes the filter. */
  lemma {:induction false} KeptPosition(raws: seq<string>, k: nat) returns (i: nat)
    requires k < |raws| && KeepPage(raws[k])
    ensures i < |KeptPages(raws)| && KeptPages(raws)[i].pageNumber == k + 1
    decreases |raws|
  {
    var n := |raws|;
    var init := raws[..n - 1];
    var prev := KeptPages(init);
    if k < n - 1 {
      assert init[k] == raws[k];
      i := KeptPosition(init, k);
      assert KeptPages(raws)[i] == prev[i];
    } else {
      i := |prev|;
    }
  }

  /** No page survives exactly when every raw page is too short. */
  lemma KeptPagesEmpty(raws: seq<string>)
    ensures KeptPages(raws) == [] <==> forall k :: 0 <= k < |raws| ==> !KeepPage(raws[k])
  {
    KeptPagesFrom(raws);
    KeptPagesComplete(raws);
    if KeptPages(raws) != [] {
      assert PageFrom(raws, KeptPages(raws)[0]);
    }
  }

  // ---------------------------------------------------------------------------
  // Chunking
  // ---------------------------------------------------------------------------

  predicate KeepChunk(text: string)
  {
    |Strip(text)| >= MinChunkChars
  }

  /** The document `_create_chunks` builds for one kept chunk; the text is stored untrimmed. */
  function ChunkDoc(text: string, page: Page, source: string, index: nat): Document
  {
    Document(text, Metadata(Some(page.pageNumber), Some(source), Some(index), Some(|text|)))
  }

  /** The documents made from the splitter's chunks of one page, numbered on from `start`. */
  function PageDocs(chunks: seq<string>, page: Page, source: string, start: nat): seq<Document>
  {
    if chunks == [] then []
    else
      var n := |chunks|;
      var prev := PageDocs(chunks[..n - 1], page, source, start);
      if KeepChunk(chunks[n - 1]) then prev + [ChunkDoc(chunks[n - 1], page, source, start + |prev|)]
      else prev
  }

  /** The documents `_create_chunks` returns: the pages in order, one running chunk counter. */
  function AllDocs(pages: seq<Page>, source: string, split: string -> seq<string>): seq<Document>
  {
    if pages == [] then []
    else
      var n := |pages|;
      var prev := AllDocs(pages[..n - 1], source, split);
      prev + PageDocs(split(pages[n - 1].text), pages[n - 1], source, |prev|)
  }

  /** `_create_chunks`: a loop over the pages and, inside, over the page's chunks. */
  method CreateChunks(pages: seq<Page>, source: string, split: string -> seq<string>)
    returns (documents: seq<Document>)
    ensures documents == AllDocs(pages, source, split)
  {
    documents := [];
    var chunkIndex: nat := 0;
    for p := 0 to |pages|
      invariant documents == AllDocs(pages[..p], source, split)
      invariant chunkIndex == |documents|
    {
      assert pages[..p + 1][..p] == pages[..p];
      var page := pages[p];
      var pageDocs := PageChunkDocs(split(page.text), page, source, chunkIndex);
      documents := documents + pageDocs;
      chunkIndex := chunkIndex + |pageDocs|;
    }
    assert pages[..|pages|] == pages;
  }

  /** The inner loop of `_create_chunks`: the kept chunks of one page, numbered on from `start`. */
  method PageChunkDocs(pageChunks: seq<string>, page: Page, source: string, start: nat)
    returns (documents: seq<Document>)
    ensures documents == PageDocs(pageChunks, page, source, start)
  {
    documents := [];
    var chunkIndex := start;
    for c := 0 to |pageChunks|
      invariant documents == PageDocs(pageChunks[..c], page, source, start)
      invariant chunkIndex == start + |documents|
    {
      assert pageChunks[..c + 1][..c] == pageChunks[..c];
      var chunkText := pageChunks[c];
      if |Strip(chunkText)| >= MinChunkChars {
        var doc := Document(chunkText, Metadata(Some(page.pageNumber), Some(source), Some(chunkIndex), Some(|chunkText|)));
        documents := documents + [doc];
        chunkIndex := chunkIndex + 1;
      }
    }
    assert pageChunks[..|pageChunks|] == pageChunks;
  }

  /**
   * Each document of one page: a kept chunk of that page, stored untrimmed, with
   * the page's number, the source name, its length, and the index `start + j`.
   */
  lemma {:induction false} PageDocsSpec(chunks: seq<string>, page: Page, source: string, start: nat)
    ensures forall j :: 0 <= j < |PageDocs(chunks, page, source, start)| ==>
      var d := PageDocs(chunks, page, source, start)[j];
      && d.content in chunks
      && KeepChunk(d.content)
      && d.meta == Metadata(Some(page.pageNumber), Some(source), Some(start + j), Some(|d.content|))
  {
    if chunks != [] {
      var n := |chunks|;
      PageDocsSpec(chunks[..n - 1], page, source, start);
      var prev := PageDocs(chunks[..n - 1], page, source, start);
      forall j | 0 <= j < |prev|
        ensures prev[j].content in chunks
      {
        var k :| 0 <= k < n - 1 && chunks[..n - 1][k] == prev[j].content;
        assert chunks[k] == prev[j].content;
      }
    }
  }

  /**
   * Document `d`, at position `i` of the output: a kept chunk of some page with
   * that page's number, the source name, its own length and the index `i`.
   */
  ghost predicate DocFrom(d: Document, i: nat, pages: seq<Page>, source: string, split: string -> seq<string>)
  {
    && d.meta.chunkIndex == Some(i)
    && d.meta.source == Some(source)
    && d.meta.chunkLength == Some(|d.content|)
    && KeepChunk(d.content)
    && exists q :: 0 <= q < |pages| && d.meta.page == Some(pages[q].pageNumber) && d.content in split(pages[q].text)
  }

  /**
   * Chunk bookkeeping over all pages: `chunk_index` is the document's position
   * in the output (no reset between pages), and every document is a kept chunk
   * of some page with that page's number, the source name and its own length.
   */
  lemma {:induction false} AllDocsSpec(pages: seq<Page>, source: string, split: string -> seq<string>)
    ensures forall i :: 0 <= i < |AllDocs(pages, source, split)| ==>
      DocFrom(AllDocs(pages, source, split)[i], i, pages, source, split)
  {
    if pages != [] {
      var n := |pages|;
      var init := pages[..n - 1];
      AllDocsSpec(init, source, split);
      var prev := AllDocs(init, source, split);
      var last := PageDocs(split(pages[n - 1].text), pages[n - 1], source, |prev|);
      PageDocsSpec(split(pages[n - 1].text), pages[n - 1], source, |prev|);
      var all := prev + last;
      forall i | 0 <= i < |all|
        ensures DocFrom(all[i], i, pages, source, split)
      {
        if i < |prev| {
          assert all[i] == prev[i];
          assert DocFrom(prev[i], i, init, source, split);
          var q :| 0 <= q < |init| && prev[i].meta.page == Some(init[q].pageNumber) && prev[i].content in split(init[q].text);
          assert init[q] == pages[q];
        } else {
          var j := i - |prev|;
          assert all[i] == last[j];
          assert last[j].meta == Metadata(Some(pages[n - 1].pageNumber), Some(source), Some(|prev| + j), Some(|last[j].content|));
        }
      }
    }
  }

  /** The chunks of every page that pass the length filter, page after page. */
  function KeptChunks(pages: seq<Page>, split: string -> seq<string>): seq<string>
  {
    if pages == [] then []
    else
      var n := |pages|;
      KeptChunks(pages[..n - 1], split) + Seqs.Filter(split(pages[n - 1].text), KeepChunk)
  }

  /**
   * Nothing but the too-short chunks is dropped, and nothing is reordered: the
   * texts of one page's documents are its chunks of 30 or more characters after
   * stripping, in the splitter's order.
   */
  lemma {:induction false} PageDocsContents(chunks: seq<string>, page: Page, source: string, start: nat)
    ensures Contents(PageDocs(chunks, page, source, start)) == Seqs.Filter(chunks, KeepChunk)
    ensures exists idx ::
      && Seqs.SubsequenceAt(Contents(PageDocs(chunks, page, source, start)), chunks, idx)
      && forall k :: 0 <= k < |chunks| ==> (k in idx <==> KeepChunk(chunks[k]))
  {
    if chunks != [] {
      var n := |chunks|;
      PageDocsContents(chunks[..n - 1], page, source, start);
      var prev := PageDocs(chunks[..n - 1], page, source, start);
      ContentsAppend(prev, [ChunkDoc(chunks[n - 1], page, source, start + |prev|)]);
    }
    Seqs.FilterPositions(chunks, KeepChunk);
  }

  /** The texts of all documents: the kept chunks of each page, the pages in order. */
  lemma {:induction false} AllDocsContents(pages: seq<Page>, source: string, split: string -> seq<string>)
    ensures Contents(AllDocs(pages, source, split)) == KeptChunks(pages, split)
  {
    if pages != [] {
      var n := |pages|;
      AllDocsContents(pages[..n - 1], source, split);
      var prev := AllDocs(pages[..n - 1], source, split);
      var chunks := split(pages[n - 1].text);
      PageDocsContents(chunks, pages[n - 1], source, |prev|);
      ContentsAppend(prev, PageDocs(chunks, pages[n - 1], source, |prev|));
    }
  }

  // ---------------------------------------------------------------------------
  // Loading
  // ---------------------------------------------------------------------------

  /**
   * `load_and_split` once the PDF is open: extract the pages, raise a
   * `RuntimeError` when none survives, otherwise chunk them under `sourceName`.
   */
  method LoadAndSplit(raws: seq<string>, sourceName: string, split: string -> seq<string>)
    returns (r: Result<seq<Document>, Raised>)
    ensures r.Err? <==> forall k :: 0 <= k < |raws| ==> !KeepPage(raws[k])
    ensures r.Err? ==> r.error == RuntimeError
    ensures r.Ok? ==> r.value == AllDocs(KeptPages(raws), sourceName, split)
  {
    var rawPages := ExtractPages(raws);
    KeptPagesEmpty(raws);
    if rawPages == [] {
      return Err(RuntimeError);
    }
    var documents := CreateChunks(rawPages, sourceName, split);
    return Ok(documents);
  }

  // ---------------------------------------------------------------------------
  // Statistics
  // ---------------------------------------------------------------------------

  /** The integer fields of `get_stats`; an empty list gives only `count: 0`. */
  datatype ChunkStats =
    | NoChunks
    | Stats(count: nat, minLength: nat, maxLength: nat, totalChars: nat, uniquePages: nat)
  {
    function Count(): nat
    {
      if NoChunks? then 0 else count
    }
  }

  function Lengths(docs: seq<Document>): (ls: seq<nat>)
    ensures |ls| == |docs|
    ensures forall i :: 0 <= i < |docs| ==> ls[i] == |docs[i].content|
  {
    seq(|docs|, i requires 0 <= i < |docs| => |docs[i].content|)
  }

  /** `metadata.get("page", 0)`. */
  function PageOrZero(doc: Document): int
  {
    doc.meta.page.GetOr(0)
  }

  function Sum(xs: seq<nat>): nat
  {
    if xs == [] then 0 else Sum(xs[..|xs| - 1]) + xs[|xs| - 1]
  }

  /** Python's `min` on a non-empty list. */
  function Min(xs: seq<nat>): (m: nat)
    requires xs != []
    ensures m in xs
    ensures forall i :: 0 <= i < |xs| ==> m <= xs[i]
  {
    if |xs| == 1 then xs[0]
    else
      var init := xs[..|xs| - 1];
      var rest := Min(init);
      assert forall i :: 0 <= i < |init| ==> init[i] == xs[i];
      if xs[|xs| - 1] < rest then xs[|xs| - 1] else rest
  }

  /** Python's `max` on a non-empty list. */
  function Max(xs: seq<nat>): (m: nat)
    requires xs != []
    ensures m in xs
    ensures forall i :: 0 <= i < |xs| ==> xs[i] <= m
  {
    if |xs| == 1 then xs[0]
    else
      var init := xs[..|xs| - 1];
      var rest := Max(init);
      assert forall i :: 0 <= i < |init| ==> init[i] == xs[i];
      if xs[|xs| - 1] > rest then xs[|xs| - 1] else rest
  }

  /** `set(pages)` for the page values of the documents. */
  function PageSet(docs: seq<Document>): set<int>
  {
    set i | 0 <= i < |docs| :: PageOrZero(docs[i])
  }

  /** Each document adds at most one page value. */
  lemma {:induction false} PageSetSize(docs: seq<Document>)
    ensures docs != [] ==> 1 <= |PageSet(docs)|
    ensures |PageSet(docs)| <= |docs|
  {
    if docs != [] {
      var n := |docs|;
      var init := docs[..n - 1];
      PageSetSize(init);
      assert PageSet(docs) == PageSet(init) + {PageOrZero(docs[n - 1])} by {
        forall v | v in PageSet(docs)
          ensures v in PageSet(init) + {PageOrZero(docs[n - 1])}
        {
          var i :| 0 <= i < n && v == PageOrZero(docs[i]);
          if i < n - 1 {
            assert init[i] == docs[i];
          }
        }
        forall v | v in PageSet(init)
          ensures v in PageSet(docs)
        {
          var i :| 0 <= i < n - 1 && v == PageOrZero(init[i]);
          assert init[i] == docs[i];
        }
      }
    }
  }

  /** The sum of a list lies between its length times its minimum and its length times its maximum. */
  lemma {:induction false} SumBounds(xs: seq<nat>, lo: nat, hi: nat)
    requires forall i :: 0 <= i < |xs| ==> lo <= xs[i] <= hi
    ensures |xs| * lo <= Sum(xs) <= |xs| * hi
  {
    if xs != [] {
      var n := |xs|;
      var init := xs[..n - 1];
      assert forall i :: 0 <= i < |init| ==> init[i] == xs[i];
      SumBounds(init, lo, hi);
      assert n * lo == (n - 1) * lo + lo;
      assert n * hi == (n - 1) * hi + hi;
    }
  }

  /**
   * `get_stats` (integer fields): `count` is the number of documents, the
   * minimum and maximum are lengths of documents and bound all others,
   * `total_chars` is the sum of the lengths and lies between count times
   * minimum and count times maximum, `unique_pages` is the number of distinct
   * page values and lies between 1 and `count`.
   */
  function GetStats(docs: seq<Document>): (r: ChunkStats)
    ensures docs == [] <==> r == NoChunks
    ensures r.Count() == |docs|
    ensures r.Stats? ==>
      && r.minLength <= r.maxLength
      && (exists i :: 0 <= i < |docs| && |docs[i].content| == r.minLength)
      && (exists i :: 0 <= i < |docs| && |docs[i].content| == r.maxLength)
      && (forall i :: 0 <= i < |docs| ==> r.minLength <= |docs[i].content| <= r.maxLength)
      && r.totalChars == Sum(Lengths(docs))
      && r.count * r.minLength <= r.totalChars <= r.count * r.maxLength
      && r.uniquePages == |PageSet(docs)|
      && 1 <= r.uniquePages <= r.count
  {
    if docs == [] then NoChunks
    else
      var lengths := Lengths(docs);
      var lo, hi := Min(lengths), Max(lengths);
      SumBounds(lengths, lo, hi);
      PageSetSize(docs);
      Stats(|docs|, lo, hi, Sum(lengths), |PageSet(docs)|)
  }
}

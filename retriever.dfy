/**
 * The retrieval step between a user's question and the vector store: the
 * store's scored hits are freed of near-duplicate chunks (Jaccard similarity of
 * their word sets), formatted into numbered context sections for the language
 * model, and summarised as a sorted list of page labels.
 */
module Retriever {
  import opened Types
  import opened Text
  import opened Documents
  import Seqs
  import Sorting
  import VectorIndex
  import Config

  /** Two chunks whose word sets overlap at least this much count as duplicates. */
  const DuplicateThreshold: real := 0.9
  /** What `"\n\n---\n\n".join(...)` puts between two context sections. */
  const SectionSeparator: string := "\n\n---\n\n"

  // ---------------------------------------------------------------------------
  // The result record
  // ---------------------------------------------------------------------------

  datatype RetrievalResult = RetrievalResult(
    query: string,
    documents: seq<Document>,
    scores: seq<real>,
    context: string,
    sources: seq<string>)
  {
    /** At least one relevant chunk was found. */
    predicate FoundResults()
    {
      |documents| > 0
    }

    /** The best score, or 0.0 without any score. */
    function TopScore(): (r: real)
      ensures scores == [] ==> r == 0.0
      ensures scores != [] ==> r in scores && forall i :: 0 <= i < |scores| ==> scores[i] <= r
    {
      if scores == [] then 0.0 else MaxOf(scores)
    }
  }

  /** The record a query starts with: nothing found. */
  function EmptyResult(query: string): (r: RetrievalResult)
    ensures r.query == query && !r.FoundResults() && r.TopScore() == 0.0
    ensures r.context == "" && r.sources == []
  {
    RetrievalResult(query, [], [], "", [])
  }

  /** `max(xs)`. */
  function MaxOf(xs: seq<real>): (m: real)
    requires xs != []
    ensures m in xs
    ensures forall i :: 0 <= i < |xs| ==> xs[i] <= m
  {
    if |xs| == 1 then xs[0]
    else
      var rest := MaxOf(xs[..|xs| - 1]);
      var last := xs[|xs| - 1];
      assert xs == xs[..|xs| - 1] + [last];
      if last > rest then last else rest
  }

  // ---------------------------------------------------------------------------
  // Jaccard similarity of word sets
  // ---------------------------------------------------------------------------

  /** `set(text.lower().split())`. */
  function WordSet(text: string): set<string>
  {
    set w | w in Words(Lower(text))
  }

  /** |A ∩ B| / |A ∪ B|, or 0.0 when either set is empty. */
  function SetJaccard(a: set<string>, b: set<string>): real
  {
    if a == {} || b == {} then 0.0
    else (|a * b| as real) / (|a + b| as real)
  }

  /** `_jaccard_similarity`: the Jaccard index of the two texts' sets of lower-cased words. */
  function Jaccard(text1: string, text2: string): real
  {
    SetJaccard(WordSet(text1), WordSet(text2))
  }

  /** The cardinalities of the parts of two sets add up to that of their union. */
  lemma UnionParts(a: set<string>, b: set<string>)
    ensures |a + b| == |a - b| + |b - a| + |a * b|
  {
    assert a + b == (a - b) + (b - a) + (a * b);
    assert (a - b) * (b - a) == {};
    assert ((a - b) + (b - a)) * (a * b) == {};
  }

  /** A quotient of a count by a positive count at least as large lies in [0, 1], and is 1 only when they agree. */
  lemma Ratio(n: nat, u: nat)
    requires 0 < u && n <= u
    ensures 0.0 <= (n as real) / (u as real) <= 1.0
    ensures (n as real) / (u as real) == 1.0 <==> n == u
  {
    var x, y := n as real, u as real;
    var q := x / y;
    assert q * y == x;
    assert (q - 1.0) * y == x - y;
    ProductSign(q - 1.0, y);
    ProductSign(q, y);
  }

  /** A product with a positive factor has the sign of the other factor. */
  lemma ProductSign(a: real, b: real)
    requires b > 0.0
    ensures a * b <= 0.0 <==> a <= 0.0
    ensures a * b >= 0.0 <==> a >= 0.0
    ensures a * b == 0.0 <==> a == 0.0
  {
  }

  /** The similarity lies between 0.0 and 1.0. */
  lemma JaccardRange(text1: string, text2: string)
    ensures 0.0 <= Jaccard(text1, text2) <= 1.0
  {
    var a := WordSet(text1);
    var b := WordSet(text2);
    if a != {} && b != {} {
      UnionParts(a, b);
      var w :| w in a;
      assert w in a + b;
      Ratio(|a * b|, |a + b|);
    }
  }

  /** The similarity does not depend on the order of the two texts. */
  lemma JaccardSymmetric(text1: string, text2: string)
    ensures Jaccard(text1, text2) == Jaccard(text2, text1)
  {
    var a := WordSet(text1);
    var b := WordSet(text2);
    assert a * b == b * a;
    assert a + b == b + a;
  }

  /** The similarity is 1.0 exactly for texts with the same nonempty set of lower-cased words. */
  lemma JaccardOne(text1: string, text2: string)
    ensures Jaccard(text1, text2) == 1.0 <==> WordSet(text1) == WordSet(text2) != {}
  {
    var a := WordSet(text1);
    var b := WordSet(text2);
    if a != {} && b != {} {
      UnionParts(a, b);
      var w :| w in a;
      assert w in a + b;
      Ratio(|a * b|, |a + b|);
      if |a * b| == |a + b| {
        assert a - b == {} && b - a == {};
        assert a == b;
      }
      if a == b {
        assert a * b == a && a + b == a;
      }
    }
  }

  /** Texts without a common word have similarity 0.0. */
  lemma JaccardDisjoint(text1: string, text2: string)
    requires WordSet(text1) * WordSet(text2) == {}
    ensures Jaccard(text1, text2) == 0.0
  {
  }

  /** The word set holds exactly the maximal runs of non-whitespace of the lower-cased text. */
  lemma WordSetSpec(text: string)
    ensures forall w :: w in WordSet(text) <==> exists k: nat :: WordAt(Lower(text), w, k)
  {
    forall w
      ensures w in WordSet(text) <==> exists k: nat :: WordAt(Lower(text), w, k)
    {
      WordsExactly(Lower(text), w);
    }
  }

  /** Lower-casing either text first does not change the similarity. */
  lemma JaccardIgnoresCase(text1: string, text2: string)
    ensures Jaccard(Lower(text1), Lower(text2)) == Jaccard(text1, text2)
  {
    LowerIdempotent(text1);
    LowerIdempotent(text2);
  }

  // ---------------------------------------------------------------------------
  // Deduplication, for any similarity measure `sim` on chunk texts
  // ---------------------------------------------------------------------------

  /** Some already kept hit is at least `threshold` similar to `h`. */
  predicate DuplicateOf(sim: (string, string) -> real, h: Hit, kept: seq<Hit>, threshold: real)
  {
    exists k :: 0 <= k < |kept| && sim(h.doc.content, kept[k].doc.content) >= threshold
  }

  /** The hits kept after looking at the first `n` of `rs`. */
  function KeptAfter(sim: (string, string) -> real, rs: seq<Hit>, n: nat, threshold: real): seq<Hit>
    requires 1 <= n <= |rs|
  {
    if n == 1 then [rs[0]]
    else
      var prev := KeptAfter(sim, rs, n - 1, threshold);
      if DuplicateOf(sim, rs[n - 1], prev, threshold) then prev else prev + [rs[n - 1]]
  }

  /**
   * `_deduplicate`: at most one hit comes back unchanged; otherwise the first
   * hit is kept and each later one joins unless it is a duplicate of one kept.
   */
  function Deduplicated(sim: (string, string) -> real, rs: seq<Hit>, threshold: real): seq<Hit>
  {
    if |rs| <= 1 then rs else KeptAfter(sim, rs, |rs|, threshold)
  }

  /** The positions in `rs` that `KeptAfter` keeps. */
  ghost function KeptIndices(sim: (string, string) -> real, rs: seq<Hit>, n: nat, threshold: real): seq<nat>
    requires 1 <= n <= |rs|
  {
    if n == 1 then [0]
    else
      var prev := KeptAfter(sim, rs, n - 1, threshold);
      var idx := KeptIndices(sim, rs, n - 1, threshold);
      if DuplicateOf(sim, rs[n - 1], prev, threshold) then idx else idx + [n - 1]
  }

  lemma {:induction false} KeptAfterSubsequence(sim: (string, string) -> real, rs: seq<Hit>, n: nat, threshold: real)
    requires 1 <= n <= |rs|
    ensures var idx := KeptIndices(sim, rs, n, threshold);
      && Seqs.SubsequenceAt(KeptAfter(sim, rs, n, threshold), rs, idx)
      && idx[0] == 0
      && forall j :: 0 <= j < |idx| ==> idx[j] < n
  {
    if n > 1 {
      KeptAfterSubsequence(sim, rs, n - 1, threshold);
    }
  }

  /**
   * The greedy rule on positions: among the first `n` hits, position `k` is
   * kept exactly when its text is less than `threshold` similar to the text at
   * every kept position before it.
   */
  ghost predicate KeptGreedily(sim: (string, string) -> real, rs: seq<Hit>, kept: seq<nat>, n: nat, threshold: real)
  {
    && n <= |rs|
    && forall k :: 0 <= k < n ==>
      (k in kept <==> forall j :: j in kept && j < k ==> sim(rs[k].doc.content, rs[j].doc.content) < threshold)
  }

  /** Read through the positions of the kept hits, `DuplicateOf` looks for an earlier kept position. */
  lemma DuplicateOfPositions(sim: (string, string) -> real, h: Hit, d: seq<Hit>, rs: seq<Hit>, idx: seq<nat>, threshold: real)
    requires Seqs.SubsequenceAt(d, rs, idx)
    ensures DuplicateOf(sim, h, d, threshold) <==>
      exists j :: j in idx && j < |rs| && sim(h.doc.content, rs[j].doc.content) >= threshold
  {
    if DuplicateOf(sim, h, d, threshold) {
      var k :| 0 <= k < |d| && sim(h.doc.content, d[k].doc.content) >= threshold;
      assert idx[k] in idx && d[k] == rs[idx[k]];
    }
    if exists j :: j in idx && j < |rs| && sim(h.doc.content, rs[j].doc.content) >= threshold {
      var j :| j in idx && j < |rs| && sim(h.doc.content, rs[j].doc.content) >= threshold;
      var k :| 0 <= k < |idx| && idx[k] == j;
      assert d[k] == rs[j];
    }
  }

  /** `KeptAfter` follows the greedy rule: its positions are the greedy ones. */
  lemma {:induction false} KeptIndicesGreedy(sim: (string, string) -> real, rs: seq<Hit>, n: nat, threshold: real)
    requires 1 <= n <= |rs|
    ensures KeptGreedily(sim, rs, KeptIndices(sim, rs, n, threshold), n, threshold)
  {
    if n > 1 {
      KeptIndicesGreedy(sim, rs, n - 1, threshold);
      KeptAfterSubsequence(sim, rs, n - 1, threshold);
      var prev := KeptAfter(sim, rs, n - 1, threshold);
      var before := KeptIndices(sim, rs, n - 1, threshold);
      DuplicateOfPositions(sim, rs[n - 1], prev, rs, before, threshold);
      GreedyStep(sim, rs, before, KeptIndices(sim, rs, n, threshold), n - 1, threshold);
    }
  }

  /**
   * One more hit: the positions grow by `n` exactly when hit `n` is no
   * duplicate of an earlier kept position, and then still follow the rule.
   */
  lemma GreedyStep(sim: (string, string) -> real, rs: seq<Hit>, before: seq<nat>, kept: seq<nat>, n: nat, threshold: real)
    requires n < |rs|
    requires KeptGreedily(sim, rs, before, n, threshold)
    requires forall j :: 0 <= j < |before| ==> before[j] < n
    requires kept == before || kept == before + [n]
    requires kept == before + [n] <==>
      !exists j :: j in before && j < |rs| && sim(rs[n].doc.content, rs[j].doc.content) >= threshold
    ensures KeptGreedily(sim, rs, kept, n + 1, threshold)
  {
    assert n !in before;
    assert forall i :: i != n ==> (i in kept <==> i in before);
  }

  /** Two position lists that both follow the greedy rule on the first `k` hits agree there. */
  lemma {:induction false} GreedyAgrees(sim: (string, string) -> real, rs: seq<Hit>, k1: seq<nat>, k2: seq<nat>, n: nat, k: nat, threshold: real)
    requires KeptGreedily(sim, rs, k1, n, threshold) && KeptGreedily(sim, rs, k2, n, threshold)
    requires k <= n
    ensures forall i :: 0 <= i < k ==> (i in k1 <==> i in k2)
  {
    if k > 0 {
      GreedyAgrees(sim, rs, k1, k2, n, k - 1, threshold);
      var c := k - 1;
      assert (forall j :: j in k1 && j < c ==> sim(rs[c].doc.content, rs[j].doc.content) < threshold)
         <==> (forall j :: j in k2 && j < c ==> sim(rs[c].doc.content, rs[j].doc.content) < threshold);
    }
  }

  /** The kept positions of `Deduplicated`. */
  ghost function DedupIndices(sim: (string, string) -> real, rs: seq<Hit>, threshold: real): seq<nat>
  {
    if rs == [] then [] else KeptIndices(sim, rs, |rs|, threshold)
  }

  /**
   * `_deduplicate` is the greedy filter: the result is `rs` restricted to a
   * strictly increasing list of positions, and a position is on that list
   * exactly when its hit is less than `threshold` similar to every hit kept
   * before it.
   */
  lemma DeduplicatedGreedy(sim: (string, string) -> real, rs: seq<Hit>, threshold: real)
    ensures Seqs.SubsequenceAt(Deduplicated(sim, rs, threshold), rs, DedupIndices(sim, rs, threshold))
    ensures KeptGreedily(sim, rs, DedupIndices(sim, rs, threshold), |rs|, threshold)
  {
    if rs != [] {
      KeptAfterSubsequence(sim, rs, |rs|, threshold);
      KeptIndicesGreedy(sim, rs, |rs|, threshold);
      if |rs| == 1 {
        assert KeptAfter(sim, rs, 1, threshold) == rs;
      }
    }
  }

  /**
   * The greedy rule decides the result: any order-preserving selection of
   * `rs` whose positions follow it is `Deduplicated`.
   */
  lemma DeduplicatedUnique(sim: (string, string) -> real, rs: seq<Hit>, threshold: real, d: seq<Hit>, kept: seq<nat>)
    requires Seqs.SubsequenceAt(d, rs, kept)
    requires KeptGreedily(sim, rs, kept, |rs|, threshold)
    ensures d == Deduplicated(sim, rs, threshold)
  {
    var e := Deduplicated(sim, rs, threshold);
    var mine := DedupIndices(sim, rs, threshold);
    DeduplicatedGreedy(sim, rs, threshold);
    GreedyAgrees(sim, rs, kept, mine, |rs|, |rs|, threshold);
    Seqs.SubsequenceSamePositions(d, e, rs, kept, mine);
  }

  /** No hit of `d` is `threshold` similar to one before it. */
  ghost predicate NoDuplicates(sim: (string, string) -> real, d: seq<Hit>, threshold: real)
  {
    forall i, j :: 0 <= i < j < |d| ==> sim(d[j].doc.content, d[i].doc.content) < threshold
  }

  /** A kept hit is never a duplicate of one kept before it. */
  lemma {:induction false} KeptAfterDistinct(sim: (string, string) -> real, rs: seq<Hit>, n: nat, threshold: real)
    requires 1 <= n <= |rs|
    ensures NoDuplicates(sim, KeptAfter(sim, rs, n, threshold), threshold)
  {
    if n > 1 {
      KeptAfterDistinct(sim, rs, n - 1, threshold);
      var prev := KeptAfter(sim, rs, n - 1, threshold);
      var x := rs[n - 1];
      if !DuplicateOf(sim, x, prev, threshold) {
        var d := prev + [x];
        forall i, j | 0 <= i < j < |d|
          ensures sim(d[j].doc.content, d[i].doc.content) < threshold
        {
          assert d[i] == prev[i];
          if j < |prev| {
            assert d[j] == prev[j];
          } else {
            assert d[j] == x;
          }
        }
      }
    }
  }

  /** Every hit looked at is kept or is a duplicate of a kept one. */
  lemma {:induction false} KeptAfterCovers(sim: (string, string) -> real, rs: seq<Hit>, n: nat, threshold: real)
    requires 1 <= n <= |rs|
    ensures var d := KeptAfter(sim, rs, n, threshold);
      forall k :: 0 <= k < n ==> rs[k] in d || DuplicateOf(sim, rs[k], d, threshold)
  {
    if n > 1 {
      KeptAfterCovers(sim, rs, n - 1, threshold);
      var prev := KeptAfter(sim, rs, n - 1, threshold);
      var d := KeptAfter(sim, rs, n, threshold);
      forall k | 0 <= k < n - 1 && rs[k] !in d
        ensures DuplicateOf(sim, rs[k], d, threshold)
      {
        assert rs[k] !in prev;
        var i :| 0 <= i < |prev| && sim(rs[k].doc.content, prev[i].doc.content) >= threshold;
        assert d[i] == prev[i];
      }
    }
  }

  /** At most one hit comes back as it is; otherwise the first hit is kept. */
  lemma DeduplicatedKeepsFirst(sim: (string, string) -> real, rs: seq<Hit>, threshold: real)
    ensures var d := Deduplicated(sim, rs, threshold);
      && (|rs| <= 1 ==> d == rs)
      && (rs != [] ==> d != [] && d[0] == rs[0])
  {
    if |rs| > 1 {
      KeptAfterSubsequence(sim, rs, |rs|, threshold);
    }
  }

  /** The deduplicated hits are an order-preserving subsequence, so a list sorted best first stays sorted. */
  lemma DeduplicatedOrder(sim: (string, string) -> real, rs: seq<Hit>, threshold: real)
    ensures Seqs.IsSubsequence(Deduplicated(sim, rs, threshold), rs)
    ensures DescendingByScore(rs) ==> DescendingByScore(Deduplicated(sim, rs, threshold))
  {
    var d := Deduplicated(sim, rs, threshold);
    var idx: seq<nat>;
    if |rs| <= 1 {
      idx := if rs == [] then [] else [0];
      assert Seqs.SubsequenceAt(d, rs, idx);
    } else {
      KeptAfterSubsequence(sim, rs, |rs|, threshold);
      idx := KeptIndices(sim, rs, |rs|, threshold);
    }
    VectorIndex.DescendingSubsequence(d, rs, idx);
  }

  /**
   * The deduplicated hits are `rs` at the positions the greedy rule keeps; so
   * they start with the first hit, hold no two duplicates, account for every
   * dropped hit by a kept duplicate, and stay sorted by descending score.
   */
  lemma DeduplicatedSpec(sim: (string, string) -> real, rs: seq<Hit>, threshold: real)
    ensures var d := Deduplicated(sim, rs, threshold);
      && (|rs| <= 1 ==> d == rs)
      && (rs != [] ==> d != [] && d[0] == rs[0])
      && (exists kept :: Seqs.SubsequenceAt(d, rs, kept) && KeptGreedily(sim, rs, kept, |rs|, threshold))
      && NoDuplicates(sim, d, threshold)
      && (forall k :: 0 <= k < |rs| ==> rs[k] in d || DuplicateOf(sim, rs[k], d, threshold))
      && (DescendingByScore(rs) ==> DescendingByScore(d))
  {
    var d := Deduplicated(sim, rs, threshold);
    assert exists kept :: Seqs.SubsequenceAt(d, rs, kept) && KeptGreedily(sim, rs, kept, |rs|, threshold) by {
      DeduplicatedGreedy(sim, rs, threshold);
    }
    assert NoDuplicates(sim, d, threshold)
      && forall k :: 0 <= k < |rs| ==> rs[k] in d || DuplicateOf(sim, rs[k], d, threshold)
    by {
      DeduplicatedApart(sim, rs, threshold);
    }
    DeduplicatedKeepsFirst(sim, rs, threshold);
    DeduplicatedOrder(sim, rs, threshold);
  }

  /** No two kept hits are duplicates, and every dropped hit is a duplicate of a kept one. */
  lemma DeduplicatedApart(sim: (string, string) -> real, rs: seq<Hit>, threshold: real)
    ensures NoDuplicates(sim, Deduplicated(sim, rs, threshold), threshold)
    ensures var d := Deduplicated(sim, rs, threshold);
      forall k :: 0 <= k < |rs| ==> rs[k] in d || DuplicateOf(sim, rs[k], d, threshold)
  {
    if |rs| > 1 {
      KeptAfterDistinct(sim, rs, |rs|, threshold);
      KeptAfterCovers(sim, rs, |rs|, threshold);
    }
  }

  /** At the retriever's threshold a hit that comes back twice is kept once, unless its text has no word. */
  lemma DeduplicatedRepeat(h: Hit)
    ensures Deduplicated(Jaccard, [h, h], DuplicateThreshold) == if WordSet(h.doc.content) != {} then [h] else [h, h]
  {
    var text := h.doc.content;
    JaccardOne(text, text);
    assert [h, h][1] == h && [h, h][..1] == [h];
    assert [h][0] == h;
    assert KeptAfter(Jaccard, [h, h], 1, DuplicateThreshold) == [h];
    if WordSet(text) != {} {
      assert Jaccard(text, [h][0].doc.content) >= DuplicateThreshold;
      assert DuplicateOf(Jaccard, h, [h], DuplicateThreshold);
    } else {
      assert Jaccard(text, text) == 0.0;
      assert !DuplicateOf(Jaccard, h, [h], DuplicateThreshold);
    }
  }

  /** `_deduplicate` with its nested loop and early exit; the retriever passes `Jaccard` as `sim`. */
  method Deduplicate(sim: (string, string) -> real, results: seq<Hit>, threshold: real) returns (unique: seq<Hit>)
    ensures unique == Deduplicated(sim, results, threshold)
  {
    if |results| <= 1 {
      return results;
    }
    unique := [results[0]];
    for n := 1 to |results|
      invariant unique == KeptAfter(sim, results, n, threshold)
    {
      var h := results[n];
      var isDuplicate := false;
      for k := 0 to |unique|
        invariant !isDuplicate
        invariant forall j :: 0 <= j < k ==> sim(h.doc.content, unique[j].doc.content) < threshold
      {
        var textSimilarity := sim(h.doc.content, unique[k].doc.content);
        if textSimilarity >= threshold {
          isDuplicate := true;
          break;
        }
      }
      assert isDuplicate <==> DuplicateOf(sim, h, unique, threshold);
      if !isDuplicate {
        unique := unique + [h];
      }
    }
  }

  // ---------------------------------------------------------------------------
  // Context for the language model
  // ---------------------------------------------------------------------------

  /** `[Abschnitt i] (Quelle: source, Seite page)` on one line, then the chunk text. */
  function Section(i: nat, h: Hit): string
  {
    "[Abschnitt " + NatToString(i) + "] (Quelle: " + SourceOr(h.doc, "Unbekannt") + ", Seite " + PageText(h.doc) + ")\n"
    + h.doc.content
  }

  /** The sections numbered from 1. */
  function Sections(hs: seq<Hit>): (parts: seq<string>)
    ensures |parts| == |hs|
    ensures forall i :: 0 <= i < |hs| ==> parts[i] == Section(i + 1, hs[i])
  {
    seq(|hs|, i requires 0 <= i < |hs| => Section(i + 1, hs[i]))
  }

  /** `_build_context`. */
  function Context(hs: seq<Hit>): string
  {
    Join(Sections(hs), SectionSeparator)
  }

  /** The chunk text closes its section. */
  lemma SectionEndsWithContent(i: nat, h: Hit)
    ensures IsSubstring(h.doc.content, Section(i, h))
  {
    var s := Section(i, h);
    var k := |s| - |h.doc.content|;
    assert s[k..k + |h.doc.content|] == h.doc.content;
    assert OccursAt(h.doc.content, s, k);
  }

  /**
   * The context is empty exactly when there are no hits; otherwise it opens with
   * the first section, and holds every section and every chunk text.
   */
  lemma ContextSpec(hs: seq<Hit>)
    ensures Context(hs) == "" <==> hs == []
    ensures hs != [] ==> var first := Section(1, hs[0]); |first| <= |Context(hs)| && Context(hs)[..|first|] == first
    ensures forall i :: 0 <= i < |hs| ==> IsSubstring(Section(i + 1, hs[i]), Context(hs))
    ensures forall i :: 0 <= i < |hs| ==> IsSubstring(hs[i].doc.content, Context(hs))
  {
    var parts := Sections(hs);
    var c := Context(hs);
    JoinHasParts(parts, SectionSeparator);
    if hs != [] {
      JoinStartsWithFirst(parts, SectionSeparator);
      assert |Section(1, hs[0])| > 0;
    }
    forall i | 0 <= i < |hs|
      ensures IsSubstring(hs[i].doc.content, c)
    {
      assert parts[i] == Section(i + 1, hs[i]);
      SectionEndsWithContent(i + 1, hs[i]);
      SubstringTrans(hs[i].doc.content, parts[i], c);
    }
  }

  /** `_build_context` with its loop over the numbered hits. */
  method BuildContext(results: seq<Hit>) returns (context: string)
    ensures context == Context(results)
  {
    var contextParts: seq<string> := [];
    for i := 0 to |results|
      invariant contextParts == Sections(results[..i])
    {
      var section := Section(i + 1, results[i]);
      assert Sections(results[..i + 1]) == contextParts + [section];
      contextParts := contextParts + [section];
    }
    assert results[..|results|] == results;
    context := Join(contextParts, SectionSeparator);
  }

  // ---------------------------------------------------------------------------
  // Source labels
  // ---------------------------------------------------------------------------

  /** `f"{source}_p{page}"`, with an empty source when the key is missing. */
  function SourceKey(h: Hit): string
  {
    SourceOr(h.doc, "") + "_p" + PageText(h.doc)
  }

  /** `f"Seite {page}"`. */
  function SourceLabel(h: Hit): string
  {
    "Seite " + PageText(h.doc)
  }

  /** The keys `key` gives the hits. */
  function KeysOf(hs: seq<Hit>, key: Hit -> string): set<string>
  {
    if hs == [] then {} else KeysOf(hs[..|hs| - 1], key) + {key(hs[|hs| - 1])}
  }

  /** A key is among the keys exactly when some hit carries it. */
  lemma {:induction false} KeysOfSpec(hs: seq<Hit>, key: Hit -> string, k: string)
    ensures k in KeysOf(hs, key) <==> exists i :: 0 <= i < |hs| && key(hs[i]) == k
  {
    if hs != [] {
      var init := hs[..|hs| - 1];
      KeysOfSpec(init, key, k);
      assert forall i :: 0 <= i < |init| ==> init[i] == hs[i];
    }
  }

  /** One label per key, taken at the first hit carrying that key, in the order of the hits. */
  function FirstSeen(hs: seq<Hit>, key: Hit -> string, labelOf: Hit -> string): seq<string>
  {
    if hs == [] then []
    else
      var n := |hs|;
      var prev := FirstSeen(hs[..n - 1], key, labelOf);
      if key(hs[n - 1]) in KeysOf(hs[..n - 1], key) then prev else prev + [labelOf(hs[n - 1])]
  }

  /** The labels `_extract_sources` collects before sorting. */
  function FirstSeenLabels(hs: seq<Hit>): seq<string>
  {
    FirstSeen(hs, SourceKey, SourceLabel)
  }

  /** `int(s.split()[-1]) if s.split()[-1].isdigit() else 0`. */
  function SortKey(tag: string): int
  {
    var ws := Words(tag);
    if ws != [] && AllDigits(ws[|ws| - 1]) then ParseDigits(ws[|ws| - 1]) else 0
  }

  /** `_extract_sources`: the first-seen labels, stably sorted by page number. */
  function SourcesOf(hs: seq<Hit>): seq<string>
  {
    Sorting.SortBy(FirstSeenLabels(hs), SortKey)
  }

  /** The page number a hit's label sorts by: the page itself when it is a non-negative number, 0 otherwise. */
  function PageSortValue(h: Hit): int
  {
    match h.doc.meta.page
    case Some(p) => if p >= 0 then p else 0
    case None => 0
  }

  /** The page text is one nonempty word without an underscore. */
  lemma PageTextIsWord(doc: Document)
    ensures PageText(doc) != [] && '_' !in PageText(doc)
    ensures forall k :: 0 <= k < |PageText(doc)| ==> !IsSpace(PageText(doc)[k])
  {
    if doc.meta.page.Some? {
      var p := doc.meta.page.value;
      var digits := NatToString(if p < 0 then -p else p);
      assert forall k :: 0 <= k < |digits| ==> IsDigit(digits[k]);
    }
  }

  /** A label sorts by the page number it was made from. */
  lemma SortKeyOfLabel(h: Hit)
    ensures SortKey(SourceLabel(h)) == PageSortValue(h)
  {
    var pt := PageText(h.doc);
    PageTextIsWord(h.doc);
    assert "Seite " + pt == "Seite" + " " + pt;
    WordsOfTwo("Seite", pt);
    assert Words(SourceLabel(h)) == ["Seite", pt];
    match h.doc.meta.page
    case Some(p) =>
      IntToStringDigits(p);
      if p >= 0 {
        ParseNatToString(p);
      }
    case None =>
      assert !IsDigit(pt[0]);
  }

  /** One label per distinct key, so never more labels than hits. */
  lemma {:induction false} FirstSeenCount(hs: seq<Hit>, key: Hit -> string, labelOf: Hit -> string)
    ensures |FirstSeen(hs, key, labelOf)| == |KeysOf(hs, key)| <= |hs|
  {
    if hs != [] {
      var init := hs[..|hs| - 1];
      var last := hs[|hs| - 1];
      FirstSeenCount(init, key, labelOf);
      var known := KeysOf(init, key);
      assert KeysOf(hs, key) == known + {key(last)};
      if key(last) in known {
        assert known + {key(last)} == known;
      } else {
        assert |known + {key(last)}| == |known| + 1;
      }
    }
  }

  /** Hits with equal keys have equal labels. */
  ghost predicate LabelFollowsKey(key: Hit -> string, labelOf: Hit -> string)
  {
    forall h1, h2 :: key(h1) == key(h2) ==> labelOf(h1) == labelOf(h2)
  }

  /** When the label follows the key, every hit's label is among the first-seen labels. */
  lemma {:induction false} FirstSeenCover(hs: seq<Hit>, key: Hit -> string, labelOf: Hit -> string)
    requires LabelFollowsKey(key, labelOf)
    ensures forall i :: 0 <= i < |hs| ==> labelOf(hs[i]) in FirstSeen(hs, key, labelOf)
  {
    if hs != [] {
      var n := |hs|;
      var init := hs[..n - 1];
      FirstSeenCover(init, key, labelOf);
      var prev := FirstSeen(init, key, labelOf);
      var all := FirstSeen(hs, key, labelOf);
      var last := hs[n - 1];
      assert prev <= all;
      if key(last) in KeysOf(init, key) {
        KeysOfSpec(init, key, key(last));
        var i :| 0 <= i < n - 1 && key(init[i]) == key(last);
        assert labelOf(init[i]) in prev;
      }
      forall i | 0 <= i < n - 1
        ensures labelOf(hs[i]) in all
      {
        assert hs[i] == init[i];
        assert labelOf(init[i]) in prev;
      }
    }
  }

  /** The page label follows the source key. */
  lemma SourceLabelFollowsKey()
    ensures LabelFollowsKey(SourceKey, SourceLabel)
  {
    forall h1, h2 | SourceKey(h1) == SourceKey(h2)
      ensures SourceLabel(h1) == SourceLabel(h2)
    {
      SameKeySameLabel(h1, h2);
    }
  }

  /** Equal keys come from equal page texts, so they give equal labels. */
  lemma SameKeySameLabel(h1: Hit, h2: Hit)
    requires SourceKey(h1) == SourceKey(h2)
    ensures SourceLabel(h1) == SourceLabel(h2)
  {
    PageTextIsWord(h1.doc);
    PageTextIsWord(h2.doc);
    var s1, s2 := SourceOr(h1.doc, ""), SourceOr(h2.doc, "");
    var p1, p2 := PageText(h1.doc), PageText(h2.doc);
    KeyTailShorter(s1, p1, s2, p2);
    KeyTailShorter(s2, p2, s1, p1);
    var key := SourceKey(h1);
    assert p1 == key[|key| - |p1|..];
    assert p2 == key[|key| - |p2|..];
  }

  /**
   * The underscore of the last `_p` sits right before a page text without
   * underscores, so of two ways to read one key the page texts have one length.
   */
  lemma KeyTailShorter(s1: string, p1: string, s2: string, p2: string)
    requires s1 + "_p" + p1 == s2 + "_p" + p2
    requires '_' !in p2
    ensures |p2| <= |p1|
  {
    var key := s1 + "_p" + p1;
    var key2 := s2 + "_p" + p2;
    var start := |key| - |p2|;
    assert key[|s1|] == '_';
    assert key2[start - 1] == 'p';
  }

  /** Keys made from the same page text and different sources differ. */
  lemma KeyDeterminesSource(s1: string, s2: string, pt: string)
    ensures s1 + "_p" + pt == s2 + "_p" + pt ==> s1 == s2
  {
    var key := s1 + "_p" + pt;
    if key == s2 + "_p" + pt {
      assert s1 == key[..|s1|];
      assert s2 == key[..|s2|];
    }
  }

  /**
   * The sources are ascending by page number, a permutation of the first-seen
   * labels that keeps the order of labels of equal pages.
   */
  lemma SourcesSpec(hs: seq<Hit>)
    ensures Sorting.SortedBy(SourcesOf(hs), SortKey)
    ensures multiset(SourcesOf(hs)) == multiset(FirstSeenLabels(hs))
    ensures forall key :: Sorting.WithKey(SourcesOf(hs), SortKey, key) == Sorting.WithKey(FirstSeenLabels(hs), SortKey, key)
    ensures |SourcesOf(hs)| <= |hs|
    ensures forall k :: 0 <= k < |hs| ==> SourceLabel(hs[k]) in SourcesOf(hs)
  {
    Sorting.SortByStable(FirstSeenLabels(hs), SortKey);
    FirstSeenCount(hs, SourceKey, SourceLabel);
    SourceLabelFollowsKey();
    FirstSeenCover(hs, SourceKey, SourceLabel);
    var labels := FirstSeenLabels(hs);
    var sources := SourcesOf(hs);
    assert |multiset(sources)| == |multiset(labels)|;
    forall k | 0 <= k < |hs|
      ensures SourceLabel(hs[k]) in sources
    {
      assert SourceLabel(hs[k]) in multiset(labels);
    }
  }

  /** Two files hit on the same page give the same label twice. */
  lemma SourcesCanRepeat(h1: Hit, h2: Hit)
    requires SourceOr(h1.doc, "") != SourceOr(h2.doc, "")
    requires h1.doc.meta.page == h2.doc.meta.page
    ensures FirstSeenLabels([h1, h2]) == [SourceLabel(h1), SourceLabel(h1)]
  {
    var hs := [h1, h2];
    assert hs[..1] == [h1];
    assert [h1][..0] == [];
    KeyDeterminesSource(SourceOr(h1.doc, ""), SourceOr(h2.doc, ""), PageText(h1.doc));
    assert SourceKey(h1) != SourceKey(h2);
    assert KeysOf([h1], SourceKey) == {SourceKey(h1)};
    assert FirstSeen([h1], SourceKey, SourceLabel) == [SourceLabel(h1)];
  }

  /** `_extract_sources` with its loop over the hits and its `seen` set. */
  method ExtractSources(results: seq<Hit>) returns (sources: seq<string>)
    ensures sources == SourcesOf(results)
  {
    var labels: seq<string> := [];
    var seen: set<string> := {};
    for i := 0 to |results|
      invariant labels == FirstSeenLabels(results[..i])
      invariant seen == KeysOf(results[..i], SourceKey)
    {
      var h := results[i];
      var key := SourceKey(h);
      assert results[..i + 1][..i] == results[..i];
      if key !in seen {
        seen := seen + {key};
        labels := labels + [SourceLabel(h)];
      }
    }
    assert results[..|results|] == results;
    sources := Sorting.SortBy(labels, SortKey);
  }

  // ---------------------------------------------------------------------------
  // The pipeline
  // ---------------------------------------------------------------------------

  /** The record filled from the deduplicated hits. */
  function ResultOf(query: string, hits: seq<Hit>): RetrievalResult
  {
    RetrievalResult(query, DocsOf(hits), ScoresOf(hits), Context(hits), SourcesOf(hits))
  }

  /**
   * `retrieve` for a given search outcome: a `RuntimeError` of the search and
   * an empty hit list both give the empty result, any other exception escapes,
   * and hits are deduplicated, formatted and labelled.
   */
  function RetrieveOutcome(query: string, search: Result<seq<Hit>, Raised>): Result<RetrievalResult, Raised>
  {
    match search
    case Err(e) => if e == RuntimeError then Ok(EmptyResult(query)) else Err(e)
    case Ok(raw) =>
      if raw == [] then Ok(EmptyResult(query))
      else
        Ok(ResultOf(query, Deduplicated(Jaccard, raw, DuplicateThreshold)))
  }

  /**
   * A retrieval finds something exactly when the store is not empty and the
   * backend answers with a hit passing the threshold; it fails exactly when a
   * non-empty store's backend raises something other than a `RuntimeError`;
   * finding nothing gives the empty record. The best hit of a descending answer is kept and gives the top score.
   */
  lemma RetrieveSpec(query: string, count: nat, reply: VectorIndex.BackendReply, minSimilarity: real)
    ensures var r := RetrieveOutcome(query, VectorIndex.SearchOutcome(count, reply, minSimilarity));
      && (r.Err? <==> count > 0 && reply.Failed? && reply.error != RuntimeError)
      && (r.Ok? ==> r.value.query == query && |r.value.documents| == |r.value.scores|)
      && (r.Ok? && r.value.FoundResults() <==>
          count > 0 && reply.Answered? && exists h :: h in reply.hits && h.score >= minSimilarity)
      && (r.Ok? && !r.value.FoundResults() ==> r.value == EmptyResult(query))
  {
    var search := VectorIndex.SearchOutcome(count, reply, minSimilarity);
    VectorIndex.SearchOutcomeSpec(count, reply, minSimilarity);
    if search.Ok? {
      var raw := search.value;
      DeduplicatedKeepsFirst(Jaccard, raw, DuplicateThreshold);
      if raw != [] {
        assert raw[0] in raw;
      }
    }
  }

  /** When the hits arrive best first, the top score is the first hit's score and every kept score lies at or below it. */
  lemma RetrieveTopScore(query: string, raw: seq<Hit>)
    requires raw != [] && DescendingByScore(raw)
    ensures var r := RetrieveOutcome(query, Ok(raw));
      && r.Ok? && r.value.FoundResults()
      && r.value.documents[0] == raw[0].doc
      && r.value.TopScore() == raw[0].score
  {
    DeduplicatedKeepsFirst(Jaccard, raw, DuplicateThreshold);
    DeduplicatedOrder(Jaccard, raw, DuplicateThreshold);
    ResultOfDescending(query, Deduplicated(Jaccard, raw, DuplicateThreshold));
  }

  /** The record for a nonempty list of hits sorted best first starts with the best hit and has its score on top. */
  lemma ResultOfDescending(query: string, hits: seq<Hit>)
    requires hits != [] && DescendingByScore(hits)
    ensures var r := ResultOf(query, hits);
      && r.FoundResults()
      && r.documents[0] == hits[0].doc
      && r.TopScore() == hits[0].score
  {
    var r := ResultOf(query, hits);
    var k :| 0 <= k < |r.scores| && r.scores[k] == r.TopScore();
    assert hits[0].score >= hits[k].score;
  }

  /** The loop that copies each hit's document and score into the result. */
  method Unzip(hits: seq<Hit>) returns (documents: seq<Document>, scores: seq<real>)
    ensures documents == DocsOf(hits) && scores == ScoresOf(hits)
  {
    documents := [];
    scores := [];
    for i := 0 to |hits|
      invariant documents == DocsOf(hits[..i])
      invariant scores == ScoresOf(hits[..i])
    {
      documents := documents + [hits[i].doc];
      scores := scores + [hits[i].score];
    }
    assert hits[..|hits|] == hits;
  }

  /** The retriever: a store to search and the search parameters. */
  class Retriever {
    const store: VectorIndex.VectorStore
    /** How many neighbours to ask for; the backend's answer is a parameter here. */
    const topK: int
    const minSimilarity: real

    constructor(store: VectorIndex.VectorStore, topK: int, minSimilarity: real)
      ensures this.store == store && this.topK == topK && this.minSimilarity == minSimilarity
    {
      this.store := store;
      this.topK := topK;
      this.minSimilarity := minSimilarity;
    }

    /** `Retriever(vector_store)`: the configured top-k and minimum similarity. */
    constructor WithDefaults(store: VectorIndex.VectorStore)
      ensures this.store == store
      ensures this.topK == Config.Defaults.topK && this.minSimilarity == Config.Defaults.minSimilarity
    {
      this.store := store;
      this.topK := Config.Defaults.topK;
      this.minSimilarity := Config.Defaults.minSimilarity;
    }

    /** `retrieve(query)` given what the backend answers to the nearest-neighbour query. */
    method Retrieve(query: string, reply: VectorIndex.BackendReply) returns (r: Result<RetrievalResult, Raised>)
      ensures r == RetrieveOutcome(query, VectorIndex.SearchOutcome(store.Count(), reply, minSimilarity))
    {
      var search := store.SimilaritySearch(reply, minSimilarity);
      if search.Err? {
        if search.error == RuntimeError {
          return Ok(EmptyResult(query));
        }
        return Err(search.error);
      }
      var raw := search.value;
      if raw == [] {
        return Ok(EmptyResult(query));
      }
      var deduplicated := Deduplicate(Jaccard, raw, DuplicateThreshold);
      var documents, scores := Unzip(deduplicated);
      var context := BuildContext(deduplicated);
      var sources := ExtractSources(deduplicated);
      r := Ok(RetrievalResult(query, documents, scores, context, sources));
    }
  }
}

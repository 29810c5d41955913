/** Order-preserving subsequences, witnessed by a strictly increasing list of positions. */
module Seqs {

  /** `a` is `b` restricted to the positions `idx`, which strictly increase. */
  ghost predicate SubsequenceAt<T>(a: seq<T>, b: seq<T>, idx: seq<nat>)
  {
    && |idx| == |a|
    && (forall j :: 0 <= j < |idx| ==> idx[j] < |b| && a[j] == b[idx[j]])
    && (forall j1, j2 :: 0 <= j1 < j2 < |idx| ==> idx[j1] < idx[j2])
  }

  ghost predicate IsSubsequence<T>(a: seq<T>, b: seq<T>)
  {
    exists idx :: SubsequenceAt(a, b, idx)
  }

  /** Two selections of `b` at the same set of positions are the same. */
  lemma SubsequenceSamePositions<T>(a1: seq<T>, a2: seq<T>, b: seq<T>, idx1: seq<nat>, idx2: seq<nat>)
    requires SubsequenceAt(a1, b, idx1) && SubsequenceAt(a2, b, idx2)
    requires forall k :: 0 <= k < |b| ==> (k in idx1 <==> k in idx2)
    ensures a1 == a2
  {
    SamePositions(idx1, idx2, |b|);
  }

  /** Strictly increasing lists of positions below `n` holding the same positions are equal. */
  lemma {:induction false} SamePositions(idx1: seq<nat>, idx2: seq<nat>, n: nat)
    requires forall j :: 0 <= j < |idx1| ==> idx1[j] < n
    requires forall j :: 0 <= j < |idx2| ==> idx2[j] < n
    requires forall j1, j2 :: 0 <= j1 < j2 < |idx1| ==> idx1[j1] < idx1[j2]
    requires forall j1, j2 :: 0 <= j1 < j2 < |idx2| ==> idx2[j1] < idx2[j2]
    requires forall k :: 0 <= k < n ==> (k in idx1 <==> k in idx2)
    ensures idx1 == idx2
    decreases |idx1| + |idx2|
  {
    if idx1 != [] {
      assert idx1[0] in idx2;
    }
    if idx2 != [] {
      assert idx2[0] in idx1;
    }
    if idx1 != [] && idx2 != [] {
      var l1, l2 := |idx1| - 1, |idx2| - 1;
      var m1, m2 := idx1[l1], idx2[l2];
      assert m1 <= m2 by {
        assert m1 in idx1 && m1 < n;
        var j :| 0 <= j < |idx2| && idx2[j] == m1;
      }
      assert m2 <= m1 by {
        assert m2 in idx2 && m2 < n;
        var j :| 0 <= j < |idx1| && idx1[j] == m2;
      }
      var p1, p2 := idx1[..l1], idx2[..l2];
      forall k | 0 <= k < m1
        ensures k in p1 <==> k in p2
      {
        assert k in p1 <==> k in idx1;
        assert k in p2 <==> k in idx2;
      }
      SamePositions(p1, p2, m1);
      assert idx1 == p1 + [m1] && idx2 == p2 + [m2];
    }
  }

  /** Appending to `b` keeps the witness. */
  lemma SubsequenceExtend<T>(a: seq<T>, b: seq<T>, idx: seq<nat>, x: T)
    requires SubsequenceAt(a, b, idx)
    ensures SubsequenceAt(a, b + [x], idx)
  {
  }

  /** Appending the same element to both extends the witness by the new last position. */
  lemma SubsequenceAppend<T>(a: seq<T>, b: seq<T>, idx: seq<nat>, x: T)
    requires SubsequenceAt(a, b, idx)
    ensures SubsequenceAt(a + [x], b + [x], idx + [|b|])
  {
  }

  /** The elements of `s` that satisfy `keep`, in their order (a list comprehension with an `if`). */
  function Filter<T>(s: seq<T>, keep: T -> bool): seq<T>
  {
    if s == [] then []
    else
      var n := |s|;
      Filter(s[..n - 1], keep) + (if keep(s[n - 1]) then [s[n - 1]] else [])
  }

  /** The positions of `s` that `Filter` keeps. */
  ghost function FilterIndices<T>(s: seq<T>, keep: T -> bool): seq<nat>
  {
    if s == [] then []
    else
      var n := |s|;
      FilterIndices(s[..n - 1], keep) + (if keep(s[n - 1]) then [n - 1] else [])
  }

  /**
   * The filter is `s` restricted to a strictly increasing list of positions,
   * and a position is on that list exactly when its element satisfies `keep`.
   */
  lemma {:induction false} FilterPositions<T>(s: seq<T>, keep: T -> bool)
    ensures SubsequenceAt(Filter(s, keep), s, FilterIndices(s, keep))
    ensures forall k :: 0 <= k < |s| ==> (k in FilterIndices(s, keep) <==> keep(s[k]))
  {
    if s != [] {
      var n := |s|;
      var init := s[..n - 1];
      FilterPositions(init, keep);
      var a, idx := Filter(init, keep), FilterIndices(init, keep);
      assert s == init + [s[n - 1]];
      assert forall k :: 0 <= k < n - 1 ==> init[k] == s[k];
      if keep(s[n - 1]) {
        SubsequenceAppend(a, init, idx, s[n - 1]);
      } else {
        SubsequenceExtend(a, init, idx, s[n - 1]);
      }
    }
  }

  /** Filtering a concatenation filters each part. */
  lemma {:induction false} FilterAppend<T>(a: seq<T>, b: seq<T>, keep: T -> bool)
    ensures Filter(a + b, keep) == Filter(a, keep) + Filter(b, keep)
    decreases |b|
  {
    if b == [] {
      assert a + b == a;
    } else {
      var n := |b|;
      var init := b[..n - 1];
      FilterAppend(a, init, keep);
      assert (a + b)[..|a + b| - 1] == a + init;
    }
  }

  /** The kept elements are the elements of the input that pass the test. */
  lemma {:induction false} FilterMembers<T>(s: seq<T>, keep: T -> bool)
    ensures forall x :: x in Filter(s, keep) <==> x in s && keep(x)
  {
    if s != [] {
      var n := |s|;
      FilterMembers(s[..n - 1], keep);
      assert s == s[..n - 1] + [s[n - 1]];
    }
  }

  /** Nothing survives when no element satisfies `keep`. */
  lemma {:induction false} FilterNone<T>(s: seq<T>, keep: T -> bool)
    requires forall k :: 0 <= k < |s| ==> !keep(s[k])
    ensures Filter(s, keep) == []
  {
    if s != [] {
      var init := s[..|s| - 1];
      assert forall k :: 0 <= k < |init| ==> init[k] == s[k];
      FilterNone(init, keep);
    }
  }
}

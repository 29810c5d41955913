/**
 * The handful of Python `str` operations the core relies on, written out on
 * `seq<char>`: `isspace`, `strip`, `lower`, `split()`, `split(sep)`, `join`,
 * `replace(c, "")`, `isdigit`, `int(...)` and `f"{n}"` for integers.
 */
module Text {
  import Seqs

  /** Python's `str.isspace()` for one character (the characters `split()` and `strip()` remove). */
  predicate IsSpace(c: char)
  {
    || c == ' '
    || ('\t' <= c <= '\r')
    || ('\U{001C}' <= c <= '\U{001F}')
    || c == '\U{0085}' || c == '\U{00A0}' || c == '\U{1680}'
    || ('\U{2000}' <= c <= '\U{200A}')
    || c == '\U{2028}' || c == '\U{2029}' || c == '\U{202F}' || c == '\U{205F}' || c == '\U{3000}'
  }

  /** `s.lstrip()`: drops the leading whitespace and nothing else (see `TrimStartSpec`). */
  function TrimStart(s: string): (r: string)
    ensures |r| <= |s|
  {
    if s != [] && IsSpace(s[0]) then TrimStart(s[1..]) else s
  }

  lemma {:induction false} TrimStartSpec(s: string)
    ensures var r := TrimStart(s);
      && (r == [] || !IsSpace(r[0]))
      && r == s[|s| - |r|..]
      && forall k :: 0 <= k < |s| - |r| ==> IsSpace(s[k])
    decreases |s|
  {
    if s != [] && IsSpace(s[0]) {
      TrimStartSpec(s[1..]);
      var r := TrimStart(s);
      assert s[1..][|s| - 1 - |r|..] == s[|s| - |r|..];
      assert forall k :: 1 <= k < |s| ==> s[k] == s[1..][k - 1];
    }
  }

  /** `s.rstrip()`: drops the trailing whitespace and nothing else (see `TrimEndSpec`). */
  function TrimEnd(s: string): (r: string)
    ensures |r| <= |s|
  {
    if s != [] && IsSpace(s[|s| - 1]) then TrimEnd(s[..|s| - 1]) else s
  }

  lemma {:induction false} TrimEndSpec(s: string)
    ensures var r := TrimEnd(s);
      && (r == [] || !IsSpace(r[|r| - 1]))
      && r == s[..|r|]
      && forall k :: |r| <= k < |s| ==> IsSpace(s[k])
    decreases |s|
  {
    if s != [] && IsSpace(s[|s| - 1]) {
      var init := s[..|s| - 1];
      TrimEndSpec(init);
      var r := TrimEnd(s);
      assert init[..|r|] == s[..|r|];
      assert forall k :: 0 <= k < |s| - 1 ==> s[k] == init[k];
    }
  }

  /** Number of whitespace characters `lstrip()` removes from the front of `s`. */
  function LeadingSpaces(s: string): (n: nat)
    ensures n <= |s|
  {
    |s| - |TrimStart(s)|
  }

  /** `s.strip()`. */
  function Strip(s: string): (r: string)
    ensures |r| <= |s|
  {
    TrimEnd(TrimStart(s))
  }

  /**
   * `strip()` keeps one slice of its input that neither starts nor ends with
   * whitespace, and everything it drops on either side is whitespace.
   */
  lemma StripSpec(s: string)
    ensures var r, lead := Strip(s), LeadingSpaces(s);
      && (r == [] || (!IsSpace(r[0]) && !IsSpace(r[|r| - 1])))
      && lead + |r| <= |s|
      && r == s[lead..lead + |r|]
      && (forall k :: 0 <= k < lead ==> IsSpace(s[k]))
      && (forall k :: lead + |r| <= k < |s| ==> IsSpace(s[k]))
  {
    var t := TrimStart(s);
    var r, lead := Strip(s), LeadingSpaces(s);
    TrimStartSpec(s);
    TrimEndSpec(t);
    assert t == s[lead..];
    assert r == t[..|r|];
    assert r == s[lead..lead + |r|];
    if r != [] {
      assert r[0] == t[0];
    }
    assert forall k :: lead + |r| <= k < |s| ==> s[k] == t[k - lead];
  }

  /** A text that neither starts nor ends with whitespace is left alone by `strip()`. */
  lemma StripUnchanged(s: string)
    requires s == [] || (!IsSpace(s[0]) && !IsSpace(s[|s| - 1]))
    ensures Strip(s) == s
  {
  }

  lemma StripKeepsOnlyItsInput(s: string, c: char)
    requires c in Strip(s)
    ensures c in s
  {
    StripSpec(s);
    var r, i := Strip(s), LeadingSpaces(s);
    var k :| 0 <= k < |r| && r[k] == c;
    assert s[i + k] == c;
  }

  /** Length of the run of non-whitespace characters that starts `s`. */
  function WordLen(s: string): (n: nat)
    ensures n <= |s|
  {
    if s == [] || IsSpace(s[0]) then 0 else 1 + WordLen(s[1..])
  }

  /** `WordLen` is the first whitespace position, or the end of the text. */
  lemma {:induction false} WordLenIs(s: string, n: nat)
    requires n <= |s|
    requires forall k :: 0 <= k < n ==> !IsSpace(s[k])
    requires n == |s| || IsSpace(s[n])
    ensures WordLen(s) == n
    decreases n
  {
    if n > 0 {
      assert forall k :: 0 <= k < n - 1 ==> s[1..][k] == s[k + 1];
      WordLenIs(s[1..], n - 1);
    }
  }

  /** `s.split()`: the maximal runs of non-whitespace characters, in order. */
  function Words(s: string): seq<string>
    decreases |s|
  {
    if s == [] then []
    else if IsSpace(s[0]) then Words(s[1..])
    else
      var n := WordLen(s);
      [s[..n]] + Words(s[n..])
  }

  /** Every item of `split()` is non-empty and free of whitespace. */
  lemma {:induction false} WordsSpec(s: string)
    ensures forall w :: w in Words(s) ==> w != [] && forall k :: 0 <= k < |w| ==> !IsSpace(w[k])
    decreases |s|
  {
    if s != [] {
      if IsSpace(s[0]) {
        WordsSpec(s[1..]);
      } else {
        var n := WordLen(s);
        WordsSpec(s[n..]);
        WordLenSpec(s);
      }
    }
  }

  /** The run `WordLen` measures holds no whitespace and ends at whitespace or at the end. */
  lemma {:induction false} WordLenSpec(s: string)
    ensures forall k :: 0 <= k < WordLen(s) ==> !IsSpace(s[k])
    ensures WordLen(s) == |s| || IsSpace(s[WordLen(s)])
    decreases |s|
  {
    if s != [] && !IsSpace(s[0]) {
      WordLenSpec(s[1..]);
      assert forall k :: 1 <= k < |s| ==> s[k] == s[1..][k - 1];
    }
  }

  /** `split()` of a single word is that word. */
  lemma WordsOfOne(w: string)
    requires w != [] && forall k :: 0 <= k < |w| ==> !IsSpace(w[k])
    ensures Words(w) == [w]
  {
    WordLenIs(w, |w|);
    assert w[..|w|] == w;
    assert w[|w|..] == [];
  }

  /** `split()` of one word, one space and a second word gives exactly those two words. */
  lemma WordsOfTwo(w1: string, w2: string)
    requires w1 != [] && forall k :: 0 <= k < |w1| ==> !IsSpace(w1[k])
    requires w2 != [] && forall k :: 0 <= k < |w2| ==> !IsSpace(w2[k])
    ensures Words(w1 + " " + w2) == [w1, w2]
  {
    assert [w1] + [w2] == [w1, w2];
    var all := Words(w1 + " " + w2);
    var tail := Words(" " + w2);
    WordsFirstOfTwo(w1, w2);
    WordsSpaceThen(w2);
    WordsOfOne(w2);
    assert all == [w1] + tail;
    assert tail == [w2];
  }

  lemma WordsFirstOfTwo(w1: string, w2: string)
    requires w1 != [] && forall k :: 0 <= k < |w1| ==> !IsSpace(w1[k])
    ensures Words(w1 + " " + w2) == [w1] + Words(" " + w2)
  {
    var rest := " " + w2;
    var s := w1 + rest;
    assert w1 + " " + w2 == s;
    assert s[|w1|] == ' ';
    assert forall k :: 0 <= k < |w1| ==> s[k] == w1[k];
    WordLenIs(s, |w1|);
    assert s[..|w1|] == w1;
    assert s[|w1|..] == rest;
  }

  /** A space in front does not change `split()`. */
  lemma WordsSpaceThen(w: string)
    ensures Words(" " + w) == Words(w)
  {
    assert (" " + w)[1..] == w;
  }

  /**
   * `w` is a maximal run of non-whitespace characters of `s` starting at
   * position `k`: it occurs there, is non-empty, holds no whitespace, and is
   * bounded by whitespace or the ends of `s` on both sides.
   */
  ghost predicate WordAt(s: string, w: string, k: nat)
  {
    && OccursAt(w, s, k)
    && w != []
    && (forall i :: 0 <= i < |w| ==> !IsSpace(w[i]))
    && (k == 0 || IsSpace(s[k - 1]))
    && (k + |w| == |s| || IsSpace(s[k + |w|]))
  }

  /** A word of `s[m..]` not at its very start, or after whitespace at `m - 1`, is a word of `s`. */
  lemma WordAtDrop(s: string, m: nat, w: string, j: nat)
    requires 1 <= m <= |s|
    requires j >= 1 || IsSpace(s[m - 1])
    ensures WordAt(s[m..], w, j) <==> WordAt(s, w, j + m)
  {
    var t := s[m..];
    if j + |w| <= |t| {
      assert t[j..j + |w|] == s[j + m..j + m + |w|];
      if j >= 1 {
        assert t[j - 1] == s[j + m - 1];
      }
      if j + |w| < |t| {
        assert t[j + |w|] == s[j + m + |w|];
      }
    }
  }

  /** No word starts at a whitespace character. */
  lemma NoWordAtSpace(s: string, w: string, k: nat)
    requires k < |s| && IsSpace(s[k])
    ensures !WordAt(s, w, k)
  {
  }

  /** `s.split()` returns exactly the maximal runs of non-whitespace characters of `s`. */
  lemma {:induction false} WordsExactly(s: string, w: string)
    ensures w in Words(s) <==> exists k: nat :: WordAt(s, w, k)
    decreases |s|, 1
  {
    if s == [] {
    } else if IsSpace(s[0]) {
      WordsExactlyAfterSpace(s, w);
    } else {
      WordsExactlyAtWord(s, w);
    }
  }

  /** The case of `WordsExactly` where `s` starts with whitespace. */
  lemma {:induction false} WordsExactlyAfterSpace(s: string, w: string)
    requires s != [] && IsSpace(s[0])
    ensures w in Words(s) <==> exists k: nat :: WordAt(s, w, k)
    decreases |s|, 0
  {
    WordsExactly(s[1..], w);
    NoWordAtSpace(s, w, 0);
    if exists k: nat :: WordAt(s[1..], w, k) {
      var j: nat :| WordAt(s[1..], w, j);
      WordAtDrop(s, 1, w, j);
      assert WordAt(s, w, j + 1);
    }
    if exists k: nat :: WordAt(s, w, k) {
      var k: nat :| WordAt(s, w, k);
      WordAtDrop(s, 1, w, k - 1);
      assert WordAt(s[1..], w, k - 1);
    }
  }

  /** The case of `WordsExactly` where `s` starts with a word. */
  lemma {:induction false} WordsExactlyAtWord(s: string, w: string)
    requires s != [] && !IsSpace(s[0])
    ensures w in Words(s) <==> exists k: nat :: WordAt(s, w, k)
    decreases |s|, 0
  {
    var n := WordLen(s);
    WordsExactly(s[n..], w);
    WordsOfWord(s);
    if w in Words(s) {
      if w == s[..n] {
        FirstWordAt(s);
      } else {
        var j: nat :| WordAt(s[n..], w, j);
        WordAtRest(s, w, j);
      }
    } else {
      forall k: nat
        ensures !WordAt(s, w, k)
      {
        if WordAt(s, w, k) {
          if k == 0 {
            WordLenIs(s, |w|);
          } else {
            WordAtLater(s, w, k);
          }
        }
      }
    }
  }

  /** `split()` of a text starting with a word: that word, then the words of the rest. */
  lemma WordsOfWord(s: string)
    requires s != [] && !IsSpace(s[0])
    ensures Words(s) == [s[..WordLen(s)]] + Words(s[WordLen(s)..])
  {
  }

  /** The run `WordLen` measures is a word at position 0. */
  lemma FirstWordAt(s: string)
    requires s != [] && !IsSpace(s[0])
    ensures WordAt(s, s[..WordLen(s)], 0)
  {
    WordLenSpec(s);
  }

  /** A word of the text after the first word is a word of the whole text. */
  lemma WordAtRest(s: string, w: string, j: nat)
    requires s != [] && !IsSpace(s[0])
    requires WordAt(s[WordLen(s)..], w, j)
    ensures WordAt(s, w, j + WordLen(s))
  {
    var n := WordLen(s);
    WordLenSpec(s);
    if j == 0 {
      NoWordAtSpace(s[n..], w, 0);
    }
    WordAtDrop(s, n, w, j);
  }

  /** A word of `s` after position 0 lies after the first word. */
  lemma WordAtLater(s: string, w: string, k: nat)
    requires s != [] && !IsSpace(s[0])
    requires WordAt(s, w, k) && k > 0
    ensures k > WordLen(s) && WordAt(s[WordLen(s)..], w, k - WordLen(s))
  {
    var n := WordLen(s);
    WordLenSpec(s);
    assert k > n;
    WordAtDrop(s, n, w, k - n);
  }

  /** One character of Python's `str.lower()`; case mapping is modelled for ASCII and Latin-1 letters. */
  function LowerChar(c: char): char
  {
    if 'A' <= c <= 'Z' || ('\U{00C0}' <= c <= '\U{00DE}' && c != '\U{00D7}') then
      (c as int + 32) as char
    else
      c
  }

  /** `s.lower()`, character by character. */
  function Lower(s: string): (r: string)
    ensures |r| == |s|
    ensures forall k :: 0 <= k < |s| ==> r[k] == LowerChar(s[k])
  {
    seq(|s|, k requires 0 <= k < |s| => LowerChar(s[k]))
  }

  /** Lower-casing twice is lower-casing once. */
  lemma LowerIdempotent(s: string)
    ensures Lower(Lower(s)) == Lower(s)
  {
    assert forall k :: 0 <= k < |s| ==> LowerChar(LowerChar(s[k])) == LowerChar(s[k]);
  }

  /** Index of the first occurrence of `c` in `s`. */
  function IndexOf(s: string, c: char): (i: nat)
    requires c in s
    ensures i < |s| && s[i] == c && c !in s[..i]
  {
    if s[0] == c then 0 else 1 + IndexOf(s[1..], c)
  }

  /** `s.split(sep)` for a one-character separator: never empty, pieces free of `sep`. */
  function SplitOn(s: string, sep: char): (parts: seq<string>)
    ensures |parts| >= 1
    ensures forall p :: p in parts ==> sep !in p
    decreases |s|
  {
    if sep !in s then [s]
    else
      var i := IndexOf(s, sep);
      [s[..i]] + SplitOn(s[i + 1..], sep)
  }

  /** `IndexOf` is the first occurrence. */
  lemma {:induction false} IndexOfIs(s: string, c: char, i: nat)
    requires i < |s| && s[i] == c && c !in s[..i]
    ensures IndexOf(s, c) == i
    decreases i
  {
    if i > 0 {
      assert s[0] in s[..i];
      assert s[1..][..i - 1] == s[1..i];
      assert forall x :: x in s[1..i] ==> x in s[..i];
      IndexOfIs(s[1..], c, i - 1);
    }
  }

  /** Splitting at the first separator, found at position `i`. */
  lemma SplitOnAt(s: string, sep: char, i: nat)
    requires i < |s| && s[i] == sep && sep !in s[..i]
    ensures SplitOn(s, sep) == [s[..i]] + SplitOn(s[i + 1..], sep)
  {
    IndexOfIs(s, sep, i);
  }

  /** `sep.join(parts)`. */
  function Join(parts: seq<string>, sep: string): string
  {
    if |parts| == 0 then ""
    else if |parts| == 1 then parts[0]
    else Join(parts[..|parts| - 1], sep) + sep + parts[|parts| - 1]
  }

  /** Joining a list that starts with `p` puts `p` and one separator in front of the rest. */
  lemma {:induction false} JoinCons(p: string, ps: seq<string>, sep: string)
    requires ps != []
    ensures Join([p] + ps, sep) == p + sep + Join(ps, sep)
    decreases |ps|
  {
    var all := [p] + ps;
    if |ps| == 1 {
      assert all[..1] == [p];
    } else {
      assert all[..|all| - 1] == [p] + ps[..|ps| - 1];
      JoinCons(p, ps[..|ps| - 1], sep);
    }
  }

  /** Splitting on a character and joining with it again gives the original text back. */
  lemma {:induction false} JoinSplitOn(s: string, sep: char)
    ensures Join(SplitOn(s, sep), [sep]) == s
    decreases |s|
  {
    if sep in s {
      var i := IndexOf(s, sep);
      var head, tail := s[..i], s[i + 1..];
      var rest := SplitOn(tail, sep);
      SplitOnAt(s, sep, i);
      JoinSplitOn(tail, sep);
      JoinCons(head, rest, [sep]);
      Around(s, i);
    }
  }

  /** Splitting a join of separator-free parts at the separator gives back the parts. */
  lemma {:induction false} SplitOnJoin(parts: seq<string>, sep: char)
    requires parts != []
    requires forall i :: 0 <= i < |parts| ==> sep !in parts[i]
    ensures SplitOn(Join(parts, [sep]), sep) == parts
    decreases |parts|
  {
    if |parts| == 1 {
      assert Join(parts, [sep]) == parts[0];
    } else {
      var p, rest := parts[0], parts[1..];
      assert parts == [p] + rest;
      JoinCons(p, rest, [sep]);
      var s := Join(parts, [sep]);
      var tail := Join(rest, [sep]);
      assert s == p + [sep] + tail;
      assert s[..|p|] == p;
      assert s[|p| + 1..] == tail;
      SplitOnAt(s, sep, |p|);
      SplitOnJoin(rest, sep);
    }
  }

  /** A sequence is what comes before position `i`, the element there, and what comes after. */
  lemma Around<T>(s: seq<T>, i: nat)
    requires i < |s|
    ensures s == s[..i] + [s[i]] + s[i + 1..]
  {
    assert s[..i] + [s[i]] == s[..i + 1];
    assert s[..i + 1] + s[i + 1..] == s;
  }

  /** `p` occurs in `s` as a contiguous piece. */
  ghost predicate IsSubstring(p: string, s: string)
  {
    exists k: nat :: OccursAt(p, s, k)
  }

  /** `p` occurs in `s` starting at position `k`. */
  ghost predicate OccursAt(p: string, s: string, k: nat)
  {
    k + |p| <= |s| && s[k..k + |p|] == p
  }

  lemma SubstringAt(p: string, s: string, k: nat)
    requires OccursAt(p, s, k)
    ensures IsSubstring(p, s)
  {
  }

  /** A piece of a piece of `s` is a piece of `s`. */
  lemma SubstringTrans(p: string, q: string, s: string)
    requires IsSubstring(p, q) && IsSubstring(q, s)
    ensures IsSubstring(p, s)
  {
    var i: nat :| OccursAt(p, q, i);
    var j: nat :| OccursAt(q, s, j);
    assert OccursAt(q, s, j);
    forall k | 0 <= k < |p|
      ensures s[j + i..j + i + |p|][k] == p[k]
    {
      assert p[k] == q[i + k] == s[j + i + k];
    }
    assert s[j + i..j + i + |p|] == p;
    assert OccursAt(p, s, j + i);
    SubstringAt(p, s, j + i);
  }

  /** Every part shows up in `sep.join(parts)`. */
  lemma {:induction false} JoinHasParts(parts: seq<string>, sep: string)
    ensures forall i :: 0 <= i < |parts| ==> IsSubstring(parts[i], Join(parts, sep))
    decreases |parts|
  {
    if |parts| == 1 {
      assert OccursAt(parts[0], Join(parts, sep), 0);
      SubstringAt(parts[0], Join(parts, sep), 0);
    } else if |parts| > 1 {
      var n := |parts|;
      var init := parts[..n - 1];
      JoinHasParts(init, sep);
      var head := Join(init, sep);
      var all := Join(parts, sep);
      assert all == head + sep + parts[n - 1];
      forall i | 0 <= i < n
        ensures IsSubstring(parts[i], all)
      {
        if i < n - 1 {
          assert parts[i] == init[i];
          assert OccursAt(head, all, 0);
          SubstringAt(head, all, 0);
          SubstringTrans(parts[i], head, all);
        } else {
          assert OccursAt(parts[n - 1], all, |head| + |sep|);
          SubstringAt(parts[n - 1], all, |head| + |sep|);
        }
      }
    }
  }

  /** `sep.join(parts)` is empty for no parts, and starts with the first part otherwise. */
  lemma {:induction false} JoinStartsWithFirst(parts: seq<string>, sep: string)
    requires parts != []
    ensures |parts[0]| <= |Join(parts, sep)| && Join(parts, sep)[..|parts[0]|] == parts[0]
    decreases |parts|
  {
    if |parts| > 1 {
      var init := parts[..|parts| - 1];
      JoinStartsWithFirst(init, sep);
      assert init[0] == parts[0];
    }
  }

  /** `s.replace(c, "")`. */
  function RemoveChar(s: string, c: char): (r: string)
    ensures c !in r
    ensures forall d :: d != c ==> (d in r <==> d in s)
  {
    if s == [] then []
    else if s[0] == c then RemoveChar(s[1..], c)
    else [s[0]] + RemoveChar(s[1..], c)
  }

  /** `replace(c, "")` removes every occurrence of `c` and keeps every other character as often as it occurs. */
  lemma {:induction false} RemoveCharCount(s: string, c: char)
    ensures multiset(RemoveChar(s, c)) == multiset(s)[c := 0]
    ensures |RemoveChar(s, c)| == |s| - multiset(s)[c]
  {
    if s != [] {
      RemoveCharCount(s[1..], c);
      assert s == [s[0]] + s[1..];
      assert multiset(s) == multiset{s[0]} + multiset(s[1..]);
    }
  }

  /** Removing a character that does not occur changes nothing. */
  lemma {:induction false} RemoveCharAbsent(s: string, c: char)
    requires c !in s
    ensures RemoveChar(s, c) == s
  {
    if s != [] {
      assert forall x :: x in s[1..] ==> x in s;
      RemoveCharAbsent(s[1..], c);
    }
  }

  /** `replace(c, "")` is the filter that keeps every character other than `c`. */
  lemma {:induction false} RemoveCharIsFilter(s: string, c: char, keep: char -> bool)
    requires forall d :: keep(d) <==> d != c
    ensures RemoveChar(s, c) == Seqs.Filter(s, keep)
  {
    if s != [] {
      RemoveCharIsFilter(s[1..], c, keep);
      assert s == [s[0]] + s[1..];
      Seqs.FilterAppend([s[0]], s[1..], keep);
      assert [s[0]][..0] == [];
    }
  }

  /**
   * `replace(c, "")` keeps the characters other than `c`, each of them, in
   * order: the result is `s` restricted to exactly the positions not holding `c`.
   */
  lemma RemoveCharSpec(s: string, c: char)
    ensures exists idx ::
      && Seqs.SubsequenceAt(RemoveChar(s, c), s, idx)
      && forall k :: 0 <= k < |s| ==> (k in idx <==> s[k] != c)
  {
    var keep := (d: char) => d != c;
    RemoveCharIsFilter(s, c, keep);
    Seqs.FilterPositions(s, keep);
    var idx := Seqs.FilterIndices(s, keep);
    assert Seqs.SubsequenceAt(RemoveChar(s, c), s, idx);
  }

  /** Removing a character the filter drops anyway does not change the filter. */
  lemma {:induction false} FilterRemoveChar(s: string, c: char, keep: char -> bool)
    requires !keep(c)
    ensures Seqs.Filter(RemoveChar(s, c), keep) == Seqs.Filter(s, keep)
  {
    if s != [] {
      FilterRemoveChar(s[1..], c, keep);
      assert s == [s[0]] + s[1..];
      Seqs.FilterAppend([s[0]], s[1..], keep);
      assert [s[0]][..0] == [];
      if s[0] != c {
        Seqs.FilterAppend([s[0]], RemoveChar(s[1..], c), keep);
      }
    }
  }

  /** `strip()` removes only whitespace, so a filter that drops whitespace does not see it. */
  lemma FilterStrip(s: string, keep: char -> bool)
    requires forall d :: IsSpace(d) ==> !keep(d)
    ensures Seqs.Filter(Strip(s), keep) == Seqs.Filter(s, keep)
  {
    StripSpec(s);
    var r, lead := Strip(s), LeadingSpaces(s);
    var front, back := s[..lead], s[lead + |r|..];
    assert s == front + r + back;
    Seqs.FilterNone(front, keep);
    Seqs.FilterNone(back, keep);
    Seqs.FilterAppend(front + r, back, keep);
    Seqs.FilterAppend(front, r, keep);
  }

  /** Joining lists whose parts agree under a filter gives texts that agree under it. */
  lemma {:induction false} FilterJoin(ps: seq<string>, qs: seq<string>, sep: string, keep: char -> bool)
    requires |ps| == |qs|
    requires forall i :: 0 <= i < |ps| ==> Seqs.Filter(ps[i], keep) == Seqs.Filter(qs[i], keep)
    ensures Seqs.Filter(Join(ps, sep), keep) == Seqs.Filter(Join(qs, sep), keep)
    decreases |ps|
  {
    if |ps| > 1 {
      var n := |ps|;
      var pi, qi := ps[..n - 1], qs[..n - 1];
      FilterJoin(pi, qi, sep, keep);
      Seqs.FilterAppend(Join(pi, sep) + sep, ps[n - 1], keep);
      Seqs.FilterAppend(Join(pi, sep), sep, keep);
      Seqs.FilterAppend(Join(qi, sep) + sep, qs[n - 1], keep);
      Seqs.FilterAppend(Join(qi, sep), sep, keep);
    }
  }

  predicate IsDigit(c: char)
  {
    '0' <= c <= '9'
  }

  /** `s.isdigit()` on the ASCII digits that integer formatting produces. */
  predicate AllDigits(s: string)
  {
    s != [] && forall k :: 0 <= k < |s| ==> IsDigit(s[k])
  }

  /** `int(s)` for a string of decimal digits. */
  function ParseDigits(s: string): nat
    requires forall k :: 0 <= k < |s| ==> IsDigit(s[k])
  {
    if s == [] then 0
    else
      var last := s[|s| - 1];
      assert IsDigit(last);
      10 * ParseDigits(s[..|s| - 1]) + (last as int - '0' as int)
  }

  function DigitChar(d: nat): (c: char)
    requires d < 10
    ensures IsDigit(c) && c as int - '0' as int == d
  {
    ('0' as int + d) as char
  }

  /** `f"{n}"` for a natural number: decimal digits, most significant first. */
  function NatToString(n: nat): (r: string)
    ensures AllDigits(r)
  {
    if n < 10 then [DigitChar(n)] else NatToString(n / 10) + [DigitChar(n % 10)]
  }

  /** `f"{i}"` for any integer: a minus sign in front of negative numbers. */
  function IntToString(i: int): string
  {
    if i < 0 then "-" + NatToString(-i) else NatToString(i)
  }

  /** Reading back a formatted natural number gives the number. */
  lemma {:induction false} ParseNatToString(n: nat)
    ensures ParseDigits(NatToString(n)) == n
  {
    if n >= 10 {
      var s := NatToString(n);
      assert s[..|s| - 1] == NatToString(n / 10);
      ParseNatToString(n / 10);
    }
  }

  /** A formatted integer passes `isdigit()` exactly when it is not negative. */
  lemma IntToStringDigits(i: int)
    ensures AllDigits(IntToString(i)) <==> i >= 0
  {
    if i < 0 {
      assert !IsDigit(IntToString(i)[0]);
    }
  }
}

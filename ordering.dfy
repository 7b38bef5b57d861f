/**
 * The two orderings of suggestions:
 *  - `sorted(xs, key=lambda p: frequencia.get(p, 1.0), reverse=True)`, a stable
 *    sort by descending score in which words missing from the table score 1.0;
 *  - `sorted(set(xs))`, the distinct words in ascending code-point order.
 */
module Ordering {
  import opened Strings
  import opened Seqs

  /** `frequencia.get(w, 1.0)`. */
  function Score(freq: map<String, real>, w: String): real {
    if w in freq then freq[w] else 1.0
  }

  /** Scores never increase from left to right. */
  predicate SortedByScore(s: seq<String>, freq: map<String, real>) {
    forall i, j :: 0 <= i < j < |s| ==> Score(freq, s[i]) >= Score(freq, s[j])
  }

  /** Dropping the head of a sorted list leaves it sorted. */
  lemma SortedTail(t: seq<String>, freq: map<String, real>)
    requires t != [] && SortedByScore(t, freq)
    ensures SortedByScore(t[1..], freq)
  {
    forall i, j | 0 <= i < j < |t| - 1 ensures Score(freq, t[1..][i]) >= Score(freq, t[1..][j]) {
      assert t[1..][i] == t[i + 1] && t[1..][j] == t[j + 1];
    }
  }

  /** A head that outscores every element of a sorted list keeps it sorted. */
  lemma SortedCons(h: String, rest: seq<String>, freq: map<String, real>)
    requires SortedByScore(rest, freq)
    requires rest != [] ==> Score(freq, h) >= Score(freq, rest[0])
    ensures SortedByScore([h] + rest, freq)
  {
    forall i, j | 0 <= i < j < |rest| + 1 ensures Score(freq, ([h] + rest)[i]) >= Score(freq, ([h] + rest)[j]) {
      assert ([h] + rest)[j] == rest[j - 1];
      if i > 0 {
        assert ([h] + rest)[i] == rest[i - 1];
      }
    }
  }

  /** Insert `x` in front of the first element that does not outscore it. */
  function InsertByScore(x: String, t: seq<String>, freq: map<String, real>): (r: seq<String>)
    requires SortedByScore(t, freq)
    ensures SortedByScore(r, freq)
    ensures multiset(r) == multiset(t) + multiset{x}
    ensures |r| == |t| + 1
    ensures r[0] == x || (t != [] && r[0] == t[0])
  {
    if t == [] || Score(freq, x) >= Score(freq, t[0]) then
      SortedCons(x, t, freq);
      [x] + t
    else
      SortedTail(t, freq);
      var rest := InsertByScore(x, t[1..], freq);
      assert t == [t[0]] + t[1..];
      assert multiset([t[0]] + rest) == multiset{t[0]} + multiset(rest);
      assert rest[0] == x || rest[0] == t[1];
      assert |t| > 1 ==> Score(freq, t[0]) >= Score(freq, t[1]);
      SortedCons(t[0], rest, freq);
      [t[0]] + rest
  }

  /** Stable descending sort by score, as Python's `sorted(..., reverse=True)`. */
  function SortByScore(s: seq<String>, freq: map<String, real>): (r: seq<String>)
    ensures SortedByScore(r, freq)
    ensures multiset(r) == multiset(s)
    ensures |r| == |s|
  {
    if s == [] then [] else
      assert s == [s[0]] + s[1..];
      InsertByScore(s[0], SortByScore(s[1..], freq), freq)
  }

  /** Sorting keeps exactly the words it was given. */
  lemma SortByScoreElems(s: seq<String>, freq: map<String, real>)
    ensures forall w :: w in SortByScore(s, freq) <==> w in s
  {
    var m := multiset(SortByScore(s, freq));
    forall w ensures w in SortByScore(s, freq) <==> w in s {
      assert w in SortByScore(s, freq) <==> w in m;
      assert w in s <==> w in multiset(s);
    }
  }

  /** A prefix of a list sorted by score is sorted by score. */
  lemma SortedPrefix(r: seq<String>, s: seq<String>, freq: map<String, real>)
    requires r <= s && SortedByScore(s, freq)
    ensures SortedByScore(r, freq)
  {
    forall i, j | 0 <= i < j < |r| ensures Score(freq, r[i]) >= Score(freq, r[j]) {
      assert r[i] == s[i] && r[j] == s[j];
    }
  }

  /** The elements of `s` whose score is `v`, in their order in `s`. */
  function WithScore(s: seq<String>, freq: map<String, real>, v: real): seq<String> {
    if s == [] then []
    else (if Score(freq, s[0]) == v then [s[0]] else []) + WithScore(s[1..], freq, v)
  }

  lemma WithScoreCons(h: String, rest: seq<String>, freq: map<String, real>, v: real)
    ensures WithScore([h] + rest, freq, v) == (if Score(freq, h) == v then [h] else []) + WithScore(rest, freq, v)
  {
    assert ([h] + rest)[1..] == rest;
  }

  lemma SwapDisjointHeads(a: seq<String>, b: seq<String>, c: seq<String>)
    requires a == [] || b == []
    ensures a + (b + c) == b + (a + c)
  {
  }

  lemma {:induction false} WithScoreInsert(x: String, t: seq<String>, freq: map<String, real>, v: real)
    requires SortedByScore(t, freq)
    ensures WithScore(InsertByScore(x, t, freq), freq, v)
         == (if Score(freq, x) == v then [x] else []) + WithScore(t, freq, v)
  {
    if t == [] || Score(freq, x) >= Score(freq, t[0]) {
      assert InsertByScore(x, t, freq) == [x] + t;
      WithScoreCons(x, t, freq, v);
    } else {
      SortedTail(t, freq);
      var rest := InsertByScore(x, t[1..], freq);
      assert InsertByScore(x, t, freq) == [t[0]] + rest;
      WithScoreCons(t[0], rest, freq, v);
      WithScoreCons(t[0], t[1..], freq, v);
      assert [t[0]] + t[1..] == t;
      WithScoreInsert(x, t[1..], freq, v);
      // x scores below t[0], so at most one of the two is kept
      var a := if Score(freq, t[0]) == v then [t[0]] else [];
      var b := if Score(freq, x) == v then [x] else [];
      SwapDisjointHeads(a, b, WithScore(t[1..], freq, v));
    }
  }

  /** Stability: words of equal score keep the order they had before sorting. */
  lemma {:induction false} SortByScoreStable(s: seq<String>, freq: map<String, real>, v: real)
    ensures WithScore(SortByScore(s, freq), freq, v) == WithScore(s, freq, v)
  {
    if s != [] {
      SortByScoreStable(s[1..], freq, v);
      WithScoreInsert(s[0], SortByScore(s[1..], freq), freq, v);
    }
  }

  /** Strictly ascending in code-point order, hence also duplicate-free. */
  predicate StrictlySorted(s: seq<String>) {
    forall i, j :: 0 <= i < j < |s| ==> LexLess(s[i], s[j])
  }

  lemma StrictlySortedDistinct(s: seq<String>)
    requires StrictlySorted(s)
    ensures Distinct(s)
  {
    forall i, j | 0 <= i < j < |s| ensures s[i] != s[j] {
      if s[i] == s[j] {
        LexLessIrreflexive(s[i]);
      }
    }
  }

  lemma StrictTail(t: seq<String>)
    requires t != [] && StrictlySorted(t)
    ensures StrictlySorted(t[1..])
  {
    forall i, j | 0 <= i < j < |t| - 1 ensures LexLess(t[1..][i], t[1..][j]) {
      assert t[1..][i] == t[i + 1] && t[1..][j] == t[j + 1];
    }
  }

  /** A head below the first element of an ascending list keeps it ascending. */
  lemma StrictCons(h: String, rest: seq<String>)
    requires StrictlySorted(rest)
    requires rest != [] ==> LexLess(h, rest[0])
    ensures StrictlySorted([h] + rest)
  {
    forall i, j | 0 <= i < j < |rest| + 1 ensures LexLess(([h] + rest)[i], ([h] + rest)[j]) {
      assert ([h] + rest)[j] == rest[j - 1];
      if i > 0 {
        assert ([h] + rest)[i] == rest[i - 1];
      } else if j > 1 {
        LexLessTransitive(h, rest[0], rest[j - 1]);
      }
    }
  }

  /** Insert `x` into an ascending list unless it is already there. */
  function InsertUnique(x: String, t: seq<String>): (r: seq<String>)
    requires StrictlySorted(t)
    ensures StrictlySorted(r)
    ensures Elems(r) == Elems(t) + {x}
    ensures r != [] && (r[0] == x || (t != [] && r[0] == t[0]))
  {
    if t == [] then
      StrictCons(x, t);
      ElemsCons(x, t);
      [x]
    else if x == t[0] then t
    else if LexLess(x, t[0]) then
      StrictCons(x, t);
      ElemsCons(x, t);
      [x] + t
    else
      LexLessTotal(x, t[0]);
      StrictTail(t);
      var rest := InsertUnique(x, t[1..]);
      assert t == [t[0]] + t[1..];
      assert rest[0] == x || rest[0] == t[1];
      StrictCons(t[0], rest);
      ElemsCons(t[0], t[1..]);
      ElemsCons(t[0], rest);
      [t[0]] + rest
  }

  /** `sorted(set(s))`. */
  function SortUnique(s: seq<String>): (r: seq<String>)
    ensures StrictlySorted(r)
    ensures Elems(r) == Elems(s)
  {
    if s == [] then [] else
      assert s == [s[0]] + s[1..];
      InsertUnique(s[0], SortUnique(s[1..]))
  }

  /** An ascending duplicate-free list is determined by its set of elements. */
  lemma {:induction false} StrictlySortedUnique(a: seq<String>, b: seq<String>)
    requires StrictlySorted(a) && StrictlySorted(b)
    requires Elems(a) == Elems(b)
    ensures a == b
    decreases |a|
  {
    ElemsEmpty(a);
    ElemsEmpty(b);
    if a != [] {
      assert a[0] in Elems(b) && b != [];
      assert b[0] in Elems(a);
      if a[0] != b[0] {
        var i :| 0 <= i < |a| && a[i] == b[0];
        var j :| 0 <= j < |b| && b[j] == a[0];
        assert i > 0 && j > 0;
        LexLessAsymmetric(a[0], a[i]);
        assert false;
      }
      StrictlySortedDistinct(a);
      StrictlySortedDistinct(b);
      assert a == [a[0]] + a[1..] && b == [b[0]] + b[1..];
      ElemsCons(a[0], a[1..]);
      ElemsCons(b[0], b[1..]);
      assert a[0] !in a[1..] && b[0] !in b[1..];
      StrictTail(a);
      StrictTail(b);
      StrictlySortedUnique(a[1..], b[1..]);
    }
  }

  /** `sorted(set(s))` depends only on which words occur in `s`, not on their order or repetition. */
  lemma SortUniqueDependsOnElems(s: seq<String>, t: seq<String>)
    requires Elems(s) == Elems(t)
    ensures SortUnique(s) == SortUnique(t)
  {
    StrictlySortedUnique(SortUnique(s), SortUnique(t));
  }
}

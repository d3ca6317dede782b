/**
 * The selection step of `extractive_summary` (app/services/summarizer.py):
 * `sorted(scores, key=score, reverse=True)[:k]`, then `sorted(top, key=idx)`.
 * Python's `sorted` is stable, also with `reverse=True`; both sorts are
 * modelled as stable insertion sorts over entries `(score, idx, sentence)`.
 * Scores are arbitrary reals here: nothing below depends on how they were computed.
 */
module Ranking {

  /** One entry of the `scores` list: the tuple `(score, idx, s)`. */
  datatype Scored = Scored(score: real, idx: nat, sentence: string)

  /** The list as `enumerate` builds it: entry `i` carries index `i`. */
  predicate Indexed(xs: seq<Scored>) {
    forall i :: 0 <= i < |xs| ==> xs[i].idx == i
  }

  /** Entry `a` precedes `b` after a stable descending sort of an index-ordered list. */
  predicate Outranks(a: Scored, b: Scored) {
    a.score > b.score || (a.score == b.score && a.idx < b.idx)
  }

  /** Every entry outranks every later entry. */
  predicate Ranked(xs: seq<Scored>) {
    forall p, q :: 0 <= p < q < |xs| ==> Outranks(xs[p], xs[q])
  }

  predicate IdxBefore(a: Scored, b: Scored) {
    a.idx < b.idx
  }

  /** Indices strictly increase along the list. */
  predicate IncreasingIdx(xs: seq<Scored>) {
    forall p, q :: 0 <= p < q < |xs| ==> IdxBefore(xs[p], xs[q])
  }

  /** No index occurs twice. */
  predicate DistinctIdx(xs: seq<Scored>) {
    forall p, q :: 0 <= p < q < |xs| ==> xs[p].idx != xs[q].idx
  }

  function Min(a: nat, b: nat): nat {
    if a <= b then a else b
  }

  /** Stable insertion into a list sorted by descending score: after every entry scoring at least as much. */
  function InsertByScore(xs: seq<Scored>, x: Scored): (r: seq<Scored>)
    ensures |r| == |xs| + 1
    ensures multiset(r) == multiset(xs) + multiset{x}
    decreases |xs|
  {
    if |xs| == 0 then [x]
    else if xs[0].score >= x.score then
      assert xs == [xs[0]] + xs[1..];
      [xs[0]] + InsertByScore(xs[1..], x)
    else [x] + xs
  }

  /** `sorted(xs, key=lambda e: e.score, reverse=True)`. */
  function SortByScore(xs: seq<Scored>): (r: seq<Scored>)
    ensures |r| == |xs|
    ensures multiset(r) == multiset(xs)
    decreases |xs|
  {
    if |xs| == 0 then []
    else
      assert xs == xs[..|xs| - 1] + [xs[|xs| - 1]];
      InsertByScore(SortByScore(xs[..|xs| - 1]), xs[|xs| - 1])
  }

  /** Stable insertion into a list sorted by ascending index. */
  function InsertByIdx(xs: seq<Scored>, x: Scored): (r: seq<Scored>)
    ensures |r| == |xs| + 1
    ensures multiset(r) == multiset(xs) + multiset{x}
    decreases |xs|
  {
    if |xs| == 0 then [x]
    else if xs[0].idx <= x.idx then
      assert xs == [xs[0]] + xs[1..];
      [xs[0]] + InsertByIdx(xs[1..], x)
    else [x] + xs
  }

  /** `sorted(xs, key=lambda e: e.idx)`. */
  function SortByIdx(xs: seq<Scored>): (r: seq<Scored>)
    ensures |r| == |xs|
    ensures multiset(r) == multiset(xs)
    decreases |xs|
  {
    if |xs| == 0 then []
    else
      assert xs == xs[..|xs| - 1] + [xs[|xs| - 1]];
      InsertByIdx(SortByIdx(xs[..|xs| - 1]), xs[|xs| - 1])
  }

  /** Inserting an entry with a larger index than all others keeps the list ranked. */
  lemma {:induction false} InsertByScoreRanked(xs: seq<Scored>, x: Scored)
    requires Ranked(xs)
    requires forall e :: e in xs ==> e.idx < x.idx
    ensures Ranked(InsertByScore(xs, x))
    decreases |xs|
  {
    if |xs| > 0 && xs[0].score >= x.score {
      var tail := InsertByScore(xs[1..], x);
      InsertByScoreRanked(xs[1..], x);
      forall e | e in tail ensures Outranks(xs[0], e) {
        assert e in multiset(tail);
        if e != x {
          assert e in xs[1..];
          var q :| 0 <= q < |xs[1..]| && xs[1..][q] == e;
          assert xs[q + 1] == e;
        }
      }
      ConsRanked(xs[0], tail);
    }
  }

  /** A ranked list stays ranked with a head placed before all of its entries. */
  lemma ConsRanked(h: Scored, tail: seq<Scored>)
    requires Ranked(tail)
    requires forall e :: e in tail ==> Outranks(h, e)
    ensures Ranked([h] + tail)
  {
    var r := [h] + tail;
    forall p, q | 0 <= p < q < |r| ensures Outranks(r[p], r[q]) {
      assert r[q] == tail[q - 1];
      if p > 0 { assert r[p] == tail[p - 1]; }
    }
  }

  /** A stable descending sort of an index-ordered list ranks it. */
  lemma {:induction false} SortByScoreRanked(xs: seq<Scored>)
    requires IncreasingIdx(xs)
    ensures Ranked(SortByScore(xs))
    decreases |xs|
  {
    if |xs| > 0 {
      var init, last := xs[..|xs| - 1], xs[|xs| - 1];
      SortByScoreRanked(init);
      var sorted := SortByScore(init);
      forall e | e in sorted ensures e.idx < last.idx {
        assert e in multiset(sorted);
        var p :| 0 <= p < |init| && init[p] == e;
      }
      InsertByScoreRanked(sorted, last);
    }
  }

  /** Inserting an entry with a fresh index keeps indices increasing. */
  lemma {:induction false} InsertByIdxIncreasing(xs: seq<Scored>, x: Scored)
    requires IncreasingIdx(xs)
    requires forall e :: e in xs ==> e.idx != x.idx
    ensures IncreasingIdx(InsertByIdx(xs, x))
    decreases |xs|
  {
    if |xs| > 0 && xs[0].idx <= x.idx {
      InsertByIdxIncreasing(xs[1..], x);
      InsertByIdxBehind(xs, x);
    } else if |xs| > 0 {
      InsertByIdxInFront(xs, x);
    }
  }

  /** A list with increasing indices stays so with a head placed before all of its entries. */
  lemma ConsIncreasing(h: Scored, tail: seq<Scored>)
    requires IncreasingIdx(tail)
    requires forall t :: 0 <= t < |tail| ==> IdxBefore(h, tail[t])
    ensures IncreasingIdx([h] + tail)
  {
    var r := [h] + tail;
    forall p, q | 0 <= p < q < |r| ensures IdxBefore(r[p], r[q]) {
      assert r[q] == tail[q - 1];
      if p > 0 { assert r[p] == tail[p - 1]; }
    }
  }

  /** Every entry of `InsertByIdx(xs[1..], x)` comes from `xs[1..]` or is `x`, so it lies behind `xs[0]`. */
  lemma HeadBeforeInsert(xs: seq<Scored>, x: Scored)
    requires IncreasingIdx(xs) && |xs| > 0 && xs[0].idx < x.idx
    ensures forall t :: 0 <= t < |xs| ==> IdxBefore(xs[0], InsertByIdx(xs[1..], x)[t])
  {
    var tail := InsertByIdx(xs[1..], x);
    forall t | 0 <= t < |tail| ensures IdxBefore(xs[0], tail[t]) {
      var e := tail[t];
      assert e in multiset(xs[1..]) + multiset{x};
      if e != x {
        var q :| 0 <= q < |xs[1..]| && xs[1..][q] == e;
        assert xs[q + 1] == e;
      }
    }
  }

  /** The step case of InsertByIdxIncreasing: `x` goes behind the head. */
  lemma InsertByIdxBehind(xs: seq<Scored>, x: Scored)
    requires IncreasingIdx(xs) && |xs| > 0 && xs[0].idx <= x.idx
    requires forall e :: e in xs ==> e.idx != x.idx
    requires IncreasingIdx(InsertByIdx(xs[1..], x))
    ensures IncreasingIdx(InsertByIdx(xs, x))
  {
    assert xs[0].idx != x.idx by { assert xs[0] in xs; }
    var tail := InsertByIdx(xs[1..], x);
    assert InsertByIdx(xs, x) == [xs[0]] + tail;
    HeadBeforeInsert(xs, x);
    ConsIncreasing(xs[0], tail);
  }

  /** The base case of InsertByIdxIncreasing: `x` goes in front. */
  lemma InsertByIdxInFront(xs: seq<Scored>, x: Scored)
    requires IncreasingIdx(xs) && |xs| > 0 && x.idx < xs[0].idx
    ensures IncreasingIdx([x] + xs)
  {
    forall t | 0 <= t < |xs| ensures IdxBefore(x, xs[t]) {
      assert t == 0 || IdxBefore(xs[0], xs[t]);
    }
    ConsIncreasing(x, xs);
  }

  /** Sorting by index a list without repeated indices makes indices strictly increase. */
  lemma {:induction false} SortByIdxIncreasing(xs: seq<Scored>)
    requires DistinctIdx(xs)
    ensures IncreasingIdx(SortByIdx(xs))
    decreases |xs|
  {
    if |xs| > 0 {
      var init, last := xs[..|xs| - 1], xs[|xs| - 1];
      SortByIdxIncreasing(init);
      var sorted := SortByIdx(init);
      forall e | e in sorted ensures e.idx != last.idx {
        assert e in multiset(sorted);
        var p :| 0 <= p < |init| && init[p] == e;
      }
      InsertByIdxIncreasing(sorted, last);
    }
  }

  /** In an index-ordered list an entry is determined by its index. */
  lemma IndexedMember(xs: seq<Scored>, e: Scored)
    requires Indexed(xs) && e in xs
    ensures e.idx < |xs| && xs[e.idx] == e
  {
    var p :| 0 <= p < |xs| && xs[p] == e;
  }

  /** `top`: the first `k` entries of the descending sort (all of them when `k` exceeds the length). */
  function Top(xs: seq<Scored>, k: nat): (top: seq<Scored>)
    ensures |top| == Min(k, |xs|)
  {
    SortByScore(xs)[..Min(k, |xs|)]
  }

  /** `sorted(top, key=idx)`: the selected entries, in document order. */
  function Emitted(xs: seq<Scored>, k: nat): (e: seq<Scored>)
    ensures |e| == Min(k, |xs|)
  {
    SortByIdx(Top(xs, k))
  }

  /** The indices of the selected sentences, in the order they are emitted. */
  function SelectedIndices(xs: seq<Scored>, k: nat): (sel: seq<nat>)
    ensures |sel| == Min(k, |xs|)
  {
    var e := Emitted(xs, k);
    seq(|e|, j requires 0 <= j < |e| => e[j].idx)
  }

  /** Every entry of the descending sort is the entry of `xs` at its own index. */
  lemma SortedEntriesAreOriginal(xs: seq<Scored>)
    requires Indexed(xs)
    ensures forall p :: 0 <= p < |xs| ==>
      SortByScore(xs)[p].idx < |xs| && xs[SortByScore(xs)[p].idx] == SortByScore(xs)[p]
  {
    var s := SortByScore(xs);
    forall p | 0 <= p < |s| ensures s[p].idx < |xs| && xs[s[p].idx] == s[p] {
      assert s[p] in multiset(s);
      IndexedMember(xs, s[p]);
    }
  }

  /** The top entries carry distinct indices. */
  lemma TopDistinct(xs: seq<Scored>, k: nat)
    requires Indexed(xs)
    ensures DistinctIdx(Top(xs, k))
  {
    var s := SortByScore(xs);
    var top := Top(xs, k);
    SortByScoreRanked(xs);
    SortedEntriesAreOriginal(xs);
    forall p, q | 0 <= p < q < |top| ensures top[p].idx != top[q].idx {
      assert top[p] == s[p] && top[q] == s[q];
      assert Outranks(s[p], s[q]);
    }
  }

  /** Entry `j` of `a` sits at some position of any permutation `b` of `a`. */
  lemma PermutedEntry(a: seq<Scored>, b: seq<Scored>, j: nat) returns (p: nat)
    requires multiset(a) == multiset(b) && j < |a|
    ensures p < |b| && b[p] == a[j]
  {
    assert a[j] in multiset(a);
    assert a[j] in b;
    p :| p < |b| && b[p] == a[j];
  }

  /** Each emitted entry sits among the first `min(k, n)` places of the descending sort. */
  lemma EmittedFromTop(xs: seq<Scored>, k: nat, j: nat)
    requires j < |Emitted(xs, k)|
    ensures exists p :: 0 <= p < Min(k, |xs|) && SortByScore(xs)[p] == Emitted(xs, k)[j]
  {
    var s := SortByScore(xs);
    var top := Top(xs, k);
    var p := PermutedEntry(SortByIdx(top), top, j);
    assert top[p] == s[p];
  }

  /** An entry placed among the first `min(k, n)` of the descending sort is emitted. */
  lemma TopIsEmitted(xs: seq<Scored>, k: nat, q: nat)
    requires q < Min(k, |xs|)
    ensures exists r :: 0 <= r < |Emitted(xs, k)| && Emitted(xs, k)[r] == SortByScore(xs)[q]
  {
    var s := SortByScore(xs);
    var top := Top(xs, k);
    var e := SortByIdx(top);
    assert top[q] == s[q];
    assert top[q] in multiset(top);
    assert top[q] in e;
    var r :| 0 <= r < |e| && e[r] == top[q];
    assert Emitted(xs, k)[r] == s[q];
  }

  /** Emitted entries are entries of `xs`, at their own index. */
  lemma EmittedAreOriginal(xs: seq<Scored>, k: nat)
    requires Indexed(xs)
    ensures forall j :: 0 <= j < |Emitted(xs, k)| ==>
      Emitted(xs, k)[j].idx < |xs| && xs[Emitted(xs, k)[j].idx] == Emitted(xs, k)[j]
  {
    var e := Emitted(xs, k);
    SortedEntriesAreOriginal(xs);
    forall j | 0 <= j < |e| ensures e[j].idx < |xs| && xs[e[j].idx] == e[j] {
      EmittedFromTop(xs, k, j);
    }
  }

  /** Emitted entries come in strictly increasing index order. */
  lemma EmittedIncreasing(xs: seq<Scored>, k: nat)
    requires Indexed(xs)
    ensures IncreasingIdx(Emitted(xs, k))
  {
    TopDistinct(xs, k);
    SortByIdxIncreasing(Top(xs, k));
  }

  /** An emitted entry outranks every entry of `xs` that is not emitted. */
  lemma EmittedOutranks(xs: seq<Scored>, k: nat, j: nat, i: nat)
    requires Indexed(xs)
    requires j < |Emitted(xs, k)| && i < |xs|
    requires forall r :: 0 <= r < |Emitted(xs, k)| ==> Emitted(xs, k)[r].idx != i
    ensures Outranks(Emitted(xs, k)[j], xs[i])
  {
    var s := SortByScore(xs);
    var m := Min(k, |xs|);
    var e := Emitted(xs, k);
    SortByScoreRanked(xs);
    assert xs[i] in multiset(s);
    var q :| 0 <= q < |s| && s[q] == xs[i];
    if q < m {
      TopIsEmitted(xs, k, q);
      assert false;
    }
    EmittedFromTop(xs, k, j);
    var p :| 0 <= p < m && s[p] == e[j];
    assert Outranks(s[p], s[q]);
  }

  /** The emitted entries are `min(k, n)` entries of the list, in ascending index order. */
  lemma SelectionShape(xs: seq<Scored>, k: nat)
    requires Indexed(xs)
    ensures |SelectedIndices(xs, k)| == Min(k, |xs|)
    ensures forall j :: 0 <= j < |SelectedIndices(xs, k)| ==>
      SelectedIndices(xs, k)[j] < |xs| && Emitted(xs, k)[j] == xs[SelectedIndices(xs, k)[j]]
    ensures forall j1, j2 :: 0 <= j1 < j2 < |SelectedIndices(xs, k)| ==>
      SelectedIndices(xs, k)[j1] < SelectedIndices(xs, k)[j2]
  {
    var e := Emitted(xs, k);
    var sel := SelectedIndices(xs, k);
    assert forall j :: 0 <= j < |sel| ==> sel[j] == e[j].idx;
    EmittedAreOriginal(xs, k);
    EmittedIncreasing(xs, k);
    forall j1, j2 | 0 <= j1 < j2 < |sel| ensures sel[j1] < sel[j2] {
      assert IdxBefore(e[j1], e[j2]);
    }
  }

  /**
   * Top-k selection: exactly `min(k, n)` distinct entries are emitted, in
   * ascending index order; each emitted entry scores at least as much as
   * every entry left out, and on equal scores the earlier index is the one kept.
   */
  lemma SelectionProperties(xs: seq<Scored>, k: nat)
    requires Indexed(xs)
    ensures var e, sel := Emitted(xs, k), SelectedIndices(xs, k);
      && |sel| == Min(k, |xs|)
      && (forall j :: 0 <= j < |sel| ==> sel[j] < |xs| && e[j] == xs[sel[j]])
      && (forall j1, j2 :: 0 <= j1 < j2 < |sel| ==> sel[j1] < sel[j2])
      && (forall j, i :: 0 <= j < |sel| && 0 <= i < |xs| && i !in sel ==>
            xs[sel[j]].score >= xs[i].score && (xs[sel[j]].score == xs[i].score ==> sel[j] < i))
  {
    var e := Emitted(xs, k);
    var sel := SelectedIndices(xs, k);
    SelectionShape(xs, k);
    forall j, i | 0 <= j < |sel| && 0 <= i < |xs| && i !in sel
      ensures xs[sel[j]].score >= xs[i].score && (xs[sel[j]].score == xs[i].score ==> sel[j] < i)
    {
      forall r | 0 <= r < |e| ensures e[r].idx != i { assert sel[r] == e[r].idx; }
      EmittedOutranks(xs, k, j, i);
    }
  }

  /** When the document is not longer than `k`, every sentence is emitted, in order. */
  lemma AllSelectedWhenFew(xs: seq<Scored>, k: nat)
    requires Indexed(xs) && |xs| <= k
    ensures SelectedIndices(xs, k) == seq(|xs|, i => i)
    ensures Emitted(xs, k) == xs
  {
    var sel := SelectedIndices(xs, k);
    SelectionShape(xs, k);
    IncreasingFill(sel, |xs|);
    var e := Emitted(xs, k);
    assert forall j :: 0 <= j < |e| ==> e[j] == xs[j];
  }

  /** `n` strictly increasing numbers below `n` are `0, 1, ..., n - 1`. */
  lemma {:induction false} IncreasingFill(sel: seq<nat>, n: nat)
    requires |sel| == n
    requires forall j :: 0 <= j < n ==> sel[j] < n
    requires forall j1, j2 :: 0 <= j1 < j2 < n ==> sel[j1] < sel[j2]
    ensures forall j :: 0 <= j < n ==> sel[j] == j
    decreases n
  {
    if n > 0 {
      var init := sel[..n - 1];
      forall j | 0 <= j < n - 1 ensures init[j] < n - 1 {
        assert sel[j] < sel[n - 1];
      }
      IncreasingFill(init, n - 1);
      if n > 1 { assert sel[n - 2] == init[n - 2]; }
    }
  }
}

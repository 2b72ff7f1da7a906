/** Top-k selection over one row of similarity scores, as main.py line 38
    does it: `similarity.argsort()[0][-k:][::-1]`, for k >= 1 (Python reads
    `-0` as `0`, so `[-0:]` would keep everything). numpy's argsort is
    described only by what it promises (a permutation of the row indices in
    ascending score order); the order it gives to equal scores is not
    specified, so nothing below depends on it. */
module Ranking {

  /** How many recommendations a query gets (the `-5` in `[-5:]`). */
  const TopK: nat := 5

  function Min(a: int, b: int): int { if a <= b then a else b }

  predicate Distinct(s: seq<nat>) { forall i, j :: 0 <= i < j < |s| ==> s[i] != s[j] }

  /** `order` lists each index 0 .. |scores|-1 exactly once, by non-decreasing score. */
  predicate IsArgsort(scores: seq<real>, order: seq<nat>)
  {
    && |order| == |scores|
    && (forall i :: 0 <= i < |order| ==> order[i] < |scores|)
    && Distinct(order)
    && (forall i, j :: 0 <= i < j < |order| ==> scores[order[i]] <= scores[order[j]])
  }

  /** `top` is a correct answer to "the k best-scoring rows, best first":
      min(k, n) distinct row indices, scores non-increasing along the list, and
      no row left out scores above any row chosen. Any order among equal
      scores is allowed. */
  predicate IsTopK(scores: seq<real>, k: nat, top: seq<nat>)
  {
    && |top| == Min(k, |scores|)
    && (forall i :: 0 <= i < |top| ==> top[i] < |scores|)
    && Distinct(top)
    && (forall i, j :: 0 <= i < j < |top| ==> scores[top[i]] >= scores[top[j]])
    && (forall x, i :: 0 <= x < |scores| && x !in top && 0 <= i < |top| ==> scores[x] <= scores[top[i]])
  }

  function Reverse(s: seq<nat>): (r: seq<nat>)
    ensures |r| == |s|
    ensures forall i :: 0 <= i < |s| ==> r[i] == s[|s| - 1 - i]
  {
    if s == [] then [] else Reverse(s[1..]) + [s[0]]
  }

  /** `order[-k:][::-1]` for k >= 1: the last (at most) k entries, last one first. */
  function TakeTop(order: seq<nat>, k: nat): (top: seq<nat>)
    requires k > 0
    ensures |top| == Min(k, |order|)
  {
    Reverse(order[|order| - Min(k, |order|)..])
  }

  /** A distinct sequence whose elements all occur in `t` is no longer than `t`. */
  lemma {:induction false} DistinctFits(s: seq<nat>, t: seq<nat>)
    requires Distinct(s)
    requires forall x :: x in s ==> x in t
    ensures |s| <= |t|
  {
    if s != [] {
      assert s[0] in s;
      var k :| 0 <= k < |t| && t[k] == s[0];
      var t' := t[..k] + t[k + 1..];
      forall x | x in s[1..] ensures x in t' {
        assert x in s;
        var m :| 0 <= m < |t| && t[m] == x;
        assert x != s[0];
        if m < k {
          assert t'[m] == x;
        } else {
          assert t'[m - 1] == x;
        }
      }
      DistinctFits(s[1..], t');
    }
  }

  /** Every row index appears somewhere in an argsort. */
  lemma ArgsortCovers(scores: seq<real>, order: seq<nat>, x: nat)
    requires IsArgsort(scores, order)
    requires x < |scores|
    ensures x in order
  {
    if x !in order {
      var n := |scores|;
      var others := seq(n - 1, i requires 0 <= i < n - 1 => if i < x then i else i + 1);
      forall y | y in order ensures y in others {
        if y < x {
          assert others[y] == y;
        } else {
          assert others[y - 1] == y;
        }
      }
      DistinctFits(order, others);
    }
  }

  /** The entries at positions n-k .. n-1 of `order` are exactly the ones `TakeTop` keeps. */
  lemma TakeTopKeeps(order: seq<nat>, k: nat, p: nat)
    requires k > 0
    requires p < |order|
    ensures |TakeTop(order, k)| == Min(k, |order|)
    ensures |order| - Min(k, |order|) <= p ==> order[p] in TakeTop(order, k)
  {
    var n, m := |order|, Min(k, |order|);
    if n - m <= p {
      assert TakeTop(order, k)[n - 1 - p] == order[p];
    }
  }

  /** A row that an argsort places below the last k entries scores no higher
      than any of them. */
  lemma LeftOutScoresLower(scores: seq<real>, order: seq<nat>, k: nat, x: nat, i: nat)
    requires k > 0
    requires IsArgsort(scores, order)
    requires x < |scores| && x !in TakeTop(order, k) && i < Min(k, |order|)
    ensures scores[x] <= scores[TakeTop(order, k)[i]]
  {
    var n, m := |order|, Min(k, |order|);
    ArgsortCovers(scores, order, x);
    var p :| 0 <= p < n && order[p] == x;
    TakeTopKeeps(order, k, p);
    assert p < n - 1 - i;
    assert TakeTop(order, k)[i] == order[n - 1 - i];
  }

  lemma TakeTopDescends(scores: seq<real>, order: seq<nat>, k: nat)
    requires k > 0
    requires IsArgsort(scores, order)
    ensures var top := TakeTop(order, k);
      && |top| == Min(k, |scores|)
      && (forall i :: 0 <= i < |top| ==> top[i] < |scores|)
      && Distinct(top)
      && (forall i, j :: 0 <= i < j < |top| ==> scores[top[i]] >= scores[top[j]])
  {
    var n, top := |order|, TakeTop(order, k);
    forall i | 0 <= i < |top| ensures top[i] < |scores| {
      TakeTopAt(order, k, i);
    }
    forall i, j | 0 <= i < j < |top| ensures top[i] != top[j] && scores[top[i]] >= scores[top[j]] {
      TakeTopAt(order, k, i);
      TakeTopAt(order, k, j);
    }
  }

  /** Entry i of `order[-k:][::-1]` is entry i from the end of `order`. */
  lemma TakeTopAt(order: seq<nat>, k: nat, i: nat)
    requires k > 0
    requires i < Min(k, |order|)
    ensures TakeTop(order, k)[i] == order[|order| - 1 - i]
  {
  }

  /** The last k entries of any argsort, reversed, are a correct top-k answer. */
  lemma TakeTopOfArgsort(scores: seq<real>, order: seq<nat>, k: nat)
    requires k > 0
    requires IsArgsort(scores, order)
    ensures IsTopK(scores, k, TakeTop(order, k))
  {
    var top := TakeTop(order, k);
    TakeTopDescends(scores, order, k);
    forall x, i | 0 <= x < |scores| && x !in top && 0 <= i < |top| ensures scores[x] <= scores[top[i]] {
      LeftOutScoresLower(scores, order, k, x, i);
    }
  }

  lemma ScoreNotAbove(scores: seq<real>, k: nat, a: seq<nat>, b: seq<nat>, i: nat)
    requires IsTopK(scores, k, a) && IsTopK(scores, k, b)
    requires i < |a|
    ensures scores[a[i]] <= scores[b[i]]
  {
    if scores[a[i]] > scores[b[i]] {
      // a[0..i] holds i+1 distinct rows that all beat b[i]; each must be among
      // b[0..i-1], which has only i places.
      forall x | x in a[..i + 1] ensures x in b[..i] {
        var j :| 0 <= j <= i && a[j] == x;
        assert scores[x] > scores[b[i]];
        if x !in b {
          assert false;
        }
        var p :| 0 <= p < |b| && b[p] == x;
        if p >= i {
          assert false;
        }
      }
      DistinctFits(a[..i + 1], b[..i]);
      assert false;
    }
  }

  /** Two correct top-k answers carry the same score position by position:
      they differ only in which of the rows with equal scores sit at each
      position, including which tied rows make the cut. */
  lemma TopKScoresAgree(scores: seq<real>, k: nat, a: seq<nat>, b: seq<nat>)
    requires IsTopK(scores, k, a) && IsTopK(scores, k, b)
    ensures |a| == |b|
    ensures forall i :: 0 <= i < |a| ==> scores[a[i]] == scores[b[i]]
  {
    forall i | 0 <= i < |a| ensures scores[a[i]] == scores[b[i]] {
      ScoreNotAbove(scores, k, a, b, i);
      ScoreNotAbove(scores, k, b, a, i);
    }
  }

  /** Without ties there is exactly one correct top-k answer. */
  lemma TopKUniqueWithoutTies(scores: seq<real>, k: nat, a: seq<nat>, b: seq<nat>)
    requires forall x, y :: 0 <= x < |scores| && 0 <= y < |scores| && x != y ==> scores[x] != scores[y]
    requires IsTopK(scores, k, a) && IsTopK(scores, k, b)
    ensures a == b
  {
    TopKScoresAgree(scores, k, a, b);
    forall i | 0 <= i < |a| ensures a[i] == b[i] {
      assert a[i] < |scores| && b[i] < |scores|;
    }
  }

  /** Places `x` after every entry whose score is not above its own. */
  function Insert(scores: seq<real>, sorted: seq<nat>, x: nat): (r: seq<nat>)
    requires x < |scores| && forall i :: 0 <= i < |sorted| ==> sorted[i] < |scores|
    ensures |r| == |sorted| + 1
    ensures forall y :: y in r <==> y == x || y in sorted
    ensures forall i :: 0 <= i < |r| ==> r[i] < |scores|
  {
    if sorted == [] then [x]
    else if scores[x] < scores[sorted[0]] then [x] + sorted
    else [sorted[0]] + Insert(scores, sorted[1..], x)
  }

  predicate Ascending(scores: seq<real>, s: seq<nat>)
    requires forall i :: 0 <= i < |s| ==> s[i] < |scores|
  {
    forall i, j :: 0 <= i < j < |s| ==> scores[s[i]] <= scores[s[j]]
  }

  lemma ConsKeepsOrder(scores: seq<real>, head: nat, rest: seq<nat>)
    requires head < |scores| && forall i :: 0 <= i < |rest| ==> rest[i] < |scores|
    requires Ascending(scores, rest) && Distinct(rest)
    requires forall y :: y in rest ==> scores[head] <= scores[y] && y != head
    ensures Ascending(scores, [head] + rest) && Distinct([head] + rest)
  {
    var r := [head] + rest;
    forall i, j | 0 <= i < j < |r| ensures scores[r[i]] <= scores[r[j]] && r[i] != r[j] {
      assert r[j] == rest[j - 1];
      if i > 0 {
        assert r[i] == rest[i - 1];
      } else {
        assert r[j] in rest;
      }
    }
  }

  lemma {:induction false} InsertKeepsOrder(scores: seq<real>, sorted: seq<nat>, x: nat)
    requires x < |scores| && forall i :: 0 <= i < |sorted| ==> sorted[i] < |scores|
    requires Ascending(scores, sorted) && Distinct(sorted) && x !in sorted
    ensures Ascending(scores, Insert(scores, sorted, x)) && Distinct(Insert(scores, sorted, x))
  {
    if sorted == [] {
    } else if scores[x] < scores[sorted[0]] {
      ConsKeepsOrder(scores, x, sorted);
    } else {
      var head, tail := sorted[0], sorted[1..];
      var rest := Insert(scores, tail, x);
      InsertKeepsOrder(scores, tail, x);
      forall y | y in rest ensures scores[head] <= scores[y] && y != head {
        if y != x {
          var p :| 0 <= p < |tail| && tail[p] == y;
          assert sorted[p + 1] == y;
        }
      }
      ConsKeepsOrder(scores, head, rest);
    }
  }

  /** Insertion sort of the indices 0 .. n-1 by score. */
  function ArgSortPrefix(scores: seq<real>, n: nat): (order: seq<nat>)
    requires n <= |scores|
    ensures |order| == n
    ensures forall i :: 0 <= i < n ==> order[i] < n
    ensures Distinct(order) && Ascending(scores, order)
  {
    if n == 0 then []
    else
      var prev := ArgSortPrefix(scores, n - 1);
      InsertKeepsOrder(scores, prev, n - 1);
      var order := Insert(scores, prev, n - 1);
      assert forall i :: 0 <= i < n ==> order[i] in order;
      order
  }

  /** One argsort that meets numpy's promise: a stable insertion sort. It
      shows the promise can be met; the model never assumes numpy's tie order
      is this one. */
  function ArgSort(scores: seq<real>): (order: seq<nat>)
    ensures IsArgsort(scores, order)
  {
    ArgSortPrefix(scores, |scores|)
  }
}

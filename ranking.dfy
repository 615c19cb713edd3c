/** Ranking of per-feature contributions through an argsort, as the
    explanation handler does with `np.argsort(v)[-top_n:][::-1]` and
    `np.argsort(v)[:top_n]`.

    numpy's default argsort is not stable, so the order it gives equal values
    is not defined. The model therefore takes argsort as any function that
    returns, for every vector, a permutation of its indices listing the values
    in non-decreasing order; every property below holds for each such
    function. */
module Ranking {
  import opened PySlice

  /** No index is listed twice. */
  ghost predicate Distinct(o: seq<nat>)
  {
    forall p, q :: 0 <= p < q < |o| ==> o[p] != o[q]
  }

  /** Every listed index is a position of a sequence of length `n`. */
  ghost predicate InRange(o: seq<nat>, n: nat)
  {
    forall p :: 0 <= p < |o| ==> o[p] < n
  }

  /** The listed indices of `v` have non-decreasing values. */
  ghost predicate SortedBy(v: seq<real>, o: seq<nat>)
  {
    InRange(o, |v|) && forall p, q :: 0 <= p <= q < |o| ==> v[o[p]] <= v[o[q]]
  }

  /** `order` is a possible result of `np.argsort(v)`: each index of `v`
      exactly once, by non-decreasing value, ties in any order. */
  ghost predicate IsArgsort(v: seq<real>, order: seq<nat>)
  {
    && |order| == |v|
    && (forall j :: 0 <= j < |v| ==> j in order)
    && Distinct(order)
    && SortedBy(v, order)
  }

  /** `argsort` behaves as `np.argsort` on every input. */
  ghost predicate IsArgsortFunction(argsort: seq<real> -> seq<nat>)
  {
    forall v :: IsArgsort(v, argsort(v))
  }

  /** The indices of the largest values, largest first:
      `order[-topN:][::-1]`. With `topN == 0` this is the whole order,
      because `-0` is `0`. */
  function TopPositive(order: seq<nat>, topN: int): (r: seq<nat>)
    ensures 1 <= topN ==> |r| == Min(topN, |order|)
    ensures topN == 0 ==> r == Reversed(order)
    ensures topN < 0 ==> |r| == Max(0, |order| + topN)
    ensures forall a :: 0 <= a < |r| ==> r[a] == order[|order| - 1 - a]
  {
    Reversed(From(order, -topN))
  }

  /** The indices of the smallest values, smallest first: `order[:topN]`. */
  function TopNegative(order: seq<nat>, topN: int): (r: seq<nat>)
    ensures 1 <= topN ==> |r| == Min(topN, |order|)
    ensures topN == 0 ==> r == []
    ensures topN < 0 ==> |r| == Max(0, |order| + topN)
    ensures forall a :: 0 <= a < |r| ==> r[a] == order[a]
  {
    To(order, topN)
  }

  /** The positive selection names distinct columns, largest contribution
      first, and no unselected feature has a larger contribution than a
      selected one. */
  lemma PositiveSelection(v: seq<real>, order: seq<nat>, topN: int)
    requires IsArgsort(v, order)
    ensures var pos := TopPositive(order, topN);
      && InRange(pos, |v|)
      && Distinct(pos)
      && (forall a, b :: 0 <= a <= b < |pos| ==> v[pos[a]] >= v[pos[b]])
      && (forall i, j :: i in pos && 0 <= j < |v| && j !in pos ==> v[i] >= v[j])
  {
    var pos := TopPositive(order, topN);
    var n := |order|;
    assert forall p :: n - |pos| <= p < n ==> order[p] in pos by {
      forall p | n - |pos| <= p < n ensures order[p] in pos {
        assert pos[n - 1 - p] == order[p];
      }
    }
    forall i, j | i in pos && 0 <= j < |v| && j !in pos ensures v[i] >= v[j] {
      var a :| 0 <= a < |pos| && pos[a] == i;
      assert j in order;
      var q :| 0 <= q < n && order[q] == j;
    }
  }

  /** The negative selection names distinct columns, smallest contribution
      first, and no unselected feature has a smaller contribution than a
      selected one. */
  lemma NegativeSelection(v: seq<real>, order: seq<nat>, topN: int)
    requires IsArgsort(v, order)
    ensures var neg := TopNegative(order, topN);
      && InRange(neg, |v|)
      && Distinct(neg)
      && (forall a, b :: 0 <= a <= b < |neg| ==> v[neg[a]] <= v[neg[b]])
      && (forall i, j :: i in neg && 0 <= j < |v| && j !in neg ==> v[i] <= v[j])
  {
    var neg := TopNegative(order, topN);
    forall i, j | i in neg && 0 <= j < |v| && j !in neg ensures v[i] <= v[j] {
      var a :| 0 <= a < |neg| && neg[a] == i;
      assert j in order;
      var q :| 0 <= q < |order| && order[q] == j;
      assert |neg| <= q;
    }
  }

  /** For a positive `topN` the two selections share a feature exactly when
      together they ask for more features than there are. */
  lemma SelectionsOverlap(v: seq<real>, order: seq<nat>, topN: int)
    requires IsArgsort(v, order)
    requires 1 <= topN
    ensures (exists i :: i in TopPositive(order, topN) && i in TopNegative(order, topN))
            <==> 2 * Min(topN, |v|) > |v|
  {
    var pos, neg := TopPositive(order, topN), TopNegative(order, topN);
    var n, m := |v|, Min(topN, |v|);
    if 2 * m > n {
      var i := order[n - m];
      assert pos[m - 1] == i == neg[n - m];
      assert i in pos && i in neg;
    } else {
      forall i | i in pos ensures i !in neg {
        var a :| 0 <= a < |pos| && pos[a] == i;
        assert i == order[n - 1 - a];
      }
    }
  }

  /** Inserts index `k` into `o` after every index whose value is at most
      `v[k]`: one step of an insertion sort on indices. */
  function Insert(v: seq<real>, o: seq<nat>, k: nat): (r: seq<nat>)
    requires k < |v|
    requires InRange(o, |v|)
    ensures |r| == |o| + 1
    ensures forall x :: x in r <==> x in o || x == k
  {
    if o == [] then [k]
    else if v[k] < v[o[0]] then [k] + o
    else
      assert forall x :: x in o[1..] ==> x in o;
      [o[0]] + Insert(v, o[1..], k)
  }

  /** Dropping the first index keeps a list sorted and distinct. */
  lemma TailPreserves(v: seq<real>, o: seq<nat>)
    requires |o| > 0
    ensures SortedBy(v, o) ==> SortedBy(v, o[1..])
    ensures Distinct(o) ==> Distinct(o[1..]) && o[0] !in o[1..]
  {
  }

  /** Insertion keeps the indices sorted by value. */
  lemma {:induction false} InsertSorted(v: seq<real>, o: seq<nat>, k: nat)
    requires k < |v| && SortedBy(v, o)
    ensures SortedBy(v, Insert(v, o, k))
  {
    if o != [] && v[o[0]] <= v[k] {
      var tail := o[1..];
      TailPreserves(v, o);
      InsertSorted(v, tail, k);
      var rest := Insert(v, tail, k);
      forall q | 0 <= q < |rest| ensures v[o[0]] <= v[rest[q]] {
        assert rest[q] in rest;
        if rest[q] != k {
          var p :| 0 <= p < |tail| && tail[p] == rest[q];
          assert o[p + 1] == rest[q];
        }
      }
    }
  }

  /** Insertion of a new index keeps the indices distinct. */
  lemma {:induction false} InsertDistinct(v: seq<real>, o: seq<nat>, k: nat)
    requires k < |v| && InRange(o, |v|) && Distinct(o) && k !in o
    ensures Distinct(Insert(v, o, k))
  {
    if o != [] && v[o[0]] <= v[k] {
      TailPreserves(v, o);
      InsertDistinct(v, o[1..], k);
    }
  }

  /** An argsort of the first `m` values of `v`, built by inserting the
      indices one at a time. */
  function ArgsortPrefix(v: seq<real>, m: nat): (r: seq<nat>)
    requires m <= |v|
    ensures |r| == m
    ensures InRange(r, m)
    ensures forall j :: 0 <= j < m ==> j in r
    ensures Distinct(r)
    ensures SortedBy(v, r)
  {
    if m == 0 then []
    else
      var prefix := ArgsortPrefix(v, m - 1);
      assert m - 1 !in prefix;
      InsertSorted(v, prefix, m - 1);
      InsertDistinct(v, prefix, m - 1);
      var r := Insert(v, prefix, m - 1);
      assert InRange(r, m) by {
        forall p | 0 <= p < |r| ensures r[p] < m {
          assert r[p] in r;
        }
      }
      assert forall j :: 0 <= j < m ==> j in r by {
        forall j | 0 <= j < m ensures j in r {
          assert j < m - 1 ==> j in prefix;
        }
      }
      r
  }

  /** One admissible argsort (it happens to keep equal values in index
      order). It shows that `IsArgsortFunction` can be met, so the
      explanation handler's model is callable for every input. */
  function InsertionArgsort(v: seq<real>): (r: seq<nat>)
    ensures IsArgsort(v, r)
  {
    ArgsortPrefix(v, |v|)
  }

  lemma InsertionArgsortIsArgsort()
    ensures IsArgsortFunction(InsertionArgsort)
  {
  }
}

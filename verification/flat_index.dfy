/**
 The vector index: a flat, exact nearest-neighbour structure over fixed-size
 embedding vectors, compared by squared Euclidean distance (the distance an
 `IndexFlatL2` reports).

 The store treats the index's search as a black box whose answer satisfies
 `IsKNearest`; `FlatSearch` is a plain exact search that meets that contract,
 which shows the contract can always be met.
 */
module FlatIndex {

  /** Length of every embedding (all-MiniLM-L6-v2 produces 384 numbers). */
  const DIMENSION: nat := 384

  type Vector = seq<real>

  /** A vector of the index's dimension. */
  type Embedding = v: seq<real> | |v| == DIMENSION witness seq(DIMENSION, _ => 0.0)

  /** Squared Euclidean distance. */
  function SqDist(a: Vector, b: Vector): (d: real)
    requires |a| == |b|
    ensures d >= 0.0
    decreases |a|
  {
    if |a| == 0 then 0.0
    else (a[0] - b[0]) * (a[0] - b[0]) + SqDist(a[1..], b[1..])
  }

  /** Every vector is at distance zero from itself. */
  lemma {:induction false} SqDistSelf(v: Vector)
    ensures SqDist(v, v) == 0.0
    decreases |v|
  {
    if |v| > 0 {
      SqDistSelf(v[1..]);
    }
  }

  /** One answer row of a search: a distance and the position it belongs to. */
  datatype Neighbor = Neighbor(dist: real, pos: nat)

  predicate SameDimension(index: seq<Vector>, q: Vector) {
    forall p :: 0 <= p < |index| ==> |index[p]| == |q|
  }

  function Positions(c: seq<Neighbor>): (ps: seq<nat>)
    ensures |ps| == |c|
    ensures forall j :: 0 <= j < |c| ==> ps[j] == c[j].pos
  {
    seq(|c|, j requires 0 <= j < |c| => c[j].pos)
  }

  /** What a search for the `k` nearest vectors to `q` returns: `k` distinct
      positions of the index with their true distances, nearest first, and no
      position left out is nearer than any that was returned. Ties may come
      in any order. */
  predicate IsKNearest(index: seq<Vector>, q: Vector, k: nat, c: seq<Neighbor>) {
    && SameDimension(index, q)
    && |c| == k
    && (forall j :: 0 <= j < |c| ==>
          c[j].pos < |index| && c[j].dist == SqDist(q, index[c[j].pos]))
    && (forall i, j :: 0 <= i < j < |c| ==> c[i].pos != c[j].pos)
    && (forall i, j :: 0 <= i < j < |c| ==> c[i].dist <= c[j].dist)
    && (forall p :: 0 <= p < |index| && p !in Positions(c) ==>
          forall j :: 0 <= j < |c| ==> c[j].dist <= SqDist(q, index[p]))
  }

  /** Index of a nearest entry of `remaining` (the first one on ties). */
  method NearestOf(dists: seq<real>, remaining: seq<nat>) returns (m: nat)
    requires |remaining| > 0
    requires forall r :: 0 <= r < |remaining| ==> remaining[r] < |dists|
    ensures m < |remaining|
    ensures forall r :: 0 <= r < |remaining| ==> dists[remaining[m]] <= dists[remaining[r]]
    ensures forall r :: 0 <= r < m ==> dists[remaining[m]] < dists[remaining[r]]
  {
    m := 0;
    var j := 1;
    while j < |remaining|
      invariant 0 <= m < j <= |remaining|
      invariant forall r :: 0 <= r < j ==> dists[remaining[m]] <= dists[remaining[r]]
      invariant forall r :: 0 <= r < m ==> dists[remaining[m]] < dists[remaining[r]]
    {
      if dists[remaining[j]] < dists[remaining[m]] {
        m := j;
      }
      j := j + 1;
    }
  }

  predicate Distinct(xs: seq<nat>) {
    forall a, b :: 0 <= a < b < |xs| ==> xs[a] != xs[b]
  }

  /** Removing the entry at `m` from a duplicate-free sequence removes exactly
      that value. */
  lemma RemoveAt(xs: seq<nat>, m: nat)
    requires m < |xs| && Distinct(xs)
    ensures |xs[..m] + xs[m + 1..]| == |xs| - 1
    ensures Distinct(xs[..m] + xs[m + 1..])
    ensures forall x :: x in xs[..m] + xs[m + 1..] <==> x in xs && x != xs[m]
  {
    var ys := xs[..m] + xs[m + 1..];
    assert forall r :: 0 <= r < |ys| ==> ys[r] == (if r < m then xs[r] else xs[r + 1]);
    forall x | x in xs && x != xs[m] ensures x in ys {
      var r :| 0 <= r < |xs| && xs[r] == x;
      assert x == ys[if r < m then r else r - 1];
    }
  }

  /** The distance of every position to the query, by position. */
  predicate DistancesTo(index: seq<Vector>, q: Vector, dists: seq<real>) {
    && SameDimension(index, q)
    && |dists| == |index|
    && forall p :: 0 <= p < |index| ==> dists[p] == SqDist(q, index[p])
  }

  /** The state of the selection loop after `|c|` rounds: `c` holds true
      answers, nearest first, and every position not yet chosen (exactly
      those in `remaining`) is at least as far as each chosen one. */
  predicate Selecting(index: seq<Vector>, q: Vector, dists: seq<real>, remaining: seq<nat>, c: seq<Neighbor>) {
    && DistancesTo(index, q, dists)
    && |remaining| == |index| - |c|
    && (forall r :: 0 <= r < |remaining| ==> remaining[r] < |index|)
    && Distinct(remaining)
    && (forall p :: 0 <= p < |index| ==> (p in remaining <==> p !in Positions(c)))
    && (forall j :: 0 <= j < |c| ==> c[j].pos < |index| && c[j].dist == SqDist(q, index[c[j].pos]))
    && (forall i, j :: 0 <= i < j < |c| ==> c[i].pos != c[j].pos)
    && (forall i, j :: 0 <= i < j < |c| ==> c[i].dist <= c[j].dist)
    && (forall j, x :: 0 <= j < |c| && x in remaining ==> c[j].dist <= dists[x])
  }

  /** One round: moving a nearest remaining position to the end of the
      answer keeps the loop state. */
  lemma SelectStep(index: seq<Vector>, q: Vector, dists: seq<real>, remaining: seq<nat>,
                   c: seq<Neighbor>, m: nat)
    requires Selecting(index, q, dists, remaining, c)
    requires m < |remaining|
    requires forall r :: 0 <= r < |remaining| ==> dists[remaining[m]] <= dists[remaining[r]]
    ensures Selecting(index, q, dists, remaining[..m] + remaining[m + 1..],
                      c + [Neighbor(dists[remaining[m]], remaining[m])])
  {
    var p := remaining[m];
    RemoveAt(remaining, m);
    assert p in remaining;
    assert forall i :: 0 <= i < |c| ==> c[i].pos != p by {
      forall i | 0 <= i < |c| ensures c[i].pos != p {
        assert Positions(c)[i] == c[i].pos;
      }
    }
    var c' := c + [Neighbor(dists[p], p)];
    assert Positions(c') == Positions(c) + [p];
    assert forall x :: x in remaining ==> dists[p] <= dists[x];
  }

  /** Exact k-nearest search by repeated selection of the nearest position
      not yet returned. */
  method FlatSearch(index: seq<Vector>, q: Vector, k: nat) returns (c: seq<Neighbor>)
    requires SameDimension(index, q)
    requires k <= |index|
    ensures IsKNearest(index, q, k, c)
  {
    var dists := seq(|index|, p requires 0 <= p < |index| && |index[p]| == |q| => SqDist(q, index[p]));
    var remaining: seq<nat> := seq(|index|, p => p);
    c := [];
    forall p | 0 <= p < |index| ensures p in remaining {
      assert remaining[p] == p;
    }
    while |c| < k
      invariant |c| <= k
      invariant Selecting(index, q, dists, remaining, c)
    {
      var m := NearestOf(dists, remaining);
      SelectStep(index, q, dists, remaining, c, m);
      c, remaining := c + [Neighbor(dists[remaining[m]], remaining[m])], remaining[..m] + remaining[m + 1..];
    }
    forall p | 0 <= p < |index| && p !in Positions(c)
      ensures forall j :: 0 <= j < |c| ==> c[j].dist <= SqDist(q, index[p])
    {
      assert p in remaining;
    }
  }
}

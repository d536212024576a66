/** `faiss.IndexFlatL2` as `create_faiss_index` and `retrieve_top_k` use it
    (main.py:83-98): an append-only store of vectors of one fixed dimension,
    searched exactly by squared Euclidean distance. Components are exact
    integers rather than float32. */
module VectorIndex {
  import opened Numbers

  type Vector = seq<int>

  /** A two-dimensional array of `rows` vectors with `dim` columns: what
      `create_embeddings` hands to the index. */
  datatype Matrix = Matrix(dim: nat, rows: seq<Vector>)

  predicate WellShaped(m: Matrix) {
    forall i :: 0 <= i < |m.rows| ==> |m.rows[i]| == m.dim
  }

  /** Squared Euclidean distance, the metric of `IndexFlatL2`. */
  function SqDist(a: Vector, b: Vector): (d: int)
    requires |a| == |b|
    ensures d >= 0
  {
    if |a| == 0 then 0
    else (a[0] - b[0]) * (a[0] - b[0]) + SqDist(a[1..], b[1..])
  }

  /** The distance is zero exactly for the query vector itself. */
  lemma {:induction false} SqDistZero(a: Vector, b: Vector)
    requires |a| == |b|
    ensures SqDist(a, b) == 0 <==> a == b
  {
    if |a| > 0 {
      SqDistZero(a[1..], b[1..]);
      if a[0] != b[0] {
        assert (a[0] - b[0]) * (a[0] - b[0]) > 0;
      } else {
        assert a == [a[0]] + a[1..] && b == [b[0]] + b[1..];
      }
    }
  }

  /** Every stored vector has the query's length. */
  predicate Fits(vs: seq<Vector>, q: Vector) {
    forall i :: 0 <= i < |vs| ==> |vs[i]| == |q|
  }

  /** Position `i` comes before position `j` in the search order: it is
      nearer to the query, or as near and stored earlier. */
  predicate Before(vs: seq<Vector>, q: Vector, i: int, j: int)
    requires Fits(vs, q)
    requires 0 <= i < |vs| && 0 <= j < |vs|
  {
    var di, dj := SqDist(vs[i], q), SqDist(vs[j], q);
    di < dj || (di == dj && i < j)
  }

  lemma BeforeIsStrictTotal(vs: seq<Vector>, q: Vector, i: int, j: int, l: int)
    requires Fits(vs, q)
    requires 0 <= i < |vs| && 0 <= j < |vs| && 0 <= l < |vs|
    ensures !Before(vs, q, i, i)
    ensures i != j ==> (Before(vs, q, i, j) <==> !Before(vs, q, j, i))
    ensures Before(vs, q, i, j) && Before(vs, q, j, l) ==> Before(vs, q, i, l)
  {
  }

  /** `r` lists the `|r|` positions nearest to `q`, nearest first: the
      positions are valid, each comes before the next, and every position
      left out comes after every position listed. */
  predicate Ranked(vs: seq<Vector>, q: Vector, r: seq<int>)
    requires Fits(vs, q)
  {
    && (forall a :: 0 <= a < |r| ==> 0 <= r[a] < |vs|)
    && (forall a, b :: 0 <= a < b < |r| ==> Before(vs, q, r[a], r[b]))
    && (forall a, p :: 0 <= a < |r| && 0 <= p < |vs| && p !in r ==> Before(vs, q, r[a], p))
  }

  /** Along a ranking the distance to the query never decreases. */
  lemma RankedByDistance(vs: seq<Vector>, q: Vector, r: seq<int>)
    requires Fits(vs, q) && Ranked(vs, q, r)
    ensures forall a, b :: 0 <= a < b < |r| ==> SqDist(vs[r[a]], q) <= SqDist(vs[r[b]], q)
  {
    forall a, b | 0 <= a < b < |r|
      ensures SqDist(vs[r[a]], q) <= SqDist(vs[r[b]], q)
    {
      assert Before(vs, q, r[a], r[b]);
    }
  }

  /** Entry `i` of a ranking comes before every other position not listed
      ahead of it. */
  lemma RankedEntryIsLeast(vs: seq<Vector>, q: Vector, r: seq<int>, i: int, p: int)
    requires Fits(vs, q) && Ranked(vs, q, r)
    requires 0 <= i < |r| && 0 <= p < |vs|
    requires p !in r[..i]
    ensures p != r[i] ==> Before(vs, q, r[i], p)
  {
    if p in r {
      var j :| 0 <= j < |r| && r[j] == p;
      assert j >= i by {
        assert forall m :: 0 <= m < i ==> r[..i][m] == r[m];
      }
    }
  }

  /** A ranking is determined by its length: the search has one answer. */
  lemma RankingUnique(vs: seq<Vector>, q: Vector, r1: seq<int>, r2: seq<int>)
    requires Fits(vs, q) && Ranked(vs, q, r1) && Ranked(vs, q, r2)
    requires |r1| == |r2|
    ensures r1 == r2
  {
    var i := 0;
    while i < |r1|
      invariant 0 <= i <= |r1|
      invariant r1[..i] == r2[..i]
    {
      RankedEntryIsLeast(vs, q, r1, i, r2[i]);
      RankedEntryIsLeast(vs, q, r2, i, r1[i]);
      BeforeIsStrictTotal(vs, q, r1[i], r2[i], r1[i]);
      assert r1[..i + 1] == r1[..i] + [r1[i]];
      assert r2[..i + 1] == r2[..i] + [r2[i]];
      i := i + 1;
    }
    assert r1 == r1[..i] && r2 == r2[..i];
  }

  /** A stored copy of the query comes first: the first entry of any
      non-empty ranking is an exact match, at the earliest such position. */
  lemma ExactMatchComesFirst(vs: seq<Vector>, q: Vector, r: seq<int>, p: int)
    requires Fits(vs, q) && Ranked(vs, q, r) && |r| >= 1
    requires 0 <= p < |vs| && vs[p] == q
    ensures vs[r[0]] == q && r[0] <= p
  {
    RankedEntryIsLeast(vs, q, r, 0, p);
    SqDistZero(vs[p], q);
    SqDistZero(vs[r[0]], q);
  }

  predicate Distinct(r: seq<int>) {
    forall a, b :: 0 <= a < b < |r| ==> r[a] != r[b]
  }

  predicate Below(r: seq<int>, n: int) {
    forall a :: 0 <= a < |r| ==> 0 <= r[a] < n
  }

  /** Entries strictly sorted by `Before` are distinct. */
  lemma RankedIsDistinct(vs: seq<Vector>, q: Vector, r: seq<int>)
    requires Fits(vs, q) && Ranked(vs, q, r)
    ensures Distinct(r) && Below(r, |vs|)
  {
    forall a, b | 0 <= a < b < |r| ensures r[a] != r[b] {
      assert Before(vs, q, r[a], r[b]);
    }
  }

  /** Taking the largest position `n - 1` out of a list of distinct
      positions below `n` leaves distinct positions below `n - 1`. */
  lemma RemoveLargest(r: seq<int>, n: int, j: int)
    requires Distinct(r) && Below(r, n)
    requires 0 <= j < |r| && r[j] == n - 1
    ensures var rest := r[..j] + r[j + 1..];
      && Distinct(rest) && Below(rest, n - 1)
      && forall x :: x in r && x != n - 1 ==> x in rest
  {
    var rest := r[..j] + r[j + 1..];
    forall a | 0 <= a < |rest| ensures 0 <= rest[a] < n - 1 {
      if a < j {
        assert rest[a] == r[a];
      } else {
        assert rest[a] == r[a + 1];
      }
    }
    forall a, b | 0 <= a < b < |rest| ensures rest[a] != rest[b] {
      var a', b' := if a < j then a else a + 1, if b < j then b else b + 1;
      assert rest[a] == r[a'] && rest[b] == r[b'];
    }
    forall x | x in r && x != n - 1 ensures x in rest {
      var k :| 0 <= k < |r| && r[k] == x;
      if k < j {
        assert rest[k] == x;
      } else {
        assert rest[k - 1] == x;
      }
    }
  }

  /** Pigeonhole: fewer than `n` distinct positions below `n` miss one. */
  lemma {:induction false} MissingPosition(r: seq<int>, n: nat) returns (p: int)
    requires |r| < n && Distinct(r) && Below(r, n)
    ensures 0 <= p < n && p !in r
  {
    if n - 1 !in r {
      return n - 1;
    }
    var j :| 0 <= j < |r| && r[j] == n - 1;
    RemoveLargest(r, n, j);
    p := MissingPosition(r[..j] + r[j + 1..], n - 1);
  }

  /** Pigeonhole: distinct positions below `n` number at most `n`. */
  lemma {:induction false} DistinctBound(r: seq<int>, n: nat)
    requires Distinct(r) && Below(r, n)
    ensures |r| <= n
  {
    if |r| > 0 {
      assert 0 <= r[0] < n;
      if n - 1 in r {
        var j :| 0 <= j < |r| && r[j] == n - 1;
        RemoveLargest(r, n, j);
        DistinctBound(r[..j] + r[j + 1..], n - 1);
      } else {
        assert Below(r, n - 1);
        DistinctBound(r, n - 1);
      }
    }
  }

  /** A ranking as long as the index lists every position: with `k >= n`
      every stored vector is returned. */
  lemma FullRankingCoversAll(vs: seq<Vector>, q: Vector, r: seq<int>)
    requires Fits(vs, q) && Ranked(vs, q, r) && |r| == |vs|
    ensures forall p :: 0 <= p < |vs| ==> p in r
  {
    RankedIsDistinct(vs, q, r);
    forall p | 0 <= p < |vs| ensures p in r {
      var r' := r + [p];
      assert Below(r', |vs|);
      assert p !in r ==> Distinct(r');
      if p !in r {
        DistinctBound(r', |vs|);
      }
    }
  }

  /** `faiss.IndexFlatL2(dim)`: the vectors added so far, in insertion
      order; position `i` is the label search reports for vector `i`. */
  class FlatL2Index {
    const dim: nat
    var vectors: seq<Vector>

    /** Every stored vector has the index's dimension. */
    ghost predicate Valid()
      reads this
    {
      forall i :: 0 <= i < |vectors| ==> |vectors[i]| == dim
    }

    /** `faiss.IndexFlatL2(d)`: an empty index of dimension `d`. */
    constructor (d: nat)
      ensures Valid()
      ensures dim == d && vectors == []
    {
      dim := d;
      vectors := [];
    }

    /** `index.add(x)`: appends the rows of `x` after the stored vectors.
        A matrix of another width is refused (faiss asserts on it) and
        leaves the index as it was. */
    method Add(m: Matrix) returns (ok: bool)
      requires Valid() && WellShaped(m)
      modifies this
      ensures Valid()
      ensures ok <==> m.dim == dim
      ensures vectors == if ok then old(vectors) + m.rows else old(vectors)
    {
      if m.dim != dim {
        return false;
      }
      vectors := vectors + m.rows;
      return true;
    }

    /** `index.search(q, k)` for one query: the labels of the `min(k, n)`
        nearest stored vectors, nearest first, then `-1` for each of the
        `k - n` places the index cannot fill. */
    method Search(q: Vector, k: nat) returns (labels: seq<int>)
      requires Valid() && |q| == dim
      ensures Fits(vectors, q)
      ensures |labels| == k
      ensures Ranked(vectors, q, labels[..Min(k, |vectors|)])
      ensures forall a :: Min(k, |vectors|) <= a < k ==> labels[a] == -1
    {
      var n := |vectors|;
      var chosen: seq<int> := [];
      while |chosen| < k && |chosen| < n
        invariant |chosen| <= Min(k, n)
        invariant Ranked(vectors, q, chosen)
      {
        var best := NearestUnchosen(q, chosen);
        chosen := chosen + [best];
      }
      labels := chosen + seq(k - |chosen|, _ => -1);
      assert labels[..Min(k, n)] == chosen;
    }

    /** One round of the selection: the position that comes first among
        those not yet chosen; the extended list is still a ranking. */
    method NearestUnchosen(q: Vector, chosen: seq<int>) returns (best: int)
      requires Valid() && |q| == dim
      requires Ranked(vectors, q, chosen) && |chosen| < |vectors|
      ensures 0 <= best < |vectors| && best !in chosen
      ensures Ranked(vectors, q, chosen + [best])
    {
      var n := |vectors|;
      best := -1;
      var p := 0;
      while p < n
        invariant 0 <= p <= n
        invariant best == -1 ==> forall x :: 0 <= x < p ==> x in chosen
        invariant best != -1 ==> 0 <= best < p && best !in chosen
        invariant best != -1 ==> forall x :: 0 <= x < p && x !in chosen && x != best ==>
          Before(vectors, q, best, x)
      {
        if p !in chosen && (best == -1 || Before(vectors, q, p, best)) {
          if best != -1 {
            forall x | 0 <= x < p && x !in chosen && x != p
              ensures Before(vectors, q, p, x)
            {
              BeforeIsStrictTotal(vectors, q, p, best, x);
            }
          }
          best := p;
        } else if p !in chosen {
          BeforeIsStrictTotal(vectors, q, best, p, best);
        }
        p := p + 1;
      }
      RankedIsDistinct(vectors, q, chosen);
      var missing := MissingPosition(chosen, n);
      var r := chosen + [best];
      forall a, x | 0 <= a < |r| && 0 <= x < n && x !in r
        ensures Before(vectors, q, r[a], x)
      {
        assert x !in chosen && x != best;
      }
    }
  }

  /** `create_faiss_index(embeddings)`: a fresh index whose dimension is the
      matrix's width, holding its rows in order. */
  method CreateIndex(embeddings: Matrix) returns (index: FlatL2Index)
    requires WellShaped(embeddings)
    ensures fresh(index) && index.Valid()
    ensures index.dim == embeddings.dim && index.vectors == embeddings.rows
  {
    index := new FlatL2Index(embeddings.dim);
    var ok := index.Add(embeddings);
  }
}

/** `greedy_search`: the centralised greedy heuristic.

    The vertices are walked once in order of non-increasing weight (the
    `argsort` of the negated weights). A vertex that is already a neighbour
    of a chosen vertex is skipped; any other vertex is chosen and all its
    neighbours are marked. `argsort` does not promise an order among equal
    weights, so the walk order `ranks` is a parameter: every property below
    holds for every ordering by non-increasing weight, and `ArgsortDesc`
    exhibits one such ordering for every weight vector.
 */
module CentralGreedy {
  import opened Graphs

  /** `ranks` lists vertices by non-increasing weight. */
  ghost predicate Descending(w: seq<real>, ranks: seq<nat>)
    requires AllBelow(ranks, |w|)
  {
    forall i, j :: 0 <= i < j < |ranks| ==> w[ranks[j]] <= w[ranks[i]]
  }

  /** A valid result of `np.argsort(-wts)`. */
  ghost predicate Ranking(w: seq<real>, ranks: seq<nat>) {
    IsOrdering(ranks, |w|) && Descending(w, ranks)
  }

  /** The first-fit choice along `ranks`, stated without reference to the
      walk: the `i`-th listed vertex among the first `k` is chosen exactly
      when no vertex listed before it is both chosen and adjacent to it. */
  ghost predicate FirstFit(g: Graph, ranks: seq<nat>, S: set<nat>, k: nat)
    requires k <= |ranks| && AllBelow(ranks, |g.adj|)
  {
    forall i :: 0 <= i < k ==>
      (ranks[i] in S <==> forall j :: 0 <= j < i ==> ranks[j] !in S || ranks[i] !in g.adj[ranks[j]])
  }

  /** Every vertex of `X` is a neighbour of some vertex of `S`, and conversely. */
  ghost predicate MarkedBy(g: Graph, S: set<nat>, X: set<nat>) {
    forall u :: u in X <==> exists v :: v in S && v < |g.adj| && u in g.adj[v]
  }

  /** Every vertex of `T` that is not in `S` has a neighbour in `S` that is at
      least as heavy. */
  ghost predicate HeavierCover(g: Graph, w: seq<real>, S: set<nat>, T: set<nat>)
    requires |w| == |g.adj|
  {
    forall v :: v in T && v !in S && v < |g.adj| ==>
      exists u :: u in S && u in g.adj[v] && u < |w| && w[v] <= w[u]
  }

  /** Every member of `S` is among the first `k` listed vertices. */
  ghost predicate ListedBefore(ranks: seq<nat>, S: set<nat>, k: nat) {
    forall v :: v in S ==> exists j :: 0 <= j < k && j < |ranks| && ranks[j] == v
  }

  /** The loop of `greedy_search` after `k` steps. */
  ghost predicate LoopInv(g: Graph, ranks: seq<nat>, k: nat, mwis: set<nat>, nbIs: set<nat>)
    requires k <= |ranks| && AllBelow(ranks, |g.adj|)
  {
    ListedBefore(ranks, mwis, k) && MarkedBy(g, mwis, nbIs) && FirstFit(g, ranks, mwis, k)
  }

  /** `greedy_search(adj, wts)` with the walk order `ranks`. The result is
      exactly the first-fit choice along `ranks`; it is a maximal independent
      set, every vertex left out has a chosen neighbour at least as heavy, the
      first vertex of `ranks` (a heaviest one) is chosen, and `total` is the
      weight of the chosen set. */
  method GreedySearch(g: Graph, w: seq<real>, ranks: seq<nat>) returns (mwis: set<nat>, total: real)
    requires Valid(g, w) && Ranking(w, ranks)
    ensures FirstFit(g, ranks, mwis, |ranks|)
    ensures MaximalIndependent(g, mwis)
    ensures HeavierCover(g, w, mwis, Vertices(g))
    ensures |ranks| > 0 ==> ranks[0] in mwis && forall v :: 0 <= v < |w| ==> w[v] <= w[ranks[0]]
    ensures total == SetWeight(w, mwis)
  {
    mwis := {};
    var nbIs: set<nat> := {};
    var k := 0;
    while k < |ranks|
      invariant k <= |ranks|
      invariant LoopInv(g, ranks, k, mwis, nbIs)
    {
      var i := ranks[k];
      BlockedIffMarked(g, ranks, k, mwis, nbIs);
      if i in nbIs {
        SkipKeeps(g, ranks, k, mwis, nbIs);
      } else {
        ChooseKeeps(g, ranks, k, mwis, nbIs);
        mwis := mwis + {i};
        nbIs := nbIs + g.adj[i];
      }
      k := k + 1;
    }
    FirstFitProperties(g, w, ranks, mwis);
    total := SumOf(w, mwis);
  }

  /** `np.sum(wts[list(S)])`, summed in the listing order of `S`. */
  function SumOf(w: seq<real>, S: set<nat>): (total: real)
    requires forall v :: v in S ==> v < |w|
    ensures total == SetWeight(w, S)
  {
    var xs := Listing(S, |w|);
    ListingSorted(S, |w|);
    assert forall i :: 0 <= i < |xs| ==> xs[i] in xs;
    ListWeightIsSetWeight(w, xs, S);
    ListWeight(w, xs)
  }

  /** The `k`-th vertex is marked exactly when an earlier chosen vertex is its
      neighbour. */
  lemma {:induction false} BlockedIffMarked(g: Graph, ranks: seq<nat>, k: nat, mwis: set<nat>, nbIs: set<nat>)
    requires k < |ranks| && AllBelow(ranks, |g.adj|)
    requires LoopInv(g, ranks, k, mwis, nbIs)
    ensures ranks[k] in nbIs <==> exists j :: 0 <= j < k && ranks[j] in mwis && ranks[k] in g.adj[ranks[j]]
  {
    if ranks[k] in nbIs {
      var v :| v in mwis && v < |g.adj| && ranks[k] in g.adj[v];
      var j :| 0 <= j < k && j < |ranks| && ranks[j] == v;
      assert ranks[j] in mwis && ranks[k] in g.adj[ranks[j]];
    }
  }

  /** The skip branch keeps the loop invariant. */
  lemma {:induction false} SkipKeeps(g: Graph, ranks: seq<nat>, k: nat, mwis: set<nat>, nbIs: set<nat>)
    requires k < |ranks| && AllBelow(ranks, |g.adj|)
    requires LoopInv(g, ranks, k, mwis, nbIs)
    requires exists j :: 0 <= j < k && ranks[j] in mwis && ranks[k] in g.adj[ranks[j]]
    requires ranks[k] !in mwis
    ensures LoopInv(g, ranks, k + 1, mwis, nbIs)
  {
    assert ListedBefore(ranks, mwis, k + 1) by {
      forall v | v in mwis
        ensures exists j :: 0 <= j < k + 1 && j < |ranks| && ranks[j] == v
      {
        var j :| 0 <= j < k && j < |ranks| && ranks[j] == v;
      }
    }
  }

  /** The choose branch keeps the loop invariant. */
  lemma {:induction false} ChooseKeeps(g: Graph, ranks: seq<nat>, k: nat, mwis: set<nat>, nbIs: set<nat>)
    requires k < |ranks| && AllBelow(ranks, |g.adj|) && Distinct(ranks)
    requires LoopInv(g, ranks, k, mwis, nbIs)
    requires forall j :: 0 <= j < k ==> ranks[j] !in mwis || ranks[k] !in g.adj[ranks[j]]
    ensures LoopInv(g, ranks, k + 1, mwis + {ranks[k]}, nbIs + g.adj[ranks[k]])
  {
    var i := ranks[k];
    var S := mwis + {i};
    assert ListedBefore(ranks, S, k + 1) by {
      forall v | v in S
        ensures exists j :: 0 <= j < k + 1 && j < |ranks| && ranks[j] == v
      {
        if v != i {
          var j :| 0 <= j < k && j < |ranks| && ranks[j] == v;
        }
      }
    }
    assert forall j :: 0 <= j < k ==> ranks[j] != i;
    assert FirstFit(g, ranks, S, k + 1) by {
      forall i' | 0 <= i' < k + 1
        ensures ranks[i'] in S <==> forall j :: 0 <= j < i' ==> ranks[j] !in S || ranks[i'] !in g.adj[ranks[j]]
      {
      }
    }
    assert MarkedBy(g, S, nbIs + g.adj[i]);
  }

  /** The first-fit condition pins the chosen set down: along a given
      ordering there is exactly one set that satisfies it, so the result of
      the walk depends on nothing but `ranks`. */
  lemma {:induction false} FirstFitUnique(g: Graph, ranks: seq<nat>, S: set<nat>, T: set<nat>)
    requires AllBelow(ranks, |g.adj|)
    requires ListedBefore(ranks, S, |ranks|) && FirstFit(g, ranks, S, |ranks|)
    requires ListedBefore(ranks, T, |ranks|) && FirstFit(g, ranks, T, |ranks|)
    ensures S == T
  {
    FirstFitAgree(g, ranks, S, T, |ranks|);
    forall v | v in S
      ensures v in T
    {
      var i :| 0 <= i < |ranks| && ranks[i] == v;
    }
    forall v | v in T
      ensures v in S
    {
      var i :| 0 <= i < |ranks| && ranks[i] == v;
    }
  }

  /** Two first-fit sets agree on the first `k` listed vertices. */
  lemma {:induction false} FirstFitAgree(g: Graph, ranks: seq<nat>, S: set<nat>, T: set<nat>, k: nat)
    requires k <= |ranks| && AllBelow(ranks, |g.adj|)
    requires FirstFit(g, ranks, S, |ranks|) && FirstFit(g, ranks, T, |ranks|)
    ensures forall i :: 0 <= i < k ==> (ranks[i] in S <==> ranks[i] in T)
  {
    if k > 0 {
      FirstFitAgree(g, ranks, S, T, k - 1);
      var i := k - 1;
      if ranks[i] in S {
        forall j | 0 <= j < i
          ensures ranks[j] !in T || ranks[i] !in g.adj[ranks[j]]
        {
          assert ranks[j] !in S || ranks[i] !in g.adj[ranks[j]];
        }
      }
      if ranks[i] in T {
        forall j | 0 <= j < i
          ensures ranks[j] !in S || ranks[i] !in g.adj[ranks[j]]
        {
          assert ranks[j] !in T || ranks[i] !in g.adj[ranks[j]];
        }
      }
    }
  }

  /** What the first-fit choice along an ordering by non-increasing weight
      guarantees: a maximal independent set in which every vertex left out
      has a chosen neighbour at least as heavy, and the first (heaviest)
      vertex is chosen. */
  lemma {:induction false} FirstFitProperties(g: Graph, w: seq<real>, ranks: seq<nat>, S: set<nat>)
    requires Valid(g, w) && Ranking(w, ranks)
    requires ListedBefore(ranks, S, |ranks|) && FirstFit(g, ranks, S, |ranks|)
    ensures MaximalIndependent(g, S)
    ensures HeavierCover(g, w, S, Vertices(g))
    ensures |ranks| > 0 ==> ranks[0] in S && forall v :: 0 <= v < |w| ==> w[v] <= w[ranks[0]]
  {
    FirstFitIndependent(g, ranks, S);
    FirstFitCovers(g, w, ranks, S);
    if |ranks| > 0 {
      forall v | 0 <= v < |w|
        ensures w[v] <= w[ranks[0]]
      {
        assert v in ranks;
        var i :| 0 <= i < |ranks| && ranks[i] == v;
      }
    }
  }

  /** No two vertices of a first-fit choice are adjacent. */
  lemma {:induction false} FirstFitIndependent(g: Graph, ranks: seq<nat>, S: set<nat>)
    requires WellFormed(g) && AllBelow(ranks, |g.adj|)
    requires ListedBefore(ranks, S, |ranks|) && FirstFit(g, ranks, S, |ranks|)
    ensures Independent(g, S)
  {
    forall u, v | u in S && v in S && v < |g.adj|
      ensures u !in g.adj[v]
    {
      var i :| 0 <= i < |ranks| && ranks[i] == u;
      var j :| 0 <= j < |ranks| && ranks[j] == v;
      if i < j {
        assert ranks[i] !in S || ranks[j] !in g.adj[ranks[i]];
      } else if j < i {
        assert ranks[j] !in S || ranks[i] !in g.adj[ranks[j]];
      }
    }
  }

  /** Every vertex outside a first-fit choice along a descending ordering has
      an earlier, hence at least as heavy, chosen neighbour. */
  lemma {:induction false} FirstFitCovers(g: Graph, w: seq<real>, ranks: seq<nat>, S: set<nat>)
    requires Valid(g, w) && Ranking(w, ranks)
    requires FirstFit(g, ranks, S, |ranks|)
    ensures HeavierCover(g, w, S, Vertices(g))
  {
    forall v | v in Vertices(g) && v !in S && v < |g.adj|
      ensures exists u :: u in S && u in g.adj[v] && u < |w| && w[v] <= w[u]
    {
      assert v in ranks;
      var i :| 0 <= i < |ranks| && ranks[i] == v;
      var j :| 0 <= j < i && ranks[j] in S && ranks[i] in g.adj[ranks[j]];
      assert ranks[j] in g.adj[v] && w[v] <= w[ranks[j]];
    }
  }

  // ---------------------------------------------------------------------------
  // One ordering by non-increasing weight
  // ---------------------------------------------------------------------------

  /** Inserts `x` into a listing sorted by non-increasing weight, after every
      vertex at least as heavy. */
  function InsertDesc(w: seq<real>, x: nat, xs: seq<nat>): (r: seq<nat>)
    requires x < |w| && AllBelow(xs, |w|)
    ensures |r| == |xs| + 1 && AllBelow(r, |w|)
    ensures forall y :: y in r <==> y == x || y in xs
  {
    if xs == [] then [x]
    else if w[xs[0]] < w[x] then [x] + xs
    else
      assert xs == [xs[0]] + xs[1..];
      [xs[0]] + InsertDesc(w, x, xs[1..])
  }

  /** Insertion keeps a listing sorted by non-increasing weight. */
  lemma {:induction false} InsertDescSorted(w: seq<real>, x: nat, xs: seq<nat>)
    requires x < |w| && AllBelow(xs, |w|) && Descending(w, xs)
    ensures Descending(w, InsertDesc(w, x, xs))
  {
    if xs != [] {
      var r := InsertDesc(w, x, xs);
      assert forall k :: 0 <= k < |xs| ==> w[xs[k]] <= w[xs[0]];
      if w[xs[0]] >= w[x] {
        var rest := InsertDesc(w, x, xs[1..]);
        InsertDescSorted(w, x, xs[1..]);
        assert r == [xs[0]] + rest;
        forall k | 0 <= k < |rest|
          ensures w[rest[k]] <= w[xs[0]]
        {
          assert rest[k] in rest;
          if rest[k] != x {
            var m :| 0 <= m < |xs[1..]| && xs[1..][m] == rest[k];
            assert rest[k] == xs[m + 1];
          }
        }
      }
    }
  }

  /** Insertion of a new vertex keeps a listing duplicate-free. */
  lemma {:induction false} InsertDescDistinct(w: seq<real>, x: nat, xs: seq<nat>)
    requires x < |w| && AllBelow(xs, |w|) && Distinct(xs) && x !in xs
    ensures Distinct(InsertDesc(w, x, xs))
  {
    if xs != [] && w[xs[0]] >= w[x] {
      var rest := InsertDesc(w, x, xs[1..]);
      assert forall k :: 0 <= k < |xs[1..]| ==> xs[1..][k] == xs[k + 1];
      InsertDescDistinct(w, x, xs[1..]);
      assert xs[0] !in xs[1..];
      assert xs[0] !in rest;
      assert InsertDesc(w, x, xs) == [xs[0]] + rest;
    }
  }

  /** Sorts `xs` by non-increasing weight, keeping equal weights in their
      listed order. */
  function SortDesc(w: seq<real>, xs: seq<nat>): (r: seq<nat>)
    requires AllBelow(xs, |w|) && Distinct(xs)
    ensures |r| == |xs| && AllBelow(r, |w|) && Descending(w, r)
    ensures forall y :: y in r <==> y in xs
    ensures Distinct(r)
  {
    if xs == [] then []
    else
      var init := xs[..|xs| - 1];
      var last := xs[|xs| - 1];
      var rest := SortDesc(w, init);
      assert xs == init + [last];
      InsertDescSorted(w, last, rest);
      assert last !in init;
      InsertDescDistinct(w, last, rest);
      InsertDesc(w, last, rest)
  }

  /** `0, 1, ..., n-1`. */
  function Range(n: nat): (xs: seq<nat>)
    ensures |xs| == n && forall i :: 0 <= i < n ==> xs[i] == i
  {
    if n == 0 then [] else Range(n - 1) + [n - 1]
  }

  /** A stable `argsort(-wts)`. */
  function ArgsortDesc(w: seq<real>): (ranks: seq<nat>)
    ensures Ranking(w, ranks)
  {
    var r := Range(|w|);
    forall v: nat | v < |w|
      ensures v in r
    {
      assert r[v] == v;
    }
    SortDesc(w, r)
  }
}

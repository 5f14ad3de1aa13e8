/** The deterministic tail of `mp_ising`: the vertices whose spin is nonzero
    form a candidate set; the subgraph it induces is handed to
    `greedy_search`, and the chosen positions are mapped back to vertex
    identities. The annealing that produces the candidate set is random and
    is not modelled: the candidate set is an input.
 */
module IsingCleanup {
  import opened Graphs
  import opened CentralGreedy

  /** `solu0 = np.nonzero(spins)[0]`: the candidates in ascending order. */
  function CandidateListing(cand: set<nat>, n: nat): (xs: seq<nat>)
    ensures AllBelow(xs, n) && Distinct(xs)
    ensures forall v :: v in xs <==> v in cand && v < n
  {
    var xs := Listing(cand, n);
    ListingSorted(cand, n);
    assert forall i :: 0 <= i < |xs| ==> xs[i] in xs;
    xs
  }

  /** `adj[solu0, :][:, solu0]`: the subgraph induced by the listed vertices,
      with position `i` standing for vertex `xs[i]`. */
  function Induced(g: Graph, xs: seq<nat>): (h: Graph)
    requires AllBelow(xs, |g.adj|)
    ensures |h.adj| == |xs|
    ensures forall i :: 0 <= i < |xs| ==> h.adj[i] == InducedRow(g, xs, i)
  {
    Graph(seq(|xs|, i requires 0 <= i < |xs| => InducedRow(g, xs, i)))
  }

  /** Row `i` of the induced subgraph: the positions of the neighbours of
      `xs[i]`. */
  function InducedRow(g: Graph, xs: seq<nat>, i: nat): (row: set<nat>)
    requires AllBelow(xs, |g.adj|) && i < |xs|
    ensures forall j: nat :: j in row <==> j < |xs| && xs[j] in g.adj[xs[i]]
  {
    set j: nat | j < |xs| && xs[j] in g.adj[xs[i]]
  }

  /** The induced subgraph of a well-formed graph on distinct vertices is
      well formed. */
  lemma {:induction false} InducedWellFormed(g: Graph, xs: seq<nat>)
    requires WellFormed(g) && AllBelow(xs, |g.adj|) && Distinct(xs)
    ensures WellFormed(Induced(g, xs))
  {
    var h := Induced(g, xs);
    forall i, j | 0 <= i < |h.adj| && j in h.adj[i]
      ensures j < |h.adj| && j != i && i in h.adj[j]
    {
      assert j in InducedRow(g, xs, i);
      assert xs[j] in g.adj[xs[i]];
      assert i in InducedRow(g, xs, j);
    }
  }

  /** `solu0[list(solu1)]` as a set: the vertices at the chosen positions. */
  function Lift(xs: seq<nat>, S: set<nat>): (V: set<nat>)
    ensures forall i :: i in S && i < |xs| ==> xs[i] in V
    ensures forall v :: v in V ==> exists i :: i in S && i < |xs| && xs[i] == v
  {
    set i | i in S && i < |xs| :: xs[i]
  }

  /** The cleanup of `mp_ising` on the candidate set `cand`, where `ranks` is
      the order in which `greedy_search` walks the subgraph. The result is an
      independent set of candidates that leaves out no candidate without a
      chosen neighbour at least as heavy, it holds a heaviest candidate, and
      `total` is its weight. */
  method Cleanup(g: Graph, w: seq<real>, cand: set<nat>, ranks: seq<nat>) returns (solu: set<nat>, total: real)
    requires Valid(g, w)
    requires Ranking(WeightsAt(w, CandidateListing(cand, |g.adj|)), ranks)
    ensures solu <= cand
    ensures Independent(g, solu)
    ensures Dominates(g, solu, cand)
    ensures HeavierCover(g, w, solu, cand)
    ensures (exists c :: c in cand && c < |g.adj|) ==>
      exists v :: v in solu && forall c :: c in cand && c < |g.adj| ==> w[c] <= w[v]
    ensures total == SetWeight(w, solu)
  {
    var xs := CandidateListing(cand, |g.adj|);
    var h := Induced(g, xs);
    var w1 := WeightsAt(w, xs);
    InducedWellFormed(g, xs);
    var chosen, _ := GreedySearch(h, w1, ranks);
    solu := Lift(xs, chosen);
    LiftFacts(g, w, cand, xs, chosen, ranks);
    total := SumOf(w, solu);
  }

  /** Everything the cleanup promises about the lifted set, from what
      `greedy_search` promises on the subgraph. */
  lemma {:induction false} LiftFacts(g: Graph, w: seq<real>, cand: set<nat>, xs: seq<nat>, S: set<nat>, ranks: seq<nat>)
    requires Valid(g, w) && AllBelow(xs, |g.adj|)
    requires forall v :: v in xs <==> v in cand && v < |g.adj|
    requires IsOrdering(ranks, |xs|)
    requires MaximalIndependent(Induced(g, xs), S)
    requires HeavierCover(Induced(g, xs), WeightsAt(w, xs), S, Vertices(Induced(g, xs)))
    requires |ranks| > 0 ==> ranks[0] in S && forall i :: 0 <= i < |xs| ==> WeightsAt(w, xs)[i] <= WeightsAt(w, xs)[ranks[0]]
    ensures Lift(xs, S) <= cand
    ensures Independent(g, Lift(xs, S))
    ensures Dominates(g, Lift(xs, S), cand)
    ensures HeavierCover(g, w, Lift(xs, S), cand)
    ensures (exists c :: c in cand && c < |g.adj|) ==>
      exists v :: v in Lift(xs, S) && forall c :: c in cand && c < |g.adj| ==> w[c] <= w[v]
  {
    LiftKeeps(g, w, xs, cand, S);
    if exists c :: c in cand && c < |g.adj| {
      HeaviestKept(g, w, xs, cand, S, ranks);
    }
  }

  /** Mapping a maximal independent set of the induced subgraph back to
      vertex identities gives an independent set of candidates that covers
      every other candidate by a neighbour at least as heavy. */
  lemma {:induction false} LiftKeeps(g: Graph, w: seq<real>, xs: seq<nat>, cand: set<nat>, S: set<nat>)
    requires Valid(g, w) && AllBelow(xs, |g.adj|)
    requires forall v :: v in xs <==> v in cand && v < |g.adj|
    requires MaximalIndependent(Induced(g, xs), S)
    requires HeavierCover(Induced(g, xs), WeightsAt(w, xs), S, Vertices(Induced(g, xs)))
    ensures Lift(xs, S) <= cand
    ensures Independent(g, Lift(xs, S))
    ensures Dominates(g, Lift(xs, S), cand)
    ensures HeavierCover(g, w, Lift(xs, S), cand)
  {
    LiftInside(g, xs, cand, S);
    LiftIndependent(g, xs, S);
    LiftCovers(g, w, xs, cand, S);
  }

  lemma {:induction false} LiftInside(g: Graph, xs: seq<nat>, cand: set<nat>, S: set<nat>)
    requires forall v :: v in xs <==> v in cand && v < |g.adj|
    ensures Lift(xs, S) <= cand && Lift(xs, S) <= Vertices(g)
  {
    forall v | v in Lift(xs, S)
      ensures v in cand && v < |g.adj|
    {
      var i :| i in S && i < |xs| && xs[i] == v;
      assert xs[i] in xs;
    }
  }

  lemma {:induction false} LiftIndependent(g: Graph, xs: seq<nat>, S: set<nat>)
    requires AllBelow(xs, |g.adj|) && Independent(Induced(g, xs), S)
    ensures forall a, b :: a in Lift(xs, S) && b in Lift(xs, S) && b < |g.adj| ==> a !in g.adj[b]
  {
    var h, V := Induced(g, xs), Lift(xs, S);
    forall a, b | a in V && b in V && b < |g.adj|
      ensures a !in g.adj[b]
    {
      var i :| i in S && i < |xs| && xs[i] == a;
      var j :| j in S && j < |xs| && xs[j] == b;
      assert i !in h.adj[j];
      assert i !in InducedRow(g, xs, j);
    }
  }

  lemma {:induction false} LiftCovers(g: Graph, w: seq<real>, xs: seq<nat>, cand: set<nat>, S: set<nat>)
    requires Valid(g, w) && AllBelow(xs, |g.adj|)
    requires forall v :: v in xs <==> v in cand && v < |g.adj|
    requires HeavierCover(Induced(g, xs), WeightsAt(w, xs), S, Vertices(Induced(g, xs)))
    ensures HeavierCover(g, w, Lift(xs, S), cand)
  {
    var h, w1, V := Induced(g, xs), WeightsAt(w, xs), Lift(xs, S);
    forall c | c in cand && c !in V && c < |g.adj|
      ensures exists u :: u in V && u in g.adj[c] && u < |w| && w[c] <= w[u]
    {
      assert c in xs;
      var i :| 0 <= i < |xs| && xs[i] == c;
      assert i !in S;
      assert i in Vertices(h);
      var j :| j in S && j in h.adj[i] && j < |w1| && w1[i] <= w1[j];
      assert j in InducedRow(g, xs, i);
      assert xs[j] in V && xs[j] in g.adj[c];
    }
  }

  /** The first position of `ranks` is a heaviest candidate and is chosen. */
  lemma {:induction false} HeaviestKept(g: Graph, w: seq<real>, xs: seq<nat>, cand: set<nat>, S: set<nat>, ranks: seq<nat>)
    requires Valid(g, w) && AllBelow(xs, |g.adj|)
    requires forall v :: v in xs <==> v in cand && v < |g.adj|
    requires exists c :: c in cand && c < |g.adj|
    requires IsOrdering(ranks, |xs|)
    requires |ranks| > 0 ==> ranks[0] in S && forall i :: 0 <= i < |xs| ==> WeightsAt(w, xs)[i] <= WeightsAt(w, xs)[ranks[0]]
    ensures exists v :: v in Lift(xs, S) && forall c :: c in cand && c < |g.adj| ==> w[c] <= w[v]
  {
    var w1 := WeightsAt(w, xs);
    var c0 :| c0 in cand && c0 < |g.adj|;
    assert c0 in xs;
    assert |ranks| > 0 by {
      assert 0 in ranks;
    }
    var top := ranks[0];
    assert xs[top] in Lift(xs, S);
    forall c | c in cand && c < |g.adj|
      ensures w[c] <= w[xs[top]]
    {
      assert c in xs;
      var i :| 0 <= i < |xs| && xs[i] == c;
      assert w1[i] <= w1[top];
    }
  }
}

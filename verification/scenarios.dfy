/** Concrete graphs on which the heuristics' outcomes are known exactly. */
module Scenarios {
  import opened Graphs
  import opened LocalGreedy

  /** A single edge 0 - 1. */
  function Edge(): Graph {
    Graph([{1}, {0}])
  }

  /** The 4-cycle 0 - 1 - 2 - 3 - 0. */
  function Cycle4(): Graph {
    Graph([{1, 3}, {0, 2}, {1, 3}, {0, 2}])
  }

  lemma {:induction false} EdgeValid()
    ensures Valid(Edge(), [2.0, 2.0])
  {
    var g := Edge();
    assert Vertices(g) == {0, 1};
    forall v, u | 0 <= v < |g.adj| && u in g.adj[v]
      ensures u < |g.adj| && u != v && v in g.adj[u]
    {
      assert v == 0 || v == 1;
    }
  }

  lemma {:induction false} Cycle4Valid()
    ensures Valid(Cycle4(), [1.0, 5.0, 1.0, 5.0])
  {
    var g := Cycle4();
    forall v, u | 0 <= v < |g.adj| && u in g.adj[v]
      ensures u < |g.adj| && u != v && v in g.adj[u]
    {
      assert v == 0 || v == 1 || v == 2 || v == 3;
    }
  }

  lemma {:induction false} EdgeWinners()
    ensures Valid(Edge(), [2.0, 2.0])
    ensures Winners(Edge(), [2.0, 2.0], {0, 1}) == {0}
  {
    EdgeValid();
    var g, w := Edge(), [2.0, 2.0];
    assert Nb(g, 0, {0, 1}) == {1};
    assert Nb(g, 1, {0, 1}) == {0};
    assert LocalMax(g, w, {0, 1}, 0);
    assert !LocalMax(g, w, {0, 1}, 1);
  }

  lemma {:induction false} EdgeExcluded()
    ensures Excluded(Edge(), {0, 1}, {0}) == {1}
  {
    assert 1 in Edge().adj[0];
  }

  lemma {:induction false} Cycle4Excluded()
    ensures Excluded(Cycle4(), {0, 1, 2, 3}, {1, 3}) == {0, 2}
  {
    assert 0 in Cycle4().adj[1] && 2 in Cycle4().adj[1];
  }

  lemma {:induction false} EdgeInit()
    ensures Init(Edge()) == State({0, 1}, {}, {})
  {
    assert Vertices(Edge()) == {0, 1};
  }

  lemma {:induction false} Cycle4Init()
    ensures Init(Cycle4()) == State({0, 1, 2, 3}, {}, {})
  {
    assert Vertices(Cycle4()) == {0, 1, 2, 3};
  }

  /** A first round that decides every vertex: the winners `W` and the
      vertices `X` they exclude together make up all of `remain`. */
  lemma {:induction false} RoundOf(g: Graph, w: seq<real>, s: State, W: set<nat>, X: set<nat>)
    requires Valid(g, w) && s.remain <= Vertices(g) && s.mwis == {} && s.nbIs == {}
    requires Winners(g, w, s.remain) == W && Excluded(g, s.remain, W) == X
    requires W + X == s.remain
    ensures Round(g, w, s) == State({}, W, X)
  {
    assert {} + W == W && {} + X == X;
  }

  /** The one round on the edge with equal weights: 0 wins the tie against 1. */
  lemma {:induction false} EdgeRound()
    ensures Valid(Edge(), [2.0, 2.0])
    ensures Round(Edge(), [2.0, 2.0], Init(Edge())) == State({}, {0}, {1})
  {
    EdgeWinners();
    EdgeExcluded();
    EdgeInit();
    RoundOf(Edge(), [2.0, 2.0], State({0, 1}, {}, {}), {0}, {1});
  }

  /** Equal weights on an edge: the lower identity wins the tie, and one round
      settles the graph. */
  lemma {:induction false} TieOnEdge()
    ensures Valid(Edge(), [2.0, 2.0])
    ensures LocalGreedySearch(Edge(), [2.0, 2.0]) == Selection({0}, 2.0)
    ensures RoundCount(Edge(), [2.0, 2.0]) == 1
  {
    EdgeRound();
    var g, w := Edge(), [2.0, 2.0];
    var t := State({}, {0}, {1});
    assert Run(g, w, t) == t;
    assert Run(g, w, Init(g)) == t;
    assert WeightUpTo(w, {0}, 0) == 0.0;
    assert WeightUpTo(w, {0}, 1) == 2.0;
    assert WeightUpTo(w, {0}, 2) == 2.0;
    assert Snapshots(g, w, t) == [];
  }

  lemma {:induction false} Cycle4Winners()
    ensures Valid(Cycle4(), [1.0, 5.0, 1.0, 5.0])
    ensures Winners(Cycle4(), [1.0, 5.0, 1.0, 5.0], {0, 1, 2, 3}) == {1, 3}
  {
    Cycle4Valid();
    var g, w, R := Cycle4(), [1.0, 5.0, 1.0, 5.0], {0, 1, 2, 3};
    assert Nb(g, 0, R) == {1, 3};
    assert Nb(g, 1, R) == {0, 2};
    assert Nb(g, 2, R) == {1, 3};
    assert Nb(g, 3, R) == {0, 2};
    assert !LocalMax(g, w, R, 0);
    assert LocalMax(g, w, R, 1);
    assert !LocalMax(g, w, R, 2);
    assert LocalMax(g, w, R, 3);
  }

  /** The one round on the 4-cycle with weights [1, 5, 1, 5]. */
  lemma {:induction false} Cycle4Round()
    ensures Valid(Cycle4(), [1.0, 5.0, 1.0, 5.0])
    ensures Round(Cycle4(), [1.0, 5.0, 1.0, 5.0], Init(Cycle4())) == State({}, {1, 3}, {0, 2})
  {
    var g, w, R := Cycle4(), [1.0, 5.0, 1.0, 5.0], {0, 1, 2, 3};
    Cycle4Winners();
    Cycle4Excluded();
    Cycle4Init();
    assert {1, 3} + {0, 2} == R;
    RoundOf(g, w, State(R, {}, {}), {1, 3}, {0, 2});
  }

  /** The 4-cycle with weights [1, 5, 1, 5]: both heavy vertices are strictly
      heavier than their neighbours and are chosen together in one round. */
  lemma {:induction false} HeavyPairOnCycle()
    ensures Valid(Cycle4(), [1.0, 5.0, 1.0, 5.0])
    ensures LocalGreedySearch(Cycle4(), [1.0, 5.0, 1.0, 5.0]) == Selection({1, 3}, 10.0)
    ensures RoundCount(Cycle4(), [1.0, 5.0, 1.0, 5.0]) == 1
  {
    Cycle4Round();
    var g, w := Cycle4(), [1.0, 5.0, 1.0, 5.0];
    var t := State({}, {1, 3}, {0, 2});
    assert Run(g, w, t) == t;
    assert Run(g, w, Init(g)) == t;
    assert WeightUpTo(w, {1, 3}, 0) == 0.0;
    assert WeightUpTo(w, {1, 3}, 1) == 0.0;
    assert WeightUpTo(w, {1, 3}, 2) == 5.0;
    assert WeightUpTo(w, {1, 3}, 3) == 5.0;
    assert WeightUpTo(w, {1, 3}, 4) == 10.0;
    assert Snapshots(g, w, t) == [];
  }
}

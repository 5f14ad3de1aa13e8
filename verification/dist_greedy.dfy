/** `dist_greedy_search`: the distributed approximation with parameter
    `epsilon`.

    Each round computes the candidate set `seta` of remaining vertices whose
    weight is at least `1/alpha` of the heaviest remaining neighbour
    (`alpha = 1 + epsilon/3`), then walks the candidates in some order and
    accepts each one that has no neighbour among the vertices accepted so far
    in this round, adding all its neighbours to `nb_is`. The order in which a
    Python set is walked is not part of the algorithm, so it is a parameter:
    `order(k)` lists the vertices for round `k`, and every property below is
    proved for every such listing.
 */
module DistGreedy {
  import opened Graphs
  import opened LocalGreedy

  /** `alpha = 1 + epsilon / 3`. */
  function Alpha(eps: real): (a: real)
    ensures eps > 0.0 ==> a > 1.0
  {
    1.0 + eps / 3.0
  }

  /** `w_bar_v`: the weight of the heaviest remaining neighbour of `v`. */
  function NbMax(g: Graph, w: seq<real>, R: set<nat>, v: nat): (m: real)
    requires Valid(g, w) && v < |g.adj| && Nb(g, v, R) != {}
    ensures forall u :: u in Nb(g, v, R) ==> w[u] <= m
    ensures exists u :: u in Nb(g, v, R) && w[u] == m
  {
    var xs := Listing(Nb(g, v, R), |g.adj|);
    var x :| x in Nb(g, v, R);
    assert x in xs;
    assert AllBelow(xs, |w|) by {
      forall i | 0 <= i < |xs| ensures xs[i] < |w| {
        assert xs[i] in xs;
      }
    }
    var ws := WeightsAt(w, xs);
    var m := MaxOf(ws);
    assert forall u :: u in Nb(g, v, R) ==> w[u] <= m by {
      forall u | u in Nb(g, v, R) ensures w[u] <= m {
        var i :| 0 <= i < |xs| && xs[i] == u;
        assert ws[i] == w[u];
      }
    }
    var i :| 0 <= i < |ws| && ws[i] == m;
    assert xs[i] in Nb(g, v, R) && w[xs[i]] == m;
    m
  }

  /** Membership in `seta`: no remaining neighbour, or heavy enough against
      the heaviest remaining neighbour. */
  predicate Candidate(g: Graph, w: seq<real>, alpha: real, R: set<nat>, v: nat)
    requires Valid(g, w) && v < |g.adj| && alpha > 0.0
  {
    Nb(g, v, R) == {} || w[v] >= NbMax(g, w, R, v) / alpha
  }

  /** `seta`. */
  function Candidates(g: Graph, w: seq<real>, alpha: real, R: set<nat>): (C: set<nat>)
    requires Valid(g, w) && R <= Vertices(g) && alpha > 0.0
    ensures forall v :: v in C <==> v in R && Candidate(g, w, alpha, R, v)
  {
    set v | v in R && Candidate(g, w, alpha, R, v)
  }

  /** Dividing a non-negative weight by `alpha >= 1` does not increase it. */
  lemma {:induction false} ShrinkByAlpha(x: real, alpha: real)
    requires x >= 0.0 && alpha >= 1.0
    ensures x / alpha <= x
  {
    assert x / alpha * alpha == x;
    assert x / alpha >= 0.0;
    assert x / alpha <= x / alpha * alpha;
  }

  /** With non-negative weights and `alpha >= 1`, a remaining vertex at least
      as heavy as every other remaining vertex is a candidate. */
  lemma {:induction false} HeaviestIsCandidate(g: Graph, w: seq<real>, alpha: real, R: set<nat>, v: nat)
    requires Valid(g, w) && R <= Vertices(g) && NonNegative(w) && alpha >= 1.0
    requires v in R && forall u :: u in R ==> w[u] <= w[v]
    ensures v in Candidates(g, w, alpha, R)
  {
    if Nb(g, v, R) != {} {
      var m := NbMax(g, w, R, v);
      var u :| u in Nb(g, v, R) && w[u] == m;
      ShrinkByAlpha(m, alpha);
    }
  }

  /** Some remaining vertex is a candidate whenever something remains. */
  lemma {:induction false} CandidatesNonEmpty(g: Graph, w: seq<real>, alpha: real, R: set<nat>) returns (c: nat)
    requires Valid(g, w) && R <= Vertices(g) && NonNegative(w) && alpha >= 1.0 && R != {}
    ensures c in R && c in Candidates(g, w, alpha, R)
  {
    c := ChampionExists(w, R);
    forall u | u in R ensures w[u] <= w[c] {
      if u != c {
        assert Beats(w, c, u);
      }
    }
    HeaviestIsCandidate(g, w, alpha, R, c);
  }

  // ---------------------------------------------------------------------------
  // Acceptance: the `mis_i` loop
  // ---------------------------------------------------------------------------

  /** The elements of `xs` that lie in `S`, in the order of `xs`. */
  function Filter(xs: seq<nat>, S: set<nat>): (ys: seq<nat>)
    ensures forall x :: x in ys <==> x in xs && x in S
    ensures |ys| <= |xs|
  {
    if xs == [] then []
    else (if xs[0] in S then [xs[0]] else []) + Filter(xs[1..], S)
  }

  /** The two sets the acceptance loop grows: `mis_i` and `nb_is`. */
  datatype Acc = Acc(mis: set<nat>, nb: set<nat>)

  /** One candidate: accepted when none of its neighbours was accepted before
      it in this round, and then all its neighbours join `nb_is`. */
  function AcceptStep(g: Graph, v: nat, a: Acc): Acc
    requires v < |g.adj|
  {
    if a.mis * g.adj[v] == {} then Acc(a.mis + {v}, a.nb + g.adj[v]) else a
  }

  /** The loop over the candidates in the listed order. */
  function AcceptAll(g: Graph, xs: seq<nat>, a: Acc): (r: Acc)
    requires AllBelow(xs, |g.adj|)
    ensures a.mis <= r.mis && a.nb <= r.nb
    ensures forall v :: v in r.mis ==> v in a.mis || v in xs
    decreases |xs|
  {
    if xs == [] then a
    else AcceptAll(g, xs[1..], AcceptStep(g, xs[0], a))
  }

  /** Every neighbour of a vertex of `S` lies in `X`. */
  ghost predicate NeighboursIn(g: Graph, S: set<nat>, X: set<nat>) {
    forall v, u {:trigger u in g.adj[v], v in S} :: v in S && v < |g.adj| && u in g.adj[v] ==> u in X
  }

  /** What the acceptance loop keeps, on top of the selection `M` of earlier
      rounds: the selection stays independent and disjoint from `nb_is`,
      accepted vertices have all their neighbours in `nb_is`, and every
      `nb_is` vertex has a selected neighbour. */
  ghost predicate AccInv(g: Graph, R: set<nat>, M: set<nat>, a: Acc) {
    && Independent(g, M + a.mis)
    && NeighboursIn(g, a.mis, a.nb)
    && Dominates(g, M + a.mis, a.nb)
    && (M + a.mis) !! a.nb
    && a.mis <= R && M !! R && a.nb <= Vertices(g)
  }

  /** One step keeps the invariant, and decides its vertex: it is accepted,
      or it already has an accepted neighbour and so lies in `nb_is`. */
  lemma {:induction false} AcceptStepKeeps(g: Graph, R: set<nat>, M: set<nat>, v: nat, a: Acc)
    requires WellFormed(g) && R <= Vertices(g) && v in R
    requires ClosedTo(g, M, R) && AccInv(g, R, M, a)
    ensures var r := AcceptStep(g, v, a);
      && AccInv(g, R, M, r)
      && (v in r.mis || v in r.nb)
      && (a.mis * g.adj[v] == {} ==> v in r.mis)
  {
    var r := AcceptStep(g, v, a);
    if a.mis * g.adj[v] == {} {
      AcceptKeeps(g, R, M, v, a);
    } else {
      var y :| y in a.mis * g.adj[v];
      assert v in g.adj[y];
    }
  }

  /** The accepting branch of `AcceptStepKeeps`. */
  lemma {:induction false} AcceptKeeps(g: Graph, R: set<nat>, M: set<nat>, v: nat, a: Acc)
    requires WellFormed(g) && R <= Vertices(g) && v in R
    requires ClosedTo(g, M, R) && AccInv(g, R, M, a)
    requires a.mis * g.adj[v] == {}
    ensures AccInv(g, R, M, Acc(a.mis + {v}, a.nb + g.adj[v]))
  {
    var S := M + a.mis;
    NoSelectedNeighbour(g, R, M, v, a);
    NotExcludedYet(g, R, M, v, a);
    IndependentAdd(g, S, v);
    DominatesAdd(g, S, a.nb, v);
    assert M + (a.mis + {v}) == S + {v};
  }

  /** A candidate that passes the test has no neighbour in the selection:
      not in `mis_i` by the test, not in `M` because `M` is closed to `R`. */
  lemma {:induction false} NoSelectedNeighbour(g: Graph, R: set<nat>, M: set<nat>, v: nat, a: Acc)
    requires WellFormed(g) && R <= Vertices(g) && v in R
    requires ClosedTo(g, M, R) && a.mis * g.adj[v] == {}
    ensures forall u :: u in g.adj[v] ==> u !in M + a.mis
  {
    assert v in Vertices(g);
    forall u | u in g.adj[v] ensures u !in M + a.mis {
      assert u !in a.mis * g.adj[v];
      assert v in g.adj[u];
    }
  }

  /** ... and is not in `nb_is` yet: an `nb_is` vertex of `R` would have a
      selected neighbour. */
  lemma {:induction false} NotExcludedYet(g: Graph, R: set<nat>, M: set<nat>, v: nat, a: Acc)
    requires WellFormed(g) && R <= Vertices(g) && v in R
    requires ClosedTo(g, M, R) && AccInv(g, R, M, a) && a.mis * g.adj[v] == {}
    ensures v !in a.nb
  {
    NoSelectedNeighbour(g, R, M, v, a);
  }

  /** A vertex with no neighbour in an independent set can join it. */
  lemma {:induction false} IndependentAdd(g: Graph, S: set<nat>, v: nat)
    requires WellFormed(g) && Independent(g, S) && v < |g.adj|
    requires forall u :: u in g.adj[v] ==> u !in S
    ensures Independent(g, S + {v})
  {
  }

  /** Adding a vertex to the selection and its neighbours to the excluded
      set keeps every excluded vertex dominated. */
  lemma {:induction false} DominatesAdd(g: Graph, S: set<nat>, X: set<nat>, v: nat)
    requires WellFormed(g) && Dominates(g, S, X) && v < |g.adj|
    ensures Dominates(g, S + {v}, X + g.adj[v])
  {
  }

  /** The whole acceptance loop keeps the invariant and decides every listed
      vertex: each one ends up accepted or in `nb_is`. */
  lemma {:induction false} AcceptAllKeeps(g: Graph, R: set<nat>, M: set<nat>, xs: seq<nat>, a: Acc)
    requires WellFormed(g) && R <= Vertices(g) && AllBelow(xs, |g.adj|)
    requires forall i :: 0 <= i < |xs| ==> xs[i] in R
    requires ClosedTo(g, M, R) && AccInv(g, R, M, a)
    ensures var r := AcceptAll(g, xs, a);
      && AccInv(g, R, M, r)
      && forall x :: x in xs ==> x in r.mis || x in r.nb
    decreases |xs|
  {
    if xs != [] {
      var b := AcceptStep(g, xs[0], a);
      AcceptStepKeeps(g, R, M, xs[0], a);
      var rest := xs[1..];
      assert forall i :: 0 <= i < |rest| ==> rest[i] == xs[i + 1];
      AcceptAllKeeps(g, R, M, rest, b);
      assert AcceptAll(g, xs, a) == AcceptAll(g, rest, b);
      assert forall x :: x in xs ==> x == xs[0] || x in rest;
    }
  }

  /** The first candidate walked is always accepted: nothing has been
      accepted before it in its round. */
  lemma {:induction false} FirstCandidateAccepted(g: Graph, xs: seq<nat>, nb: set<nat>)
    requires AllBelow(xs, |g.adj|) && xs != []
    ensures xs[0] in AcceptAll(g, xs, Acc({}, nb)).mis
  {
    var rest := xs[1..];
    assert AllBelow(rest, |g.adj|) by {
      assert forall i :: 0 <= i < |rest| ==> rest[i] == xs[i + 1];
    }
    assert AcceptAll(g, xs, Acc({}, nb)) == AcceptAll(g, rest, AcceptStep(g, xs[0], Acc({}, nb)));
  }

  // ---------------------------------------------------------------------------
  // Rounds and the outer loop
  // ---------------------------------------------------------------------------

  /** The vertices a round walks: the candidates, in the round's order. */
  function Walk(g: Graph, w: seq<real>, alpha: real, xs: seq<nat>, R: set<nat>): (ys: seq<nat>)
    requires Valid(g, w) && R <= Vertices(g) && alpha > 0.0
    ensures forall i :: 0 <= i < |ys| ==> ys[i] in R && ys[i] < |g.adj|
    ensures forall v :: v in ys <==> v in xs && v in Candidates(g, w, alpha, R)
  {
    var ys := Filter(xs, Candidates(g, w, alpha, R));
    assert forall i :: 0 <= i < |ys| ==> ys[i] in ys;
    ys
  }

  /** One round: the candidates are walked in the order `xs`, the accepted
      ones join `mwis`, and `remain = remain - mwis - nb_is`. Some vertex
      leaves `remain` in every round that starts with a nonempty one. */
  function DistRound(g: Graph, w: seq<real>, alpha: real, xs: seq<nat>, s: State): (t: State)
    requires Valid(g, w) && s.remain <= Vertices(g) && NonNegative(w) && alpha >= 1.0
    requires IsOrdering(xs, |g.adj|)
    ensures t.remain <= s.remain
    ensures s.remain != {} ==> |t.remain| < |s.remain|
    ensures s.mwis <= t.mwis
  {
    var ys := Walk(g, w, alpha, xs, s.remain);
    var a := AcceptAll(g, ys, Acc({}, s.nbIs));
    var mwis := s.mwis + a.mis;
    var t := State(s.remain - mwis - a.nb, mwis, a.nb);
    if s.remain == {} then t
    else
      WalkNonEmpty(g, w, alpha, xs, s.remain);
      FirstCandidateAccepted(g, ys, s.nbIs);
      Shrinks(s.remain, mwis, a.nb, ys[0]);
      t
  }

  /** Some candidate is walked whenever something remains. */
  lemma {:induction false} WalkNonEmpty(g: Graph, w: seq<real>, alpha: real, xs: seq<nat>, R: set<nat>)
    requires Valid(g, w) && R <= Vertices(g) && NonNegative(w) && alpha >= 1.0 && R != {}
    requires IsOrdering(xs, |g.adj|)
    ensures Walk(g, w, alpha, xs, R) != []
  {
    var c := CandidatesNonEmpty(g, w, alpha, R);
    assert c in xs;
    assert c in Walk(g, w, alpha, xs, R);
  }

  /** Removing a member makes a set strictly smaller. */
  lemma {:induction false} Shrinks(A: set<nat>, D: set<nat>, E: set<nat>, x: nat)
    requires x in A && x in D
    ensures |A - D - E| < |A|
  {
    var B := A - D;
    assert |B - E| + |B * E| == |B|;
    assert |B| + |A * D| == |A|;
    assert x in A * D;
  }

  /** A round keeps the invariant of the local greedy search: partition,
      independence, domination of `nb_is`, and no selected vertex with a
      remaining neighbour. */
  lemma {:induction false} DistRoundKeepsInv(g: Graph, w: seq<real>, alpha: real, xs: seq<nat>, s: State)
    requires Valid(g, w) && s.remain <= Vertices(g) && NonNegative(w) && alpha >= 1.0
    requires IsOrdering(xs, |g.adj|)
    ensures Inv(g, s) ==> Inv(g, DistRound(g, w, alpha, xs, s))
  {
    if Inv(g, s) {
      var R, M := s.remain, s.mwis;
      var ys := Walk(g, w, alpha, xs, R);
      var a0 := Acc({}, s.nbIs);
      assert AccInv(g, R, M, a0) by {
        assert M + a0.mis == M;
      }
      assert ClosedTo(g, M, R);
      AcceptAllKeeps(g, R, M, ys, a0);
      RoundInv(g, R, M, s.nbIs, AcceptAll(g, ys, a0));
    }
  }

  /** The state after the acceptance loop satisfies the invariant. */
  lemma {:induction false} RoundInv(g: Graph, R: set<nat>, M: set<nat>, N: set<nat>, a: Acc)
    requires WellFormed(g) && R + M + N == Vertices(g) && ClosedTo(g, M, R)
    requires AccInv(g, R, M, a) && N <= a.nb
    ensures Inv(g, State(R - (M + a.mis) - a.nb, M + a.mis, a.nb))
  {
    var S := M + a.mis;
    var t := State(R - S - a.nb, S, a.nb);
    assert t.remain + t.mwis + t.nbIs == Vertices(g) by {
      PartitionGrows(Vertices(g), R, M, N, a.mis, a.nb);
    }
    assert forall v, u {:trigger u in g.adj[v], v in S} ::
      v in S && v < |g.adj| && u in g.adj[v] ==> u !in t.remain;
  }

  /** Set algebra for the partition: `remain - mwis - nb_is`, `mwis` and
      `nb_is` still cover the vertices. */
  lemma {:induction false} PartitionGrows(V: set<nat>, R: set<nat>, M: set<nat>, N: set<nat>, A: set<nat>, X: set<nat>)
    requires R + M + N == V && A <= R && N <= X && X <= V
    ensures (R - (M + A) - X) + (M + A) + X == V
  {
  }

  /** The `while len(remain) > 0` loop; round `k` walks `order(k)`. */
  function DistRun(g: Graph, w: seq<real>, alpha: real, order: nat -> seq<nat>, k: nat, s: State): (r: State)
    requires Valid(g, w) && s.remain <= Vertices(g) && NonNegative(w) && alpha >= 1.0
    requires forall j :: IsOrdering(order(j), |g.adj|)
    ensures r.remain == {}
    ensures s.mwis <= r.mwis
    ensures Inv(g, s) ==> Inv(g, r)
    decreases |s.remain|
  {
    if s.remain == {} then s
    else
      DistRoundKeepsInv(g, w, alpha, order(k), s);
      DistRun(g, w, alpha, order, k + 1, DistRound(g, w, alpha, order(k), s))
  }

  /** `dist_greedy_search`: for non-negative weights and `epsilon > 0`, and
      whatever order each round walks its candidates in, the result is a
      maximal independent set. */
  function DistGreedySearch(g: Graph, w: seq<real>, eps: real, order: nat -> seq<nat>): (r: Selection)
    requires Valid(g, w) && NonNegative(w) && eps > 0.0
    requires forall j :: IsOrdering(order(j), |g.adj|)
    ensures MaximalIndependent(g, r.mwis)
  {
    InitInv(g);
    var s := DistRun(g, w, Alpha(eps), order, 0, Init(g));
    Selection(s.mwis, SetWeight(w, s.mwis))
  }

  /** The reported total is `np.sum(wts[list(mwis)])` for whatever order
      `list(mwis)` takes. */
  lemma {:induction false} DistGreedyTotal(g: Graph, w: seq<real>, eps: real, order: nat -> seq<nat>, xs: seq<nat>)
    requires Valid(g, w) && NonNegative(w) && eps > 0.0
    requires forall j :: IsOrdering(order(j), |g.adj|)
    requires AllBelow(xs, |w|) && Distinct(xs)
    requires forall x :: x in xs <==> x in DistGreedySearch(g, w, eps, order).mwis
    ensures ListWeight(w, xs) == DistGreedySearch(g, w, eps, order).total
  {
    ListWeightIsSetWeight(w, xs, DistGreedySearch(g, w, eps, order).mwis);
  }
}

/** The synchronous local greedy elimination of `local_greedy_search`.

    Every round, each vertex still in `remain` compares itself with its
    neighbours that are also still in `remain` (the snapshot taken at the
    start of the round). It joins `mwis` when it has no such neighbour, when it
    is strictly heavier than all of them, or when it ties the heaviest of them
    and its identity is below the lowest-identity neighbour that attains that
    weight. The remaining neighbours of a vertex that joins through a
    comparison go to `nb_is`, and the round ends with
    `remain = remain - mwis - nb_is`.

    Because every decision reads only the snapshot, a round is a function of
    the set `remain`; `Round` states it that way and `RoundIsLoop` shows that
    the vertex-by-vertex loop of the source computes the same thing in any
    visiting order.
 */
module LocalGreedy {
  import opened Graphs

  /** The branch of the round body a vertex takes. */
  datatype Verdict = Isolated | Heavier | TieWon | TieLost | Lighter {
    /** The vertex is added to `mwis`. */
    predicate Joins() {
      Isolated? || Heavier? || TieWon?
    }
  }

  /** Reference definition of a round winner: `v` beats every neighbour that
      is still remaining under the shared tie-break order. */
  ghost predicate LocalMax(g: Graph, w: seq<real>, R: set<nat>, v: nat)
    requires v < |g.adj|
  {
    forall u :: u in Nb(g, v, R) ==> u < |w| && v < |w| && Beats(w, v, u)
  }

  /** The comparison branch of the round body: `nbList` is the sorted list of
      remaining neighbours, compared by the maximum of their weights and, on a
      tie, by the first neighbour in the list that has that weight. */
  function Compare(w: seq<real>, v: nat, nbList: seq<nat>): Verdict
    requires v < |w| && |nbList| > 0 && AllBelow(nbList, |w|)
  {
    var wtsNb := WeightsAt(w, nbList);
    var wBar := MaxOf(wtsNb);
    if w[v] > wBar then Heavier
    else if w[v] == wBar then
      if v < nbList[IndexOf(wtsNb, w[v])] then TieWon else TieLost
    else Lighter
  }

  /** Against a sorted neighbour list, the comparison admits `v` exactly when
      `v` beats every listed neighbour. */
  lemma {:induction false} CompareIsTieBreak(w: seq<real>, v: nat, nbList: seq<nat>)
    requires v < |w| && |nbList| > 0 && AllBelow(nbList, |w|)
    requires forall i, j :: 0 <= i < j < |nbList| ==> nbList[i] < nbList[j]
    ensures Compare(w, v, nbList).Joins() <==> forall j :: 0 <= j < |nbList| ==> Beats(w, v, nbList[j])
  {
    var wtsNb := WeightsAt(w, nbList);
    var wBar := MaxOf(wtsNb);
    if w[v] == wBar {
      var i := IndexOf(wtsNb, w[v]);
      forall j | 0 <= j < |nbList| && w[nbList[j]] == w[v] ensures nbList[i] <= nbList[j] {
        assert wtsNb[j] == w[v];
      }
    } else if w[v] < wBar {
      var j :| 0 <= j < |wtsNb| && wtsNb[j] == wBar;
      assert !Beats(w, v, nbList[j]);
    }
  }

  /** The round body for `v` against the snapshot `R`: isolated vertices join
      outright, the others go through `Compare`. */
  function Decide(g: Graph, w: seq<real>, R: set<nat>, v: nat): (d: Verdict)
    requires Valid(g, w) && v < |g.adj|
    ensures d == Isolated <==> Nb(g, v, R) == {}
    ensures d.Joins() <==> LocalMax(g, w, R, v)
  {
    var nb := Nb(g, v, R);
    if nb == {} then Isolated
    else
      var nbList := Listing(nb, |g.adj|);
      ListingSorted(nb, |g.adj|);
      assert forall x :: x in nb ==> x in nbList;
      assert forall i :: 0 <= i < |nbList| ==> nbList[i] in nbList;
      CompareIsTieBreak(w, v, nbList);
      Compare(w, v, nbList)
  }

  /** What the round body does for `v` once its verdict `d` is known: what it
      adds to `mwis` and `nb_is`. */
  function Apply(g: Graph, R: set<nat>, v: nat, d: Verdict, s: State): State
    requires v < |g.adj|
  {
    match d
    case Isolated => s.(mwis := s.mwis + {v})
    case Heavier => s.(mwis := s.mwis + {v}, nbIs := s.nbIs + Nb(g, v, R))
    case TieWon => s.(mwis := s.mwis + {v}, nbIs := s.nbIs + Nb(g, v, R))
    case TieLost => s
    case Lighter => s
  }

  /** One pass of the round body for `v`. */
  function Visit(g: Graph, w: seq<real>, R: set<nat>, v: nat, s: State): State
    requires Valid(g, w) && v < |g.adj|
  {
    Apply(g, R, v, Decide(g, w, R, v), s)
  }

  /** The loop `for v in remain`, visiting the vertices in the order `order`. */
  function VisitAll(g: Graph, w: seq<real>, R: set<nat>, order: seq<nat>, s: State): State
    requires Valid(g, w) && AllBelow(order, |g.adj|)
  {
    if order == [] then s
    else VisitAll(g, w, R, order[1..], Visit(g, w, R, order[0], s))
  }

  /** The vertices that win the round started from `R`. */
  function Winners(g: Graph, w: seq<real>, R: set<nat>): (W: set<nat>)
    requires Valid(g, w) && R <= Vertices(g)
    ensures forall v :: v in W <==> v in R && LocalMax(g, w, R, v)
  {
    set v | v in R && Decide(g, w, R, v).Joins()
  }

  /** The vertices of `R` adjacent to some vertex of `T`. */
  function Excluded(g: Graph, R: set<nat>, T: set<nat>): (X: set<nat>)
    requires T <= Vertices(g)
    ensures forall u :: u in X <==> u in R && exists v :: v in T && u in g.adj[v]
  {
    var X := set v, u | v in T && u in Nb(g, v, R) :: u;
    assert forall u :: u in R && (exists v :: v in T && u in g.adj[v]) ==> u in X by {
      forall u | u in R && exists v :: v in T && u in g.adj[v] ensures u in X {
        var v :| v in T && u in g.adj[v];
        assert u in Nb(g, v, R);
      }
    }
    X
  }

  /** The source's three sets between rounds. */
  datatype State = State(remain: set<nat>, mwis: set<nat>, nbIs: set<nat>)

  function Init(g: Graph): State {
    State(Vertices(g), {}, {})
  }

  /** One synchronous round, as a function of the start-of-round state. */
  function Round(g: Graph, w: seq<real>, s: State): (t: State)
    requires Valid(g, w) && s.remain <= Vertices(g)
    ensures t.remain <= s.remain
    ensures s.remain != {} ==> |t.remain| < |s.remain|
    ensures s.mwis <= t.mwis && s.nbIs <= t.nbIs
  {
    var W := Winners(g, w, s.remain);
    var mwis := s.mwis + W;
    var nbIs := s.nbIs + Excluded(g, s.remain, W);
    RoundSelects(g, w, s.remain);
    State(s.remain - mwis - nbIs, mwis, nbIs)
  }

  /** Two adjacent vertices cannot both win a round: each would have to beat
      the other. */
  lemma {:induction false} WinnersIndependent(g: Graph, w: seq<real>, R: set<nat>)
    requires Valid(g, w) && R <= Vertices(g)
    ensures Independent(g, Winners(g, w, R))
  {
    var W := Winners(g, w, R);
    forall u, v | u in W && v in W && v < |g.adj| && u in g.adj[v]
      ensures false
    {
      assert u in Nb(g, v, R);
      assert v in g.adj[u];
      assert v in Nb(g, u, R);
      BeatsIsStrictTotalOrder(w, u, v, v);
    }
  }

  /** Every nonempty finite set of vertices has a `Beats`-maximum: the lowest
      identity among its heaviest members. */
  lemma {:induction false} ChampionExists(w: seq<real>, R: set<nat>) returns (c: nat)
    requires R != {} && forall v :: v in R ==> v < |w|
    ensures c in R && c < |w|
    ensures forall u :: u in R && u != c ==> Beats(w, c, u)
  {
    var x :| x in R;
    if R == {x} {
      c := x;
    } else {
      var c' := ChampionExists(w, R - {x});
      BeatsIsStrictTotalOrder(w, c', x, x);
      if Beats(w, c', x) {
        c := c';
      } else {
        c := x;
        forall u | u in R && u != c ensures Beats(w, c, u) {
          if u != c' {
            BeatsIsStrictTotalOrder(w, x, c', u);
          }
        }
      }
    }
  }

  /** The heaviest remaining vertex of lowest identity always wins. */
  lemma {:induction false} ChampionWins(g: Graph, w: seq<real>, R: set<nat>, c: nat)
    requires Valid(g, w) && R <= Vertices(g)
    requires c in R && forall u :: u in R && u != c ==> Beats(w, c, u)
    ensures c in Winners(g, w, R)
  {
  }

  /** Every round of a nonempty `remain` selects at least one vertex. */
  lemma {:induction false} RoundSelects(g: Graph, w: seq<real>, R: set<nat>)
    requires Valid(g, w) && R <= Vertices(g)
    ensures R != {} ==> Winners(g, w, R) != {}
  {
    if R != {} {
      var c := ChampionExists(w, R);
      ChampionWins(g, w, R, c);
    }
  }

  /** The set of elements of a listing. */
  function Elems(xs: seq<nat>): (S: set<nat>)
    ensures forall x :: x in S <==> x in xs
  {
    set x | x in xs
  }

  lemma {:induction false} ExcludedSplit(g: Graph, R: set<nat>, v: nat, T: set<nat>)
    requires T <= Vertices(g) && v < |g.adj|
    ensures Excluded(g, R, {v} + T) == Nb(g, v, R) + Excluded(g, R, T)
  {
  }

  /** One visit adds `v` and its remaining neighbours exactly when `v` wins. */
  lemma {:induction false} VisitCollects(g: Graph, w: seq<real>, R: set<nat>, v: nat, s: State)
    requires Valid(g, w) && R <= Vertices(g) && v in R
    ensures var t := Visit(g, w, R, v, s);
      && t.remain == s.remain
      && t.mwis == (if v in Winners(g, w, R) then s.mwis + {v} else s.mwis)
      && t.nbIs == (if v in Winners(g, w, R) then s.nbIs + Nb(g, v, R) else s.nbIs)
  {
  }

  /** Visiting the vertices of `order` adds exactly the winners among them to
      `mwis`, and their remaining neighbours to `nb_is`, whatever the order. */
  lemma {:induction false} VisitAllCollects(g: Graph, w: seq<real>, R: set<nat>, order: seq<nat>, s: State)
    requires Valid(g, w) && R <= Vertices(g) && AllBelow(order, |g.adj|)
    requires forall i :: 0 <= i < |order| ==> order[i] in R
    ensures var T := Winners(g, w, R) * Elems(order);
      VisitAll(g, w, R, order, s) == State(s.remain, s.mwis + T, s.nbIs + Excluded(g, R, T))
  {
    var W := Winners(g, w, R);
    if order == [] {
      assert W * Elems(order) == {};
      assert Excluded(g, R, {}) == {};
    } else {
      var rest := order[1..];
      assert forall i :: 0 <= i < |rest| ==> rest[i] == order[i + 1];
      VisitAllCollects(g, w, R, rest, Visit(g, w, R, order[0], s));
      VisitAllStep(g, w, R, order, s);
    }
  }

  /** The step of `VisitAllCollects`: what the first visit adds, followed by
      what the rest of the visits add. */
  lemma {:induction false} VisitAllStep(g: Graph, w: seq<real>, R: set<nat>, order: seq<nat>, s: State)
    requires Valid(g, w) && R <= Vertices(g) && AllBelow(order, |g.adj|) && order != []
    requires order[0] in R
    requires var s', T := Visit(g, w, R, order[0], s), Winners(g, w, R) * Elems(order[1..]);
      VisitAll(g, w, R, order[1..], s') == State(s'.remain, s'.mwis + T, s'.nbIs + Excluded(g, R, T))
    ensures var U := Winners(g, w, R) * Elems(order);
      VisitAll(g, w, R, order, s) == State(s.remain, s.mwis + U, s.nbIs + Excluded(g, R, U))
  {
    var W, v, rest := Winners(g, w, R), order[0], order[1..];
    var T := W * Elems(rest);
    VisitCollects(g, w, R, v, s);
    ElemsCons(order);
    MeetStep(W, v, Elems(rest));
    if v in W {
      ExcludedSplit(g, R, v, T);
      CollectStep(s.mwis, s.nbIs, v, T, Nb(g, v, R), Excluded(g, R, T));
    }
  }

  lemma {:induction false} ElemsCons(xs: seq<nat>)
    requires xs != []
    ensures Elems(xs) == {xs[0]} + Elems(xs[1..])
  {
    assert xs == [xs[0]] + xs[1..];
    forall x ensures x in xs <==> x == xs[0] || x in xs[1..] {
      if x in xs[1..] {
        var i :| 0 <= i < |xs[1..]| && xs[1..][i] == x;
        assert xs[i + 1] == x;
      }
    }
  }

  lemma {:induction false} MeetStep(W: set<nat>, v: nat, E: set<nat>)
    ensures v in W ==> W * ({v} + E) == {v} + W * E
    ensures v !in W ==> W * ({v} + E) == W * E
  {
  }

  lemma {:induction false} CollectStep(M: set<nat>, N: set<nat>, v: nat, T: set<nat>, A: set<nat>, B: set<nat>)
    ensures M + {v} + T == M + ({v} + T)
    ensures N + A + B == N + (A + B)
  {
  }

  /** The source's loop over the snapshot, in any order that lists each
      remaining vertex, followed by `remain = remain - mwis - nb_is`, is the
      round `Round`. */
  lemma {:induction false} RoundIsLoop(g: Graph, w: seq<real>, s: State, order: seq<nat>)
    requires Valid(g, w) && s.remain <= Vertices(g) && AllBelow(order, |g.adj|)
    requires forall x :: x in order <==> x in s.remain
    ensures var t := VisitAll(g, w, s.remain, order, s);
      Round(g, w, s) == State(s.remain - t.mwis - t.nbIs, t.mwis, t.nbIs)
  {
    VisitAllCollects(g, w, s.remain, order, s);
    assert Winners(g, w, s.remain) * Elems(order) == Winners(g, w, s.remain);
  }

  /** What holds between rounds: the three sets partition the vertices,
      `mwis` is independent, every `nb_is` vertex has a neighbour in `mwis`,
      and no `mwis` vertex has a neighbour still remaining. */
  ghost predicate Inv(g: Graph, s: State) {
    && s.remain + s.mwis + s.nbIs == Vertices(g)
    && s.remain !! s.mwis && s.remain !! s.nbIs && s.mwis !! s.nbIs
    && Independent(g, s.mwis)
    && Dominates(g, s.mwis, s.nbIs)
    && ClosedTo(g, s.mwis, s.remain)
  }

  lemma {:induction false} InitInv(g: Graph)
    requires WellFormed(g)
    ensures Inv(g, Init(g))
  {
  }

  /** Within a round the winners and the vertices they exclude are disjoint. */
  lemma {:induction false} WinnersNotExcluded(g: Graph, w: seq<real>, R: set<nat>)
    requires Valid(g, w) && R <= Vertices(g)
    ensures Winners(g, w, R) !! Excluded(g, R, Winners(g, w, R))
  {
    var W := Winners(g, w, R);
    WinnersIndependent(g, w, R);
    forall u | u in W ensures u !in Excluded(g, R, W) {
    }
  }

  lemma {:induction false} RoundKeepsIndependent(g: Graph, w: seq<real>, s: State)
    requires Valid(g, w) && s.remain <= Vertices(g) && Inv(g, s)
    ensures Independent(g, Round(g, w, s).mwis)
  {
    var W := Winners(g, w, s.remain);
    WinnersIndependent(g, w, s.remain);
    assert W <= s.remain;
    IndependentJoin(g, s.mwis, W, s.remain);
  }

  /** Independent vertices drawn from `R` can join an independent set none of
      whose members has a neighbour in `R`. */
  lemma {:induction false} IndependentJoin(g: Graph, M: set<nat>, W: set<nat>, R: set<nat>)
    requires WellFormed(g) && Independent(g, M) && Independent(g, W) && W <= R
    requires forall v, u {:trigger u in g.adj[v], v in M} :: v in M && v < |g.adj| && u in g.adj[v] ==> u !in R
    ensures Independent(g, M + W)
  {
    forall u, v | u in M + W && v in M + W && v < |g.adj|
      ensures u !in g.adj[v]
    {
    }
  }

  /** Each vertex a set excludes has a neighbour in that set. */
  lemma {:induction false} ExcludedDominated(g: Graph, R: set<nat>, T: set<nat>)
    requires WellFormed(g) && T <= Vertices(g)
    ensures Dominates(g, T, Excluded(g, R, T))
  {
    forall u | u in Excluded(g, R, T) && u !in T && u < |g.adj|
      ensures exists v :: v in T && v in g.adj[u]
    {
      var v :| v in T && u in g.adj[v];
      assert v in g.adj[u];
    }
  }

  lemma {:induction false} DominatesUnion(g: Graph, S1: set<nat>, T1: set<nat>, S2: set<nat>, T2: set<nat>)
    requires Dominates(g, S1, T1) && Dominates(g, S2, T2)
    ensures Dominates(g, S1 + S2, T1 + T2)
  {
    forall u | u in T1 + T2 && u !in S1 + S2 && u < |g.adj|
      ensures exists v :: v in S1 + S2 && v in g.adj[u]
    {
      if u in T1 {
        var v :| v in S1 && v in g.adj[u];
      } else {
        var v :| v in S2 && v in g.adj[u];
      }
    }
  }

  lemma {:induction false} RoundKeepsDominated(g: Graph, w: seq<real>, s: State)
    requires Valid(g, w) && s.remain <= Vertices(g) && Inv(g, s)
    ensures Dominates(g, Round(g, w, s).mwis, Round(g, w, s).nbIs)
  {
    var W := Winners(g, w, s.remain);
    ExcludedDominated(g, s.remain, W);
    DominatesUnion(g, s.mwis, s.nbIs, W, Excluded(g, s.remain, W));
  }

  lemma {:induction false} RoundKeepsClosed(g: Graph, w: seq<real>, s: State)
    requires Valid(g, w) && s.remain <= Vertices(g) && Inv(g, s)
    ensures var t := Round(g, w, s);
      forall v, u {:trigger u in g.adj[v], v in t.mwis} ::
        v in t.mwis && v < |g.adj| && u in g.adj[v] ==> u !in t.remain
  {
    var t := Round(g, w, s);
    var W := Winners(g, w, s.remain);
    forall v, u | v in t.mwis && v < |g.adj| && u in g.adj[v] ensures u !in t.remain {
      if v in W && u in s.remain {
        assert u in Excluded(g, s.remain, W);
      }
    }
  }

  lemma {:induction false} RoundKeepsPartition(g: Graph, w: seq<real>, s: State)
    requires Valid(g, w) && s.remain <= Vertices(g) && Inv(g, s)
    ensures var t := Round(g, w, s);
      && t.remain + t.mwis + t.nbIs == Vertices(g)
      && t.remain !! t.mwis && t.remain !! t.nbIs && t.mwis !! t.nbIs
  {
    var W := Winners(g, w, s.remain);
    WinnersNotExcluded(g, w, s.remain);
    PartitionStep(Vertices(g), s.remain, s.mwis, s.nbIs, W, Excluded(g, s.remain, W));
  }

  lemma {:induction false} PartitionStep(V: set<nat>, R: set<nat>, M: set<nat>, N: set<nat>, W: set<nat>, X: set<nat>)
    requires R + M + N == V && R !! M && R !! N && M !! N
    requires W <= R && X <= R && W !! X
    ensures var M', N' := M + W, N + X; var R' := R - M' - N';
      R' + M' + N' == V && R' !! M' && R' !! N' && M' !! N'
  {
  }

  /** A round keeps the invariant. */
  lemma {:induction false} RoundPreservesInv(g: Graph, w: seq<real>, s: State)
    requires Valid(g, w) && s.remain <= Vertices(g)
    ensures Inv(g, s) ==> Inv(g, Round(g, w, s))
  {
    if Inv(g, s) {
      RoundKeepsPartition(g, w, s);
      RoundKeepsIndependent(g, w, s);
      RoundKeepsDominated(g, w, s);
      RoundKeepsClosed(g, w, s);
    }
  }

  /** Rounds until `remain` is empty. */
  function Run(g: Graph, w: seq<real>, s: State): (r: State)
    requires Valid(g, w) && s.remain <= Vertices(g)
    ensures r.remain == {}
    ensures s.mwis <= r.mwis && s.nbIs <= r.nbIs
    ensures Inv(g, s) ==> Inv(g, r)
    decreases |s.remain|
  {
    if s.remain == {} then s
    else
      RoundPreservesInv(g, w, s);
      Run(g, w, Round(g, w, s))
  }

  /** The result of `local_greedy_search`: the selected set and its weight. */
  datatype Selection = Selection(mwis: set<nat>, total: real)

  /** `local_greedy_search`: the selected set is a maximal independent set. */
  function LocalGreedySearch(g: Graph, w: seq<real>): (r: Selection)
    requires Valid(g, w)
    ensures MaximalIndependent(g, r.mwis)
  {
    InitInv(g);
    var s := Run(g, w, Init(g));
    Selection(s.mwis, SetWeight(w, s.mwis))
  }

  /** At termination every vertex is either selected or excluded, never both,
      and every excluded vertex has a selected neighbour. The selected part is
      the set `local_greedy_search` returns. */
  lemma {:induction false} LocalGreedyPartition(g: Graph, w: seq<real>)
    requires Valid(g, w)
    ensures var r := Run(g, w, Init(g));
      && r.mwis + r.nbIs == Vertices(g) && r.mwis !! r.nbIs
      && Dominates(g, r.mwis, r.nbIs)
  {
    InitInv(g);
    var r := Run(g, w, Init(g));
    assert Inv(g, r) && r.remain == {};
    DropEmpty(r.remain, r.mwis, r.nbIs);
  }

  lemma {:induction false} DropEmpty(E: set<nat>, A: set<nat>, B: set<nat>)
    requires E == {}
    ensures E + A + B == A + B
  {
  }

  /** The reported total is `np.sum(wts[list(mwis)])` for whatever order
      `list(mwis)` takes. */
  lemma {:induction false} LocalGreedyTotal(g: Graph, w: seq<real>, xs: seq<nat>)
    requires Valid(g, w) && AllBelow(xs, |w|) && Distinct(xs)
    requires forall x :: x in xs <==> x in LocalGreedySearch(g, w).mwis
    ensures ListWeight(w, xs) == LocalGreedySearch(g, w).total
  {
    ListWeightIsSetWeight(w, xs, LocalGreedySearch(g, w).mwis);
  }

  /** The `remain` snapshot each round starts from. */
  function Snapshots(g: Graph, w: seq<real>, s: State): (rs: seq<set<nat>>)
    requires Valid(g, w) && s.remain <= Vertices(g)
    ensures |rs| <= |s.remain|
    ensures s.remain != {} <==> |rs| > 0
    decreases |s.remain|
  {
    if s.remain == {} then [] else [s.remain] + Snapshots(g, w, Round(g, w, s))
  }

  /** The number of rounds of `local_greedy_search`, at most the number of
      vertices. */
  function RoundCount(g: Graph, w: seq<real>): (n: nat)
    requires Valid(g, w)
    ensures n <= |g.adj|
    ensures |g.adj| > 0 ==> n >= 1
  {
    |Snapshots(g, w, Init(g))|
  }
}

/** The variants of the local greedy elimination: `local_greedy_search_nstep`
    (a round budget) and `local_greedy_search_count`, `_stats` and
    `_overhead` (the same rounds with counters).

    The counted variants run the same round body as `local_greedy_search`,
    visiting each round's snapshot in ascending identity order, and add:
    `step`, one per round; `p2p`, the number of remaining neighbours of every
    evaluated vertex; `bst`, the size of `remain` at the start of every round
    plus, at the end, the size of `mwis`; and `oh_vec[v]`, the remaining
    neighbours of `v` in every round it is evaluated, plus one when `v` joins
    through a comparison (not when it joins because it has no remaining
    neighbour).
 */
module LocalGreedyVariants {
  import opened Graphs
  import opened LocalGreedy

  // ---------------------------------------------------------------------------
  // Round budget: local_greedy_search_nstep
  // ---------------------------------------------------------------------------

  /** The loop of `local_greedy_search_nstep`: it runs while `remain` is
      nonempty and the counter, started at `nstep` and decreased once per
      round, is nonzero. A negative counter never reaches zero. */
  function RunBudget(g: Graph, w: seq<real>, s: State, budget: int): (r: State)
    requires Valid(g, w) && s.remain <= Vertices(g)
    ensures r.remain <= s.remain
    ensures Run(g, w, r) == Run(g, w, s)
    ensures budget < 0 ==> r.remain == {}
    ensures Inv(g, s) ==> Inv(g, r)
    decreases |s.remain|
  {
    if s.remain == {} || budget == 0 then s
    else
      RoundPreservesInv(g, w, s);
      RunBudget(g, w, Round(g, w, s), budget - 1)
  }

  /** A budget of `k` rounds, fewer than the run needs, stops at the `k`-th
      snapshot. */
  lemma {:induction false} BudgetStopsAtSnapshot(g: Graph, w: seq<real>, s: State, k: int)
    requires Valid(g, w) && s.remain <= Vertices(g)
    requires 0 <= k < |Snapshots(g, w, s)|
    ensures RunBudget(g, w, s, k).remain == Snapshots(g, w, s)[k]
    decreases |s.remain|
  {
    var t := BudgetStep(g, w, s);
    ConsIndex(s.remain, Snapshots(g, w, t), k);
    if k > 0 {
      BudgetStopsAtSnapshot(g, w, t, k - 1);
    }
  }

  lemma {:induction false} ConsIndex(x: set<nat>, xs: seq<set<nat>>, k: nat)
    requires k <= |xs|
    ensures ([x] + xs)[0] == x
    ensures 0 < k ==> ([x] + xs)[k] == xs[k - 1]
  {
  }

  /** A budget of at least as many rounds as the run needs gives the full
      run. */
  lemma {:induction false} BudgetCoversRun(g: Graph, w: seq<real>, s: State, k: int)
    requires Valid(g, w) && s.remain <= Vertices(g)
    requires k >= |Snapshots(g, w, s)|
    ensures RunBudget(g, w, s, k) == Run(g, w, s)
    decreases |s.remain|
  {
    if s.remain != {} {
      var t := BudgetStep(g, w, s);
      BudgetCoversRun(g, w, t, k - 1);
      assert RunBudget(g, w, s, k) == Run(g, w, s);
    } else {
      assert RunBudget(g, w, s, k) == s;
      assert Run(g, w, s) == s;
    }
  }

  /** One spent round of the budget is one round of the full run and one
      snapshot; `t` is the state after that round. */
  lemma {:induction false} BudgetStep(g: Graph, w: seq<real>, s: State) returns (t: State)
    requires Valid(g, w) && s.remain <= Vertices(g) && s.remain != {}
    ensures t.remain <= Vertices(g) && |t.remain| < |s.remain|
    ensures RunBudget(g, w, s, 0) == s
    ensures forall j :: j != 0 ==> RunBudget(g, w, s, j) == RunBudget(g, w, t, j - 1)
    ensures Run(g, w, s) == Run(g, w, t)
    ensures Snapshots(g, w, s) == [s.remain] + Snapshots(g, w, t)
  {
    t := Round(g, w, s);
  }

  /** The result of `local_greedy_search_nstep`: the selected set, its weight,
      and the excluded set `nb_is` (not the undecided vertices). */
  datatype PartialSelection = PartialSelection(mwis: set<nat>, total: real, nbIs: set<nat>)

  /** `local_greedy_search_nstep`: after the budgeted rounds the selection is
      independent and part of the full run's selection, each excluded vertex
      has a selected neighbour, a zero budget selects nothing, a negative
      budget or one covering every round gives the full result, a smaller
      budget leaves the snapshot that many rounds in undecided, and with
      nonnegative weights the partial total is at most the full one. */
  function LocalGreedySearchNstep(g: Graph, w: seq<real>, nstep: int): (r: PartialSelection)
    requires Valid(g, w)
    ensures Independent(g, r.mwis)
    ensures r.mwis !! r.nbIs && Dominates(g, r.mwis, r.nbIs)
    ensures r.nbIs <= Vertices(g)
    ensures r.mwis <= LocalGreedySearch(g, w).mwis
    ensures nstep == 0 ==> r.mwis == {} && r.nbIs == {}
    ensures nstep < 0 || nstep >= RoundCount(g, w) ==>
      r.mwis == LocalGreedySearch(g, w).mwis && r.nbIs == Run(g, w, Init(g)).nbIs
    ensures 0 <= nstep < RoundCount(g, w) ==>
      Vertices(g) - r.mwis - r.nbIs == Snapshots(g, w, Init(g))[nstep]
    ensures NonNegative(w) ==> r.total <= LocalGreedySearch(g, w).total
  {
    NstepState(g, w, nstep);
    var s := RunBudget(g, w, Init(g), nstep);
    assert NonNegative(w) ==> SetWeight(w, s.mwis) <= LocalGreedySearch(g, w).total by {
      if NonNegative(w) {
        WeightUpToMonotone(w, s.mwis, LocalGreedySearch(g, w).mwis, |w|);
      }
    }
    PartialSelection(s.mwis, SetWeight(w, s.mwis), s.nbIs)
  }

  /** The reported total of the budgeted run is `np.sum(wts[list(mwis)])` of
      its partial selection, for whatever order `list(mwis)` takes. */
  lemma {:induction false} LocalGreedyNstepTotal(g: Graph, w: seq<real>, nstep: int, xs: seq<nat>)
    requires Valid(g, w) && AllBelow(xs, |w|) && Distinct(xs)
    requires forall x :: x in xs <==> x in LocalGreedySearchNstep(g, w, nstep).mwis
    ensures ListWeight(w, xs) == LocalGreedySearchNstep(g, w, nstep).total
  {
    ListWeightIsSetWeight(w, xs, LocalGreedySearchNstep(g, w, nstep).mwis);
  }

  /** The state the budgeted loop stops in. */
  lemma {:induction false} NstepState(g: Graph, w: seq<real>, nstep: int)
    requires Valid(g, w)
    ensures var s, full := RunBudget(g, w, Init(g), nstep), Run(g, w, Init(g));
      && Inv(g, s)
      && Vertices(g) - s.mwis - s.nbIs == s.remain
      && s.mwis <= full.mwis
      && (nstep == 0 ==> s == Init(g))
      && (nstep < 0 || nstep >= RoundCount(g, w) ==> s == full)
      && (0 <= nstep < RoundCount(g, w) ==> s.remain == Snapshots(g, w, Init(g))[nstep])
  {
    InitInv(g);
    var s, full := RunBudget(g, w, Init(g), nstep), Run(g, w, Init(g));
    assert Inv(g, s);
    assert Vertices(g) - s.mwis - s.nbIs == s.remain by {
      InvRemain(g, s);
    }
    assert s.mwis <= full.mwis by {
      assert Run(g, w, s) == full;
    }
    if nstep == 0 {
      assert s == Init(g);
    }
    if nstep < 0 {
      assert s == full by {
        assert s.remain == {};
        assert Run(g, w, s) == s;
      }
    } else if nstep >= RoundCount(g, w) {
      assert s == full by {
        BudgetCoversRun(g, w, Init(g), nstep);
      }
    }
    if 0 <= nstep < RoundCount(g, w) {
      BudgetStopsAtSnapshot(g, w, Init(g), nstep);
    }
  }

  lemma {:induction false} InvRemain(g: Graph, s: State)
    requires Inv(g, s)
    ensures Vertices(g) - s.mwis - s.nbIs == s.remain
  {
  }

  // ---------------------------------------------------------------------------
  // Counters: local_greedy_search_count, _stats, _overhead
  // ---------------------------------------------------------------------------

  /** The loop state of the counted variants. */
  datatype Trace = Trace(state: State, step: nat, p2p: nat, bst: nat, oh: seq<nat>)

  /** The sum of a vector of counts. */
  function SeqSum(xs: seq<nat>): nat {
    if xs == [] then 0 else xs[0] + SeqSum(xs[1..])
  }

  lemma {:induction false} SeqSumUpdate(xs: seq<nat>, i: nat, k: nat)
    requires i < |xs|
    ensures SeqSum(xs[i := xs[i] + k]) == SeqSum(xs) + k
  {
    if i > 0 {
      SeqSumUpdate(xs[1..], i - 1, k);
      assert xs[i := xs[i] + k][1..] == xs[1..][i - 1 := xs[i] + k];
    }
  }

  /** The vertices that join the round from `R` through a comparison, and so
      announce themselves (the `+= 1` of `oh_vec`). */
  ghost function Announcers(g: Graph, w: seq<real>, R: set<nat>): (A: set<nat>)
    requires Valid(g, w) && R <= Vertices(g)
    ensures A <= R
  {
    set v | v in Winners(g, w, R) && Nb(g, v, R) != {}
  }

  /** The two branches of the round body that end in `oh_vec[v] += 1`. */
  predicate Announces(d: Verdict) {
    d == Heavier || d == TieWon
  }

  /** The verdict of every vertex against the snapshot `R`. A verdict reads
      only the snapshot, which the loop never changes, so the loop may take
      the verdicts from here. */
  function Verdicts(g: Graph, w: seq<real>, R: set<nat>): (vs: seq<Verdict>)
    requires Valid(g, w)
    ensures |vs| == |g.adj|
    ensures forall v :: 0 <= v < |g.adj| ==> vs[v] == Decide(g, w, R, v)
  {
    seq(|g.adj|, v requires 0 <= v < |g.adj| => Decide(g, w, R, v))
  }

  /** Against the snapshot `R`, the verdicts select the round's winners, an
      isolated vertex has no remaining neighbour, and the `+= 1` branches are
      taken exactly by the announcing vertices. */
  lemma {:induction false} VerdictsOfRound(g: Graph, w: seq<real>, R: set<nat>)
    requires Valid(g, w) && R <= Vertices(g)
    ensures var vs := Verdicts(g, w, R);
      && (forall v :: v in R ==> (vs[v].Joins() <==> v in Winners(g, w, R)))
      && (forall v :: v in R && vs[v] == Isolated ==> Nb(g, v, R) == {})
      && (forall v :: v in R ==> (Announces(vs[v]) <==> v in Announcers(g, w, R)))
  {
  }

  /** `len(nb_set)` of every vertex against the snapshot `R`. Like the
      verdicts, it reads only the snapshot. */
  function Degrees(g: Graph, R: set<nat>): (ks: seq<nat>)
    ensures |ks| == |g.adj|
    ensures forall v :: 0 <= v < |g.adj| ==> ks[v] == |Nb(g, v, R)|
  {
    seq(|g.adj|, v requires 0 <= v < |g.adj| => |Nb(g, v, R)|)
  }

  /** The sum of `ks[v]` over the members `v` of `R` below `n`; with
      `ks := Degrees(g, R)` and `n := N`, the remaining-neighbour counts of a
      snapshot, each edge inside `R` counted once from each end. */
  function SumAt(R: set<nat>, ks: seq<nat>, n: nat): nat
    requires n <= |ks|
  {
    if n == 0 then 0 else SumAt(R, ks, n - 1) + (if n - 1 in R then ks[n - 1] else 0)
  }

  /** The round body for `v`, whose verdict is `d` and which has `k` remaining
      neighbours, with its counters. */
  function VisitCounted(g: Graph, R: set<nat>, v: nat, d: Verdict, k: nat, t: Trace): (t': Trace)
    requires v < |g.adj| && |t.oh| == |g.adj|
    ensures |t'.oh| == |g.adj|
  {
    var bump := if Announces(d) then 1 else 0;
    t.(state := Apply(g, R, v, d, t.state), p2p := t.p2p + k, oh := t.oh[v := t.oh[v] + k + bump])
  }

  /** The counted loop `for v in remain` over the members of `R` below `n`,
      in ascending identity order, with the verdicts `vs` and the
      remaining-neighbour counts `ks`. */
  function VisitBelowCounted(g: Graph, R: set<nat>, vs: seq<Verdict>, ks: seq<nat>, n: nat, t: Trace): (t': Trace)
    requires n <= |vs| == |ks| == |g.adj| && |t.oh| == |g.adj|
    ensures |t'.oh| == |g.adj|
  {
    if n == 0 then t
    else
      var u := VisitBelowCounted(g, R, vs, ks, n - 1, t);
      if n - 1 in R then VisitCounted(g, R, n - 1, vs[n - 1], ks[n - 1], u) else u
  }

  /** A joining verdict adds `v` and its remaining neighbours, any other leaves
      the sets alone. */
  lemma {:induction false} ApplyCollects(g: Graph, R: set<nat>, v: nat, d: Verdict, s: State)
    requires v < |g.adj| && (d == Isolated ==> Nb(g, v, R) == {})
    ensures Apply(g, R, v, d, s) == if d.Joins() then s.(mwis := s.mwis + {v}, nbIs := s.nbIs + Nb(g, v, R)) else s
  {
    if d == Isolated {
      assert s.nbIs + Nb(g, v, R) == s.nbIs;
    }
  }

  /** The counted loop selects the vertices of `W` it visits, when `W` are the
      vertices with a joining verdict, and excludes their remaining
      neighbours. */
  lemma {:induction false} VisitBelowCountedState(g: Graph, R: set<nat>, vs: seq<Verdict>, ks: seq<nat>, W: set<nat>, n: nat, t: Trace)
    requires n <= |vs| == |ks| == |g.adj| && |t.oh| == |g.adj| && R <= Vertices(g) && W <= R
    requires forall v :: v in R ==> (vs[v].Joins() <==> v in W)
    requires forall v :: v in R && vs[v] == Isolated ==> Nb(g, v, R) == {}
    ensures VisitBelowCounted(g, R, vs, ks, n, t).state
      == State(t.state.remain, t.state.mwis + Upto(W, n), t.state.nbIs + ExcludedUpto(g, R, W, n))
  {
    if n == 0 {
      assert Upto(W, n) == {};
      AddNothing(t.state.mwis);
      AddNothing(t.state.nbIs);
    } else {
      var v := n - 1;
      VisitBelowCountedState(g, R, vs, ks, W, v, t);
      var u := VisitBelowCounted(g, R, vs, ks, v, t);
      if v in R {
        CountedStateStep(g, R, v, vs[v], W, t.state, u.state);
      } else {
        assert v !in W;
        UptoStep(W, v);
      }
    }
  }

  lemma {:induction false} AddNothing(A: set<nat>)
    ensures A + {} == A
  {
  }

  /** One visit of `v`, a member of `R`, extends the sets collected from the
      vertices of `W` below `v` to those below `v + 1`. */
  lemma {:induction false} CountedStateStep(g: Graph, R: set<nat>, v: nat, d: Verdict, W: set<nat>, s0: State, s: State)
    requires v < |g.adj| && (d.Joins() <==> v in W) && (d == Isolated ==> Nb(g, v, R) == {})
    requires s == State(s0.remain, s0.mwis + Upto(W, v), s0.nbIs + ExcludedUpto(g, R, W, v))
    ensures Apply(g, R, v, d, s)
      == State(s0.remain, s0.mwis + Upto(W, v + 1), s0.nbIs + ExcludedUpto(g, R, W, v + 1))
  {
    ApplyCollects(g, R, v, d, s);
    UptoStep(W, v);
    if v in W {
      AddStep(s0.mwis, s0.nbIs, v, Upto(W, v), Nb(g, v, R), ExcludedUpto(g, R, W, v));
    }
  }

  /** The members of `S` below `n`. */
  function Upto(S: set<nat>, n: nat): set<nat> {
    set v | v in S && v < n
  }

  lemma {:induction false} UptoStep(S: set<nat>, v: nat)
    ensures v in S ==> Upto(S, v + 1) == Upto(S, v) + {v} == {v} + Upto(S, v)
    ensures v !in S ==> Upto(S, v + 1) == Upto(S, v)
  {
  }

  lemma {:induction false} UptoAll(S: set<nat>, n: nat)
    requires forall v :: v in S ==> v < n
    ensures Upto(S, n) == S
  {
  }

  /** The remaining neighbours of the members of `W` below `n`, gathered in
      ascending order. */
  function ExcludedUpto(g: Graph, R: set<nat>, W: set<nat>, n: nat): set<nat>
    requires n <= |g.adj|
  {
    if n == 0 then {}
    else ExcludedUpto(g, R, W, n - 1) + (if n - 1 in W then Nb(g, n - 1, R) else {})
  }

  /** Gathering in order excludes what the round's exclusion rule excludes. */
  lemma {:induction false} ExcludedUptoIsExcluded(g: Graph, R: set<nat>, W: set<nat>, n: nat)
    requires n <= |g.adj| && W <= Vertices(g)
    ensures ExcludedUpto(g, R, W, n) == Excluded(g, R, Upto(W, n))
  {
    forall u ensures u in ExcludedUpto(g, R, W, n) <==> u in Excluded(g, R, Upto(W, n)) {
      ExcludedUptoMember(g, R, W, n, u);
    }
  }

  /** Membership in the gathered set: a remaining neighbour of some member of
      `W` below `n`. */
  lemma {:induction false} ExcludedUptoMember(g: Graph, R: set<nat>, W: set<nat>, n: nat, u: nat)
    requires n <= |g.adj|
    ensures u in ExcludedUpto(g, R, W, n) <==> u in R && exists v :: v in Upto(W, n) && u in g.adj[v]
  {
    if n > 0 {
      var v := n - 1;
      ExcludedUptoMember(g, R, W, v, u);
      UptoStep(W, v);
      if u in ExcludedUpto(g, R, W, n) && u !in ExcludedUpto(g, R, W, v) {
        assert v in Upto(W, n) && u in g.adj[v];
      }
      if u in R && exists x :: x in Upto(W, n) && u in g.adj[x] {
        var x :| x in Upto(W, n) && u in g.adj[x];
        if x < v {
          assert x in Upto(W, v);
        } else {
          assert u in Nb(g, v, R);
        }
      }
    }
  }

  lemma {:induction false} AddStep(M: set<nat>, N: set<nat>, v: nat, T: set<nat>, A: set<nat>, B: set<nat>)
    ensures M + T + {v} == M + (T + {v})
    ensures N + B + A == N + (B + A)
  {
  }

  /** The counted loop adds the counts `ks` of the vertices it visits to
      `p2p`, and those counts plus one per visited vertex of `A` to the sum of
      `oh_vec`, when `A` are the vertices taking a `+= 1` branch. */
  lemma {:induction false} VisitBelowCountedSums(g: Graph, R: set<nat>, vs: seq<Verdict>, ks: seq<nat>, A: set<nat>, n: nat, t: Trace)
    requires n <= |vs| == |ks| == |g.adj| && |t.oh| == |g.adj| && R <= Vertices(g) && A <= R
    requires forall v {:trigger vs[v]} :: v in R ==> (v in A <==> Announces(vs[v]))
    ensures var u := VisitBelowCounted(g, R, vs, ks, n, t);
      && u.step == t.step && u.bst == t.bst
      && u.p2p == t.p2p + SumAt(R, ks, n)
      && SeqSum(u.oh) == SeqSum(t.oh) + SumAt(R, ks, n) + CountBelow(A, n)
  {
    if n > 0 {
      var v := n - 1;
      VisitBelowCountedSums(g, R, vs, ks, A, v, t);
      var u := VisitBelowCounted(g, R, vs, ks, v, t);
      if v in R {
        SeqSumUpdate(u.oh, v, ks[v] + if Announces(vs[v]) then 1 else 0);
      }
    }
  }

  /** Entry `x` of `oh_vec` after the counted loop: its count and, on a
      `+= 1` branch, one more, when `x` is a visited member of `R`. */
  lemma {:induction false} VisitBelowCountedAt(g: Graph, R: set<nat>, vs: seq<Verdict>, ks: seq<nat>, n: nat, t: Trace, x: nat)
    requires n <= |vs| == |ks| == |g.adj| && |t.oh| == |g.adj| && x < |g.adj|
    ensures VisitBelowCounted(g, R, vs, ks, n, t).oh[x]
      == t.oh[x] + (if x < n && x in R then ks[x] + (if Announces(vs[x]) then 1 else 0) else 0)
  {
    if n > 0 {
      VisitBelowCountedAt(g, R, vs, ks, n - 1, t, x);
    }
  }

  /** The number of members of `A` below `n`. */
  function CountBelow(A: set<nat>, n: nat): nat {
    if n == 0 then 0 else CountBelow(A, n - 1) + (if n - 1 in A then 1 else 0)
  }

  lemma {:induction false} CountBelowIsCard(A: set<nat>, n: nat)
    ensures CountBelow(A, n) == |Upto(A, n)|
  {
    if n == 0 {
      assert Upto(A, n) == {};
    } else {
      CountBelowIsCard(A, n - 1);
      UptoStep(A, n - 1);
    }
  }

  /** Counting the members of a set of identities below `n` gives its size. */
  lemma {:induction false} CountAll(A: set<nat>, n: nat)
    requires forall v :: v in A ==> v < n
    ensures CountBelow(A, n) == |A|
  {
    CountBelowIsCard(A, n);
    UptoAll(A, n);
  }

  /** One counted round over the snapshot `R` with the verdicts `vs` and the
      counts `ks`: `bst += len(remain)`, the loop in ascending order, then
      `remain = remain - mwis - nb_is` and `step += 1`. */
  function CountedPass(g: Graph, R: set<nat>, vs: seq<Verdict>, ks: seq<nat>, t: Trace): (t': Trace)
    requires |vs| == |ks| == |g.adj| && |t.oh| == |g.adj|
    ensures |t'.oh| == |g.adj|
  {
    var u := VisitBelowCounted(g, R, vs, ks, |g.adj|, t.(bst := t.bst + |R|));
    u.(state := u.state.(remain := R - u.state.mwis - u.state.nbIs), step := u.step + 1)
  }

  /** The counters of one pass, when `A` are the vertices of `R` whose verdict
      takes a `+= 1` branch. */
  lemma {:induction false} CountedPassSums(g: Graph, R: set<nat>, vs: seq<Verdict>, ks: seq<nat>, A: set<nat>, t: Trace)
    requires |vs| == |ks| == |g.adj| && |t.oh| == |g.adj| && R <= Vertices(g) && A <= R
    requires forall v {:trigger vs[v]} :: v in R ==> (v in A <==> Announces(vs[v]))
    ensures var u := CountedPass(g, R, vs, ks, t);
      && u.step == t.step + 1
      && u.bst == t.bst + |R|
      && u.p2p == t.p2p + SumAt(R, ks, |g.adj|)
      && SeqSum(u.oh) == SeqSum(t.oh) + SumAt(R, ks, |g.adj|) + |A|
  {
    VisitBelowCountedSums(g, R, vs, ks, A, |g.adj|, t.(bst := t.bst + |R|));
    CountAll(A, |g.adj|);
  }

  /** Entry `x` of `oh_vec` after one pass, when `A` are the vertices of `R`
      whose verdict takes a `+= 1` branch. */
  lemma {:induction false} CountedPassAt(g: Graph, R: set<nat>, vs: seq<Verdict>, ks: seq<nat>, A: set<nat>, t: Trace, x: nat)
    requires |vs| == |ks| == |g.adj| && |t.oh| == |g.adj| && x < |g.adj|
    requires x in R ==> (x in A <==> Announces(vs[x]))
    ensures CountedPass(g, R, vs, ks, t).oh[x]
      == t.oh[x] + (if x in R then ks[x] + (if x in A then 1 else 0) else 0)
  {
    VisitBelowCountedAt(g, R, vs, ks, |g.adj|, t.(bst := t.bst + |R|), x);
  }

  /** The sets after one pass, when `W` are the vertices of `R` with a joining
      verdict: the round's winners are selected and their remaining
      neighbours excluded. */
  lemma {:induction false} CountedPassState(g: Graph, R: set<nat>, vs: seq<Verdict>, ks: seq<nat>, W: set<nat>, t: Trace)
    requires |vs| == |ks| == |g.adj| && |t.oh| == |g.adj| && R <= Vertices(g) && W <= R
    requires forall v :: v in R ==> (vs[v].Joins() <==> v in W)
    requires forall v :: v in R && vs[v] == Isolated ==> Nb(g, v, R) == {}
    ensures var M, N := t.state.mwis + W, t.state.nbIs + ExcludedUpto(g, R, W, |g.adj|);
      CountedPass(g, R, vs, ks, t).state == State(R - M - N, M, N)
  {
    VisitBelowCountedState(g, R, vs, ks, W, |g.adj|, t.(bst := t.bst + |R|));
    UptoAll(W, |g.adj|);
  }

  /** One counted round: the pass over the current `remain` with the verdicts
      and counts of that snapshot. Its sets are those of the plain round. */
  function RoundCounted(g: Graph, w: seq<real>, t: Trace): (t': Trace)
    requires Valid(g, w) && t.state.remain <= Vertices(g) && |t.oh| == |g.adj|
    ensures t'.state == Round(g, w, t.state)
    ensures |t'.oh| == |g.adj|
  {
    var R := t.state.remain;
    VerdictsOfRound(g, w, R);
    CountedPassState(g, R, Verdicts(g, w, R), Degrees(g, R), Winners(g, w, R), t);
    ExcludedUptoIsExcluded(g, R, Winners(g, w, R), |g.adj|);
    UptoAll(Winners(g, w, R), |g.adj|);
    CountedPass(g, R, Verdicts(g, w, R), Degrees(g, R), t)
  }

  /** The counters of one round. */
  lemma {:induction false} RoundCountedSums(g: Graph, w: seq<real>, t: Trace)
    requires Valid(g, w) && t.state.remain <= Vertices(g) && |t.oh| == |g.adj|
    ensures var R, u := t.state.remain, RoundCounted(g, w, t);
      && u.step == t.step + 1
      && u.bst == t.bst + |R|
      && u.p2p == t.p2p + SumAt(R, Degrees(g, R), |g.adj|)
      && SeqSum(u.oh) == SeqSum(t.oh) + SumAt(R, Degrees(g, R), |g.adj|) + |Announcers(g, w, R)|
  {
    var R := t.state.remain;
    VerdictsOfRound(g, w, R);
    CountedPassSums(g, R, Verdicts(g, w, R), Degrees(g, R), Announcers(g, w, R), t);
  }

  /** Entry `x` of `oh_vec` after one round: the remaining neighbours of `x`
      and its announcement, when `x` is in the snapshot. */
  lemma {:induction false} RoundCountedAt(g: Graph, w: seq<real>, t: Trace, x: nat)
    requires Valid(g, w) && t.state.remain <= Vertices(g) && |t.oh| == |g.adj| && x < |g.adj|
    ensures var R := t.state.remain;
      RoundCounted(g, w, t).oh[x]
        == t.oh[x] + (if x in R then |Nb(g, x, R)| + (if x in Announcers(g, w, R) then 1 else 0) else 0)
  {
    var R := t.state.remain;
    VerdictsOfRound(g, w, R);
    CountedPassAt(g, R, Verdicts(g, w, R), Degrees(g, R), Announcers(g, w, R), t, x);
  }

  /** Counted rounds until `remain` is empty. */
  function RunCounted(g: Graph, w: seq<real>, t: Trace): (t': Trace)
    requires Valid(g, w) && t.state.remain <= Vertices(g) && |t.oh| == |g.adj|
    ensures |t'.oh| == |g.adj|
    decreases |t.state.remain|
  {
    if t.state.remain == {} then t
    else RunCounted(g, w, RoundCounted(g, w, t))
  }

  /** Vertices that announced themselves in the rounds from `s` on. */
  ghost function Announced(g: Graph, w: seq<real>, s: State): (A: set<nat>)
    requires Valid(g, w) && s.remain <= Vertices(g)
    ensures A <= s.remain
    decreases |s.remain|
  {
    if s.remain == {} then {}
    else Announcers(g, w, s.remain) + Announced(g, w, Round(g, w, s))
  }

  /** `|remain|` summed over the rounds. */
  function SizeSum(rs: seq<set<nat>>): nat {
    if rs == [] then 0 else |rs[0]| + SizeSum(rs[1..])
  }

  /** Remaining-neighbour counts summed over the rounds. */
  function MessageSum(g: Graph, rs: seq<set<nat>>): nat {
    if rs == [] then 0 else SumAt(rs[0], Degrees(g, rs[0]), |g.adj|) + MessageSum(g, rs[1..])
  }

  /** The counted rounds make the plain rounds, and their counters add up
      round by round: one step, `|remain|` broadcasts and the remaining-neighbour
      counts per round, and one announcement per announcing vertex. */
  lemma {:induction false} RunCountedSums(g: Graph, w: seq<real>, t: Trace)
    requires Valid(g, w) && t.state.remain <= Vertices(g) && |t.oh| == |g.adj|
    ensures var u, rs := RunCounted(g, w, t), Snapshots(g, w, t.state);
      && u.state == Run(g, w, t.state)
      && u.step == t.step + |rs|
      && u.bst == t.bst + SizeSum(rs)
      && u.p2p == t.p2p + MessageSum(g, rs)
      && SeqSum(u.oh) == SeqSum(t.oh) + MessageSum(g, rs) + |Announced(g, w, t.state)|
    decreases |t.state.remain|
  {
    var R := t.state.remain;
    if R != {} {
      var t' := RoundCounted(g, w, t);
      RoundCountedSums(g, w, t);
      RunCountedSums(g, w, t');
      var rs := Snapshots(g, w, t.state);
      assert rs[1..] == Snapshots(g, w, t'.state);
      AnnouncedSplit(g, w, t.state);
    }
  }

  /** The remaining neighbours of `x` summed over the rounds whose snapshot
      holds `x`: the rounds in which `x` is evaluated. */
  function VertexLoad(g: Graph, rs: seq<set<nat>>, x: nat): nat
    requires x < |g.adj|
  {
    if rs == [] then 0
    else (if x in rs[0] then |Nb(g, x, rs[0])| else 0) + VertexLoad(g, rs[1..], x)
  }

  /** Entry `x` of `oh_vec` over the counted rounds from `t` on: its load and
      one if it announced itself in one of those rounds. */
  lemma {:induction false} RunCountedAt(g: Graph, w: seq<real>, t: Trace, x: nat)
    requires Valid(g, w) && t.state.remain <= Vertices(g) && |t.oh| == |g.adj| && x < |g.adj|
    ensures RunCounted(g, w, t).oh[x]
      == t.oh[x] + VertexLoad(g, Snapshots(g, w, t.state), x)
         + (if x in Announced(g, w, t.state) then 1 else 0)
    decreases |t.state.remain|
  {
    var R := t.state.remain;
    if R != {} {
      var t' := RoundCounted(g, w, t);
      RoundCountedAt(g, w, t, x);
      RunCountedAt(g, w, t', x);
      LoadStep(g, w, t.state, x);
    }
  }

  /** The load and the announcement of `x` from `s` on are those of the first
      round plus those of the rest. */
  lemma {:induction false} LoadStep(g: Graph, w: seq<real>, s: State, x: nat)
    requires Valid(g, w) && s.remain <= Vertices(g) && s.remain != {} && x < |g.adj|
    ensures var R, s' := s.remain, Round(g, w, s);
      && VertexLoad(g, Snapshots(g, w, s), x)
        == (if x in R then |Nb(g, x, R)| else 0) + VertexLoad(g, Snapshots(g, w, s'), x)
      && (if x in Announced(g, w, s) then 1 else 0)
        == (if x in R && x in Announcers(g, w, R) then 1 else 0) + (if x in Announced(g, w, s') then 1 else 0)
  {
    var rs := Snapshots(g, w, s);
    assert rs[0] == s.remain && rs[1..] == Snapshots(g, w, Round(g, w, s));
    AnnouncedSplit(g, w, s);
  }

  /** The vertices announcing in the first round do not announce again. */
  lemma {:induction false} AnnouncedSplit(g: Graph, w: seq<real>, s: State)
    requires Valid(g, w) && s.remain <= Vertices(g) && s.remain != {}
    ensures Announcers(g, w, s.remain) !! Announced(g, w, Round(g, w, s))
    ensures |Announced(g, w, s)| == |Announcers(g, w, s.remain)| + |Announced(g, w, Round(g, w, s))|
  {
    var A := Announcers(g, w, s.remain);
    var B := Announced(g, w, Round(g, w, s));
    assert A <= s.mwis + Winners(g, w, s.remain) <= Round(g, w, s).mwis;
    assert B <= Round(g, w, s).remain;
    assert A !! B;
  }

  /** Every announcing vertex ends up selected. */
  lemma {:induction false} AnnouncedSelected(g: Graph, w: seq<real>, s: State)
    requires Valid(g, w) && s.remain <= Vertices(g)
    ensures Announced(g, w, s) <= Run(g, w, s).mwis
    decreases |s.remain|
  {
    if s.remain != {} {
      var t := Round(g, w, s);
      AnnouncedSelected(g, w, t);
      assert Announcers(g, w, s.remain) <= t.mwis;
    }
  }

  /** The counters at the end of the counted run, `bst` already including the
      final `len(mwis)`. */
  function CountedRun(g: Graph, w: seq<real>): (t: Trace)
    requires Valid(g, w)
    ensures |t.oh| == |g.adj|
  {
    var t := RunCounted(g, w, Trace(Init(g), 0, 0, 0, seq(|g.adj|, _ => 0)));
    t.(bst := t.bst + |t.state.mwis|)
  }

  datatype CountResult = CountResult(mwis: set<nat>, total: real, step: nat)
  datatype StatsResult = StatsResult(mwis: set<nat>, total: real, step: nat, p2p: nat, bst: nat)
  datatype OverheadResult = OverheadResult(mwis: set<nat>, total: real, step: nat, p2p: nat, bst: nat, oh: seq<nat>)

  lemma {:induction false} ZerosSum(n: nat)
    ensures SeqSum(seq(n, _ => 0)) == 0
  {
    if n > 0 {
      assert seq(n, _ => 0)[1..] == seq(n - 1, _ => 0);
      ZerosSum(n - 1);
    }
  }

  /** The counters of a run from the initial state, against the plain run. */
  lemma {:induction false} CountedRunSums(g: Graph, w: seq<real>)
    requires Valid(g, w)
    ensures var t, rs := CountedRun(g, w), Snapshots(g, w, Init(g));
      && t.state == Run(g, w, Init(g))
      && t.step == |rs|
      && t.bst == SizeSum(rs) + |t.state.mwis|
      && t.p2p == MessageSum(g, rs)
      && SeqSum(t.oh) == t.p2p + |Announced(g, w, Init(g))|
  {
    RunCountedSums(g, w, Trace(Init(g), 0, 0, 0, seq(|g.adj|, _ => 0)));
    ZerosSum(|g.adj|);
  }

  /** Entry `x` of `oh_vec` at the end of a run from the initial state. */
  lemma {:induction false} CountedRunAt(g: Graph, w: seq<real>, x: nat)
    requires Valid(g, w) && x < |g.adj|
    ensures CountedRun(g, w).oh[x]
      == VertexLoad(g, Snapshots(g, w, Init(g)), x) + (if x in Announced(g, w, Init(g)) then 1 else 0)
  {
    RunCountedAt(g, w, Trace(Init(g), 0, 0, 0, seq(|g.adj|, _ => 0)), x);
  }

  /** `local_greedy_search_count`: the selection of `local_greedy_search`, and
      the number of rounds, at most N. */
  function LocalGreedySearchCount(g: Graph, w: seq<real>): (r: CountResult)
    requires Valid(g, w)
    ensures r.mwis == LocalGreedySearch(g, w).mwis && r.total == LocalGreedySearch(g, w).total
    ensures r.step == RoundCount(g, w) <= |g.adj|
  {
    var t := CountedRun(g, w);
    CountedRunSums(g, w);
    CountResult(t.state.mwis, SetWeight(w, t.state.mwis), t.step)
  }

  /** `local_greedy_search_stats`: the counted selection, plus `p2p`, the
      remaining-neighbour counts summed over all rounds, and `bst`, the
      snapshot sizes summed over all rounds plus `len(mwis)`. */
  function LocalGreedySearchStats(g: Graph, w: seq<real>): (r: StatsResult)
    requires Valid(g, w)
    ensures r.mwis == LocalGreedySearch(g, w).mwis && r.total == LocalGreedySearch(g, w).total
    ensures r.step == RoundCount(g, w)
    ensures r.p2p == MessageSum(g, Snapshots(g, w, Init(g)))
    ensures r.bst == SizeSum(Snapshots(g, w, Init(g))) + |r.mwis|
  {
    var t := CountedRun(g, w);
    CountedRunSums(g, w);
    StatsResult(t.state.mwis, SetWeight(w, t.state.mwis), t.step, t.p2p, t.bst)
  }

  /** `local_greedy_search_overhead`: the statistics, plus one overhead entry
      per vertex, its load over the rounds plus one if it announced itself;
      the entries add up to `p2p` plus the number of vertices that were
      selected while they still had remaining neighbours, and each of those
      is in the selection. */
  function LocalGreedySearchOverhead(g: Graph, w: seq<real>): (r: OverheadResult)
    requires Valid(g, w)
    ensures r.mwis == LocalGreedySearch(g, w).mwis && r.total == LocalGreedySearch(g, w).total
    ensures r.step == RoundCount(g, w)
    ensures r.p2p == MessageSum(g, Snapshots(g, w, Init(g)))
    ensures r.bst == SizeSum(Snapshots(g, w, Init(g))) + |r.mwis|
    ensures |r.oh| == |g.adj|
    ensures forall x :: 0 <= x < |g.adj| ==>
      r.oh[x] == VertexLoad(g, Snapshots(g, w, Init(g)), x) + (if x in Announced(g, w, Init(g)) then 1 else 0)
    ensures SeqSum(r.oh) == r.p2p + |Announced(g, w, Init(g))|
    ensures Announced(g, w, Init(g)) <= r.mwis
  {
    var t := CountedRun(g, w);
    CountedRunSums(g, w);
    AnnouncedSelected(g, w, Init(g));
    assert forall x :: 0 <= x < |g.adj| ==>
      t.oh[x] == VertexLoad(g, Snapshots(g, w, Init(g)), x) + (if x in Announced(g, w, Init(g)) then 1 else 0)
    by {
      forall x | 0 <= x < |g.adj|
        ensures t.oh[x] == VertexLoad(g, Snapshots(g, w, Init(g)), x) + (if x in Announced(g, w, Init(g)) then 1 else 0)
      {
        CountedRunAt(g, w, x);
      }
    }
    OverheadResult(t.state.mwis, SetWeight(w, t.state.mwis), t.step, t.p2p, t.bst, t.oh)
  }
}

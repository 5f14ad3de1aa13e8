# Maximum-weight independent set heuristics in Dafny

This project models the deterministic heuristics of `heuristics.py`. Each one
takes an undirected graph with one weight per vertex and returns a set of
vertices with no edge between any two of them, together with that set's
total weight. The modelled heuristics are:

- **local greedy elimination** (`local_greedy_search`) and its four variants:
  - `_count`, `_stats` and `_overhead`, which add round, message and overhead
    counters;
  - `_nstep`, which stops after a budget of rounds.
- **relaxed distributed greedy** (`dist_greedy_search`);
- **centralised greedy** (`greedy_search`) and the cleanup step at the end of
  `mp_ising`, which runs it on the subgraph induced by a candidate set.

A graph is the sequence of neighbour sets of vertices `0 .. N-1`. Row `v` is
the set of columns in which row `v` of the adjacency matrix is nonzero.
Weights are exact reals. The files are:

- `graph.dfy` (module `Graphs`): graphs, independence, domination, the shared
  tie-break order `Beats`, listings and weight sums.
- `local_greedy.dfy` (module `LocalGreedy`):
  - one round as a set function (`Winners`, `Excluded`, `Round`);
  - the source's vertex-by-vertex loop (`VisitAll`), shown equal to that set
    function for every visiting order;
  - the invariant every round keeps, and the full run.
- `local_greedy_variants.dfy` (module `LocalGreedyVariants`): the round
  budget of `_nstep`, and the counted run behind `_count`, `_stats` and
  `_overhead`.
- `dist_greedy.dfy` (module `DistGreedy`): the candidate set `seta`, the
  acceptance loop, rounds and the run, for every acceptance order.
- `central_greedy.dfy` (module `CentralGreedy`):
  - the one-pass greedy for every ordering by non-increasing weight;
  - its first-fit characterisation;
  - one such ordering (`ArgsortDesc`).
- `ising_cleanup.dfy` (module `IsingCleanup`): the induced subgraph, the call
  to the greedy, and the mapping back to vertex identities.
- `scenarios.dfy` (module `Scenarios`): the local greedy on two small graphs,
  with exact outcomes.

## Model

| member | source | states |
|---|---|---|
| Graphs.BeatsIsStrictTotalOrder | heuristics.py:103-111 | The tie-break the local rules use (heavier wins; on equal weight the lower identity wins) is irreflexive, asymmetric, transitive and total. So two neighbours never both consider themselves the winner. |
| Graphs.Listing | heuristics.py:99-100 | `sorted(list(S))` below `n` contains exactly the members of `S` below `n`. |
| Graphs.ListingSorted | heuristics.py:99-100 | That listing is strictly increasing. |
| Graphs.MaxOf | heuristics.py:102 | `max()` of a nonempty vector is an element of it and bounds every element. |
| Graphs.IndexOf | heuristics.py:107 | `list.index(x)` is the first position holding `x`. |
| Graphs.ListWeightIsSetWeight | heuristics.py:115 | Summing the weights of any duplicate-free listing of a set, in that listing's order, gives the set's weight. So the order of `list(mwis)` does not matter. |
| LocalGreedy.CompareIsTieBreak | heuristics.py:99-111 | Against the sorted list of remaining neighbours, the max/index comparison admits `v` exactly when `v` beats every listed neighbour under the tie-break. |
| LocalGreedy.Decide | heuristics.py:94-111 | The round body selects `v` exactly when `v` beats all its remaining neighbours. The isolated branch is taken exactly when no neighbour remains. |
| LocalGreedy.Winners | heuristics.py:91-113 | The vertices a round selects are exactly the remaining vertices that beat all their remaining neighbours. |
| LocalGreedy.Excluded | heuristics.py:105 | `nb_is` gains exactly the remaining vertices adjacent to a selected one. |
| LocalGreedy.WinnersIndependent | heuristics.py:103-111 | No two vertices selected in the same round are adjacent. |
| LocalGreedy.ChampionWins | heuristics.py:90-114 | The heaviest remaining vertex with the lowest identity is always selected. |
| LocalGreedy.RoundSelects | heuristics.py:90-114 | A round that starts with vertices remaining selects at least one. |
| LocalGreedy.VisitAllCollects | heuristics.py:91-113 | For any order of visiting, the loop adds exactly the winners it visits to `mwis`, and their remaining neighbours to `nb_is`. |
| LocalGreedy.RoundIsLoop | heuristics.py:90-114 | The loop over the snapshot, in any order that lists each remaining vertex once, followed by `remain - mwis - nb_is`, equals `Round`. |
| LocalGreedy.Round | heuristics.py:90-114 | A round never adds to `remain`, and it strictly shrinks a nonempty `remain`. So the `while` loop terminates. |
| LocalGreedy.RoundPreservesInv | heuristics.py:90-114 | A round keeps five facts: `remain`, `mwis` and `nb_is` partition the vertices; `mwis` is independent; every `nb_is` vertex has a neighbour in `mwis`; and no `mwis` vertex has a remaining neighbour. |
| LocalGreedy.Run | heuristics.py:90-114 | The loop ends with `remain` empty and keeps that invariant. |
| LocalGreedy.LocalGreedySearch | heuristics.py:77-116 | The result is a maximal independent set. |
| LocalGreedy.LocalGreedyPartition | heuristics.py:86-114 | At the end, `mwis` and `nb_is` split the vertices, and every `nb_is` vertex has a neighbour in `mwis`. |
| LocalGreedy.LocalGreedyTotal | heuristics.py:115 | The returned total equals `np.sum(wts[list(mwis)])` for any order of `list(mwis)`. |
| LocalGreedy.Snapshots | heuristics.py:90-114 | There is one `remain` snapshot per round; there are at most as many as remaining vertices, and none exactly when nothing remains. |
| LocalGreedy.RoundCount | heuristics.py:90-114 | The number of rounds is at most N, and at least 1 when N > 0. |
| LocalGreedyVariants.RunBudget | heuristics.py:279-303 | The budgeted loop only shrinks `remain` and keeps the invariant. Continuing from where it stops gives the full run's result. A negative budget never reaches zero, so such a run completes. |
| LocalGreedyVariants.BudgetStopsAtSnapshot | heuristics.py:279-303 | A budget of `k` rounds, below the number the run needs, stops exactly at the `k`-th snapshot. |
| LocalGreedyVariants.BudgetCoversRun | heuristics.py:279-303 | A budget at least as large as the number of rounds gives the full run. |
| LocalGreedyVariants.LocalGreedySearchNstep | heuristics.py:266-305 | After `nstep` rounds, `mwis` is independent and is part of the full result. Every returned `nb_is` vertex is a vertex of the graph with a neighbour in `mwis`, disjoint from `mwis`. `nstep == 0` returns nothing. A negative `nstep`, or one at least the number of rounds the full run needs, returns the full run's `mwis` and `nb_is`. A smaller nonnegative `nstep` leaves undecided exactly the `nstep`-th snapshot. With non-negative weights the partial total is at most the full total. |
| LocalGreedyVariants.LocalGreedyNstepTotal | heuristics.py:304 | The returned total equals `np.sum(wts[list(mwis)])` of the partial `mwis`, for any order of `list(mwis)`. |
| LocalGreedyVariants.VerdictsOfRound | heuristics.py:184-204 | Verdicts select exactly the winners. The `+= 1` branches are taken exactly by the vertices that join through a comparison. |
| LocalGreedyVariants.RoundCounted | heuristics.py:179-206 | A counted round moves the three sets exactly as the plain round does. |
| LocalGreedyVariants.RoundCountedSums | heuristics.py:179-206 | One counted round adds these amounts: one `step`; `len(remain)` to `bst`; the remaining-neighbour counts of all remaining vertices to `p2p`; and those counts plus one per comparison-selected vertex to the sum of `oh_vec`. |
| LocalGreedyVariants.RunCountedSums | heuristics.py:179-206 | Over the whole run, the counters add up round by round against the snapshots of the plain run. |
| LocalGreedyVariants.AnnouncedSelected | heuristics.py:246-256 | Every vertex that takes a `+= 1` branch ends up in `mwis`. |
| LocalGreedyVariants.CountedRunSums | heuristics.py:170-209 | Starting from zero counters, the counted run computes the following: the plain run's sets; `step` = number of rounds; `bst` = the summed snapshot sizes plus `len(mwis)`; `p2p` = the summed remaining-neighbour counts; and the sum of `oh_vec` = `p2p` plus the number of comparison-selected vertices. |
| LocalGreedyVariants.LocalGreedySearchCount | heuristics.py:119-160 | Returns the same `mwis` and total as `local_greedy_search`, and `step` equals the number of rounds, at most N. |
| LocalGreedyVariants.LocalGreedySearchStats | heuristics.py:163-209 | Returns the same selection, plus the values of `step`, `p2p` and `bst` described above. |
| LocalGreedyVariants.RunCountedAt | heuristics.py:230-260 | Over the counted rounds, entry `v` of `oh_vec` grows by the remaining-neighbour counts of `v` in the rounds whose snapshot holds `v`, plus one if `v` joined through a comparison in one of them. |
| LocalGreedyVariants.CountedRunAt | heuristics.py:223-260 | From zero counters, entry `v` of `oh_vec` ends as the remaining-neighbour counts of `v` summed over the rounds it is evaluated in, plus one if it joined through a comparison. |
| LocalGreedyVariants.LocalGreedySearchOverhead | heuristics.py:212-263 | Returns the same selection and statistics. `oh_vec` has one entry per vertex: the remaining-neighbour counts of that vertex summed over the rounds it is evaluated in, plus one if it joined through a comparison. The entries sum to `p2p` plus the number of comparison-selected vertices, all of which are in `mwis`. |
| DistGreedy.Alpha | heuristics.py:46 | `alpha = 1 + epsilon/3` exceeds 1 for every `epsilon > 0`. |
| DistGreedy.NbMax | heuristics.py:56-61 | `w_bar_v` is the weight of some remaining neighbour, and bounds them all. |
| DistGreedy.HeaviestIsCandidate | heuristics.py:54-63 | With non-negative weights and `alpha >= 1`, a heaviest remaining vertex is a candidate. |
| DistGreedy.CandidatesNonEmpty | heuristics.py:53-63 | When vertices remain, `seta` is nonempty. |
| DistGreedy.AcceptAll | heuristics.py:64-70 | The acceptance loop only grows `mis_i` and `nb_is`, and it accepts only listed candidates. |
| DistGreedy.AcceptStepKeeps | heuristics.py:64-70 | Each candidate step keeps several facts: the selection stays independent and disjoint from `nb_is`; accepted vertices have all their neighbours in `nb_is`; every `nb_is` vertex has a selected neighbour; and the candidate ends up accepted or in `nb_is`. |
| DistGreedy.AcceptAllKeeps | heuristics.py:64-72 | The whole acceptance loop keeps those facts, and it decides every candidate. |
| DistGreedy.FirstCandidateAccepted | heuristics.py:64-70 | The first candidate walked in a round is always accepted. |
| DistGreedy.DistRound | heuristics.py:53-72 | A round never adds to `remain`, strictly shrinks a nonempty `remain`, and only grows `mwis`, whatever the order. |
| DistGreedy.DistRoundKeepsInv | heuristics.py:53-72 | A round keeps the same invariant as the local greedy: partition, independence, domination of `nb_is`, and no selected vertex with a remaining neighbour. |
| DistGreedy.DistRun | heuristics.py:53-72 | The loop ends with `remain` empty and keeps the invariant, for every sequence of round orders. |
| DistGreedy.DistGreedySearch | heuristics.py:38-74 | With non-negative weights, `epsilon > 0` and any acceptance orders, the result is a maximal independent set. |
| DistGreedy.DistGreedyTotal | heuristics.py:73 | The returned total equals `np.sum(wts[list(mwis)])` for any order of `list(mwis)`. |
| CentralGreedy.GreedySearch | heuristics.py:13-35 | For every ordering by non-increasing weight, the result has these properties: it is exactly the first-fit choice along that ordering; it is a maximal independent set; every vertex left out has a chosen neighbour at least as heavy; the first vertex of the ordering is a heaviest vertex and is chosen; and `total_ws` is the chosen set's weight. |
| CentralGreedy.FirstFitUnique | heuristics.py:28-33 | Along a given ordering exactly one set satisfies the first-fit condition, so the walk's result depends only on the ordering. |
| CentralGreedy.FirstFitProperties | heuristics.py:22-33 | The first-fit choice along a descending ordering is maximal independent. It leaves out no vertex without an at-least-as-heavy chosen neighbour, and it contains the first, heaviest, vertex. |
| CentralGreedy.FirstFitIndependent | heuristics.py:28-33 | No two vertices of a first-fit choice are adjacent. |
| CentralGreedy.FirstFitCovers | heuristics.py:22-33 | Every vertex outside a first-fit choice along a descending ordering has an earlier, at least as heavy, chosen neighbour. |
| CentralGreedy.SumOf | heuristics.py:34 | `np.sum(wts[list(mwis)])` is the weight of `mwis`. |
| CentralGreedy.ArgsortDesc | heuristics.py:22 | For every weight vector there is an ordering of all vertices by non-increasing weight, as `argsort(-wts)` returns. |
| IsingCleanup.CandidateListing | heuristics.py:594 | `np.nonzero(spins)[0]` lists each candidate below N exactly once. |
| IsingCleanup.InducedWellFormed | heuristics.py:610-613 | The induced subgraph on distinct vertices is again symmetric and without loops. |
| IsingCleanup.Cleanup | heuristics.py:609-616 | The result is an independent set of candidates, and every candidate left out has a chosen neighbour at least as heavy. If there is any candidate, the result holds a heaviest one. The returned total is the result's weight. |
| IsingCleanup.LiftKeeps | heuristics.py:614-615 | Mapping a maximal independent set of the induced subgraph back to vertex identities gives an independent set of candidates that dominates every other candidate by weight. |
| IsingCleanup.HeaviestKept | heuristics.py:614-615 | The first position of the greedy's ordering maps back to a heaviest candidate, and that candidate is kept. |
| Scenarios.TieOnEdge | heuristics.py:106-111 | On a single edge with equal weights, vertex 0 wins the tie. One round gives `{0}` with weight 2. |
| Scenarios.HeavyPairOnCycle | heuristics.py:103-105 | On the 4-cycle with weights 1, 5, 1, 5, both heavy vertices are chosen in one round, with weight 10. |

## Left out

- `mlp_gurobi`, `mwis_mip_edge_relax`, `mwis_mip_clique_relax` and `mwis_mip_edge_dual` are not modelled: they are calls to external MILP/LP solvers.
- `get_all_mis` and `get_mwis` are not modelled: the first delegates to igraph, and the second only makes sense on its output.
- `gradient_projection` is not modelled: it is a floating-point iteration that stops at a numeric tolerance.
- `mp_greedy` and `mp_color09` are not modelled: their inputs come from LP relaxations, and their state is NaN-coded numpy arrays.
- The annealing loop of `mp_ising` (lines 555-592) is not modelled: it draws random numbers and uses an `exp` acceptance rule. Its output, the candidate set, is an input of `IsingCleanup.Cleanup`.
- `test_heuristic`, the module-level `print`, and the sparse-matrix and numpy conversions are not modelled. Graphs are neighbour sets, and `np.nonzero` listings are ascending listings.
- Floating point is not modelled: weights, `alpha` and the totals are exact reals. The source compares float weights with `>`, `==` and `>=`, and sums floats in the order of `list(mwis)`. With exact reals that order does not matter, which `ListWeightIsSetWeight` states.
- `oh_vec` is a vector of natural-number counts. The source stores it as a float array shaped like `wts`, but it only ever adds integers to it.
- Python's set iteration order is not modelled:
  - For the plain local greedy, the loop is proved equal to the set form for every visiting order (`LocalGreedy.RoundIsLoop`).
  - The counted variants visit each snapshot in ascending identity order. Their counters do not depend on the order, because every decision and count reads only the snapshot.
- `DistGreedy.DistGreedySearch` only covers non-negative weights and `epsilon > 0`:
  - `epsilon == 0` makes the source divide by zero (`beta = 3.0 / epislon`).
  - With negative weights, or with a negative `epsilon`, the candidate set can be empty while vertices remain. The `while` loop then never ends; an edge whose two endpoints both weigh -1 is an example.
  - The acceptance order of each round is a parameter `order(k)` that lists every vertex once.
- The unused `beta` of `dist_greedy_search` is not modelled.
- Default arguments are not modelled: callers pass `epislon` (default 0.5 in `dist_greedy_search`) and `nstep` (default 1 in `local_greedy_search_nstep`) explicitly.
- `LocalGreedyVariants.LocalGreedySearchNstep` takes an integer `nstep`. In the source a non-integer `nstep` such as 1.5 never reaches exactly 0 when decremented, so its run completes like the run for a negative `nstep`.
- `CentralGreedy.GreedySearch` takes the visiting order `ranks` as a parameter. `np.argsort(-wts)` does not fix an order among equal weights, so the properties are proved for every ordering by non-increasing weight. `ArgsortDesc` shows that such an ordering always exists.
- `IsingCleanup.Cleanup` takes the order its greedy call walks the induced subgraph in as a parameter, for the same reason. It ignores candidate identities at or above N, which `np.nonzero(spins)` cannot produce.
- The values the `mp_ising` annealing writes into `spins` are not modelled. Only which entries are nonzero at the end reaches the cleanup, and that is the candidate-set input of `IsingCleanup.Cleanup`.

/** Vertex-weighted undirected graphs as the heuristics see them.

    Vertices are the identities 0 .. N-1. `adj[v]` is the set of columns in
    which row `v` of the (sparse) adjacency matrix is nonzero, i.e. what
    `np.nonzero(adj[v])` yields. Weights are exact reals, one per vertex.
 */
module Graphs {

  datatype Graph = Graph(adj: seq<set<nat>>)

  /** The vertex identities 0 .. N-1. */
  function Vertices(g: Graph): (vs: set<nat>)
    ensures forall v: nat :: v in vs <==> v < |g.adj|
    ensures |vs| == |g.adj|
  {
    Below(|g.adj|)
  }

  /** The identities 0 .. n-1. */
  function Below(n: nat): (vs: set<nat>)
    ensures forall v: nat :: v in vs <==> v < n
    ensures |vs| == n
  {
    if n == 0 then {} else Below(n - 1) + {n - 1}
  }

  /** Every listed identity is below `n`. */
  ghost predicate AllBelow(xs: seq<nat>, n: nat) {
    forall i :: 0 <= i < |xs| ==> xs[i] < n
  }

  /** Every neighbour is a vertex, no vertex is its own neighbour, and the
      neighbour relation is symmetric (the adjacency matrix is symmetric with
      an empty diagonal). */
  ghost predicate WellFormed(g: Graph) {
    forall v, u {:trigger u in g.adj[v]} ::
      0 <= v < |g.adj| && u in g.adj[v] ==> u < |g.adj| && u != v && v in g.adj[u]
  }

  /** A graph together with one weight per vertex. */
  ghost predicate Valid(g: Graph, w: seq<real>) {
    |w| == |g.adj| && WellFormed(g)
  }

  ghost predicate NonNegative(w: seq<real>) {
    forall i :: 0 <= i < |w| ==> 0.0 <= w[i]
  }

  /** The neighbours of `v` that lie in `R` (`set(nb_set).intersection(remain)`). */
  function Nb(g: Graph, v: nat, R: set<nat>): set<nat>
    requires v < |g.adj|
  {
    g.adj[v] * R
  }

  /** No two vertices of `S` are adjacent. */
  ghost predicate Independent(g: Graph, S: set<nat>) {
    && S <= Vertices(g)
    && forall u, v {:trigger u in g.adj[v], v in S} :: u in S && v in S && v < |g.adj| ==> u !in g.adj[v]
  }

  /** Every vertex of `T` outside `S` has a neighbour in `S`. */
  ghost predicate Dominates(g: Graph, S: set<nat>, T: set<nat>) {
    forall v :: v in T && v !in S && v < |g.adj| ==> exists u :: u in S && u in g.adj[v]
  }

  /** No vertex of `M` has a neighbour in `R`. */
  ghost predicate ClosedTo(g: Graph, M: set<nat>, R: set<nat>) {
    forall v, u {:trigger u in g.adj[v], v in M} :: v in M && v < |g.adj| && u in g.adj[v] ==> u !in R
  }

  /** An independent set that cannot be extended: every other vertex has a
      neighbour inside it. */
  ghost predicate MaximalIndependent(g: Graph, S: set<nat>) {
    Independent(g, S) && Dominates(g, S, Vertices(g))
  }

  /** The tie-break order shared by all local rules: `v` beats `u` when it is
      strictly heavier, or equally heavy with the lower identity. */
  predicate Beats(w: seq<real>, v: nat, u: nat)
    requires v < |w| && u < |w|
  {
    w[v] > w[u] || (w[v] == w[u] && v < u)
  }

  /** `Beats` is a strict total order on vertex identities, so two endpoints of
      an edge always agree on which of them wins. */
  lemma {:induction false} BeatsIsStrictTotalOrder(w: seq<real>, a: nat, b: nat, c: nat)
    requires a < |w| && b < |w| && c < |w|
    ensures !Beats(w, a, a)
    ensures Beats(w, a, b) ==> !Beats(w, b, a)
    ensures Beats(w, a, b) && Beats(w, b, c) ==> Beats(w, a, c)
    ensures a != b ==> Beats(w, a, b) || Beats(w, b, a)
  {
  }

  /** The members of `S` below `n` in ascending order: `sorted(list(S))`, and
      also the order in which `np.nonzero` reports indices. */
  function Listing(S: set<nat>, n: nat): (xs: seq<nat>)
    ensures forall x :: x in xs <==> x in S && x < n
  {
    if n == 0 then [] else Listing(S, n - 1) + (if n - 1 in S then [n - 1] else [])
  }

  /** `Listing` is strictly increasing. */
  lemma {:induction false} ListingSorted(S: set<nat>, n: nat)
    ensures forall i, j :: 0 <= i < j < |Listing(S, n)| ==> Listing(S, n)[i] < Listing(S, n)[j]
  {
    if n > 0 {
      ListingSorted(S, n - 1);
      var xs := Listing(S, n - 1);
      assert forall i :: 0 <= i < |xs| ==> xs[i] in xs;
      assert Listing(S, n) == xs + (if n - 1 in S then [n - 1] else []);
    }
  }

  /** No element occurs twice. */
  ghost predicate Distinct(xs: seq<nat>) {
    forall i, j :: 0 <= i < j < |xs| ==> xs[i] != xs[j]
  }

  /** A listing of the identities `0 .. n-1`, each exactly once. */
  ghost predicate IsOrdering(xs: seq<nat>, n: nat) {
    && AllBelow(xs, n) && Distinct(xs)
    && forall v: nat :: v < n ==> v in xs
  }

  /** `wts[xs]`: the weights of the listed vertices. */
  function WeightsAt(w: seq<real>, xs: seq<nat>): (ws: seq<real>)
    requires AllBelow(xs, |w|)
    ensures |ws| == |xs|
    ensures forall i :: 0 <= i < |xs| ==> ws[i] == w[xs[i]]
  {
    seq(|xs|, i requires 0 <= i < |xs| => w[xs[i]])
  }

  /** `max()` of a nonempty vector. */
  function MaxOf(xs: seq<real>): (m: real)
    requires |xs| > 0
    ensures forall i :: 0 <= i < |xs| ==> xs[i] <= m
    ensures m in xs
  {
    if |xs| == 1 then xs[0]
    else
      var m' := MaxOf(xs[..|xs| - 1]);
      if xs[|xs| - 1] > m' then xs[|xs| - 1] else m'
  }

  /** `list.index(x)`: the position of the first occurrence of `x`. */
  function IndexOf(xs: seq<real>, x: real): (i: nat)
    requires x in xs
    ensures i < |xs| && xs[i] == x
    ensures forall j :: 0 <= j < i ==> xs[j] != x
  {
    if xs[0] == x then 0 else 1 + IndexOf(xs[1..], x)
  }

  /** The weight of the members of `S` below `n`, accumulated in id order. */
  function WeightUpTo(w: seq<real>, S: set<nat>, n: nat): real
    requires n <= |w|
  {
    if n == 0 then 0.0
    else WeightUpTo(w, S, n - 1) + (if n - 1 in S then w[n - 1] else 0.0)
  }

  /** The total weight of a vertex set. */
  function SetWeight(w: seq<real>, S: set<nat>): real {
    WeightUpTo(w, S, |w|)
  }

  /** `np.sum(wts[xs])`: the weights of a listing, summed left to right. */
  function ListWeight(w: seq<real>, xs: seq<nat>): real
    requires AllBelow(xs, |w|)
  {
    if xs == [] then 0.0 else ListWeight(w, xs[..|xs| - 1]) + w[xs[|xs| - 1]]
  }

  lemma {:induction false} WeightUpToInsert(w: seq<real>, S: set<nat>, x: nat, n: nat)
    requires n <= |w| && x !in S
    ensures WeightUpTo(w, S + {x}, n) == WeightUpTo(w, S, n) + (if x < n then w[x] else 0.0)
  {
    if n > 0 {
      WeightUpToInsert(w, S, x, n - 1);
    }
  }

  lemma {:induction false} WeightOfEmpty(w: seq<real>, n: nat)
    requires n <= |w|
    ensures WeightUpTo(w, {}, n) == 0.0
  {
    if n > 0 {
      WeightOfEmpty(w, n - 1);
    }
  }

  /** Summing the weights of a duplicate-free listing of `S`, in whatever order
      the listing has, gives the weight of `S`. */
  lemma {:induction false} ListWeightIsSetWeight(w: seq<real>, xs: seq<nat>, S: set<nat>)
    requires AllBelow(xs, |w|)
    requires Distinct(xs)
    requires forall x :: x in xs <==> x in S
    ensures ListWeight(w, xs) == SetWeight(w, S)
  {
    if xs == [] {
      assert S == {};
      WeightOfEmpty(w, |w|);
    } else {
      var last := xs[|xs| - 1];
      var init := xs[..|xs| - 1];
      assert last !in init;
      ListWeightIsSetWeight(w, init, S - {last});
      WeightUpToInsert(w, S - {last}, last, |w|);
      assert S - {last} + {last} == S;
    }
  }

  /** Adding a vertex of non-negative weight never decreases the total. */
  lemma {:induction false} WeightUpToMonotone(w: seq<real>, S: set<nat>, T: set<nat>, n: nat)
    requires n <= |w| && NonNegative(w) && S <= T
    ensures WeightUpTo(w, S, n) <= WeightUpTo(w, T, n)
  {
    if n > 0 {
      WeightUpToMonotone(w, S, T, n - 1);
    }
  }
}

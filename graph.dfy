/** `networkx.DiGraph` reduced to what the classifier uses: a set of
    directed edges whose endpoints are the nodes. */
module Graph {
  import opened Seqs

  datatype DiGraph<N(==)> = DiGraph(edges: set<(N, N)>) {

    /** The nodes: every endpoint of an edge. */
    function Nodes(): set<N> {
      (set e | e in edges :: e.0) + (set e | e in edges :: e.1)
    }

    /** `add_edges_from(ebunch)`: the graph only grows, and adding edges it
        already has leaves it as it was. */
    function AddEdgesFrom(ebunch: seq<(N, N)>): (g: DiGraph<N>)
      ensures edges <= g.edges && Elements(ebunch) <= g.edges
      ensures g.edges - edges <= Elements(ebunch)
      ensures Elements(ebunch) <= edges ==> g == this
    {
      DiGraph(edges + Elements(ebunch))
    }
  }

  /** `nx.DiGraph()`. */
  function EmptyGraph<N(==)>(): DiGraph<N> {
    DiGraph({})
  }

  /** The graph `add_edges_from(combinations(xs, 2))` builds from an empty
      graph. */
  function PairGraph<N(==)>(xs: seq<N>): (g: DiGraph<N>)
    ensures g.edges == Elements(Combinations(xs))
  {
    EmptyGraph<N>().AddEdgesFrom(Combinations(xs))
  }

  /** An edge from the `i`-th to the `j`-th element exactly when `i < j`. */
  lemma PairGraphEdge<N>(xs: seq<N>, e: (N, N))
    ensures e in PairGraph(xs).edges <==> exists i, j :: 0 <= i < j < |xs| && e == (xs[i], xs[j])
  {
    CombinationsMember(xs, e);
  }

  /** Over distinct elements the pair graph has n(n-1)/2 edges. */
  lemma PairGraphCard<N>(xs: seq<N>)
    requires Distinct(xs)
    ensures 2 * |PairGraph(xs).edges| == |xs| * (|xs| - 1)
  {
    CombinationsCard(xs);
  }

  /** Its nodes are all the elements once there are two of them, and none
      before. */
  lemma PairGraphNodes<N>(xs: seq<N>)
    ensures PairGraph(xs).Nodes() == (if |xs| < 2 then {} else Elements(xs))
  {
    var g := PairGraph(xs);
    var n := |xs|;
    forall e ensures e in g.edges <==> exists i, j :: 0 <= i < j < n && e == (xs[i], xs[j]) {
      PairGraphEdge(xs, e);
    }
    if n < 2 {
      CombinationsLength(xs);
      assert g.edges == {};
    } else {
      forall a | a in Elements(xs) ensures a in g.Nodes() {
        var i :| 0 <= i < n && xs[i] == a;
        if i < n - 1 {
          assert (xs[i], xs[n - 1]) in g.edges;
        } else {
          assert (xs[0], xs[i]) in g.edges;
        }
      }
      forall a | a in g.Nodes() ensures a in Elements(xs) {
        var e :| e in g.edges && (e.0 == a || e.1 == a);
        var i, j :| 0 <= i < j < n && e == (xs[i], xs[j]);
      }
    }
  }

  /** Over distinct elements, between any two distinct nodes there is an
      edge in exactly one direction. */
  lemma PairGraphTournament<N>(xs: seq<N>, a: N, b: N)
    requires Distinct(xs)
    requires a in Elements(xs) && b in Elements(xs) && a != b
    ensures (a, b) in PairGraph(xs).edges <==> (b, a) !in PairGraph(xs).edges
  {
    var edges := PairGraph(xs).edges;
    var n := |xs|;
    PairGraphEdge(xs, (a, b));
    PairGraphEdge(xs, (b, a));
    var i :| 0 <= i < n && xs[i] == a;
    var j :| 0 <= j < n && xs[j] == b;
    if (a, b) in edges {
      var i', j' :| 0 <= i' < j' < n && (a, b) == (xs[i'], xs[j']);
      assert i' == i && j' == j;
    }
  }

  /** `g` joins every element of `xs` to every later one and nothing else:
      n(n-1)/2 edges over distinct elements, no nodes below two elements,
      and exactly one direction between any two distinct nodes. */
  ghost predicate IsPairGraph<N>(g: DiGraph<N>, xs: seq<N>) {
    && (forall e | e in g.edges :: exists i, j :: 0 <= i < j < |xs| && e == (xs[i], xs[j]))
    && (forall i, j :: 0 <= i < j < |xs| ==> (xs[i], xs[j]) in g.edges)
    && 2 * |g.edges| == |xs| * (|xs| - 1)
    && g.Nodes() == (if |xs| < 2 then {} else Elements(xs))
    && (forall a, b :: a in g.Nodes() && b in g.Nodes() && a != b ==>
          ((a, b) in g.edges <==> (b, a) !in g.edges))
  }

  /** The pair graph of distinct elements is such a graph. */
  lemma PairGraphSpec<N>(xs: seq<N>)
    requires Distinct(xs)
    ensures IsPairGraph(PairGraph(xs), xs)
  {
    var g := PairGraph(xs);
    forall e | e in g.edges ensures exists i, j :: 0 <= i < j < |xs| && e == (xs[i], xs[j]) {
      PairGraphEdge(xs, e);
    }
    forall i, j | 0 <= i < j < |xs| ensures (xs[i], xs[j]) in g.edges {
      PairGraphEdge(xs, (xs[i], xs[j]));
    }
    PairGraphCard(xs);
    PairGraphNodes(xs);
    forall a, b | a in g.Nodes() && b in g.Nodes() && a != b
      ensures (a, b) in g.edges <==> (b, a) !in g.edges
    {
      assert a in Elements(xs) && b in Elements(xs);
      PairGraphTournament(xs, a, b);
    }
  }
}

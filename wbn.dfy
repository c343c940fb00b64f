/** The first, simpler classifier of wbn/wbn.py: every training entry is a
    word-count dictionary whose words become weighted attributes, and every
    pair of them, directed from the earlier word to the later one, is added
    to one shared directed graph. */
module Wbn {
  import opened Seqs
  import opened Dicts
  import opened Graph
  import Objects

  /** A training entry: word -> count, in insertion order. */
  type Entry = Dict<string, int>

  /** Every entry of `data` is a well-formed dictionary. */
  ghost predicate AllValid(data: seq<Entry>) {
    forall i :: 0 <= i < |data| ==> data[i].Valid()
  }

  /** `[Attribute(word, count / len(entry)) for word, count in entry.items()]`. */
  function EntryAttributes(entry: Entry): seq<Objects.Attribute>
    requires entry.Valid()
  {
    var n := |entry.keys|;
    seq(n, i requires 0 <= i < n =>
      Objects.Attribute(entry.keys[i], entry.vals[entry.keys[i]] as real / n as real))
  }

  /** The graph of one entry: `combinations(attributes, 2)` added to an
      empty graph. */
  function EntryGraph(entry: Entry): DiGraph<Objects.Attribute>
    requires entry.Valid()
  {
    PairGraph(EntryAttributes(entry))
  }

  /** The weight of word `w` in `entry`: its count over the number of
      distinct words. */
  function Weight(entry: Entry, w: string): real
    requires entry.Valid() && w in entry.vals
  {
    entry.vals[w] as real / |entry.keys| as real
  }

  /** `a` is the attribute `entry` makes for one of its words. */
  ghost predicate IsNode(entry: Entry, a: Objects.Attribute)
    requires entry.Valid()
  {
    a.word in entry.vals && a.weight == Weight(entry, a.word)
  }

  /** Word `u` comes before word `v` in the entry's insertion order. */
  ghost predicate Precedes(entry: Entry, u: string, v: string) {
    exists i, j :: 0 <= i < j < |entry.keys| && entry.keys[i] == u && entry.keys[j] == v
  }

  /** The edges of one entry: an edge joins the attributes of two words of
      the entry, from the earlier word to the later one. */
  lemma EntryEdge(entry: Entry, e: (Objects.Attribute, Objects.Attribute))
    requires entry.Valid()
    ensures e in EntryGraph(entry).edges <==>
      IsNode(entry, e.0) && IsNode(entry, e.1) && Precedes(entry, e.0.word, e.1.word)
  {
    var attrs := EntryAttributes(entry);
    var n := |entry.keys|;
    PairGraphEdge(attrs, e);
    if e in EntryGraph(entry).edges {
      var i, j :| 0 <= i < j < n && e == (attrs[i], attrs[j]);
      assert entry.keys[i] == e.0.word && entry.keys[j] == e.1.word;
    }
    if IsNode(entry, e.0) && IsNode(entry, e.1) && Precedes(entry, e.0.word, e.1.word) {
      var i, j :| 0 <= i < j < n && entry.keys[i] == e.0.word && entry.keys[j] == e.1.word;
      assert e == (attrs[i], attrs[j]);
    }
  }

  /** An entry with n words adds n(n-1)/2 edges. */
  lemma EntryEdgeCount(entry: Entry)
    requires entry.Valid()
    ensures var n := |entry.keys|; 2 * |EntryGraph(entry).edges| == n * (n - 1)
  {
    var attrs := EntryAttributes(entry);
    assert Distinct(attrs) by {
      assert forall i :: 0 <= i < |attrs| ==> attrs[i].word == entry.keys[i];
    }
    PairGraphCard(attrs);
  }

  /** The nodes of one entry's graph are its weighted words, and there are
      none when the entry has fewer than two words. */
  lemma EntryNode(entry: Entry, a: Objects.Attribute)
    requires entry.Valid()
    ensures a in EntryGraph(entry).Nodes() <==> |entry.keys| >= 2 && IsNode(entry, a)
  {
    var attrs := EntryAttributes(entry);
    PairGraphNodes(attrs);
    if IsNode(entry, a) {
      var i :| 0 <= i < |entry.keys| && entry.keys[i] == a.word;
      assert attrs[i] == a;
    }
    if a in Elements(attrs) {
      var i :| 0 <= i < |attrs| && attrs[i] == a;
      assert a.word == entry.keys[i];
    }
  }

  /** The graph after `fit` has walked the entries of `data`, starting
      from `g`. */
  function FitGraph(g: DiGraph<Objects.Attribute>, data: seq<Entry>): DiGraph<Objects.Attribute>
    requires AllValid(data)
  {
    if data == [] then g
    else
      var n := |data| - 1;
      FitGraph(g, data[..n]).AddEdgesFrom(Combinations(EntryAttributes(data[n])))
  }

  /** The edge sets of the entries' graphs, entry by entry. */
  function EdgeSets(data: seq<Entry>): (sets: seq<set<(Objects.Attribute, Objects.Attribute)>>)
    requires AllValid(data)
    ensures |sets| == |data|
  {
    seq(|data|, i requires 0 <= i < |data| => EntryGraph(data[i]).edges)
  }

  /** `fit` keeps every edge it started with and adds exactly the edges of
      the entries' graphs. */
  lemma {:induction false} FitGraphEdges(g: DiGraph<Objects.Attribute>, data: seq<Entry>)
    requires AllValid(data)
    ensures FitGraph(g, data).edges == g.edges + Union(EdgeSets(data))
  {
    if data != [] {
      var n := |data| - 1;
      FitGraphEdges(g, data[..n]);
      assert EdgeSets(data)[..n] == EdgeSets(data[..n]);
      assert EdgeSets(data)[n] == EntryGraph(data[n]).edges;
    }
  }

  /** Fitting the same data again changes nothing: the dag is a set of
      edges and networkx ignores edges it already has. */
  lemma FitGraphIdempotent(g: DiGraph<Objects.Attribute>, data: seq<Entry>)
    requires AllValid(data)
    ensures FitGraph(FitGraph(g, data), data) == FitGraph(g, data)
  {
    FitGraphEdges(g, data);
    FitGraphEdges(FitGraph(g, data), data);
  }

  /** Concatenating well-formed batches gives a well-formed batch whose
      edge sets are those of the first, then those of the second. */
  lemma EdgeSetsConcat(a: seq<Entry>, b: seq<Entry>)
    requires AllValid(a) && AllValid(b)
    ensures AllValid(a + b)
    ensures EdgeSets(a + b) == EdgeSets(a) + EdgeSets(b)
  {
    var ab := a + b;
    forall i | 0 <= i < |ab| ensures ab[i].Valid() {
      if i < |a| { assert ab[i] == a[i]; } else { assert ab[i] == b[i - |a|]; }
    }
  }

  /** Fitting two batches one after the other is fitting their
      concatenation. */
  lemma FitGraphConcat(g: DiGraph<Objects.Attribute>, a: seq<Entry>, b: seq<Entry>)
    requires AllValid(a) && AllValid(b)
    ensures AllValid(a + b)
    ensures FitGraph(FitGraph(g, a), b) == FitGraph(g, a + b)
  {
    EdgeSetsConcat(a, b);
    FitGraphEdges(g, a);
    FitGraphEdges(FitGraph(g, a), b);
    FitGraphEdges(g, a + b);
    UnionConcat(EdgeSets(a), EdgeSets(b));
  }

  class WBN {
    /** The iteration bound; `fit` never reads it. */
    const maxIter: int
    /** The graph shared by every entry and every call of `Fit`. */
    var dag: DiGraph<Objects.Attribute>

    /** `WBN(max_iter=100)`: an empty graph. */
    constructor (maxIter: int := 100)
      ensures this.maxIter == maxIter && dag == EmptyGraph()
    {
      this.maxIter := maxIter;
      dag := EmptyGraph();
    }

    /** `fit`: adds, entry by entry, every pair of the entry's weighted
        words to the graph, directed from the earlier word to the later;
        `target` is not read and nothing is returned. */
    method Fit<T>(data: seq<Entry>, target: seq<T>)
      requires AllValid(data)
      modifies this`dag
      ensures dag == FitGraph(old(dag), data)
    {
      for idx := 0 to |data|
        invariant dag == FitGraph(old(dag), data[..idx])
      {
        assert data[..idx + 1][..idx] == data[..idx];
        var matrix := Combinations(EntryAttributes(data[idx]));
        dag := dag.AddEdgesFrom(matrix);
      }
      assert data[..|data|] == data;
    }
  }
}

/** The records of wbn/object.py. */
module Objects {
  import opened Graph

  /** `Attribute`: an immutable record of exactly a word and its weight. */
  datatype Attribute = Attribute(word: string, weight: real)

  /** `Attribute.__repr__`: the word, a colon, then the weight as rendered by
      `render` (float formatting is not modelled). */
  function Repr(a: Attribute, render: real -> string): string {
    a.word + ":" + render(a.weight)
  }

  /** Position of the first ':' in `s`, or `|s|` when there is none. */
  function ColonIndex(s: string): (i: nat)
    ensures i <= |s|
    ensures i < |s| ==> s[i] == ':'
    ensures forall k :: 0 <= k < i ==> s[k] != ':'
  {
    if s == [] then 0
    else if s[0] == ':' then 0
    else 1 + ColonIndex(s[1..])
  }

  /** Cuts a rendering at its first ':' into the word and the weight text. */
  function SplitRepr(s: string): (string, string) {
    var i := ColonIndex(s);
    if i < |s| then (s[..i], s[i + 1..]) else (s, "")
  }

  /** For a word without ':' the rendering is exactly the word, one ':' and
      the weight's text: cutting at the first ':' gives both back. */
  lemma ReprRoundTrip(a: Attribute, render: real -> string)
    requires forall k :: 0 <= k < |a.word| ==> a.word[k] != ':'
    ensures SplitRepr(Repr(a, render)) == (a.word, render(a.weight))
  {
    var s := Repr(a, render);
    assert s[|a.word|] == ':';
    assert forall k :: 0 <= k < |a.word| ==> s[k] == a.word[k];
    assert ColonIndex(s) == |a.word|;
    assert s[..|a.word|] == a.word;
    assert s[|a.word| + 1..] == render(a.weight);
  }

  /** `Fit`: the graph of one class and its corpus, in that order. The
      corpus is `list(set(...))`, whose order Python leaves unspecified, so
      it is kept as a set. */
  datatype Fit<N(==)> = Fit(dag: DiGraph<N>, corpus: set<string>)

  /** `Instance`: a dictionary read through two accessors. */
  datatype Instance<V> = Instance(entries: map<string, seq<V>>) {

    /** `self.get("data", [])`. */
    function Data(): (r: seq<V>)
      ensures "data" in entries ==> r == entries["data"]
      ensures "data" !in entries ==> r == []
    {
      if "data" in entries then entries["data"] else []
    }

    /** `self.get("target", [])`. */
    function Target(): (r: seq<V>)
      ensures "target" in entries ==> r == entries["target"]
      ensures "target" !in entries ==> r == []
    {
      if "target" in entries then entries["target"] else []
    }
  }

  /** Each accessor sees exactly what was stored under its own key and is
      unaffected by writes to the other key. */
  lemma AccessorsSeeTheirKey<V>(inst: Instance<V>, d: seq<V>, t: seq<V>)
    ensures Instance(inst.entries["data" := d]).Data() == d
    ensures Instance(inst.entries["data" := d]).Target() == inst.Target()
    ensures Instance(inst.entries["target" := t]).Target() == t
    ensures Instance(inst.entries["target" := t]).Data() == inst.Data()
  {
  }
}

/** The classifier of wbn/classifier.py: per-class word statistics, one
    pairwise graph per class, and the (stub) prediction. */
module Classifier {
  import opened Wrappers
  import opened Seqs
  import opened Dicts
  import opened Graph
  import opened Errors
  import Objects

  /** The four-field attribute `fit` builds for every word of a class. */
  datatype Attribute = Attribute(word: string, weight: real, positive: nat, negative: int)

  /** The pair stored per word of a class: (occurrences, documents containing it). */
  datatype Stat = Stat(occurrences: nat, documents: nat)

  /** `tuple(map(sum, zip(a, b)))`: componentwise sum. */
  function Plus(a: Stat, b: Stat): Stat {
    Stat(a.occurrences + b.occurrences, a.documents + b.documents)
  }

  /** The per-class table `word -> (occurrences, documents)`. */
  type Table = Dict<string, Stat>

  type ClassFit = Objects.Fit<Attribute>

  type FitError = WbnException<seq<string>, string>

  // ---------------------------------------------------------------------
  // _validate

  /** `_validate`: raises `InstanceCountError(data, target)` exactly when
      the lengths differ. */
  function Validate(data: seq<seq<string>>, target: seq<string>): (r: Outcome<FitError>)
    ensures r.Fail? <==> |data| != |target|
    ensures r.Fail? ==> r.error == InstanceCountError(data, target)
  {
    if |data| != |target| then Fail(InstanceCountError(data, target)) else Pass
  }

  // ---------------------------------------------------------------------
  // _update

  /** `{k: (v, 1) for k, v in weighted.items()}`. */
  function ByWord(weighted: Dict<string, nat>): (t: Table)
    ensures weighted.Valid() ==> t.Valid()
    ensures t.keys == weighted.keys && t.vals.Keys == weighted.vals.Keys
    ensures forall w :: w in weighted.vals ==> t.vals[w] == Stat(weighted.vals[w], 1)
  {
    Dict(weighted.keys, map w | w in weighted.vals :: Stat(weighted.vals[w], 1))
  }

  /** `parent` after the loop of `_update` has run over the keys `ks` of `child`. */
  function MergeKeys(parent: Table, child: Table, ks: seq<string>): (r: Table)
    requires Elements(ks) <= child.vals.Keys
    ensures parent.Valid() ==> r.Valid()
  {
    if ks == [] then parent
    else
      var n := |ks| - 1;
      var r := MergeKeys(parent, child, ks[..n]);
      r.Put(ks[n], Plus(child.vals[ks[n]], r.Get(ks[n], Stat(0, 0))))
  }

  /** `parent` after `_update(parent, child)`. */
  function Merge(parent: Table, child: Table): (r: Table)
    requires child.Valid()
    ensures parent.Valid() ==> r.Valid()
  {
    MergeKeys(parent, child, child.keys)
  }

  /** The merge of the keys `ks` of `child` into `parent`: the keys of
      `ks` are added behind the old ones, each word of `ks` holds its child
      value plus its old value, and the other keys keep theirs. */
  ghost predicate MergedOver(parent: Table, child: Table, ks: seq<string>, r: Table)
    requires Elements(ks) <= child.vals.Keys
  {
    && r.vals.Keys == parent.vals.Keys + Elements(ks)
    && |parent.keys| <= |r.keys| && r.keys[..|parent.keys|] == parent.keys
    && (forall w :: w in ks ==> r.vals[w] == Plus(child.vals[w], parent.Get(w, Stat(0, 0))))
    && (forall w :: w !in ks && w in parent.vals ==> r.vals[w] == parent.vals[w])
  }

  lemma {:induction false} MergeKeysSpec(parent: Table, child: Table, ks: seq<string>)
    requires parent.Valid() && Distinct(ks) && Elements(ks) <= child.vals.Keys
    ensures MergedOver(parent, child, ks, MergeKeys(parent, child, ks))
  {
    if ks != [] {
      var n := |ks| - 1;
      var front := ks[..n];
      assert ks == front + [ks[n]];
      MergeKeysSpec(parent, child, front);
      MergedStep(parent, child, front, ks[n], MergeKeys(parent, child, front));
    }
  }

  /** One step of the loop of `_update` keeps `MergedOver`. */
  lemma MergedStep(parent: Table, child: Table, front: seq<string>, k: string, prev: Table)
    requires Elements(front) <= child.vals.Keys && k in child.vals && k !in front
    requires MergedOver(parent, child, front, prev)
    ensures MergedOver(parent, child, front + [k], prev.Put(k, Plus(child.vals[k], prev.Get(k, Stat(0, 0)))))
  {
    var ks := front + [k];
    assert Elements(ks) == Elements(front) + {k};
    var r := prev.Put(k, Plus(child.vals[k], prev.Get(k, Stat(0, 0))));
    assert prev.Get(k, Stat(0, 0)) == parent.Get(k, Stat(0, 0));
    assert r.keys == prev.keys || r.keys == prev.keys + [k];
    assert r.keys[..|parent.keys|] == parent.keys by {
      assert prev.keys[..|parent.keys|] == parent.keys;
    }
    forall w | w in ks ensures r.vals[w] == Plus(child.vals[w], parent.Get(w, Stat(0, 0))) {
      if w != k {
        assert w in front;
      }
    }
  }

  /** What `_update(parent, child)` does to `parent`: every word of `child`
      gets the componentwise sum of its child value and its old value
      (default (0, 0)), every other key keeps its value, and the old keys
      keep their order in front of the new ones. */
  lemma MergeSpec(parent: Table, child: Table)
    requires parent.Valid() && child.Valid()
    ensures var r := Merge(parent, child);
      && r.Valid()
      && r.vals.Keys == parent.vals.Keys + child.vals.Keys
      && |parent.keys| <= |r.keys| && r.keys[..|parent.keys|] == parent.keys
      && (forall w :: w in child.vals ==> r.vals[w] == Plus(child.vals[w], parent.Get(w, Stat(0, 0))))
      && (forall w :: w !in child.vals && w in parent.vals ==> r.vals[w] == parent.vals[w])
      && (forall w :: r.Get(w, Stat(0, 0)) == Plus(child.Get(w, Stat(0, 0)), parent.Get(w, Stat(0, 0))))
  {
    MergeKeysSpec(parent, child, child.keys);
    var r := Merge(parent, child);
    assert r.vals.Keys == parent.vals.Keys + child.vals.Keys;
    forall w ensures r.Get(w, Stat(0, 0)) == Plus(child.Get(w, Stat(0, 0)), parent.Get(w, Stat(0, 0))) {
      GetOfMerged(parent, child, r, w);
    }
  }

  lemma GetOfMerged(parent: Table, child: Table, r: Table, w: string)
    requires r.vals.Keys == parent.vals.Keys + child.vals.Keys
    requires w in child.vals ==> r.vals[w] == Plus(child.vals[w], parent.Get(w, Stat(0, 0)))
    requires w !in child.vals && w in parent.vals ==> r.vals[w] == parent.vals[w]
    ensures r.Get(w, Stat(0, 0)) == Plus(child.Get(w, Stat(0, 0)), parent.Get(w, Stat(0, 0)))
  {
    if w in child.vals {
    } else if w in parent.vals {
      PlusZero(parent.vals[w]);
    } else {
      assert w !in r.vals;
    }
  }

  /** The loop of `_update` lists the parent's keys first, then the new
      keys of `ks` in the order they are visited. */
  lemma {:induction false} MergeKeysOrder(parent: Table, child: Table, ks: seq<string>)
    requires parent.Valid() && Elements(ks) <= child.vals.Keys
    ensures MergeKeys(parent, child, ks).keys == Dedup(parent.keys + ks)
  {
    if ks == [] {
      assert parent.keys + ks == parent.keys;
      DedupOfDistinct(parent.keys);
    } else {
      var n := |ks| - 1;
      MergeKeysOrder(parent, child, ks[..n]);
      assert parent.keys + ks == (parent.keys + ks[..n]) + [ks[n]];
      DedupSnoc(parent.keys + ks[..n], ks[n]);
    }
  }

  /** `_update(parent, child)` keeps the parent's keys in front and adds the
      child's new words behind them, in the child's order. */
  lemma MergeOrder(parent: Table, child: Table)
    requires parent.Valid() && child.Valid()
    ensures Merge(parent, child).keys == Dedup(parent.keys + child.keys)
  {
    MergeKeysOrder(parent, child, child.keys);
  }

  /** `_update`: merges `child` into `parent` and returns the result. */
  method Update(parent: Table, child: Table) returns (r: Table)
    requires parent.Valid() && child.Valid()
    ensures r == Merge(parent, child)
    ensures r.Valid() && r.vals.Keys == parent.vals.Keys + child.vals.Keys
    ensures forall w :: w in child.vals ==> r.vals[w] == Plus(child.vals[w], parent.Get(w, Stat(0, 0)))
    ensures forall w :: w !in child.vals && w in parent.vals ==> r.vals[w] == parent.vals[w]
  {
    r := parent;
    for i := 0 to |child.keys|
      invariant r == MergeKeys(parent, child, child.keys[..i])
    {
      var word := child.keys[i];
      assert child.keys[..i + 1] == child.keys[..i] + [word];
      r := r.Put(word, Plus(child.vals[word], r.Get(word, Stat(0, 0))));
    }
    assert child.keys[..|child.keys|] == child.keys;
    MergeSpec(parent, child);
  }

  // ---------------------------------------------------------------------
  // The training loop of fit

  /** `by_class` after the training loop of `fit` over `data` and `target`. */
  function Accumulate(data: seq<seq<string>>, target: seq<string>): Dict<string, Table>
    requires |data| == |target|
  {
    if data == [] then Empty()
    else
      var n := |data| - 1;
      var classes := Accumulate(data[..n], target[..n]);
      classes.Put(target[n], Merge(classes.Get(target[n], Empty()), ByWord(Counter(data[n]))))
  }

  /** `by_class` after one more document. */
  lemma AccumulateSnoc(data: seq<seq<string>>, target: seq<string>, idx: nat)
    requires |data| == |target| && idx < |data|
    ensures var prev := Accumulate(data[..idx], target[..idx]);
      Accumulate(data[..idx + 1], target[..idx + 1])
        == prev.Put(target[idx], Merge(prev.Get(target[idx], Empty()), ByWord(Counter(data[idx]))))
  {
    assert data[..idx + 1][..idx] == data[..idx] && target[..idx + 1][..idx] == target[..idx];
  }

  /** The words of the documents labelled `c`, one document after another. */
  function ClassText(data: seq<seq<string>>, target: seq<string>, c: string): seq<string>
    requires |data| == |target|
  {
    if data == [] then []
    else
      var n := |data| - 1;
      ClassText(data[..n], target[..n], c) + (if target[n] == c then data[n] else [])
  }

  /** A class's table lists its words in order of first occurrence in the
      class's documents; an unseen label has no words. */
  lemma {:induction false} AccumulateOrder(data: seq<seq<string>>, target: seq<string>, c: string)
    requires |data| == |target|
    ensures Accumulate(data, target).Get(c, Empty()).keys == Dedup(ClassText(data, target, c))
  {
    if data != [] {
      var n := |data| - 1;
      var text := ClassText(data[..n], target[..n], c);
      var prev := Accumulate(data[..n], target[..n]);
      AccumulateOrder(data[..n], target[..n], c);
      if target[n] == c {
        var parent := prev.Get(c, Empty());
        var child := ByWord(Counter(data[n]));
        assert parent.Valid() by {
          AccumulateValid(data[..n], target[..n]);
        }
        assert Accumulate(data, target).Get(c, Empty()) == Merge(parent, child);
        assert ClassText(data, target, c) == text + data[n];
        MergeOrder(parent, child);
        assert parent.keys == Dedup(text) && child.keys == Dedup(data[n]);
        DedupAfterDedup(text, data[n]);
      } else {
        assert Accumulate(data, target).Get(c, Empty()) == prev.Get(c, Empty());
        assert ClassText(data, target, c) == text + [];
        assert text + [] == text;
      }
    } else {
      assert Accumulate(data, target).Get(c, Empty()) == Empty();
    }
  }

  /** Merging the deduplicated words of one more document behind the
      deduplicated words so far deduplicates the joined text. */
  lemma DedupAfterDedup(text: seq<string>, doc: seq<string>)
    ensures Dedup(Dedup(text) + Dedup(doc)) == Dedup(text + doc)
  {
    DedupOfDedupFront(text, Dedup(doc));
    DedupOfDedupBack(text, doc);
  }

  /** The class table and every table in it are well formed. */
  lemma {:induction false} AccumulateValid(data: seq<seq<string>>, target: seq<string>)
    requires |data| == |target|
    ensures Accumulate(data, target).Valid()
    ensures forall c :: c in Accumulate(data, target).vals ==> Accumulate(data, target).vals[c].Valid()
  {
    if data != [] {
      var n := |data| - 1;
      AccumulateValid(data[..n], target[..n]);
    }
  }

  /** Total occurrences of `w` in the documents labelled `c`. */
  function Occurrences(data: seq<seq<string>>, target: seq<string>, c: string, w: string): nat
    requires |data| == |target|
  {
    if data == [] then 0
    else
      var n := |data| - 1;
      Occurrences(data[..n], target[..n], c, w) + (if target[n] == c then multiset(data[n])[w] else 0)
  }

  /** Number of documents labelled `c` that contain `w`. */
  function Presence(data: seq<seq<string>>, target: seq<string>, c: string, w: string): nat
    requires |data| == |target|
  {
    if data == [] then 0
    else
      var n := |data| - 1;
      Presence(data[..n], target[..n], c, w) + (if target[n] == c && w in data[n] then 1 else 0)
  }

  /** The distinct words of the documents labelled `c`. */
  function ClassWords(data: seq<seq<string>>, target: seq<string>, c: string): set<string>
    requires |data| == |target|
  {
    if data == [] then {}
    else
      var n := |data| - 1;
      ClassWords(data[..n], target[..n], c) + (if target[n] == c then Elements(data[n]) else {})
  }

  /** The statistics of word `w` in class `c`, `(0, 0)` when either is absent. */
  function Lookup(classes: Dict<string, Table>, c: string, w: string): Stat {
    classes.Get(c, Empty()).Get(w, Stat(0, 0))
  }

  /** After the training loop the classes appear in order of first
      appearance in `target`, each class table holds exactly the words of
      that class's documents, and the entry of word `w` in class `c` is
      (occurrences of `w` in `c`'s documents, number of `c`'s documents
      containing `w`). */
  lemma {:induction false} AccumulateSpec(data: seq<seq<string>>, target: seq<string>)
    requires |data| == |target|
    ensures var classes := Accumulate(data, target);
      && classes.keys == Dedup(target)
      && (forall c :: c in classes.vals ==> classes.vals[c].vals.Keys == ClassWords(data, target, c))
      && (forall c, w :: Lookup(classes, c, w) == Stat(Occurrences(data, target, c, w), Presence(data, target, c, w)))
  {
    AccumulateKeys(data, target);
    AccumulateWords(data, target);
    AccumulateLookup(data, target);
  }

  /** The classes appear in order of first appearance in `target`. */
  lemma {:induction false} AccumulateKeys(data: seq<seq<string>>, target: seq<string>)
    requires |data| == |target|
    ensures Accumulate(data, target).keys == Dedup(target)
  {
    if data != [] {
      var n := |data| - 1;
      AccumulateKeys(data[..n], target[..n]);
      AccumulateValid(data[..n], target[..n]);
    }
  }

  /** Each class's table holds exactly the words of the class's documents. */
  lemma {:induction false} AccumulateWords(data: seq<seq<string>>, target: seq<string>)
    requires |data| == |target|
    ensures forall c :: c in Accumulate(data, target).vals ==> Accumulate(data, target).vals[c].vals.Keys == ClassWords(data, target, c)
  {
    if data != [] {
      var n := |data| - 1;
      AccumulateWords(data[..n], target[..n]);
      AccumulateKeys(data[..n], target[..n]);
      AccumulateValid(data[..n], target[..n]);
      forall c | c in Accumulate(data, target).vals
        ensures Accumulate(data, target).vals[c].vals.Keys == ClassWords(data, target, c)
      {
        ClassWordsStep(data, target, c);
      }
    }
  }

  /** The entry of word `w` in class `c` is (occurrences, documents containing it). */
  lemma {:induction false} AccumulateLookup(data: seq<seq<string>>, target: seq<string>)
    requires |data| == |target|
    ensures forall c, w :: Lookup(Accumulate(data, target), c, w) == Stat(Occurrences(data, target, c, w), Presence(data, target, c, w))
  {
    if data != [] {
      var n := |data| - 1;
      AccumulateLookup(data[..n], target[..n]);
      forall c, w
        ensures Lookup(Accumulate(data, target), c, w) == Stat(Occurrences(data, target, c, w), Presence(data, target, c, w))
      {
        LookupStep(data, target, c, w);
      }
    }
  }

  /** One step of the training loop, for the entry of word `w` in class `c`. */
  lemma LookupStep(data: seq<seq<string>>, target: seq<string>, c: string, w: string)
    requires |data| == |target| && data != []
    requires var n := |data| - 1;
      Lookup(Accumulate(data[..n], target[..n]), c, w)
        == Stat(Occurrences(data[..n], target[..n], c, w), Presence(data[..n], target[..n], c, w))
    ensures Lookup(Accumulate(data, target), c, w) == Stat(Occurrences(data, target, c, w), Presence(data, target, c, w))
  {
    var n := |data| - 1;
    var d := data[n];
    LookupAfterDocument(data, target, c, w);
    ByWordGet(d, w);
    StatStep(Lookup(Accumulate(data[..n], target[..n]), c, w),
             ByWord(Counter(d)).Get(w, Stat(0, 0)),
             Lookup(Accumulate(data, target), c, w),
             target[n] == c, w in d, multiset(d)[w],
             Occurrences(data[..n], target[..n], c, w), Presence(data[..n], target[..n], c, w),
             Occurrences(data, target, c, w), Presence(data, target, c, w));
  }

  /** The arithmetic of one step of the training loop. */
  lemma StatStep(before: Stat, added: Stat, after: Stat, same: bool, present: bool, m: nat,
                 o0: nat, p0: nat, o1: nat, p1: nat)
    requires before == Stat(o0, p0)
    requires added == (if present then Stat(m, 1) else Stat(0, 0))
    requires !present ==> m == 0
    requires after == (if same then Plus(added, before) else before)
    requires o1 == o0 + (if same then m else 0)
    requires p1 == p0 + (if same && present then 1 else 0)
    ensures after == Stat(o1, p1)
  {
  }

  /** How one document changes the entry of `w` in class `c`. */
  lemma LookupAfterDocument(data: seq<seq<string>>, target: seq<string>, c: string, w: string)
    requires |data| == |target| && data != []
    ensures var n := |data| - 1;
      var before := Lookup(Accumulate(data[..n], target[..n]), c, w);
      Lookup(Accumulate(data, target), c, w)
        == if target[n] == c then Plus(ByWord(Counter(data[n])).Get(w, Stat(0, 0)), before) else before
  {
    var n := |data| - 1;
    var prev := Accumulate(data[..n], target[..n]);
    var t := target[n];
    var parent := prev.Get(t, Empty());
    var child := ByWord(Counter(data[n]));
    assert Accumulate(data, target) == prev.Put(t, Merge(parent, child));
    if c == t {
      AccumulateValid(data[..n], target[..n]);
      MergeGet(parent, child, w);
    }
  }

  /** One step of the training loop, for the word set of class `c`. */
  lemma ClassWordsStep(data: seq<seq<string>>, target: seq<string>, c: string)
    requires |data| == |target| && data != []
    requires var n := |data| - 1; var prev := Accumulate(data[..n], target[..n]);
      && (c in prev.vals ==> prev.vals[c].vals.Keys == ClassWords(data[..n], target[..n], c))
      && (c in prev.vals <==> c in target[..n])
    requires c in Accumulate(data, target).vals
    ensures Accumulate(data, target).vals[c].vals.Keys == ClassWords(data, target, c)
  {
    var n := |data| - 1;
    assert ClassWords(data, target, c)
      == ClassWords(data[..n], target[..n], c) + (if target[n] == c then Elements(data[n]) else {});
    if target[n] == c {
      ClassWordsOfLabel(data, target);
    } else {
      assert Accumulate(data, target).vals[c] == Accumulate(data[..n], target[..n]).vals[c];
    }
  }

  /** The table of the last document's label gains that document's words. */
  lemma ClassWordsOfLabel(data: seq<seq<string>>, target: seq<string>)
    requires |data| == |target| && data != []
    requires var n := |data| - 1; var c := target[n]; var prev := Accumulate(data[..n], target[..n]);
      && (c in prev.vals ==> prev.vals[c].vals.Keys == ClassWords(data[..n], target[..n], c))
      && (c in prev.vals <==> c in target[..n])
    ensures var n := |data| - 1; var c := target[n];
      && c in Accumulate(data, target).vals
      && Accumulate(data, target).vals[c].vals.Keys == ClassWords(data[..n], target[..n], c) + Elements(data[n])
  {
    var n := |data| - 1;
    var c := target[n];
    var prev := Accumulate(data[..n], target[..n]);
    var parent := prev.Get(c, Empty());
    var child := ByWord(Counter(data[n]));
    assert Accumulate(data, target) == prev.Put(c, Merge(parent, child));
    assert child.vals.Keys == Elements(data[n]);
    AccumulateValid(data[..n], target[..n]);
    MergeSpec(parent, child);
    assert parent.vals.Keys == ClassWords(data[..n], target[..n], c) by {
      if c !in prev.vals {
        ClassWordsOfAbsent(data[..n], target[..n], c);
      }
    }
  }

  lemma PlusZero(s: Stat)
    ensures Plus(Stat(0, 0), s) == s
  {
  }

  lemma MergeGet(parent: Table, child: Table, w: string)
    requires parent.Valid() && child.Valid()
    ensures Merge(parent, child).Get(w, Stat(0, 0)) == Plus(child.Get(w, Stat(0, 0)), parent.Get(w, Stat(0, 0)))
  {
    MergeSpec(parent, child);
  }

  lemma ByWordGet(entry: seq<string>, w: string)
    ensures ByWord(Counter(entry)).Get(w, Stat(0, 0))
            == if w in entry then Stat(multiset(entry)[w], 1) else Stat(0, 0)
  {
  }

  /** A label that does not occur has no words. */
  lemma {:induction false} ClassWordsOfAbsent(data: seq<seq<string>>, target: seq<string>, c: string)
    requires |data| == |target| && c !in target
    ensures ClassWords(data, target, c) == {}
  {
    if data != [] {
      var n := |data| - 1;
      ClassWordsOfAbsent(data[..n], target[..n], c);
    }
  }

  /** A document adds at most one to the presence count of a word, and only
      when it contains the word at least once: so the count never exceeds
      the occurrences, the class's documents, nor the whole training set,
      and it is positive exactly for the words of the class. */
  lemma {:induction false} PresenceBounds(data: seq<seq<string>>, target: seq<string>, c: string, w: string)
    requires |data| == |target|
    ensures Presence(data, target, c, w) <= Occurrences(data, target, c, w)
    ensures Presence(data, target, c, w) <= multiset(target)[c] <= |data|
    ensures Presence(data, target, c, w) > 0 <==> w in ClassWords(data, target, c)
  {
    if data != [] {
      var n := |data| - 1;
      PresenceBounds(data[..n], target[..n], c, w);
      assert target == target[..n] + [target[n]];
    }
  }

  // ---------------------------------------------------------------------
  // Graph building

  /** The attributes `fit` builds for the words of one class table, in the
      table's key order; `total` is `len(data)`. */
  function Attributes(table: Table, total: nat): seq<Attribute>
    requires table.Valid()
  {
    var n := |table.keys|;
    seq(n, i requires 0 <= i < n =>
      var s := table.vals[table.keys[i]];
      Attribute(table.keys[i], s.occurrences as real / n as real, s.documents, total - s.documents))
  }

  /** The `Fit` appended for one class table. */
  function BuildFit(table: Table, total: nat): ClassFit
    requires table.Valid()
  {
    Objects.Fit(PairGraph(Attributes(table, total)), Elements(table.keys))
  }

  /** The graph of a class with `n` words: an edge from the `i`-th to the
      `j`-th attribute exactly when `i < j`, so n(n-1)/2 edges and, between
      any two distinct nodes, exactly one direction; no nodes at all when
      `n < 2`; and the corpus is the set of the table's words. */
  lemma BuildFitSpec(table: Table, total: nat)
    requires table.Valid()
    ensures BuildFit(table, total).corpus == table.vals.Keys
    ensures |Attributes(table, total)| == |table.keys|
    ensures IsPairGraph(BuildFit(table, total).dag, Attributes(table, total))
  {
    AttributesDistinct(table, total);
    PairGraphSpec(Attributes(table, total));
  }


  /** The attributes of a table are pairwise different: their words are. */
  lemma AttributesDistinct(table: Table, total: nat)
    requires table.Valid()
    ensures Distinct(Attributes(table, total))
  {
    var attrs := Attributes(table, total);
    assert forall i :: 0 <= i < |attrs| ==> attrs[i].word == table.keys[i];
  }

  /** A class table and every word table in it are well formed. */
  ghost predicate TablesValid(classes: Dict<string, Table>) {
    classes.Valid() && forall c :: c in classes.vals ==> classes.vals[c].Valid()
  }

  /** One fit per class of `classes`, in key order. */
  function FitsOf(classes: Dict<string, Table>, total: nat): seq<ClassFit>
    requires TablesValid(classes)
  {
    seq(|classes.keys|, k requires 0 <= k < |classes.keys| => BuildFit(classes.vals[classes.keys[k]], total))
  }

  /** The fits one call of `fit` appends, one per class in order of first
      appearance. */
  function ClassFits(data: seq<seq<string>>, target: seq<string>): seq<ClassFit>
    requires |data| == |target|
  {
    AccumulateValid(data, target);
    FitsOf(Accumulate(data, target), |data|)
  }

  /** The attributes `fit` builds for the `k`-th class, in the order of the
      words in that class's table. */
  function ClassAttributes(data: seq<seq<string>>, target: seq<string>, k: nat): seq<Attribute>
    requires |data| == |target| && k < |Dedup(target)|
  {
    AccumulateValid(data, target);
    AccumulateKeys(data, target);
    var classes := Accumulate(data, target);
    Attributes(classes.vals[classes.keys[k]], |data|)
  }

  /** The attributes of the `k`-th class come in order of first occurrence
      of their words in that class's documents, so every graph edge goes
      from a word seen earlier to one seen later. */
  lemma ClassAttributesOrder(data: seq<seq<string>>, target: seq<string>, k: nat)
    requires |data| == |target| && k < |Dedup(target)|
    ensures var words := Dedup(ClassText(data, target, Dedup(target)[k]));
      var attrs := ClassAttributes(data, target, k);
      |attrs| == |words| && forall i :: 0 <= i < |attrs| ==> attrs[i].word == words[i]
  {
    AccumulateValid(data, target);
    AccumulateKeys(data, target);
    var classes := Accumulate(data, target);
    var c := Dedup(target)[k];
    AccumulateOrder(data, target, c);
    assert classes.Get(c, Empty()) == classes.vals[classes.keys[k]];
  }

  /** What `fit` promises about the fit `f` it built for class `c`. */
  ghost predicate FitOfClass(f: ClassFit, data: seq<seq<string>>, target: seq<string>, c: string)
    requires |data| == |target|
  {
    var n := |f.corpus|;
    && f.corpus == ClassWords(data, target, c)
    && 2 * |f.dag.edges| == n * (n - 1)
    && (n < 2 ==> f.dag.Nodes() == {})
    && (forall a, b :: a in f.dag.Nodes() && b in f.dag.Nodes() && a != b ==>
          ((a, b) in f.dag.edges <==> (b, a) !in f.dag.edges))
    && forall a :: a in f.dag.Nodes() ==>
         && a.word in f.corpus
         && a.weight == Occurrences(data, target, c, a.word) as real / n as real
         && a.positive == Presence(data, target, c, a.word)
         && a.negative == |data| - a.positive
         && a.negative >= 0
  }

  /** One fit per distinct label, in order of first appearance; each fit's
      corpus is its class's words, its graph joins every attribute of the
      class's table to every later one and has no other edge, and every
      node carries weight
      occurrences / n, positive = documents containing the word and
      negative = len(data) - positive. */
  lemma ClassFitsSpec(data: seq<seq<string>>, target: seq<string>)
    requires |data| == |target|
    ensures var fits := ClassFits(data, target);
      && |fits| == |Dedup(target)| == |Elements(target)|
      && (forall k :: 0 <= k < |fits| ==> FitOfClass(fits[k], data, target, Dedup(target)[k]))
      && (forall k :: 0 <= k < |fits| ==> IsPairGraph(fits[k].dag, ClassAttributes(data, target, k)))
  {
    var classes := Accumulate(data, target);
    var labels := Dedup(target);
    AccumulateValid(data, target);
    AccumulateSpec(data, target);
    var fits := FitsOf(classes, |data|);
    assert fits == ClassFits(data, target);
    DistinctCard(labels);
    forall k | 0 <= k < |fits| ensures FitOfClass(fits[k], data, target, labels[k]) {
      var c := labels[k];
      var table := classes.vals[c];
      forall w | w in table.vals
        ensures table.vals[w] == Stat(Occurrences(data, target, c, w), Presence(data, target, c, w))
      {
        assert Lookup(classes, c, w) == table.vals[w];
      }
      FitOfTable(table, data, target, c);
    }
    forall k | 0 <= k < |fits| ensures IsPairGraph(fits[k].dag, ClassAttributes(data, target, k)) {
      BuildFitSpec(classes.vals[classes.keys[k]], |data|);
    }
  }

  /** The fit built from a table that holds, for every word of class `c`,
      its occurrences and the documents containing it. */
  lemma FitOfTable(table: Table, data: seq<seq<string>>, target: seq<string>, c: string)
    requires |data| == |target|
    requires table.Valid() && table.vals.Keys == ClassWords(data, target, c)
    requires forall w :: w in table.vals ==>
      table.vals[w] == Stat(Occurrences(data, target, c, w), Presence(data, target, c, w))
    ensures FitOfClass(BuildFit(table, |data|), data, target, c)
  {
    var f := BuildFit(table, |data|);
    BuildFitSpec(table, |data|);
    DistinctCard(table.keys);
    assert |f.corpus| == |table.keys|;
    forall a | a in f.dag.Nodes()
      ensures && a.word in f.corpus
              && a.weight == Occurrences(data, target, c, a.word) as real / |f.corpus| as real
              && a.positive == Presence(data, target, c, a.word)
              && a.negative == |data| - a.positive
              && a.negative >= 0
    {
      AttributeOfWord(table, |data|, a);
      PresenceBounds(data, target, c, a.word);
    }
  }

  /** Every attribute built from a table describes one of its words: its
      weight is the word's occurrences over the number of words, and its
      positive and negative counts are the documents with and without it. */
  lemma AttributeOfWord(table: Table, total: nat, a: Attribute)
    requires table.Valid() && a in Elements(Attributes(table, total))
    ensures a.word in table.vals
    ensures a.weight == table.vals[a.word].occurrences as real / |table.keys| as real
    ensures a.positive == table.vals[a.word].documents
    ensures a.negative == total - a.positive
  {
    var attrs := Attributes(table, total);
    var i :| 0 <= i < |attrs| && attrs[i] == a;
    assert a.word == table.keys[i];
  }

  // ---------------------------------------------------------------------
  // predict

  /** `[word for word in entry if word in corpus]`. */
  function KeepKnown(entry: seq<string>, corpus: set<string>): (r: seq<string>)
    ensures forall w :: multiset(r)[w] == if w in corpus then multiset(entry)[w] else 0
  {
    if entry == [] then []
    else
      var n := |entry| - 1;
      assert entry == entry[..n] + [entry[n]];
      KeepKnown(entry[..n], corpus) + (if entry[n] in corpus then [entry[n]] else [])
  }

  /** `dict(Counter([word for word in entry if word in corpus]))`. */
  function Filter(entry: seq<string>, corpus: set<string>): Dict<string, nat> {
    Counter(KeepKnown(entry, corpus))
  }

  /** An instance is a well-formed dict holding exactly the entry's words
      that are in the corpus, each with its number of occurrences in the
      entry. */
  lemma FilterSpec(entry: seq<string>, corpus: set<string>)
    ensures var inst := Filter(entry, corpus);
      && inst.Valid()
      && (forall w :: w in inst.vals <==> w in entry && w in corpus)
      && (forall w :: w in inst.vals ==> inst.vals[w] == multiset(entry)[w])
  {
    var kept := KeepKnown(entry, corpus);
    assert forall w :: w in kept <==> multiset(kept)[w] > 0;
  }

  /** The union of the corpora of all fits. */
  function GlobalCorpus(fits: seq<ClassFit>): (corpus: set<string>)
    ensures forall w :: w in corpus <==> exists i :: 0 <= i < |fits| && w in fits[i].corpus
  {
    if fits == [] then {}
    else
      var n := |fits| - 1;
      GlobalCorpus(fits[..n]) + fits[n].corpus
  }

  /** `dag_traverse`: a stub that predicts class code 1 for every instance. */
  function DagTraverse(instance: Dict<string, nat>): (code: int)
    ensures code == 1
  {
    1
  }

  // ---------------------------------------------------------------------
  // The model object

  /** The constraints on the label codes after `_encode(target)` ran on a
      table that held `before`: the labels of `target` are added, other
      keys keep their codes, and the labels are mapped one-to-one onto
      0 .. k-1, where k is the number of distinct labels. */
  ghost predicate Encoded(before: map<string, int>, after: map<string, int>, target: seq<string>) {
    var k := |Elements(target)|;
    && after.Keys == before.Keys + Elements(target)
    && (forall t :: t in before && t !in target ==> after[t] == before[t])
    && (forall t, u :: t in target && u in target && after[t] == after[u] ==> t == u)
    && (forall t :: t in target ==> 0 <= after[t] < k)
    && (forall code :: 0 <= code < k ==> code in Codes(after, target))
  }

  /** The codes the labels of `target` received. */
  ghost function Codes(after: map<string, int>, target: seq<string>): set<int>
    requires Elements(target) <= after.Keys
  {
    set t | t in target :: after[t]
  }

  /** The training loop of `fit`: for each document and its label, the
      document's word counts are merged into the label's table with
      `_update`. */
  method Train(data: seq<seq<string>>, target: seq<string>) returns (byClass: Dict<string, Table>)
    requires |data| == |target|
    ensures byClass == Accumulate(data, target)
    ensures TablesValid(byClass)
  {
    byClass := Empty();
    for idx := 0 to |data|
      invariant byClass == Accumulate(data[..idx], target[..idx])
    {
      AccumulateValid(data[..idx], target[..idx]);
      var weighted := Counter(data[idx]);
      var byWord := ByWord(weighted);
      var parent := byClass.Get(target[idx], Empty());
      var merged := Update(parent, byWord);
      AccumulateSnoc(data, target, idx);
      byClass := byClass.Put(target[idx], merged);
    }
    assert data[..|data|] == data && target[..|target|] == target;
    AccumulateValid(data, target);
  }

  /** The graph-building loop of `fit`: one fit per class, in key order. */
  method BuildFits(byClass: Dict<string, Table>, total: nat) returns (built: seq<ClassFit>)
    requires TablesValid(byClass)
    ensures built == FitsOf(byClass, total)
  {
    built := [];
    for j := 0 to |byClass.keys|
      invariant built == FitsOf(byClass, total)[..j]
    {
      var cls := byClass.keys[j];
      built := built + [BuildFit(byClass.vals[cls], total)];
    }
  }

  class WBN {
    /** The combination size; only pairs are modelled. */
    const size: nat
    /** The fits accumulated by every call of `Fit`. */
    var fits: seq<ClassFit>
    /** The label codes. */
    var targets: map<string, int>

    /** `WBN()`: no fits, no label codes. */
    constructor ()
      ensures size == 2 && fits == [] && targets == map[]
    {
      size := 2;
      fits := [];
      targets := map[];
    }

    /** `_encode`: numbers the distinct labels 0, 1, ... in the order in
        which `list(set(target))` lists them, and reports whether the
        table is non-empty. */
    method Encode(target: seq<string>) returns (nonEmpty: bool)
      modifies this`targets
      ensures Encoded(old(targets), targets, target)
      ensures nonEmpty <==> targets != map[]
    {
      var labels := ListOfSet(Elements(target));
      for idx := 0 to |labels|
        invariant targets.Keys == old(targets).Keys + Elements(labels[..idx])
        invariant forall t :: t in old(targets) && t !in labels[..idx] ==> targets[t] == old(targets)[t]
        invariant forall i :: 0 <= i < idx ==> labels[i] in targets && targets[labels[i]] == i
      {
        assert labels[..idx + 1] == labels[..idx] + [labels[idx]];
        assert Elements(labels[..idx + 1]) == Elements(labels[..idx]) + {labels[idx]};
        targets := targets[labels[idx] := idx];
      }
      assert labels[..|labels|] == labels;
      nonEmpty := targets != map[];
      EncodedByEnumeration(old(targets), targets, target, labels);
    }

    /** `fit`: on a length mismatch raises `InstanceCountError` and changes
        nothing; otherwise encodes the labels, appends one fit per class
        (earlier fits are kept) and returns all fits. */
    method Fit(data: seq<seq<string>>, target: seq<string>) returns (r: Result<seq<ClassFit>, FitError>)
      modifies this`fits, this`targets
      ensures |data| != |target| ==>
        r == Failure(InstanceCountError(data, target)) && fits == old(fits) && targets == old(targets)
      ensures |data| == |target| ==>
        && r == Success(fits)
        && fits == old(fits) + ClassFits(data, target)
        && Encoded(old(targets), targets, target)
    {
      var check := Validate(data, target);
      if check.Fail? {
        return Failure(check.error);
      }
      var _ := Encode(target);
      var byClass := Train(data, target);
      var built := BuildFits(byClass, |data|);
      fits := fits + built;
      r := Success(fits);
    }

    /** `predict`: filters every entry down to the words of the global
        corpus, counted, and scores each filtered instance with the stub
        `dag_traverse`; `target` is not read. */
    method Predict(data: seq<seq<string>>, target: seq<string>) returns (predictions: seq<int>, ghost instances: seq<Dict<string, nat>>)
      ensures |predictions| == |data| && forall i :: 0 <= i < |data| ==> predictions[i] == 1
      ensures |instances| == |data|
      ensures forall i :: 0 <= i < |data| ==> instances[i] == Filter(data[i], GlobalCorpus(fits))
    {
      var corpus := GlobalCorpus(fits);
      var insts := MapSeq(data, entry => Filter(entry, corpus));
      predictions := seq(|insts|, k requires 0 <= k < |insts| => DagTraverse(insts[k]));
      instances := insts;
    }
  }

  /** Numbering the enumeration `labels` of the distinct labels by position
      meets `Encoded`. */
  lemma EncodedByEnumeration(before: map<string, int>, after: map<string, int>, target: seq<string>, labels: seq<string>)
    requires Distinct(labels) && Elements(labels) == Elements(target)
    requires after.Keys == before.Keys + Elements(labels)
    requires forall t :: t in before && t !in labels ==> after[t] == before[t]
    requires forall i :: 0 <= i < |labels| ==> labels[i] in after && after[labels[i]] == i
    ensures Encoded(before, after, target)
  {
    DistinctCard(labels);
    var k := |Elements(target)|;
    assert k == |labels|;
    forall t | t in before && t !in target ensures after[t] == before[t] {
      assert t !in Elements(labels);
    }
    forall t | t in target ensures 0 <= after[t] < k && labels[after[t]] == t {
      assert t in Elements(labels);
      var i :| 0 <= i < |labels| && labels[i] == t;
    }
    forall code | 0 <= code < k ensures code in Codes(after, target) {
      var t := labels[code];
      assert t in Elements(target);
      assert after[t] == code;
    }
  }
}

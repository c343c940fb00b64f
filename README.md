# WBN — a Dafny model of the weighted Bayesian network classifier

This project models the core of `wbn`, a small text classifier that
learns "weighted Bayesian network" graphs from labelled documents:

- **`wbn/classifier.py`, class `WBN`** (module `Classifier`).
  - `fit` validates that there are as many documents as labels.
  - It numbers the labels (`_encode`).
  - It counts, for every label and word, the occurrences and the number
    of documents that contain it (`Counter`, then `_update`).
  - For every label it builds one directed graph: an edge between every
    two weighted attributes of the label's words (`itertools.combinations`
    of size 2, added with `add_edges_from`). The graph and the label's
    corpus are kept as one `Fit`.
  - `predict` filters each document down to the known words, counts it,
    and scores it with the `dag_traverse` stub.
- **`wbn/wbn.py`, the earlier class `WBN`** (module `Wbn`). One shared
  graph gets, for every training entry (a word → count dictionary),
  every pair of the entry's weighted words, directed from the earlier
  word to the later one.
- **`wbn/object.py`** (module `Objects`): `Attribute` and its rendering,
  `Fit`, and the `Instance` accessors.
- **`wbn/errors.py`** (module `Errors`): `InstanceCountError` and its
  message.

The supporting modules model the Python and library behaviour the core
relies on:

- `Dicts`: insertion-ordered `dict`, `dict.get`, item assignment and
  `collections.Counter`.
- `Seqs`: first-occurrence order, `list(set(...))`, `itertools.combinations`
  of size 2, and the union of sets.
- `Graph`: `networkx.DiGraph`, modelled as a set of directed edges whose
  nodes are the edge endpoints.
- `Wrappers`: result types that stand in for raised exceptions.

Facts about the code that the model keeps:

- `dag_traverse` is a stub that always returns 1; no scoring is modelled.
- An attribute's weight is the word's count divided by the number of
  distinct words in its table (`len(keywords)`, or `len(entry)` in the
  earlier class).
- `negative` is `len(data) - positive`.

`classifier.py` builds four-field attributes (`word`, `weight`,
`positive`, `negative`). So do the object tests, which also expect the
rendering `<foo:0.5:[1:1]>`. `object.py`, however, declares an
`Attribute` with only `word` and `weight`, rendered `word:weight`.
With that two-field `NamedTuple`, the keyword arguments `positive=` and
`negative=` at `wbn/classifier.py:67-68` raise `TypeError`, so `fit` of
`classifier.py` cannot run against `object.py` as shown. The model follows
the four-field record that `classifier.py` constructs and the tests expect:
`Classifier.Attribute`. `Objects.Attribute` models `object.py` as written,
which is what the earlier class uses.

## Model

| member | source | states |
|---|---|---|
| Classifier.Attribute | wbn/classifier.py:64-69 | the four-field attribute `fit` builds: word, weight, positive, negative |
| Classifier.Stat | wbn/classifier.py:53 | the (occurrences, documents) pair stored per word of a class |
| Objects.Attribute | wbn/object.py:7-14 | the two-field `Attribute` of `object.py`: word and weight |
| Objects.Fit | wbn/object.py:24-28 | a class's graph and its corpus |
| Objects.Instance | wbn/object.py:31-42 | a dictionary with the `data` and `target` accessors |
| Errors.WbnException | wbn/errors.py:5-16 | `InstanceCountError`, keeping the data and target it was raised for |
| Classifier.Validate | wbn/classifier.py:174-194 | fails exactly when the numbers of documents and labels differ, and the error is `InstanceCountError` carrying both inputs |
| Dicts.Counter | wbn/classifier.py:50 | `Counter(words)` is a well-formed dict whose keys are the distinct words in first-occurrence order, each mapped to its number of occurrences |
| Classifier.ByWord | wbn/classifier.py:53 | one document's counts become a table with the same keys in the same order, each word mapped to (count, 1); well formed when the counts are |
| Dicts.Dict.Put | wbn/classifier.py:54-56 | assigning a key keeps the dict well formed and maps that key to the new value, leaving the others unchanged |
| Dicts.Dict.Get | wbn/classifier.py:170 | `d.get(k, default)`: the stored value, or the default when the key is absent; `MergeSpec` and `GetOfMerged` use it for `parent.get(word, (0, 0))` |
| Classifier.Plus | wbn/classifier.py:170 | `tuple(map(sum, zip(...)))`: the componentwise sum of two pairs; `PlusZero` states that (0, 0) is neutral |
| Classifier.Merge | wbn/classifier.py:169-172 | the value `_update` computes: `MergeKeys` over the child's keys in order, starting from the parent; `MergeSpec` states what it holds |
| Classifier.MergeSpec | wbn/classifier.py:169-172 | after `_update` every child word holds child value + old value (default (0, 0)), every other key keeps its value, old keys keep their order in front, and `get` with (0, 0) is additive |
| Classifier.MergeOrder | wbn/classifier.py:169-172 | the merged keys are the parent's keys, then the child's new words in the child's order, i.e. the first-occurrence order of parent keys followed by child keys |
| Classifier.MergeKeysSpec | wbn/classifier.py:169-172 | walking any duplicate-free run of child keys adds each visited key's stats to the parent's, leaves every other key alone, and keeps the parent's keys in front |
| Classifier.Update | wbn/classifier.py:153-172 | the loop over the child's items produces exactly the merge above, with the key set parent ∪ child |
| Classifier.Accumulate | wbn/classifier.py:47-56 | `by_class` after the documents so far: the last document's counted words merged into its label's table; `AccumulateSpec` states what it holds |
| Classifier.AccumulateKeys | wbn/classifier.py:47-56 | the classes of `by_class` appear in order of first appearance in `target` |
| Classifier.AccumulateOrder | wbn/classifier.py:47-56 | each class's table lists its words in order of first occurrence across the class's documents, taken in order; an unseen label has no words |
| Classifier.AccumulateWords | wbn/classifier.py:47-56 | each class's table holds exactly the words of the documents labelled with it |
| Classifier.AccumulateLookup | wbn/classifier.py:47-56 | the entry of word w in class c is (total occurrences of w in c's documents, number of c's documents containing w), and (0, 0) when absent |
| Classifier.AccumulateSpec | wbn/classifier.py:47-56 | the three facts above together |
| Classifier.AccumulateValid | wbn/classifier.py:47-56 | `by_class` and every class table in it stay well-formed dicts |
| Classifier.PresenceBounds | wbn/classifier.py:47-56 | documents containing w ≤ its occurrences, ≤ documents of class c, ≤ len(data); the count is positive exactly when w is a word of c |
| Classifier.Train | wbn/classifier.py:47-56 | the training loop computes exactly `by_class` as described by the lemmas above, with every table well formed |
| Classifier.Attributes | wbn/classifier.py:63-71 | one four-field attribute per word of the table, in the table's order; `AttributeOfWord` and `AttributesDistinct` state their fields and that they differ |
| Classifier.BuildFit | wbn/classifier.py:58-81 | a class's `Fit`: the pair graph of its attributes and the set of its words; `BuildFitSpec` states what it holds |
| Classifier.AttributeOfWord | wbn/classifier.py:61-70 | every attribute built from a table is one of its words, with weight = count / len(keywords), positive = documents containing it, negative = len(data) - positive |
| Classifier.BuildFitSpec | wbn/classifier.py:58-81 | a class graph has an edge from the i-th to the j-th attribute exactly when i < j, n(n-1)/2 edges, no nodes when n < 2, exactly one direction between two distinct nodes, and its corpus is the set of the class's words |
| Classifier.FitOfTable | wbn/classifier.py:58-81 | a fit built from a class's statistics has corpus = the class's words, and every node's weight, positive and negative follow from the documents |
| Classifier.BuildFits | wbn/classifier.py:58-81 | the graph loop produces one fit per class, in the classes' key order |
| Classifier.ClassFitsSpec | wbn/classifier.py:44-83 | `fit` appends one fit per distinct label, in order of first appearance, and each fit's graph joins every attribute of its class to every later one and has no other edge, with each node's fields following from the documents |
| Classifier.ClassAttributesOrder | wbn/classifier.py:58-74 | the attributes of each class, and hence the direction of its graph's edges, follow the first-occurrence order of the class's words in its documents |
| Classifier.WBN.constructor | wbn/classifier.py:20-23 | size 2, no fits, no label codes |
| Classifier.WBN.Encode | wbn/classifier.py:134-151 | labels gain codes, other keys keep theirs, the k distinct labels of `target` map one-to-one onto 0..k-1, and the result is true exactly when the table is non-empty |
| Classifier.EncodedByEnumeration | wbn/classifier.py:148-149 | numbering any duplicate-free enumeration of the labels by position yields such a coding |
| Classifier.WBN.Fit | wbn/classifier.py:25-83 | on a length mismatch returns `InstanceCountError` and changes nothing; otherwise appends the fits of `ClassFitsSpec` to the earlier ones, encodes the labels, and returns all fits |
| Classifier.KeepKnown | wbn/classifier.py:108 | keeps every occurrence of a known word and drops every other word |
| Classifier.Filter | wbn/classifier.py:106-109 | `dict(Counter([word for word in entry if word in corpus]))`; `FilterSpec` states what it holds |
| Classifier.FilterSpec | wbn/classifier.py:105-109 | an instance is a well-formed dict holding exactly the entry's words that are in the corpus, each with its count in the entry |
| Seqs.MapSeq | wbn/classifier.py:105-109 | the loop of `predict` builds one filtered instance per document, in order |
| Classifier.GlobalCorpus | wbn/classifier.py:97-103 | a word is in the prediction corpus exactly when it is in the corpus of some fit |
| Classifier.DagTraverse | wbn/classifier.py:115-132 | the stub scores every instance 1 |
| Classifier.WBN.Predict | wbn/classifier.py:85-113 | one prediction per document, each 1; instance i is document i filtered against the union of all fits' corpora; `target` is not read |
| Seqs.Dedup | wbn/classifier.py:58 | the classes of `by_class`, in first-occurrence order, are duplicate-free and hold exactly the labels |
| Seqs.DedupOrder | wbn/classifier.py:47-56 | the classes are listed in order of first appearance: a class listed before another occurs in `target` before the other's first occurrence |
| Seqs.ListOfSet | wbn/classifier.py:148 | `list(set(target))` lists every distinct label exactly once |
| Seqs.Combinations | wbn/classifier.py:61-74 | `combinations(xs, 2)`: each element paired with every later one, in order; the lemmas below state its length, members and distinctness |
| Seqs.CombinationsLength | wbn/classifier.py:61-74 | `combinations(xs, 2)` yields n(n-1)/2 pairs |
| Seqs.CombinationsMember | wbn/classifier.py:61-74 | a pair is produced exactly when it joins an earlier element to a later one |
| Seqs.CombinationsDistinct | wbn/classifier.py:61-74 | over distinct elements no pair is produced twice |
| Seqs.CombinationsCard | wbn/classifier.py:61-74 | over n distinct elements the pairs form n(n-1)/2 distinct edges |
| Graph.DiGraph.AddEdgesFrom | wbn/classifier.py:77 | `add_edges_from` only adds the given edges, keeps all old ones, and is a no-op for edges already present |
| Graph.PairGraph | wbn/classifier.py:60-77 | `nx.DiGraph()` with `add_edges_from(combinations(xs, 2))`; `PairGraphSpec` and the lemmas below state what it holds |
| Graph.PairGraphEdge | wbn/classifier.py:77 | the pair graph has an edge from the i-th to the j-th element exactly when i < j |
| Graph.PairGraphCard | wbn/classifier.py:77 | over distinct elements the pair graph has n(n-1)/2 edges |
| Graph.PairGraphNodes | wbn/classifier.py:77 | its nodes are all the elements once there are two, and none before |
| Graph.PairGraphTournament | wbn/classifier.py:77 | between two distinct nodes there is an edge in exactly one direction |
| Graph.PairGraphSpec | wbn/classifier.py:61-77 | over distinct attributes the graph built from `combinations(attrs, 2)` has exactly the earlier-to-later edges, n(n-1)/2 of them, no nodes below two attributes, and one direction between any two nodes |
| Errors.Decimal | wbn/errors.py:19-21 | `{}` formatting of a length; `DecimalRoundTrip` and `DecimalNoLeadingZero` state what it holds |
| Errors.Message | wbn/errors.py:18-21 | the message text with both counts in decimal; the lemmas below state what it holds |
| Errors.DecimalNoLeadingZero | wbn/errors.py:18-21 | a count is written without a leading zero: the text starts with '0' only for 0 |
| Errors.DecimalRoundTrip | wbn/errors.py:18-21 | the decimal rendering of a count reads back as that count |
| Errors.MessageReportsCounts | wbn/errors.py:18-21 | two errors have the same message exactly when both counts agree |
| Errors.MessageForTwoAndOne | tests/test_errors.py:24-31 | two instances against one target give "Number of instances: 2 does not match number of targets: 1" |
| Objects.Repr | wbn/object.py:13-14 | `word:weight`, with the weight written by a given float formatter; `ReprRoundTrip` states what it holds |
| Objects.ReprRoundTrip | wbn/object.py:13-14 | for a word without ':' the rendering splits back into the word and the weight's text |
| Objects.Instance.Data | wbn/object.py:34-37 | `data` is the value stored under "data", or empty when there is none |
| Objects.Instance.Target | wbn/object.py:39-42 | `target` is the value stored under "target", or empty when there is none |
| Objects.AccessorsSeeTheirKey | wbn/object.py:31-42 | each accessor sees what was stored under its own key and is unaffected by writes to the other key |
| Wbn.EntryAttributes | wbn/wbn.py:30-33 | one attribute per word of the entry, in insertion order, weighted count / len(entry); `EntryEdge` and `EntryNode` state what the graph built from them holds |
| Wbn.EntryGraph | wbn/wbn.py:28-39 | the edges one entry adds: the pair graph of its attributes; `EntryEdge`, `EntryEdgeCount` and `EntryNode` state what it holds |
| Wbn.EntryEdge | wbn/wbn.py:28-39 | an entry's graph has an edge exactly between the attributes of two of its words, from the earlier to the later, with weight = count / len(entry) |
| Wbn.EntryEdgeCount | wbn/wbn.py:28-39 | an entry with n words contributes n(n-1)/2 edges |
| Wbn.EntryNode | wbn/wbn.py:28-39 | an entry's nodes are its weighted words, and there are none when it has fewer than two words |
| Wbn.FitGraph | wbn/wbn.py:26-39 | the graph after walking the entries, each adding its pairs; `FitGraphEdges` states which edges it holds |
| Wbn.FitGraphEdges | wbn/wbn.py:26-39 | after `fit` the graph holds the old edges plus the union of the entries' edge sets, and nothing else |
| Wbn.FitGraphIdempotent | wbn/wbn.py:26-39 | fitting the same data a second time leaves the graph unchanged |
| Wbn.FitGraphConcat | wbn/wbn.py:26-39 | fitting two batches one after the other equals fitting their concatenation |
| Seqs.UnionMember | wbn/wbn.py:26-39 | an edge is in the union of the entries' edge sets exactly when some entry has it |
| Seqs.UnionConcat | wbn/wbn.py:26-39 | the union over two batches is the union of the two unions |
| Wbn.WBN.constructor | wbn/wbn.py:20-22 | keeps `max_iter` (default 100) and starts with an empty graph |
| Wbn.WBN.Fit | wbn/wbn.py:24-39 | the loop over the entries produces exactly the graph described by `FitGraphEdges`; `target` is not read |

## Left out

- `Classifier.Stat`: the pair fields are natural numbers, whereas `_update` is annotated with `Tuple[int, int]`. Every call from `fit` passes counts, which are never negative, so `Update` with negative pairs is not modelled.
- Logging, and the `assert cls_dag.is_directed()` check (a `DiGraph` is always directed).
- numpy arrays: `data` and `target` are sequences.
- networkx beyond a graph's edge set: node and edge attribute dictionaries, and node insertion order.
- `Objects.Repr`: the float formatting of `weight` is a parameter `render`, because Python's shortest-repr float formatting is not modelled. Weights are exact rationals (`real`), not IEEE doubles.
- `Objects.Fit`: the corpus `list(set(keywords))` is kept as a set, because Python leaves the list's order unspecified.
- `Classifier.WBN.Encode`: the enumeration order of `list(set(target))` is chosen nondeterministically for the same reason.
- `Classifier.WBN.constructor`: only the default `size = 2` is modelled, because `fit` is modelled for pairs only. Combinations of other sizes are not modelled.
- `Classifier.Update`: modelled on values. The Python method mutates and returns the same `parent` object, so the aliasing between `by_class[label]` and the returned dict is not modelled.
- The `defaultdict(dict)` behaviour of `by_class` is modelled as `get` with an empty default followed by an assignment. This has the same effect, because the key is assigned right after.
- `Objects.Instance`: `data` and `target` are given one element type, whereas the source annotates them with different types.
- `Classification` in `wbn/object.py` holds only the type annotations `index` and `name`, so it is not modelled. `tests/test_object.py` constructs it with three arguments (a graph, a name and a corpus), which that class does not accept.
- The four-argument `Attribute("foo", 0.5, 1, 1)` and its `<foo:0.5:[1:1]>` rendering in `tests/test_object.py` do not exist in `wbn/object.py`; `Classifier.Attribute` has the four fields, `Objects.Attribute` the two that `wbn/object.py` declares.
- `wbn/sample/datasets.py`, the test data and the package metadata are not part of this model.
- `Classifier.WBN.Fit`: `fit` returns the list `self.fits` itself, so the caller holds a live alias that later calls of `fit` extend. The model returns the value of the fits at the time of the call.
- `Wbn.WBN.Fit`: entries are word → integer-count dictionaries. Division of `count` by `len(entry)` is exact, and an empty entry contributes nothing, as in the source.

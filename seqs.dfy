/** Sequence helpers standing in for Python's `set(...)`, `list(set(...))`,
    first-occurrence order and `itertools.combinations(..., 2)`. */
module Seqs {

  /** No element occurs twice in `s`. */
  predicate Distinct<T(==)>(s: seq<T>) {
    forall i, j :: 0 <= i < j < |s| ==> s[i] != s[j]
  }

  /** The elements of `s` as a set (Python `set(s)`). */
  function Elements<T>(s: seq<T>): set<T> {
    set x | x in s
  }

  /** A sequence without repetitions has as many elements as its set. */
  lemma {:induction false} DistinctCard<T>(s: seq<T>)
    requires Distinct(s)
    ensures |Elements(s)| == |s|
  {
    if s != [] {
      var n := |s| - 1;
      DistinctCard(s[..n]);
      assert s == s[..n] + [s[n]];
      assert Elements(s) == Elements(s[..n]) + {s[n]};
      assert s[n] !in Elements(s[..n]);
    }
  }

  lemma DistinctConcat<T>(a: seq<T>, b: seq<T>)
    requires Distinct(a) && Distinct(b)
    requires forall x :: x in a ==> x !in b
    ensures Distinct(a + b)
  {
    forall i, j | 0 <= i < j < |a + b| ensures (a + b)[i] != (a + b)[j] {
      if j < |a| {
      } else if i >= |a| {
        assert (a + b)[i] == b[i - |a|] && (a + b)[j] == b[j - |a|];
      } else {
        assert (a + b)[i] == a[i] && (a + b)[j] == b[j - |a|];
        assert b[j - |a|] in b;
      }
    }
  }

  /** The elements of `s` in order of first occurrence, each once: the key
      order of a Python dict filled from `s`. */
  function Dedup<T(==)>(s: seq<T>): (r: seq<T>)
    ensures Distinct(r)
    ensures Elements(r) == Elements(s)
  {
    if s == [] then []
    else
      var n := |s| - 1;
      var p := Dedup(s[..n]);
      assert s == s[..n] + [s[n]];
      assert Elements(s) == Elements(s[..n]) + {s[n]};
      if s[n] in p then p else p + [s[n]]
  }

  /** One more element: `Dedup` appends it unless it was already there. */
  lemma DedupSnoc<T>(s: seq<T>, e: T)
    ensures Dedup(s + [e]) == if e in Dedup(s) then Dedup(s) else Dedup(s) + [e]
  {
    assert (s + [e])[..|s|] == s;
  }

  /** A duplicate-free sequence is its own `Dedup`. */
  lemma {:induction false} DedupOfDistinct<T>(s: seq<T>)
    requires Distinct(s)
    ensures Dedup(s) == s
  {
    if s != [] {
      var n := |s| - 1;
      assert s == s[..n] + [s[n]];
      DedupOfDistinct(s[..n]);
      assert s[n] !in s[..n];
    }
  }

  /** Removing repeats from the back part first changes nothing. */
  lemma {:induction false} DedupOfDedupBack<T>(a: seq<T>, b: seq<T>)
    ensures Dedup(a + Dedup(b)) == Dedup(a + b)
  {
    if b == [] {
      assert Dedup(b) == [];
      assert a + Dedup(b) == a + b;
    } else {
      var n := |b| - 1;
      var e := b[n];
      var front := b[..n];
      assert b == front + [e];
      DedupOfDedupBack(a, front);
      var q := Dedup(a + front);
      assert a + b == (a + front) + [e];
      DedupSnoc(a + front, e);
      DedupSnoc(front, e);
      if e in Dedup(front) {
        assert Dedup(b) == Dedup(front);
        assert e in Elements(a + front);
        assert Dedup(a + b) == q;
      } else {
        assert Dedup(b) == Dedup(front) + [e];
        assert a + Dedup(b) == (a + Dedup(front)) + [e];
        DedupSnoc(a + Dedup(front), e);
        assert Dedup(a + Dedup(front)) == q;
      }
    }
  }

  /** Removing repeats from the front part first changes nothing. */
  lemma {:induction false} DedupOfDedupFront<T>(a: seq<T>, b: seq<T>)
    ensures Dedup(Dedup(a) + b) == Dedup(a + b)
  {
    if b == [] {
      assert Dedup(a) + b == Dedup(a) && a + b == a;
      DedupOfDistinct(Dedup(a));
    } else {
      var n := |b| - 1;
      var e := b[n];
      DedupOfDedupFront(a, b[..n]);
      assert Dedup(a) + b == (Dedup(a) + b[..n]) + [e];
      assert a + b == (a + b[..n]) + [e];
      DedupSnoc(Dedup(a) + b[..n], e);
      DedupSnoc(a + b[..n], e);
    }
  }

  /** `Dedup` keeps the order of first occurrence: an element listed before
      another occurs in `s` before the other's first occurrence. */
  lemma {:induction false} DedupOrder<T>(s: seq<T>, i: nat, j: nat)
    requires i < j < |Dedup(s)|
    ensures exists p :: 0 <= p < |s| && s[p] == Dedup(s)[i] && Dedup(s)[j] !in s[..p + 1]
  {
    var n := |s| - 1;
    var prev := Dedup(s[..n]);
    if j < |prev| {
      assert Dedup(s)[i] == prev[i] && Dedup(s)[j] == prev[j];
      DedupOrder(s[..n], i, j);
      var p :| 0 <= p < n && s[..n][p] == prev[i] && prev[j] !in s[..n][..p + 1];
      assert s[..n][..p + 1] == s[..p + 1];
      assert s[p] == Dedup(s)[i] && Dedup(s)[j] !in s[..p + 1];
    } else {
      assert Dedup(s)[j] == s[n] && s[n] !in prev;
      assert Dedup(s)[i] == prev[i];
      assert prev[i] in Elements(s[..n]);
      var p :| 0 <= p < n && s[..n][p] == prev[i];
      assert s[n] !in Elements(s[..n]);
      assert s[..p + 1] == s[..n][..p + 1];
      assert s[p] == Dedup(s)[i] && Dedup(s)[j] !in s[..p + 1];
    }
  }

  /** `list(s)` for a Python set: some enumeration of `s`, each element once.
      Python promises no particular order, so the element taken next is
      chosen arbitrarily. */
  method ListOfSet<T>(s: set<T>) returns (r: seq<T>)
    ensures Distinct(r)
    ensures Elements(r) == s
    ensures |r| == |s|
  {
    r := [];
    var rest := s;
    while rest != {}
      invariant Distinct(r)
      invariant Elements(r) + rest == s
      invariant Elements(r) !! rest
      decreases rest
    {
      var x :| x in rest;
      assert Elements(r + [x]) == Elements(r) + {x};
      r := r + [x];
      rest := rest - {x};
    }
    DistinctCard(r);
  }

  /** `itertools.combinations(xs, 2)`: every pair `(xs[i], xs[j])` with
      `i < j`, ordered by `i` and then by `j`. */
  function Combinations<T>(xs: seq<T>): seq<(T, T)> {
    if xs == [] then []
    else seq(|xs| - 1, j requires 0 <= j < |xs| - 1 => (xs[0], xs[j + 1])) + Combinations(xs[1..])
  }

  /** There are n(n-1)/2 pairs of `n` elements. */
  lemma {:induction false} CombinationsLength<T>(xs: seq<T>)
    ensures 2 * |Combinations(xs)| == |xs| * (|xs| - 1)
  {
    if xs != [] {
      var tail := Combinations(xs[1..]);
      CombinationsLength(xs[1..]);
      assert |Combinations(xs)| == |xs| - 1 + |tail|;
      assert (|xs| - 1) * (|xs| - 2) + 2 * (|xs| - 1) == |xs| * (|xs| - 1);
    }
  }

  /** A pair is produced exactly when it joins an earlier element to a later one. */
  lemma {:induction false} CombinationsMember<T>(xs: seq<T>, p: (T, T))
    ensures p in Combinations(xs) <==> exists i, j :: 0 <= i < j < |xs| && p == (xs[i], xs[j])
  {
    if xs != [] {
      var head := seq(|xs| - 1, j requires 0 <= j < |xs| - 1 => (xs[0], xs[j + 1]));
      var tail := xs[1..];
      assert Combinations(xs) == head + Combinations(tail);
      CombinationsMember(tail, p);
      if p in Combinations(xs) {
        if p in head {
          var j :| 0 <= j < |head| && head[j] == p;
          assert p == (xs[0], xs[j + 1]);
        } else {
          var i, j :| 0 <= i < j < |tail| && p == (tail[i], tail[j]);
          assert p == (xs[i + 1], xs[j + 1]);
        }
      }
      if exists i, j :: 0 <= i < j < |xs| && p == (xs[i], xs[j]) {
        var i, j :| 0 <= i < j < |xs| && p == (xs[i], xs[j]);
        if i == 0 {
          assert head[j - 1] == p;
        } else {
          assert p == (tail[i - 1], tail[j - 1]);
        }
      }
    }
  }

  /** Over distinct elements no pair is produced twice. */
  lemma {:induction false} CombinationsDistinct<T>(xs: seq<T>)
    requires Distinct(xs)
    ensures Distinct(Combinations(xs))
  {
    if xs != [] {
      var head := seq(|xs| - 1, j requires 0 <= j < |xs| - 1 => (xs[0], xs[j + 1]));
      var tail := xs[1..];
      assert Combinations(xs) == head + Combinations(tail);
      CombinationsDistinct(tail);
      forall p | p in head ensures p !in Combinations(tail) {
        CombinationsMember(tail, p);
        assert forall i :: 0 <= i < |tail| ==> tail[i] != xs[0];
      }
      DistinctConcat(head, Combinations(tail));
    }
  }

  /** Over `n` distinct elements the pairs form a set of n(n-1)/2 edges. */
  lemma CombinationsCard<T>(xs: seq<T>)
    requires Distinct(xs)
    ensures 2 * |Elements(Combinations(xs))| == |xs| * (|xs| - 1)
  {
    CombinationsDistinct(xs);
    CombinationsLength(xs);
    DistinctCard(Combinations(xs));
  }

  /** The union of a sequence of sets. */
  function Union<T>(sets: seq<set<T>>): set<T> {
    if sets == [] then {} else Union(sets[..|sets| - 1]) + sets[|sets| - 1]
  }

  /** An element is in the union exactly when it is in one of the sets. */
  lemma {:induction false} UnionMember<T>(sets: seq<set<T>>, x: T)
    ensures x in Union(sets) <==> exists i :: 0 <= i < |sets| && x in sets[i]
  {
    if sets != [] {
      var n := |sets| - 1;
      UnionMember(sets[..n], x);
      if x in Union(sets[..n]) {
        var i :| 0 <= i < n && x in sets[..n][i];
        assert x in sets[i];
      }
      if exists i :: 0 <= i < |sets| && x in sets[i] {
        var i :| 0 <= i < |sets| && x in sets[i];
        if i < n {
          assert x in sets[..n][i];
        }
      }
    }
  }

  /** The union of a concatenation is the union of the two unions. */
  lemma {:induction false} UnionConcat<T>(a: seq<set<T>>, b: seq<set<T>>)
    ensures Union(a + b) == Union(a) + Union(b)
  {
    if b != [] {
      var n := |b| - 1;
      UnionConcat(a, b[..n]);
      assert (a + b)[..|a + b| - 1] == a + b[..n];
    } else {
      assert a + b == a;
    }
  }

  /** A loop that appends `f(x)` for every `x` of `xs`, in order. */
  method MapSeq<A, B>(xs: seq<A>, f: A -> B) returns (ys: seq<B>)
    ensures |ys| == |xs|
    ensures forall i :: 0 <= i < |xs| ==> ys[i] == f(xs[i])
  {
    ys := [];
    for i := 0 to |xs|
      invariant |ys| == i
      invariant forall k :: 0 <= k < i ==> ys[k] == f(xs[k])
    {
      ys := ys + [f(xs[i])];
    }
  }
}

/**
 * Grouping cells by a categorical label: the positions that carry each
 * label, the distinct labels in first-seen order, and how the group sizes
 * add up. The trace and box-plot assemblers are specified with these.
 */
module Grouping {
  import opened Wrappers
  import OrderedHash

  /** The positions, in increasing order, whose label is `k`. */
  function IndicesOf<K(==, !new)>(labels: seq<Option<K>>, k: K): (r: seq<nat>)
    ensures forall j :: 0 <= j < |r| ==> r[j] < |labels| && labels[r[j]] == Some(k)
    ensures forall j1, j2 :: 0 <= j1 < j2 < |r| ==> r[j1] < r[j2]
    ensures forall i :: 0 <= i < |labels| && labels[i] == Some(k) ==> i in r
  {
    if labels == [] then []
    else
      var n := |labels| - 1;
      var prev := IndicesOf(labels[..n], k);
      if labels[n] == Some(k) then prev + [n] else prev
  }

  /** Extending the labels by one position extends each group by at most that position. */
  lemma IndicesOfSnoc<K(!new)>(labels: seq<Option<K>>, i: nat, k: K)
    requires i < |labels|
    ensures IndicesOf(labels[..i + 1], k) ==
      IndicesOf(labels[..i], k) + (if labels[i] == Some(k) then [i] else [])
  {
    assert labels[..i + 1][..i] == labels[..i];
  }

  /** `xs` read at the positions `idx`. */
  function Pick<T>(xs: seq<T>, idx: seq<nat>): (r: seq<T>)
    requires forall j :: 0 <= j < |idx| ==> idx[j] < |xs|
    ensures |r| == |idx|
    ensures forall j :: 0 <= j < |idx| ==> r[j] == xs[idx[j]]
  {
    seq(|idx|, j requires 0 <= j < |idx| => xs[idx[j]])
  }

  lemma PickSnoc<T>(xs: seq<T>, idx: seq<nat>, i: nat)
    requires forall j :: 0 <= j < |idx| ==> idx[j] < |xs|
    requires i < |xs|
    ensures Pick(xs, idx + [i]) == Pick(xs, idx) + [xs[i]]
  {
  }

  /** The elements of `s` with later repetitions removed (the keys a Ruby hash keeps). */
  function Dedup<K(==, !new)>(s: seq<K>): (r: seq<K>)
    ensures forall x :: x in r <==> x in s
    ensures forall i, j :: 0 <= i < j < |r| ==> r[i] != r[j]
  {
    if s == [] then []
    else
      var prev := Dedup(s[..|s| - 1]);
      var x := s[|s| - 1];
      assert forall y :: y in s <==> y in s[..|s| - 1] || y == x;
      if x in prev then prev else prev + [x]
  }

  /** The keys of `keys`, in order, that label at least one position. */
  function Occupied<K(==, !new)>(keys: seq<K>, labels: seq<Option<K>>): (r: seq<K>)
    ensures forall k :: k in r <==> k in keys && IndicesOf(labels, k) != []
  {
    if keys == [] then []
    else
      var prev := Occupied(keys[..|keys| - 1], labels);
      var k := keys[|keys| - 1];
      assert forall y :: y in keys <==> y in keys[..|keys| - 1] || y == k;
      if IndicesOf(labels, k) != [] then prev + [k] else prev
  }

  /** Every label present is one of `keys`. */
  predicate LabelsKnown<K(==)>(labels: seq<Option<K>>, keys: seq<K>)
  {
    forall i :: 0 <= i < |labels| && labels[i].Some? ==> labels[i].value in keys
  }

  /** The number of positions that carry a label. */
  function Labelled<K>(labels: seq<Option<K>>): (n: nat)
    ensures n <= |labels|
  {
    if labels == [] then 0
    else Labelled(labels[..|labels| - 1]) + (if labels[|labels| - 1].Some? then 1 else 0)
  }

  /** The group sizes of `keys`, added up. */
  function SumCounts<K(==, !new)>(keys: seq<K>, labels: seq<Option<K>>): nat
  {
    if keys == [] then 0
    else SumCounts(keys[..|keys| - 1], labels) + |IndicesOf(labels, keys[|keys| - 1])|
  }

  /** How many of `keys` the label `l` names. */
  function Hits<K(==)>(keys: seq<K>, l: Option<K>): nat
  {
    if keys == [] then 0
    else Hits(keys[..|keys| - 1], l) + (if l == Some(keys[|keys| - 1]) then 1 else 0)
  }

  lemma {:induction false} SumCountsNoLabels<K(!new)>(keys: seq<K>)
    ensures SumCounts(keys, []) == 0
  {
    if keys != [] {
      SumCountsNoLabels(keys[..|keys| - 1]);
    }
  }

  lemma {:induction false} SumCountsSnoc<K(!new)>(keys: seq<K>, labels: seq<Option<K>>, l: Option<K>)
    ensures SumCounts(keys, labels + [l]) == SumCounts(keys, labels) + Hits(keys, l)
  {
    if keys != [] {
      var k := keys[|keys| - 1];
      SumCountsSnoc(keys[..|keys| - 1], labels, l);
      assert (labels + [l])[..|labels|] == labels;
      assert IndicesOf(labels + [l], k) ==
        IndicesOf(labels, k) + (if l == Some(k) then [|labels|] else []);
    }
  }

  lemma {:induction false} HitsDistinct<K(!new)>(keys: seq<K>, v: K)
    requires forall i, j :: 0 <= i < j < |keys| ==> keys[i] != keys[j]
    ensures Hits(keys, Some(v)) == if v in keys then 1 else 0
  {
    if keys != [] {
      var pre := keys[..|keys| - 1];
      HitsDistinct(pre, v);
      assert forall y :: y in keys <==> y in pre || y == keys[|keys| - 1];
      assert keys[|keys| - 1] !in pre;
    }
  }

  lemma {:induction false} HitsNone<K>(keys: seq<K>)
    ensures Hits(keys, None) == 0
  {
    if keys != [] {
      HitsNone(keys[..|keys| - 1]);
    }
  }

  /**
   * When every label is one of a list of distinct keys, the groups of those
   * keys hold every labelled position exactly once between them.
   */
  lemma {:induction false} PointCountsAddUp<K(!new)>(keys: seq<K>, labels: seq<Option<K>>)
    requires forall i, j :: 0 <= i < j < |keys| ==> keys[i] != keys[j]
    requires LabelsKnown(labels, keys)
    ensures SumCounts(keys, labels) == Labelled(labels)
  {
    if labels == [] {
      SumCountsNoLabels(keys);
    } else {
      var n := |labels| - 1;
      var pre := labels[..n];
      assert LabelsKnown(pre, keys) by {
        forall i | 0 <= i < |pre| && pre[i].Some? ensures pre[i].value in keys {
          assert pre[i] == labels[i];
        }
      }
      PointCountsAddUp(keys, pre);
      assert pre + [labels[n]] == labels;
      SumCountsSnoc(keys, pre, labels[n]);
      match labels[n]
      case None => HitsNone(keys);
      case Some(v) => HitsDistinct(keys, v);
    }
  }

  /** Leaving out the keys with empty groups does not change the total. */
  lemma {:induction false} SumCountsOccupied<K(!new)>(keys: seq<K>, labels: seq<Option<K>>)
    ensures SumCounts(Occupied(keys, labels), labels) == SumCounts(keys, labels)
  {
    if keys != [] {
      var pre := keys[..|keys| - 1];
      var k := keys[|keys| - 1];
      SumCountsOccupied(pre, labels);
      var prev := Occupied(pre, labels);
      if IndicesOf(labels, k) != [] {
        assert (prev + [k])[..|prev|] == prev;
      }
    }
  }

  /** A labelled position lies in the group of its own label and in no other. */
  lemma InExactlyOneGroup<K(!new)>(labels: seq<Option<K>>, i: nat, k: K)
    requires i < |labels|
    ensures i in IndicesOf(labels, k) <==> labels[i] == Some(k)
  {
    var r := IndicesOf(labels, k);
    if i in r {
      var j :| 0 <= j < |r| && r[j] == i;
    }
  }

  /** Filtering a hash whose entry for `k` is empty exactly when group `k` is empty leaves the occupied keys. */
  lemma {:induction false} KeptIsOccupied<K(!new), V>(keys: seq<K>, entries: map<K, V>, drop: V -> bool, labels: seq<Option<K>>)
    requires forall k :: k in keys ==> k in entries
    requires forall k :: k in keys ==> (drop(entries[k]) <==> IndicesOf(labels, k) == [])
    ensures OrderedHash.KeptKeys(keys, entries, drop) == Occupied(keys, labels)
  {
    if keys != [] {
      KeptIsOccupied(keys[..|keys| - 1], entries, drop, labels);
    }
  }

  /** The first position whose element satisfies `p`. */
  function FindFirst<T>(s: seq<T>, p: T -> bool): (r: Option<nat>)
    ensures r.Some? ==> r.value < |s| && p(s[r.value])
    ensures r.Some? ==> forall j :: 0 <= j < r.value ==> !p(s[j])
    ensures r.None? ==> forall j :: 0 <= j < |s| ==> !p(s[j])
  {
    if s == [] then None
    else if p(s[0]) then Some(0)
    else match FindFirst(s[1..], p)
      case None => None
      case Some(i) => Some(i + 1)
  }

  /** The elements of `s` that satisfy `p`, in their order. */
  function Filter<T(!new)>(s: seq<T>, p: T -> bool): (r: seq<T>)
    ensures |r| <= |s|
    ensures forall x :: x in r <==> x in s && p(x)
  {
    if s == [] then []
    else
      var prev := Filter(s[..|s| - 1], p);
      var x := s[|s| - 1];
      assert forall y :: y in s <==> y in s[..|s| - 1] || y == x;
      if p(x) then prev + [x] else prev
  }

  /** Filtering a one-longer prefix adds at most the new element. */
  lemma FilterSnoc<T(!new)>(s: seq<T>, i: nat, p: T -> bool)
    requires i < |s|
    ensures Filter(s[..i + 1], p) == Filter(s[..i], p) + (if p(s[i]) then [s[i]] else [])
  {
    assert s[..i + 1][..i] == s[..i];
  }

  /** What a filter keeps and what its complement keeps make up the whole sequence. */
  lemma {:induction false} FilterPartition<T(!new)>(s: seq<T>, p: T -> bool, q: T -> bool)
    requires forall x :: q(x) <==> !p(x)
    ensures |Filter(s, p)| + |Filter(s, q)| == |s|
    ensures multiset(Filter(s, p)) + multiset(Filter(s, q)) == multiset(s)
  {
    if s != [] {
      var pre := s[..|s| - 1];
      FilterPartition(pre, p, q);
      assert pre + [s[|s| - 1]] == s;
    }
  }

  // ---------------------------------------------------------------------------
  // one container per value, filled position by position

  /** Every label present is one of `keys`; otherwise the position of the first that is not. */
  predicate KnownUpTo<K(==)>(labels: seq<Option<K>>, keys: seq<K>, n: nat)
    requires n <= |labels|
  {
    forall i :: 0 <= i < n && labels[i].Some? ==> labels[i].value in keys
  }

  /** The container built by adding the positions `idx`, in order, to `start`. */
  function FoldIdx<V>(add: (V, nat) -> V, start: V, idx: seq<nat>): V
  {
    if idx == [] then start else add(FoldIdx(add, start, idx[..|idx| - 1]), idx[|idx| - 1])
  }

  lemma FoldIdxSnoc<V>(add: (V, nat) -> V, start: V, idx: seq<nat>, i: nat)
    ensures FoldIdx(add, start, idx + [i]) == add(FoldIdx(add, start, idx), i)
  {
    assert (idx + [i])[..|idx|] == idx;
  }

  /** Extending the labels by one position adds that position to its own container only. */
  lemma FoldStep<K(!new), V>(add: (V, nat) -> V, start: V, labels: seq<Option<K>>, j: nat, k: K)
    requires j < |labels|
    ensures FoldIdx(add, start, IndicesOf(labels[..j + 1], k)) ==
      if labels[j] == Some(k) then add(FoldIdx(add, start, IndicesOf(labels[..j], k)), j)
      else FoldIdx(add, start, IndicesOf(labels[..j], k))
  {
    IndicesOfSnoc(labels, j, k);
    var idx := IndicesOf(labels[..j], k);
    if labels[j] == Some(k) {
      assert IndicesOf(labels[..j + 1], k) == idx + [j];
      FoldIdxSnoc(add, start, idx, j);
    } else {
      assert IndicesOf(labels[..j + 1], k) == idx + [];
      assert idx + [] == idx;
    }
  }

  /** A hash holding `empty(v)` for each value `v`, in first-seen order. */
  method Containers<K(==, !new), V>(keys: seq<K>, empty: K -> V) returns (h: OrderedHash.Hash<K, V>)
    ensures h.Valid() && h.keys == Dedup(keys)
    ensures forall k :: k in h.entries ==> h.entries[k] == empty(k)
  {
    h := OrderedHash.Empty<K, V>();
    var i := 0;
    while i < |keys|
      invariant 0 <= i <= |keys|
      invariant h.Valid() && h.keys == Dedup(keys[..i])
      invariant forall k :: k in h.entries ==> h.entries[k] == empty(k)
    {
      assert keys[..i + 1][..i] == keys[..i];
      h := OrderedHash.Store(h, keys[i], empty(keys[i]));
      i := i + 1;
    }
    assert keys[..i] == keys;
  }

  /** Each container holds exactly the positions before `n` that carry its key. */
  ghost predicate Filled<K(!new), V>(h: OrderedHash.Hash<K, V>, labels: seq<Option<K>>, n: nat, empty: K -> V, add: (V, nat) -> V)
    requires n <= |labels|
  {
    forall k :: k in h.entries ==> h.entries[k] == FoldIdx(add, empty(k), IndicesOf(labels[..n], k))
  }

  /** Adding position `j` to the container of its label, if it has one. */
  method AddAt<K(==, !new), V>(h: OrderedHash.Hash<K, V>, labels: seq<Option<K>>, j: nat, empty: K -> V, add: (V, nat) -> V)
    returns (r: Option<OrderedHash.Hash<K, V>>)
    requires j < |labels| && h.Valid() && Filled(h, labels, j, empty, add)
    ensures r.None? <==> labels[j].Some? && labels[j].value !in h.entries
    ensures r.Some? ==> r.value.Valid() && r.value.keys == h.keys && Filled(r.value, labels, j + 1, empty, add)
  {
    if labels[j].Some? {
      var v := labels[j].value;
      if v !in h.entries {
        return None;
      }
      var h' := OrderedHash.Store(h, v, add(h.entries[v], j));
      forall k | k in h'.entries
        ensures h'.entries[k] == FoldIdx(add, empty(k), IndicesOf(labels[..j + 1], k))
      {
        FoldStep(add, empty(k), labels, j, k);
      }
      r := Some(h');
    } else {
      forall k | k in h.entries
        ensures h.entries[k] == FoldIdx(add, empty(k), IndicesOf(labels[..j + 1], k))
      {
        FoldStep(add, empty(k), labels, j, k);
      }
      r := Some(h);
    }
  }

  /**
   * The container-per-value pattern of the trace and box-plot loaders: the
   * containers of `Containers`, and then, for each position in order, `add`
   * of that position into the container of its label. An unlabelled position
   * is skipped; a label that is not a key fails, as indexing the hash with it
   * yields nil.
   */
  method GroupBy<K(==, !new), V>(keys: seq<K>, labels: seq<Option<K>>, empty: K -> V, add: (V, nat) -> V)
    returns (r: Result<OrderedHash.Hash<K, V>, K>)
    ensures r.Ok? <==> LabelsKnown(labels, keys)
    ensures r.Err? ==>
      exists i :: 0 <= i < |labels| && labels[i] == Some(r.error) && r.error !in keys && KnownUpTo(labels, keys, i)
    ensures r.Ok? ==> r.value.Valid() && r.value.keys == Dedup(keys)
    ensures r.Ok? ==> forall k :: k in r.value.entries ==>
      r.value.entries[k] == FoldIdx(add, empty(k), IndicesOf(labels, k))
  {
    var h := Containers(keys, empty);
    assert labels[..0] == [];
    var j := 0;
    while j < |labels|
      invariant 0 <= j <= |labels|
      invariant h.Valid() && h.keys == Dedup(keys)
      invariant KnownUpTo(labels, keys, j)
      invariant Filled(h, labels, j, empty, add)
    {
      var next := AddAt(h, labels, j, empty, add);
      if next.None? {
        assert labels[j].value !in h.keys;
        return Err(labels[j].value);
      }
      h := next.value;
      j := j + 1;
    }
    assert labels[..j] == labels;
    r := Ok(h);
  }
}

/**
 * A Ruby `Hash`: a map whose keys remember the order in which they were
 * first stored. The controller's trace and box-plot containers are such
 * hashes, and their key order is the order the charts draw them in.
 */
module OrderedHash {

  datatype Hash<K(==, !new), V> = Hash(keys: seq<K>, entries: map<K, V>) {

    /** Keys are listed once each, and exactly the keys of `entries` are listed. */
    ghost predicate Valid()
    {
      (forall i, j :: 0 <= i < j < |keys| ==> keys[i] != keys[j]) &&
      (forall k :: k in entries <==> k in keys)
    }
  }

  function Empty<K(==, !new), V>(): (h: Hash<K, V>)
    ensures h.Valid() && h.keys == [] && h.entries == map[]
  {
    Hash([], map[])
  }

  /** `h[k] = v`: a new key goes last, a key already present keeps its place. */
  function Store<K(==, !new), V>(h: Hash<K, V>, k: K, v: V): (r: Hash<K, V>)
    requires h.Valid()
    ensures r.Valid()
    ensures r.entries == h.entries[k := v]
    ensures k in h.entries ==> r.keys == h.keys
    ensures k !in h.entries ==> r.keys == h.keys + [k]
  {
    if k in h.entries then Hash(h.keys, h.entries[k := v])
    else Hash(h.keys + [k], h.entries[k := v])
  }

  /** The keys of `keys` whose entry `drop` does not reject, in their order. */
  function KeptKeys<K(==, !new), V>(keys: seq<K>, entries: map<K, V>, drop: V -> bool): (r: seq<K>)
    requires forall k :: k in keys ==> k in entries
    ensures forall k :: k in r <==> k in keys && !drop(entries[k])
    ensures |r| <= |keys|
  {
    if keys == [] then []
    else
      var prev := KeptKeys(keys[..|keys| - 1], entries, drop);
      var k := keys[|keys| - 1];
      assert forall x :: x in keys <==> x in keys[..|keys| - 1] || x == k;
      if drop(entries[k]) then prev else prev + [k]
  }

  /** Dropping keys keeps a list of distinct keys distinct. */
  lemma {:induction false} KeptKeysDistinct<K(!new), V>(keys: seq<K>, entries: map<K, V>, drop: V -> bool)
    requires forall k :: k in keys ==> k in entries
    requires forall i, j :: 0 <= i < j < |keys| ==> keys[i] != keys[j]
    ensures forall i, j :: 0 <= i < j < |KeptKeys(keys, entries, drop)| ==>
      KeptKeys(keys, entries, drop)[i] != KeptKeys(keys, entries, drop)[j]
  {
    if keys != [] {
      var pre := keys[..|keys| - 1];
      var k := keys[|keys| - 1];
      KeptKeysDistinct(pre, entries, drop);
      var prev := KeptKeys(pre, entries, drop);
      assert k !in prev by {
        assert k !in pre;
      }
      var r := KeptKeys(keys, entries, drop);
      if r != prev {
        assert r == prev + [k];
        forall i, j | 0 <= i < j < |r| ensures r[i] != r[j] {
          assert r[i] == prev[i] && prev[i] in prev;
          if j < |r| - 1 {
            assert r[j] == prev[j];
          }
        }
      }
    }
  }

  /** `h.delete_if { |key, value| drop(value) }`, walking the keys in order. */
  method DeleteIf<K(==, !new), V>(h: Hash<K, V>, drop: V -> bool) returns (r: Hash<K, V>)
    requires h.Valid()
    ensures r.Valid()
    ensures r.keys == KeptKeys(h.keys, h.entries, drop)
    ensures forall k :: k in r.entries <==> k in h.entries && !drop(h.entries[k])
    ensures forall k :: k in r.entries ==> r.entries[k] == h.entries[k]
  {
    var keys: seq<K> := [];
    var entries: map<K, V> := map[];
    var i := 0;
    while i < |h.keys|
      invariant 0 <= i <= |h.keys|
      invariant keys == KeptKeys(h.keys[..i], h.entries, drop)
      invariant forall k :: k in entries <==> k in keys
      invariant forall k :: k in entries ==> entries[k] == h.entries[k]
    {
      var k := h.keys[i];
      assert h.keys[..i + 1][..i] == h.keys[..i];
      if !drop(h.entries[k]) {
        entries := entries[k := h.entries[k]];
        keys := keys + [k];
      }
      i := i + 1;
    }
    assert h.keys[..i] == h.keys;
    KeptKeysDistinct(h.keys, h.entries, drop);
    r := Hash(keys, entries);
  }
}

/**
 * `StudyIdentifier`: the collection that hands out the short study
 * identifiers `SCP1`, `SCP2`, ... Before a new record is validated its
 * identifier is set from the number of records already stored; the
 * uniqueness validation then refuses it when that identifier is taken.
 */
module StudyIdentifier {
  import opened RubyText

  const Prefix: string := "SCP"

  /** `"#{PREFIX}#{StudyIdentifier.count + 1}"`. */
  function NextIdentifier(count: nat): (r: string)
    ensures StartsWith(r, Prefix)
    ensures AllDigits(r[|Prefix|..]) && DigitsValue(r[|Prefix|..]) == count + 1 > count
  {
    var r := Prefix + NatToString(count + 1);
    assert r[|Prefix|..] == NatToString(count + 1);
    NatToStringRoundTrip(count + 1);
    r
  }

  /** Different counts give different identifiers. */
  lemma NextIdentifierInjective(m: nat, n: nat)
    requires NextIdentifier(m) == NextIdentifier(n)
    ensures m == n
  {
    assert NextIdentifier(m)[|Prefix|..] == NextIdentifier(n)[|Prefix|..];
  }

  /** No identifier is stored twice. */
  predicate Distinct(ids: seq<string>)
  {
    forall i, j :: 0 <= i < j < |ids| ==> ids[i] != ids[j]
  }

  /** The identifiers of a collection that only ever grew: `SCP1` .. `SCPn`, in order. */
  predicate Dense(ids: seq<string>)
  {
    forall i :: 0 <= i < |ids| ==> ids[i] == NextIdentifier(i)
  }

  /** The stored identifiers of the collection. */
  class IdentifierStore {
    var identifiers: seq<string>

    constructor ()
      ensures identifiers == []
    {
      identifiers := [];
    }

    /**
     * `StudyIdentifier.create`: the generated identifier is saved when no
     * stored record has it, and otherwise the record is invalid and nothing
     * is saved.
     */
    method Create() returns (saved: bool, id: string)
      modifies this
      ensures id == NextIdentifier(|old(identifiers)|)
      ensures saved <==> id !in old(identifiers)
      ensures saved ==> identifiers == old(identifiers) + [id]
      ensures !saved ==> identifiers == old(identifiers)
      ensures Distinct(old(identifiers)) ==> Distinct(identifiers)
    {
      id := NextIdentifier(|identifiers|);
      saved := id !in identifiers;
      if saved {
        identifiers := identifiers + [id];
      }
    }
  }

  /** In a collection that only ever grew, the next identifier is free. */
  lemma DenseNeverCollides(ids: seq<string>)
    requires Dense(ids)
    ensures NextIdentifier(|ids|) !in ids
  {
  }

  /** Saving the next identifier keeps the collection dense. */
  lemma DenseGrows(ids: seq<string>)
    requires Dense(ids)
    ensures Dense(ids + [NextIdentifier(|ids|)])
  {
  }

  /** A dense collection has no identifier twice. */
  lemma DenseIsDistinct(ids: seq<string>)
    requires Dense(ids)
    ensures Distinct(ids)
  {
  }

  /**
   * Once a record other than the newest is gone, the count points at a
   * taken identifier: removing `SCP2` from `SCP1`, `SCP2`, `SCP3` makes the
   * next identifier `SCP3`, which the uniqueness validation refuses.
   */
  lemma GapCollides(ids: seq<string>, k: nat)
    requires Dense(ids) && k + 1 < |ids|
    ensures NextIdentifier(|ids| - 1) in ids[..k] + ids[k + 1..]
  {
    var rest := ids[..k] + ids[k + 1..];
    assert |rest| == |ids| - 1;
    assert rest[|rest| - 1] == ids[|ids| - 1];
  }

  /**
   * A refused identifier stays refused: nothing was saved, so the count and
   * with it the next identifier are the same on every later attempt.
   */
  method RefusedStaysRefused(store: IdentifierStore) returns (first: bool, second: bool)
    modifies store
    requires NextIdentifier(|store.identifiers|) in store.identifiers
    ensures !first && !second
    ensures store.identifiers == old(store.identifiers)
  {
    var id;
    first, id := store.Create();
    second, id := store.Create();
  }
}

/**
 * `StudyAccession`: the collection of accessions (`SCP<n>`) given to
 * studies. The next free accession is read from the collection's count; an
 * accession is refused when another record holds it; once one is saved,
 * its study takes the accession value.
 */
module StudyAccession {
  import opened RubyText

  /** The study an accession belongs to; only its `accession` field is modelled. */
  class Study {
    var accession: string

    constructor (accession: string)
      ensures this.accession == accession
    {
      this.accession := accession;
    }
  }

  /** One stored accession; its study is optional. */
  datatype AccessionRecord = AccessionRecord(accession: string, study: Study?)

  /** `assigned?`: the accession belongs to an existing study. */
  predicate Assigned(r: AccessionRecord): (b: bool)
    ensures b <==> r.study != null
  {
    r.study != null
  }

  /** `StudyAccession.next_available`: `"SCP#{count + 1}"`. */
  function NextAvailable(count: nat): (r: string)
    ensures |r| > 3 && r[..3] == "SCP"
    ensures AllDigits(r[3..]) && DigitsValue(r[3..]) == count + 1
  {
    var r := "SCP" + NatToString(count + 1);
    assert r[3..] == NatToString(count + 1);
    NatToStringRoundTrip(count + 1);
    r
  }

  /** What `StudyAccession.create` ends in. */
  datatype CreateOutcome =
    | Invalid          // another record holds the accession: nothing is saved
    | Saved            // saved, and the study took the accession
    | SavedWithoutStudy  // saved, then `nil.update` in the after-create hook raises

  /** No accession is held by two records. */
  predicate UniqueAccessions(records: seq<AccessionRecord>)
  {
    forall i, j :: 0 <= i < j < |records| ==> records[i].accession != records[j].accession
  }

  predicate Holds(records: seq<AccessionRecord>, accession: string)
  {
    exists i :: 0 <= i < |records| && records[i].accession == accession
  }

  class AccessionStore {
    var records: seq<AccessionRecord>

    constructor ()
      ensures records == []
    {
      records := [];
    }

    /** `StudyAccession.next_available` on the stored records. */
    function Next(): (r: string)
      reads this
      ensures r == NextAvailable(|records|)
    {
      "SCP" + NatToString(|records| + 1)
    }

    /**
     * `StudyAccession.create(accession:, study:)`: the uniqueness validation,
     * then the insert, then `set_study_accession_value`, which copies the
     * accession into the study.
     */
    method Create(accession: string, study: Study?) returns (outcome: CreateOutcome)
      modifies this, study
      ensures Holds(old(records), accession) <==> outcome == Invalid
      ensures outcome == Invalid ==> records == old(records) && (study != null ==> study.accession == old(study.accession))
      ensures outcome != Invalid ==> records == old(records) + [AccessionRecord(accession, study)]
      ensures outcome == Saved <==> outcome != Invalid && study != null
      ensures outcome == Saved ==> study.accession == accession
      ensures outcome != Invalid ==> (Assigned(records[|records| - 1]) <==> outcome == Saved)
      ensures UniqueAccessions(old(records)) ==> UniqueAccessions(records)
    {
      if exists i :: 0 <= i < |records| && records[i].accession == accession {
        return Invalid;
      }
      records := records + [AccessionRecord(accession, study)];
      if study == null {
        return SavedWithoutStudy;
      }
      study.accession := accession;
      outcome := Saved;
    }
  }

  /** Two records holding the same accession never both pass the validation. */
  method SameAccessionTwice(store: AccessionStore, accession: string, a: Study?, b: Study?)
    returns (first: CreateOutcome, second: CreateOutcome)
    modifies store, a, b
    ensures second == Invalid
    ensures first != Invalid ==> |store.records| == |old(store.records)| + 1
  {
    first := store.Create(accession, a);
    assert Holds(store.records, accession) by {
      if first == Invalid {
        assert Holds(old(store.records), accession);
      } else {
        assert store.records[|store.records| - 1].accession == accession;
      }
    }
    second := store.Create(accession, b);
  }
}

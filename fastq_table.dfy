/**
 * `populate_rows`: the sample table of the study's sequence-file listing.
 * Each sample becomes a row of its name followed by its read files, padded
 * with empty strings to at least five entries, and appended to the table.
 *
 * The pairing of file names into samples (`sample_read_pairings`) is not
 * part of this model; its result is the input here.
 */
module FastqTable {

  /** The number of entries every row is padded to. */
  const RowWidth: nat := 5

  /** `row = [sample] + files`, then `0.upto(4) { |i| row[i] ||= '' }`. */
  method PadRow(sample: string, files: seq<string>) returns (row: seq<string>)
    ensures |row| == if 1 + |files| < RowWidth then RowWidth else 1 + |files|
    ensures row[0] == sample && row[1..1 + |files|] == files
    ensures forall k :: 1 + |files| <= k < |row| ==> row[k] == ""
  {
    row := [sample] + files;
    for i := 0 to RowWidth
      invariant |row| == if 1 + |files| < i then i else 1 + |files|
      invariant row[0] == sample && row[1..1 + |files|] == files
      invariant forall k :: 1 + |files| <= k < |row| ==> row[k] == ""
    {
      if i >= |row| {
        row := row + [""];
      }
    }
  }

  /** The table a page renders, to which `populate_rows` appends. */
  class SampleTable {
    var rows: seq<seq<string>>

    constructor ()
      ensures rows == []
    {
      rows := [];
    }

    /** Every row has at least five entries. */
    predicate WellFormed()
      reads this
    {
      forall i :: 0 <= i < |rows| ==> |rows[i]| >= RowWidth
    }

    /**
     * One row per sample, in the order of the sample map, appended after the
     * rows already present.
     */
    method PopulateRows(sampleMap: seq<(string, seq<string>)>)
      modifies this
      ensures |rows| == |old(rows)| + |sampleMap|
      ensures rows[..|old(rows)|] == old(rows)
      ensures forall j :: 0 <= j < |sampleMap| ==>
        var r := rows[|old(rows)| + j];
        var files := sampleMap[j].1;
        |r| == (if 1 + |files| < RowWidth then RowWidth else 1 + |files|) &&
        r[0] == sampleMap[j].0 && r[1..1 + |files|] == files &&
        (forall k :: 1 + |files| <= k < |r| ==> r[k] == "")
      ensures old(WellFormed()) ==> WellFormed()
    {
      var start := |rows|;
      for j := 0 to |sampleMap|
        invariant |rows| == start + j
        invariant rows[..start] == old(rows)
        invariant forall t :: 0 <= t < j ==>
          var r := rows[start + t];
          var files := sampleMap[t].1;
          |r| == (if 1 + |files| < RowWidth then RowWidth else 1 + |files|) &&
          r[0] == sampleMap[t].0 && r[1..1 + |files|] == files &&
          (forall k :: 1 + |files| <= k < |r| ==> r[k] == "")
      {
        var row := PadRow(sampleMap[j].0, sampleMap[j].1);
        rows := rows + [row];
      }
      if old(WellFormed()) {
        forall i | 0 <= i < |rows| ensures |rows[i]| >= RowWidth {
          if i < start {
            assert rows[i] == old(rows)[i];
            assert |old(rows)[i]| >= RowWidth;
          } else {
            var t := i - start;
            assert 0 <= t < |sampleMap|;
            assert rows[i] == rows[start + t];
            var files := sampleMap[t].1;
            assert |rows[start + t]| == (if 1 + |files| < RowWidth then RowWidth else 1 + |files|);
          }
        }
      }
    }
  }
}

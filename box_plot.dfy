/**
 * The box-plot loaders `load_expression_boxplot_data_array_scores` (one
 * gene) and `load_gene_set_expression_boxplot_scores` (a consensus over a
 * gene list): a box per annotation value, set up by
 * `initialize_plotly_objects_by_annotation`, filled cell by cell, and
 * deleted when it received no score.
 *
 * The score of a cell is a parameter: the gene's stored score (0.0 when the
 * cell has none) or the mean or median over the gene list.
 */
module BoxPlot {
  import opened Wrappers
  import opened Grouping
  import OrderedHash

  datatype BoxEntry = BoxEntry(y: seq<real>, cells: seq<string>, annotations: seq<string>, name: string)

  /** Which arrays besides `y` a loader appends to. */
  datatype Fields = Fields(cells: bool, annotations: bool)

  predicate ArrayScope(scope: string)
  {
    scope == "cluster" || scope == "user"
  }

  /**
   * Study-wide annotations append the cell name; the gene-set loader also
   * appends the value to `annotations` for cluster and user annotations.
   */
  function FieldsFor(scope: string, geneSet: bool): (f: Fields)
    ensures f.cells <==> !ArrayScope(scope)
    ensures f.annotations <==> geneSet && ArrayScope(scope)
  {
    if ArrayScope(scope) then Fields(false, geneSet) else Fields(true, false)
  }

  /** `initialize_plotly_objects_by_annotation`: the empty box of one value. */
  function EmptyBox(v: string): BoxEntry
  {
    BoxEntry([], [], [], v)
  }

  /**
   * The label of each cell. Cluster and user annotations come as an array
   * aligned with the cells. For study-wide ones a cell counts only when the
   * map gives it a value that is already a box.
   */
  function BoxLabels(scope: string, annotationArray: seq<string>, cells: seq<string>,
                     annotationHash: map<string, string>, values: seq<string>): (r: seq<Option<string>>)
    requires ArrayScope(scope) ==> |annotationArray| == |cells|
    ensures |r| == |cells|
    ensures ArrayScope(scope) ==> forall i :: 0 <= i < |cells| ==> r[i] == Some(annotationArray[i])
    ensures !ArrayScope(scope) ==> forall i :: 0 <= i < |cells| ==>
      (r[i].Some? <==> cells[i] in annotationHash && annotationHash[cells[i]] in values) &&
      (r[i].Some? ==> r[i].value == annotationHash[cells[i]])
  {
    if ArrayScope(scope) then
      seq(|cells|, i requires 0 <= i < |cells| => Some(annotationArray[i]))
    else
      seq(|cells|, i requires 0 <= i < |cells| =>
        if cells[i] in annotationHash && annotationHash[cells[i]] in values
        then Some(annotationHash[cells[i]]) else None)
  }

  /** A study-wide box plot never indexes a missing box. */
  lemma StudyScopeNeverFails(scope: string, cells: seq<string>, annotationHash: map<string, string>, values: seq<string>)
    requires !ArrayScope(scope)
    ensures LabelsKnown(BoxLabels(scope, [], cells, annotationHash, values), values)
  {
  }

  /** Appending the cell at position `i` to a box, as the loop body does. */
  function AddScore(cells: seq<string>, labels: seq<Option<string>>, score: string -> real, f: Fields,
                    b: BoxEntry, i: nat): BoxEntry
  {
    if i < |cells| && i < |labels| && labels[i].Some? then
      b.(y := b.y + [score(cells[i])],
         cells := if f.cells then b.cells + [cells[i]] else b.cells,
         annotations := if f.annotations then b.annotations + [labels[i].value] else b.annotations)
    else b
  }

  /** The box of value `v` holding the cells at positions `idx`, in that order. */
  function Box(cells: seq<string>, score: string -> real, f: Fields, v: string, idx: seq<nat>): (b: BoxEntry)
    requires forall j :: 0 <= j < |idx| ==> idx[j] < |cells|
    ensures |b.y| == |idx| && b.name == v
    ensures forall j :: 0 <= j < |idx| ==> b.y[j] == score(cells[idx[j]])
    ensures b.cells == if f.cells then Pick(cells, idx) else []
    ensures f.annotations ==> |b.annotations| == |idx| && forall j :: 0 <= j < |idx| ==> b.annotations[j] == v
    ensures !f.annotations ==> b.annotations == []
  {
    BoxEntry(seq(|idx|, j requires 0 <= j < |idx| => score(cells[idx[j]])),
      if f.cells then Pick(cells, idx) else [],
      if f.annotations then seq(|idx|, _ => v) else [],
      v)
  }

  lemma {:induction false} FoldIsBox(cells: seq<string>, labels: seq<Option<string>>, score: string -> real, f: Fields,
                                     add: (BoxEntry, nat) -> BoxEntry, v: string, idx: seq<nat>)
    requires |labels| == |cells|
    requires forall b, i :: add(b, i) == AddScore(cells, labels, score, f, b, i)
    requires forall j :: 0 <= j < |idx| ==> idx[j] < |cells| && labels[idx[j]] == Some(v)
    ensures FoldIdx(add, EmptyBox(v), idx) == Box(cells, score, f, v, idx)
  {
    if idx != [] {
      var n := |idx| - 1;
      var pre := idx[..n];
      var i := idx[n];
      FoldIsBox(cells, labels, score, f, add, v, pre);
      assert pre + [i] == idx;
      PickSnoc(cells, pre, i);
      var b := Box(cells, score, f, v, pre);
      var b' := Box(cells, score, f, v, idx);
      assert b'.y == b.y + [score(cells[i])];
      if f.annotations {
        assert b'.annotations == b.annotations + [v];
      }
    }
  }

  /**
   * Both box-plot loaders: a box per annotation value, each labelled cell's
   * score appended to the box of its value in cell order, and boxes without
   * scores deleted. A cluster or user label that is not a box fails, because
   * its box is nil.
   */
  method LoadBoxPlotScores(values: seq<string>, labels: seq<Option<string>>, cells: seq<string>,
                           score: string -> real, f: Fields)
    returns (r: Result<OrderedHash.Hash<string, BoxEntry>, string>)
    requires |labels| == |cells|
    ensures r.Ok? <==> LabelsKnown(labels, values)
    ensures r.Err? ==>
      exists i :: 0 <= i < |labels| && labels[i] == Some(r.error) && r.error !in values && KnownUpTo(labels, values, i)
    ensures r.Ok? ==> r.value.Valid() && r.value.keys == Occupied(Dedup(values), labels)
    ensures r.Ok? ==> forall k :: k in r.value.entries ==>
      r.value.entries[k] == Box(cells, score, f, k, IndicesOf(labels, k))
  {
    var add := (b: BoxEntry, i: nat) => AddScore(cells, labels, score, f, b, i);
    var grouped := GroupBy(values, labels, EmptyBox, add);
    if grouped.Err? {
      return Err(grouped.error);
    }
    var h := grouped.value;
    forall k | k in h.entries ensures h.entries[k] == Box(cells, score, f, k, IndicesOf(labels, k)) {
      FoldIsBox(cells, labels, score, f, add, k, IndicesOf(labels, k));
    }
    var drop := (b: BoxEntry) => b.y == [];
    var kept := OrderedHash.DeleteIf(h, drop);
    KeptIsOccupied(h.keys, h.entries, drop, labels);
    r := Ok(kept);
  }
}

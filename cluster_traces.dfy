/**
 * The categorical branch of `load_cluster_group_data_array_points`: one
 * scatter trace per annotation value, holding, in cell order, the
 * coordinates, hover text and marker size of every cell with that value.
 * Empty traces are removed at the end.
 */
module ClusterTraces {
  import opened Wrappers
  import opened RubyText
  import opened Grouping
  import OrderedHash

  /** One trace of the scatter plot. `z` is present for a 3-d cluster only. */
  datatype Trace = Trace(
    x: seq<real>, y: seq<real>, z: Option<seq<real>>,
    text: seq<string>, cells: seq<string>, annotations: seq<string>,
    name: string, markerSize: seq<nat>)

  /** The coordinate and cell-name arrays of a cluster, position by position. */
  datatype Points = Points(x: seq<real>, y: seq<real>, z: Option<seq<real>>, cells: seq<string>) {
    predicate Aligned()
    {
      |y| == |x| && |cells| == |x| && (z.Some? ==> |z.value| == |x|)
    }
  }

  /** `"#{annotation[:name]}: #{value}"`, the trace name and each point's annotation. */
  function BaseName(annotName: string, v: string): string
  {
    annotName + ": " + v
  }

  /** The hover text of one point. */
  function PointText(cell: string, annotName: string, v: string): string
  {
    "<b>" + cell + "</b><br>" + annotName + ": " + v
  }

  /** `" (#{n} points)"`. */
  function PointsSuffix(n: nat): string
  {
    " (" + NatToString(n) + " points)"
  }

  /** The container set up for value `v` before any point is added. */
  function EmptyTrace(p: Points, annotName: string, v: string): Trace
  {
    Trace([], [], if p.z.Some? then Some([]) else None, [], [], [], BaseName(annotName, v), [])
  }

  /** Appending the point at position `i`, as the loop body does for a labelled cell. */
  function AddPoint(p: Points, annotName: string, labels: seq<Option<string>>, pointSize: nat, t: Trace, i: nat): Trace
  {
    if p.Aligned() && i < |p.x| && i < |labels| && labels[i].Some? then
      var v := labels[i].value;
      t.(x := t.x + [p.x[i]], y := t.y + [p.y[i]],
         z := if t.z.Some? && p.z.Some? then Some(t.z.value + [p.z.value[i]]) else t.z,
         text := t.text + [PointText(p.cells[i], annotName, v)],
         annotations := t.annotations + [BaseName(annotName, v)],
         cells := t.cells + [p.cells[i]],
         markerSize := t.markerSize + [pointSize])
    else t
  }

  /** The trace of value `v` holding the points at positions `idx`, in that order. */
  function Group(p: Points, annotName: string, v: string, idx: seq<nat>, pointSize: nat): (t: Trace)
    requires p.Aligned()
    requires forall j :: 0 <= j < |idx| ==> idx[j] < |p.x|
    ensures |t.y| == |t.x| && |t.cells| == |t.x| && |t.text| == |t.x| && |t.x| == |idx|
    ensures |t.annotations| == |t.x| && |t.markerSize| == |t.x|
    ensures t.z.Some? <==> p.z.Some?
    ensures t.z.Some? ==> |t.z.value| == |t.x|
    ensures forall j :: 0 <= j < |idx| ==>
      t.x[j] == p.x[idx[j]] && t.y[j] == p.y[idx[j]] && t.cells[j] == p.cells[idx[j]]
  {
    Trace(Pick(p.x, idx), Pick(p.y, idx), if p.z.Some? then Some(Pick(p.z.value, idx)) else None,
      seq(|idx|, j requires 0 <= j < |idx| => PointText(p.cells[idx[j]], annotName, v)),
      Pick(p.cells, idx),
      seq(|idx|, _ => BaseName(annotName, v)),
      BaseName(annotName, v),
      seq(|idx|, _ => pointSize))
  }

  /** The name with its point count appended. */
  function Finished(t: Trace): Trace
  {
    t.(name := t.name + PointsSuffix(|t.x|))
  }

  /** Adding the positions of group `v` one by one to its empty container builds `Group`. */
  lemma {:induction false} FoldIsGroup(p: Points, annotName: string, labels: seq<Option<string>>, pointSize: nat,
                                       add: (Trace, nat) -> Trace, v: string, idx: seq<nat>)
    requires p.Aligned() && |labels| == |p.x|
    requires forall t, i :: add(t, i) == AddPoint(p, annotName, labels, pointSize, t, i)
    requires forall j :: 0 <= j < |idx| ==> idx[j] < |p.x| && labels[idx[j]] == Some(v)
    ensures FoldIdx(add, EmptyTrace(p, annotName, v), idx) == Group(p, annotName, v, idx, pointSize)
  {
    if idx != [] {
      var n := |idx| - 1;
      var pre := idx[..n];
      var i := idx[n];
      FoldIsGroup(p, annotName, labels, pointSize, add, v, pre);
      var g := Group(p, annotName, v, pre, pointSize);
      var g' := Group(p, annotName, v, idx, pointSize);
      assert pre + [i] == idx;
      PickSnoc(p.x, pre, i);
      PickSnoc(p.y, pre, i);
      PickSnoc(p.cells, pre, i);
      if p.z.Some? {
        PickSnoc(p.z.value, pre, i);
      }
      assert g'.text == g.text + [PointText(p.cells[i], annotName, v)];
      assert g'.annotations == g.annotations + [BaseName(annotName, v)];
      assert g'.markerSize == g.markerSize + [pointSize];
    }
  }

  /** `data[:name] << " (#{data[:x].size} points)"` for every trace. */
  method AppendPointCounts(h: OrderedHash.Hash<string, Trace>) returns (r: OrderedHash.Hash<string, Trace>)
    requires h.Valid()
    ensures r.Valid() && r.keys == h.keys
    ensures forall k :: k in r.entries <==> k in h.entries
    ensures forall k :: k in r.entries ==> r.entries[k] == Finished(h.entries[k])
  {
    r := h;
    var i := 0;
    while i < |h.keys|
      invariant 0 <= i <= |h.keys|
      invariant r.Valid() && r.keys == h.keys
      invariant forall k :: k in r.entries <==> k in h.entries
      invariant forall t :: 0 <= t < |h.keys| ==>
        r.entries[h.keys[t]] == if t < i then Finished(h.entries[h.keys[t]]) else h.entries[h.keys[t]]
    {
      var k := h.keys[i];
      r := OrderedHash.Store(r, k, Finished(r.entries[k]));
      i := i + 1;
    }
    forall k | k in r.entries ensures r.entries[k] == Finished(h.entries[k]) {
      var t :| 0 <= t < |h.keys| && h.keys[t] == k;
    }
  }

  /**
   * The label of each cell. Cluster and user annotations come as an array
   * aligned with the cells; study-wide ones as a map from cell name to value,
   * and a cell missing from the map carries no label.
   */
  function CellLabels(scope: string, annotationArray: seq<string>, cells: seq<string>,
                      annotationHash: map<string, string>): (r: seq<Option<string>>)
    requires scope == "cluster" || scope == "user" ==> |annotationArray| == |cells|
    ensures |r| == |cells|
    ensures scope == "cluster" || scope == "user" ==>
      forall i :: 0 <= i < |cells| ==> r[i] == Some(annotationArray[i])
    ensures scope != "cluster" && scope != "user" ==>
      forall i :: 0 <= i < |cells| ==>
        r[i] == if cells[i] in annotationHash then Some(annotationHash[cells[i]]) else None
  {
    if scope == "cluster" || scope == "user" then
      seq(|cells|, i requires 0 <= i < |cells| => Some(annotationArray[i]))
    else
      seq(|cells|, i requires 0 <= i < |cells| =>
        if cells[i] in annotationHash then Some(annotationHash[cells[i]]) else None)
  }

  /**
   * The categorical branch: a container per annotation value, every labelled
   * cell appended to the trace of its value in cell order, the point count
   * appended to every name, and empty traces deleted. A label that is not an
   * annotation value fails, because its container is nil.
   */
  method LoadCategoricalTraces(values: seq<string>, annotName: string, labels: seq<Option<string>>,
                               p: Points, pointSize: nat)
    returns (r: Result<OrderedHash.Hash<string, Trace>, string>)
    requires p.Aligned() && |labels| == |p.x|
    ensures r.Ok? <==> LabelsKnown(labels, values)
    ensures r.Err? ==>
      exists i :: 0 <= i < |labels| && labels[i] == Some(r.error) && r.error !in values && KnownUpTo(labels, values, i)
    ensures r.Ok? ==> r.value.Valid() && r.value.keys == Occupied(Dedup(values), labels)
    ensures r.Ok? ==> forall k :: k in r.value.entries ==>
      r.value.entries[k] == Finished(Group(p, annotName, k, IndicesOf(labels, k), pointSize))
  {
    var empty := (v: string) => EmptyTrace(p, annotName, v);
    var add := (t: Trace, i: nat) => AddPoint(p, annotName, labels, pointSize, t, i);
    var grouped := GroupBy(values, labels, empty, add);
    if grouped.Err? {
      return Err(grouped.error);
    }
    var h := grouped.value;
    forall k | k in h.entries ensures h.entries[k] == Group(p, annotName, k, IndicesOf(labels, k), pointSize) {
      FoldIsGroup(p, annotName, labels, pointSize, add, k, IndicesOf(labels, k));
    }
    var named := AppendPointCounts(h);
    var drop := (t: Trace) => t.x == [];
    var kept := OrderedHash.DeleteIf(named, drop);
    assert forall k :: k in h.keys ==> k in named.entries;
    KeptIsOccupied(named.keys, named.entries, drop, labels);
    r := Ok(kept);
  }

  /**
   * When every label is an annotation value, the traces hold every labelled
   * cell exactly once between them: their point counts add up to the number
   * of labelled cells.
   */
  lemma TracesHoldEveryLabelledCell(values: seq<string>, labels: seq<Option<string>>)
    requires LabelsKnown(labels, values)
    ensures SumCounts(Occupied(Dedup(values), labels), labels) == Labelled(labels)
  {
    var keys := Dedup(values);
    assert LabelsKnown(labels, keys);
    PointCountsAddUp(keys, labels);
    SumCountsOccupied(keys, labels);
  }
}

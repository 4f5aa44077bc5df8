/**
 * The text the dot-plot and heatmap viewer downloads: the expression matrix
 * in GCT 1.2 layout (`expression_query`, without row centering) and the
 * two-column annotation table (`annotation_query`).
 *
 * A score is written by `Float#to_s`, which is a parameter here; the only
 * thing the layout lemmas need from it is that it writes no tab or newline.
 */
module MorpheusExport {
  import opened Wrappers
  import opened RubyText
  import opened GeneSearch

  const Tab: char := '\t'
  const Newline: char := '\n'

  /** The characters that separate fields and lines. */
  const LayoutChars: set<char> := {Tab, Newline}

  /** `gene['scores'][cell].to_f`: a cell without a score reads as 0.0. */
  function ScoreOf(row: ScoreRow, cell: string): (r: real)
    ensures cell in row.scores ==> r == row.scores[cell]
    ensures cell !in row.scores ==> r == 0.0
  {
    if cell in row.scores then row.scores[cell] else 0.0
  }

  /**
   * The documents behind the best matches, when every match is a document.
   * A fall-through collection among them has no `gene` field to write.
   */
  function MatchedRows(genes: seq<GeneMatch>): (r: Option<seq<ScoreRow>>)
    ensures r.Some? <==> forall j :: 0 <= j < |genes| ==> genes[j].Matched?
    ensures r.Some? ==> |r.value| == |genes| && forall j :: 0 <= j < |genes| ==> r.value[j] == genes[j].row
  {
    if genes == [] then Some([])
    else
      match MatchedRows(genes[..|genes| - 1])
      case None => None
      case Some(prev) =>
        var last := genes[|genes| - 1];
        if last.Matched? then Some(prev + [last.row]) else None
  }

  /** The header line's fields. */
  function Header(cells: seq<string>): seq<string>
  {
    ["Name", "Description"] + cells
  }

  /** The fields of one gene's line: its name, an empty description, and its score in each cell. */
  function RowFields(row: ScoreRow, cells: seq<string>, render: real -> string): (r: seq<string>)
    ensures |r| == 2 + |cells| && r[0] == row.gene && r[1] == ""
    ensures forall i :: 0 <= i < |cells| ==> r[2 + i] == render(ScoreOf(row, cells[i]))
  {
    [row.gene, ""] + seq(|cells|, i requires 0 <= i < |cells| => render(ScoreOf(row, cells[i])))
  }

  function RowLines(genes: seq<ScoreRow>, cells: seq<string>, render: real -> string): (r: seq<string>)
    ensures |r| == |genes|
    ensures forall j :: 0 <= j < |genes| ==> r[j] == Join(RowFields(genes[j], cells, render), [Tab])
  {
    seq(|genes|, j requires 0 <= j < |genes| => Join(RowFields(genes[j], cells, render), [Tab]))
  }

  /** The first three lines of the GCT text. */
  function GctPreamble(genes: seq<ScoreRow>, cells: seq<string>): seq<string>
  {
    ["#1.2", Join([NatToString(|genes|), NatToString(|cells|)], [Tab]), Join(Header(cells), [Tab])]
  }

  /** `['#1.2', [@rows.size, @cols].join("\t"), @headers.join("\t"), @rows.join("\n")].join("\n")`. */
  function Gct(genes: seq<ScoreRow>, cells: seq<string>, render: real -> string): string
  {
    Join(GctPreamble(genes, cells) + [Join(RowLines(genes, cells, render), [Newline])], [Newline])
  }

  /** `expression_query` without row centering: headers and rows built up in loops, then joined. */
  method ExpressionQuery(genes: seq<ScoreRow>, cells: seq<string>, render: real -> string) returns (data: string)
    ensures data == Gct(genes, cells, render)
  {
    var headers := ["Name", "Description"];
    for i := 0 to |cells|
      invariant headers == ["Name", "Description"] + cells[..i]
    {
      assert cells[..i + 1] == cells[..i] + [cells[i]];
      headers := headers + [cells[i]];
    }
    assert cells[..|cells|] == cells;
    var rows: seq<string> := [];
    for g := 0 to |genes|
      invariant |rows| == g
      invariant forall j :: 0 <= j < g ==> rows[j] == Join(RowFields(genes[j], cells, render), [Tab])
    {
      var gene := genes[g];
      var row := [gene.gene, ""];
      for c := 0 to |cells|
        invariant |row| == 2 + c && row[0] == gene.gene && row[1] == ""
        invariant forall i :: 0 <= i < c ==> row[2 + i] == render(ScoreOf(gene, cells[i]))
      {
        var score := if cells[c] in gene.scores then gene.scores[cells[c]] else 0.0;
        row := row + [render(score)];
      }
      assert row == RowFields(gene, cells, render);
      rows := rows + [Join(row, [Tab])];
    }
    assert rows == RowLines(genes, cells, render);
    assert headers == Header(cells);
    assert GctPreamble(genes, cells) + [Join(rows, [Newline])] ==
      ["#1.2", Join([NatToString(|rows|), NatToString(|cells|)], [Tab]), Join(headers, [Tab]), Join(rows, [Newline])];
    data := Join(["#1.2", Join([NatToString(|rows|), NatToString(|cells|)], [Tab]), Join(headers, [Tab]),
                  Join(rows, [Newline])], [Newline]);
  }

  /** Digits are neither tabs nor newlines. */
  lemma NumberIsClean(n: nat)
    ensures Avoids(NatToString(n), LayoutChars)
  {
    var s := NatToString(n);
    forall i | 0 <= i < |s| ensures s[i] !in LayoutChars {
      assert IsDigit(s[i]);
    }
  }

  /** A line of tab-separated fields splits back into its fields and holds no newline. */
  lemma FieldsLine(fields: seq<string>)
    requires fields != []
    requires forall k :: 0 <= k < |fields| ==> Avoids(fields[k], LayoutChars)
    ensures SplitAnyRaw(Join(fields, [Tab]), {Tab}) == fields
    ensures Avoids(Join(fields, [Tab]), {Newline})
  {
    assert forall k :: 0 <= k < |fields| ==> Avoids(fields[k], {Tab}) && Avoids(fields[k], {Newline}) by {
      forall k | 0 <= k < |fields| ensures Avoids(fields[k], {Tab}) && Avoids(fields[k], {Newline}) {
        assert Avoids(fields[k], LayoutChars);
      }
    }
    SplitAnyRawJoin(fields, Tab, {Tab});
    JoinAvoids(fields, [Tab], {Newline});
  }

  lemma HeaderLine(cells: seq<string>)
    requires forall i :: 0 <= i < |cells| ==> Avoids(cells[i], LayoutChars)
    ensures SplitAnyRaw(Join(Header(cells), [Tab]), {Tab}) == Header(cells)
    ensures Avoids(Join(Header(cells), [Tab]), {Newline})
  {
    var header := Header(cells);
    forall k | 0 <= k < |header| ensures Avoids(header[k], LayoutChars) {
      if k >= 2 {
        assert header[k] == cells[k - 2];
      }
    }
    FieldsLine(header);
  }

  lemma RowLine(row: ScoreRow, cells: seq<string>, render: real -> string)
    requires Avoids(row.gene, LayoutChars)
    requires forall x :: Avoids(render(x), LayoutChars)
    ensures SplitAnyRaw(Join(RowFields(row, cells, render), [Tab]), {Tab}) == RowFields(row, cells, render)
    ensures Avoids(Join(RowFields(row, cells, render), [Tab]), {Newline})
  {
    var fields := RowFields(row, cells, render);
    forall k | 0 <= k < |fields| ensures Avoids(fields[k], LayoutChars) {
      if k >= 2 {
        assert fields[k] == render(ScoreOf(row, cells[k - 2]));
      }
    }
    FieldsLine(fields);
  }

  /** The lines of the GCT text, read by splitting on newlines and keeping every field. */
  function GctLinesSplit(genes: seq<ScoreRow>, cells: seq<string>, render: real -> string): seq<string>
  {
    SplitAnyRaw(Gct(genes, cells, render), {Newline})
  }

  /** The GCT text is its lines joined by newlines, an empty last line standing in for no genes. */
  lemma GctIsLines(genes: seq<ScoreRow>, cells: seq<string>, render: real -> string)
    ensures Gct(genes, cells, render) ==
      Join(GctPreamble(genes, cells) + (if genes == [] then [""] else RowLines(genes, cells, render)), [Newline])
  {
    if genes != [] {
      JoinFlatten(GctPreamble(genes, cells), RowLines(genes, cells, render), [Newline]);
    }
  }

  /** The lines of the GCT text: the preamble, then the rows or a single empty line. */
  function GctLines(genes: seq<ScoreRow>, cells: seq<string>, render: real -> string): seq<string>
  {
    GctPreamble(genes, cells) + (if genes == [] then [""] else RowLines(genes, cells, render))
  }

  /** No line of the GCT text holds a newline. */
  lemma GctLinesClean(genes: seq<ScoreRow>, cells: seq<string>, render: real -> string)
    requires forall j :: 0 <= j < |genes| ==> Avoids(genes[j].gene, LayoutChars)
    requires forall i :: 0 <= i < |cells| ==> Avoids(cells[i], LayoutChars)
    requires forall x :: Avoids(render(x), LayoutChars)
    ensures forall k :: 0 <= k < |GctLines(genes, cells, render)| ==>
      Avoids(GctLines(genes, cells, render)[k], {Newline})
  {
    var lines := GctLines(genes, cells, render);
    var rows := RowLines(genes, cells, render);
    NumberIsClean(|genes|);
    NumberIsClean(|cells|);
    FieldsLine([NatToString(|genes|), NatToString(|cells|)]);
    HeaderLine(cells);
    assert Avoids("#1.2", {Newline});
    forall k | 0 <= k < |lines| ensures Avoids(lines[k], {Newline}) {
      if k >= 3 && genes != [] {
        assert lines[k] == rows[k - 3];
        RowLine(genes[k - 3], cells, render);
      }
    }
  }

  /** Splitting the GCT text on newlines gives back its lines. */
  lemma GctSplitsIntoLines(genes: seq<ScoreRow>, cells: seq<string>, render: real -> string)
    requires forall j :: 0 <= j < |genes| ==> Avoids(genes[j].gene, LayoutChars)
    requires forall i :: 0 <= i < |cells| ==> Avoids(cells[i], LayoutChars)
    requires forall x :: Avoids(render(x), LayoutChars)
    ensures GctLinesSplit(genes, cells, render) == GctLines(genes, cells, render)
  {
    GctLinesClean(genes, cells, render);
    GctIsLines(genes, cells, render);
    SplitAnyRawJoin(GctLines(genes, cells, render), Newline, {Newline});
  }

  /**
   * The GCT 1.2 layout: line 1 is the version, line 2 the row and column
   * counts, line 3 `Name`, `Description` and the cell names, then one line
   * per gene with 2 + (number of cells) tab-separated fields. With no genes
   * the text ends in an empty line. It holds when no name holds a tab or a
   * newline and no rendered score does.
   */
  lemma GctLayout(genes: seq<ScoreRow>, cells: seq<string>, render: real -> string)
    requires forall j :: 0 <= j < |genes| ==> Avoids(genes[j].gene, LayoutChars)
    requires forall i :: 0 <= i < |cells| ==> Avoids(cells[i], LayoutChars)
    requires forall x :: Avoids(render(x), LayoutChars)
    ensures |GctLinesSplit(genes, cells, render)| == 3 + (if genes == [] then 1 else |genes|)
    ensures GctLinesSplit(genes, cells, render)[0] == "#1.2"
    ensures SplitAnyRaw(GctLinesSplit(genes, cells, render)[1], {Tab}) == [NatToString(|genes|), NatToString(|cells|)]
    ensures SplitAnyRaw(GctLinesSplit(genes, cells, render)[2], {Tab}) == Header(cells)
    ensures genes == [] ==> GctLinesSplit(genes, cells, render)[3] == ""
    ensures forall j :: 0 <= j < |genes| ==>
      SplitAnyRaw(GctLinesSplit(genes, cells, render)[3 + j], {Tab}) == RowFields(genes[j], cells, render)
  {
    GctSplitsIntoLines(genes, cells, render);
    var lines := GctLines(genes, cells, render);
    var rows := RowLines(genes, cells, render);
    NumberIsClean(|genes|);
    NumberIsClean(|cells|);
    FieldsLine([NatToString(|genes|), NatToString(|cells|)]);
    HeaderLine(cells);
    forall j | 0 <= j < |genes|
      ensures SplitAnyRaw(lines[3 + j], {Tab}) == RowFields(genes[j], cells, render)
    {
      assert lines[3 + j] == rows[j];
      RowLine(genes[j], cells, render);
    }
  }

  /** The two fields of line 2 read back, by `to_i`, as the number of genes and of cells. */
  lemma GctCounts(genes: seq<ScoreRow>, cells: seq<string>, render: real -> string)
    requires forall j :: 0 <= j < |genes| ==> Avoids(genes[j].gene, LayoutChars)
    requires forall i :: 0 <= i < |cells| ==> Avoids(cells[i], LayoutChars)
    requires forall x :: Avoids(render(x), LayoutChars)
    ensures |GctLinesSplit(genes, cells, render)| > 1
    ensures var counts := SplitAnyRaw(GctLinesSplit(genes, cells, render)[1], {Tab});
      |counts| == 2 && StringToI(counts[0]) == |genes| && StringToI(counts[1]) == |cells|
  {
    GctLayout(genes, cells, render);
    StringToIRoundTrip(|genes|);
    StringToIRoundTrip(|cells|);
  }

  // ---------------------------------------------------------------------------
  // annotation_query

  /**
   * The annotation of each cell: the cluster's annotation array read by
   * position (nil past its end), or the study metadata value of the cell.
   */
  function AnnotationColumn(scope: string, cells: seq<string>, annotationArray: seq<string>,
                            studyAnnotations: map<string, string>): (r: seq<Option<string>>)
    ensures |r| == |cells|
    ensures scope == "cluster" ==> forall i :: 0 <= i < |cells| ==>
      r[i] == if i < |annotationArray| then Some(annotationArray[i]) else None
    ensures scope != "cluster" ==> forall i :: 0 <= i < |cells| ==>
      r[i] == if cells[i] in studyAnnotations then Some(studyAnnotations[cells[i]]) else None
  {
    if scope == "cluster" then
      seq(|cells|, i requires 0 <= i < |cells| => if i < |annotationArray| then Some(annotationArray[i]) else None)
    else
      seq(|cells|, i requires 0 <= i < |cells| =>
        if cells[i] in studyAnnotations then Some(studyAnnotations[cells[i]]) else None)
  }

  /** `Array#join` writes nil as the empty string. */
  function NilToEmpty(v: Option<string>): string
  {
    if v.Some? then v.value else ""
  }

  function TsvRows(cells: seq<string>, annotations: seq<Option<string>>): (r: seq<string>)
    requires |annotations| == |cells|
    ensures |r| == |cells|
    ensures forall i :: 0 <= i < |cells| ==> r[i] == Join([cells[i], NilToEmpty(annotations[i])], [Tab])
  {
    seq(|cells|, i requires 0 <= i < |cells| => Join([cells[i], NilToEmpty(annotations[i])], [Tab]))
  }

  /** `[@headers.join("\t"), @rows.join("\n")].join("\n")` with headers `NAME` and the annotation name. */
  function Tsv(annotName: string, cells: seq<string>, annotations: seq<Option<string>>): string
    requires |annotations| == |cells|
  {
    Join([Join(["NAME", annotName], [Tab]), Join(TsvRows(cells, annotations), [Newline])], [Newline])
  }

  /** `annotation_query`: one row per cell, built up in a loop, then joined. */
  method AnnotationQuery(annotName: string, cells: seq<string>, annotations: seq<Option<string>>)
    returns (data: string)
    requires |annotations| == |cells|
    ensures data == Tsv(annotName, cells, annotations)
  {
    var rows: seq<string> := [];
    for i := 0 to |cells|
      invariant |rows| == i
      invariant forall k :: 0 <= k < i ==> rows[k] == Join([cells[k], NilToEmpty(annotations[k])], [Tab])
    {
      var value := if annotations[i].Some? then annotations[i].value else "";
      rows := rows + [Join([cells[i], value], [Tab])];
    }
    assert rows == TsvRows(cells, annotations);
    data := Join([Join(["NAME", annotName], [Tab]), Join(rows, [Newline])], [Newline]);
  }

  /**
   * The annotation table's layout: a header line `NAME`, name, then one line
   * per cell holding the cell and its annotation (empty for nil), when no
   * name or value holds a tab or a newline.
   */
  lemma {:induction false} TsvLayout(annotName: string, cells: seq<string>, annotations: seq<Option<string>>)
    requires |annotations| == |cells|
    requires Avoids(annotName, LayoutChars)
    requires forall i :: 0 <= i < |cells| ==> Avoids(cells[i], LayoutChars)
    requires forall i :: 0 <= i < |cells| ==> Avoids(NilToEmpty(annotations[i]), LayoutChars)
    ensures |SplitAnyRaw(Tsv(annotName, cells, annotations), {Newline})| == 1 + (if cells == [] then 1 else |cells|)
    ensures SplitAnyRaw(SplitAnyRaw(Tsv(annotName, cells, annotations), {Newline})[0], {Tab}) == ["NAME", annotName]
    ensures forall i :: 0 <= i < |cells| ==>
      SplitAnyRaw(SplitAnyRaw(Tsv(annotName, cells, annotations), {Newline})[1 + i], {Tab}) ==
        [cells[i], NilToEmpty(annotations[i])]
  {
    var rows := TsvRows(cells, annotations);
    var head := Join(["NAME", annotName], [Tab]);
    var lines := [head] + (if cells == [] then [""] else rows);
    assert Tab in LayoutChars && Newline in LayoutChars;
    assert forall k :: 0 <= k < 2 ==> Avoids(["NAME", annotName][k], LayoutChars);
    SplitAnyRawJoin(["NAME", annotName], Tab, {Tab});
    JoinAvoids(["NAME", annotName], [Tab], {Newline});
    forall i | 0 <= i < |cells|
      ensures SplitAnyRaw(rows[i], {Tab}) == [cells[i], NilToEmpty(annotations[i])]
      ensures Avoids(rows[i], {Newline})
    {
      var fields := [cells[i], NilToEmpty(annotations[i])];
      assert forall k :: 0 <= k < 2 ==> Avoids(fields[k], LayoutChars);
      SplitAnyRawJoin(fields, Tab, {Tab});
      JoinAvoids(fields, [Tab], {Newline});
    }
    assert forall k :: 0 <= k < |lines| ==> Avoids(lines[k], {Newline});
    if cells != [] {
      JoinFlatten([head], rows, [Newline]);
    }
    assert Tsv(annotName, cells, annotations) == Join(lines, [Newline]);
    SplitAnyRawJoin(lines, Newline, {Newline});
  }
}

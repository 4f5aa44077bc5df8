/**
 * The Morpheus dot plot of a gene list: the two fit buttons that toggle
 * between fitting rows, columns, both or neither to the screen, and the
 * configuration `renderMorpheusDotPlot` derives from the fit, the requested
 * height and the annotation values (a colour per value, in sorted order).
 *
 * The DOM is reduced to the values it stores: each button's `active` state
 * and `fit` type, and the plot's stored `fit`.
 */
module DotPlot {
  import opened Wrappers

  // ---------------------------------------------------------------------------
  // the fit buttons

  /** `btnState === 'on' ? 'off' : 'on'`: a button that was not on (or had no state yet) turns on. */
  function FlipState(state: string): (r: string)
    ensures r == "on" <==> state != "on"
    ensures r == "on" || r == "off"
  {
    if state == "on" then "off" else "on"
  }

  /** Clicking twice restores a button that was on or off. */
  lemma FlipStateTwice(state: string)
    requires state == "on" || state == "off"
    ensures FlipState(FlipState(state)) == state
  {
  }

  /**
   * The plot's new fit after a button of type `btnFit` moved to `newState`,
   * given the plot's current fit.
   */
  function NextFit(newState: string, btnFit: string, currFit: string): (r: string)
    ensures newState == "on" && currFit != "" && btnFit != currFit ==> r == "both"
    ensures newState == "on" && (currFit == "" || btnFit == currFit) ==> r == btnFit
    ensures newState != "on" && currFit == "both" ==> r == (if btnFit == "rows" then "cols" else "rows")
    ensures newState != "on" && currFit != "both" ==> r == ""
  {
    if newState == "on" then
      if currFit != "" && btnFit != currFit then "both" else btnFit
    else
      if currFit == "both" then (if btnFit == "rows" then "cols" else "rows") else ""
  }

  datatype Axis = Rows | Cols

  /** The `data-fit` of each of the two buttons. */
  function FitType(a: Axis): string
  {
    match a
    case Rows => "rows"
    case Cols => "cols"
  }

  /** The page's fit state: the `active` data of both buttons and the plot's `fit`. */
  datatype FitButtons = FitButtons(rowsState: string, colsState: string, fit: string)

  /** A click on one button: its state flips and the plot's fit is recomputed. */
  function Click(b: FitButtons, a: Axis): (r: FitButtons)
    ensures a == Rows ==> r.rowsState == FlipState(b.rowsState) && r.colsState == b.colsState
    ensures a == Cols ==> r.colsState == FlipState(b.colsState) && r.rowsState == b.rowsState
  {
    match a
    case Rows =>
      var s := FlipState(b.rowsState);
      FitButtons(s, b.colsState, NextFit(s, FitType(Rows), b.fit))
    case Cols =>
      var s := FlipState(b.colsState);
      FitButtons(b.rowsState, s, NextFit(s, FitType(Cols), b.fit))
  }

  /** The fit the two buttons stand for. */
  function Derived(rowsOn: bool, colsOn: bool): string
  {
    if rowsOn && colsOn then "both"
    else if rowsOn then "rows"
    else if colsOn then "cols"
    else ""
  }

  /** The plot's fit agrees with which buttons are on. */
  predicate Consistent(b: FitButtons)
  {
    b.fit == Derived(b.rowsState == "on", b.colsState == "on")
  }

  /** Both buttons off and no fit, as the page starts. */
  lemma InitiallyConsistent()
    ensures Consistent(FitButtons("off", "off", ""))
  {
  }

  /**
   * The toggle keeps the plot's fit in step with the buttons, whichever is
   * clicked and in whatever order.
   */
  lemma ClickKeepsConsistent(b: FitButtons, a: Axis)
    requires Consistent(b)
    ensures Consistent(Click(b, a))
  {
  }

  /** A sequence of clicks, one after the other. */
  function Clicks(b: FitButtons, clicks: seq<Axis>): FitButtons
    decreases |clicks|
  {
    if clicks == [] then b else Clicks(Click(b, clicks[0]), clicks[1..])
  }

  lemma {:induction false} ClicksKeepConsistent(b: FitButtons, clicks: seq<Axis>)
    requires Consistent(b)
    ensures Consistent(Clicks(b, clicks))
    decreases |clicks|
  {
    if clicks != [] {
      ClickKeepsConsistent(b, clicks[0]);
      ClicksKeepConsistent(Click(b, clicks[0]), clicks[1..]);
    }
  }

  // ---------------------------------------------------------------------------
  // the Morpheus configuration

  /** A size option that was never set, set to `null`, or set to `'fit'`. */
  datatype Size = Unset | Null | Fit

  /** `columnSize` and `rowSize` for a fit type. */
  function SizesFor(fitType: string): (r: (Size, Size))
    ensures r.0 == Fit <==> fitType == "cols" || fitType == "both"
    ensures r.1 == Fit <==> fitType == "rows" || fitType == "both"
    ensures r.0 == Null <==> r.1 == Null
    ensures r.0 == Null <==> fitType !in {"cols", "rows", "both"}
  {
    if fitType == "cols" then (Fit, Unset)
    else if fitType == "rows" then (Unset, Fit)
    else if fitType == "both" then (Fit, Fit)
    else (Null, Null)
  }

  /** Through the toggle, each axis is fitted exactly when its button is on. */
  lemma FittedAxesFollowButtons(b: FitButtons)
    requires Consistent(b)
    ensures SizesFor(b.fit).0 == Fit <==> b.colsState == "on"
    ensures SizesFor(b.fit).1 == Fit <==> b.rowsState == "on"
  {
  }

  const DefaultHeight: int := 500
  const PaletteSize: nat := 27

  /** The annotation columns, present when an annotation file is given. */
  datatype AnnotationLayer = AnnotationLayer(file: string, field: string, colorModel: map<string, string>)

  datatype DotPlotConfig = DotPlotConfig(
    dataset: string, height: int, columnSize: Size, rowSize: Size,
    annotations: Option<AnnotationLayer>)

  // ---------------------------------------------------------------------------
  // `Array.prototype.sort` on strings: code-unit order

  /** `a` sorts no later than `b`. */
  predicate LexLe(a: string, b: string)
  {
    a == [] || (b != [] && (a[0] < b[0] || (a[0] == b[0] && LexLe(a[1..], b[1..]))))
  }

  lemma {:induction false} LexLeTotal(a: string, b: string)
    ensures LexLe(a, b) || LexLe(b, a)
  {
    if a != [] && b != [] && a[0] == b[0] {
      LexLeTotal(a[1..], b[1..]);
    }
  }

  lemma {:induction false} LexLeAntisymmetric(a: string, b: string)
    requires LexLe(a, b) && LexLe(b, a)
    ensures a == b
  {
    if a != [] && b != [] {
      LexLeAntisymmetric(a[1..], b[1..]);
      assert a == [a[0]] + a[1..];
      assert b == [b[0]] + b[1..];
    }
  }

  lemma {:induction false} LexLeTransitive(a: string, b: string, c: string)
    requires LexLe(a, b) && LexLe(b, c)
    ensures LexLe(a, c)
  {
    if a != [] && b != [] && c != [] && a[0] == b[0] && b[0] == c[0] {
      LexLeTransitive(a[1..], b[1..], c[1..]);
    }
  }

  predicate Sorted(s: seq<string>)
  {
    forall i :: 0 < i < |s| ==> LexLe(s[i - 1], s[i])
  }

  /** `x` put before the first element it sorts no later than. */
  function Insert(x: string, s: seq<string>): (r: seq<string>)
    requires Sorted(s)
    ensures multiset(r) == multiset(s) + multiset{x}
    ensures Sorted(r)
    ensures r[0] == x || (s != [] && r[0] == s[0])
  {
    if s == [] then [x]
    else if LexLe(x, s[0]) then [x] + s
    else
      var rest := Insert(x, s[1..]);
      LexLeTotal(x, s[0]);
      assert s == [s[0]] + s[1..];
      [s[0]] + rest
  }

  /** The values in the order `sort()` leaves them. */
  function SortStrings(s: seq<string>): (r: seq<string>)
    ensures Sorted(r)
    ensures multiset(r) == multiset(s)
  {
    if s == [] then []
    else
      assert s == [s[0]] + s[1..];
      Insert(s[0], SortStrings(s[1..]))
  }

  /** In a sorted list every element sorts no later than every one after it. */
  lemma {:induction false} SortedPairs(s: seq<string>, i: nat, j: nat)
    requires Sorted(s) && i <= j < |s|
    ensures LexLe(s[i], s[j])
    decreases j - i
  {
    if i == j {
      LexLeTotal(s[i], s[i]);
    } else {
      SortedPairs(s, i, j - 1);
      LexLeTransitive(s[i], s[j - 1], s[j]);
    }
  }

  lemma SortedTail(s: seq<string>)
    requires Sorted(s) && s != []
    ensures Sorted(s[1..])
  {
    forall k | 0 < k < |s[1..]| ensures LexLe(s[1..][k - 1], s[1..][k]) {
      assert s[1..][k - 1] == s[k] && s[1..][k] == s[k + 1];
    }
  }

  /** Sorted lists of the same values start with the same value. */
  lemma SortedSameHead(a: seq<string>, b: seq<string>)
    requires Sorted(a) && Sorted(b) && multiset(a) == multiset(b) && a != []
    ensures b != [] && a[0] == b[0]
  {
    assert a[0] in multiset(b);
    var j :| 0 <= j < |b| && b[j] == a[0];
    assert b[0] in multiset(a);
    var i :| 0 <= i < |a| && a[i] == b[0];
    SortedPairs(a, 0, i);
    SortedPairs(b, 0, j);
    LexLeAntisymmetric(a[0], b[0]);
  }

  lemma TailMultiset(s: seq<string>)
    requires s != []
    ensures multiset(s[1..]) == multiset(s) - multiset{s[0]}
  {
    assert s == [s[0]] + s[1..];
    assert multiset(s) == multiset{s[0]} + multiset(s[1..]);
  }

  /** Two sorted arrangements of the same values are the same list. */
  lemma {:induction false} SortedUnique(a: seq<string>, b: seq<string>)
    requires Sorted(a) && Sorted(b) && multiset(a) == multiset(b)
    ensures a == b
    decreases |a|
  {
    if a == [] {
      assert |b| == |multiset(b)| == 0;
    } else {
      SortedSameHead(a, b);
      TailMultiset(a);
      TailMultiset(b);
      SortedTail(a);
      SortedTail(b);
      SortedUnique(a[1..], b[1..]);
      assert a == [a[0]] + a[1..];
      assert b == [b[0]] + b[1..];
    }
  }

  // ---------------------------------------------------------------------------
  // the colour model

  /** Position `i` holds the last occurrence of its value. */
  predicate LastOccurrence(s: seq<string>, i: int)
  {
    0 <= i < |s| && forall j :: i < j < |s| ==> s[j] != s[i]
  }

  /**
   * `$(sortedAnnots).each((index, annot) => model[annot] = colorBrewerSet[index % 27])`:
   * every value gets a colour, and a value listed twice keeps the colour of
   * its last position.
   */
  method ColorModel(sorted: seq<string>, palette: seq<string>) returns (m: map<string, string>)
    requires |palette| >= PaletteSize
    ensures m.Keys == set v | v in sorted
    ensures forall i :: LastOccurrence(sorted, i) ==> m[sorted[i]] == palette[i % PaletteSize]
  {
    m := map[];
    for i := 0 to |sorted|
      invariant m.Keys == set v | v in sorted[..i]
      invariant forall t :: 0 <= t < i && (forall j :: t < j < i ==> sorted[j] != sorted[t]) ==>
        m[sorted[t]] == palette[t % PaletteSize]
    {
      m := m[sorted[i] := palette[i % PaletteSize]];
      assert sorted[..i + 1] == sorted[..i] + [sorted[i]];
    }
    assert sorted[..|sorted|] == sorted;
  }

  /**
   * The colour of a value depends only on the values shown, not on the order
   * the annotation lists them in.
   */
  lemma SortIgnoresOrder(a: seq<string>, b: seq<string>)
    requires multiset(a) == multiset(b)
    ensures SortStrings(a) == SortStrings(b)
  {
    SortedUnique(SortStrings(a), SortStrings(b));
  }

  /**
   * `renderMorpheusDotPlot`: the height, the fit and, when an annotation file
   * is given, the annotation columns and their colour model.
   */
  method RenderConfig(dataPath: string, annotPath: string, selectedAnnot: string,
                      annotationValues: seq<string>, fitType: string, dotHeight: Option<int>,
                      palette: seq<string>) returns (c: DotPlotConfig)
    requires |palette| >= PaletteSize
    ensures c.dataset == dataPath
    ensures dotHeight.Some? ==> c.height == dotHeight.value
    ensures dotHeight.None? ==> c.height == DefaultHeight
    ensures (c.columnSize, c.rowSize) == SizesFor(fitType)
    ensures c.annotations.None? <==> annotPath == ""
    ensures c.annotations.Some? ==>
      var layer := c.annotations.value;
      var sorted := SortStrings(annotationValues);
      layer.file == annotPath && layer.field == selectedAnnot &&
      layer.colorModel.Keys == set v | v in annotationValues &&
      forall i :: LastOccurrence(sorted, i) ==>
        sorted[i] in layer.colorModel && layer.colorModel[sorted[i]] == palette[i % PaletteSize]
  {
    var height := DefaultHeight;
    if dotHeight.Some? {
      height := dotHeight.value;
    }
    var columnSize, rowSize := Unset, Unset;
    if fitType == "cols" {
      columnSize := Fit;
    } else if fitType == "rows" {
      rowSize := Fit;
    } else if fitType == "both" {
      columnSize, rowSize := Fit, Fit;
    } else {
      columnSize, rowSize := Null, Null;
    }
    var annotations := None;
    if annotPath != "" {
      var sorted := SortStrings(annotationValues);
      var model := ColorModel(sorted, palette);
      assert forall v :: v in sorted <==> v in annotationValues by {
        forall v ensures v in sorted <==> v in annotationValues {
          assert v in sorted <==> v in multiset(sorted);
          assert v in annotationValues <==> v in multiset(annotationValues);
        }
      }
      annotations := Some(AnnotationLayer(annotPath, selectedAnnot, model));
    }
    c := DotPlotConfig(dataPath, height, columnSize, rowSize, annotations);
  }
}

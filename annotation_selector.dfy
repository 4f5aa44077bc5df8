/**
 * The annotation selector `name--type--scope`: the strings the annotation
 * menu offers (`load_cluster_group_annotations`) and how
 * `set_selected_annotation` reads one back into the selected annotation.
 */
module AnnotationSelector {
  import opened Wrappers
  import opened RubyText

  const Separator: string := "--"

  /**
   * `annot_name, annot_type, annot_scope = selector.split('--')`: a multiple
   * assignment binds nil to the parts the split did not produce and ignores
   * any beyond the third.
   */
  datatype Selector = Selector(name: Option<string>, annotType: Option<string>, scope: Option<string>)

  function Part(parts: seq<string>, i: nat): Option<string>
  {
    if i < |parts| then Some(parts[i]) else None
  }

  function ParseSelector(s: string): (r: Selector)
    ensures r.annotType.Some? ==> r.name.Some?
    ensures r.scope.Some? ==> r.annotType.Some?
  {
    var parts := SplitOn(s, Separator);
    Selector(Part(parts, 0), Part(parts, 1), Part(parts, 2))
  }

  /** `"#{name}--#{type}--#{scope}"`, as the menu options and subsample keys are written. */
  function FormatSelector(name: string, annotType: string, scope: string): string
  {
    name + Separator + annotType + Separator + scope
  }

  /**
   * Reading back a selector the menu wrote gives its three parts, provided no
   * `--` can be found inside the name or the type and the scope is not empty.
   */
  lemma SelectorRoundTrip(name: string, annotType: string, scope: string)
    requires SepFree(name, Separator) && SepFree(annotType, Separator) && SepFree(scope, Separator)
    requires scope != ""
    ensures ParseSelector(FormatSelector(name, annotType, scope)) == Selector(Some(name), Some(annotType), Some(scope))
  {
    var s := FormatSelector(name, annotType, scope);
    assert s == name + Separator + (annotType + Separator + scope);
    SplitOnRawField(name, Separator, annotType + Separator + scope);
    SplitOnRawField(annotType, Separator, scope);
    SplitOnRawSepFree(scope, Separator);
    DropTrailingEmptyKeeps([name, annotType, scope]);
  }

  /** A name without `-` always reads back. */
  lemma PlainNameRoundTrip(name: string, annotType: string, scope: string)
    requires forall i :: 0 <= i < |name| ==> name[i] != '-'
    requires forall i :: 0 <= i < |annotType| ==> annotType[i] != '-'
    requires forall i :: 0 <= i < |scope| ==> scope[i] != '-'
    requires scope != ""
    ensures ParseSelector(FormatSelector(name, annotType, scope)) == Selector(Some(name), Some(annotType), Some(scope))
  {
    SepFreeWithout(name, '-', '-');
    SepFreeWithout(annotType, '-', '-');
    SepFreeWithout(scope, '-', '-');
    SelectorRoundTrip(name, annotType, scope);
  }

  // ---------------------------------------------------------------------------
  // the annotations a selector can name

  /** A cluster's own annotation. */
  datatype CellAnnotation = CellAnnotation(name: string, annotType: string, values: seq<string>)

  /** A user-defined annotation, found by its id. */
  datatype UserAnnotation = UserAnnotation(name: string, values: seq<string>)

  /** The `@selected_annotation` hash. `id` is set for user annotations only. */
  datatype SelectedAnnotation = SelectedAnnotation(
    name: Option<string>, annotType: Option<string>, scope: Option<string>,
    values: seq<string>, id: Option<string>)

  datatype SelectionError =
    | NoSelector                        // nil default annotation: `split` on nil
    | NoSuchClusterAnnotation           // `find` gave nil, and nil has no `[]=`
    | NoSuchUserAnnotation(id: string)  // `UserAnnotation.find` raises

  /** `params[:annotation]` when given, else `params[:gene_set_annotation]`, else the study default. */
  function ChosenSelector(annotation: Option<string>, geneSetAnnotation: Option<string>,
                          defaultAnnotation: Option<string>): (r: Option<string>)
    ensures annotation.Some? ==> r == annotation
    ensures annotation.None? && geneSetAnnotation.Some? ==> r == geneSetAnnotation
    ensures annotation.None? && geneSetAnnotation.None? ==> r == defaultAnnotation
  {
    var selector := if annotation.None? then geneSetAnnotation else annotation;
    if selector.None? then defaultAnnotation else selector
  }

  predicate Names(ca: CellAnnotation, sel: Selector)
  {
    sel.name == Some(ca.name) && sel.annotType == Some(ca.annotType)
  }

  /** The first cluster annotation with the selector's name and type. */
  function FindAnnotation(annotations: seq<CellAnnotation>, sel: Selector): (r: Option<nat>)
    ensures r.Some? ==> r.value < |annotations| && Names(annotations[r.value], sel)
    ensures r.Some? ==> forall j :: 0 <= j < r.value ==> !Names(annotations[j], sel)
    ensures r.None? ==> forall j :: 0 <= j < |annotations| ==> !Names(annotations[j], sel)
  {
    if annotations == [] then None
    else if Names(annotations[0], sel) then Some(0)
    else match FindAnnotation(annotations[1..], sel)
      case None => None
      case Some(i) => Some(i + 1)
  }

  /**
   * `set_selected_annotation`. A `cluster` scope selects the cluster's own
   * annotation; a `user` scope looks the name up as a user-annotation id; any
   * other scope, nil included, names a study-wide annotation, whose values
   * are the study metadata keys for a `group` type and empty otherwise.
   */
  function SetSelectedAnnotation(annotation: Option<string>, geneSetAnnotation: Option<string>,
                                 defaultAnnotation: Option<string>,
                                 clusterAnnotations: seq<CellAnnotation>,
                                 userAnnotations: map<string, UserAnnotation>,
                                 studyMetadataKeys: (string, string) -> seq<string>)
    : (r: Result<SelectedAnnotation, SelectionError>)
    ensures ChosenSelector(annotation, geneSetAnnotation, defaultAnnotation).None? <==> r == Err(NoSelector)
    ensures r.Ok? ==>
      r.value.scope == ParseSelector(ChosenSelector(annotation, geneSetAnnotation, defaultAnnotation).value).scope
  {
    match ChosenSelector(annotation, geneSetAnnotation, defaultAnnotation)
    case None => Err(NoSelector)
    case Some(s) =>
      var sel := ParseSelector(s);
      if sel.scope == Some("cluster") then
        match FindAnnotation(clusterAnnotations, sel)
        case None => Err(NoSuchClusterAnnotation)
        case Some(i) =>
          var ca := clusterAnnotations[i];
          Ok(SelectedAnnotation(Some(ca.name), Some(ca.annotType), sel.scope, ca.values, None))
      else if sel.scope == Some("user") then
        var id := sel.name.value;
        if id !in userAnnotations then Err(NoSuchUserAnnotation(id))
        else
          var ua := userAnnotations[id];
          Ok(SelectedAnnotation(Some(ua.name), sel.annotType, sel.scope, ua.values, Some(id)))
      else
        var values := if sel.annotType == Some("group") then studyMetadataKeys(sel.name.value, "group") else [];
        Ok(SelectedAnnotation(sel.name, sel.annotType, sel.scope, values, None))
  }

  /** The selection made from a menu option, passed as `params[:annotation]`. */
  function SelectOption(name: string, annotType: string, scope: string,
                        clusterAnnotations: seq<CellAnnotation>,
                        userAnnotations: map<string, UserAnnotation>,
                        studyMetadataKeys: (string, string) -> seq<string>): Result<SelectedAnnotation, SelectionError>
  {
    SetSelectedAnnotation(Some(FormatSelector(name, annotType, scope)), None, None,
                          clusterAnnotations, userAnnotations, studyMetadataKeys)
  }

  /** What the selection gives for each scope, stated for a selector the menu wrote. */
  lemma SelectedFromMenuOption(name: string, annotType: string, scope: string,
                               clusterAnnotations: seq<CellAnnotation>,
                               userAnnotations: map<string, UserAnnotation>,
                               studyMetadataKeys: (string, string) -> seq<string>)
    requires SepFree(name, Separator) && SepFree(annotType, Separator) && SepFree(scope, Separator)
    requires scope != ""
    ensures scope == "cluster" ==>
      (SelectOption(name, annotType, scope, clusterAnnotations, userAnnotations, studyMetadataKeys).Ok? <==>
        exists i :: 0 <= i < |clusterAnnotations| && Names(clusterAnnotations[i], Selector(Some(name), Some(annotType), Some(scope))))
    ensures scope == "cluster" ==>
      var r := SelectOption(name, annotType, scope, clusterAnnotations, userAnnotations, studyMetadataKeys);
      r.Ok? ==> (r.value.name == Some(name) && r.value.annotType == Some(annotType) &&
                 r.value.scope == Some("cluster") && r.value.id.None?)
    ensures scope == "cluster" ==>
      var r := SelectOption(name, annotType, scope, clusterAnnotations, userAnnotations, studyMetadataKeys);
      var found := FindAnnotation(clusterAnnotations, Selector(Some(name), Some(annotType), Some(scope)));
      r.Ok? ==> found.Some? && r.value.values == clusterAnnotations[found.value].values
    ensures scope == "user" ==>
      (SelectOption(name, annotType, scope, clusterAnnotations, userAnnotations, studyMetadataKeys).Ok? <==>
        name in userAnnotations)
    ensures scope == "user" && name in userAnnotations ==>
      SelectOption(name, annotType, scope, clusterAnnotations, userAnnotations, studyMetadataKeys) ==
        Ok(SelectedAnnotation(Some(userAnnotations[name].name), Some(annotType), Some("user"),
                              userAnnotations[name].values, Some(name)))
    ensures scope != "cluster" && scope != "user" ==>
      SelectOption(name, annotType, scope, clusterAnnotations, userAnnotations, studyMetadataKeys) ==
        Ok(SelectedAnnotation(Some(name), Some(annotType), Some(scope),
                              if annotType == "group" then studyMetadataKeys(name, "group") else [], None))
  {
    SelectorRoundTrip(name, annotType, scope);
  }
}

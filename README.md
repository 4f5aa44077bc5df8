# Single Cell Portal: verified model of the data-shaping core

The Single Cell Portal is a Rails application for browsing single-cell
RNA-seq studies. Around its controllers and database queries sits a core of
deterministic logic, and this project models that core in Dafny:

- **Gene search** (`GeneSearch`): how a search parameter is split into gene
  terms. Each term is sorted into found or not found. The best-scoring entry
  is picked, an exact match ahead of a case-insensitive one. The gene header
  is split into a main part and an overflow part.
- **Grouping cells by a categorical annotation** (`Grouping`, `OrderedHash`,
  `ClusterTraces`, `BoxPlot`). There is one Ruby hash entry per annotation
  value, kept in insertion order. Cells are appended to the entry of their
  label, in cell order. A trace's name gets its point count appended. Empty
  entries are deleted with `delete_if`.
- **Morpheus export** (`MorpheusExport`): the GCT 1.2 text returned by
  `expression_query`, and the NAME/annotation TSV returned by
  `annotation_query`.
- **Sample table** (`FastqTable`): `populate_rows` pads each sample row to
  five columns.
- **Annotation selector** (`AnnotationSelector`): the `name--type--scope`
  strings, and how `set_selected_annotation` reads one back.
- **Download quota** (`DownloadQuota`): the per-user daily quota gate of
  `download_file` and `download_bulk_files`.
- **Dot plot** (`DotPlot`): the fit-button state machine of
  `scp-dot-plot.js`, and the Morpheus configuration it derives. That covers
  fit sizes, the default height, and a colour per sorted annotation value,
  taken modulo 27.
- **HCA metadata** (`HcaUtilities`, `ProjectMetadatum`): `set_value_by_type`
  coerces a value by its schema type. Also modelled are the definition lookup
  and the schema URL.
- **Identifiers and accessions** (`StudyIdentifier`, `StudyAccession`): the
  `SCP<count + 1>` allocators, protected by a uniqueness validation.

Shared pieces:

- `RubyText` models the Ruby string operations the core relies on: `split`
  (trailing empty fields dropped), `join`, `strip`, `downcase` and `to_i`.
- `Wrappers` holds `Option` and `Result`.

Database queries, the storage service, the regular-expression engine and the
rendering of scores are parameters: sequences, maps and functions passed in.
A Ruby exception becomes an `Err` value, or an outcome constructor that names
it.

State that the source updates in place is modelled as classes with
`modifies` clauses:

- `DownloadQuota.User.dailyDownloadQuota`;
- `FastqTable.SampleTable.rows`;
- `StudyIdentifier.IdentifierStore`;
- `StudyAccession.AccessionStore`;
- `StudyAccession.Study.accession`.

Loops that build hashes and arrays step by step are methods with loop
invariants, proved against specification functions. Pure helpers are
functions and lemmas.

## Model

| member | source | states |
|---|---|---|
| GeneSearch.ParseSearchTerms | app/controllers/site_controller.rb:1682-1689 | there are no terms exactly when the parameter is absent or an empty array |
| GeneSearch.ParsedTermsAvoidDelimiters | app/controllers/site_controller.rb:1682-1689 | no parsed term holds whitespace, a newline or a comma; for an array parameter only the first element is split |
| GeneSearch.ParseSearchTermsRoundTrip | app/controllers/site_controller.rb:1682-1689 | a comma-joined list of plain terms parses back to the same terms, in order |
| GeneSearch.StripEachClean | app/controllers/site_controller.rb:1682-1689 | stripping leaves fields without surrounding whitespace unchanged |
| GeneSearch.Searchable | app/controllers/site_controller.rb:1710 | the searchable names are the downcased known genes, position by position |
| GeneSearch.SearchExpressionScores | app/controllers/site_controller.rb:1706-1719 | every term goes to exactly one of `genes` / `not_found`, in input order; a term is found iff it is a known gene or a downcased known gene |
| GeneSearch.LoadBestGeneMatch | app/controllers/site_controller.rb:1722-1736 | the first exact `gene` match wins; only without one, the first match whose searchable name is the downcased term; otherwise the matches themselves come back |
| GeneSearch.LoadExpressionScores | app/controllers/site_controller.rb:1691-1702 | one best match per term that has matches, in term order; never more results than terms |
| GeneSearch.DivideGenesForHeader | app/controllers/site_controller.rb:1775-1779 | `main` is the first five genes; `more` the rest, present from five genes on; `main + more` is the input; with more than five genes `more` is non-empty |
| OrderedHash.Store | app/controllers/site_controller.rb:1616-1622 | storing a new key appends it to the key order; an existing key keeps its place |
| OrderedHash.KeptKeys | app/controllers/site_controller.rb:1292 | the keys kept are exactly those whose entry is not dropped, never more than before |
| OrderedHash.DeleteIf | app/controllers/site_controller.rb:1292 | `delete_if` keeps exactly the entries not dropped, unchanged and in their original key order |
| Grouping.IndicesOf | app/controllers/site_controller.rb:1255-1265 | the positions carrying a label, increasing, and all of them |
| Grouping.Dedup | app/controllers/site_controller.rb:1616-1622 | the hash keys built from the values: the same elements, each once |
| Grouping.Occupied | app/controllers/site_controller.rb:1292 | the keys kept are exactly the keys with at least one labelled cell |
| Grouping.InExactlyOneGroup | app/controllers/site_controller.rb:1255-1265 | a cell lies in the group of value `k` iff its label is `k` |
| Grouping.PointCountsAddUp | app/controllers/site_controller.rb:1255-1265 | with distinct keys covering every label, the group sizes add up to the number of labelled cells |
| Grouping.SumCountsOccupied | app/controllers/site_controller.rb:1292 | deleting the empty groups does not change the total point count |
| Grouping.KeptIsOccupied | app/controllers/site_controller.rb:1292 | `delete_if` on emptiness keeps exactly the occupied keys, in first-seen order |
| Grouping.FilterPartition | app/controllers/site_controller.rb:1706-1719 | a filter and its complement split a list into two lists whose lengths and multisets add up to it |
| Grouping.Containers | app/controllers/site_controller.rb:1616-1622 | one empty container per distinct value, in first-seen order |
| Grouping.GroupBy | app/controllers/site_controller.rb:1247-1268 | succeeds iff every label is a key; on failure names the first unknown label; on success each entry holds exactly its label's cells in cell order |
| ClusterTraces.Group | app/controllers/site_controller.rb:1254-1268 | a trace's x, y, z, cells, text, annotations and marker_size all have one entry per point, taken from that point's cell |
| ClusterTraces.FoldIsGroup | app/controllers/site_controller.rb:1254-1268 | appending a value's cells one by one to its empty trace builds exactly its group |
| ClusterTraces.AppendPointCounts | app/controllers/site_controller.rb:1266-1268 | every trace name gets " (n points)" with its own point count; keys and order unchanged |
| ClusterTraces.CellLabels | app/controllers/site_controller.rb:1254-1283 | cluster and user scopes label cell i with `annotation_array[i]`; study scope labels a cell with its metadata value when it has one, and leaves it unlabelled otherwise |
| ClusterTraces.LoadCategoricalTraces | app/controllers/site_controller.rb:1245-1292 | succeeds iff every label is a value; each kept trace is its value's group with the count suffix; exactly the non-empty traces remain, in value order |
| ClusterTraces.TracesHoldEveryLabelledCell | app/controllers/site_controller.rb:1245-1292 | the kept traces' point counts add up to the number of labelled cells |
| BoxPlot.FieldsFor | app/controllers/site_controller.rb:1486-1547 | study scope also appends cell names; the gene-set loader also appends the value to `annotations` for cluster and user scopes |
| BoxPlot.BoxLabels | app/controllers/site_controller.rb:1390-1428 | cluster and user scopes label cell i by the annotation array; study scope labels only cells whose value is already a box |
| BoxPlot.StudyScopeNeverFails | app/controllers/site_controller.rb:1416-1423 | study-scope labels always name an existing box |
| BoxPlot.Box | app/controllers/site_controller.rb:1390-1428 | a box holds one score per cell of its value, in cell order, with names and annotations as its fields say |
| BoxPlot.FoldIsBox | app/controllers/site_controller.rb:1390-1428 | appending a value's cells one by one to its empty box builds exactly that box |
| BoxPlot.LoadBoxPlotScores | app/controllers/site_controller.rb:1390-1428 | succeeds iff every label is a value; each kept box is its value's box; exactly the boxes with scores remain, in value order |
| MorpheusExport.ScoreOf | app/controllers/site_controller.rb:427 | a cell's score is its stored score, and 0.0 when the gene has none for that cell |
| MorpheusExport.MatchedRows | app/controllers/site_controller.rb:417-418 | rows exist exactly when every best match is a document, and are those documents in order |
| MorpheusExport.RowFields | app/controllers/site_controller.rb:416-432 | a row is the gene, an empty description, then one rendered score per cell |
| MorpheusExport.RowLines | app/controllers/site_controller.rb:416-432 | one tab-joined row per gene, in gene order |
| MorpheusExport.ExpressionQuery | app/controllers/site_controller.rb:405-439 | the text built line by line equals the GCT layout function |
| MorpheusExport.GctLayout | app/controllers/site_controller.rb:409-433 | line 1 is `#1.2`; line 2 is the row and column counts; line 3 is `Name`, `Description` and the cells; then one row of 2 + cells fields per gene |
| MorpheusExport.GctCounts | app/controllers/site_controller.rb:409-414 | the counts line holds the number of genes and the number of cells |
| MorpheusExport.GctSplitsIntoLines | app/controllers/site_controller.rb:405-439 | splitting the GCT text on newlines gives back the lines it was joined from |
| MorpheusExport.AnnotationColumn | app/controllers/site_controller.rb:442-461 | cluster scope reads the annotation array by position; other scopes look each cell up in the metadata hash |
| MorpheusExport.TsvRows | app/controllers/site_controller.rb:442-461 | one `cell<TAB>value` row per cell, nil written as empty |
| MorpheusExport.AnnotationQuery | app/controllers/site_controller.rb:442-461 | the text built line by line equals the TSV function |
| MorpheusExport.TsvLayout | app/controllers/site_controller.rb:442-461 | the header is `NAME` and the annotation name; then one two-field row per cell, in cell order |
| FastqTable.PadRow | app/controllers/site_controller.rb:1810-1814 | a row is the sample, then its files, padded with empty strings to at least five entries |
| FastqTable.SampleTable.PopulateRows | app/controllers/site_controller.rb:1807-1817 | one padded row per sample is appended, in order; the earlier rows are unchanged |
| AnnotationSelector.ParseSelector | app/controllers/site_controller.rb:1089 | a type is only present with a name, and a scope only with a type |
| AnnotationSelector.SelectorRoundTrip | app/controllers/site_controller.rb:1744-1757 | a `name--type--scope` selector without `--` in its parts reads back as its three parts |
| AnnotationSelector.PlainNameRoundTrip | app/controllers/site_controller.rb:1744-1757 | parts without `-` always read back |
| AnnotationSelector.ChosenSelector | app/controllers/site_controller.rb:1088-1089 | `annotation` first, then `gene_set_annotation`, then the study default |
| AnnotationSelector.FindAnnotation | app/controllers/site_controller.rb:1092 | the first cluster annotation with the selector's name and type, or none if there is none |
| AnnotationSelector.SetSelectedAnnotation | app/controllers/site_controller.rb:1086-1108 | fails without a selector; otherwise the selection carries the parsed scope |
| AnnotationSelector.SelectedFromMenuOption | app/controllers/site_controller.rb:1086-1108 | for a menu selector: cluster scope succeeds iff the cluster has the annotation, and then carries that annotation's values; user scope iff the id exists, with that annotation's name and values; any other scope gives the study-wide annotation, with metadata keys for `group` |
| DownloadQuota.DownloadFile | app/controllers/site_controller.rb:525-562 | sign-in, embargo and availability are checked first; a file is let through only when the new total stays within the quota, and only then is the user charged its size |
| DownloadQuota.Charged | app/controllers/site_controller.rb:525-562 | the charged total never falls below what was already downloaded; `DownloadRun` proves it is what a run of `download_file` charges |
| DownloadQuota.SingleDownloadsStayWithinQuota | app/controllers/site_controller.rb:542-557 | any run of single downloads that starts within the quota ends within it |
| DownloadQuota.DownloadRun | app/controllers/site_controller.rb:525-562 | running `download_file` request after request charges the user exactly `Charged`, a request gets its signed URL iff it is charged, and a user within the quota stays within it |
| DownloadQuota.FromDirectoryEach | app/controllers/site_controller.rb:631-633 | each file of a directory is listed under that directory, in order |
| DownloadQuota.NoHumanDataListed | app/controllers/site_controller.rb:616-623 | no listed study file holds human data |
| DownloadQuota.OnlyRequestedDirectories | app/controllers/site_controller.rb:626-634 | only files of the requested directories are listed |
| DownloadQuota.GatherFiles | app/controllers/site_controller.rb:613-634 | the study files, then the directory files |
| DownloadQuota.Configs | app/controllers/site_controller.rb:639-644 | one curl configuration per listed file, in order |
| DownloadQuota.DownloadBulkFiles | app/controllers/site_controller.rb:576-658 | the request is refused as not public exactly when the study is not public, and for a bad token exactly when a public study gets no token user; the quota is tested once, up front, and a token user under it always gets the curl configuration: the text is the joined curl configurations and the user is charged the total size; any refusal leaves the quota alone |
| DownloadQuota.BulkDownloadCanPassQuota | app/controllers/site_controller.rb:600-655 | a bulk request from a user under the quota whose files add up past it goes through and leaves the user past the quota |
| DotPlot.FlipState | app/assets/javascripts/scp-dot-plot.js:207-209 | the new state is `on` iff the old one was not `on`, and is always `on` or `off` |
| DotPlot.FlipStateTwice | app/assets/javascripts/scp-dot-plot.js:207-209 | two clicks restore an `on`/`off` state |
| DotPlot.NextFit | app/assets/javascripts/scp-dot-plot.js:214-228 | turning on against a different, non-empty fit gives `both`, otherwise the button's own fit; turning off from `both` leaves the other axis, otherwise `''` |
| DotPlot.Click | app/assets/javascripts/scp-dot-plot.js:203-230 | a click flips only the clicked button's state |
| DotPlot.InitiallyConsistent | app/assets/javascripts/scp-dot-plot.js:203-230 | both buttons off with an empty fit is a consistent start |
| DotPlot.ClickKeepsConsistent | app/assets/javascripts/scp-dot-plot.js:203-230 | after a click the stored fit still names exactly the axes whose buttons are on |
| DotPlot.ClicksKeepConsistent | app/assets/javascripts/scp-dot-plot.js:203-230 | the same over any sequence of clicks |
| DotPlot.SizesFor | app/assets/javascripts/scp-dot-plot.js:38-48 | `cols` and `both` fit columns, `rows` and `both` fit rows, any other fit nulls both |
| DotPlot.FittedAxesFollowButtons | app/assets/javascripts/scp-dot-plot.js:38-48 | in a consistent state, an axis is fitted iff its button is on |
| DotPlot.LexLeTotal | app/assets/javascripts/scp-dot-plot.js:71 | the default sort order relates any two strings |
| DotPlot.LexLeAntisymmetric | app/assets/javascripts/scp-dot-plot.js:71 | two strings ordered both ways are equal |
| DotPlot.LexLeTransitive | app/assets/javascripts/scp-dot-plot.js:71 | the default sort order is transitive |
| DotPlot.Insert | app/assets/javascripts/scp-dot-plot.js:71 | inserting into a sorted list keeps it sorted and adds exactly that element |
| DotPlot.SortStrings | app/assets/javascripts/scp-dot-plot.js:71 | the result is sorted and a permutation of the input |
| DotPlot.SortedUnique | app/assets/javascripts/scp-dot-plot.js:71 | two sorted permutations of one multiset are equal |
| DotPlot.SortIgnoresOrder | app/assets/javascripts/scp-dot-plot.js:71 | sorting depends only on the multiset of values |
| DotPlot.ColorModel | app/assets/javascripts/scp-dot-plot.js:69-77 | the keys are the values; a value gets `colorBrewerSet[i % 27]` for the last index i it sits at |
| DotPlot.RenderConfig | app/assets/javascripts/scp-dot-plot.js:31-77 | height is `dotHeight` or 500; the sizes follow the fit type; annotations iff `annotPath` is not empty, with the sorted value at index i coloured `colorBrewerSet[i % 27]` |
| HcaUtilities.Index | app/models/hca_utilities.rb:116-117 | Ruby `[]`: a hash looks the key up (nil if missing), a string gives a substring or nil, nil raises NoMethodError, an array or integer raises TypeError |
| HcaUtilities.ToI | app/models/hca_utilities.rb:129-130 | `to_i` gives an integer; an integer stays, nil gives 0; other values have no `to_i` |
| HcaUtilities.CheckPattern | app/models/hca_utilities.rb:119-128 | the value is returned unchanged iff there is no pattern or it matches; otherwise TypeError |
| HcaUtilities.ToArray | app/models/hca_utilities.rb:131-137 | an array stays, a string is split on `,`, anything else is nil |
| HcaUtilities.SetValueByType | app/models/hca_utilities.rb:115-141 | a case on the schema type: string checked against the pattern, integer via `to_i`, array via split, anything else unchanged |
| HcaUtilities.SetValueByTypeIdempotent | app/models/hca_utilities.rb:115-141 | coercing an already coerced value changes nothing |
| HcaUtilities.StringTypeKeepsValue | app/models/hca_utilities.rb:119-128 | for type `string` the result is the value itself or a TypeError |
| HcaUtilities.NoPatternPassesString | app/models/hca_utilities.rb:119-128 | without a pattern any value passes unchanged |
| HcaUtilities.IntegerReadsDecimal | app/models/hca_utilities.rb:129-130 | a decimal numeral is read as its number |
| HcaUtilities.ArraySplitJoinsBack | app/models/hca_utilities.rb:131-137 | the split fields of a string not ending in `,` join back to it |
| HcaUtilities.RescueNoMethod | app/models/hca_utilities.rb:97-101 | a NoMethodError becomes nil; anything else passes through |
| HcaUtilities.ParseDefinitions | app/models/hca_utilities.rb:89-102 | `schema[key]`, or the field within it; a missing key gives nil even with a field; only an array or integer entry raises, with TypeError |
| HcaUtilities.MissingKeyIsNil | app/models/hca_utilities.rb:89-102 | a missing key gives nil whether or not a field is asked for |
| HcaUtilities.DefinitionUrl | app/models/hca_utilities.rb:28-30 | the repository prefix, the version, `/json_schema/`, the entity and `.json`, in that order |
| HcaUtilities.DefinitionUrlInjective | app/models/hca_utilities.rb:28-30 | for versions without `/`, the URL determines the version and the entity |
| HcaUtilities.EntityOf | app/models/hca_utilities.rb:52 | the entity holds no `.` |
| HcaUtilities.EntityOfSchemaFile | app/models/hca_utilities.rb:52 | the entity of `entity.ext` is `entity` |
| ProjectMetadatum.Valid | app/models/project_metadatum.rb:19 | a record is valid iff it has a non-empty payload and a non-blank version |
| ProjectMetadatum.MissingPartIsInvalid | app/models/project_metadatum.rb:19-20 | a record without payload or version is invalid |
| ProjectMetadatum.ProjectIdentifier | app/models/project_metadatum.rb:23-26 | `<protocol>://<host>/single_cell/study/<slug>` |
| ProjectMetadatum.ProjectIdentifierDeterminesSlug | app/models/project_metadatum.rb:23-26 | on one host, equal identifiers mean equal slugs |
| ProjectMetadatum.DefinitionUrl | app/models/project_metadatum.rb:34-36 | the HCA schema URL of entity `project` at the record's version, an empty version when it is nil |
| ProjectMetadatum.Definitions | app/models/project_metadatum.rb:73-86 | `schema[key]`, or the field within it; a missing key gives nil |
| ProjectMetadatum.SetValueByType | app/models/project_metadatum.rb:89-116 | the same coercion as the HCA helper, for every definition and value |
| StudyIdentifier.NextIdentifier | app/models/study_identifier.rb:17-24 | starts with `SCP`; the rest is the decimal numeral of count + 1, larger than the count |
| StudyIdentifier.NextIdentifierInjective | app/models/study_identifier.rb:21-24 | different counts give different identifiers |
| StudyIdentifier.IdentifierStore.Create | app/models/study_identifier.rb:14-24 | the identifier comes from the stored count; it is saved iff no stored record has it; distinctness is kept |
| StudyIdentifier.DenseNeverCollides | app/models/study_identifier.rb:14-24 | in a collection that only grew, the next identifier is free |
| StudyIdentifier.DenseGrows | app/models/study_identifier.rb:14-24 | saving the next identifier keeps the collection dense |
| StudyIdentifier.DenseIsDistinct | app/models/study_identifier.rb:15 | a dense collection holds no identifier twice |
| StudyIdentifier.GapCollides | app/models/study_identifier.rb:15-24 | in a collection that only grew, deleting any record other than the newest makes the next identifier one that is still stored |
| StudyIdentifier.RefusedStaysRefused | app/models/study_identifier.rb:15-24 | once refused, every later attempt is refused and nothing is saved |
| StudyAccession.Assigned | app/models/study_accession.rb:13-15 | a record is assigned iff it belongs to a study |
| StudyAccession.NextAvailable | app/models/study_accession.rb:17-20 | `SCP` followed by the decimal numeral of count + 1 |
| StudyAccession.AccessionStore.Next | app/models/study_accession.rb:17-20 | `next_available` on the stored records |
| StudyAccession.AccessionStore.Create | app/models/study_accession.rb:5-36 | refused iff the accession is held; otherwise appended; the record is assigned iff it has a study, which then takes the accession |
| StudyAccession.SameAccessionTwice | app/models/study_accession.rb:8 | a second record with the same accession is refused |
| RubyText.StripAvoids | app/controllers/site_controller.rb:1685-1687 | a stripped string neither starts nor ends with whitespace |
| RubyText.SplitAnyJoin | app/controllers/site_controller.rb:1685-1687 | splitting a join of non-empty, delimiter-free fields gives the fields back |
| RubyText.JoinSplitAny | app/models/hca_utilities.rb:136 | joining the `,` fields of a string not ending in `,` gives the string back |
| RubyText.StringToIRoundTrip | app/models/hca_utilities.rb:130 | `to_i` of a decimal numeral is its number |
| RubyText.NatToStringRoundTrip | app/models/study_identifier.rb:23 | the numeral of n is all digits and reads back as n |

## Left out

- Database access is not modelled. Mongoid queries (`by_gene`,
  `concatenate_data_arrays`, `study_metadata_values`, `count`,
  `UserAnnotation.find`) are parameters: sequences, maps or a count.
- The storage and workflow service is not modelled: signed URLs, file
  lookups, and the curl configuration of each file. These are parameters.
- Schema fetching and caching (`parse_definition_schema`,
  `definition_schema`) are left out. They are HTTP, file I/O and JSON
  parsing; the schema is a parameter.
- Regular expressions are not modelled. The pattern test of
  `set_value_by_type` is a parameter `matches`. An invalid pattern, which
  raises `RegexpError` in Ruby, is not modelled.
- Floating-point work is left out:
  - the numeric trace branch;
  - z-score and robust z-score row centering;
  - `calculate_mean` and `calculate_median`;
  - `.round(4)`.

  A cell's score is a parameter (`real`), and so is its rendering as text.
- `construct_gene_list_hash` (SHA-256) is not modelled.
- `DirectoryListing.sample_read_pairings` is not modelled; the sample map is
  an input.
- Rendering is not modelled: the DOM, jQuery, AJAX, Morpheus and Plotly
  objects, and flash, redirect and render responses. The outcomes of the
  quota gate are constructors of a datatype.
- `config/routes.rb`, the API authenticator and the identifier migration
  are framework glue. `StudyAccession.assign_accessions` loops over the
  studies in the database, so it is left out too.
- DownloadQuota.DownloadBulkFiles lists the files one after the other.
  The source uses `Parallel.map` over 100 threads, which updates the config
  list and the quota without synchronisation. The model does not capture
  that concurrency, or the order of configs it may produce.
- DotPlot.NextFit reads the current fit from the plot's stored `fit`. The
  source reads `plot.data('fit')` through a `plot` variable that the file
  does not define. The model takes it to be the `#dot-plot` element, whose
  `fit` the handler sets.
- DotPlot.ColorModel requires a palette of at least 27 colours, as
  `colorBrewerSet` is; with a shorter one, JavaScript would store
  `undefined`.
- DotPlot.SortStrings compares characters by code point. JavaScript's
  default sort compares UTF-16 code units, and the two orders differ only
  for characters outside the Basic Multilingual Plane.
- RubyText.Downcase folds ASCII letters only, and blank strings are judged
  on ASCII whitespace. Ruby's Unicode case mapping is not modelled.
- RubyText.StringToI skips leading whitespace, then reads an optional sign
  and the leading digits. It does not model `to_i` accepting underscores
  between digits (`"1_000".to_i` is 1000 in Ruby, 1 here).
- HcaUtilities.Index is modelled only on the JSON values a schema can hold.
  JSON floats are not modelled.
- AnnotationSelector.SetSelectedAnnotation returns the selection as a
  value. In the cluster scope the source writes `:scope` into the cluster's
  own annotation hash, and that in-place update and its aliasing are not
  modelled.
- ClusterTraces.LoadCategoricalTraces requires the annotation array to be
  as long as the cell and coordinate arrays; it does not model misaligned
  arrays, where Ruby would index past the end and read nil.
- ClusterTraces.CellLabels requires the same alignment of the annotation
  array with the cells, for the same reason.
- BoxPlot.LoadBoxPlotScores requires the same alignment, for the same
  reason.
- BoxPlot.BoxLabels requires the annotation array of a cluster or user
  scope to be as long as the cells, for the same reason.
- MorpheusExport.ExpressionQuery takes the best matches as score rows.
  `load_expression_scores` drops only terms whose query result is empty. A
  term whose result holds neither an exact nor a case-insensitive match
  keeps `load_best_gene_match`'s fall-through value, the whole collection.
  `MorpheusExport.MatchedRows` states when the best matches are all
  documents and yields no rows otherwise. The model does not capture what
  `gene['gene']` on a collection then does inside `expression_query`.
- ProjectMetadatum.Valid models the presence validations. The uniqueness
  of `project_identifier` is left out, because it is a query over stored
  records of a derived value.
- StudyAccession.AccessionStore.Create models an accession saved without a
  study as the outcome `SavedWithoutStudy`: there the after-create hook
  calls `update` on nil. It does not model a failing `Study#update`
  validation.
- StudyIdentifier.IdentifierStore.Create models only the uniqueness
  validation. The required `study` association is not modelled: the record
  is taken to belong to a study.
- DotPlot.RenderConfig sorts a copy of the annotation values.
  `annotations['values'].sort()` sorts the caller's array in place. That
  update of the caller's array is not modelled; `DotPlot.SortIgnoresOrder`
  shows that a later render sorts to the same order either way.

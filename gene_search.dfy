/**
 * Gene search in `SiteController`: reading the search box into terms,
 * sorting terms into found and not found, choosing the best expression-score
 * document for a term, loading the documents for a list of terms in order,
 * and splitting the gene list for the page header.
 *
 * The database is not modelled: the study's known gene symbols are a
 * sequence, and `ExpressionScore.by_gene` is a function from a term to the
 * documents it returns.
 */
module GeneSearch {
  import opened Wrappers
  import opened RubyText
  import opened Grouping

  /** `params[:search][key]`: absent, one string, or an array of strings. */
  datatype SearchParam = Absent | Text(s: string) | List(items: seq<string>)

  /** The class `[\s\n,]` that search terms are split on. */
  const TermDelimiters: set<char> := Whitespace + {'\n', ','}

  function StripEach(fields: seq<string>): (r: seq<string>)
    ensures |r| == |fields|
    ensures forall j :: 0 <= j < |fields| ==> r[j] == Strip(fields[j])
  {
    if fields == [] then [] else [Strip(fields[0])] + StripEach(fields[1..])
  }

  /**
   * `parse_search_terms`: split on whitespace, newline or comma, then strip
   * each piece; of an array only the first element is read. `None` stands for
   * the NoMethodError raised when there is nothing to split (an absent
   * parameter, or an empty array whose `first` is nil).
   */
  function ParseSearchTerms(param: SearchParam): (r: Option<seq<string>>)
    ensures r.None? <==> param.Absent? || (param.List? && param.items == [])
  {
    match param
    case Absent => None
    case Text(s) => Some(StripEach(SplitAny(s, TermDelimiters)))
    case List(items) =>
      if items == [] then None else Some(StripEach(SplitAny(items[0], TermDelimiters)))
  }

  /** No parsed term holds a delimiter; of an array only the first element counts. */
  lemma ParsedTermsAvoidDelimiters(param: SearchParam)
    ensures ParseSearchTerms(param).Some? ==>
      forall j :: 0 <= j < |ParseSearchTerms(param).value| ==>
        Avoids(ParseSearchTerms(param).value[j], TermDelimiters)
    ensures param.List? && param.items != [] ==>
      ParseSearchTerms(param) == ParseSearchTerms(Text(param.items[0]))
  {
    if ParseSearchTerms(param).Some? {
      var s := if param.Text? then param.s else param.items[0];
      var fields := SplitAny(s, TermDelimiters);
      forall j | 0 <= j < |fields| ensures Avoids(StripEach(fields)[j], TermDelimiters) {
        StripAvoids(fields[j], TermDelimiters);
      }
    }
  }

  /** A term that survives parsing unchanged: non-empty, no delimiter, nothing `strip` removes. */
  predicate PlainTerm(t: string)
  {
    t != "" && Avoids(t, TermDelimiters) && Avoids(t, StripChars)
  }

  /** Terms typed into the search box separated by commas are read back one by one, in order. */
  lemma ParseSearchTermsRoundTrip(terms: seq<string>)
    requires terms != []
    requires forall j :: 0 <= j < |terms| ==> PlainTerm(terms[j])
    ensures ParseSearchTerms(Text(Join(terms, ","))) == Some(terms)
  {
    assert ',' in TermDelimiters;
    assert forall j :: 0 <= j < |terms| ==> Avoids(terms[j], TermDelimiters) && terms[j] != "";
    SplitAnyJoin(terms, ',', TermDelimiters);
    StripEachClean(terms);
  }

  lemma StripEachClean(fields: seq<string>)
    requires forall j :: 0 <= j < |fields| ==> Avoids(fields[j], StripChars)
    ensures StripEach(fields) == fields
  {
    var r := StripEach(fields);
    forall j | 0 <= j < |fields| ensures r[j] == fields[j] {
      var f := fields[j];
      assert Avoids(f, StripChars);
      assert Strip(f) == f;
    }
  }

  // ---------------------------------------------------------------------------
  // search_expression_scores

  /** The lower-cased symbols searched alongside the symbols themselves. */
  function Searchable(knownGenes: seq<string>): (r: seq<string>)
    ensures |r| == |knownGenes|
    ensures forall i :: 0 <= i < |knownGenes| ==> r[i] == Downcase(knownGenes[i])
  {
    if knownGenes == [] then [] else [Downcase(knownGenes[0])] + Searchable(knownGenes[1..])
  }

  /** A term is found when it is a known symbol or a lower-cased known symbol. */
  predicate Found(term: string, knownGenes: seq<string>)
  {
    term in knownGenes || term in Searchable(knownGenes)
  }

  /**
   * `search_expression_scores`: each term goes to `genes` or to `notFound`,
   * in the order of the input.
   */
  method SearchExpressionScores(terms: seq<string>, knownGenes: seq<string>)
    returns (genes: seq<string>, notFound: seq<string>)
    ensures genes == Filter(terms, t => Found(t, knownGenes))
    ensures notFound == Filter(terms, t => !Found(t, knownGenes))
    ensures forall t :: t in genes ==> Found(t, knownGenes)
    ensures forall t :: t in notFound ==> !Found(t, knownGenes)
    ensures |genes| + |notFound| == |terms|
    ensures multiset(genes) + multiset(notFound) == multiset(terms)
  {
    var searchable := Searchable(knownGenes);
    genes, notFound := [], [];
    var i := 0;
    while i < |terms|
      invariant 0 <= i <= |terms|
      invariant genes == Filter(terms[..i], t => Found(t, knownGenes))
      invariant notFound == Filter(terms[..i], t => !Found(t, knownGenes))
    {
      var term := terms[i];
      FilterSnoc(terms, i, t => Found(t, knownGenes));
      FilterSnoc(terms, i, t => !Found(t, knownGenes));
      if term in knownGenes || term in searchable {
        genes := genes + [term];
      } else {
        notFound := notFound + [term];
      }
      i := i + 1;
    }
    assert terms[..i] == terms;
    FilterPartition(terms, t => Found(t, knownGenes), t => !Found(t, knownGenes));
  }

  // ---------------------------------------------------------------------------
  // load_best_gene_match and load_expression_scores

  /** An expression-score document: the gene symbol, its lower-cased search key, and scores by cell. */
  datatype ScoreRow = ScoreRow(gene: string, searchableGene: string, scores: map<string, real>)

  /**
   * What `load_best_gene_match` returns: a document, or, when neither loop
   * returns, the value of the last `each`, which is the whole collection.
   */
  datatype GeneMatch = Matched(row: ScoreRow) | Unmatched(matches: seq<ScoreRow>)

  predicate ExactMatch(row: ScoreRow, term: string)
  {
    row.gene == term
  }

  predicate CaseInsensitiveMatch(row: ScoreRow, term: string)
  {
    row.searchableGene == Downcase(term)
  }

  /** The first exact match if any; otherwise the first case-insensitive one. */
  function LoadBestGeneMatch(matches: seq<ScoreRow>, term: string): (r: GeneMatch)
    ensures forall i :: (0 <= i < |matches| && ExactMatch(matches[i], term) &&
      (forall j :: 0 <= j < i ==> !ExactMatch(matches[j], term))) ==> r == Matched(matches[i])
    ensures (forall j :: 0 <= j < |matches| ==> !ExactMatch(matches[j], term)) ==>
      forall i :: (0 <= i < |matches| && CaseInsensitiveMatch(matches[i], term) &&
        (forall j :: 0 <= j < i ==> !CaseInsensitiveMatch(matches[j], term))) ==> r == Matched(matches[i])
    ensures r.Unmatched? <==>
      forall j :: 0 <= j < |matches| ==> !ExactMatch(matches[j], term) && !CaseInsensitiveMatch(matches[j], term)
    ensures r.Unmatched? ==> r.matches == matches
    ensures r.Matched? ==> r.row in matches
  {
    match FindFirst(matches, row => ExactMatch(row, term))
    case Some(i) => Matched(matches[i])
    case None =>
      match FindFirst(matches, row => CaseInsensitiveMatch(row, term))
      case Some(i) => Matched(matches[i])
      case None => Unmatched(matches)
  }

  /** The query for the term returns something. */
  function HasMatches(byGene: string -> seq<ScoreRow>): string -> bool
  {
    t => byGene(t) != []
  }

  /** The terms for which the expression-score query returns something. */
  function TermsWithMatches(terms: seq<string>, byGene: string -> seq<ScoreRow>): seq<string>
  {
    Filter(terms, HasMatches(byGene))
  }

  /** `genes` holds the best match of each of `found`, in order. */
  predicate BestMatches(genes: seq<GeneMatch>, found: seq<string>, byGene: string -> seq<ScoreRow>)
  {
    |genes| == |found| &&
    forall j :: 0 <= j < |found| ==> genes[j] == LoadBestGeneMatch(byGene(found[j]), found[j])
  }

  /**
   * `load_expression_scores`: the best match of each term that has matches,
   * in the order of the terms; terms without matches are dropped.
   */
  method LoadExpressionScores(terms: seq<string>, byGene: string -> seq<ScoreRow>)
    returns (genes: seq<GeneMatch>)
    ensures |genes| <= |terms|
    ensures var found := TermsWithMatches(terms, byGene);
      |genes| == |found| &&
      forall j :: 0 <= j < |found| ==> genes[j] == LoadBestGeneMatch(byGene(found[j]), found[j])
  {
    var p := HasMatches(byGene);
    genes := [];
    var i := 0;
    while i < |terms|
      invariant 0 <= i <= |terms|
      invariant BestMatches(genes, Filter(terms[..i], p), byGene)
    {
      var term := terms[i];
      var matches := byGene(term);
      FilterSnoc(terms, i, p);
      if matches != [] {
        genes := genes + [LoadBestGeneMatch(matches, term)];
      }
      i := i + 1;
    }
    assert terms[..i] == terms;
    assert BestMatches(genes, TermsWithMatches(terms, byGene), byGene);
  }

  // ---------------------------------------------------------------------------
  // divide_genes_for_header

  /**
   * `divide_genes_for_header`: `genes[0..4]` and `genes[5..size-1]`. Ruby's
   * slice clamps the first to the array; the second is nil when the array
   * has fewer than five elements and empty when it has exactly five.
   */
  function DivideGenesForHeader<T>(genes: seq<T>): (r: (seq<T>, Option<seq<T>>))
    ensures |r.0| == if |genes| < 5 then |genes| else 5
    ensures r.0 == genes[..|r.0|]
    ensures r.1.Some? <==> |genes| >= 5
    ensures r.1.Some? ==> r.0 + r.1.value == genes
    ensures |genes| > 5 ==> |r.0| == 5 && r.1.Some? && r.1.value != []
  {
    var main := if |genes| < 5 then genes else genes[..5];
    var more := if |genes| < 5 then None else Some(genes[5..]);
    (main, more)
  }
}

/** The in-memory keyword record the query layer builds from the store. */
module Keywords {
  import opened Tallies

  /** The three taxonomies a label can come from. */
  datatype KeywordType = IndexTerm | AuthorKeyword | SubjectArea

  /** `KeywordQueryResult` without its floating-point z-score: the keyword,
      the taxonomies it was seen in, citations per year and in total, the
      papers carrying it, the papers per publication year, and per year the
      citations received by papers published one or two years earlier. */
  datatype Kqr = Kqr(
    word: string,
    types: set<KeywordType>,
    yearToCitations: map<int, int>,
    totalCitations: int,
    papers: set<string>,
    yearToPapers: map<int, set<string>>,
    impactNumerators: map<int, int>)

  /** A default-constructed record: what `word_to_kqr[keyword]` creates on
      first access. */
  function EmptyKqr(): Kqr
  {
    Kqr("", {}, map[], 0, {}, map[], map[])
  }

  /** The total is the sum of the per-year counts. */
  predicate Consistent(r: Kqr)
  {
    r.totalCitations == MapSum(r.yearToCitations)
  }

  lemma EmptyKqrConsistent()
    ensures Consistent(EmptyKqr())
  {
  }
}

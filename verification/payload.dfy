/** The insertion payload for one paper, as built from a BibTeX entry. */
module Payload {

  /** A per-year citation count: (year, number of citations that year). */
  type Citation = (int, int)

  /** `DBPayload`. Fields follow the argument order of its field-wise
      constructor, so the datatype constructor is that constructor. The
      `int` fields are unbounded here. */
  datatype DBPayload = DBPayload(
    doi: string,
    title: string,
    year: int,
    authorsList: string,
    totalCitations: int,
    citations: seq<Citation>,
    indexTerms: seq<string>,
    authorKeywords: seq<string>,
    areas: seq<string>)

  /** `DBPayload()`: the default member initialisers. */
  function DefaultPayload(): (p: DBPayload)
    ensures p.doi == "" && p.title == "" && p.authorsList == ""
    ensures p.year == 0 && p.totalCitations == 0
    ensures p.citations == [] && p.indexTerms == [] && p.authorKeywords == [] && p.areas == []
  {
    DBPayload("", "", 0, "", 0, [], [], [], [])
  }

  /** Sum of the citation numbers. */
  function SumCounts(cs: seq<Citation>): int
  {
    if cs == [] then 0 else cs[0].1 + SumCounts(cs[1..])
  }

  lemma {:induction false} SumCountsAppend(a: seq<Citation>, b: seq<Citation>)
    ensures SumCounts(a + b) == SumCounts(a) + SumCounts(b)
    decreases |a|
  {
    if a == [] {
      assert a + b == b;
    } else {
      assert (a + b)[1..] == a[1..] + b;
      SumCountsAppend(a[1..], b);
    }
  }
}

/** The paper store as an abstract state: the five tables of the database,
    each keyed by its primary key, and `insertPaper` as one all-or-nothing
    transaction over them. */
module PaperStore {
  import opened Wrappers
  import opened Payload

  /** A row of `paper` without its key; the table has no year column. */
  datatype PaperRow = PaperRow(title: string, authorsList: string, totalCitations: int)

  /** `paper` keyed by `doi`; `citations` keyed by `(doi, year)` holding
      `number`; the three membership tables, whose whole row
      `(label, doi)` is the primary key. */
  datatype Store = Store(
    papers: map<string, PaperRow>,
    citations: map<(string, int), int>,
    indexTerms: set<(string, string)>,
    authorKeywords: set<(string, string)>,
    areas: set<(string, string)>)

  function EmptyStore(): Store {
    Store(map[], map[], {}, {}, {})
  }

  /** Every dependent row names a stored paper. The schema declares these
      foreign keys but SQLite does not enforce them by default; they hold
      because each paper is inserted in one transaction. */
  predicate ReferencesPapers(s: Store) {
    && (forall k :: k in s.citations ==> k.0 in s.papers)
    && (forall m :: m in s.indexTerms ==> m.1 in s.papers)
    && (forall m :: m in s.authorKeywords ==> m.1 in s.papers)
    && (forall m :: m in s.areas ==> m.1 in s.papers)
  }

  /** The primary key that made an INSERT fail. */
  datatype Clash =
    | DuplicatePaper(doi: string)
    | DuplicateCitation(doi: string, year: int)
    | DuplicateIndexTerm(term: string, doi: string)
    | DuplicateAuthorKeyword(keyword: string, doi: string)
    | DuplicateArea(area: string, doi: string)

  /** What `insertPaper` does with the transaction. A rolled-back paper is
      reported on the error stream and not passed on to the caller. */
  datatype InsertOutcome = Committed | RolledBack(clash: Clash)

  predicate Distinct<T(==)>(xs: seq<T>) {
    forall i, j :: 0 <= i < j < |xs| ==> xs[i] != xs[j]
  }

  predicate DistinctYears(cs: seq<Citation>) {
    forall i, j :: 0 <= i < j < |cs| ==> cs[i].0 != cs[j].0
  }

  /** The `citations` keys a payload adds. */
  function CitationKeys(doi: string, cs: seq<Citation>): set<(string, int)> {
    set i | 0 <= i < |cs| :: (doi, cs[i].0)
  }

  /** The membership rows a label list adds. */
  function MembershipRows(doi: string, labels: seq<string>): set<(string, string)> {
    set w | w in labels :: (w, doi)
  }

  /** One `INSERT INTO citations` per pair, in order; the first existing
      `(doi, year)` key aborts. */
  function InsertCitationRows(t: map<(string, int), int>, doi: string, cs: seq<Citation>)
    : (r: Result<map<(string, int), int>, Clash>)
    ensures r.Success? <==> DistinctYears(cs) && forall i :: 0 <= i < |cs| ==> (doi, cs[i].0) !in t
    ensures r.Success? ==> r.value.Keys == t.Keys + CitationKeys(doi, cs)
    ensures r.Success? ==> forall k :: k in t ==> r.value[k] == t[k]
    ensures r.Success? ==> forall i :: 0 <= i < |cs| ==> r.value[(doi, cs[i].0)] == cs[i].1
    decreases |cs|
  {
    if cs == [] then Success(t)
    else if (doi, cs[0].0) in t then Failure(DuplicateCitation(doi, cs[0].0))
    else
      var r := InsertCitationRows(t[(doi, cs[0].0) := cs[0].1], doi, cs[1..]);
      assert CitationKeys(doi, cs) == {(doi, cs[0].0)} + CitationKeys(doi, cs[1..]) by {
        forall k | k in CitationKeys(doi, cs)
          ensures k in {(doi, cs[0].0)} + CitationKeys(doi, cs[1..])
        {
          var i :| 0 <= i < |cs| && k == (doi, cs[i].0);
          if i > 0 {
            assert k == (doi, cs[1..][i - 1].0);
          }
        }
      }
      assert r.Success? ==> forall i :: 0 <= i < |cs| ==> r.value[(doi, cs[i].0)] == cs[i].1 by {
        if r.Success? {
          forall i | 0 <= i < |cs|
            ensures r.value[(doi, cs[i].0)] == cs[i].1
          {
            if i > 0 {
              assert cs[i] == cs[1..][i - 1];
            }
          }
        }
      }
      assert DistinctYears(cs) <==> DistinctYears(cs[1..]) && forall i :: 1 <= i < |cs| ==> cs[i].0 != cs[0].0 by {
        if DistinctYears(cs[1..]) && forall i :: 1 <= i < |cs| ==> cs[i].0 != cs[0].0 {
          forall i, j | 0 <= i < j < |cs|
            ensures cs[i].0 != cs[j].0
          {
            if i > 0 {
              assert cs[i] == cs[1..][i - 1] && cs[j] == cs[1..][j - 1];
            }
          }
        }
      }
      r
  }

  /** One `INSERT` per label, in order; the first existing `(label, doi)`
      row aborts, so does a label repeated in the list. */
  function InsertMemberships(t: set<(string, string)>, doi: string, labels: seq<string>)
    : (r: Result<set<(string, string)>, string>)
    ensures r.Success? <==> Distinct(labels) && forall i :: 0 <= i < |labels| ==> (labels[i], doi) !in t
    ensures r.Success? ==> r.value == t + MembershipRows(doi, labels)
    ensures r.Failure? ==> r.error in labels
    decreases |labels|
  {
    if labels == [] then Success(t)
    else if (labels[0], doi) in t then Failure(labels[0])
    else
      var r := InsertMemberships(t + {(labels[0], doi)}, doi, labels[1..]);
      assert MembershipRows(doi, labels) == {(labels[0], doi)} + MembershipRows(doi, labels[1..]) by {
        assert forall w :: w in labels <==> w == labels[0] || w in labels[1..];
      }
      assert Distinct(labels) <==> Distinct(labels[1..]) && labels[0] !in labels[1..] by {
        if Distinct(labels[1..]) && labels[0] !in labels[1..] {
          forall i, j | 0 <= i < j < |labels|
            ensures labels[i] != labels[j]
          {
            assert labels[j] == labels[1..][j - 1];
            if i > 0 {
              assert labels[i] == labels[1..][i - 1];
            }
          }
        }
        if Distinct(labels) {
          forall i | 0 <= i < |labels| - 1
            ensures labels[1..][i] != labels[0]
          {
            assert labels[1..][i] == labels[i + 1];
          }
        }
      }
      r
  }

  /** The INSERT statements of `insertPaper` in their order, stopping at
      the first failure. */
  function ExecuteInserts(s: Store, p: DBPayload): Result<Store, Clash>
  {
    if p.doi in s.papers then Failure(DuplicatePaper(p.doi))
    else
      var papers := s.papers[p.doi := PaperRow(p.title, p.authorsList, p.totalCitations)];
      var citations :- InsertCitationRows(s.citations, p.doi, p.citations);
      var indexTerms :- InsertMemberships(s.indexTerms, p.doi, p.indexTerms).MapFailure(w => DuplicateIndexTerm(w, p.doi));
      var authorKeywords :- InsertMemberships(s.authorKeywords, p.doi, p.authorKeywords).MapFailure(w => DuplicateAuthorKeyword(w, p.doi));
      var areas :- InsertMemberships(s.areas, p.doi, p.areas).MapFailure(w => DuplicateArea(w, p.doi));
      Success(Store(papers, citations, indexTerms, authorKeywords, areas))
  }

  /** No primary key of the paper's rows is taken, in the store or by an
      earlier row of the same payload. */
  predicate CanInsert(s: Store, p: DBPayload) {
    && p.doi !in s.papers
    && DistinctYears(p.citations)
    && (forall i :: 0 <= i < |p.citations| ==> (p.doi, p.citations[i].0) !in s.citations)
    && Distinct(p.indexTerms) && (forall i :: 0 <= i < |p.indexTerms| ==> (p.indexTerms[i], p.doi) !in s.indexTerms)
    && Distinct(p.authorKeywords) && (forall i :: 0 <= i < |p.authorKeywords| ==> (p.authorKeywords[i], p.doi) !in s.authorKeywords)
    && Distinct(p.areas) && (forall i :: 0 <= i < |p.areas| ==> (p.areas[i], p.doi) !in s.areas)
  }

  /** `insertPaper`: inside one transaction, the paper row, then its
      citation rows, then its index terms, author keywords and subject
      areas. Any failing INSERT rolls the whole transaction back and the
      exception is logged, so the store is either extended by every row of
      the paper or left exactly as it was. */
  function InsertPaper(s: Store, p: DBPayload): (r: (Store, InsertOutcome))
    ensures r.1 == Committed <==> CanInsert(s, p)
    ensures r.1.RolledBack? ==> r.0 == s
    ensures r.1 == Committed ==>
      && r.0.papers == s.papers[p.doi := PaperRow(p.title, p.authorsList, p.totalCitations)]
      && r.0.citations.Keys == s.citations.Keys + CitationKeys(p.doi, p.citations)
      && (forall k :: k in s.citations ==> r.0.citations[k] == s.citations[k])
      && (forall i :: 0 <= i < |p.citations| ==> r.0.citations[(p.doi, p.citations[i].0)] == p.citations[i].1)
      && r.0.indexTerms == s.indexTerms + MembershipRows(p.doi, p.indexTerms)
      && r.0.authorKeywords == s.authorKeywords + MembershipRows(p.doi, p.authorKeywords)
      && r.0.areas == s.areas + MembershipRows(p.doi, p.areas)
  {
    match ExecuteInserts(s, p)
    case Success(s') => (s', Committed)
    case Failure(clash) => (s, RolledBack(clash))
  }

  /** Atomicity keeps the declared foreign keys intact. */
  lemma InsertPaperKeepsReferences(s: Store, p: DBPayload)
    requires ReferencesPapers(s)
    ensures ReferencesPapers(InsertPaper(s, p).0)
  {
  }

  /** In a store whose rows all name stored papers, a new paper can only
      clash on its own key or by repeating a year or a label. */
  lemma CanInsertInConsistentStore(s: Store, p: DBPayload)
    requires ReferencesPapers(s)
    ensures CanInsert(s, p) <==>
      p.doi !in s.papers && DistinctYears(p.citations) &&
      Distinct(p.indexTerms) && Distinct(p.authorKeywords) && Distinct(p.areas)
  {
  }

  /** After a commit into a consistent store, the rows naming the new paper
      are exactly the payload's rows: nothing of the paper was there before. */
  lemma CommittedRowsAreThePayload(s: Store, p: DBPayload)
    requires ReferencesPapers(s)
    requires InsertPaper(s, p).1 == Committed
    ensures var s' := InsertPaper(s, p).0;
      && (set k | k in s'.citations && k.0 == p.doi) == CitationKeys(p.doi, p.citations)
      && (set m | m in s'.indexTerms && m.1 == p.doi) == MembershipRows(p.doi, p.indexTerms)
      && (set m | m in s'.authorKeywords && m.1 == p.doi) == MembershipRows(p.doi, p.authorKeywords)
      && (set m | m in s'.areas && m.1 == p.doi) == MembershipRows(p.doi, p.areas)
  {
  }
}

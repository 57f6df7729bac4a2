/** The papers tab opened for a keyword: one row per paper, with its index
    terms and author keywords merged into one sorted, duplicate-free cell. */
module PapersTable {
  import opened Text
  import opened Payload

  // ----- std::string ordering and std::set<std::string> -----

  /** `a < b` for `std::string`: character-wise, a proper prefix first. */
  predicate Before(a: string, b: string)
    decreases |a|
  {
    if a == [] then b != []
    else if b == [] then false
    else if a[0] != b[0] then a[0] < b[0]
    else Before(a[1..], b[1..])
  }

  lemma {:induction false} BeforeIrreflexive(a: string)
    ensures !Before(a, a)
    decreases |a|
  {
    if a != [] {
      BeforeIrreflexive(a[1..]);
    }
  }

  /** Two different strings are ordered one way or the other, never both. */
  lemma {:induction false} BeforeTotal(a: string, b: string)
    ensures a != b ==> Before(a, b) || Before(b, a)
    ensures !(Before(a, b) && Before(b, a))
    decreases |a|
  {
    if a != [] && b != [] && a[0] == b[0] {
      BeforeTotal(a[1..], b[1..]);
      if a != b {
        assert a == [a[0]] + a[1..] && b == [b[0]] + b[1..];
      }
    }
  }

  lemma {:induction false} BeforeTransitive(a: string, b: string, c: string)
    requires Before(a, b) && Before(b, c)
    ensures Before(a, c)
    decreases |a|
  {
    if a != [] && a[0] == b[0] && b[0] == c[0] {
      BeforeTransitive(a[1..], b[1..], c[1..]);
    }
  }

  /** The in-order contents of a `std::set<std::string>`: strictly ascending. */
  predicate Ascending(s: seq<string>)
  {
    forall i, j :: 0 <= i < j < |s| ==> Before(s[i], s[j])
  }

  /** `std::set::insert`: a string already present changes nothing, any
      other goes to its place in the order. */
  function Insert(x: string, s: seq<string>): seq<string>
    decreases |s|
  {
    if s == [] then [x]
    else if x == s[0] then s
    else if Before(x, s[0]) then [x] + s
    else [s[0]] + Insert(x, s[1..])
  }

  lemma {:induction false} InsertMembers(x: string, s: seq<string>)
    ensures forall y :: y in Insert(x, s) <==> y == x || y in s
    decreases |s|
  {
    if s != [] && x != s[0] && !Before(x, s[0]) {
      InsertMembers(x, s[1..]);
      assert s == [s[0]] + s[1..];
    }
  }

  lemma AscendingTail(s: seq<string>)
    requires s != [] && Ascending(s)
    ensures Ascending(s[1..])
  {
    var rest := s[1..];
    forall i, j | 0 <= i < j < |rest|
      ensures Before(rest[i], rest[j])
    {
      assert rest[i] == s[i + 1] && rest[j] == s[j + 1];
    }
  }

  /** A string before every element can go in front. */
  lemma AscendingCons(x: string, s: seq<string>)
    requires Ascending(s)
    requires forall y :: y in s ==> Before(x, y)
    ensures Ascending([x] + s)
  {
    var out := [x] + s;
    forall i, j | 0 <= i < j < |out|
      ensures Before(out[i], out[j])
    {
      assert out[j] == s[j - 1];
      if i > 0 {
        assert out[i] == s[i - 1];
      }
    }
  }

  lemma {:induction false} InsertAscending(x: string, s: seq<string>)
    requires Ascending(s)
    ensures Ascending(Insert(x, s))
    decreases |s|
  {
    if s == [] {
    } else if x == s[0] {
    } else if Before(x, s[0]) {
      forall y | y in s
        ensures Before(x, y)
      {
        var j :| 0 <= j < |s| && s[j] == y;
        if j > 0 {
          BeforeTransitive(x, s[0], y);
        }
      }
      AscendingCons(x, s);
    } else {
      var rest := s[1..];
      AscendingTail(s);
      InsertAscending(x, rest);
      InsertMembers(x, rest);
      BeforeTotal(x, s[0]);
      forall y | y in Insert(x, rest)
        ensures Before(s[0], y)
      {
        if y != x {
          var j :| 0 <= j < |rest| && rest[j] == y;
          assert s[j + 1] == y;
        }
      }
      AscendingCons(s[0], Insert(x, rest));
    }
  }

  /** The set after inserting every string of `xs` in turn. */
  function InsertAll(s: seq<string>, xs: seq<string>): seq<string>
    decreases |xs|
  {
    if xs == [] then s else InsertAll(Insert(xs[0], s), xs[1..])
  }

  /** Inserting a sequence keeps the set ascending and adds exactly its
      strings. */
  lemma {:induction false} InsertAllSpec(s: seq<string>, xs: seq<string>)
    requires Ascending(s)
    ensures Ascending(InsertAll(s, xs))
    ensures forall y :: y in InsertAll(s, xs) <==> y in s || y in xs
    decreases |xs|
  {
    if xs != [] {
      InsertAscending(xs[0], s);
      InsertMembers(xs[0], s);
      InsertAllSpec(Insert(xs[0], s), xs[1..]);
      assert xs == [xs[0]] + xs[1..];
    }
  }

  /** An ascending sequence holds no string twice. */
  lemma AscendingDistinct(s: seq<string>)
    requires Ascending(s)
    ensures forall i, j :: 0 <= i < j < |s| ==> s[i] != s[j]
  {
    forall i, j | 0 <= i < j < |s|
      ensures s[i] != s[j]
    {
      BeforeIrreflexive(s[i]);
    }
  }

  /** Two ascending sequences with the same strings are equal: the cell's
      text depends only on which labels the paper has. */
  lemma {:induction false} AscendingUnique(a: seq<string>, b: seq<string>)
    requires Ascending(a) && Ascending(b)
    requires forall y :: y in a <==> y in b
    ensures a == b
    decreases |a|
  {
    if a != [] && b != [] {
      assert a[0] in b && b[0] in a;
      var i :| 0 <= i < |b| && b[i] == a[0];
      var j :| 0 <= j < |a| && a[j] == b[0];
      if a[0] != b[0] {
        assert i > 0 && j > 0;
        BeforeTotal(a[0], b[0]);
      }
      AscendingTail(a);
      AscendingTail(b);
      AscendingDistinct(a);
      AscendingDistinct(b);
      forall y | y in a[1..]
        ensures y in b[1..]
      {
        var k :| 0 <= k < |a[1..]| && a[1..][k] == y;
        assert y == a[k + 1] && y != a[0];
        assert y in a;
        var m :| 0 <= m < |b| && b[m] == y;
        assert m != 0;
        assert b[1..][m - 1] == y;
      }
      forall y | y in b[1..]
        ensures y in a[1..]
      {
        var k :| 0 <= k < |b[1..]| && b[1..][k] == y;
        assert y == b[k + 1] && y != b[0];
        assert y in b;
        var m :| 0 <= m < |a| && a[m] == y;
        assert m != 0;
        assert a[1..][m - 1] == y;
      }
      AscendingUnique(a[1..], b[1..]);
      assert a == [a[0]] + a[1..] && b == [b[0]] + b[1..];
    } else {
      SameEmptiness(a, b);
    }
  }

  lemma SameEmptiness(a: seq<string>, b: seq<string>)
    requires forall y :: y in a <==> y in b
    ensures a == [] <==> b == []
  {
    if a != [] {
      assert a[0] in a;
    }
    if b != [] {
      assert b[0] in b;
    }
  }

  // ----- openListOfPapers -----

  /** The "Keywords" cell: the paper's index terms and author keywords (not
      its subject areas), each once, in `std::string` order, separated by
      ", ". */
  function KeywordsCell(p: DBPayload): string
  {
    var unique := InsertAll(InsertAll([], p.indexTerms), p.authorKeywords);
    var text := Terminated(unique, ", ");
    if |text| != 0 then DropLast(text, 2) else text
  }

  /** The cell is the join of the one ascending, duplicate-free sequence of
      the paper's index terms and author keywords. */
  lemma KeywordsCellSpec(p: DBPayload)
    ensures exists ks: seq<string> ::
      && Ascending(ks)
      && (forall y :: y in ks <==> y in p.indexTerms || y in p.authorKeywords)
      && KeywordsCell(p) == Join(ks, ", ")
  {
    var ks := InsertAll(InsertAll([], p.indexTerms), p.authorKeywords);
    InsertAllSpec([], p.indexTerms);
    InsertAllSpec(InsertAll([], p.indexTerms), p.authorKeywords);
    DropTerminator(ks, ", ");
  }

  /** Listing the same labels in another order, or repeating some, gives
      the same cell. */
  lemma KeywordsCellSetOnly(p: DBPayload, q: DBPayload)
    requires forall y :: y in p.indexTerms || y in p.authorKeywords <==> y in q.indexTerms || y in q.authorKeywords
    ensures KeywordsCell(p) == KeywordsCell(q)
  {
    var kp := InsertAll(InsertAll([], p.indexTerms), p.authorKeywords);
    var kq := InsertAll(InsertAll([], q.indexTerms), q.authorKeywords);
    InsertAllSpec([], p.indexTerms);
    InsertAllSpec(InsertAll([], p.indexTerms), p.authorKeywords);
    InsertAllSpec([], q.indexTerms);
    InsertAllSpec(InsertAll([], q.indexTerms), q.authorKeywords);
    AscendingUnique(kp, kq);
  }

  /** One row of the papers table, in column order; the abstract column is
      not part of this model. */
  datatype PaperLine = PaperLine(title: string, year: int, totalCitations: int, authors: string, doi: string, keywords: string)

  datatype PapersTab = PapersTab(tabTitle: string, rows: seq<PaperLine>)

  function LineOf(p: DBPayload): PaperLine
  {
    PaperLine(p.title, p.year, p.totalCitations, p.authorsList, p.doi, KeywordsCell(p))
  }

  /** `openListOfPapers` for the papers `getPapers` returns. */
  function OpenListOfPapers(keyword: string, papers: seq<DBPayload>): (tab: PapersTab)
    ensures tab.tabTitle == "Papers for keyword: " + keyword
    ensures |tab.rows| == |papers|
    ensures forall i :: 0 <= i < |papers| ==>
      && tab.rows[i].doi == papers[i].doi && tab.rows[i].title == papers[i].title
      && tab.rows[i].year == papers[i].year && tab.rows[i].totalCitations == papers[i].totalCitations
      && tab.rows[i].authors == papers[i].authorsList
  {
    PapersTab("Papers for keyword: " + keyword, seq(|papers|, i requires 0 <= i < |papers| => LineOf(papers[i])))
  }

  /** Each row's keyword cell lists its own paper's labels. */
  lemma OpenListOfPapersKeywords(keyword: string, papers: seq<DBPayload>, i: nat)
    requires i < |papers|
    ensures exists ks: seq<string> ::
      && Ascending(ks)
      && (forall y :: y in ks <==> y in papers[i].indexTerms || y in papers[i].authorKeywords)
      && OpenListOfPapers(keyword, papers).rows[i].keywords == Join(ks, ", ")
  {
    KeywordsCellSpec(papers[i]);
  }
}

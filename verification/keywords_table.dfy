/** The keywords tab of the main window: merging selected rows into a union
    row, refilling the table from a search, and the per-keyword chart. */
module KeywordsTable {
  import opened Wrappers
  import opened Text
  import opened Tallies
  import opened Keywords
  import Aggregator
  import PaperStore

  /** One row of the table model: the keyword, its taxonomies (shown through
      `toString`, which is not part of this model) and its total citations.
      The z-score column is floating point and left out. */
  datatype Row = Row(word: string, types: set<KeywordType>, totalCitations: int)

  function RowOf(k: Kqr): Row
  {
    Row(k.word, k.types, k.totalCitations)
  }

  // ----- addUnionOfSelectedRows -----

  /** `std::find_if` on the search results: the first record with the word. */
  function Find(results: seq<Kqr>, word: string): (r: Option<Kqr>)
    decreases |results|
  {
    if results == [] then None
    else if results[0].word == word then Some(results[0])
    else Find(results[1..], word)
  }

  lemma {:induction false} FindSpec(results: seq<Kqr>, word: string)
    ensures Find(results, word).Some? <==> exists i :: 0 <= i < |results| && results[i].word == word
    ensures Find(results, word).Some? ==> Find(results, word).value.word == word && Find(results, word).value in results
    decreases |results|
  {
    if results != [] {
      FindSpec(results[1..], word);
      if results[0].word != word {
        forall i | 0 <= i < |results| && results[i].word == word
          ensures exists j :: 0 <= j < |results[1..]| && results[1..][j].word == word
        {
          assert results[1..][i - 1] == results[i];
        }
        if Find(results, word).Some? {
          var j :| 0 <= j < |results[1..]| && results[1..][j].word == word;
          assert results[j + 1] == results[1..][j];
        }
      }
    }
  }

  /** The records of the selected rows, in selection order; the first word
      missing from the search results is the error. */
  function LookupAll(results: seq<Kqr>, words: seq<string>): (r: Result<seq<Kqr>, string>)
    ensures r.Success? ==> |r.value| == |words|
    ensures r.Failure? ==> r.error in words
    decreases |words|
  {
    if words == [] then Success([])
    else
      match Find(results, words[0])
      case None => Failure(words[0])
      case Some(k) =>
        var rest :- LookupAll(results, words[1..]);
        Success([k] + rest)
  }

  /** Every selected word is looked up: success exactly when all are in the
      results, each record found carrying its row's word. */
  lemma {:induction false} LookupAllSpec(results: seq<Kqr>, words: seq<string>)
    ensures LookupAll(results, words).Success?
        <==> forall i :: 0 <= i < |words| ==> Find(results, words[i]).Some?
    ensures LookupAll(results, words).Success? ==>
      forall i :: 0 <= i < |words| ==> LookupAll(results, words).value[i] == Find(results, words[i]).value
    decreases |words|
  {
    if words != [] {
      LookupAllSpec(results, words[1..]);
      assert forall i :: 1 <= i < |words| ==> words[1..][i - 1] == words[i];
    }
  }

  /** The union row's label: the words joined by ", ", cut to 50 characters
      followed by "..." when longer. */
  function UnionWord(words: seq<string>): string
  {
    var joined := DropLast(Terminated(words, ", "), 2);
    if |joined| > 50 then joined[..50] + "..." else joined
  }

  lemma UnionWordSpec(words: seq<string>)
    ensures var j := Join(words, ", ");
      && (|j| <= 50 ==> UnionWord(words) == j)
      && (|j| > 50 ==> UnionWord(words) == j[..50] + "...")
    ensures |UnionWord(words)| <= 53
  {
    DropTerminator(words, ", ");
  }

  /** One selected record added into the union; the word is set afterwards. */
  function Merge(acc: Kqr, k: Kqr): Kqr
  {
    acc.(types := acc.types + k.types,
         yearToCitations := AddMaps(acc.yearToCitations, k.yearToCitations),
         yearToPapers := UnionMaps(acc.yearToPapers, k.yearToPapers),
         impactNumerators := AddMaps(acc.impactNumerators, k.impactNumerators),
         totalCitations := acc.totalCitations + k.totalCitations,
         papers := acc.papers + k.papers)
  }

  function MergeAll(acc: Kqr, ks: seq<Kqr>): Kqr
    decreases |ks|
  {
    if ks == [] then acc else MergeAll(Merge(acc, ks[0]), ks[1..])
  }

  /** The taxonomies of some records. */
  function TypesOf(ks: seq<Kqr>): set<KeywordType>
  {
    set i, t | 0 <= i < |ks| && t in ks[i].types :: t
  }

  /** The papers of some records. */
  function PapersOf(ks: seq<Kqr>): set<string>
  {
    set i, d | 0 <= i < |ks| && d in ks[i].papers :: d
  }

  /** The sum of the records' totals. */
  function TotalOf(ks: seq<Kqr>): int
    decreases |ks|
  {
    if ks == [] then 0 else ks[0].totalCitations + TotalOf(ks[1..])
  }

  /** The key-by-key sum of the records' citations per year. */
  function CitationsSum(ks: seq<Kqr>): map<int, int>
    decreases |ks|
  {
    if ks == [] then map[] else AddMaps(ks[0].yearToCitations, CitationsSum(ks[1..]))
  }

  /** The key-by-key union of the records' papers per year. */
  function PapersPerYear(ks: seq<Kqr>): map<int, set<string>>
    decreases |ks|
  {
    if ks == [] then map[] else UnionMaps(ks[0].yearToPapers, PapersPerYear(ks[1..]))
  }

  /** The key-by-key sum of the records' impact numerators. */
  function ImpactSum(ks: seq<Kqr>): map<int, int>
    decreases |ks|
  {
    if ks == [] then map[] else AddMaps(ks[0].impactNumerators, ImpactSum(ks[1..]))
  }

  lemma TypesOfCons(ks: seq<Kqr>)
    requires ks != []
    ensures TypesOf(ks) == ks[0].types + TypesOf(ks[1..])
  {
    var rest := ks[1..];
    forall t | t in TypesOf(ks)
      ensures t in ks[0].types + TypesOf(rest)
    {
      var i :| 0 <= i < |ks| && t in ks[i].types;
      if i > 0 {
        assert rest[i - 1] == ks[i];
      }
    }
    forall t | t in TypesOf(rest)
      ensures t in TypesOf(ks)
    {
      var i :| 0 <= i < |rest| && t in rest[i].types;
      assert ks[i + 1] == rest[i];
    }
  }

  lemma PapersOfCons(ks: seq<Kqr>)
    requires ks != []
    ensures PapersOf(ks) == ks[0].papers + PapersOf(ks[1..])
  {
    var rest := ks[1..];
    forall d | d in PapersOf(ks)
      ensures d in ks[0].papers + PapersOf(rest)
    {
      var i :| 0 <= i < |ks| && d in ks[i].papers;
      if i > 0 {
        assert rest[i - 1] == ks[i];
      }
    }
    forall d | d in PapersOf(rest)
      ensures d in PapersOf(ks)
    {
      var i :| 0 <= i < |rest| && d in rest[i].papers;
      assert ks[i + 1] == rest[i];
    }
  }

  predicate SetsMerged(acc: Kqr, ks: seq<Kqr>, r: Kqr)
  {
    && r.types == acc.types + TypesOf(ks)
    && r.papers == acc.papers + PapersOf(ks)
    && r.word == acc.word
  }

  lemma MergeSetsStep(acc: Kqr, ks: seq<Kqr>)
    requires ks != []
    requires SetsMerged(Merge(acc, ks[0]), ks[1..], MergeAll(Merge(acc, ks[0]), ks[1..]))
    ensures SetsMerged(acc, ks, MergeAll(acc, ks))
  {
    TypesOfCons(ks);
    PapersOfCons(ks);
  }

  /** The union's taxonomies and papers are those of all selected records. */
  lemma {:induction false} MergeSets(acc: Kqr, ks: seq<Kqr>)
    ensures SetsMerged(acc, ks, MergeAll(acc, ks))
    decreases |ks|
  {
    if ks == [] {
      assert TypesOf(ks) == {} && PapersOf(ks) == {};
    } else {
      MergeSets(Merge(acc, ks[0]), ks[1..]);
      MergeSetsStep(acc, ks);
    }
  }

  /** Each year's papers of the union are that year's papers of all
      selected records. */
  ghost predicate PapersPerYearMerged(acc: Kqr, ks: seq<Kqr>, r: Kqr)
  {
    forall y :: GetSet(r.yearToPapers, y) == GetSet(acc.yearToPapers, y) + GetSet(PapersPerYear(ks), y)
  }

  lemma MergePapersPerYearStep(acc: Kqr, ks: seq<Kqr>)
    requires ks != []
    requires PapersPerYearMerged(Merge(acc, ks[0]), ks[1..], MergeAll(Merge(acc, ks[0]), ks[1..]))
    ensures PapersPerYearMerged(acc, ks, MergeAll(acc, ks))
  {
    forall y
      ensures GetSet(MergeAll(acc, ks).yearToPapers, y)
           == GetSet(acc.yearToPapers, y) + GetSet(PapersPerYear(ks), y)
    {
      GetSetUnion(acc.yearToPapers, ks[0].yearToPapers, y);
      GetSetUnion(ks[0].yearToPapers, PapersPerYear(ks[1..]), y);
    }
  }

  lemma {:induction false} MergePapersPerYear(acc: Kqr, ks: seq<Kqr>)
    ensures PapersPerYearMerged(acc, ks, MergeAll(acc, ks))
    decreases |ks|
  {
    if ks != [] {
      MergePapersPerYear(Merge(acc, ks[0]), ks[1..]);
      MergePapersPerYearStep(acc, ks);
    }
  }

  predicate CountsMerged(acc: Kqr, ks: seq<Kqr>, r: Kqr)
  {
    && r.yearToCitations == AddMaps(acc.yearToCitations, CitationsSum(ks))
    && r.impactNumerators == AddMaps(acc.impactNumerators, ImpactSum(ks))
    && r.totalCitations == acc.totalCitations + TotalOf(ks)
  }

  lemma MergeCountsStep(acc: Kqr, ks: seq<Kqr>)
    requires ks != []
    requires CountsMerged(Merge(acc, ks[0]), ks[1..], MergeAll(Merge(acc, ks[0]), ks[1..]))
    ensures CountsMerged(acc, ks, MergeAll(acc, ks))
  {
    AddMapsAssociates(acc.yearToCitations, ks[0].yearToCitations, CitationsSum(ks[1..]));
    AddMapsAssociates(acc.impactNumerators, ks[0].impactNumerators, ImpactSum(ks[1..]));
  }

  /** The union's citations per year and impact numerators are the
      key-by-key sums of the selected records', and its total the sum of
      their totals. */
  lemma {:induction false} MergeCounts(acc: Kqr, ks: seq<Kqr>)
    ensures CountsMerged(acc, ks, MergeAll(acc, ks))
    decreases |ks|
  {
    if ks == [] {
      AddMapsEmpty(acc.yearToCitations);
      AddMapsEmpty(acc.impactNumerators);
    } else {
      MergeCounts(Merge(acc, ks[0]), ks[1..]);
      MergeCountsStep(acc, ks);
    }
  }

  /** When every selected record's total is the sum of its per-year counts,
      so is the union's. */
  lemma {:induction false} CitationsSumConsistent(ks: seq<Kqr>)
    requires forall i :: 0 <= i < |ks| ==> Consistent(ks[i])
    ensures MapSum(CitationsSum(ks)) == TotalOf(ks)
    decreases |ks|
  {
    if ks != [] {
      CitationsSumConsistent(ks[1..]);
      MapSumAddMaps(ks[0].yearToCitations, CitationsSum(ks[1..]));
    }
  }

  /** What the user sees after "add union": nothing happens with fewer than
      two selected rows; a selected word missing from the search results is
      an error; otherwise the union row is inserted at the top. */
  datatype UnionOutcome =
    | NothingSelected
    | RowNotFound(word: string)
    | Merged(union: Kqr, table: seq<Row>, sliderMax: nat)

  /** `addUnionOfSelectedRows`. `selected` holds the words of the selected
      rows in selection order; `results` is what `searchKeywords` returns
      for the search box's text. */
  function AddUnionOfSelectedRows(table: seq<Row>, selected: seq<string>, results: seq<Kqr>): (out: UnionOutcome)
    ensures out.NothingSelected? <==> |selected| < 2
    ensures out.RowNotFound? ==> out.word in selected
    ensures out.Merged? ==> |out.table| == |table| + 1 && out.table[1..] == table
  {
    if |selected| < 2 then NothingSelected
    else
      match LookupAll(results, selected)
      case Failure(w) => RowNotFound(w)
      case Success(ks) =>
        var union := MergeAll(EmptyKqr(), ks).(word := UnionWord(selected));
        Merged(union, [RowOf(union)] + table, |table| + 1)
  }

  /** The union of at least two rows found in the results: its label, its
      taxonomies, papers and citations are those of the selected records,
      it keeps `total == sum of per-year counts`, and it becomes the first
      row of the table while the other rows stay as they were. */
  lemma UnionSpec(table: seq<Row>, selected: seq<string>, results: seq<Kqr>)
    requires |selected| >= 2
    requires forall i :: 0 <= i < |selected| ==> Find(results, selected[i]).Some?
    requires forall i :: 0 <= i < |results| ==> Consistent(results[i])
    ensures var out := AddUnionOfSelectedRows(table, selected, results);
      && out.Merged?
      && var ks := LookupAll(results, selected).value;
      && out.union.word == UnionWord(selected)
      && out.union.types == TypesOf(ks)
      && out.union.papers == PapersOf(ks)
      && out.union.yearToCitations == CitationsSum(ks)
      && (forall y :: GetSet(out.union.yearToPapers, y) == GetSet(PapersPerYear(ks), y))
      && out.union.impactNumerators == ImpactSum(ks)
      && out.union.totalCitations == TotalOf(ks)
      && Consistent(out.union)
      && out.table == [RowOf(out.union)] + table
      && out.sliderMax == |table| + 1
  {
    LookupAllSpec(results, selected);
    var ks := LookupAll(results, selected).value;
    forall i | 0 <= i < |ks|
      ensures Consistent(ks[i])
    {
      FindSpec(results, selected[i]);
    }
    MergeSets(EmptyKqr(), ks);
    MergeCounts(EmptyKqr(), ks);
    AddMapsEmpty(CitationsSum(ks));
    AddMapsEmpty(ImpactSum(ks));
    MergePapersPerYear(EmptyKqr(), ks);
    CitationsSumConsistent(ks);
  }

  /** Selecting a word the search results lack gives the error for the
      first such word in selection order. */
  lemma UnionRowNotFound(table: seq<Row>, selected: seq<string>, results: seq<Kqr>, k: nat)
    requires |selected| >= 2 && k < |selected|
    requires Find(results, selected[k]).None?
    requires forall i :: 0 <= i < k ==> Find(results, selected[i]).Some?
    ensures AddUnionOfSelectedRows(table, selected, results) == RowNotFound(selected[k])
  {
    LookupFailsAt(results, selected, k);
  }

  lemma {:induction false} LookupFailsAt(results: seq<Kqr>, words: seq<string>, k: nat)
    requires k < |words|
    requires Find(results, words[k]).None?
    requires forall i :: 0 <= i < k ==> Find(results, words[i]).Some?
    ensures LookupAll(results, words) == Failure(words[k])
    decreases k
  {
    if k > 0 {
      assert words[1..][k - 1] == words[k];
      LookupFailsAt(results, words[1..], k - 1);
    }
  }

  // ----- updateTable -----

  /** The type filter of the checkboxes: a record is shown when one of its
      taxonomies is checked. */
  predicate Shown(k: Kqr, indexTerms: bool, authorKeywords: bool, areas: bool)
  {
    || (indexTerms && IndexTerm in k.types)
    || (authorKeywords && AuthorKeyword in k.types)
    || (areas && SubjectArea in k.types)
  }

  /** The checkboxes as a set of checked taxonomies. */
  function Checked(indexTerms: bool, authorKeywords: bool, areas: bool): set<KeywordType>
  {
    (if indexTerms then {IndexTerm} else {}) + (if authorKeywords then {AuthorKeyword} else {})
      + (if areas then {SubjectArea} else {})
  }

  /** A record is shown exactly when its taxonomies meet the checked ones. */
  lemma ShownIffChecked(k: Kqr, indexTerms: bool, authorKeywords: bool, areas: bool)
    ensures Shown(k, indexTerms, authorKeywords, areas) <==> k.types * Checked(indexTerms, authorKeywords, areas) != {}
  {
    var c := Checked(indexTerms, authorKeywords, areas);
    if Shown(k, indexTerms, authorKeywords, areas) {
      if indexTerms && IndexTerm in k.types {
        assert IndexTerm in k.types * c;
      } else if authorKeywords && AuthorKeyword in k.types {
        assert AuthorKeyword in k.types * c;
      } else {
        assert SubjectArea in k.types * c;
      }
    } else {
      forall t | t in k.types
        ensures t !in c
      {
      }
    }
  }

  /** The rows of the shown records among `ks`, in order. */
  function ShownRows(ks: seq<Kqr>, indexTerms: bool, authorKeywords: bool, areas: bool): seq<Row>
    decreases |ks|
  {
    if ks == [] then []
    else
      (if Shown(ks[0], indexTerms, authorKeywords, areas) then [RowOf(ks[0])] else [])
        + ShownRows(ks[1..], indexTerms, authorKeywords, areas)
  }

  lemma {:induction false} ShownRowsAppend(a: seq<Kqr>, b: seq<Kqr>, indexTerms: bool, authorKeywords: bool, areas: bool)
    ensures ShownRows(a + b, indexTerms, authorKeywords, areas)
         == ShownRows(a, indexTerms, authorKeywords, areas) + ShownRows(b, indexTerms, authorKeywords, areas)
    decreases |a|
  {
    if a == [] {
      assert a + b == b;
    } else {
      assert (a + b)[0] == a[0] && (a + b)[1..] == a[1..] + b;
      ShownRowsAppend(a[1..], b, indexTerms, authorKeywords, areas);
    }
  }

  /** The rows appended before sorting: the first `maxTabRows` records of
      the search are taken, and those whose taxonomies are unchecked are
      skipped. The slider's maximum is the number of search results. */
  method FillTable(kqrs: seq<Kqr>, maxTabRows: nat, indexTerms: bool, authorKeywords: bool, areas: bool)
    returns (rows: seq<Row>, sliderMax: nat)
    ensures rows == ShownRows(kqrs[..if maxTabRows < |kqrs| then maxTabRows else |kqrs|], indexTerms, authorKeywords, areas)
    ensures sliderMax == |kqrs|
  {
    rows := [];
    var budget := maxTabRows;
    var i := 0;
    while i < |kqrs|
      invariant 0 <= i <= |kqrs|
      invariant i <= maxTabRows && budget == maxTabRows - i
      invariant rows == ShownRows(kqrs[..i], indexTerms, authorKeywords, areas)
    {
      if budget == 0 {
        break;
      }
      budget := budget - 1;
      var k := kqrs[i];
      ShownRowsAppend(kqrs[..i], [k], indexTerms, authorKeywords, areas);
      assert kqrs[..i + 1] == kqrs[..i] + [k];
      assert [k][1..] == [];
      i := i + 1;
      if !Shown(k, indexTerms, authorKeywords, areas) {
        continue;
      }
      rows := rows + [RowOf(k)];
    }
    sliderMax := |kqrs|;
  }

  /** The budget counts records before the type filter: the table never
      holds more rows than the slider allows, and holds only shown records
      from the first `maxTabRows` results. */
  lemma {:induction false} ShownRowsBound(ks: seq<Kqr>, indexTerms: bool, authorKeywords: bool, areas: bool)
    ensures |ShownRows(ks, indexTerms, authorKeywords, areas)| <= |ks|
    ensures forall r :: r in ShownRows(ks, indexTerms, authorKeywords, areas) <==>
      exists i :: 0 <= i < |ks| && Shown(ks[i], indexTerms, authorKeywords, areas) && r == RowOf(ks[i])
    decreases |ks|
  {
    if ks != [] {
      ShownRowsBound(ks[1..], indexTerms, authorKeywords, areas);
      var rest := ks[1..];
      forall r | (exists i :: 0 <= i < |ks| && Shown(ks[i], indexTerms, authorKeywords, areas) && r == RowOf(ks[i]))
        ensures r in ShownRows(ks, indexTerms, authorKeywords, areas)
      {
        var i :| 0 <= i < |ks| && Shown(ks[i], indexTerms, authorKeywords, areas) && r == RowOf(ks[i]);
        if i > 0 {
          assert rest[i - 1] == ks[i];
        }
      }
      forall r | r in ShownRows(rest, indexTerms, authorKeywords, areas)
        ensures exists i :: 0 <= i < |ks| && Shown(ks[i], indexTerms, authorKeywords, areas) && r == RowOf(ks[i])
      {
        var i :| 0 <= i < |rest| && Shown(rest[i], indexTerms, authorKeywords, areas) && r == RowOf(rest[i]);
        assert ks[i + 1] == rest[i];
      }
    }
  }

  // ----- sortByColumn(2, Qt::DescendingOrder) -----

  /** Rows ordered by decreasing total citations. */
  predicate SortedByTotal(rows: seq<Row>)
  {
    forall i, j :: 0 <= i < j < |rows| ==> rows[i].totalCitations >= rows[j].totalCitations
  }

  function Insert(r: Row, rows: seq<Row>): (out: seq<Row>)
    decreases |rows|
  {
    if rows == [] || r.totalCitations >= rows[0].totalCitations then [r] + rows
    else [rows[0]] + Insert(r, rows[1..])
  }

  lemma {:induction false} InsertMultiset(r: Row, rows: seq<Row>)
    ensures multiset(Insert(r, rows)) == multiset(rows) + multiset{r}
    decreases |rows|
  {
    if rows != [] && r.totalCitations < rows[0].totalCitations {
      InsertMultiset(r, rows[1..]);
      assert rows == [rows[0]] + rows[1..];
    }
  }

  /** Dropping the first of sorted rows leaves them sorted. */
  lemma SortedTail(rows: seq<Row>)
    requires rows != [] && SortedByTotal(rows)
    ensures SortedByTotal(rows[1..])
  {
    var rest := rows[1..];
    forall i, j | 0 <= i < j < |rest|
      ensures rest[i].totalCitations >= rest[j].totalCitations
    {
      assert rest[i] == rows[i + 1] && rest[j] == rows[j + 1];
    }
  }

  /** A row no smaller than every row of sorted rows can go in front. */
  lemma SortedCons(x: Row, rows: seq<Row>)
    requires SortedByTotal(rows)
    requires forall j :: 0 <= j < |rows| ==> x.totalCitations >= rows[j].totalCitations
    ensures SortedByTotal([x] + rows)
  {
    var out := [x] + rows;
    forall i, j | 0 <= i < j < |out|
      ensures out[i].totalCitations >= out[j].totalCitations
    {
      assert out[j] == rows[j - 1];
      if i > 0 {
        assert out[i] == rows[i - 1];
      }
    }
  }

  lemma {:induction false} InsertSorted(r: Row, rows: seq<Row>)
    requires SortedByTotal(rows)
    ensures SortedByTotal(Insert(r, rows))
    decreases |rows|
  {
    if rows == [] || r.totalCitations >= rows[0].totalCitations {
      SortedCons(r, rows);
    } else {
      var rest := rows[1..];
      SortedTail(rows);
      InsertSorted(r, rest);
      InsertMultiset(r, rest);
      var ins := Insert(r, rest);
      forall j | 0 <= j < |ins|
        ensures rows[0].totalCitations >= ins[j].totalCitations
      {
        var x := ins[j];
        assert x in multiset(ins);
        if x != r {
          assert x in multiset(rest);
          var k :| 0 <= k < |rest| && rest[k] == x;
          assert rows[k + 1] == x;
        }
      }
      SortedCons(rows[0], ins);
    }
  }

  /** The table after sorting by total citations, descending. Qt's ordering
      among equal totals is not claimed. */
  function SortByTotal(rows: seq<Row>): (out: seq<Row>)
    decreases |rows|
  {
    if rows == [] then [] else Insert(rows[0], SortByTotal(rows[1..]))
  }

  /** Sorting orders the rows by decreasing total and loses or adds none. */
  lemma {:induction false} SortByTotalSpec(rows: seq<Row>)
    ensures SortedByTotal(SortByTotal(rows))
    ensures multiset(SortByTotal(rows)) == multiset(rows)
    decreases |rows|
  {
    if rows != [] {
      SortByTotalSpec(rows[1..]);
      InsertSorted(rows[0], SortByTotal(rows[1..]));
      InsertMultiset(rows[0], SortByTotal(rows[1..]));
      assert rows == [rows[0]] + rows[1..];
    }
  }

  /** `updateTable`: the rows of the refilled table and the slider's range. */
  method UpdateTable(kqrs: seq<Kqr>, maxTabRows: nat, indexTerms: bool, authorKeywords: bool, areas: bool)
    returns (table: seq<Row>, sliderMax: nat)
    ensures SortedByTotal(table)
    ensures multiset(table)
         == multiset(ShownRows(kqrs[..if maxTabRows < |kqrs| then maxTabRows else |kqrs|], indexTerms, authorKeywords, areas))
    ensures |table| <= maxTabRows
    ensures sliderMax == |kqrs|
  {
    var rows;
    rows, sliderMax := FillTable(kqrs, maxTabRows, indexTerms, authorKeywords, areas);
    table := SortByTotal(rows);
    SortByTotalSpec(rows);
    ShownRowsBound(kqrs[..if maxTabRows < |kqrs| then maxTabRows else |kqrs|], indexTerms, authorKeywords, areas);
    assert |table| == |multiset(table)| == |multiset(rows)| == |rows|;
  }

  // ----- openChartWindow -----

  /** `openChartWindow`'s first loop: every year between the first and the
      last cited year gets an entry, zero where the record has none. */
  method GapFill(ytc: map<int, int>, lo: int, hi: int) returns (filled: map<int, int>)
    requires forall y :: y in ytc ==> lo <= y <= hi
    ensures forall y :: y in filled <==> lo <= y <= hi
    ensures forall y :: lo <= y <= hi ==> filled[y] == Get(ytc, y)
    ensures MapSum(filled) == MapSum(ytc)
  {
    filled := ytc;
    var year := lo;
    while year <= hi
      invariant lo <= year <= hi + 1 || (hi < lo && year == lo)
      invariant forall y :: y in filled <==> y in ytc || lo <= y < year
      invariant forall y :: y in filled ==> filled[y] == Get(ytc, y)
      invariant MapSum(filled) == MapSum(ytc)
      decreases hi - year
    {
      if year !in filled {
        MapSumAddAt(filled, year, 0);
        filled := AddAt(filled, year, 0);
      }
      year := year + 1;
    }
  }

  /** One year of the chart: its citations, its new papers, and its impact
      factor (the citations received that year by papers of the two previous
      years, over the number of those papers). */
  datatype Point = Point(year: int, citations: int, newPapers: nat, impact: Ratio)

  /** The impact factor as an exact fraction; the C++ divides in `double`. */
  datatype Ratio = Ratio(num: int, den: int)

  const Zero := Ratio(0, 1)

  /** The chart's series and axes. The x axis ends one year before the
      last cited year; the y axis ends one above the largest value shown. */
  datatype Chart = Chart(
    title: string,
    points: seq<Point>,
    xMin: int,
    xMax: int,
    xTicks: int,
    yMax: int,
    missingData: bool)

  /** The impact factor of `year` when the first cited year is `lo`: the
      numerator over the papers of the two previous years, or zero when the
      year is too early, there are no such papers, or no numerator. */
  function ImpactFactor(k: Kqr, lo: int, year: int): (r: Ratio)
    ensures r.den >= 1
    ensures var before := |GetSet(k.yearToPapers, year - 1)| + |GetSet(k.yearToPapers, year - 2)|;
      year - lo >= 2 && before > 0 && year in k.impactNumerators ==>
        r == Ratio(k.impactNumerators[year], before)
    ensures !(year - lo >= 2 && year in k.impactNumerators) ==> r == Zero
    ensures |GetSet(k.yearToPapers, year - 1)| + |GetSet(k.yearToPapers, year - 2)| == 0 ==> r == Zero
  {
    if year - lo >= 2 then
      var before := |GetSet(k.yearToPapers, year - 1)| + |GetSet(k.yearToPapers, year - 2)|;
      if before > 0 && year in k.impactNumerators then Ratio(k.impactNumerators[year], before)
      else Zero
    else Zero
  }

  /** A non-zero impact needs all three conditions, and then its value is
      the numerator over the papers of the two previous years. */
  lemma ImpactFactorNonZero(k: Kqr, lo: int, year: int)
    requires ImpactFactor(k, lo, year) != Zero
    ensures year - lo >= 2 && year in k.impactNumerators
    ensures ImpactFactor(k, lo, year).den == |GetSet(k.yearToPapers, year - 1)| + |GetSet(k.yearToPapers, year - 2)|
    ensures ImpactFactor(k, lo, year).num == k.impactNumerators[year]
  {
  }

  function PointAt(k: Kqr, filled: map<int, int>, lo: int, year: int): Point
    requires year in filled
  {
    Point(year, filled[year], |GetSet(k.yearToPapers, year)|, ImpactFactor(k, lo, year))
  }

  /** The points of the years `year..hi` in ascending order, the current
      year skipped. */
  function Points(k: Kqr, filled: map<int, int>, lo: int, year: int, hi: int, currentYear: int): seq<Point>
    requires forall y :: year <= y <= hi ==> y in filled
    decreases hi - year
  {
    if year > hi then []
    else
      (if year == currentYear then [] else [PointAt(k, filled, lo, year)])
        + Points(k, filled, lo, year + 1, hi, currentYear)
  }

  /** A year the chart draws: within the range and not the current year. */
  predicate Drawn(y: int, lo: int, hi: int, currentYear: int)
  {
    lo <= y <= hi && y != currentYear
  }

  /** Each point is drawn and shows its year's entry of `filled`. */
  predicate PointsOf(k: Kqr, filled: map<int, int>, lo: int, from: int, hi: int, currentYear: int, ps: seq<Point>)
  {
    forall i :: 0 <= i < |ps| ==>
      Drawn(ps[i].year, from, hi, currentYear) && ps[i].year in filled && ps[i] == PointAt(k, filled, lo, ps[i].year)
  }

  predicate Ascending(ps: seq<Point>)
  {
    forall i, j :: 0 <= i < j < |ps| ==> ps[i].year < ps[j].year
  }

  /** Every drawn year has a point. */
  ghost predicate Covers(ps: seq<Point>, lo: int, hi: int, currentYear: int)
  {
    forall y :: Drawn(y, lo, hi, currentYear) ==> exists i :: 0 <= i < |ps| && ps[i].year == y
  }

  lemma {:induction false} PointsDrawn(k: Kqr, filled: map<int, int>, lo: int, year: int, hi: int, currentYear: int)
    requires forall y :: year <= y <= hi ==> y in filled
    ensures PointsOf(k, filled, lo, year, hi, currentYear, Points(k, filled, lo, year, hi, currentYear))
    decreases hi - year
  {
    if year <= hi {
      PointsDrawn(k, filled, lo, year + 1, hi, currentYear);
      var head := if year == currentYear then [] else [PointAt(k, filled, lo, year)];
      var rest := Points(k, filled, lo, year + 1, hi, currentYear);
      var ps := Points(k, filled, lo, year, hi, currentYear);
      assert ps == head + rest;
      forall i | 0 <= i < |ps|
        ensures Drawn(ps[i].year, year, hi, currentYear) && ps[i].year in filled
             && ps[i] == PointAt(k, filled, lo, ps[i].year)
      {
        if i >= |head| {
          assert ps[i] == rest[i - |head|];
        }
      }
    }
  }

  lemma {:induction false} PointsAscending(k: Kqr, filled: map<int, int>, lo: int, year: int, hi: int, currentYear: int)
    requires forall y :: year <= y <= hi ==> y in filled
    ensures Ascending(Points(k, filled, lo, year, hi, currentYear))
    decreases hi - year
  {
    if year <= hi {
      PointsAscending(k, filled, lo, year + 1, hi, currentYear);
      PointsDrawn(k, filled, lo, year + 1, hi, currentYear);
      var head := if year == currentYear then [] else [PointAt(k, filled, lo, year)];
      var rest := Points(k, filled, lo, year + 1, hi, currentYear);
      var ps := Points(k, filled, lo, year, hi, currentYear);
      assert ps == head + rest;
      forall i, j | 0 <= i < j < |ps|
        ensures ps[i].year < ps[j].year
      {
        assert ps[j] == rest[j - |head|];
        if i >= |head| {
          assert ps[i] == rest[i - |head|];
        }
      }
    }
  }

  /** Every year of the range except the current one has a point. */
  lemma {:induction false} PointsComplete(k: Kqr, filled: map<int, int>, lo: int, year: int, hi: int, currentYear: int, y: int)
    requires forall z :: year <= z <= hi ==> z in filled
    requires Drawn(y, year, hi, currentYear)
    ensures exists i :: (0 <= i < |Points(k, filled, lo, year, hi, currentYear)|
      && Points(k, filled, lo, year, hi, currentYear)[i].year == y)
    decreases hi - year
  {
    var head := if year == currentYear then [] else [PointAt(k, filled, lo, year)];
    var ps := Points(k, filled, lo, year, hi, currentYear);
    if y == year {
      assert ps[0].year == y;
    } else {
      PointsComplete(k, filled, lo, year + 1, hi, currentYear, y);
      var rest := Points(k, filled, lo, year + 1, hi, currentYear);
      var i :| 0 <= i < |rest| && rest[i].year == y;
      assert ps[|head| + i] == rest[i];
    }
  }

  lemma PointsCover(k: Kqr, filled: map<int, int>, lo: int, hi: int, currentYear: int)
    requires forall y :: lo <= y <= hi ==> y in filled
    ensures Covers(Points(k, filled, lo, lo, hi, currentYear), lo, hi, currentYear)
  {
    forall y | Drawn(y, lo, hi, currentYear)
      ensures exists i :: (0 <= i < |Points(k, filled, lo, lo, hi, currentYear)|
        && Points(k, filled, lo, lo, hi, currentYear)[i].year == y)
    {
      PointsComplete(k, filled, lo, lo, hi, currentYear, y);
    }
  }

  /** Each point shows the record's own figures for its year: its citation
      count (zero for a year inside the range the record lacks), its papers
      and its impact factor. */
  predicate ShowsRecord(k: Kqr, lo: int, ps: seq<Point>)
  {
    forall i :: 0 <= i < |ps| ==>
      && ps[i].citations == Get(k.yearToCitations, ps[i].year)
      && ps[i].newPapers == |GetSet(k.yearToPapers, ps[i].year)|
      && ps[i].impact == ImpactFactor(k, lo, ps[i].year)
  }

  function Max(a: int, b: int): int
  {
    if a < b then b else a
  }

  /** `std::max` over the citations and over the new papers, from zero. */
  function Peak(ps: seq<Point>): int
    decreases |ps|
  {
    if ps == [] then 0 else Max(Max(ps[0].citations, ps[0].newPapers), Peak(ps[1..]))
  }

  /** The y axis is the smallest that is above every value drawn (and at
      least 1). */
  lemma {:induction false} PeakBounds(ps: seq<Point>)
    ensures Peak(ps) >= 0
    ensures forall i :: 0 <= i < |ps| ==> ps[i].citations <= Peak(ps) && ps[i].newPapers <= Peak(ps)
    ensures Peak(ps) == 0 || exists i :: 0 <= i < |ps| && (ps[i].citations == Peak(ps) || ps[i].newPapers == Peak(ps))
    decreases |ps|
  {
    if ps != [] {
      var rest := ps[1..];
      PeakBounds(rest);
      forall i | 1 <= i < |ps|
        ensures ps[i] == rest[i - 1]
      {
      }
      if Peak(ps) != Max(ps[0].citations, ps[0].newPapers) && Peak(ps) != 0 {
        var i :| 0 <= i < |rest| && (rest[i].citations == Peak(rest) || rest[i].newPapers == Peak(rest));
        assert ps[i + 1] == rest[i];
      }
    }
  }

  /** The error "Missing data for impact factor calculation" is raised for
      a point two or more years after the first when the record has no
      impact numerators at all. */
  predicate MissingData(k: Kqr, lo: int, ps: seq<Point>)
  {
    k.impactNumerators == map[] && exists i :: 0 <= i < |ps| && ps[i].year - lo >= 2
  }

  /** The title and the x axis: from the first cited year to the year
      before the last, one tick per year up to the year before the current
      one. */
  predicate ChartAxes(keyword: string, k: Kqr, currentYear: int, c: Chart)
  {
    && k.yearToCitations != map[]
    && c.title == keyword
    && c.xMin == MinKey(k.yearToCitations)
    && c.xMax == MaxKey(k.yearToCitations) - 1
    && c.xTicks == currentYear - MinKey(k.yearToCitations)
  }

  /** The series: one point per drawn year, ascending, each showing the
      record's figures for that year. */
  ghost predicate ChartSeries(k: Kqr, currentYear: int, c: Chart)
  {
    && k.yearToCitations != map[]
    && var lo := MinKey(k.yearToCitations);
    && var hi := MaxKey(k.yearToCitations);
    && (forall i :: 0 <= i < |c.points| ==> Drawn(c.points[i].year, lo, hi, currentYear))
    && Covers(c.points, lo, hi, currentYear)
    && Ascending(c.points)
    && ShowsRecord(k, lo, c.points)
  }

  /** `openChartWindow` for the record `getKQR` returns. A record without
      cited years gives no chart: the C++ then reads through the end
      iterator of an empty map. */
  method OpenChartWindow(keyword: string, k: Kqr, currentYear: int) returns (chart: Option<Chart>)
    ensures chart.None? <==> k.yearToCitations == map[]
    ensures chart.Some? ==> ChartAxes(keyword, k, currentYear, chart.value)
    ensures chart.Some? ==> ChartSeries(k, currentYear, chart.value)
    ensures chart.Some? ==>
      && chart.value.yMax == Peak(chart.value.points) + 1
      && chart.value.missingData == MissingData(k, chart.value.xMin, chart.value.points)
  {
    if k.yearToCitations == map[] {
      return None;
    }
    var lo := MinKey(k.yearToCitations);
    var hi := MaxKey(k.yearToCitations);
    var filled := GapFill(k.yearToCitations, lo, hi);
    var ps := Points(k, filled, lo, lo, hi, currentYear);
    PointsDrawn(k, filled, lo, lo, hi, currentYear);
    PointsAscending(k, filled, lo, lo, hi, currentYear);
    PointsCover(k, filled, lo, hi, currentYear);
    chart := Some(Chart(keyword, ps, lo, hi - 1, currentYear - 1 - lo + 1, Peak(ps) + 1, MissingData(k, lo, ps)));
  }

  /** Records built by the keyword query hold no papers per year and no
      impact numerators, so their charts draw no new papers and a flat zero
      impact factor, and raise the missing-data error as soon as a year two
      or more after the first is drawn. */
  lemma QueriedChartsHaveNoImpact(s: PaperStore.Store, sc: Aggregator.Scans, w: string, lo: int, ps: seq<Point>)
    requires w in Aggregator.WordToKqr(s, sc)
    requires forall i :: 0 <= i < |ps| ==> ps[i].newPapers == |GetSet(Aggregator.WordToKqr(s, sc)[w].yearToPapers, ps[i].year)|
    requires forall i :: 0 <= i < |ps| ==> ps[i].impact == ImpactFactor(Aggregator.WordToKqr(s, sc)[w], lo, ps[i].year)
    ensures forall i :: 0 <= i < |ps| ==> ps[i].newPapers == 0 && ps[i].impact == Zero
    ensures MissingData(Aggregator.WordToKqr(s, sc)[w], lo, ps) <==> exists i :: 0 <= i < |ps| && ps[i].year - lo >= 2
  {
    Aggregator.WordToKqrCitations(s, sc, w);
  }
}

/** `queryAllKeywords` and `getCitations`: additive folds of the store's
    membership and citation rows into keyword records.

    SQLite returns the rows of a `SELECT` in an unspecified order, so every
    scan is a parameter: a sequence that lists each row of its table once.
    The folds below are proved not to depend on that order. */
module Aggregator {
  import opened Tallies
  import opened PaperStore
  import opened Keywords

  /** One row of a membership scan, tagged with the table it came from. */
  datatype Membership = Membership(kind: KeywordType, word: string, doi: string)

  /** The orders in which the three `SELECT label, doi FROM …` scans return
      their rows. */
  datatype Scans = Scans(
    authorKeywords: seq<(string, string)>,
    indexTerms: seq<(string, string)>,
    areas: seq<(string, string)>)

  /** A scan lists every row of its table exactly once. */
  predicate Enumerates<T(==)>(rows: seq<T>, table: set<T>)
  {
    && (forall i :: 0 <= i < |rows| ==> rows[i] in table)
    && (forall x :: x in table ==> x in rows)
    && Distinct(rows)
  }

  predicate ScansOf(sc: Scans, s: Store)
  {
    && Enumerates(sc.authorKeywords, s.authorKeywords)
    && Enumerates(sc.indexTerms, s.indexTerms)
    && Enumerates(sc.areas, s.areas)
  }

  /** The membership table of one taxonomy. */
  function Table(s: Store, kind: KeywordType): set<(string, string)>
  {
    match kind
    case IndexTerm => s.indexTerms
    case AuthorKeyword => s.authorKeywords
    case SubjectArea => s.areas
  }

  function Tag(kind: KeywordType, rows: seq<(string, string)>): (tagged: seq<Membership>)
    ensures |tagged| == |rows|
    ensures forall i :: 0 <= i < |rows| ==> tagged[i] == Membership(kind, rows[i].0, rows[i].1)
  {
    seq(|rows|, i requires 0 <= i < |rows| => Membership(kind, rows[i].0, rows[i].1))
  }

  /** The rows in the order `queryAllKeywords` visits them: author keywords,
      then index terms, then subject areas. */
  function Passes(sc: Scans): seq<Membership>
  {
    Tag(AuthorKeyword, sc.authorKeywords) + Tag(IndexTerm, sc.indexTerms) + Tag(SubjectArea, sc.areas)
  }

  /** `SELECT year, number FROM citations WHERE doi = ?`, as a tally. */
  function CitationsOf(s: Store, doi: string): (m: map<int, int>)
    ensures forall y :: y in m <==> (doi, y) in s.citations
    ensures forall y :: y in m ==> m[y] == s.citations[(doi, y)]
  {
    var years := set k | k in s.citations.Keys && k.0 == doi :: k.1;
    map y | y in years :: s.citations[(doi, y)]
  }

  /** The body of one membership-row iteration: the paper's citation rows
      are added to the per-year counts and to the total, the taxonomy and
      the paper are recorded, and the word is set. */
  function Absorb(r: Kqr, m: Membership, cits: map<int, int>): Kqr
  {
    r.(yearToCitations := AddMaps(r.yearToCitations, cits),
       totalCitations := r.totalCitations + MapSum(cits),
       types := r.types + {m.kind},
       papers := r.papers + {m.doi},
       word := m.word)
  }

  /** The record of `w` so far; `operator[]` default-constructs a missing one. */
  function Lookup(acc: map<string, Kqr>, w: string): Kqr
  {
    if w in acc then acc[w] else EmptyKqr()
  }

  function Step(acc: map<string, Kqr>, s: Store, m: Membership): map<string, Kqr>
  {
    acc[m.word := Absorb(Lookup(acc, m.word), m, CitationsOf(s, m.doi))]
  }

  /** The fold of the scan loops over `word_to_kqr`. */
  function Aggregate(acc: map<string, Kqr>, s: Store, rows: seq<Membership>): map<string, Kqr>
    decreases |rows|
  {
    if rows == [] then acc else Aggregate(Step(acc, s, rows[0]), s, rows[1..])
  }

  /** `word_to_kqr` after the three passes. */
  function WordToKqr(s: Store, sc: Scans): map<string, Kqr>
  {
    Aggregate(map[], s, Passes(sc))
  }

  /** A listing of a set of keys: each exactly once, in some order. */
  predicate Lists(order: seq<string>, keys: set<string>)
  {
    && (forall i :: 0 <= i < |order| ==> order[i] in keys)
    && (forall w :: w in keys ==> w in order)
    && Distinct(order)
  }

  /** `queryAllKeywords`: the records of `word_to_kqr` in the unspecified
      order of the `unordered_map`, given as `order`. */
  function QueryAllKeywords(s: Store, sc: Scans, order: seq<string>): (r: seq<Kqr>)
    requires Lists(order, WordToKqr(s, sc).Keys)
    ensures |r| == |order|
    ensures forall i :: 0 <= i < |r| ==> r[i] == WordToKqr(s, sc)[order[i]]
  {
    var m := WordToKqr(s, sc);
    seq(|order|, i requires 0 <= i < |order| => m[order[i]])
  }

  // ----- the record of one word -----

  /** The taxonomies of the rows that carry `w`. */
  function KindsOf(rows: seq<Membership>, w: string): set<KeywordType>
  {
    set i | 0 <= i < |rows| && rows[i].word == w :: rows[i].kind
  }

  /** The papers of the rows that carry `w`. */
  function DoisOf(rows: seq<Membership>, w: string): set<string>
  {
    set i | 0 <= i < |rows| && rows[i].word == w :: rows[i].doi
  }

  /** The citations one row contributes to the record of `w`. */
  function Here(s: Store, m: Membership, w: string): map<int, int>
  {
    if m.word == w then CitationsOf(s, m.doi) else map[]
  }

  /** The per-year counts the rows that carry `w` contribute. */
  function Contribution(s: Store, rows: seq<Membership>, w: string): map<int, int>
    decreases |rows|
  {
    if rows == [] then map[] else AddMaps(Here(s, rows[0], w), Contribution(s, rows[1..], w))
  }

  /** The citation total the rows that carry `w` contribute: each row adds
      its paper's whole total, so a paper carrying `w` in two taxonomies
      adds it twice. */
  function RowsTotal(s: Store, rows: seq<Membership>, w: string): int
    decreases |rows|
  {
    if rows == [] then 0 else MapSum(Here(s, rows[0], w)) + RowsTotal(s, rows[1..], w)
  }

  lemma KindsOfCons(rows: seq<Membership>, w: string)
    requires rows != []
    ensures KindsOf(rows, w) == (if rows[0].word == w then {rows[0].kind} else {}) + KindsOf(rows[1..], w)
  {
    var rest := rows[1..];
    forall t | t in KindsOf(rows, w)
      ensures t in (if rows[0].word == w then {rows[0].kind} else {}) + KindsOf(rest, w)
    {
      var i :| 0 <= i < |rows| && rows[i].word == w && rows[i].kind == t;
      if i > 0 {
        assert rest[i - 1] == rows[i];
      }
    }
    forall t | t in KindsOf(rest, w)
      ensures t in KindsOf(rows, w)
    {
      var i :| 0 <= i < |rest| && rest[i].word == w && rest[i].kind == t;
      assert rows[i + 1] == rest[i];
    }
  }

  lemma DoisOfCons(rows: seq<Membership>, w: string)
    requires rows != []
    ensures DoisOf(rows, w) == (if rows[0].word == w then {rows[0].doi} else {}) + DoisOf(rows[1..], w)
  {
    var rest := rows[1..];
    forall d | d in DoisOf(rows, w)
      ensures d in (if rows[0].word == w then {rows[0].doi} else {}) + DoisOf(rest, w)
    {
      var i :| 0 <= i < |rows| && rows[i].word == w && rows[i].doi == d;
      if i > 0 {
        assert rest[i - 1] == rows[i];
      }
    }
    forall d | d in DoisOf(rest, w)
      ensures d in DoisOf(rows, w)
    {
      var i :| 0 <= i < |rest| && rest[i].word == w && rest[i].doi == d;
      assert rows[i + 1] == rest[i];
    }
  }

  /** The words of a list of rows. */
  function WordsOf(rows: seq<Membership>): set<string>
  {
    set i | 0 <= i < |rows| :: rows[i].word
  }

  lemma WordsOfCons(rows: seq<Membership>)
    requires rows != []
    ensures WordsOf(rows) == {rows[0].word} + WordsOf(rows[1..])
  {
    var rest := rows[1..];
    forall x | x in WordsOf(rows)
      ensures x in {rows[0].word} + WordsOf(rest)
    {
      var i :| 0 <= i < |rows| && rows[i].word == x;
      if i > 0 {
        assert rest[i - 1] == rows[i];
      }
    }
    forall x | x in WordsOf(rest)
      ensures x in WordsOf(rows)
    {
      var i :| 0 <= i < |rest| && rest[i].word == x;
      assert rows[i + 1] == rest[i];
    }
  }


  lemma ContributionCons(s: Store, m: Membership, rest: seq<Membership>, w: string)
    ensures Contribution(s, [m] + rest, w) == AddMaps(Here(s, m, w), Contribution(s, rest, w))
  {
    assert ([m] + rest)[0] == m && ([m] + rest)[1..] == rest;
  }

  lemma RowsTotalCons(s: Store, m: Membership, rest: seq<Membership>, w: string)
    ensures RowsTotal(s, [m] + rest, w) == MapSum(Here(s, m, w)) + RowsTotal(s, rest, w)
  {
    assert ([m] + rest)[0] == m && ([m] + rest)[1..] == rest;
  }

  /** What one row does to the record of `w`: rows of other words leave it
      alone. */
  function Feed(r: Kqr, s: Store, m: Membership, w: string): Kqr
  {
    if m.word == w then Absorb(r, m, CitationsOf(s, m.doi)) else r
  }

  /** The record of `w` followed through a fold. */
  function Follow(r: Kqr, s: Store, rows: seq<Membership>, w: string): Kqr
    decreases |rows|
  {
    if rows == [] then r else Follow(Feed(r, s, rows[0], w), s, rows[1..], w)
  }

  lemma StepLookup(acc: map<string, Kqr>, s: Store, m: Membership, w: string)
    ensures Lookup(Step(acc, s, m), w) == Feed(Lookup(acc, w), s, m, w)
  {
  }

  /** A fold of the whole map, seen from one word, is a fold of that word's
      record alone. */
  lemma {:induction false} AggregateLookup(acc: map<string, Kqr>, s: Store, rows: seq<Membership>, w: string)
    ensures Lookup(Aggregate(acc, s, rows), w) == Follow(Lookup(acc, w), s, rows, w)
    decreases |rows|
  {
    if rows != [] {
      StepLookup(acc, s, rows[0], w);
      AggregateLookup(Step(acc, s, rows[0]), s, rows[1..], w);
    }
  }

  lemma FeedCitations(r: Kqr, s: Store, m: Membership, w: string)
    ensures Feed(r, s, m, w).yearToCitations == AddMaps(r.yearToCitations, Here(s, m, w))
    ensures Feed(r, s, m, w).totalCitations == r.totalCitations + MapSum(Here(s, m, w))
  {
    if m.word != w {
      AddMapsEmpty(r.yearToCitations);
    }
  }

  lemma FeedSets(r: Kqr, s: Store, m: Membership, w: string)
    ensures Feed(r, s, m, w).types == r.types + (if m.word == w then {m.kind} else {})
    ensures Feed(r, s, m, w).papers == r.papers + (if m.word == w then {m.doi} else {})
    ensures Feed(r, s, m, w).yearToPapers == r.yearToPapers
    ensures Feed(r, s, m, w).impactNumerators == r.impactNumerators
  {
  }

  /** The citation fields a fold of `rows` leaves in `w`'s record. */
  predicate CitationsAccounted(before: Kqr, after: Kqr, s: Store, rows: seq<Membership>, w: string)
  {
    && after.yearToCitations == AddMaps(before.yearToCitations, Contribution(s, rows, w))
    && after.totalCitations == before.totalCitations + RowsTotal(s, rows, w)
  }

  /** The set-valued fields a fold of `rows` leaves in `w`'s record. */
  predicate SetsAccounted(before: Kqr, after: Kqr, rows: seq<Membership>, w: string)
  {
    && after.types == before.types + KindsOf(rows, w)
    && after.papers == before.papers + DoisOf(rows, w)
    && after.yearToPapers == before.yearToPapers
    && after.impactNumerators == before.impactNumerators
  }

  lemma FollowCitationsStep(r: Kqr, s: Store, rows: seq<Membership>, w: string)
    requires rows != []
    requires CitationsAccounted(Feed(r, s, rows[0], w), Follow(Feed(r, s, rows[0], w), s, rows[1..], w), s, rows[1..], w)
    ensures CitationsAccounted(r, Follow(r, s, rows, w), s, rows, w)
  {
    FeedCitations(r, s, rows[0], w);
    AddMapsAssociates(r.yearToCitations, Here(s, rows[0], w), Contribution(s, rows[1..], w));
  }

  /** The per-year counts of a word's record gain the contribution of the
      rows carrying it, and the total gains their per-row totals. */
  lemma {:induction false} FollowCitations(r: Kqr, s: Store, rows: seq<Membership>, w: string)
    ensures CitationsAccounted(r, Follow(r, s, rows, w), s, rows, w)
    decreases |rows|
  {
    if rows == [] {
      AddMapsEmpty(r.yearToCitations);
    } else {
      FollowCitations(Feed(r, s, rows[0], w), s, rows[1..], w);
      FollowCitationsStep(r, s, rows, w);
    }
  }

  lemma FollowSetsStep(r: Kqr, s: Store, rows: seq<Membership>, w: string)
    requires rows != []
    requires SetsAccounted(Feed(r, s, rows[0], w), Follow(Feed(r, s, rows[0], w), s, rows[1..], w), rows[1..], w)
    ensures SetsAccounted(r, Follow(r, s, rows, w), rows, w)
  {
    FeedSets(r, s, rows[0], w);
    KindsOfCons(rows, w);
    DoisOfCons(rows, w);
  }

  /** A word's record gains the taxonomies and the papers of the rows
      carrying it, and nothing else. */
  lemma {:induction false} FollowSets(r: Kqr, s: Store, rows: seq<Membership>, w: string)
    ensures SetsAccounted(r, Follow(r, s, rows, w), rows, w)
    decreases |rows|
  {
    if rows == [] {
      assert KindsOf(rows, w) == {} && DoisOf(rows, w) == {};
    } else {
      FollowSets(Feed(r, s, rows[0], w), s, rows[1..], w);
      FollowSetsStep(r, s, rows, w);
    }
  }

  predicate WordsAreKeys(acc: map<string, Kqr>)
  {
    forall w :: w in acc ==> acc[w].word == w
  }

  lemma AggregateKeysStep(acc: map<string, Kqr>, s: Store, rows: seq<Membership>)
    requires rows != [] && WordsAreKeys(acc)
    requires Aggregate(Step(acc, s, rows[0]), s, rows[1..]).Keys == Step(acc, s, rows[0]).Keys + WordsOf(rows[1..])
    requires WordsAreKeys(Aggregate(Step(acc, s, rows[0]), s, rows[1..]))
    ensures Aggregate(acc, s, rows).Keys == acc.Keys + WordsOf(rows)
    ensures WordsAreKeys(Aggregate(acc, s, rows))
  {
    WordsOfCons(rows);
  }

  /** The keys are the words seen, and every record's word is its key. */
  lemma {:induction false} AggregateKeys(acc: map<string, Kqr>, s: Store, rows: seq<Membership>)
    requires WordsAreKeys(acc)
    ensures Aggregate(acc, s, rows).Keys == acc.Keys + WordsOf(rows)
    ensures WordsAreKeys(Aggregate(acc, s, rows))
    decreases |rows|
  {
    if rows == [] {
      assert WordsOf(rows) == {};
    } else {
      var next := Step(acc, s, rows[0]);
      assert WordsAreKeys(next);
      AggregateKeys(next, s, rows[1..]);
      AggregateKeysStep(acc, s, rows);
    }
  }

  predicate AllConsistent(acc: map<string, Kqr>)
  {
    forall w :: w in acc ==> Consistent(acc[w])
  }

  lemma AbsorbConsistent(r: Kqr, m: Membership, cits: map<int, int>)
    requires Consistent(r)
    ensures Consistent(Absorb(r, m, cits))
  {
    MapSumAddMaps(r.yearToCitations, cits);
  }

  lemma StepConsistent(acc: map<string, Kqr>, s: Store, m: Membership)
    requires AllConsistent(acc)
    ensures AllConsistent(Step(acc, s, m))
  {
    var r := Lookup(acc, m.word);
    assert Consistent(r) by {
      if m.word !in acc {
        EmptyKqrConsistent();
      }
    }
    AbsorbConsistent(r, m, CitationsOf(s, m.doi));
  }

  /** Every record keeps `total == sum of yearToCitations`. */
  lemma {:induction false} AggregateConsistent(acc: map<string, Kqr>, s: Store, rows: seq<Membership>)
    requires AllConsistent(acc)
    ensures AllConsistent(Aggregate(acc, s, rows))
    decreases |rows|
  {
    if rows != [] {
      StepConsistent(acc, s, rows[0]);
      AggregateConsistent(Step(acc, s, rows[0]), s, rows[1..]);
    }
  }

  // ----- an independent description of the result -----

  /** The records the fold of `rows` is meant to produce, word by word. */
  function Records(s: Store, rows: seq<Membership>): map<string, Kqr>
  {
    map w | w in WordsOf(rows) ::
      Kqr(w, KindsOf(rows, w), Contribution(s, rows, w), RowsTotal(s, rows, w), DoisOf(rows, w), map[], map[])
  }

  /** `word_to_kqr` is exactly `Records`: one record per word seen, holding
      the taxonomies and papers of that word's rows and the citations those
      rows add up to; the per-year paper sets and the impact numerators are
      never filled. */
  /** A record built from nothing holds exactly what the rows give it. */
  lemma FollowFromEmpty(s: Store, rows: seq<Membership>, w: string)
    requires Follow(EmptyKqr(), s, rows, w).word == w
    ensures Follow(EmptyKqr(), s, rows, w)
         == Kqr(w, KindsOf(rows, w), Contribution(s, rows, w), RowsTotal(s, rows, w), DoisOf(rows, w), map[], map[])
  {
    FollowCitations(EmptyKqr(), s, rows, w);
    FollowSets(EmptyKqr(), s, rows, w);
    AddMapsEmpty(Contribution(s, rows, w));
  }

  lemma AggregateRecordAt(s: Store, rows: seq<Membership>, w: string)
    requires w in Aggregate(map[], s, rows) && w in Records(s, rows)
    requires Aggregate(map[], s, rows)[w].word == w
    ensures Aggregate(map[], s, rows)[w] == Records(s, rows)[w]
  {
    AggregateLookup(map[], s, rows, w);
    assert Lookup(map[], w) == EmptyKqr();
    FollowFromEmpty(s, rows, w);
  }

  lemma MapsEqual<K, V>(a: map<K, V>, b: map<K, V>)
    requires a.Keys == b.Keys
    requires forall k :: k in a ==> a[k] == b[k]
    ensures a == b
  {
  }

  lemma AggregateIsRecords(s: Store, rows: seq<Membership>)
    ensures Aggregate(map[], s, rows) == Records(s, rows)
  {
    var a, r := Aggregate(map[], s, rows), Records(s, rows);
    AggregateKeys(map[], s, rows);
    forall w | w in a
      ensures a[w] == r[w]
    {
      AggregateRecordAt(s, rows, w);
    }
    MapsEqual(a, r);
  }

  // ----- order independence -----

  lemma AppendTail<T>(a: seq<T>, b: seq<T>)
    requires a != []
    ensures (a + b)[0] == a[0] && (a + b)[1..] == a[1..] + b
  {
  }

  lemma ContributionAppendStep(s: Store, a: seq<Membership>, b: seq<Membership>, w: string)
    requires a != []
    requires Contribution(s, a[1..] + b, w) == AddMaps(Contribution(s, a[1..], w), Contribution(s, b, w))
    ensures Contribution(s, a + b, w) == AddMaps(Contribution(s, a, w), Contribution(s, b, w))
  {
    AppendTail(a, b);
    AddMapsAssociates(Here(s, a[0], w), Contribution(s, a[1..], w), Contribution(s, b, w));
  }

  /** The contribution of two lists of rows is the sum of theirs. */
  lemma {:induction false} ContributionAppend(s: Store, a: seq<Membership>, b: seq<Membership>, w: string)
    ensures Contribution(s, a + b, w) == AddMaps(Contribution(s, a, w), Contribution(s, b, w))
    decreases |a|
  {
    if a == [] {
      assert a + b == b;
      AddMapsEmpty(Contribution(s, b, w));
    } else {
      ContributionAppend(s, a[1..], b, w);
      ContributionAppendStep(s, a, b, w);
    }
  }

  lemma {:induction false} RowsTotalAppend(s: Store, a: seq<Membership>, b: seq<Membership>, w: string)
    ensures RowsTotal(s, a + b, w) == RowsTotal(s, a, w) + RowsTotal(s, b, w)
    decreases |a|
  {
    if a == [] {
      assert a + b == b;
    } else {
      var m, rest := a[0], a[1..];
      RowsTotalAppend(s, rest, b, w);
      assert (a + b)[0] == m && (a + b)[1..] == rest + b;
    }
  }

  /** An element of a list, with what comes before and after it. */
  lemma PickOut<T>(b: seq<T>, x: T) returns (front: seq<T>, back: seq<T>)
    requires x in multiset(b)
    ensures b == front + [x] + back
  {
    var i :| 0 <= i < |b| && b[i] == x;
    front, back := b[..i], b[i + 1..];
    assert b == b[..i] + [b[i]] + b[i + 1..];
  }

  lemma ContributionSingle(s: Store, x: Membership, w: string)
    ensures Contribution(s, [x], w) == Here(s, x, w)
  {
    assert [x][1..] == [];
    AddMapsEmpty(Here(s, x, w));
  }

  lemma ContributionAround(s: Store, front: seq<Membership>, x: Membership, back: seq<Membership>, w: string)
    ensures Contribution(s, front + [x] + back, w)
        == AddMaps(AddMaps(Contribution(s, front, w), Here(s, x, w)), Contribution(s, back, w))
  {
    ContributionAppend(s, front + [x], back, w);
    ContributionAppend(s, front, [x], w);
    ContributionSingle(s, x, w);
  }

  /** Taking the same element out of two permutations of each other. */
  lemma MultisetCancel<T>(a: seq<T>, b: seq<T>, x: T, rest: seq<T>, front: seq<T>, back: seq<T>)
    requires a == [x] + rest && b == front + [x] + back
    requires multiset(a) == multiset(b)
    ensures multiset(rest) == multiset(front + back)
  {
    assert multiset(a) == multiset{x} + multiset(rest);
    assert multiset(b) == multiset(front) + multiset{x} + multiset(back);
    assert multiset(front + back) == multiset(front) + multiset(back);
    forall y
      ensures multiset(rest)[y] == multiset(front + back)[y]
    {
      assert multiset(a)[y] == multiset(b)[y];
    }
  }

  lemma ContributionPermuteStep(s: Store, x: Membership, rest: seq<Membership>, front: seq<Membership>, back: seq<Membership>, w: string)
    requires Contribution(s, rest, w) == Contribution(s, front + back, w)
    ensures Contribution(s, [x] + rest, w) == Contribution(s, front + [x] + back, w)
  {
    var cf, cx, cb := Contribution(s, front, w), Here(s, x, w), Contribution(s, back, w);
    ContributionCons(s, x, rest, w);
    ContributionAppend(s, front, back, w);
    ContributionAround(s, front, x, back, w);
    AddMapsSwap(cf, cx, cb);
  }

  lemma {:induction false} ContributionPermutation(s: Store, a: seq<Membership>, b: seq<Membership>, w: string)
    requires multiset(a) == multiset(b)
    ensures Contribution(s, a, w) == Contribution(s, b, w)
    decreases |a|
  {
    if a == [] {
      assert |b| == |multiset(b)| == 0;
    } else {
      var x, rest := a[0], a[1..];
      assert a == [x] + rest;
      assert x in multiset(b);
      var front, back := PickOut(b, x);
      MultisetCancel(a, b, x, rest, front, back);
      ContributionPermutation(s, rest, front + back, w);
      ContributionPermuteStep(s, x, rest, front, back, w);
    }
  }

  lemma RowsTotalPermuteStep(s: Store, x: Membership, rest: seq<Membership>, front: seq<Membership>, back: seq<Membership>, w: string)
    requires RowsTotal(s, rest, w) == RowsTotal(s, front + back, w)
    ensures RowsTotal(s, [x] + rest, w) == RowsTotal(s, front + [x] + back, w)
  {
    RowsTotalCons(s, x, rest, w);
    RowsTotalAppend(s, front, back, w);
    RowsTotalAppend(s, front + [x], back, w);
    RowsTotalAppend(s, front, [x], w);
    RowsTotalCons(s, x, [], w);
  }

  lemma {:induction false} RowsTotalPermutation(s: Store, a: seq<Membership>, b: seq<Membership>, w: string)
    requires multiset(a) == multiset(b)
    ensures RowsTotal(s, a, w) == RowsTotal(s, b, w)
    decreases |a|
  {
    if a == [] {
      assert |b| == |multiset(b)| == 0;
    } else {
      var x, rest := a[0], a[1..];
      assert a == [x] + rest;
      assert x in multiset(b);
      var front, back := PickOut(b, x);
      MultisetCancel(a, b, x, rest, front, back);
      RowsTotalPermutation(s, rest, front + back, w);
      RowsTotalPermuteStep(s, x, rest, front, back, w);
    }
  }

  /** The same rows in another order give the same records. */
  lemma RecordsPermutation(s: Store, a: seq<Membership>, b: seq<Membership>)
    requires multiset(a) == multiset(b)
    ensures Records(s, a) == Records(s, b)
  {
    assert forall i :: 0 <= i < |a| ==> a[i] in multiset(b);
    assert forall j :: 0 <= j < |b| ==> b[j] in multiset(a);
    assert WordsOf(a) == WordsOf(b);
    forall w | w in WordsOf(a)
      ensures Records(s, a)[w] == Records(s, b)[w]
    {
      assert KindsOf(a, w) == KindsOf(b, w);
      assert DoisOf(a, w) == DoisOf(b, w);
      ContributionPermutation(s, a, b, w);
      RowsTotalPermutation(s, a, b, w);
    }
  }

  /** The fold gives the same map for any order of the same rows. */
  lemma AggregatePermutation(s: Store, a: seq<Membership>, b: seq<Membership>)
    requires multiset(a) == multiset(b)
    ensures Aggregate(map[], s, a) == Aggregate(map[], s, b)
  {
    AggregateIsRecords(s, a);
    AggregateIsRecords(s, b);
    RecordsPermutation(s, a, b);
  }

  /** Running the three passes in any order gives the same records. */
  lemma PassOrderIrrelevant(s: Store, sc: Scans)
    ensures var ak, it, sa := Tag(AuthorKeyword, sc.authorKeywords), Tag(IndexTerm, sc.indexTerms), Tag(SubjectArea, sc.areas);
      && WordToKqr(s, sc) == Aggregate(map[], s, it + ak + sa)
      && WordToKqr(s, sc) == Aggregate(map[], s, sa + it + ak)
      && WordToKqr(s, sc) == Aggregate(map[], s, it + sa + ak)
  {
    var ak, it, sa := Tag(AuthorKeyword, sc.authorKeywords), Tag(IndexTerm, sc.indexTerms), Tag(SubjectArea, sc.areas);
    assert multiset(ak + it + sa) == multiset(it + ak + sa);
    assert multiset(ak + it + sa) == multiset(sa + it + ak);
    assert multiset(ak + it + sa) == multiset(it + sa + ak);
    AggregatePermutation(s, ak + it + sa, it + ak + sa);
    AggregatePermutation(s, ak + it + sa, sa + it + ak);
    AggregatePermutation(s, ak + it + sa, it + sa + ak);
  }

  /** Any order in which SQLite returns the rows of each table gives the
      same records. */
  lemma ScanOrderIrrelevant(s: Store, sc: Scans, sc': Scans)
    requires ScansOf(sc, s) && ScansOf(sc', s)
    ensures WordToKqr(s, sc) == WordToKqr(s, sc')
  {
    EnumerationsPermute(sc.authorKeywords, sc'.authorKeywords, s.authorKeywords);
    EnumerationsPermute(sc.indexTerms, sc'.indexTerms, s.indexTerms);
    EnumerationsPermute(sc.areas, sc'.areas, s.areas);
    TagMultiset(AuthorKeyword, sc.authorKeywords, sc'.authorKeywords);
    TagMultiset(IndexTerm, sc.indexTerms, sc'.indexTerms);
    TagMultiset(SubjectArea, sc.areas, sc'.areas);
    AggregatePermutation(s, Passes(sc), Passes(sc'));
  }

  lemma EnumerationsPermute<T>(a: seq<T>, b: seq<T>, table: set<T>)
    requires Enumerates(a, table) && Enumerates(b, table)
    ensures multiset(a) == multiset(b)
  {
    DistinctMultiset(a);
    DistinctMultiset(b);
    assert multiset(a) == multiset(table) by {
      forall x
        ensures multiset(a)[x] == multiset(table)[x]
      {
        if x in table {
          assert x in a;
        }
      }
    }
    assert multiset(b) == multiset(table) by {
      forall x
        ensures multiset(b)[x] == multiset(table)[x]
      {
        if x in table {
          assert x in b;
        }
      }
    }
  }

  /** In a list without repeats every element occurs once. */
  lemma {:induction false} DistinctMultiset<T>(a: seq<T>)
    requires Distinct(a)
    ensures forall x :: multiset(a)[x] <= 1
    decreases |a|
  {
    if a != [] {
      var rest := a[1..];
      assert a == [a[0]] + rest;
      assert Distinct(rest) by {
        forall i, j | 0 <= i < j < |rest|
          ensures rest[i] != rest[j]
        {
          assert rest[i] == a[i + 1] && rest[j] == a[j + 1];
        }
      }
      DistinctMultiset(rest);
      assert a[0] !in rest by {
        forall j | 0 <= j < |rest|
          ensures rest[j] != a[0]
        {
          assert rest[j] == a[j + 1];
        }
      }
    }
  }

  lemma TagAppend(kind: KeywordType, a: seq<(string, string)>, b: seq<(string, string)>)
    ensures Tag(kind, a + b) == Tag(kind, a) + Tag(kind, b)
  {
  }

  lemma TagMultisetStep(kind: KeywordType, x: (string, string), rest: seq<(string, string)>, front: seq<(string, string)>, back: seq<(string, string)>)
    requires multiset(Tag(kind, rest)) == multiset(Tag(kind, front + back))
    ensures multiset(Tag(kind, [x] + rest)) == multiset(Tag(kind, front + [x] + back))
  {
    TagAppend(kind, [x], rest);
    TagAppend(kind, front, back);
    TagAppend(kind, front + [x], back);
    TagAppend(kind, front, [x]);
  }

  /** Tagging keeps permutations permutations. */
  lemma {:induction false} TagMultiset(kind: KeywordType, a: seq<(string, string)>, b: seq<(string, string)>)
    requires multiset(a) == multiset(b)
    ensures multiset(Tag(kind, a)) == multiset(Tag(kind, b))
    decreases |a|
  {
    if a == [] {
      assert |b| == |multiset(b)| == 0;
    } else {
      var x, rest := a[0], a[1..];
      assert a == [x] + rest;
      assert x in multiset(b);
      var front, back := PickOut(b, x);
      MultisetCancel(a, b, x, rest, front, back);
      TagMultiset(kind, rest, front + back);
      TagMultisetStep(kind, x, rest, front, back);
    }
  }

  // ----- the records in terms of the store -----

  /** A membership row that the store holds. */
  predicate InStore(s: Store, m: Membership)
  {
    (m.word, m.doi) in Table(s, m.kind)
  }

  /** The labels of all three membership tables. */
  function Labels(s: Store): set<string>
  {
    (set p | p in s.authorKeywords :: p.0) + (set p | p in s.indexTerms :: p.0) + (set p | p in s.areas :: p.0)
  }

  lemma TagMember(kind: KeywordType, rows: seq<(string, string)>, m: Membership)
    ensures m in Tag(kind, rows) <==> m.kind == kind && (m.word, m.doi) in rows
  {
    var t := Tag(kind, rows);
    if m.kind == kind && (m.word, m.doi) in rows {
      var i :| 0 <= i < |rows| && rows[i] == (m.word, m.doi);
      assert t[i] == m;
    }
  }

  /** The three passes visit exactly the store's membership rows. */
  lemma PassesAreStoreRows(s: Store, sc: Scans, m: Membership)
    requires ScansOf(sc, s)
    ensures m in Passes(sc) <==> InStore(s, m)
  {
    TagMember(AuthorKeyword, sc.authorKeywords, m);
    TagMember(IndexTerm, sc.indexTerms, m);
    TagMember(SubjectArea, sc.areas, m);
  }

  lemma LabelOfRow(s: Store, m: Membership)
    requires InStore(s, m)
    ensures m.word in Labels(s)
  {
    var p := (m.word, m.doi);
    match m.kind
    case AuthorKeyword => assert p.0 in (set p | p in s.authorKeywords :: p.0);
    case IndexTerm => assert p.0 in (set p | p in s.indexTerms :: p.0);
    case SubjectArea => assert p.0 in (set p | p in s.areas :: p.0);
  }

  lemma RowOfLabel(s: Store, w: string) returns (m: Membership)
    requires w in Labels(s)
    ensures InStore(s, m) && m.word == w
  {
    if w in (set p | p in s.authorKeywords :: p.0) {
      var p :| p in s.authorKeywords && p.0 == w;
      m := Membership(AuthorKeyword, p.0, p.1);
    } else if w in (set p | p in s.indexTerms :: p.0) {
      var p :| p in s.indexTerms && p.0 == w;
      m := Membership(IndexTerm, p.0, p.1);
    } else {
      var p :| p in s.areas && p.0 == w;
      m := Membership(SubjectArea, p.0, p.1);
    }
  }

  lemma WordIsLabel(s: Store, sc: Scans, w: string)
    requires ScansOf(sc, s) && w in WordsOf(Passes(sc))
    ensures w in Labels(s)
  {
    var rows := Passes(sc);
    var i :| 0 <= i < |rows| && rows[i].word == w;
    PassesAreStoreRows(s, sc, rows[i]);
    LabelOfRow(s, rows[i]);
  }

  lemma LabelIsWord(s: Store, sc: Scans, w: string)
    requires ScansOf(sc, s) && w in Labels(s)
    ensures w in WordsOf(Passes(sc))
  {
    var rows := Passes(sc);
    var m := RowOfLabel(s, w);
    PassesAreStoreRows(s, sc, m);
    var i :| 0 <= i < |rows| && rows[i] == m;
  }

  /** There is one record per label of the store, under that label. */
  lemma WordToKqrKeys(s: Store, sc: Scans)
    requires ScansOf(sc, s)
    ensures WordToKqr(s, sc).Keys == Labels(s)
    ensures WordsAreKeys(WordToKqr(s, sc))
  {
    WordToKqrWords(s, sc);
    PassWordsAreLabels(s, sc);
  }

  lemma WordToKqrWords(s: Store, sc: Scans)
    ensures WordToKqr(s, sc).Keys == WordsOf(Passes(sc))
    ensures WordsAreKeys(WordToKqr(s, sc))
  {
    AggregateKeys(map[], s, Passes(sc));
  }

  lemma PassWordsAreLabels(s: Store, sc: Scans)
    requires ScansOf(sc, s)
    ensures WordsOf(Passes(sc)) == Labels(s)
  {
    forall w | w in WordsOf(Passes(sc))
      ensures w in Labels(s)
    {
      WordIsLabel(s, sc, w);
    }
    forall w | w in Labels(s)
      ensures w in WordsOf(Passes(sc))
    {
      LabelIsWord(s, sc, w);
    }
  }

  /** A record lists taxonomy `T` exactly when some paper carries its label
      in `T`'s table. */
  lemma WordToKqrTypes(s: Store, sc: Scans, w: string, kind: KeywordType)
    requires ScansOf(sc, s) && w in WordToKqr(s, sc)
    ensures kind in WordToKqr(s, sc)[w].types <==> exists doi :: (w, doi) in Table(s, kind)
  {
    var rows := Passes(sc);
    AggregateIsRecords(s, rows);
    if kind in KindsOf(rows, w) {
      var i :| 0 <= i < |rows| && rows[i].word == w && rows[i].kind == kind;
      PassesAreStoreRows(s, sc, rows[i]);
    }
    if doi :| (w, doi) in Table(s, kind) {
      PassesAreStoreRows(s, sc, Membership(kind, w, doi));
      var i :| 0 <= i < |rows| && rows[i] == Membership(kind, w, doi);
    }
  }

  lemma PaperOfRow(s: Store, sc: Scans, w: string, doi: string)
    requires ScansOf(sc, s) && doi in DoisOf(Passes(sc), w)
    ensures exists kind :: (w, doi) in Table(s, kind)
  {
    var rows := Passes(sc);
    var i :| 0 <= i < |rows| && rows[i].word == w && rows[i].doi == doi;
    PassesAreStoreRows(s, sc, rows[i]);
  }

  lemma RowOfPaper(s: Store, sc: Scans, w: string, doi: string, kind: KeywordType)
    requires ScansOf(sc, s) && (w, doi) in Table(s, kind)
    ensures doi in DoisOf(Passes(sc), w)
  {
    var rows := Passes(sc);
    PassesAreStoreRows(s, sc, Membership(kind, w, doi));
    var i :| 0 <= i < |rows| && rows[i] == Membership(kind, w, doi);
  }

  /** A record's papers are the papers that carry its label in any table. */
  lemma WordToKqrPapers(s: Store, sc: Scans, w: string, doi: string)
    requires ScansOf(sc, s) && w in WordToKqr(s, sc)
    ensures doi in WordToKqr(s, sc)[w].papers <==> exists kind :: (w, doi) in Table(s, kind)
  {
    AggregateIsRecords(s, Passes(sc));
    if doi in DoisOf(Passes(sc), w) {
      PaperOfRow(s, sc, w, doi);
    }
    if kind :| (w, doi) in Table(s, kind) {
      RowOfPaper(s, sc, w, doi, kind);
    }
  }

  /** Every record's total is the sum of its per-year counts, the counts
      are the contribution of the rows carrying its label, and the per-year
      paper sets and impact numerators stay empty. */
  lemma WordToKqrCitations(s: Store, sc: Scans, w: string)
    requires w in WordToKqr(s, sc)
    ensures Consistent(WordToKqr(s, sc)[w])
    ensures WordToKqr(s, sc)[w].yearToCitations == Contribution(s, Passes(sc), w)
    ensures WordToKqr(s, sc)[w].totalCitations == RowsTotal(s, Passes(sc), w)
    ensures WordToKqr(s, sc)[w].yearToPapers == map[] && WordToKqr(s, sc)[w].impactNumerators == map[]
  {
    AggregateIsRecords(s, Passes(sc));
    AggregateConsistent(map[], s, Passes(sc));
  }

  // ----- getCitations -----

  /** The rows in the order `getCitations` visits them: index terms, then
      author keywords, then subject areas. */
  function CitationPasses(sc: Scans): seq<Membership>
  {
    Tag(IndexTerm, sc.indexTerms) + Tag(AuthorKeyword, sc.authorKeywords) + Tag(SubjectArea, sc.areas)
  }

  /** One row of `getCitations`: only rows of the keyword are selected, and
      the taxonomy is recorded from inside the citation loop, so a paper
      without citation rows leaves no trace. */
  function CiteStep(r: Kqr, s: Store, m: Membership, keyword: string): Kqr
  {
    if m.word != keyword then r
    else
      var cits := CitationsOf(s, m.doi);
      r.(yearToCitations := AddMaps(r.yearToCitations, cits),
         types := if cits == map[] then r.types else r.types + {m.kind})
  }

  function CiteFold(r: Kqr, s: Store, rows: seq<Membership>, keyword: string): Kqr
    decreases |rows|
  {
    if rows == [] then r else CiteFold(CiteStep(r, s, rows[0], keyword), s, rows[1..], keyword)
  }

  /** `getCitations`: the record for one keyword, and the warnings shown. */
  function GetCitations(s: Store, sc: Scans, keyword: string): (r: (Kqr, seq<string>))
    ensures r.0.word == "" && r.0.totalCitations == 0 && r.0.papers == {}
    ensures r.0.yearToPapers == map[] && r.0.impactNumerators == map[]
    ensures r.1 == (if r.0.yearToCitations == map[] then ["No citations found for keyword: " + keyword] else [])
  {
    var kqr := CiteFold(EmptyKqr(), s, CitationPasses(sc), keyword);
    CiteFoldKeeps(EmptyKqr(), s, CitationPasses(sc), keyword);
    (kqr, if kqr.yearToCitations == map[] then ["No citations found for keyword: " + keyword] else [])
  }

  lemma {:induction false} CiteFoldKeeps(r: Kqr, s: Store, rows: seq<Membership>, keyword: string)
    ensures var f := CiteFold(r, s, rows, keyword);
      f.word == r.word && f.totalCitations == r.totalCitations && f.papers == r.papers
      && f.yearToPapers == r.yearToPapers && f.impactNumerators == r.impactNumerators
    decreases |rows|
  {
    if rows != [] {
      CiteFoldKeeps(CiteStep(r, s, rows[0], keyword), s, rows[1..], keyword);
    }
  }

  /** The taxonomies of the rows carrying `w` whose paper has citation rows. */
  function CitedKindsOf(s: Store, rows: seq<Membership>, w: string): set<KeywordType>
  {
    set i | 0 <= i < |rows| && rows[i].word == w && CitationsOf(s, rows[i].doi) != map[] :: rows[i].kind
  }

  lemma CitedKindsOfCons(s: Store, rows: seq<Membership>, w: string)
    requires rows != []
    ensures CitedKindsOf(s, rows, w)
         == (if rows[0].word == w && CitationsOf(s, rows[0].doi) != map[] then {rows[0].kind} else {})
            + CitedKindsOf(s, rows[1..], w)
  {
    var rest := rows[1..];
    forall t | t in CitedKindsOf(s, rows, w)
      ensures t in (if rows[0].word == w && CitationsOf(s, rows[0].doi) != map[] then {rows[0].kind} else {})
            + CitedKindsOf(s, rest, w)
    {
      var i :| 0 <= i < |rows| && rows[i].word == w && CitationsOf(s, rows[i].doi) != map[] && rows[i].kind == t;
      if i > 0 {
        assert rest[i - 1] == rows[i];
      }
    }
    forall t | t in CitedKindsOf(s, rest, w)
      ensures t in CitedKindsOf(s, rows, w)
    {
      var i :| 0 <= i < |rest| && rest[i].word == w && CitationsOf(s, rest[i].doi) != map[] && rest[i].kind == t;
      assert rows[i + 1] == rest[i];
    }
  }

  lemma CiteStepEffect(r: Kqr, s: Store, m: Membership, w: string)
    ensures CiteStep(r, s, m, w).yearToCitations == AddMaps(r.yearToCitations, Here(s, m, w))
    ensures CiteStep(r, s, m, w).types
         == r.types + (if m.word == w && CitationsOf(s, m.doi) != map[] then {m.kind} else {})
  {
    AddMapsEmpty(r.yearToCitations);
  }

  lemma CiteCitationsStep(r: Kqr, s: Store, rows: seq<Membership>, w: string)
    requires rows != []
    requires var r' := CiteStep(r, s, rows[0], w);
      CiteFold(r', s, rows[1..], w).yearToCitations == AddMaps(r'.yearToCitations, Contribution(s, rows[1..], w))
    ensures CiteFold(r, s, rows, w).yearToCitations == AddMaps(r.yearToCitations, Contribution(s, rows, w))
  {
    CiteStepEffect(r, s, rows[0], w);
    AddMapsAssociates(r.yearToCitations, Here(s, rows[0], w), Contribution(s, rows[1..], w));
  }

  /** The per-year counts `getCitations` gathers are the contribution of the
      rows carrying the keyword. */
  lemma {:induction false} CiteFoldCitations(r: Kqr, s: Store, rows: seq<Membership>, w: string)
    ensures CiteFold(r, s, rows, w).yearToCitations == AddMaps(r.yearToCitations, Contribution(s, rows, w))
    decreases |rows|
  {
    if rows == [] {
      AddMapsEmpty(r.yearToCitations);
    } else {
      CiteFoldCitations(CiteStep(r, s, rows[0], w), s, rows[1..], w);
      CiteCitationsStep(r, s, rows, w);
    }
  }

  lemma CiteTypesStep(r: Kqr, s: Store, rows: seq<Membership>, w: string)
    requires rows != []
    requires var r' := CiteStep(r, s, rows[0], w);
      CiteFold(r', s, rows[1..], w).types == r'.types + CitedKindsOf(s, rows[1..], w)
    ensures CiteFold(r, s, rows, w).types == r.types + CitedKindsOf(s, rows, w)
  {
    CiteStepEffect(r, s, rows[0], w);
    CitedKindsOfCons(s, rows, w);
  }

  /** The taxonomies `getCitations` records are those of the rows carrying
      the keyword whose paper has citation rows. */
  lemma {:induction false} CiteFoldTypes(r: Kqr, s: Store, rows: seq<Membership>, w: string)
    ensures CiteFold(r, s, rows, w).types == r.types + CitedKindsOf(s, rows, w)
    decreases |rows|
  {
    if rows == [] {
      assert CitedKindsOf(s, rows, w) == {};
    } else {
      CiteFoldTypes(CiteStep(r, s, rows[0], w), s, rows[1..], w);
      CiteTypesStep(r, s, rows, w);
    }
  }

  /** `getCitations` and `queryAllKeywords` agree on the citations per year
      of a keyword, although they visit the tables in different orders. */
  lemma GetCitationsAgrees(s: Store, sc: Scans, w: string)
    requires w in WordToKqr(s, sc)
    ensures GetCitations(s, sc, w).0.yearToCitations == WordToKqr(s, sc)[w].yearToCitations
  {
    CiteFoldCitations(EmptyKqr(), s, CitationPasses(sc), w);
    AddMapsEmpty(Contribution(s, CitationPasses(sc), w));
    var ak, it, sa := Tag(AuthorKeyword, sc.authorKeywords), Tag(IndexTerm, sc.indexTerms), Tag(SubjectArea, sc.areas);
    assert multiset(it + ak + sa) == multiset(ak + it + sa);
    ContributionPermutation(s, it + ak + sa, ak + it + sa, w);
    WordToKqrCitations(s, sc, w);
  }

  /** `getCitations` lists taxonomy `T` exactly when some paper carrying the
      keyword in `T`'s table has citation rows. */
  lemma GetCitationsTypes(s: Store, sc: Scans, w: string, kind: KeywordType)
    requires ScansOf(sc, s)
    ensures kind in GetCitations(s, sc, w).0.types
        <==> exists doi :: (w, doi) in Table(s, kind) && CitationsOf(s, doi) != map[]
  {
    var rows := CitationPasses(sc);
    CiteFoldTypes(EmptyKqr(), s, rows, w);
    if kind in CitedKindsOf(s, rows, w) {
      var i :| 0 <= i < |rows| && rows[i].word == w && CitationsOf(s, rows[i].doi) != map[] && rows[i].kind == kind;
      CitationPassesAreStoreRows(s, sc, rows[i]);
    }
    if doi :| (w, doi) in Table(s, kind) && CitationsOf(s, doi) != map[] {
      CitationPassesAreStoreRows(s, sc, Membership(kind, w, doi));
      var i :| 0 <= i < |rows| && rows[i] == Membership(kind, w, doi);
    }
  }

  lemma CitationPassesAreStoreRows(s: Store, sc: Scans, m: Membership)
    requires ScansOf(sc, s)
    ensures m in CitationPasses(sc) <==> InStore(s, m)
  {
    TagMember(AuthorKeyword, sc.authorKeywords, m);
    TagMember(IndexTerm, sc.indexTerms, m);
    TagMember(SubjectArea, sc.areas, m);
  }
}

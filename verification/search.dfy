/** `filterKeywordsRegex` and `searchKeywords`: the keyword search behind
    the GUI's search box. */
module Search {
  import opened Keywords
  import opened Aggregator
  import opened PaperStore
  import opened Wrappers

  /** The records whose word satisfies `matches`, in their original order. */
  function Filter(kqrs: seq<Kqr>, matches: string -> bool): (r: seq<Kqr>)
    ensures |r| <= |kqrs|
    decreases |kqrs|
  {
    if kqrs == [] then []
    else if matches(kqrs[0].word) then [kqrs[0]] + Filter(kqrs[1..], matches)
    else Filter(kqrs[1..], matches)
  }

  /** Exactly the records that match are kept. */
  lemma {:induction false} FilterMembers(kqrs: seq<Kqr>, matches: string -> bool, x: Kqr)
    ensures x in Filter(kqrs, matches) <==> x in kqrs && matches(x.word)
    decreases |kqrs|
  {
    if kqrs != [] {
      FilterMembers(kqrs[1..], matches, x);
      assert x in kqrs <==> x == kqrs[0] || x in kqrs[1..] by {
        assert kqrs == [kqrs[0]] + kqrs[1..];
      }
    }
  }

  /** Filtering commutes with concatenation, so the relative order of the
      kept records is the original one. */
  lemma {:induction false} FilterAppend(a: seq<Kqr>, b: seq<Kqr>, matches: string -> bool)
    ensures Filter(a + b, matches) == Filter(a, matches) + Filter(b, matches)
    decreases |a|
  {
    if a == [] {
      assert a + b == b;
    } else {
      assert (a + b)[0] == a[0] && (a + b)[1..] == a[1..] + b;
      FilterAppend(a[1..], b, matches);
    }
  }

  /** A pattern every word matches keeps everything. */
  lemma {:induction false} FilterAll(kqrs: seq<Kqr>, matches: string -> bool)
    requires forall i :: 0 <= i < |kqrs| ==> matches(kqrs[i].word)
    ensures Filter(kqrs, matches) == kqrs
    decreases |kqrs|
  {
    if kqrs != [] {
      FilterAll(kqrs[1..], matches);
      assert kqrs == [kqrs[0]] + kqrs[1..];
    }
  }

  /** Filtering twice with the same pattern changes nothing the second time. */
  lemma FilterIdempotent(kqrs: seq<Kqr>, matches: string -> bool)
    ensures Filter(Filter(kqrs, matches), matches) == Filter(kqrs, matches)
  {
    var f := Filter(kqrs, matches);
    forall i | 0 <= i < |f|
      ensures matches(f[i].word)
    {
      FilterMembers(kqrs, matches, f[i]);
    }
    FilterAll(f, matches);
  }

  /** A search pattern: its text and, when `std::regex` accepts it, the
      `regex_search` predicate it compiles to. Regular-expression matching
      itself is not modelled. */
  datatype Pattern = Pattern(text: string, compiled: Option<string -> bool>)

  /** `filterKeywordsRegex`: the records whose word contains a match, and
      the warnings shown. */
  function FilterKeywordsRegex(pattern: Pattern, kqrs: seq<Kqr>): (r: (seq<Kqr>, seq<string>))
    ensures pattern.compiled.None? ==> r.0 == [] && r.1 == ["Invalid regex: " + pattern.text]
    ensures pattern.compiled.Some? ==> r.1 == []
    ensures pattern.compiled.Some? ==> forall x :: x in r.0 <==> x in kqrs && pattern.compiled.value(x.word)
    ensures pattern.compiled.Some? ==> r.0 == Filter(kqrs, pattern.compiled.value)
  {
    match pattern.compiled
    case None => ([], ["Invalid regex: " + pattern.text])
    case Some(matches) =>
      forall x ensures x in Filter(kqrs, matches) <==> x in kqrs && matches(x.word) {
        FilterMembers(kqrs, matches, x);
      }
      (Filter(kqrs, matches), [])
  }

  /** `searchKeywords`: the function-local `static` vector, filled from the
      store the first time it is found empty. `order` is the unspecified
      iteration order of `queryAllKeywords`'s hash map. */
  function SearchKeywords(cache: seq<Kqr>, s: Store, sc: Scans, order: seq<string>, pattern: Pattern)
    : (r: (seq<Kqr>, seq<Kqr>, seq<string>))
    requires cache == [] ==> Lists(order, WordToKqr(s, sc).Keys)
    ensures cache != [] ==> r.0 == cache
    ensures cache == [] ==> r.0 == QueryAllKeywords(s, sc, order)
    ensures (r.1, r.2) == FilterKeywordsRegex(pattern, r.0)
  {
    var all := if cache == [] then QueryAllKeywords(s, sc, order) else cache;
    var (found, warnings) := FilterKeywordsRegex(pattern, all);
    (all, found, warnings)
  }

  /** Once filled, the cache answers every later search: changes to the
      store are not seen until the program restarts. */
  lemma SearchIgnoresStoreOnceCached(cache: seq<Kqr>, s: Store, s': Store, sc: Scans, sc': Scans,
                                     order: seq<string>, order': seq<string>, pattern: Pattern)
    requires cache != []
    ensures SearchKeywords(cache, s, sc, order, pattern).1 == SearchKeywords(cache, s', sc', order', pattern).1
  {
  }

  /** A store without labels gives no records, so the cache stays empty
      and every search queries the store again. */
  lemma EmptyStoreNeverCaches(s: Store, sc: Scans, pattern: Pattern)
    requires ScansOf(sc, s) && Labels(s) == {}
    ensures WordToKqr(s, sc) == map[]
    ensures Lists([], WordToKqr(s, sc).Keys) && SearchKeywords([], s, sc, [], pattern).0 == []
  {
    WordToKqrKeys(s, sc);
  }

  /** A search on an empty cache returns the store's records whose words
      match. */
  lemma SearchFindsMatchingLabels(s: Store, sc: Scans, order: seq<string>, pattern: Pattern, x: Kqr)
    requires ScansOf(sc, s) && Lists(order, WordToKqr(s, sc).Keys)
    requires pattern.compiled.Some?
    ensures x in SearchKeywords([], s, sc, order, pattern).1
        <==> x.word in WordToKqr(s, sc) && x == WordToKqr(s, sc)[x.word] && pattern.compiled.value(x.word)
  {
    var all := QueryAllKeywords(s, sc, order);
    var m := WordToKqr(s, sc);
    WordToKqrKeys(s, sc);
    if x in all {
      var i :| 0 <= i < |all| && all[i] == x;
      assert m[order[i]].word == order[i];
    }
    if x.word in m && x == m[x.word] {
      var i :| 0 <= i < |order| && order[i] == x.word;
      assert all[i] == x;
    }
  }
}

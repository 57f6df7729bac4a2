/** `circus_fixMissing.py`: entries with a DOI are refreshed from Scopus,
    field by field, and the per-year citations are written in the text form
    the database layer parses. The Scopus lookups are a parameter. */
module FixMissing {
  import opened Wrappers
  import opened Text
  import opened DbUtils
  import opened Numerals
  import opened Payload
  import Normalizer

  // ----- clean -----

  /** The class `[a-zA-Z]`. */
  predicate IsLetter(c: char)
  {
    'a' <= c <= 'z' || 'A' <= c <= 'Z'
  }

  predicate AllLetters(s: string)
  {
    forall i :: 0 <= i < |s| ==> IsLetter(s[i])
  }

  /** `clean`: `re.sub(r"[^a-zA-Z]", "", s)`. */
  function Clean(s: string): string
    decreases |s|
  {
    if s == [] then ""
    else (if IsLetter(s[0]) then [s[0]] else []) + Clean(s[1..])
  }

  lemma {:induction false} CleanAppend(a: string, b: string)
    ensures Clean(a + b) == Clean(a) + Clean(b)
    decreases |a|
  {
    if a == [] {
      assert a + b == b;
    } else {
      var keep := if IsLetter(a[0]) then [a[0]] else [];
      assert (a + b)[0] == a[0] && (a + b)[1..] == a[1..] + b;
      assert Clean(a + b) == keep + Clean(a[1..] + b);
      CleanAppend(a[1..], b);
      assert Clean(a) == keep + Clean(a[1..]);
    }
  }

  /** `clean` leaves only letters and never lengthens its input. */
  lemma {:induction false} CleanLetters(s: string)
    ensures AllLetters(Clean(s)) && |Clean(s)| <= |s|
    decreases |s|
  {
    if s != [] {
      CleanLetters(s[1..]);
    }
  }

  /** `clean` keeps every letter as often as it occurs and nothing else. */
  lemma {:induction false} CleanCounts(s: string, c: char)
    ensures multiset(Clean(s))[c] == if IsLetter(c) then multiset(s)[c] else 0
    decreases |s|
  {
    if s != [] {
      CleanCounts(s[1..], c);
      assert s == [s[0]] + s[1..];
    }
  }

  /** A text is unchanged by `clean` exactly when it is all letters. */
  lemma {:induction false} CleanFixesLetters(s: string)
    ensures Clean(s) == s <==> AllLetters(s)
    decreases |s|
  {
    if s != [] {
      CleanFixesLetters(s[1..]);
      if !IsLetter(s[0]) {
        assert |Clean(s)| < |s| by {
          CleanLetters(s[1..]);
          assert Clean(s) == Clean(s[1..]);
        }
      } else if Clean(s) == s {
        assert Clean(s[1..]) == s[1..] by {
          assert Clean(s) == [s[0]] + Clean(s[1..]);
          assert s == [s[0]] + s[1..];
        }
      }
    }
  }

  lemma CleanIdempotent(s: string)
    ensures Clean(Clean(s)) == Clean(s)
  {
    CleanLetters(s);
    CleanFixesLetters(Clean(s));
  }

  // ----- the per-year citation text -----

  /** One `f"{year}: {count}"` item. */
  function CitationItem(c: Citation): string
  {
    IntToString(c.0) + ": " + IntToString(c.1)
  }

  function CitationItems(pyc: seq<Citation>): seq<string>
    decreases |pyc|
  {
    if pyc == [] then [] else [CitationItem(pyc[0])] + CitationItems(pyc[1..])
  }

  /** `per_year_citations`: every item followed by ", ", then the last two
      characters cut. */
  function PerYearText(pyc: seq<Citation>): string
  {
    DropLast(Terminated(CitationItems(pyc), ", "), 2)
  }

  /** The text is the items joined by ", ". */
  lemma PerYearTextJoins(pyc: seq<Citation>)
    ensures PerYearText(pyc) == Join(CitationItems(pyc), ", ")
  {
    DropTerminator(CitationItems(pyc), ", ");
  }

  /** A 32-bit pair. */
  predicate Fits(c: Citation)
  {
    IntMin <= c.0 <= IntMax && IntMin <= c.1 <= IntMax
  }

  /** `str(n)` writes only digits and a minus sign. */
  lemma IntToStringChars(n: int)
    ensures ',' !in IntToString(n) && ':' !in IntToString(n)
  {
    if n < 0 {
      assert IntToString(n) == "-" + NatToString(-n);
      assert AllDigits(NatToString(-n));
    } else {
      assert AllDigits(NatToString(n));
    }
  }

  /** One item, after any spaces, reads back as its pair. */
  lemma ParseItem(c: Citation, ws: string)
    requires Fits(c)
    requires forall i :: 0 <= i < |ws| ==> IsSpace(ws[i])
    ensures Normalizer.ParseCitation(ws + CitationItem(c)) == Success(c)
  {
    var year := IntToString(c.0);
    var count := " " + IntToString(c.1);
    IntToStringChars(c.0);
    IntToStringChars(c.1);
    assert ':' !in ws;
    assert ':' !in ws + year;
    assert ws + CitationItem(c) == (ws + year) + [':'] + count;
    SplitCut(ws + year, ':', count);
    assert ':' !in count;
    SplitLast(count, ':');
    StoiReadsIntToString(ws, c.0);
    StoiReadsIntToString(" ", c.1);
  }

  lemma ParseTokensCons(t: string, ts: seq<string>, pairs: seq<Citation>)
    requires pairs != []
    requires Normalizer.ParseCitation(t) == Success(pairs[0])
    requires Normalizer.ParseTokens(ts) == Success(pairs[1..])
    ensures Normalizer.ParseTokens([t] + ts) == Success(pairs)
  {
    var tokens := [t] + ts;
    assert tokens[0] == t;
    assert tokens[1..] == ts;
    assert Normalizer.ParseTokens(tokens) == Success([pairs[0]] + pairs[1..]);
    assert [pairs[0]] + pairs[1..] == pairs;
  }

  /** The first item, the comma of its separator, and the rest with the
      separator's space in front. */
  lemma JoinedItems(pyc: seq<Citation>, ws: string)
    requires |pyc| >= 2
    ensures ws + Join(CitationItems(pyc), ", ")
         == (ws + CitationItem(pyc[0])) + [','] + (" " + Join(CitationItems(pyc[1..]), ", "))
  {
    var item := CitationItem(pyc[0]);
    assert CitationItems(pyc) == [item] + CitationItems(pyc[1..]);
    assert CitationItems(pyc[1..]) != [];
    JoinCons(item, CitationItems(pyc[1..]), ", ");
    Regroup(ws, item, Join(CitationItems(pyc[1..]), ", "));
  }

  lemma Regroup(ws: string, item: string, tail: string)
    ensures ws + (item + ", " + tail) == (ws + item) + [','] + (" " + tail)
  {
    assert ", " == [','] + " ";
  }

  lemma NoCommaBefore(c: Citation, ws: string)
    requires forall i :: 0 <= i < |ws| ==> IsSpace(ws[i])
    ensures ',' !in ws + CitationItem(c)
  {
    IntToStringChars(c.0);
    IntToStringChars(c.1);
    assert ',' !in ws;
  }

  /** The items no longer start a token of their own: the parser sees each
      item after the first with the space of ", " in front. */
  lemma {:induction false} ParseJoined(pyc: seq<Citation>, ws: string)
    requires pyc != []
    requires forall i :: 0 <= i < |pyc| ==> Fits(pyc[i])
    requires forall i :: 0 <= i < |ws| ==> IsSpace(ws[i])
    ensures Normalizer.ParseTokens(Split(ws + Join(CitationItems(pyc), ", "), ',')) == Success(pyc)
    decreases |pyc|
  {
    if |pyc| == 1 {
      ParseOneItem(pyc, ws);
    } else {
      ParseJoined(pyc[1..], " ");
      ParseJoinedStep(pyc, ws);
    }
  }

  lemma ParseOneItem(pyc: seq<Citation>, ws: string)
    requires |pyc| == 1 && Fits(pyc[0])
    requires forall i :: 0 <= i < |ws| ==> IsSpace(ws[i])
    ensures Normalizer.ParseTokens(Split(ws + Join(CitationItems(pyc), ", "), ',')) == Success(pyc)
  {
    var item := CitationItem(pyc[0]);
    ParseItem(pyc[0], ws);
    NoCommaBefore(pyc[0], ws);
    assert CitationItems(pyc) == [item];
    assert Join(CitationItems(pyc), ", ") == item;
    SplitLast(ws + item, ',');
    assert pyc[1..] == [];
    ParseTokensCons(ws + item, [], pyc);
    assert [ws + item] + [] == [ws + item];
  }

  lemma ParseJoinedStep(pyc: seq<Citation>, ws: string)
    requires |pyc| >= 2 && Fits(pyc[0])
    requires forall i :: 0 <= i < |ws| ==> IsSpace(ws[i])
    requires Normalizer.ParseTokens(Split(" " + Join(CitationItems(pyc[1..]), ", "), ',')) == Success(pyc[1..])
    ensures Normalizer.ParseTokens(Split(ws + Join(CitationItems(pyc), ", "), ',')) == Success(pyc)
  {
    var item := CitationItem(pyc[0]);
    var tail := Join(CitationItems(pyc[1..]), ", ");
    ParseItem(pyc[0], ws);
    NoCommaBefore(pyc[0], ws);
    JoinedItems(pyc, ws);
    SplitCut(ws + item, ',', " " + tail);
    ParseTokensCons(ws + item, Split(" " + tail, ','), pyc);
  }

  /** What the script writes, `toDBPayload` reads back: the same pairs in the
      same order, for every year and count that fit an `int`. */
  lemma PerYearRoundTrip(pyc: seq<Citation>)
    requires forall i :: 0 <= i < |pyc| ==> Fits(pyc[i])
    ensures Normalizer.ParseCitations(PerYearText(pyc)) == Success(pyc)
  {
    PerYearTextJoins(pyc);
    if pyc != [] {
      ParseJoined(pyc, "");
      assert "" + PerYearText(pyc) == PerYearText(pyc);
    }
  }

  // ----- the fields of a fixed entry -----

  /** A BibTeX entry as bibtexparser holds it. */
  type Entry = map<string, string>

  /** An author as `AbstractRetrieval` names them; either part may be
      missing (`None`). */
  datatype Author = Author(surname: Option<string>, givenName: Option<string>)

  /** Both name parts are present, so the script can concatenate them. */
  predicate Named(a: Author)
  {
    a.surname.Some? && a.givenName.Some?
  }

  /** What `AbstractRetrieval` gives for one DOI, plus the per-year counts
      `CitationOverview` returns for 2019..2024, or `None` when that lookup
      raises. An absent top-level value and an empty one are written
      alike, so both are the empty string or list. */
  datatype Retrieved = Retrieved(
    doi: string,
    authors: seq<Author>,
    title: string,
    authKeywords: seq<string>,
    idxTerms: seq<string>,
    subjectAreas: seq<string>,
    perYear: Option<seq<Citation>>)

  /** Every author has both name parts. */
  predicate AllNamed(authors: seq<Author>)
    decreases |authors|
  {
    authors == [] || (Named(authors[0]) && AllNamed(authors[1..]))
  }

  /** A record the script can write without raising: every author has both
      name parts (otherwise `str + None` raises `TypeError`), and the
      per-year lookup returned. */
  predicate Writable(r: Retrieved)
  {
    AllNamed(r.authors) && r.perYear.Some?
  }

  /** `fields_to_fix`. */
  const FieldsToFix: set<string> :=
    {"doi", "author", "title", "author_keywords", "index_terms", "subject_areas", "per_year_citations"}

  function AuthorName(a: Author): string
    requires Named(a)
  {
    a.surname.value + ", " + a.givenName.value
  }

  function AuthorNames(authors: seq<Author>): seq<string>
    requires AllNamed(authors)
    decreases |authors|
  {
    if authors == [] then [] else [AuthorName(authors[0])] + AuthorNames(authors[1..])
  }

  /** The author field: each name followed by " and ", the last five
      characters cut. */
  function AuthorText(authors: seq<Author>): string
    requires AllNamed(authors)
  {
    DropLast(Terminated(AuthorNames(authors), " and "), 5)
  }

  /** The seven values written for a retrieved record; each field was
      reset to "" first, so an empty retrieved value leaves "". */
  datatype Written = Written(
    doi: string,
    author: string,
    title: string,
    authorKeywords: string,
    indexTerms: string,
    subjectAreas: string,
    perYearCitations: string)

  function WrittenOf(r: Retrieved): Written
    requires Writable(r)
  {
    Written(
      r.doi,
      if r.authors != [] then AuthorText(r.authors) else "",
      r.title,
      if r.authKeywords != [] then Join(r.authKeywords, ", ") else "",
      if r.idxTerms != [] then Join(r.idxTerms, ", ") else "",
      if r.subjectAreas != [] then Join(r.subjectAreas, ", ") else "",
      PerYearText(r.perYear.value))
  }

  /** The written values under their BibTeX field names. */
  function FixedFields(w: Written): (fields: Entry)
    ensures fields.Keys == FieldsToFix
  {
    map[
      "doi" := w.doi,
      "author" := w.author,
      "title" := w.title,
      "author_keywords" := w.authorKeywords,
      "index_terms" := w.indexTerms,
      "subject_areas" := w.subjectAreas,
      "per_year_citations" := w.perYearCitations]
  }

  /** The written values are the retrieved ones joined: names as
      "surname, given" joined by " and ", keyword lists joined by ", ", and
      per-year counts that parse back to the retrieved pairs. */
  lemma WrittenOfSpec(r: Retrieved)
    requires Writable(r)
    requires forall i :: 0 <= i < |r.perYear.value| ==> Fits(r.perYear.value[i])
    ensures WrittenOf(r).doi == r.doi && WrittenOf(r).title == r.title
    ensures WrittenOf(r).author == Join(AuthorNames(r.authors), " and ")
    ensures WrittenOf(r).authorKeywords == Join(r.authKeywords, ", ")
    ensures WrittenOf(r).indexTerms == Join(r.idxTerms, ", ")
    ensures WrittenOf(r).subjectAreas == Join(r.subjectAreas, ", ")
    ensures Normalizer.ParseCitations(WrittenOf(r).perYearCitations) == Success(r.perYear.value)
  {
    DropTerminator(AuthorNames(r.authors), " and ");
    PerYearRoundTrip(r.perYear.value);
  }

  /** Entries the loop skips: no `doi` field, or an empty one. */
  predicate LacksDoi(e: Entry)
  {
    "doi" !in e || e["doi"] == ""
  }

  /** How one entry fares. */
  datatype Fate = Ignored | Fixed(r: Retrieved) | ScopusError

  function FateOf(e: Entry, retrieve: Entry -> Option<Retrieved>): Fate
  {
    if LacksDoi(e) then Ignored
    else match retrieve(e)
      case Some(r) => Fixed(r)
      case None => ScopusError
  }

  /** The entry makes the script raise: it is fixed from a record that
      cannot be written. Nothing in the loop catches the exception, so the
      script ends before the output file is opened. */
  predicate Aborts(e: Entry, retrieve: Entry -> Option<Retrieved>)
  {
    var fate := FateOf(e, retrieve);
    fate.Fixed? && !Writable(fate.r)
  }

  /** A list in which every author is named has every author named. */
  lemma {:induction false} AllNamedAt(authors: seq<Author>, k: nat)
    requires AllNamed(authors) && k < |authors|
    ensures Named(authors[k])
    decreases k
  {
    if k > 0 {
      AllNamedAt(authors[1..], k - 1);
    }
  }

  /** A retrieved author without a surname or given name makes the script
      raise, and so does a per-year lookup that raises: either way the
      entry is fixed from a record that cannot be written. */
  lemma UnwritableAborts(e: Entry, retrieve: Entry -> Option<Retrieved>)
    requires !LacksDoi(e) && retrieve(e).Some?
    requires (exists k :: 0 <= k < |retrieve(e).value.authors| && !Named(retrieve(e).value.authors[k]))
          || retrieve(e).value.perYear.None?
    ensures Aborts(e, retrieve)
  {
    var r := retrieve(e).value;
    if r.perYear.Some? {
      var k :| 0 <= k < |r.authors| && !Named(r.authors[k]);
      if AllNamed(r.authors) {
        AllNamedAt(r.authors, k);
      }
    }
  }

  /** The entry as written back. */
  function Outcome(e: Entry, fate: Fate): Entry
    requires fate.Fixed? ==> Writable(fate.r)
  {
    match fate
    case Fixed(r) => e + FixedFields(WrittenOf(r))
    case _ => e
  }

  /** An ignored or failed entry is written back unchanged; a fixed one
      changes in the seven fields only. */
  lemma OutcomeSpec(e: Entry, fate: Fate)
    requires fate.Fixed? ==> Writable(fate.r)
    ensures !fate.Fixed? ==> Outcome(e, fate) == e
    ensures fate.Fixed? ==> Outcome(e, fate).Keys == e.Keys + FieldsToFix
    ensures fate.Fixed? ==> forall f :: f in e && f !in FieldsToFix ==> Outcome(e, fate)[f] == e[f]
    ensures fate.Fixed? ==> forall f :: f in FieldsToFix ==> Outcome(e, fate)[f] == FixedFields(WrittenOf(fate.r))[f]
  {
  }

  /** The three counters of the script. */
  datatype Counter = IgnoredEntries | EntriesFixed | ScopusErrors

  function CounterOf(f: Fate): Counter
  {
    match f
    case Ignored => IgnoredEntries
    case Fixed(_) => EntriesFixed
    case ScopusError => ScopusErrors
  }

  /** The number of entries a counter counts. */
  function CountFates(entries: seq<Entry>, retrieve: Entry -> Option<Retrieved>, kind: Counter): nat
    decreases |entries|
  {
    if entries == [] then 0
    else (if CounterOf(FateOf(entries[0], retrieve)) == kind then 1 else 0) + CountFates(entries[1..], retrieve, kind)
  }

  lemma {:induction false} CountFatesAppend(entries: seq<Entry>, e: Entry, retrieve: Entry -> Option<Retrieved>, kind: Counter)
    ensures CountFates(entries + [e], retrieve, kind)
         == CountFates(entries, retrieve, kind) + (if CounterOf(FateOf(e, retrieve)) == kind then 1 else 0)
    decreases |entries|
  {
    if entries == [] {
      assert [e][1..] == [];
    } else {
      assert (entries + [e])[1..] == entries[1..] + [e];
      CountFatesAppend(entries[1..], e, retrieve, kind);
    }
  }

  /** One more entry counted, by each of the three counters. */
  lemma CountStep(entries: seq<Entry>, i: nat, retrieve: Entry -> Option<Retrieved>)
    requires i < |entries|
    ensures var fate := FateOf(entries[i], retrieve);
      && CountFates(entries[..i + 1], retrieve, IgnoredEntries)
         == CountFates(entries[..i], retrieve, IgnoredEntries) + Tick(IgnoredEntries, fate)
      && CountFates(entries[..i + 1], retrieve, EntriesFixed)
         == CountFates(entries[..i], retrieve, EntriesFixed) + Tick(EntriesFixed, fate)
      && CountFates(entries[..i + 1], retrieve, ScopusErrors)
         == CountFates(entries[..i], retrieve, ScopusErrors) + Tick(ScopusErrors, fate)
  {
    assert entries[..i + 1] == entries[..i] + [entries[i]];
    CountFatesAppend(entries[..i], entries[i], retrieve, IgnoredEntries);
    CountFatesAppend(entries[..i], entries[i], retrieve, EntriesFixed);
    CountFatesAppend(entries[..i], entries[i], retrieve, ScopusErrors);
  }

  /** The three fates split every entry between them. */
  lemma {:induction false} FatesPartition(entries: seq<Entry>, retrieve: Entry -> Option<Retrieved>)
    ensures CountFates(entries, retrieve, IgnoredEntries) + CountFates(entries, retrieve, EntriesFixed)
          + CountFates(entries, retrieve, ScopusErrors) == |entries|
    decreases |entries|
  {
    if entries != [] {
      FatesPartition(entries[1..], retrieve);
    }
  }

  /** One entry as the loop writes it back, or `None` when it makes the
      script raise. */
  function WriteBack(e: Entry, retrieve: Entry -> Option<Retrieved>): (r: Option<Entry>)
    ensures r.None? <==> Aborts(e, retrieve)
    ensures r.Some? ==> r.value == Outcome(e, FateOf(e, retrieve))
  {
    match FateOf(e, retrieve)
    case Fixed(found) => if Writable(found) then Some(e + FixedFields(WrittenOf(found))) else None
    case _ => Some(e)
  }

  /** 1 when `kind` is the entry's counter, else 0. */
  function Tick(kind: Counter, fate: Fate): nat
  {
    if CounterOf(fate) == kind then 1 else 0
  }

  /** The body of the loop for one entry: the counter it bumps and the
      entry as written back, or `None` when the script raises on it. */
  method FixOne(e: Entry, retrieve: Entry -> Option<Retrieved>, fixed: nat, ignored: nat, scopusError: nat)
    returns (next: Option<Entry>, fixed': nat, ignored': nat, scopusError': nat)
    ensures next == WriteBack(e, retrieve)
    ensures next.Some? ==>
      var fate := FateOf(e, retrieve);
      && fixed' == fixed + Tick(EntriesFixed, fate)
      && ignored' == ignored + Tick(IgnoredEntries, fate)
      && scopusError' == scopusError + Tick(ScopusErrors, fate)
  {
    fixed', ignored', scopusError' := fixed, ignored, scopusError;
    if LacksDoi(e) {
      ignored' := ignored + 1;
      next := Some(e);
    } else {
      var found := retrieve(e);
      if found.None? {
        scopusError' := scopusError + 1;
        next := Some(e);
      } else if !Writable(found.value) {
        next := None;
      } else {
        fixed' := fixed + 1;
        next := Some(e + FixedFields(WrittenOf(found.value)));
      }
    }
  }

  /** The main loop of the script over the loaded entries: the entries
      written back and the three counters it reports, or no output at all
      when some entry makes the script raise. */
  method FixEntries(entries: seq<Entry>, retrieve: Entry -> Option<Retrieved>)
    returns (out: Option<seq<Entry>>, fixed: nat, ignored: nat, scopusError: nat)
    ensures out.None? <==> exists i :: 0 <= i < |entries| && Aborts(entries[i], retrieve)
    ensures out.Some? ==> |out.value| == |entries|
    ensures out.Some? ==>
      forall i :: 0 <= i < |entries| ==> out.value[i] == Outcome(entries[i], FateOf(entries[i], retrieve))
    ensures out.Some? ==> ignored == CountFates(entries, retrieve, IgnoredEntries)
    ensures out.Some? ==> fixed == CountFates(entries, retrieve, EntriesFixed)
    ensures out.Some? ==> scopusError == CountFates(entries, retrieve, ScopusErrors)
    ensures out.Some? ==> fixed + ignored + scopusError == |entries|
  {
    var written := [];
    fixed, ignored, scopusError := 0, 0, 0;
    var i := 0;
    while i < |entries|
      invariant 0 <= i <= |entries|
      invariant |written| == i
      invariant forall j :: 0 <= j < i ==> WriteBack(entries[j], retrieve) == Some(written[j])
      invariant ignored == CountFates(entries[..i], retrieve, IgnoredEntries)
      invariant fixed == CountFates(entries[..i], retrieve, EntriesFixed)
      invariant scopusError == CountFates(entries[..i], retrieve, ScopusErrors)
    {
      var next;
      next, fixed, ignored, scopusError := FixOne(entries[i], retrieve, fixed, ignored, scopusError);
      if next.None? {
        return None, fixed, ignored, scopusError;
      }
      CountStep(entries, i, retrieve);
      written := written + [next.value];
      i := i + 1;
    }
    assert entries[..i] == entries;
    FatesPartition(entries, retrieve);
    forall j | 0 <= j < |entries|
      ensures !Aborts(entries[j], retrieve)
      ensures written[j] == Outcome(entries[j], FateOf(entries[j], retrieve))
    {
      assert WriteBack(entries[j], retrieve) == Some(written[j]);
    }
    out := Some(written);
  }
}

/** The older header-only database layer: its `split` lower-cases every
    token and trims nothing, so its payloads keep the leading blank of
    `", "`-separated labels; its `insertPaper` also announces a commit. */
module LegacyDb {
  import opened Wrappers
  import opened DbUtils
  import opened Numerals
  import opened Payload
  import opened PaperStore
  import Normalizer

  predicate IsLetter(c: char) {
    'A' <= c <= 'Z' || 'a' <= c <= 'z'
  }

  /** Lower-cases every string of a list. */
  function LowerAll(ts: seq<string>): (r: seq<string>)
    ensures |r| == |ts|
    ensures forall k :: 0 <= k < |ts| ==> r[k] == ToLower(ts[k])
  {
    seq(|ts|, k requires 0 <= k < |ts| => ToLower(ts[k]))
  }

  /** This header's `split`: the `std::getline` loop, pushing every token
      lower-cased. */
  function SplitLower(s: string, d: char): (tokens: seq<string>)
    ensures s == [] <==> tokens == []
    decreases |s|
  {
    if s == [] then []
    else
      var i := FirstIndexOf(s, d);
      if i == |s| then [ToLower(s)] else [ToLower(s[..i])] + SplitLower(s[i + 1..], d)
  }

  lemma SplitLowerCut(head: string, d: char, rest: string)
    requires d !in head
    ensures SplitLower(head + [d] + rest, d) == [ToLower(head)] + SplitLower(rest, d)
  {
    var s := head + [d] + rest;
    FirstIndexOfCut(head, d, rest);
    assert s[..|head|] == head;
    assert s[|head| + 1..] == rest;
  }

  lemma LowerAllCons(head: string, tail: seq<string>)
    ensures LowerAll([head] + tail) == [ToLower(head)] + LowerAll(tail)
  {
    assert ([head] + tail)[1..] == tail;
  }

  /** Its tokens are those of the trimming-free `split`, lower-cased. */
  lemma {:induction false} SplitLowerIsLoweredSplit(s: string, d: char)
    ensures SplitLower(s, d) == LowerAll(Split(s, d))
    decreases |s|
  {
    if d in s {
      var head, rest := Cut(s, d);
      SplitCut(head, d, rest);
      SplitLowerCut(head, d, rest);
      SplitLowerIsLoweredSplit(rest, d);
      LowerAllCons(head, Split(rest, d));
    } else if s != [] {
      SplitLast(s, d);
      assert LowerAll([s]) == [ToLower(s)];
    }
  }

  /** Lower-casing neither creates nor removes a character that is not a
      letter. */
  lemma LowerKeepsNonLetter(t: string, d: char)
    requires !IsLetter(d)
    ensures d in ToLower(t) <==> d in t
  {
    if d in ToLower(t) {
      var j :| 0 <= j < |t| && ToLower(t)[j] == d;
      assert t[j] == d;
    }
    if d in t {
      var j :| 0 <= j < |t| && t[j] == d;
      assert ToLower(t)[j] == d;
    }
  }

  /** Every token is lower-case, and none holds a delimiter that is not a
      letter. */
  lemma SplitLowerTokens(s: string, d: char)
    requires !IsLetter(d)
    ensures forall k :: 0 <= k < |SplitLower(s, d)| ==> NoUpper(SplitLower(s, d)[k])
    ensures forall k :: 0 <= k < |SplitLower(s, d)| ==> d !in SplitLower(s, d)[k]
  {
    SplitLowerIsLoweredSplit(s, d);
    SplitNoDelimiter(s, d);
    forall k | 0 <= k < |SplitLower(s, d)|
      ensures NoUpper(SplitLower(s, d)[k]) && d !in SplitLower(s, d)[k]
    {
      var t := Split(s, d)[k];
      ToLowerNoUpper(t);
      LowerKeepsNonLetter(t, d);
    }
  }

  /** Unlike the normalising split, a label keeps its leading blank. */
  lemma LeadingBlankKept()
    ensures SplitLower("ML, AI", ',') == ["ml", " ai"]
  {
    SampleCut();
    SplitLowerCut("ML", ',', " AI");
    SplitLowerLast(" AI", ',');
    SampleLowered();
  }

  /** The normalising split drops that blank. */
  lemma LeadingBlankDropped()
    ensures SplitFix("ML, AI", ',') == ["ml", "ai"]
  {
    SampleCut();
    SplitFixCut("ML", ',', " AI");
    SplitFixLast(" AI", ',');
    SampleNormalized();
  }

  lemma SampleNormalized()
    ensures NormalizeLabel("ML") == "ml" && NormalizeLabel(" AI") == "ai"
  {
    SampleLowered();
    assert LeadingSpaces("ml") == 0;
    assert LeadingSpaces(" ai") == 1;
  }

  lemma SplitFixLast(s: string, d: char)
    requires s != [] && d !in s
    ensures SplitFix(s, d) == [NormalizeLabel(s)]
  {
  }

  lemma SampleCut()
    ensures "ML, AI" == "ML" + [','] + " AI" && ',' !in "ML" && ',' !in " AI"
  {
  }

  lemma SampleLowered()
    ensures ToLower("ML") == "ml" && ToLower(" AI") == " ai"
  {
  }

  lemma SplitLowerLast(s: string, d: char)
    requires s != [] && d !in s
    ensures SplitLower(s, d) == [ToLower(s)]
  {
  }

  /** Lower-casing keeps the cut at a delimiter that is not a letter. */
  lemma LoweredCut(head: string, d: char, rest: string)
    requires !IsLetter(d) && d !in head
    ensures ToLower(head + [d] + rest) == ToLower(head) + [d] + ToLower(rest)
    ensures d !in ToLower(head)
  {
    ToLowerAppend(head + [d], rest);
    ToLowerAppend(head, [d]);
    LowerKeepsNonLetter(head, d);
  }

  /** For a delimiter that is not a letter, splitting commutes with
      lower-casing. */
  lemma {:induction false} SplitOfLowered(s: string, d: char)
    requires !IsLetter(d)
    ensures Split(ToLower(s), d) == LowerAll(Split(s, d))
    decreases |s|
  {
    if d in s {
      var head, rest := Cut(s, d);
      SplitOfLowered(rest, d);
      SplitOfLoweredCut(head, d, rest);
    } else if s != [] {
      LowerKeepsNonLetter(s, d);
      SplitLast(s, d);
      SplitLast(ToLower(s), d);
      assert LowerAll([s]) == [ToLower(s)];
    }
  }

  lemma SplitOfLoweredCut(head: string, d: char, rest: string)
    requires !IsLetter(d) && d !in head
    requires Split(ToLower(rest), d) == LowerAll(Split(rest, d))
    ensures Split(ToLower(head + [d] + rest), d) == LowerAll(Split(head + [d] + rest, d))
  {
    SplitCut(head, d, rest);
    LoweredCut(head, d, rest);
    SplitCut(ToLower(head), d, ToLower(rest));
    LowerAllCons(head, Split(rest, d));
  }

  /** A `year:count` token read with the lower-casing split. */
  function ParseCitation(token: string): Result<Citation, Normalizer.ParseError>
  {
    Normalizer.ReadPair(SplitLower(token, ':'), token)
  }

  lemma StoiLoweredTwice(p: string)
    ensures Stoi(ToLower(ToLower(p))) == Stoi(p)
  {
    ToLowerIdempotent(p);
    StoiIgnoresCase(p);
  }

  /** The lower-cased token parses exactly like the original one. */
  lemma ParseCitationLowered(token: string)
    ensures ParseCitation(ToLower(token)).Success? == Normalizer.ParseCitation(token).Success?
    ensures ParseCitation(ToLower(token)).Success? ==>
      ParseCitation(ToLower(token)).value == Normalizer.ParseCitation(token).value
  {
    var parts := Split(token, ':');
    var lowered := SplitLower(ToLower(token), ':');
    assert lowered == LowerAll(LowerAll(parts)) by {
      SplitLowerIsLoweredSplit(ToLower(token), ':');
      SplitOfLowered(token, ':');
    }
    if |parts| >= 2 {
      StoiLoweredTwice(parts[0]);
      StoiLoweredTwice(parts[1]);
    }
    Normalizer.ReadPairAgree(lowered, parts, ToLower(token), token);
  }

  function ParseTokens(tokens: seq<string>): Result<seq<Citation>, Normalizer.ParseError>
  {
    if tokens == [] then Success([])
    else
      var head :- ParseCitation(tokens[0]);
      var tail :- ParseTokens(tokens[1..]);
      Success([head] + tail)
  }

  lemma {:induction false} ParseTokensLowered(tokens: seq<string>)
    ensures ParseTokens(LowerAll(tokens)).Success? == Normalizer.ParseTokens(tokens).Success?
    ensures ParseTokens(LowerAll(tokens)).Success? ==>
      ParseTokens(LowerAll(tokens)).value == Normalizer.ParseTokens(tokens).value
    decreases |tokens|
  {
    if tokens != [] {
      ParseCitationLowered(tokens[0]);
      assert LowerAll(tokens)[1..] == LowerAll(tokens[1..]);
      ParseTokensLowered(tokens[1..]);
    }
  }

  /** The labels of a comma-separated keyword field, lower-cased but not
      trimmed, or none when absent. */
  function LabelsOf(entry: Normalizer.BibEntry, field: string): (r: seq<string>)
    requires Normalizer.Readable(entry) && field in Normalizer.ReadFields
    ensures field in entry ==> r == SplitLower(entry[field][0], ',')
    ensures field !in entry ==> r == []
  {
    if field in entry then SplitLower(entry[field][0], ',') else []
  }

  /** This header's `toDBPayload`: the same fields, with labels from the
      lower-casing split. */
  function ToDBPayload(entry: Normalizer.BibEntry): (r: Result<DBPayload, Normalizer.ParseError>)
    requires Normalizer.Readable(entry)
    ensures r.Success? ==> r.value.totalCitations == SumCounts(r.value.citations) && r.value.year == 0
    ensures r.Success? ==>
      && r.value.indexTerms == LabelsOf(entry, "index_terms")
      && r.value.authorKeywords == LabelsOf(entry, "author_keywords")
      && r.value.areas == LabelsOf(entry, "subject_areas")
  {
    var citations :- if "per_year_citations" in entry
      then ParseTokens(SplitLower(entry["per_year_citations"][0], ','))
      else Success([]);
    Success(DBPayload(
      doi := Normalizer.FieldOr(entry, "doi"),
      title := Normalizer.FieldOr(entry, "title"),
      year := 0,
      authorsList := Normalizer.FieldOr(entry, "author"),
      totalCitations := SumCounts(citations),
      citations := citations,
      indexTerms := LabelsOf(entry, "index_terms"),
      authorKeywords := LabelsOf(entry, "author_keywords"),
      areas := LabelsOf(entry, "subject_areas")))
  }

  /** Removing leading whitespace from every label of a lower-casing split
      gives the normalising split. */
  lemma TrimmedLabels(s: string)
    ensures |SplitFix(s, ',')| == |SplitLower(s, ',')|
    ensures forall k :: 0 <= k < |SplitLower(s, ',')| ==> SplitFix(s, ',')[k] == RemoveLeading(SplitLower(s, ',')[k])
  {
    SplitFixIsNormalizedSplit(s, ',');
    SplitLowerIsLoweredSplit(s, ',');
  }

  /** Both headers accept the same entries and read the same citations and
      total; their labels differ only by the leading whitespace that only
      the newer one removes. */
  lemma SameCitationsAsNormalizer(entry: Normalizer.BibEntry)
    requires Normalizer.Readable(entry)
    ensures ToDBPayload(entry).Success? == Normalizer.ToDBPayload(entry).Success?
    ensures ToDBPayload(entry).Success? ==>
      var old_, new_ := ToDBPayload(entry).value, Normalizer.ToDBPayload(entry).value;
      && old_.citations == new_.citations
      && old_.totalCitations == new_.totalCitations
      && old_.doi == new_.doi && old_.title == new_.title && old_.authorsList == new_.authorsList
      && |old_.indexTerms| == |new_.indexTerms|
      && (forall k :: 0 <= k < |old_.indexTerms| ==> new_.indexTerms[k] == RemoveLeading(old_.indexTerms[k]))
      && |old_.authorKeywords| == |new_.authorKeywords|
      && (forall k :: 0 <= k < |old_.authorKeywords| ==> new_.authorKeywords[k] == RemoveLeading(old_.authorKeywords[k]))
      && |old_.areas| == |new_.areas|
      && (forall k :: 0 <= k < |old_.areas| ==> new_.areas[k] == RemoveLeading(old_.areas[k]))
  {
    if "per_year_citations" in entry {
      var text := entry["per_year_citations"][0];
      SplitLowerIsLoweredSplit(text, ',');
      ParseTokensLowered(Split(text, ','));
    }
    if "index_terms" in entry {
      TrimmedLabels(entry["index_terms"][0]);
    }
    if "author_keywords" in entry {
      TrimmedLabels(entry["author_keywords"][0]);
    }
    if "subject_areas" in entry {
      TrimmedLabels(entry["subject_areas"][0]);
    }
  }

  const SuccessMessage: string := "Paper and related data inserted successfully."

  /** This header's `insertPaper`: the same transaction, plus a success
      line on standard output printed after the commit and only then. */
  function InsertPaper(s: Store, p: DBPayload): (r: (Store, InsertOutcome, seq<string>))
    ensures r.1 == Committed <==> CanInsert(s, p)
    ensures r.2 != [] <==> CanInsert(s, p)
    ensures r.2 != [] ==> r.2 == [SuccessMessage]
    ensures r.2 == [] ==> r.0 == s && r.1.RolledBack?
    ensures r.1 == Committed ==>
      && r.0.papers == s.papers[p.doi := PaperRow(p.title, p.authorsList, p.totalCitations)]
      && r.0.citations.Keys == s.citations.Keys + CitationKeys(p.doi, p.citations)
      && (forall k :: k in s.citations ==> r.0.citations[k] == s.citations[k])
      && (forall i :: 0 <= i < |p.citations| ==> r.0.citations[(p.doi, p.citations[i].0)] == p.citations[i].1)
      && r.0.indexTerms == s.indexTerms + MembershipRows(p.doi, p.indexTerms)
      && r.0.authorKeywords == s.authorKeywords + MembershipRows(p.doi, p.authorKeywords)
      && r.0.areas == s.areas + MembershipRows(p.doi, p.areas)
  {
    var (s', outcome) := PaperStore.InsertPaper(s, p);
    (s', outcome, if outcome == Committed then [SuccessMessage] else [])
  }

  /** Apart from the announcement, both headers' `insertPaper` do the same:
      the same outcome and the same store. */
  lemma SameTransactionAsNewerHeader(s: Store, p: DBPayload)
    ensures (InsertPaper(s, p).0, InsertPaper(s, p).1) == PaperStore.InsertPaper(s, p)
  {
  }
}

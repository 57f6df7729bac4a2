/** `toDBPayload` of the database layer: one parsed BibTeX entry becomes a
    paper payload. */
module Normalizer {
  import opened Wrappers
  import opened DbUtils
  import opened Numerals
  import opened Payload

  /** A parsed BibTeX entry: field name to its values. Only the first value
      of a field is ever read. */
  type BibEntry = map<string, seq<string>>

  /** The fields `toDBPayload` reads; every other field, `eid` and `year`
      included, is ignored. */
  const ReadFields: set<string> :=
    {"doi", "title", "author", "per_year_citations", "index_terms", "author_keywords", "subject_areas"}

  /** `field.second.front()` needs a value, for every field that is read. */
  predicate Readable(entry: BibEntry) {
    forall f :: f in entry && f in ReadFields ==> entry[f] != []
  }

  /** Why an entry is rejected: a per-year citation token from which no
      (year, count) pair can be read. `std::stoi` throws on a part without
      digits or out of `int` range; a token without `:` makes the source
      index past the end of the split result. The conversion of that entry
      produces no payload; what the program does next is the loading loop's
      business (`Loader`). */
  datatype ParseError = MalformedCitation(token: string)

  /** One `year:count` token: both parts go through `std::stoi`; any parts
      after the second are ignored. */
  function ParseCitation(token: string): (r: Result<Citation, ParseError>)
    ensures r.Success? <==>
      |Split(token, ':')| >= 2 && Stoi(Split(token, ':')[0]).Success? && Stoi(Split(token, ':')[1]).Success?
    ensures r.Success? ==>
      r.value == (Stoi(Split(token, ':')[0]).value, Stoi(Split(token, ':')[1]).value)
  {
    ReadPair(Split(token, ':'), token)
  }

  /** The (year, count) pair read from the first two parts of a token. */
  function ReadPair(parts: seq<string>, token: string): Result<Citation, ParseError>
  {
    if |parts| < 2 then Failure(MalformedCitation(token))
    else
      match (Stoi(parts[0]), Stoi(parts[1]))
      case (Success(year), Success(count)) => Success((year, count))
      case _ => Failure(MalformedCitation(token))
  }

  /** Two part lists whose first two parts read alike give the same pair. */
  lemma ReadPairAgree(a: seq<string>, b: seq<string>, ta: string, tb: string)
    requires |a| == |b|
    requires |a| >= 2 ==> Stoi(a[0]) == Stoi(b[0]) && Stoi(a[1]) == Stoi(b[1])
    ensures ReadPair(a, ta).Success? == ReadPair(b, tb).Success?
    ensures ReadPair(a, ta).Success? ==> ReadPair(a, ta).value == ReadPair(b, tb).value
  {
  }

  /** Parses the tokens in order; the first bad token aborts. */
  function ParseTokens(tokens: seq<string>): (r: Result<seq<Citation>, ParseError>)
    ensures r.Success? ==> |r.value| == |tokens|
    ensures r.Success? ==> forall i :: 0 <= i < |tokens| ==> ParseCitation(tokens[i]) == Success(r.value[i])
    ensures r.Failure? ==>
      exists i :: 0 <= i < |tokens| && ParseCitation(tokens[i]) == Failure(r.error) &&
        forall j :: 0 <= j < i ==> ParseCitation(tokens[j]).Success?
    ensures (forall i :: 0 <= i < |tokens| ==> ParseCitation(tokens[i]).Success?) ==> r.Success?
  {
    if tokens == [] then Success([])
    else
      var head :- ParseCitation(tokens[0]);
      var tail :- ParseTokens(tokens[1..]);
      Success([head] + tail)
  }

  /** The `per_year_citations` text: comma-separated `year:count` tokens. */
  function ParseCitations(text: string): Result<seq<Citation>, ParseError>
  {
    ParseTokens(Split(text, ','))
  }

  /** The first value of a field, or the empty string when it is absent. */
  function FieldOr(entry: BibEntry, field: string): (r: string)
    requires Readable(entry) && field in ReadFields
    ensures field in entry ==> r == entry[field][0]
    ensures field !in entry ==> r == ""
  {
    if field in entry then entry[field][0] else ""
  }

  /** The labels of a comma-separated keyword field, or none when absent. */
  function LabelsOf(entry: BibEntry, field: string): (r: seq<string>)
    requires Readable(entry) && field in ReadFields
    ensures field in entry ==> r == SplitFix(entry[field][0], ',')
    ensures field !in entry ==> r == []
  {
    if field in entry then SplitFix(entry[field][0], ',') else []
  }

  /** `toDBPayload`: every recognised field fills its payload member; the
      citation total is the sum of the parsed counts. */
  function ToDBPayload(entry: BibEntry): (r: Result<DBPayload, ParseError>)
    requires Readable(entry)
    ensures r.Success? ==> r.value.totalCitations == SumCounts(r.value.citations)
    ensures r.Success? ==> r.value.year == 0
    ensures r.Success? <==>
      "per_year_citations" !in entry || ParseCitations(entry["per_year_citations"][0]).Success?
    ensures r.Success? ==>
      && r.value.doi == FieldOr(entry, "doi")
      && r.value.title == FieldOr(entry, "title")
      && r.value.authorsList == FieldOr(entry, "author")
    ensures r.Success? ==>
      && r.value.indexTerms == LabelsOf(entry, "index_terms")
      && r.value.authorKeywords == LabelsOf(entry, "author_keywords")
      && r.value.areas == LabelsOf(entry, "subject_areas")
  {
    var citations :- if "per_year_citations" in entry
      then ParseCitations(entry["per_year_citations"][0])
      else Success([]);
    Success(DBPayload(
      doi := FieldOr(entry, "doi"),
      title := FieldOr(entry, "title"),
      year := 0,
      authorsList := FieldOr(entry, "author"),
      totalCitations := SumCounts(citations),
      citations := citations,
      indexTerms := LabelsOf(entry, "index_terms"),
      authorKeywords := LabelsOf(entry, "author_keywords"),
      areas := LabelsOf(entry, "subject_areas")))
  }

  /** Every keyword label of the payload is lower-case and left-trimmed. */
  lemma ToDBPayloadLabelsNormalized(entry: BibEntry)
    requires Readable(entry) && ToDBPayload(entry).Success?
    ensures var p := ToDBPayload(entry).value;
      Normalized(p.indexTerms) && Normalized(p.authorKeywords) && Normalized(p.areas)
  {
    var fields := ["index_terms", "author_keywords", "subject_areas"];
    forall f | f in fields
      ensures Normalized(LabelsOf(entry, f))
    {
      if f in entry {
        SplitFixLabels(entry[f][0], ',');
      }
    }
  }

  /** Only the recognised fields matter: in particular there is no fallback
      from a missing `doi` to `eid`, and the entry's `year` is never read. */
  lemma ToDBPayloadReadsOnlyKnownFields(entry: BibEntry)
    requires Readable(entry)
    ensures var known := map f | f in entry && f in ReadFields :: entry[f];
      Readable(known) && ToDBPayload(known) == ToDBPayload(entry)
  {
  }

  /** Without a `doi` field the key is empty, whatever `eid` holds. */
  lemma NoEidFallback(entry: BibEntry, eid: string)
    requires Readable(entry) && "doi" !in entry
    ensures Readable(entry["eid" := [eid]])
    ensures ToDBPayload(entry["eid" := [eid]]) == ToDBPayload(entry)
    ensures ToDBPayload(entry).Success? ==> ToDBPayload(entry).value.doi == ""
  {
    var withEid := entry["eid" := [eid]];
    assert forall f :: f in ReadFields ==> (f in withEid <==> f in entry);
    assert forall f :: f in ReadFields && f in entry ==> withEid[f] == entry[f];
  }

  /** An entry without any recognised field gives the default payload. */
  lemma EmptyEntryGivesDefault(entry: BibEntry)
    requires forall f :: f in entry ==> f !in ReadFields
    ensures ToDBPayload(entry) == Success(DefaultPayload())
  {
  }

  /** One citation pair per comma token, and the total is their sum; a
      token that does not parse fails the whole entry. */
  lemma PerYearCitationsParsed(entry: BibEntry)
    requires Readable(entry) && "per_year_citations" in entry
    ensures var tokens := Split(entry["per_year_citations"][0], ',');
      var r := ToDBPayload(entry);
      && (r.Success? <==> forall i :: 0 <= i < |tokens| ==> ParseCitation(tokens[i]).Success?)
      && (r.Success? ==> |r.value.citations| == |tokens|)
      && (r.Success? ==> forall i :: 0 <= i < |tokens| ==> ParseCitation(tokens[i]) == Success(r.value.citations[i]))
  {
  }
}

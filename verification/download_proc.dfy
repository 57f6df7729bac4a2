/** `circus_downloadProc.py`: the results of a Scopus search become BibTeX
    entries. The search itself and the file written are not modelled. */
module DownloadProc {
  import opened Wrappers
  import opened Payload
  import Normalizer
  import FixMissing

  /** The fields of one search result that the conversion reads; only the
      DOI may be missing. */
  datatype SearchResult = SearchResult(
    eid: string,
    doi: Option<string>,
    title: string,
    publicationName: string,
    coverDate: string)

  /** One converted entry, field by field. */
  datatype BibRecord = BibRecord(
    entryType: string,
    id: string,
    doi: string,
    eid: string,
    title: string,
    journal: string,
    year: string)

  /** Python's `s[:n]`: the first `n` characters, or all of a shorter text. */
  function Prefix(s: string, n: nat): (r: string)
    ensures |r| == if |s| < n then |s| else n
    ensures r <= s
  {
    if |s| < n then s else s[..n]
  }

  function ConvertOne(r: SearchResult): BibRecord
  {
    var doi := match r.doi
      case None => ""
      case Some(d) => d;
    BibRecord("article", r.eid, doi, r.eid, r.title, r.publicationName, Prefix(r.coverDate, 4))
  }

  /** `convert_to_bibtex`: one entry per result, in the results' order. */
  function ConvertToBibtex(results: seq<SearchResult>): (entries: seq<BibRecord>)
    ensures |entries| == |results|
    ensures forall i :: 0 <= i < |results| ==> entries[i] == ConvertOne(results[i])
    decreases |results|
  {
    if results == [] then [] else [ConvertOne(results[0])] + ConvertToBibtex(results[1..])
  }

  /** Each entry is an article keyed by its eid; its DOI is the result's or
      empty; its year is the first four characters of the cover date; the
      title and journal are copied. */
  lemma ConvertOneSpec(r: SearchResult)
    ensures ConvertOne(r).entryType == "article"
    ensures ConvertOne(r).id == r.eid && ConvertOne(r).eid == r.eid
    ensures r.doi.None? ==> ConvertOne(r).doi == ""
    ensures r.doi.Some? ==> ConvertOne(r).doi == r.doi.value
    ensures ConvertOne(r).title == r.title && ConvertOne(r).journal == r.publicationName
    ensures |r.coverDate| >= 4 ==> ConvertOne(r).year == r.coverDate[..4]
    ensures |r.coverDate| < 4 ==> ConvertOne(r).year == r.coverDate
  {
  }

  /** The entry as bibtexparser's dictionary, keyed by field name. */
  function AsFields(b: BibRecord): (e: map<string, string>)
    ensures e.Keys == {"ENTRYTYPE", "ID", "doi", "eid", "title", "journal", "year"}
  {
    map["ENTRYTYPE" := b.entryType, "ID" := b.id, "doi" := b.doi, "eid" := b.eid,
        "title" := b.title, "journal" := b.journal, "year" := b.year]
  }

  /** A downloaded result without a DOI (or with an empty one) is later
      skipped by the fixing script; every other result is looked up. */
  lemma ConvertedWithoutDoiIgnored(r: SearchResult)
    ensures FixMissing.LacksDoi(AsFields(ConvertOne(r))) <==> r.doi.None? || r.doi == Some("")
  {
    assert AsFields(ConvertOne(r))["doi"] == ConvertOne(r).doi;
  }

  /** The same entry as the C++ parser hands it over: one value per field.
      `ENTRYTYPE` and `ID` become the entry's type and key, not fields. */
  function AsBibEntry(b: BibRecord): (e: Normalizer.BibEntry)
    ensures Normalizer.Readable(e)
    ensures e.Keys == {"doi", "eid", "title", "journal", "year"}
  {
    map["doi" := [b.doi], "eid" := [b.eid], "title" := [b.title], "journal" := [b.journal], "year" := [b.year]]
  }

  /** Loading a downloaded entry straight into the database keeps its DOI
      and title and nothing else: its year is dropped, and it has no
      authors, citations or keywords until the fixing script fills them. */
  lemma DownloadedPayload(r: SearchResult)
    ensures Normalizer.ToDBPayload(AsBibEntry(ConvertOne(r)))
         == Success(DBPayload(ConvertOne(r).doi, r.title, 0, "", 0, [], [], [], []))
  {
    var e := AsBibEntry(ConvertOne(r));
    assert "author" !in e && "per_year_citations" !in e;
    assert "index_terms" !in e && "author_keywords" !in e && "subject_areas" !in e;
    assert e["doi"][0] == ConvertOne(r).doi && e["title"][0] == r.title;
  }
}

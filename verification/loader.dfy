/** The loading loop of the program's entry point: every entry of every
    BibTeX file given on the command line, in order, is converted by
    `toDBPayload` and handed to `insertPaper`. A conversion error is not
    caught anywhere, so it ends the program: entries after it are never
    loaded and the window never opens. Rows already committed stay in the
    database file. */
module Loader {
  import opened Wrappers
  import opened Payload
  import opened PaperStore
  import Normalizer

  /** Where loading stopped: the store left behind, how many entries
      reached `insertPaper`, and the conversion error that ended the
      program, if one did. */
  datatype Loaded = Loaded(store: Store, handed: nat, abort: Option<Normalizer.ParseError>)

  /** Every entry has a value for each field it carries. */
  predicate AllReadable(entries: seq<Normalizer.BibEntry>) {
    forall i :: 0 <= i < |entries| ==> Normalizer.Readable(entries[i])
  }

  /** Inserting payloads one after the other; a rolled-back paper is
      reported by `insertPaper` itself and the loop goes on. */
  function InsertAll(s: Store, ps: seq<DBPayload>): Store
    decreases |ps|
  {
    if ps == [] then s else InsertAll(InsertPaper(s, ps[0]).0, ps[1..])
  }

  /** What `toDBPayload` makes of each entry. The conversion is pure, so
      converting each entry just before inserting it, as the loop does,
      and converting them all first lead to the same outcome. */
  function Conversions(entries: seq<Normalizer.BibEntry>): (r: seq<Conversion>)
    requires AllReadable(entries)
    ensures |r| == |entries|
    ensures forall i :: 0 <= i < |entries| ==> r[i] == Normalizer.ToDBPayload(entries[i])
    decreases |entries|
  {
    if entries == [] then [] else [Normalizer.ToDBPayload(entries[0])] + Conversions(entries[1..])
  }

  type Conversion = Result<DBPayload, Normalizer.ParseError>

  /** The payloads of conversions that all succeeded. */
  function Payloads(cs: seq<Conversion>): (r: seq<DBPayload>)
    requires forall i :: 0 <= i < |cs| ==> cs[i].Success?
    ensures |r| == |cs|
    ensures forall i :: 0 <= i < |cs| ==> r[i] == cs[i].value
    decreases |cs|
  {
    if cs == [] then [] else [cs[0].value] + Payloads(cs[1..])
  }

  /** The loop over the converted entries: insert each payload, and stop
      at the first conversion error. */
  function Run(s: Store, cs: seq<Conversion>): (r: Loaded)
    ensures r.handed <= |cs|
    ensures forall i :: 0 <= i < r.handed ==> cs[i].Success?
    ensures r.abort.None? <==> r.handed == |cs|
    ensures r.abort.Some? ==> cs[r.handed] == Failure(r.abort.value)
    decreases |cs|
  {
    if cs == [] then Loaded(s, 0, None)
    else if cs[0].Failure? then Loaded(s, 0, Some(cs[0].error))
    else
      var rest := Run(InsertPaper(s, cs[0].value).0, cs[1..]);
      Loaded(rest.store, rest.handed + 1, rest.abort)
  }

  /** Lines 41-49 of the entry point: convert, insert, repeat; the first
      entry that does not convert stops everything. */
  function Load(s: Store, entries: seq<Normalizer.BibEntry>): (r: Loaded)
    requires AllReadable(entries)
    ensures r.handed <= |entries|
    ensures forall i :: 0 <= i < r.handed ==> Normalizer.ToDBPayload(entries[i]).Success?
    ensures r.abort.None? <==> r.handed == |entries|
    ensures r.abort.None? <==> forall i :: 0 <= i < |entries| ==> Normalizer.ToDBPayload(entries[i]).Success?
    ensures r.abort.Some? ==> Normalizer.ToDBPayload(entries[r.handed]) == Failure(r.abort.value)
  {
    Run(s, Conversions(entries))
  }

  /** The store after the loop holds exactly the payloads of the entries
      before the one that stopped it, inserted in entry order. */
  lemma {:induction false} RunStore(s: Store, cs: seq<Conversion>)
    ensures Run(s, cs).store == InsertAll(s, Payloads(cs[..Run(s, cs).handed]))
    decreases |cs|
  {
    if cs == [] {
      assert cs[..0] == [];
    } else if cs[0].Failure? {
      assert cs[..0] == [];
    } else {
      var s' := InsertPaper(s, cs[0].value).0;
      var rest := Run(s', cs[1..]);
      RunStore(s', cs[1..]);
      var done := cs[..rest.handed + 1];
      assert done[0] == cs[0] && done[1..] == cs[1..][..rest.handed];
      var ps := Payloads(done);
      assert ps[0] == cs[0].value;
      assert ps[1..] == Payloads(cs[1..][..rest.handed]);
    }
  }

  /** Nothing after a conversion error is ever inserted. */
  lemma {:induction false} RunStopsAtFailure(s: Store, a: seq<Conversion>, b: seq<Conversion>)
    requires Run(s, a).abort.Some?
    ensures Run(s, a + b) == Run(s, a)
    decreases |a|
  {
    assert (a + b)[0] == a[0];
    if a[0].Success? {
      assert (a + b)[1..] == a[1..] + b;
      RunStopsAtFailure(InsertPaper(s, a[0].value).0, a[1..], b);
    }
  }

  /** Running two lists one after the other is running them together, as
      long as the first one has no error. */
  lemma {:induction false} RunAppend(s: Store, a: seq<Conversion>, b: seq<Conversion>)
    requires Run(s, a).abort.None?
    ensures var second := Run(Run(s, a).store, b);
      Run(s, a + b) == Loaded(second.store, |a| + second.handed, second.abort)
    decreases |a|
  {
    if a == [] {
      assert a + b == b;
    } else {
      assert (a + b)[0] == a[0];
      assert (a + b)[1..] == a[1..] + b;
      RunAppend(InsertPaper(s, a[0].value).0, a[1..], b);
    }
  }

  lemma AllReadableAppend(a: seq<Normalizer.BibEntry>, b: seq<Normalizer.BibEntry>)
    requires AllReadable(a) && AllReadable(b)
    ensures AllReadable(a + b) && Conversions(a + b) == Conversions(a) + Conversions(b)
  {
    forall i | 0 <= i < |a + b| ensures Normalizer.Readable((a + b)[i]) {
      if i >= |a| { assert (a + b)[i] == b[i - |a|]; }
    }
  }

  /** The program stops at the first entry that does not convert: entries
      after it, in the same file or in later files, change nothing. */
  lemma LoadStopsAtFailure(s: Store, a: seq<Normalizer.BibEntry>, b: seq<Normalizer.BibEntry>)
    requires AllReadable(a) && AllReadable(b)
    requires Load(s, a).abort.Some?
    ensures AllReadable(a + b) && Load(s, a + b) == Load(s, a)
  {
    AllReadableAppend(a, b);
    RunStopsAtFailure(s, Conversions(a), Conversions(b));
  }

  /** Loading the files one after the other is loading all their entries
      at once, as long as the earlier files convert without error. */
  lemma LoadAppend(s: Store, a: seq<Normalizer.BibEntry>, b: seq<Normalizer.BibEntry>)
    requires AllReadable(a) && AllReadable(b)
    requires Load(s, a).abort.None?
    ensures AllReadable(a + b)
    ensures var second := Load(Load(s, a).store, b);
      Load(s, a + b) == Loaded(second.store, |a| + second.handed, second.abort)
  {
    AllReadableAppend(a, b);
    RunAppend(s, Conversions(a), Conversions(b));
  }

  /** The store never loses a paper, and stays consistent. */
  lemma {:induction false} InsertAllKeeps(s: Store, ps: seq<DBPayload>)
    ensures s.papers.Keys <= InsertAll(s, ps).papers.Keys
    ensures ReferencesPapers(s) ==> ReferencesPapers(InsertAll(s, ps))
    decreases |ps|
  {
    if ps != [] {
      var s' := InsertPaper(s, ps[0]).0;
      if ReferencesPapers(s) {
        InsertPaperKeepsReferences(s, ps[0]);
      }
      InsertAllKeeps(s', ps[1..]);
    }
  }

  /** A paper whose transaction committed is still stored at the end:
      later insertions never remove it. */
  lemma {:induction false} InsertAllCommitsFresh(s: Store, ps: seq<DBPayload>, i: nat)
    requires i < |ps|
    requires InsertPaper(InsertAll(s, ps[..i]), ps[i]).1 == Committed
    ensures ps[i].doi in InsertAll(s, ps).papers
    decreases |ps|
  {
    if i == 0 {
      assert ps[..0] == [];
      InsertAllKeeps(InsertPaper(s, ps[0]).0, ps[1..]);
    } else {
      assert ps[..i][0] == ps[0] && ps[..i][1..] == ps[1..][..i - 1];
      InsertAllCommitsFresh(InsertPaper(s, ps[0]).0, ps[1..], i - 1);
    }
  }
}

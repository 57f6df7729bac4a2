# circus: keyword analytics over a paper database, in Dafny

circus loads BibTeX files of scientific papers into an SQLite database. It
then aggregates, for every keyword, the citations of the papers that carry
it, and shows the results in a Qt window. There is a searchable keyword
table, a "union" row built from several keywords, a per-keyword chart, and
a per-keyword list of papers. Two Python helper scripts produce the BibTeX
input: one downloads search results from Scopus, the other fills in the
missing fields of each entry.

This project models the deterministic core of that pipeline as immutable
datatypes and pure functions:

- **String helpers** (`DbUtils`, `Numerals`, `Text`): `toLower`, the
  `std::getline`-based `split`, `removeLeading`, `splitFix`, and the
  `std::stoi` that reads citation counts (C locale, 32-bit `int` range,
  `invalid_argument` and `out_of_range` as failures).
- **Payload and record normaliser** (`Payload`, `Normalizer`): `DBPayload`
  with its defaults, and `toDBPayload`, which turns a parsed BibTeX entry
  into a payload. An entry whose per-year citations cannot be read yields
  no payload (`Result`).
- **Loading loop** (`Loader`): the entry point converts and inserts every
  entry in order. Nothing catches a conversion error, so the first entry
  that does not convert ends the program. Papers committed before it stay
  stored, and no later entry is loaded.
- **Paper store** (`PaperStore`): the five tables as maps and sets keyed by
  their primary keys. `insertPaper` is one all-or-nothing transaction.
- **Older header variants** (`LegacyDb`): the lower-casing, non-trimming
  `split`, the matching `toDBPayload`, and an `insertPaper` that announces
  its commit. The older `toLower` is the same function as the newer one,
  so `DbUtils.ToLower` models both.
- **Keyword aggregation** (`Keywords`, `Tallies`, `Aggregator`):
  - `queryAllKeywords` and `getCitations` are folds over the membership and
    citation rows.
  - The order in which SQLite returns rows is a parameter, and the results
    are proved not to depend on it.
- **Query layer** (`Search`): `filterKeywordsRegex` is an order-preserving
  filter over an abstract match predicate. `searchKeywords` fills its
  cache lazily.
- **Keyword table and chart** (`KeywordsTable`):
  - the union of selected rows;
  - the row budget, taxonomy filter and sort of `updateTable`;
  - the year gap-filling, data points, axis ranges and the exact-ratio
    impact factor of `openChartWindow`.
- **Papers tab** (`PapersTable`): one row per paper, whose keyword cell is
  the content of a `std::set<std::string>` (sorted, duplicate-free) joined
  by ", ".
- **Scripts** (`FixMissing`, `DownloadProc`):
  - `clean`;
  - the field formatting and the three counters of the fixing loop;
  - `convert_to_bibtex`.
  - The per-year text the fixing script writes is proved to parse back,
    through `toDBPayload`'s reader, to the pairs it was written from.

`DBPayload`'s field-wise constructor is the constructor of the `Payload.DBPayload`
datatype: each argument becomes the same-named field.

## Model

| member | source | states |
|---|---|---|
| DbUtils.ToLower | src/db/include/dbUtils.hh:9-14 | the result has the input's length and each character is the C-locale `tolower` of the input's character at that position |
| DbUtils.ToLowerChanges | src/db/include/dbUtils.hh:9-14 | only the letters A-Z change, each to the letter 32 code points above it; every other character is kept |
| DbUtils.ToLowerNoUpper | src/db/include/dbUtils.hh:9-14 | no upper-case letter remains after lower-casing |
| DbUtils.ToLowerIdempotent | src/db/include/dbUtils.hh:9-14 | lower-casing twice is the same as lower-casing once |
| DbUtils.Split | src/db/include/dbUtils.hh:15-23 | as with `getline`, the empty text (and only it) yields no tokens |
| DbUtils.SplitNoDelimiter | src/db/include/dbUtils.hh:15-23 | no token contains the delimiter |
| DbUtils.SplitRejoin | src/db/include/dbUtils.hh:15-23 | joining the tokens with the delimiter gives the input back when it does not end with the delimiter; when it does, the one trailing delimiter is the only thing lost (no trailing empty token) |
| DbUtils.SplitCount | src/db/include/dbUtils.hh:15-23 | the number of tokens is the number of delimiters, plus one when the text is non-empty and does not end with the delimiter |
| DbUtils.JoinSplit | src/db/include/dbUtils.hh:15-23 | splitting the join of delimiter-free parts whose last part is non-empty recovers the parts |
| DbUtils.RemoveLeading | src/db/include/dbUtils.hh:24-30 | the result is a suffix of the input; everything removed is whitespace, and the result does not start with whitespace |
| DbUtils.RemoveLeadingIdempotent | src/db/include/dbUtils.hh:24-30 | removing leading whitespace twice changes nothing more |
| DbUtils.NormalizeLabel | src/db/include/dbUtils.hh:37 | a normalised token has no upper-case letter, does not start with whitespace and is no longer than the token |
| DbUtils.SplitFixIsNormalizedSplit | src/db/include/dbUtils.hh:31-40 | `splitFix` returns as many tokens as `split`, and token k is `removeLeading(toLower(split token k))` |
| DbUtils.SplitFixLabels | src/db/include/dbUtils.hh:24-40 | every `splitFix` label is lower-case and starts with a non-space character (trailing whitespace is kept) |
| Numerals.Stoi | src/db/src/db.cc:238-239 | a parsed value lies in the 32-bit `int` range; the parse fails with `invalid_argument` exactly when no digit follows the leading whitespace and the optional sign |
| Numerals.StoiReadsIntToString | scripts/circus_fixMissing.py:170 | the decimal text Python writes for an in-range integer, after any leading whitespace, reads back as that integer |
| Numerals.StoiIgnoresCase | src/db/include/db.hh:255-258 | lower-casing a token first does not change what `stoi` reads from it |
| Payload.DefaultPayload | src/db/include/DBPayload.hh:5-14 | a default payload has empty doi, title and authors, year 0, total 0, and no citations, index terms, author keywords or areas |
| Normalizer.ParseCitation | src/db/src/db.cc:237-239 | a `year:count` token parses exactly when it has at least two `:`-parts and `stoi` reads both; the pair is those two values |
| Normalizer.ParseTokens | src/db/src/db.cc:236-240 | on success, one pair per token in token order; on failure, the error is the first token that does not parse; if every token parses, the whole parse succeeds |
| Normalizer.ToDBPayload | src/db/src/db.cc:222-254 | the conversion succeeds exactly when the entry has no per-year citations or all of them parse; then doi, title and authors are the first values of their fields ("" when absent), index terms, author keywords and areas are the `splitFix` labels of their fields (none when absent), the total is the sum of the parsed counts, and the year stays 0 |
| Normalizer.PerYearCitationsParsed | src/db/src/db.cc:234-243 | the payload is built exactly when every comma token parses, with one pair per token, each the token's parse |
| Normalizer.ToDBPayloadLabelsNormalized | src/db/src/db.cc:244-250 | index terms, author keywords and areas are lower-case labels without leading whitespace |
| Normalizer.ToDBPayloadReadsOnlyKnownFields | src/db/src/db.cc:226-251 | dropping every field except doi, title, author, per_year_citations, index_terms, author_keywords and subject_areas gives the same payload |
| Normalizer.NoEidFallback | src/db/src/db.cc:227-228 | an entry without doi gets an empty doi, and adding an eid field changes nothing |
| Normalizer.EmptyEntryGivesDefault | src/db/src/db.cc:222-254 | an entry with none of the read fields becomes the default payload |
| PaperStore.InsertCitationRows | src/db/src/db.cc:104-111 | the citation inserts succeed exactly when the years are distinct and no `(doi, year)` key exists yet; then the old rows are kept and each pair becomes a row |
| PaperStore.InsertMemberships | src/db/src/db.cc:113-139 | the membership inserts succeed exactly when the labels are distinct and none is already linked to the doi; the failing label is one of the list |
| PaperStore.InsertPaper | src/db/src/db.cc:86-147 | commits exactly when no key clashes; a rollback leaves the store unchanged; a commit adds the paper row, every citation row and every membership row and keeps all old rows |
| PaperStore.InsertPaperKeepsReferences | src/db/src/db.cc:86-147 | if every citation and membership row names a stored paper before the insert, the same holds after it |
| PaperStore.CanInsertInConsistentStore | src/db/src/db.cc:86-147 | in a store whose rows all name stored papers, a paper can be inserted exactly when its doi is new and its years and labels are distinct |
| PaperStore.CommittedRowsAreThePayload | src/db/src/db.cc:86-147 | after a commit, the rows naming the new doi are exactly the payload's citations and labels |
| LegacyDb.SplitLowerIsLoweredSplit | src/db/include/db.hh:231-239 | the older `split` is the plain split with every token lower-cased |
| LegacyDb.SplitLowerTokens | src/db/include/db.hh:231-239 | for a non-letter delimiter, its tokens contain no upper-case letter and never the delimiter |
| LegacyDb.LeadingBlankKept | src/db/include/db.hh:263-269 | the older split turns "ML, AI" into "ml" and " ai", keeping the leading blank |
| LegacyDb.ParseTokensLowered | src/db/include/db.hh:255-259 | reading lower-cased citation tokens accepts and yields exactly what reading the original tokens does |
| LegacyDb.ToDBPayload | src/db/include/db.hh:241-273 | the older conversion's total is the sum of its parsed counts and its year stays 0; index terms, author keywords and areas are the lower-casing `split` labels of their fields (none when absent) |
| LegacyDb.SameCitationsAsNormalizer | src/db/include/db.hh:241-273 | both conversions accept the same entries and give the same doi, title, authors, citations and total; their index terms, author keywords and areas differ only by the leading whitespace the newer one removes |
| LegacyDb.InsertPaper | src/db/include/db.hh:83-145 | commits exactly when no key clashes; the one success line appears exactly then; without it the store is unchanged; a commit adds the paper row, every citation row and every membership row and keeps all old rows |
| LegacyDb.SameTransactionAsNewerHeader | src/db/include/db.hh:83-145 | apart from the success line, the older `insertPaper` has the same outcome and leaves the same store as the newer one |
| Tallies.MinKey | src/gui/src/keywordsTable.cc:228-230 | the smallest year present in a non-empty map |
| Tallies.MaxKey | src/gui/src/keywordsTable.cc:228-230 | the largest year present in a non-empty map |
| Tallies.AddMaps | src/gui/src/keywordsTable.cc:66-68 | per-year addition: the keys are the union of both maps' keys, each value the sum of the two (missing counts as 0) |
| Tallies.MapSumAddMaps | src/gui/src/keywordsTable.cc:66-68 | the total of a per-year sum is the sum of the totals |
| Aggregator.QueryAllKeywords | src/db/src/db.cc:398-402 | one record per key of the keyword map, in the map's iteration order |
| Aggregator.WordToKqrKeys | src/db/src/db.cc:320-393 | the records are keyed by exactly the labels found in the three membership tables, and each record's word is its key |
| Aggregator.WordToKqrTypes | src/db/src/db.cc:342-391 | a record lists a taxonomy exactly when its keyword has a row in that taxonomy's table |
| Aggregator.WordToKqrPapers | src/db/src/db.cc:343-389 | a record's papers are exactly the dois its keyword is linked to in any table |
| Aggregator.WordToKqrCitations | src/db/src/db.cc:336-388 | a record's per-year citations and total are sums over every membership row of its keyword (so a paper tagged in two taxonomies counts twice); the total equals the sum of the per-year counts; papers-per-year and impact numerators stay empty |
| Aggregator.AggregateConsistent | src/db/src/db.cc:336-341 | folding any rows into records whose totals equal their per-year sums keeps that equality |
| Aggregator.AggregatePermutation | src/db/src/db.cc:325-393 | folding the same rows in any order gives the same records |
| Aggregator.PassOrderIrrelevant | src/db/src/db.cc:325-393 | running the three table passes in another order gives the same records |
| Aggregator.ScanOrderIrrelevant | src/db/src/db.cc:326-374 | any row orders SQLite may return give the same records |
| Aggregator.GetCitations | src/db/src/db.cc:256-318 | the record has empty word, total and papers, and the "No citations found" warning appears exactly when no per-year count was found |
| Aggregator.GetCitationsAgrees | src/db/src/db.cc:256-318 | for a stored keyword, its per-year citations equal those of its `queryAllKeywords` record |
| Aggregator.GetCitationsTypes | src/db/src/db.cc:269-307 | a taxonomy is recorded exactly when the keyword has a paper in that table with at least one citation row |
| Search.FilterMembers | src/db/src/db.cc:415-419 | a record is kept exactly when it is in the input and its word matches |
| Search.FilterAppend | src/db/src/db.cc:415-419 | filtering commutes with concatenation, so kept records stay in input order |
| Search.FilterIdempotent | src/db/src/db.cc:415-419 | filtering a filtered list again changes nothing |
| Search.FilterKeywordsRegex | src/db/src/db.cc:408-425 | an invalid pattern gives no records and one "Invalid regex" warning; a valid one gives exactly the matching records, in their input order and with their multiplicity (the order-preserving `Filter`), and no warning |
| Search.SearchKeywords | src/db/src/db.cc:427-435 | an empty cache is filled from `queryAllKeywords`, a filled one is used as is, and the answer is the filter of the cache |
| Search.SearchIgnoresStoreOnceCached | src/db/src/db.cc:429-432 | once the cache is filled, the store no longer affects searches |
| Search.EmptyStoreNeverCaches | src/db/src/db.cc:429-432 | a store without labels gives no records, so the cache stays empty |
| Search.SearchFindsMatchingLabels | src/db/src/db.cc:427-435 | a first search returns exactly the store's keyword records whose words match |
| KeywordsTable.FindSpec | src/gui/src/keywordsTable.cc:43-46 | a record is found exactly when one in the results has the word, and the found record is one of them with that word |
| KeywordsTable.LookupAllSpec | src/gui/src/keywordsTable.cc:37-50 | the lookup succeeds exactly when every selected word is found, giving the found records in selection order |
| KeywordsTable.UnionRowNotFound | src/gui/src/keywordsTable.cc:47-49 | the first selected word missing from the results is reported as the error |
| KeywordsTable.AddUnionOfSelectedRows | src/gui/src/keywordsTable.cc:25-118 | nothing happens exactly when fewer than two rows are selected; a reported missing word is a selected one; a merge puts one row above the unchanged table |
| KeywordsTable.UnionWordSpec | src/gui/src/keywordsTable.cc:84-88 | the label is the words joined by ", ", cut to 50 characters plus "..." when longer, so at most 53 characters |
| KeywordsTable.MergeSets | src/gui/src/keywordsTable.cc:63-80 | the union's taxonomies and papers are the unions of the selected records' sets |
| KeywordsTable.MergePapersPerYear | src/gui/src/keywordsTable.cc:69-71 | each year's papers of the union are the union of that year's papers of the selected records |
| KeywordsTable.MergeCounts | src/gui/src/keywordsTable.cc:66-79 | the union's per-year citations and impact numerators are the per-year sums, and its total is the sum of the totals |
| KeywordsTable.CitationsSumConsistent | src/gui/src/keywordsTable.cc:60-89 | if every selected record's total equals its per-year sum, the sums agree as well |
| KeywordsTable.UnionSpec | src/gui/src/keywordsTable.cc:25-118 | with every selected word found, the union row carries the label, the merged taxonomies, papers, papers per year, per-year citations, impact numerators and total, keeps total equal to the per-year sum, goes on top of the table, and the slider covers the new row count |
| KeywordsTable.ShownIffChecked | src/gui/src/keywordsTable.cc:177-184 | a record is shown exactly when one of its taxonomies is checked |
| KeywordsTable.ShownRowsBound | src/gui/src/keywordsTable.cc:171-184 | the shown rows are never more than the records, and are exactly the rows of the shown records |
| KeywordsTable.FillTable | src/gui/src/keywordsTable.cc:168-184 | only the first `maxTabRows` records are examined, even those then skipped, and of these the shown ones are appended in order; the slider covers all search results |
| KeywordsTable.SortByTotalSpec | src/gui/src/keywordsTable.cc:220-221 | sorting gives a permutation of the rows in descending order of citations |
| KeywordsTable.UpdateTable | src/gui/src/keywordsTable.cc:162-223 | the table is the shown rows of the row budget, sorted by descending citations, never longer than `maxTabRows`; the slider covers all search results |
| KeywordsTable.GapFill | src/gui/src/keywordsTable.cc:232-238 | afterwards the years are exactly those from the minimum to the maximum; existing counts are unchanged, added years hold 0, and the total is unchanged |
| KeywordsTable.ImpactFactor | src/gui/src/keywordsTable.cc:282-301 | the denominator is always positive; when the year is at least two after the first, the two previous years have papers and the year has a numerator, the impact is that numerator over that paper count; otherwise it is zero |
| KeywordsTable.ImpactFactorNonZero | src/gui/src/keywordsTable.cc:282-301 | a non-zero impact needs the year to be at least two after the first, a numerator for that year, and papers in the two previous years; it is then that numerator over that paper count |
| KeywordsTable.PointsDrawn | src/gui/src/keywordsTable.cc:269-303 | every point is a year of the filled range other than the current one, with that year's citations, new papers and impact |
| KeywordsTable.PointsAscending | src/gui/src/keywordsTable.cc:269 | the points come in ascending year order |
| KeywordsTable.PointsCover | src/gui/src/keywordsTable.cc:269-272 | every year of the range except the current year has a point |
| KeywordsTable.PeakBounds | src/gui/src/keywordsTable.cc:266-280 | the peak bounds every point's citations and new papers, and is 0 or attained by one of them |
| KeywordsTable.OpenChartWindow | src/gui/src/keywordsTable.cc:224-331 | there is no chart exactly when the record has no citations; otherwise the x range runs from the first year to one before the last, the ticks count the years up to the current one, the points are those of the gap-filled years, the y range ends one above the peak, and the missing-data flag is raised as the source raises it |
| KeywordsTable.QueriedChartsHaveNoImpact | src/gui/src/keywordsTable.cc:277-301 | for a record from `queryAllKeywords`, every point has 0 new papers and zero impact, and missing data is reported exactly when some point is two or more years after the first |
| PapersTable.BeforeTotal | src/gui/src/papersTable.cc:79 | `std::string` order: two different strings are ordered one way and never both |
| PapersTable.InsertAllSpec | src/gui/src/papersTable.cc:79-85 | inserting labels into the set keeps it strictly ascending, and its members are the old members plus the labels |
| PapersTable.AscendingUnique | src/gui/src/papersTable.cc:86-88 | two strictly ascending lists with the same members are equal |
| PapersTable.KeywordsCellSpec | src/gui/src/papersTable.cc:77-91 | the cell is the ", "-join of the one ascending, duplicate-free list of the paper's index terms and author keywords; subject areas are not included |
| PapersTable.KeywordsCellSetOnly | src/gui/src/papersTable.cc:77-91 | papers with the same label sets get the same cell, whatever the order or repetition |
| PapersTable.OpenListOfPapers | src/gui/src/papersTable.cc:21-110 | the tab is titled "Papers for keyword: " plus the keyword, with one row per paper carrying its doi, title, year, total and authors |
| PapersTable.OpenListOfPapersKeywords | src/gui/src/papersTable.cc:77-93 | each row's keyword cell is built from its own paper's labels |
| Text.DropTerminator | src/gui/src/papersTable.cc:86-91 | dropping the last separator of the separator-terminated list is the plain join |
| FixMissing.CleanCounts | scripts/circus_fixMissing.py:22-25 | each ASCII letter occurs as often in the result as in the input, and no other character occurs |
| FixMissing.CleanAppend | scripts/circus_fixMissing.py:22-25 | cleaning works piecewise, so letters keep their order |
| FixMissing.CleanLetters | scripts/circus_fixMissing.py:22-25 | the result consists of letters only and is no longer than the input |
| FixMissing.CleanFixesLetters | scripts/circus_fixMissing.py:22-25 | a text is unchanged exactly when it consists of letters only |
| FixMissing.CleanIdempotent | scripts/circus_fixMissing.py:22-25 | cleaning twice is the same as cleaning once |
| FixMissing.PerYearTextJoins | scripts/circus_fixMissing.py:169-173 | the per-year text is the "year: count" items joined by ", " |
| FixMissing.ParseItem | scripts/circus_fixMissing.py:170 | one written item, after any leading whitespace, parses back to its pair |
| FixMissing.ParseJoined | scripts/circus_fixMissing.py:169-173 | splitting the joined items on ',' and parsing each token recovers the pairs |
| FixMissing.PerYearRoundTrip | scripts/circus_fixMissing.py:165-173 | the per-year text written for in-range pairs is read back by `toDBPayload`'s parser as exactly those pairs |
| FixMissing.FixedFields | scripts/circus_fixMissing.py:118-138 | a fixed entry's rewritten fields are exactly the seven fields to fix |
| FixMissing.WrittenOfSpec | scripts/circus_fixMissing.py:137-173 | for a record every author of which has both name parts and whose per-year lookup returned: doi and title are copied; authors are "surname, given name" joined by " and "; keyword fields are joined by ", "; the per-year text parses back to the retrieved pairs |
| FixMissing.OutcomeSpec | scripts/circus_fixMissing.py:128-175 | ignored and failed entries are untouched; a fixed entry keeps its other fields and has every field to fix rewritten |
| FixMissing.FatesPartition | scripts/circus_fixMissing.py:104-106 | every entry is counted by exactly one of the three counters |
| FixMissing.FixEntries | scripts/circus_fixMissing.py:128-178 | the script writes nothing exactly when some entry is fixed from a record it cannot write; otherwise one output entry per input entry, each its entry's outcome, each counter counts its kind of entry, and the three add up to the number of entries |
| FixMissing.UnwritableAborts | scripts/circus_fixMissing.py:145-148 | a retrieved author without a surname or a given name, or a per-year lookup that raises (lines 166-168), makes the script raise on that entry |
| DownloadProc.ConvertToBibtex | scripts/circus_downloadProc.py:12-32 | one entry per result, in result order |
| DownloadProc.ConvertOneSpec | scripts/circus_downloadProc.py:15-26 | each entry is an article with ID and eid the result's eid, the doi or "" when it is missing, the title and journal copied, and the year the first four characters of the cover date |
| DownloadProc.Prefix | scripts/circus_downloadProc.py:22 | Python's `s[:n]`: a prefix of length n, or the whole of a shorter text |
| DownloadProc.AsFields | scripts/circus_downloadProc.py:15-23 | an entry has exactly the seven fields ENTRYTYPE, ID, doi, eid, title, journal and year |
| DownloadProc.ConvertedWithoutDoiIgnored | scripts/circus_downloadProc.py:25-26 | a downloaded entry is later skipped by the fixing script exactly when its result had no doi or an empty one |
| DownloadProc.DownloadedPayload | scripts/circus_downloadProc.py:15-23 | loading a downloaded entry as it is keeps only its doi and title; its year is dropped and it has no authors, citations or labels |
| Loader.Run | src/main.cc:41-49 | the loop hands converted entries to `insertPaper` in order; it runs to the end exactly when no conversion failed, and otherwise stops at the first failed one and reports its error |
| Loader.Load | src/main.cc:41-49 | loading finishes exactly when every entry converts; otherwise every entry before the stopping one converted and the stopping one's error is reported |
| Loader.RunStore | src/main.cc:41-49 | the store after the loop is the old store with the payloads of the entries before the stopping one inserted in order |
| Loader.RunStopsAtFailure | src/main.cc:41-49 | after a conversion error, later entries change nothing |
| Loader.LoadStopsAtFailure | src/main.cc:41-49 | an entry that does not convert ends loading: appending more entries or files after it changes nothing |
| Loader.LoadAppend | src/main.cc:41-49 | loading files one after the other, when the earlier ones convert, is loading all their entries at once |
| Loader.InsertAllKeeps | src/db/src/db.cc:86-147 | a series of `insertPaper` calls never removes a paper and keeps every stored row's paper present |
| Loader.InsertAllCommitsFresh | src/db/src/db.cc:86-147 | a paper whose transaction committed is still stored after the later insertions |

## Left out

- Floating-point statistics: `calculateMean`, `calculateStandardDeviation`, the z-score (`addZScore` is not part of this model) and the z-score colours are not modelled.
- KeywordsTable.ImpactFactor: the impact is kept as an exact numerator/denominator pair rather than the `double` quotient the chart draws.
- The clock: `getCurrentYear` becomes a `currentYear` parameter.
- Functions the core calls but whose code is not part of this model are not modelled; their results become parameters:
  - `KeywordQueryResult`'s definition;
  - `getKQR`, whose result is the record passed to `OpenChartWindow`;
  - `getPapers`, whose result is the paper list passed to `OpenListOfPapers`;
  - `addKQR`, `removeKQR`, `setSliderLimits` (its argument is returned as `sliderMax`), `toString` and the type-name column;
  - `messageErrorIf` and `messageWarningIf`, whose messages become returned values or flags.
- SQLite plumbing is not modelled: `openDB`, `createDB`, the schema DDL and the `print*` dumps. The store is only its rows and key constraints, and the order SQLite returns rows in is a parameter.
- `std::regex` semantics: a pattern is its text plus, when valid, an uninterpreted match predicate.
- Qt is not modelled: layout, chart styling, the impact-factor y2 axis, fonts and the debounce timer.
- Hash-map iteration order: the order of `queryAllKeywords`'s unordered map is a parameter.
- KeywordsTable.PointsAscending: the points follow the iteration order of the record's `_yearToCitations` (src/gui/src/keywordsTable.cc:269). That member's declaration is not part of this model. The model assumes it is an ordered `std::map`. Under a `std::unordered_map` the points would come in hash order, and only `PointsDrawn` and `PointsCover` (which points there are) would still hold.
- KeywordsTable.UpdateTable: Qt's order among rows with equal citation totals is not fixed. The contract states sortedness and the permutation only.
- Integer widths: counts, totals and years are unbounded. `stoi`'s 32-bit range is modelled. The `size_t` wrap-around of negative years and counts is not, and neither is `int` overflow of totals.
- KeywordsTable.GapFill: it takes the range as `int`s; the source's `size_t` loop variable (which would run away on a negative first year) is not modelled.
- KeywordsTable.OpenChartWindow: on a record without citations the source dereferences the end iterator (undefined behaviour); the model returns no chart.
- Undefined behaviour in `toDBPayload`: a citation token without ':' indexes past the split result. It is modelled as a parse failure. An empty value list for a read field (`front()` on an empty vector) is excluded by `Normalizer.Readable`.
- The papers table's abstract column reads a field that `DBPayload` does not have, so that column is not modelled.
- BibTeX parsing (`bibParser.cc`), the command-line parser and the declaration-only headers are not modelled. Of `main.cc`, only the loading loop is modelled: the database setup and the GUI start are not, and the entries of all files come as one list in file order.
- Script I/O and network are not modelled: the Scopus search, `retrieve_data`, `retrieve_eid`, `get_citations_per_year`, and file loading and dumping. A lookup's result is a parameter function from entry to optional record.
- FixMissing.WrittenOf: for top-level retrieved values (doi, title, keyword lists, author list), Python's `None` and an empty value are both "not retrieved". The model uses the empty value for both, which the source treats alike.
- DownloadProc.ConvertOne: a result's title, journal and cover date are assumed present (strings); only the doi may be missing.
- Behaviours of the code that a reader might expect otherwise; the model follows the code:
  - a paper tagged with the same keyword in two taxonomies contributes its citations twice (src/db/src/db.cc:336-388);
  - `toDBPayload` does not fall back to the `eid` field when `doi` is missing (src/db/src/db.cc:227-228);
  - `toDBPayload` emits no warning about duplicate labels (src/db/src/db.cc:244-250);
  - `toDBPayload` never sets the payload's year, which stays 0 (src/db/src/db.cc:222-254).
- Search.FilterKeywordsRegex: a `regex_error` thrown by `regex_search` while matching (for instance on a pattern too complex to run) is caught by the same handler. The source then returns the records kept so far with the warning. The model treats a pattern as either invalid (no records) or matching every word without error, so this partial result is not modelled.
- KeywordsTable.UnionWordSpec: the source's `size() > 50` and `substr(0, 50)` count bytes of the UTF-8 text, so a non-ASCII label is cut at a different point and may be cut inside a character. The model counts characters, so its "at most 53" is characters, not bytes.
- PapersTable.OpenListOfPapers: the source enables sorting (src/gui/src/papersTable.cc:41) before it fills the cells one at a time. By Qt's documented `setItem` behaviour, a row moves to its sorted place when its sort-column cell is set, so later cells of that paper can land in another row. The model places paper i's fields in row i, which is what the code evidently intends; the row shuffling is not modelled.

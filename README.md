# Google News scraper: a verified model

This project models in Dafny the ingestion core of `data/scrape/google_news_scraper.py`, a
scraper that builds a labelled news dataset. For each label of a fixed catalog it walks a
list of Google News search queries. For each query it reads the feed's entries. It resolves
each entry's aggregator link to the publisher URL, and the entry's id is the SHA-1 hash of
that URL. It drops entries already seen, and it takes the article text from the page,
falling back to `title. summary`. It appends every accepted article, as a JSON line, to
the append-only log `raw.jsonl`. It stops a label once `TARGET_PER_LABEL` (450) rows have
been added. At the end it rebuilds `processed.csv` from the log, keeping the first record
of every id.

Modules, one file each:

- `Options` (`options.dfy`): the optional value used for failed fetches and failed extractions.
- `Text` (`text.dfy`):
  - `clean_text`: whitespace runs collapsed to one space, then stripped. Besides the
    shape of the result, the lemmas state that two non-blank pieces separated by any
    whitespace run are cleaned into the two cleaned pieces joined by one space;
  - `google_news_rss_url`: the feed URL builder, with its inverse on catalog queries.
- `Resolver` (`resolver.dfy`): the link-selection rule of `resolve_google_news_to_original`,
  over an abstract page. A page is its canonical `href`, if any, and its anchor `href`s in
  document order.
- `Store` (`store.dfy`):
  - the record, and the log as a sequence of lines, each a record, a blank line or a
    corrupt line (one that does not parse); the projections over it: the records of the
    log, their ids, and the keep-first deduplication of `drop_duplicates("id")`;
  - class `Store`, which holds the log and the CSV snapshot, with methods `LoadSeenIds`,
    `AppendRaw` and `RebuildCsv`;
  - class `Ledger`, the in-memory `seen` set.
- `Scraper` (`scraper.dfy`):
  - the outside world as a `Web` value of functions: feed reader, page fetcher, downloader,
    extractor, `stable_id`, URL host and clock;
  - the entry-admission rule `Admit`;
  - the loop of `scrape_label` specified as a left fold (`Step`/`Fold`) over the feeds'
    entries, and the imperative methods proved equal to that fold:
    - `ConsiderEntry`, the loop body;
    - `StepEntry`, the loop body against `Step`;
    - `ScrapeFeed`, the entry loop;
    - `ScrapeLabel`, the query loop;
  - `RunLabel`, one turn of the label loop, `RunLabels`, the label loop, and `Run`,
    which loads the ledger, runs the label loop over the catalog and rebuilds the CSV.
    The log after the label loop is exactly `RunLabelsSpec`: each label in turn appends
    the rows of `scrape_label`'s fold (`LabelAppend`), with the ids of the log so far as
    the ledger. The new lines come in one segment per label: the i-th segment has the
    i-th label's count of lines, all of that label.

The proofs about `scrape_label` work on the fold, which is an ordinary function:
- the quota bound;
- no id appended twice or appended when already seen;
- the ledger growth;
- every row is valid.

The methods are proved to compute exactly the fold, so those properties hold of what they
do to the log and to `seen`.

Where the code and its informal description differ, the model follows the code:
- `rebuild_csv` reads the log with a JSON-lines reader that raises on a line that does not
  parse; it does not skip that line. `RebuildCsv` then reports failure and leaves the
  snapshot as it was. `load_seen_ids`, by contrast, skips such lines.
- Blank lines are skipped by both readers: `json.loads` raises on them, which
  `load_seen_ids` swallows, and the JSON-lines reader of `rebuild_csv` drops them. A log
  holding only blank lines has no records, so `rebuild_csv` writes nothing.
- The anchor test is a substring test: an `href` containing `news.google.com` anywhere is
  rejected, not just one whose host is the aggregator.
- `scraped_at` is the clock's value for the row's position in the log (`web.clock(n)` for
  the n-th line). This stands in for the wall-clock time of the append.

## Model

| member | source | states |
|---|---|---|
| Text.StripStart | data/scrape/google_news_scraper.py:78 | `lstrip`: never longer than its input; its full behaviour is Text.StripStartSpec |
| Text.StripStartSpec | data/scrape/google_news_scraper.py:78 | leading strip: the result is a suffix of the input, does not start with whitespace, and only whitespace was dropped |
| Text.StripEnd | data/scrape/google_news_scraper.py:78 | `rstrip`, dropping the trailing whitespace run; its behaviour is stated by Text.StripEndSpec |
| Text.StripEndSpec | data/scrape/google_news_scraper.py:78 | trailing strip: the result is a prefix of the input, does not end with whitespace, and only whitespace was dropped |
| Text.Collapse | data/scrape/google_news_scraper.py:78 | `re.sub(r"\s+", " ", s)`, each maximal whitespace run replaced by one space; stated by Text.CollapseSpec, Text.CollapseConcat and Text.CollapseBlankPrefix |
| Text.CollapseSpec | data/scrape/google_news_scraper.py:78 | the substitution is empty exactly when `s` is, keeps a non-space first character, and leaves no whitespace but single spaces |
| Text.CollapseConcat | data/scrape/google_news_scraper.py:78 | no whitespace run crosses a boundary after a non-space character, so the substitution works on the two sides separately |
| Text.CollapseBlankPrefix | data/scrape/google_news_scraper.py:78 | a non-empty whitespace run in front of a non-space becomes exactly one space |
| Text.CollapseKeepsLast | data/scrape/google_news_scraper.py:78 | a trailing non-space character stays the last character |
| Text.StripStartConcat | data/scrape/google_news_scraper.py:78 | `lstrip` of a string with a non-blank head only touches that head |
| Text.StripEndConcat | data/scrape/google_news_scraper.py:78 | `rstrip` of a string with a non-blank tail only touches that tail |
| Text.StripKeepsSingleSpaced | data/scrape/google_news_scraper.py:78 | stripping a single-spaced string keeps it single-spaced |
| Text.CleanText | data/scrape/google_news_scraper.py:77-78 | `clean_text(s)`: the substitution, then both strips; stated by the Text.CleanText lemmas |
| Text.CleanTextIsClean | data/scrape/google_news_scraper.py:77-78 | every `clean_text` result has no leading or trailing whitespace, no whitespace other than `' '`, and no two whitespace characters in a row |
| Text.CleanTextFixesClean | data/scrape/google_news_scraper.py:77-78 | a string that is already clean is returned unchanged |
| Text.CleanTextIdempotent | data/scrape/google_news_scraper.py:77-78 | cleaning twice equals cleaning once |
| Text.CleanTextKeepsContent | data/scrape/google_news_scraper.py:77-78 | cleaning keeps every non-whitespace character, in order, and adds none |
| Text.CleanTextEmptyIff | data/scrape/google_news_scraper.py:77-78 | the result is empty exactly when the input is all whitespace |
| Text.CleanTextJoin | data/scrape/google_news_scraper.py:77-78 | words stay separated: two non-blank strings with any non-empty whitespace run between them clean to their cleaned forms joined by exactly one space |
| Text.ReplaceChar | data/scrape/google_news_scraper.py:33 | `str.replace` of one character by another: same length, each occurrence of the old character mapped to the new one and every other character kept |
| Text.GoogleNewsRssUrl | data/scrape/google_news_scraper.py:31-34 | the feed URL always starts with the fixed search prefix `https://news.google.com/rss/search?q=` |
| Text.DefaultRssUrl | data/scrape/google_news_scraper.py:31 | the URL built with the default arguments `hl="en-US"`, `gl="US"`, `ceid="US:en"`, the form `scrape_label` calls |
| Text.TakeUntil | data/scrape/google_news_scraper.py:34 | the longest prefix before a separator: a prefix without the separator, followed by the separator when shorter than the whole |
| Text.RssUrlRoundTrip | data/scrape/google_news_scraper.py:31-34 | for a query with no `&` and no `+`, the query is recovered from the URL built for any locale arguments |
| Resolver.FirstExternal | data/scrape/google_news_scraper.py:125-128 | the index of the first anchor that starts with `http` and does not contain `news.google.com`; every earlier anchor fails that test |
| Resolver.Resolve | data/scrape/google_news_scraper.py:108-131 | a failed fetch keeps the input, and a non-empty input never resolves to the empty string; the full rule is Resolver.ResolveSpec |
| Resolver.ResolveSpec | data/scrape/google_news_scraper.py:114-131 | a failed fetch gives the input; a non-empty canonical `href` wins; otherwise it gives the first external anchor, or the input exactly when no anchor is external |
| Resolver.ResolveOutcomes | data/scrape/google_news_scraper.py:119-131 | the result is never empty for a non-empty input, and is the input, the canonical link or an external anchor of the page |
| Store.AsLines | data/scrape/google_news_scraper.py:94-96 | appending rows writes one line per row |
| Store.AsLinesAt | data/scrape/google_news_scraper.py:94-96 | the k-th appended line holds the k-th row |
| Store.Parsed | data/scrape/google_news_scraper.py:86-91 | the records of the log's lines, in log order, blank and corrupt lines giving none; never more records than lines |
| Store.ParsedMembers | data/scrape/google_news_scraper.py:86-91 | a record is among the parsed records exactly when some log line holds it |
| Store.ParsedIdsExactly | data/scrape/google_news_scraper.py:83-92 | an id is collected exactly when some record line carries it; blank and corrupt lines contribute nothing |
| Store.ParsedAppend | data/scrape/google_news_scraper.py:94-96 | appending rows to the log appends them, in order, to its parsed records |
| Store.IdsOfConcat | data/scrape/google_news_scraper.py:89 | the ids of two runs of records are the union of their ids |
| Store.IdsOfSnoc | data/scrape/google_news_scraper.py:89 | one more record adds exactly its id |
| Store.SnocNewId | data/scrape/google_news_scraper.py:105 | a record with an id not yet present keeps the ids distinct |
| Store.Store.LoadSeenIds | data/scrape/google_news_scraper.py:83-92 | the loop returns exactly the ids of the log's record lines |
| Store.Store.AppendRaw | data/scrape/google_news_scraper.py:94-96 | one more complete line at the end of the log; the snapshot is unchanged |
| Store.Store.RebuildCsv | data/scrape/google_news_scraper.py:98-106 | the log is unchanged; with no records (an empty log, or only blank lines) nothing is written; a corrupt line makes it fail and keep the old snapshot; otherwise the snapshot is the keep-first deduplication of the log's records |
| Store.FirstIndex | data/scrape/google_news_scraper.py:105 | the position of the first record with a given id |
| Store.KeepFirst | data/scrape/google_news_scraper.py:105 | `drop_duplicates("id")` with the default `keep="first"`; never longer than its input; stated by the Store.KeepFirst lemmas |
| Store.KeepFirstIds | data/scrape/google_news_scraper.py:105 | the snapshot has exactly the log's ids, each once |
| Store.FirstOfItsIdPrefix | data/scrape/google_news_scraper.py:105 | a first occurrence of an id in all but the last record is its first occurrence in the whole |
| Store.KeepFirstPicksFirst | data/scrape/google_news_scraper.py:105 | every snapshot row is the first record of the log with its id |
| Store.KeptInPrefix | data/scrape/google_news_scraper.py:105 | a row kept from all but the last record keeps the position of its first occurrence |
| Store.OrderOfKept | data/scrape/google_news_scraper.py:105 | the order of the rows kept from all but the last record carries over to the whole log |
| Store.KeepFirstKeepsOrder | data/scrape/google_news_scraper.py:105 | snapshot rows come in the order of their ids' first occurrences in the log |
| Store.KeepFirstOfDistinct | data/scrape/google_news_scraper.py:105 | a log without repeated ids is kept as it is |
| Store.KeepFirstIdempotent | data/scrape/google_news_scraper.py:105 | deduplicating the snapshot again changes nothing |
| Store.KeepFirstRowsFromLog | data/scrape/google_news_scraper.py:105 | every snapshot row is a record of the log |
| Store.Ledger.Add | data/scrape/google_news_scraper.py:194 | `seen.add(id)` adds exactly that id |
| Scraper.ExtractFullText | data/scrape/google_news_scraper.py:133-144 | a failed or empty download gives the empty text; after a download, a failed extraction gives the empty text and an extracted text is returned cleaned |
| Scraper.ExtractFullTextClean | data/scrape/google_news_scraper.py:137-142 | the extracted text is always clean (trimmed and single-spaced) |
| Scraper.ChooseText | data/scrape/google_news_scraper.py:175-177 | an extracted text of at least `MIN_TEXT_LEN` characters is used unchanged; a shorter one is replaced by `clean_text(title + ". " + summary)` |
| Scraper.ChooseTextClean | data/scrape/google_news_scraper.py:175-177 | a clean extracted text gives a clean chosen text on both branches |
| Scraper.SummaryOf | data/scrape/google_news_scraper.py:169 | `summary or description`: non-empty exactly when one of the two is |
| Scraper.Original | data/scrape/google_news_scraper.py:162 | the entry's link resolved through the page its fetch produced |
| Scraper.EntryText | data/scrape/google_news_scraper.py:174-177 | the text an entry is stored with, the extracted text with the title-and-summary fallback; stated by Scraper.EntryTextClean and Scraper.AdmitRow |
| Scraper.EntryRow | data/scrape/google_news_scraper.py:182-192 | the row of an entry is keyed by `stable_id` of its URL and carries the call's label |
| Scraper.Admit | data/scrape/google_news_scraper.py:157-192 | no link means no row; an admitted row has an unseen id equal to `stable_id` of its URL, the resolved URL, the label, and a text of at least `MIN_TEXT_LEN` |
| Scraper.EntryTextClean | data/scrape/google_news_scraper.py:168-177 | every stored text is clean |
| Scraper.AdmitWhen | data/scrape/google_news_scraper.py:157-180 | an entry is admitted exactly when it has a link, its id is unseen, and either the extracted text or the fallback is long enough |
| Scraper.AdmitRow | data/scrape/google_news_scraper.py:168-192 | an admitted row holds the cleaned title and summary (summary falling back to description), the URL's host, the cleaned publication date, the timestamp of its position, and the extracted text when long enough, else the fallback |
| Scraper.AdmittedClean | data/scrape/google_news_scraper.py:168-177 | the text of an admitted row is clean |
| Scraper.BuiltRow | data/scrape/google_news_scraper.py:182-192 | the row the loop builds field by field is the admitted row |
| Scraper.Step | data/scrape/google_news_scraper.py:154-199 | one iteration of the entry loop on the running state; stated by Scraper.StepSound, Scraper.StepSaturated, Scraper.StepRejects and Scraper.StepAdmits |
| Scraper.SnocSound | data/scrape/google_news_scraper.py:193-195 | appending an admissible row below the quota keeps the loop invariant |
| Scraper.StepSound | data/scrape/google_news_scraper.py:154-199 | one loop iteration keeps the invariant (ledger = old `seen` + appended ids, quota, distinct and unseen ids, valid rows) and only appends |
| Scraper.StepSaturated | data/scrape/google_news_scraper.py:154-155 | with the quota met an iteration changes nothing |
| Scraper.StepRejects | data/scrape/google_news_scraper.py:157-180 | an entry without a link, with a seen id, or with no long enough text is skipped with no change to rows or `seen` |
| Scraper.StepAdmits | data/scrape/google_news_scraper.py:193-195 | below the quota, an admitted entry appends its row and adds its id |
| Scraper.StepSkips | data/scrape/google_news_scraper.py:157-180 | an entry that is not admitted changes nothing |
| Scraper.StepAccepts | data/scrape/google_news_scraper.py:182-195 | below the quota, a linked entry with an unseen id and a long enough text appends exactly its row and id |
| Scraper.LogSnoc | data/scrape/google_news_scraper.py:193 | appending one line after the lines of some rows is the lines of those rows plus that one |
| Scraper.Fold | data/scrape/google_news_scraper.py:153-199 | the entry loop as a left fold of the iteration over a feed; stated by Scraper.FoldSound and the Fold lemmas |
| Scraper.FoldSound | data/scrape/google_news_scraper.py:153-199 | processing any entries keeps the invariant and only appends |
| Scraper.FoldSnoc | data/scrape/google_news_scraper.py:153 | processing one more entry is one more iteration |
| Scraper.FoldNext | data/scrape/google_news_scraper.py:153 | the first `ei + 1` entries of a feed are the first `ei` and one more iteration |
| Scraper.FoldConcat | data/scrape/google_news_scraper.py:148-153 | processing one feed after another is processing their concatenation |
| Scraper.FoldSaturated | data/scrape/google_news_scraper.py:198-199 | once the quota is met, any further entries change nothing, so returning early is the same as walking on |
| Scraper.FeedSaturated | data/scrape/google_news_scraper.py:154-155 | the rest of a feed after the quota is met changes nothing |
| Scraper.FeedEntries | data/scrape/google_news_scraper.py:148-151 | the entries of every query's feed, query after query, each feed read from the default URL of its query; stated by Scraper.FeedEntriesLast, Scraper.FeedEntriesSplit and Scraper.FeedEntriesSnoc |
| Scraper.FeedEntriesLast | data/scrape/google_news_scraper.py:148-151 | the entries of a query list end with the last query's feed |
| Scraper.FeedEntriesSplit | data/scrape/google_news_scraper.py:148-151 | the entries of a query list are those of a prefix followed by those of the rest |
| Scraper.FeedEntriesSplitStep | data/scrape/google_news_scraper.py:148-151 | a split of all but the last query extends to the whole list |
| Scraper.FeedEntriesSnoc | data/scrape/google_news_scraper.py:148-151 | the entries up to a query are the earlier ones followed by that query's feed |
| Scraper.QuotaMetStopsLabel | data/scrape/google_news_scraper.py:198-199 | with the quota met after some queries, the later queries add nothing |
| Scraper.ScrapeLabelSpec | data/scrape/google_news_scraper.py:146-201 | what `scrape_label` computes: the fold over all the label's feeds from no rows and the given `seen`; stated by the four Scraper.ScrapeLabel lemmas below |
| Scraper.ScrapeLabelWithinQuota | data/scrape/google_news_scraper.py:146-201 | a label never gets more than `TARGET_PER_LABEL` rows |
| Scraper.ScrapeLabelNoDuplicates | data/scrape/google_news_scraper.py:164-166 | appended ids are pairwise distinct and none was in `seen` before the call |
| Scraper.ScrapeLabelLedger | data/scrape/google_news_scraper.py:193-195 | afterwards `seen` is the old `seen` plus exactly the ids of the appended rows |
| Scraper.ScrapeLabelRowsValid | data/scrape/google_news_scraper.py:164-190 | every appended row has the call's label, a clean text of at least `MIN_TEXT_LEN` characters, and the id of its URL |
| Scraper.ConsiderEntry | data/scrape/google_news_scraper.py:157-195 | the loop body appends a line and adds an id exactly when the entry is admitted, and then exactly the admitted row and its id; otherwise the log and `seen` are unchanged |
| Scraper.StepLog | data/scrape/google_news_scraper.py:157-195 | what the loop body leaves in the log and `seen` is one iteration of the fold |
| Scraper.StepEntry | data/scrape/google_news_scraper.py:154-199 | below the quota the loop body takes the log and `seen` from one fold state to the next, adding one to the count exactly when a row is appended |
| Scraper.ScrapeFeed | data/scrape/google_news_scraper.py:153-199 | the entry loop, with its early returns, leaves the log, `seen` and `added` as the fold over the feed says; `added` stays within the quota |
| Scraper.ScrapeLabel | data/scrape/google_news_scraper.py:146-201 | `added` is the number of rows of the fold over all the label's feeds; the log gained exactly those rows' lines; `seen` is the fold's ledger; `added` is within the quota |
| Scraper.CatalogShape | data/scrape/google_news_scraper.py:36-72 | `LABEL_QUERIES` holds the labels business, tech, science, health and world, in that order, with five queries each |
| Scraper.ExtendLog | data/scrape/google_news_scraper.py:193-195 | appending distinct, unseen, valid rows keeps every added log line fresh (catalog label, long text, id not on any earlier line) |
| Scraper.AppendedSegment | data/scrape/google_news_scraper.py:193 | the lines appended for rows of one label are a run of lines of that label |
| Scraper.SegmentKept | data/scrape/google_news_scraper.py:193 | appending to the log keeps every earlier run of lines |
| Scraper.SegmentsExtend | data/scrape/google_news_scraper.py:207-210 | after one more label its lines are one more segment, and the earlier segments are kept |
| Scraper.LabelAppend | data/scrape/google_news_scraper.py:208 | the log after one `scrape_label(label, queries, seen)` call, with `seen` the ids of the log; stated by Scraper.RunLabel and Scraper.RunLabelsSpecStep |
| Scraper.RunLabelsSpec | data/scrape/google_news_scraper.py:206-210 | the log after the label loop, one label after another in catalog order; stated by Scraper.RunLabelsSpecExtends, Scraper.RunLabelsSpecStep and Scraper.RunLabels |
| Scraper.RunLabelsSpecExtends | data/scrape/google_news_scraper.py:206-210 | the label loop only appends: the starting log is a prefix of the log it ends with |
| Scraper.RunLabelsSpecStep | data/scrape/google_news_scraper.py:206-210 | one more catalog label appends that label's `scrape_label` rows to the log the earlier labels left |
| Scraper.LabelTurn | data/scrape/google_news_scraper.py:206-210 | after one more label the log holds one more segment, its length is the sum of the counts, and it is one more step of the label loop's specification |
| Scraper.RunLabel | data/scrape/google_news_scraper.py:207-210 | one label of `run()`: `added` and the new lines are exactly those of `scrape_label`'s fold from the shared ledger, that is, the log becomes `LabelAppend` of the old log; they are all of this label and within the quota; older lines are untouched, new lines are fresh, and the ledger stays the set of ids in the log |
| Scraper.RunLabels | data/scrape/google_news_scraper.py:205-211 | the label loop: the new log is exactly `RunLabelsSpec` of the old log over the catalog, so every label's lines are what `scrape_label` appends for it; one count per label, each within the quota; the total is their sum and the log's growth; old lines are untouched; the i-th segment of new lines has `counts[i]` lines, all of the i-th label; every new line is fresh |
| Scraper.Run | data/scrape/google_news_scraper.py:203-213 | the label loop over `LABEL_QUERIES` from the ledger `load_seen_ids` gives: the log becomes `RunLabelsSpec` of the old log over the catalog, with the segment, quota and freshness facts of Scraper.RunLabels; then the rebuild succeeds exactly when no line is corrupt, and the snapshot is the keep-first deduplication of the records when there are any |

## Left out

- Network and parsing libraries: feed fetching, the HTTP request of the resolver, the
  article download and extraction, and the HTML parser. These are the functions of a `Web`
  value. A request or download that throws, times out or returns an error status is their
  `None` result; the swallowed exception is that fallback.
- `stable_id`: SHA-1 is an uninterpreted function of the URL. Nothing assumes it is
  injective, so "no duplicate id" is a statement about ids, not about URLs.
- `urlparse(...).netloc`: an uninterpreted, total host function.
- Scraper.Run: `urlparse(original)` at line 185 sits outside any `try`, and it raises
  `ValueError` on some untrusted `href`s (such as the canonical link `http://[bad`). That
  exception aborts `scrape_label` and `run()`: the lines already appended stay, and the
  CSV is not rebuilt. The model's host function is total, so `Run` always reaches the
  rebuild.
- JSON encoding and decoding, and pandas. A log line is a full record, a blank line or a
  corrupt line. Type coercion by the JSON-lines reader and a parseable line missing some
  columns are not modelled.
- Store.Store.AppendRaw: every write is modelled as a complete, newline-terminated line.
  When an interrupted earlier write has left the file ending in a partial line without a
  newline, the source's next append continues that same line. The result is one corrupt
  line, so the appended record is lost to the next `load_seen_ids`, and `rebuild_csv`
  fails on it. The model has no unterminated tail, so it does not show that loss.
- The file system:
  - an absent file is the same as an empty one;
  - `os.makedirs` is left out;
  - write errors in `append_raw` are left out.
- The side effects with no logical content are left out:
  - `time.sleep`;
  - the progress bar;
  - the printed messages;
  - re-reading the CSV at the end of `run()` to print a summary.
- `datetime.now`: a clock function indexed by the log position of the row.
- Scraper.ScrapeLabel: the source's `seen` is a Python set shared by all labels. Here it is
  one `Ledger` object that `Run` passes to every call. The model does not capture aliasing
  of that set with anything else.
- Text.GoogleNewsRssUrl: its contract states only the fixed prefix. The full content is
  stated by Text.RssUrlRoundTrip, and it is recoverable only for queries without `&` or `+`,
  which includes every catalog query. Other characters are not URL-encoded, and the source
  does not encode them either.

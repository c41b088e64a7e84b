/**
 * The ingestion pipeline: `scrape_label`, which walks a label's queries and
 * their feed entries and appends accepted articles to the log, and `run`,
 * which does so for every label of the catalog and then rebuilds the CSV.
 *
 * Everything that talks to the outside world is a parameter (`Web`): the
 * feed reader, the page fetcher behind the link resolver, the article
 * downloader and extractor, the SHA-1 based id, the URL host parser and the
 * clock. Fetch failures, which the source swallows, are the `None` and empty
 * results of these functions.
 */
module Scraper {
  import opened Options
  import opened Text
  import opened Resolver
  import opened Store

  /** Shortest article text worth keeping. */
  const MIN_TEXT_LEN: nat := 220

  /** Most rows one run adds for one label. */
  const TARGET_PER_LABEL: nat := 450

  /** A feed entry. A missing attribute is the empty string: the source reads
      every one through `getattr(e, name, "") or ""`, which treats a missing
      and an empty attribute alike. */
  datatype Entry = Entry(
    link: string,
    title: string,
    summary: string,
    description: string,
    published: string)

  /** The outside world, as functions of their inputs. */
  datatype Web = Web(
    // feedparser.parse(url).entries; no entries when the fetch fails
    feed: string -> seq<Entry>,
    // requests.get(url) parsed into a Page; None when the request fails
    page: string -> Option<Page>,
    // trafilatura.fetch_url(url); None when the download fails
    download: string -> Option<string>,
    // trafilatura.extract(document); None when nothing is extracted
    extract: string -> Option<string>,
    // stable_id(url), a SHA-1 hex digest of the URL
    stableId: string -> string,
    // urlparse(url).netloc
    netloc: string -> string,
    // the UTC timestamp of the n-th line written to the log
    clock: nat -> string)

  /** `extract_full_text(url)`: the cleaned main text of the page, or `""`
      when the download or the extraction fails. */
  function ExtractFullText(web: Web, url: string): (r: string)
    ensures web.download(url) == None || web.download(url) == Some("") ==> r == ""
    ensures web.download(url).Some? && web.download(url).value != "" ==>
      var doc := web.download(url).value;
      r == if web.extract(doc).Some? then CleanText(web.extract(doc).value) else ""
  {
    match web.download(url)
    case None => ""
    case Some(doc) =>
      if doc == "" then ""
      else match web.extract(doc)
        case None => ""
        case Some(t) => CleanText(t)
  }

  /** The extracted text is clean, whatever the page held. */
  lemma ExtractFullTextClean(web: Web, url: string)
    ensures Clean(ExtractFullText(web, url))
  {
    match web.download(url)
    case None =>
    case Some(doc) =>
      if doc != "" {
        match web.extract(doc)
        case None =>
        case Some(t) => CleanTextIsClean(t);
      }
  }

  /** The text-fallback policy: the extracted text when it is long enough,
      otherwise `clean_text(title + ". " + summary)`. */
  function ChooseText(extracted: string, title: string, summary: string): (r: string)
    ensures |extracted| >= MIN_TEXT_LEN ==> r == extracted
    ensures |extracted| < MIN_TEXT_LEN ==> r == CleanText(title + ". " + summary)
  {
    if |extracted| < MIN_TEXT_LEN then CleanText(title + ". " + summary) else extracted
  }

  /** A clean extracted text gives a clean result either way. */
  lemma ChooseTextClean(extracted: string, title: string, summary: string)
    requires Clean(extracted)
    ensures Clean(ChooseText(extracted, title, summary))
  {
    CleanTextIsClean(title + ". " + summary);
  }

  /** `summary or description`. */
  function SummaryOf(e: Entry): (r: string)
    ensures r != "" <==> e.summary != "" || e.description != ""
  {
    if e.summary != "" then e.summary else e.description
  }

  /** The resolved URL of an entry, and so its id. */
  function Original(web: Web, e: Entry): string {
    Resolve(e.link, web.page(e.link))
  }

  /** The text an entry would be stored with. */
  function EntryText(web: Web, e: Entry): string {
    ChooseText(ExtractFullText(web, Original(web, e)), CleanText(e.title), CleanText(SummaryOf(e)))
  }

  /** The row an accepted entry is stored as, `pos` being its log position. */
  function EntryRow(web: Web, category: string, e: Entry, pos: nat): (r: Record)
    ensures r.id == web.stableId(r.url) && r.category == category
  {
    var original := Original(web, e);
    Record(web.stableId(original), category, web.netloc(original), original,
           if e.published != "" then CleanText(e.published) else "",
           CleanText(e.title), CleanText(SummaryOf(e)), EntryText(web, e), web.clock(pos))
  }

  /** What one feed entry contributes, given the ids seen so far and the log
      position its line would take: the row to append, or `None` when the
      entry is skipped (no link, an id already seen, or no text long enough
      even after the fallback). */
  function Admit(web: Web, category: string, e: Entry, seen: set<string>, pos: nat): (r: Option<Record>)
    ensures e.link == "" ==> r == None
    ensures r.Some? ==>
      var row := r.value;
      row.id !in seen
      && row.id == web.stableId(row.url)
      && row.url == Resolve(e.link, web.page(e.link))
      && row.category == category
      && |row.text| >= MIN_TEXT_LEN
  {
    if e.link == "" then None
    else
      var original := Original(web, e);
      var id := web.stableId(original);
      if id in seen then None
      else
        var text := EntryText(web, e);
        if |text| < MIN_TEXT_LEN then None
        else Some(EntryRow(web, category, e, pos))
  }

  /** The text of every stored entry is clean. */
  lemma EntryTextClean(web: Web, e: Entry)
    ensures Clean(EntryText(web, e))
  {
    var original := Original(web, e);
    ExtractFullTextClean(web, original);
    ChooseTextClean(ExtractFullText(web, original), CleanText(e.title), CleanText(SummaryOf(e)));
  }

  /** An entry is accepted exactly when it has a link, the id of its
      resolved URL has not been seen, and the extracted text or the
      title-and-summary fallback is long enough. */
  lemma AdmitWhen(web: Web, category: string, e: Entry, seen: set<string>, pos: nat)
    ensures var original := Resolve(e.link, web.page(e.link));
      var extracted := ExtractFullText(web, original);
      var fallback := CleanText(CleanText(e.title) + ". " + CleanText(SummaryOf(e)));
      Admit(web, category, e, seen, pos).Some? <==>
        e.link != "" && web.stableId(original) !in seen
        && (|extracted| >= MIN_TEXT_LEN || |fallback| >= MIN_TEXT_LEN)
  {
  }

  /** What the row of an accepted entry holds: the title and summary cleaned,
      the summary falling back to the description, the extracted text when it
      is long enough and the title-and-summary fallback otherwise, the host of
      the resolved URL, and the timestamp of its log position. */
  lemma AdmitRow(web: Web, category: string, e: Entry, seen: set<string>, pos: nat)
    requires Admit(web, category, e, seen, pos).Some?
    ensures var original := Resolve(e.link, web.page(e.link));
      var extracted := ExtractFullText(web, original);
      var title := CleanText(e.title);
      var summary := CleanText(SummaryOf(e));
      var row := Admit(web, category, e, seen, pos).value;
      row.title == title && row.summary == summary
      && row.source == web.netloc(original)
      && row.publishedAt == CleanText(e.published)
      && row.scrapedAt == web.clock(pos)
      && row.text == if |extracted| >= MIN_TEXT_LEN then extracted
                     else CleanText(title + ". " + summary)
  {
    assert CleanText("") == "" by {
      CleanTextEmptyIff("");
    }
    assert Admit(web, category, e, seen, pos).value == EntryRow(web, category, e, pos);
  }

  /** The row the entry loop builds field by field is `EntryRow`. */
  lemma BuiltRow(web: Web, category: string, e: Entry, pos: nat, original: string,
                 published: string, title: string, summary: string, text: string)
    requires original == Original(web, e)
    requires published == if e.published != "" then CleanText(e.published) else ""
    requires title == CleanText(e.title) && summary == CleanText(SummaryOf(e))
    requires text == EntryText(web, e)
    ensures Record(web.stableId(original), category, web.netloc(original), original, published,
                   title, summary, text, web.clock(pos))
         == EntryRow(web, category, e, pos)
  {
  }

  /** The running state of one `scrape_label` call: the rows appended so far
      (so `added` is their number) and the ledger. */
  datatype Harvest = Harvest(rows: seq<Record>, seen: set<string>)

  /** One iteration of the entry loop. `base` is the log length when the call
      started. Once the quota is met nothing changes any more. */
  function Step(web: Web, category: string, base: nat, h: Harvest, e: Entry): Harvest {
    if |h.rows| >= TARGET_PER_LABEL then h
    else match Admit(web, category, e, h.seen, base + |h.rows|)
      case None => h
      case Some(row) => Harvest(h.rows + [row], h.seen + {row.id})
  }

  /** The state after processing `es` in order. */
  function Fold(web: Web, category: string, base: nat, h: Harvest, es: seq<Entry>): Harvest
    decreases |es|
  {
    if es == [] then h
    else Step(web, category, base, Fold(web, category, base, h, es[..|es| - 1]), es[|es| - 1])
  }

  /** The entries of every query's feed, query after query. */
  function FeedEntries(web: Web, queries: seq<string>): seq<Entry>
    decreases |queries|
  {
    if queries == [] then []
    else
      FeedEntries(web, queries[..|queries| - 1])
      + web.feed(DefaultRssUrl(queries[|queries| - 1]))
  }

  /** What `scrape_label(category, queries, seen)` does, from a log of `base`
      lines: the rows it appends and the ledger it leaves. */
  function ScrapeLabelSpec(web: Web, category: string, queries: seq<string>,
                           seen: set<string>, base: nat): Harvest
  {
    Fold(web, category, base, Harvest([], seen), FeedEntries(web, queries))
  }

  /** The invariant of the loop: the ledger is the starting ledger plus the
      ids appended, those ids are distinct and new, the quota holds, and
      every appended row is of this category, long enough, clean, and keyed
      by the id of its URL. */
  ghost predicate Sound(web: Web, category: string, seen0: set<string>, h: Harvest) {
    h.seen == seen0 + IdsOf(h.rows)
    && |h.rows| <= TARGET_PER_LABEL
    && DistinctIds(h.rows)
    && forall i :: 0 <= i < |h.rows| ==>
         h.rows[i].id !in seen0
         && h.rows[i].id == web.stableId(h.rows[i].url)
         && h.rows[i].category == category
         && |h.rows[i].text| >= MIN_TEXT_LEN && Clean(h.rows[i].text)
  }

  /** Appending one admissible row keeps the invariant. */
  lemma SnocSound(web: Web, category: string, seen0: set<string>, h: Harvest, row: Record)
    requires Sound(web, category, seen0, h) && |h.rows| < TARGET_PER_LABEL
    requires row.id !in h.seen && row.id == web.stableId(row.url) && row.category == category
    requires |row.text| >= MIN_TEXT_LEN && Clean(row.text)
    ensures Sound(web, category, seen0, Harvest(h.rows + [row], h.seen + {row.id}))
  {
    var rows := h.rows + [row];
    IdsOfConcat(h.rows, [row]);
    assert IdsOf([row]) == {row.id};
    forall i | 0 <= i < |h.rows| ensures h.rows[i].id != row.id {
      assert h.rows[i] in h.rows;
    }
    assert forall i :: 0 <= i < |h.rows| ==> rows[i] == h.rows[i];
    assert rows[|h.rows|] == row;
  }

  lemma StepSound(web: Web, category: string, base: nat, seen0: set<string>, h: Harvest, e: Entry)
    requires Sound(web, category, seen0, h)
    ensures Sound(web, category, seen0, Step(web, category, base, h, e))
    ensures h.rows <= Step(web, category, base, h, e).rows
  {
    var a := Admit(web, category, e, h.seen, base + |h.rows|);
    if |h.rows| < TARGET_PER_LABEL && a.Some? {
      StepAdmits(web, category, base, h, e);
      AdmittedClean(web, category, e, h.seen, base + |h.rows|);
      SnocSound(web, category, seen0, h, a.value);
    } else {
      assert Step(web, category, base, h, e) == h;
    }
  }

  /** The text of an admitted row is clean. */
  lemma AdmittedClean(web: Web, category: string, e: Entry, seen: set<string>, pos: nat)
    requires Admit(web, category, e, seen, pos).Some?
    ensures Clean(Admit(web, category, e, seen, pos).value.text)
  {
    assert Admit(web, category, e, seen, pos).value.text == EntryText(web, e);
    EntryTextClean(web, e);
  }

  /** With the quota met, a step changes nothing. */
  lemma StepSaturated(web: Web, category: string, base: nat, h: Harvest, e: Entry)
    requires |h.rows| >= TARGET_PER_LABEL
    ensures Step(web, category, base, h, e) == h
  {
  }

  /** The `continue` branches of the entry loop: an entry without a link, with
      an id already seen, or without a long enough text changes nothing. */
  lemma StepRejects(web: Web, category: string, base: nat, h: Harvest, e: Entry)
    requires e.link == "" || web.stableId(Original(web, e)) in h.seen
      || |EntryText(web, e)| < MIN_TEXT_LEN
    ensures Step(web, category, base, h, e) == h
  {
  }

  /** A step that admits its entry appends the admitted row. */
  lemma StepAdmits(web: Web, category: string, base: nat, h: Harvest, e: Entry)
    requires |h.rows| < TARGET_PER_LABEL
    requires Admit(web, category, e, h.seen, base + |h.rows|).Some?
    ensures var row := Admit(web, category, e, h.seen, base + |h.rows|).value;
      Step(web, category, base, h, e) == Harvest(h.rows + [row], h.seen + {row.id})
  {
  }

  /** A step whose entry is not admitted changes nothing. */
  lemma StepSkips(web: Web, category: string, base: nat, h: Harvest, e: Entry)
    requires Admit(web, category, e, h.seen, base + |h.rows|).None?
    ensures Step(web, category, base, h, e) == h
  {
  }

  /** The appending branch of the entry loop. */
  lemma StepAccepts(web: Web, category: string, base: nat, h: Harvest, e: Entry)
    requires |h.rows| < TARGET_PER_LABEL && e.link != ""
    requires web.stableId(Original(web, e)) !in h.seen && |EntryText(web, e)| >= MIN_TEXT_LEN
    ensures var row := EntryRow(web, category, e, base + |h.rows|);
      Step(web, category, base, h, e) == Harvest(h.rows + [row], h.seen + {row.id})
  {
    assert Admit(web, category, e, h.seen, base + |h.rows|)
      == Some(EntryRow(web, category, e, base + |h.rows|));
  }

  /** Appending a row to the log appends its line. */
  lemma LogSnoc(lines: seq<Line>, rows: seq<Record>, row: Record)
    ensures lines + AsLines(rows) + [Rec(row)] == lines + AsLines(rows + [row])
  {
    assert (rows + [row])[..|rows|] == rows;
  }

  /** Processing entries keeps the invariant and only ever appends. */
  lemma {:induction false} FoldSound(web: Web, category: string, base: nat, seen0: set<string>,
                                     h: Harvest, es: seq<Entry>)
    requires Sound(web, category, seen0, h)
    ensures Sound(web, category, seen0, Fold(web, category, base, h, es))
    ensures h.rows <= Fold(web, category, base, h, es).rows
    decreases |es|
  {
    if es != [] {
      var mid := Fold(web, category, base, h, es[..|es| - 1]);
      FoldSound(web, category, base, seen0, h, es[..|es| - 1]);
      StepSound(web, category, base, seen0, mid, es[|es| - 1]);
    }
  }

  /** Processing one more entry is one more step. */
  lemma FoldSnoc(web: Web, category: string, base: nat, h: Harvest, es: seq<Entry>, e: Entry)
    ensures Fold(web, category, base, h, es + [e])
         == Step(web, category, base, Fold(web, category, base, h, es), e)
  {
    assert (es + [e])[..|es|] == es;
  }

  /** One more entry of the feed is one more step. */
  lemma FoldNext(web: Web, category: string, base: nat, h: Harvest, entries: seq<Entry>, ei: nat)
    requires ei < |entries|
    ensures Fold(web, category, base, h, entries[..ei + 1])
         == Step(web, category, base, Fold(web, category, base, h, entries[..ei]), entries[ei])
  {
    assert entries[..ei + 1][..ei] == entries[..ei];
  }

  /** Processing `xs` and then `ys` is processing `xs + ys`. */
  lemma {:induction false} FoldConcat(web: Web, category: string, base: nat, h: Harvest,
                                      xs: seq<Entry>, ys: seq<Entry>)
    ensures Fold(web, category, base, h, xs + ys)
         == Fold(web, category, base, Fold(web, category, base, h, xs), ys)
    decreases |ys|
  {
    if ys == [] {
      assert xs + ys == xs;
    } else {
      var init := ys[..|ys| - 1];
      FoldConcat(web, category, base, h, xs, init);
      ConcatSnoc(xs, ys);
      FoldSnoc(web, category, base, h, xs + init, ys[|ys| - 1]);
    }
  }

  /** The early returns of the entry loop: with the quota met after `ei`
      entries, the rest of the feed changes nothing. */
  lemma FeedSaturated(web: Web, category: string, base: nat, h: Harvest, entries: seq<Entry>, ei: nat)
    requires ei <= |entries|
    requires |Fold(web, category, base, h, entries[..ei]).rows| >= TARGET_PER_LABEL
    ensures Fold(web, category, base, h, entries) == Fold(web, category, base, h, entries[..ei])
  {
    var xs, ys := entries[..ei], entries[ei..];
    assert xs + ys == entries;
    FoldSaturated(web, category, base, h, xs, ys);
  }

  lemma ConcatSnoc(xs: seq<Entry>, ys: seq<Entry>)
    requires ys != []
    ensures xs + ys == (xs + ys[..|ys| - 1]) + [ys[|ys| - 1]]
  {
  }

  /** Once the quota is met, the remaining entries change nothing: stopping
      early, as the source does, gives the same result as walking on. */
  lemma {:induction false} FoldSaturated(web: Web, category: string, base: nat, h: Harvest,
                                         xs: seq<Entry>, ys: seq<Entry>)
    requires |Fold(web, category, base, h, xs).rows| >= TARGET_PER_LABEL
    ensures Fold(web, category, base, h, xs + ys) == Fold(web, category, base, h, xs)
    decreases |ys|
  {
    if ys == [] {
      assert xs + ys == xs;
    } else {
      var init := ys[..|ys| - 1];
      var last := ys[|ys| - 1];
      FoldSaturated(web, category, base, h, xs, init);
      var mid := Fold(web, category, base, h, xs + init);
      ConcatSnoc(xs, ys);
      FoldSnoc(web, category, base, h, xs + init, last);
      StepSaturated(web, category, base, mid, last);
    }
  }

  /** The entries of a non-empty query list end with its last query's feed. */
  lemma FeedEntriesLast(web: Web, queries: seq<string>)
    requires queries != []
    ensures FeedEntries(web, queries)
         == FeedEntries(web, queries[..|queries| - 1]) + web.feed(DefaultRssUrl(queries[|queries| - 1]))
  {
  }

  lemma {:induction false} FeedEntriesSplit(web: Web, queries: seq<string>, k: nat)
    requires k <= |queries|
    ensures FeedEntries(web, queries) == FeedEntries(web, queries[..k]) + FeedEntries(web, queries[k..])
    decreases |queries| - k
  {
    if k < |queries| {
      FeedEntriesSplit(web, queries[..|queries| - 1], k);
      FeedEntriesSplitStep(web, queries, k);
    } else {
      assert queries[..k] == queries;
      assert queries[k..] == [];
    }
  }

  /** The inductive step of `FeedEntriesSplit`: a split of all but the last
      query extends to the whole list. */
  lemma FeedEntriesSplitStep(web: Web, queries: seq<string>, k: nat)
    requires k < |queries|
    requires var init := queries[..|queries| - 1];
      FeedEntries(web, init) == FeedEntries(web, init[..k]) + FeedEntries(web, init[k..])
    ensures FeedEntries(web, queries) == FeedEntries(web, queries[..k]) + FeedEntries(web, queries[k..])
  {
    var n := |queries|;
    var init, rest := queries[..n - 1], queries[k..];
    var last := web.feed(DefaultRssUrl(queries[n - 1]));
    assert init[..k] == queries[..k];
    assert rest[..|rest| - 1] == init[k..] && rest[|rest| - 1] == queries[n - 1];
    var a, b := FeedEntries(web, queries[..k]), FeedEntries(web, init[k..]);
    FeedEntriesLast(web, queries);
    assert FeedEntries(web, queries) == (a + b) + last;
    FeedEntriesLast(web, rest);
    assert FeedEntries(web, rest) == b + last;
  }

  /** The entries up to query `k` and then those of query `k`. */
  lemma FeedEntriesSnoc(web: Web, queries: seq<string>, k: nat)
    requires k < |queries|
    ensures FeedEntries(web, queries[..k + 1])
         == FeedEntries(web, queries[..k]) + web.feed(DefaultRssUrl(queries[k]))
  {
    assert queries[..k + 1][..k] == queries[..k];
  }

  /** `scrape_label` never appends more than `TARGET_PER_LABEL` rows. */
  lemma ScrapeLabelWithinQuota(web: Web, category: string, queries: seq<string>,
                               seen: set<string>, base: nat)
    ensures |ScrapeLabelSpec(web, category, queries, seen, base).rows| <= TARGET_PER_LABEL
  {
    FoldSound(web, category, base, seen, Harvest([], seen), FeedEntries(web, queries));
  }

  /** `scrape_label` never appends an id that was already seen, nor one id
      twice. */
  lemma ScrapeLabelNoDuplicates(web: Web, category: string, queries: seq<string>,
                                seen: set<string>, base: nat)
    ensures var rows := ScrapeLabelSpec(web, category, queries, seen, base).rows;
      DistinctIds(rows) && forall i :: 0 <= i < |rows| ==> rows[i].id !in seen
  {
    FoldSound(web, category, base, seen, Harvest([], seen), FeedEntries(web, queries));
  }

  /** After `scrape_label`, `seen` is the old `seen` plus exactly the ids of
      the rows it appended. */
  lemma ScrapeLabelLedger(web: Web, category: string, queries: seq<string>,
                          seen: set<string>, base: nat)
    ensures var h := ScrapeLabelSpec(web, category, queries, seen, base);
      h.seen == seen + IdsOf(h.rows)
  {
    FoldSound(web, category, base, seen, Harvest([], seen), FeedEntries(web, queries));
  }

  /** Every row `scrape_label` appends has the label it was called with, a
      whitespace-normalised text of at least `MIN_TEXT_LEN` characters, and
      the id of its URL. */
  lemma ScrapeLabelRowsValid(web: Web, category: string, queries: seq<string>,
                             seen: set<string>, base: nat)
    ensures var rows := ScrapeLabelSpec(web, category, queries, seen, base).rows;
      forall i :: 0 <= i < |rows| ==>
        rows[i].category == category && |rows[i].text| >= MIN_TEXT_LEN
        && Clean(rows[i].text) && rows[i].id == web.stableId(rows[i].url)
  {
    FoldSound(web, category, base, seen, Harvest([], seen), FeedEntries(web, queries));
  }

  /** A label whose quota is already met when a query comes up gains nothing
      from that query or any later one. */
  lemma QuotaMetStopsLabel(web: Web, category: string, base: nat, h: Harvest,
                           queries: seq<string>, k: nat)
    requires k <= |queries|
    requires |Fold(web, category, base, h, FeedEntries(web, queries[..k])).rows| >= TARGET_PER_LABEL
    ensures Fold(web, category, base, h, FeedEntries(web, queries))
         == Fold(web, category, base, h, FeedEntries(web, queries[..k]))
  {
    FeedEntriesSplit(web, queries, k);
    FoldSaturated(web, category, base, h, FeedEntries(web, queries[..k]), FeedEntries(web, queries[k..]));
  }

  /** The body of the entry loop for one entry `e`: skips it (`continue`) when
      it has no link, when the id of its resolved URL is in `seen`, or when
      neither the extracted text nor the title-and-summary fallback is long
      enough; otherwise appends its row to the log and its id to `seen`. The
      result says whether the entry was appended. */
  method ConsiderEntry(store: Store, seen: Ledger, web: Web, category: string, e: Entry)
    returns (accepted: bool)
    modifies store, seen
    ensures accepted == Admit(web, category, e, old(seen.ids), old(|store.lines|)).Some?
    ensures accepted ==>
      var row := Admit(web, category, e, old(seen.ids), old(|store.lines|)).value;
      store.lines == old(store.lines) + [Rec(row)] && seen.ids == old(seen.ids) + {row.id}
    ensures !accepted ==> store.lines == old(store.lines) && seen.ids == old(seen.ids)
    ensures store.table == old(store.table)
  {
    var link := e.link;
    if link == "" {
      return false;
    }
    var original := Resolve(link, web.page(link));
    var id := web.stableId(original);
    if id in seen.ids {
      return false;
    }
    var title := CleanText(e.title);
    var summary := CleanText(SummaryOf(e));
    var published := "";
    if e.published != "" {
      published := CleanText(e.published);
    }
    var text := ExtractFullText(web, original);
    if |text| < MIN_TEXT_LEN {
      text := CleanText(title + ". " + summary);
    }
    assert text == EntryText(web, e);
    if |text| < MIN_TEXT_LEN {
      return false;
    }
    var row := Record(id, category, web.netloc(original), original, published,
                      title, summary, text, web.clock(|store.lines|));
    BuiltRow(web, category, e, |store.lines|, original, published, title, summary, text);
    store.AppendRaw(row);
    seen.Add(id);
    accepted := true;
  }

  /** What the body of the entry loop leaves in the log and the ledger is
      one step of the harvest. */
  lemma StepLog(web: Web, category: string, base: nat, h: Harvest, e: Entry, log0: seq<Line>,
                lines0: seq<Line>, ids0: set<string>, lines: seq<Line>, ids: set<string>, accepted: bool)
    requires |h.rows| < TARGET_PER_LABEL && |log0| == base
    requires lines0 == log0 + AsLines(h.rows) && ids0 == h.seen
    requires accepted == Admit(web, category, e, ids0, |lines0|).Some?
    requires accepted ==>
      var row := Admit(web, category, e, ids0, |lines0|).value;
      lines == lines0 + [Rec(row)] && ids == ids0 + {row.id}
    requires !accepted ==> lines == lines0 && ids == ids0
    ensures var next := Step(web, category, base, h, e);
      lines == log0 + AsLines(next.rows) && ids == next.seen
      && |next.rows| == |h.rows| + (if accepted then 1 else 0)
  {
    assert |lines0| == base + |h.rows|;
    if accepted {
      var row := Admit(web, category, e, h.seen, base + |h.rows|).value;
      StepAdmits(web, category, base, h, e);
      LogSnoc(log0, h.rows, row);
    } else {
      StepSkips(web, category, base, h, e);
    }
  }

  /** One turn of the entry loop, with the quota not yet met, as a step of
      the harvest: the log and `seen` go from the state `h` to the state
      `Step(h, e)`, and the result says whether that step appended a row. */
  method StepEntry(store: Store, seen: Ledger, web: Web, category: string, e: Entry,
                   ghost base: nat, ghost log0: seq<Line>, ghost h: Harvest)
    returns (accepted: bool)
    requires |h.rows| < TARGET_PER_LABEL
    requires store.lines == log0 + AsLines(h.rows) && |log0| == base && seen.ids == h.seen
    modifies store, seen
    ensures var next := Step(web, category, base, h, e);
      store.lines == log0 + AsLines(next.rows) && seen.ids == next.seen
      && |next.rows| == |h.rows| + (if accepted then 1 else 0)
    ensures store.table == old(store.table)
  {
    ghost var lines0, ids0 := store.lines, seen.ids;
    accepted := ConsiderEntry(store, seen, web, category, e);
    StepLog(web, category, base, h, e, log0, lines0, ids0, store.lines, seen.ids, accepted);
  }

  /** The entry loop of `scrape_label` over the entries of one feed, from
      the running state `start` (`added0` rows appended so far, the log being
      `log0` followed by their lines). It stops early, as the source returns,
      once the quota is met. */
  method ScrapeFeed(store: Store, seen: Ledger, web: Web, category: string, entries: seq<Entry>,
                    ghost base: nat, ghost log0: seq<Line>, ghost start: Harvest, added0: nat)
    returns (added: nat)
    requires added0 == |start.rows| <= TARGET_PER_LABEL
    requires store.lines == log0 + AsLines(start.rows) && |log0| == base && seen.ids == start.seen
    modifies store, seen
    ensures var fin := Fold(web, category, base, start, entries);
      added == |fin.rows| && store.lines == log0 + AsLines(fin.rows) && seen.ids == fin.seen
    ensures added <= TARGET_PER_LABEL
    ensures store.table == old(store.table)
  {
    ghost var h := start;
    added := added0;
    var ei := 0;
    assert entries[..0] == [];
    while ei < |entries|
      invariant 0 <= ei <= |entries|
      invariant h == Fold(web, category, base, start, entries[..ei])
      invariant added == |h.rows| <= TARGET_PER_LABEL
      invariant store.lines == log0 + AsLines(h.rows) && seen.ids == h.seen
      invariant store.table == old(store.table)
    {
      if added >= TARGET_PER_LABEL {
        FeedSaturated(web, category, base, start, entries, ei);
        return;
      }
      var accepted := StepEntry(store, seen, web, category, entries[ei], base, log0, h);
      FoldNext(web, category, base, start, entries, ei);
      h := Step(web, category, base, h, entries[ei]);
      ei := ei + 1;
      if accepted {
        added := added + 1;
        if added >= TARGET_PER_LABEL {
          FeedSaturated(web, category, base, start, entries, ei);
          return;
        }
      }
    }
    assert entries[..ei] == entries;
  }

  /** `scrape_label(label, queries, seen)`: walks the queries and, for each,
      the entries of its feed; appends every accepted entry to the log and its
      id to `seen`, and returns how many rows it appended. */
  method ScrapeLabel(store: Store, seen: Ledger, web: Web, category: string, queries: seq<string>)
    returns (added: nat)
    modifies store, seen
    ensures var h := ScrapeLabelSpec(web, category, queries, old(seen.ids), old(|store.lines|));
      added == |h.rows|
      && store.lines == old(store.lines) + AsLines(h.rows)
      && seen.ids == h.seen
    ensures added <= TARGET_PER_LABEL
    ensures store.table == old(store.table)
  {
    ghost var lines0 := store.lines;
    ghost var base := |store.lines|;
    ghost var h0 := Harvest([], seen.ids);
    ghost var spec := ScrapeLabelSpec(web, category, queries, seen.ids, base);
    assert spec == Fold(web, category, base, h0, FeedEntries(web, queries));
    ghost var h := h0;
    assert queries[..0] == [];
    added := 0;
    var qi := 0;
    while qi < |queries|
      invariant 0 <= qi <= |queries|
      invariant h == Fold(web, category, base, h0, FeedEntries(web, queries[..qi]))
      invariant added == |h.rows| <= TARGET_PER_LABEL
      invariant store.lines == lines0 + AsLines(h.rows) && seen.ids == h.seen
      invariant store.table == old(store.table)
    {
      var entries := web.feed(DefaultRssUrl(queries[qi]));
      added := ScrapeFeed(store, seen, web, category, entries, base, lines0, h, added);
      FoldConcat(web, category, base, h0, FeedEntries(web, queries[..qi]), entries);
      FeedEntriesSnoc(web, queries, qi);
      h := Fold(web, category, base, h, entries);
      qi := qi + 1;
      if added >= TARGET_PER_LABEL {
        QuotaMetStopsLabel(web, category, base, h0, queries, qi);
        return;
      }
    }
    assert queries[..qi] == queries;
  }

  /** `LABEL_QUERIES`: each label with its search queries, in scan order. */
  const LABEL_QUERIES: seq<(string, seq<string>)> := [
    ("business", [
      "economy OR inflation OR stock market OR central bank when:30d",
      "interest rates OR bond yields OR GDP when:30d",
      "company earnings OR revenue OR profit when:30d",
      "trade deficit OR exports OR imports when:30d",
      "banking regulation OR fintech when:30d"]),
    ("tech", [
      "artificial intelligence OR generative AI OR LLM when:30d",
      "cybersecurity OR data breach OR ransomware when:30d",
      "software update OR cloud computing OR SaaS when:30d",
      "startup funding OR venture capital tech when:30d",
      "semiconductor OR chip manufacturing when:30d"]),
    ("science", [
      "climate change OR environment research when:30d",
      "space mission OR NASA OR telescope when:30d",
      "scientists discover OR study finds when:30d",
      "renewable energy research OR fusion when:30d",
      "biodiversity OR ocean study when:30d"]),
    ("health", [
      "public health OR WHO OR outbreak when:30d",
      "vaccine trial OR clinical trial when:30d",
      "hospital OR healthcare policy when:30d",
      "disease symptoms OR treatment study when:30d",
      "mental health study OR depression anxiety when:30d"]),
    ("world", [
      "election OR parliament OR government policy when:30d",
      "war OR conflict OR ceasefire when:30d",
      "diplomacy OR summit OR sanctions when:30d",
      "protest OR referendum OR coup when:30d",
      "migration OR refugees OR border policy when:30d"])
  ]

  /** The catalog holds five labels, in this order, with five queries each. */
  lemma CatalogShape()
    ensures |LABEL_QUERIES| == 5
    ensures LABEL_QUERIES[0].0 == "business" && LABEL_QUERIES[1].0 == "tech"
      && LABEL_QUERIES[2].0 == "science" && LABEL_QUERIES[3].0 == "health"
      && LABEL_QUERIES[4].0 == "world"
    ensures forall i :: 0 <= i < |LABEL_QUERIES| ==> |LABEL_QUERIES[i].1| == 5
  {
  }

  /** One of the labels of `catalog`. */
  ghost predicate InCatalog(catalog: seq<(string, seq<string>)>, c: string) {
    exists i :: 0 <= i < |catalog| && catalog[i].0 == c
  }

  function Sum(s: seq<nat>): nat {
    if s == [] then 0 else Sum(s[..|s| - 1]) + s[|s| - 1]
  }

  /** Line `j` of the log is a record of a label of `catalog`, with a long
      enough text, whose id no earlier line has. */
  ghost predicate FreshLine(catalog: seq<(string, seq<string>)>, lines: seq<Line>, j: int) {
    0 <= j < |lines| && lines[j].Rec?
    && InCatalog(catalog, lines[j].record.category)
    && |lines[j].record.text| >= MIN_TEXT_LEN
    && forall i :: 0 <= i < j && lines[i].Rec? ==> lines[i].record.id != lines[j].record.id
  }

  /** Appending a label's rows, whose ids are distinct and not among the
      log's, leaves every old and every new line from `from` on fresh. */
  lemma ExtendLog(catalog: seq<(string, seq<string>)>, before: seq<Line>, rows: seq<Record>, from: nat)
    requires forall j :: from <= j < |before| ==> FreshLine(catalog, before, j)
    requires DistinctIds(rows)
    requires forall k :: 0 <= k < |rows| ==>
      rows[k].id !in IdsOf(Parsed(before)) && InCatalog(catalog, rows[k].category)
      && |rows[k].text| >= MIN_TEXT_LEN
    ensures forall j :: from <= j < |before + AsLines(rows)| ==> FreshLine(catalog, before + AsLines(rows), j)
  {
    var after := before + AsLines(rows);
    forall j | from <= j < |after| ensures FreshLine(catalog, after, j) {
      if j < |before| {
        assert FreshLine(catalog, before, j);
        assert forall i :: 0 <= i <= j ==> after[i] == before[i];
      } else {
        var k := j - |before|;
        AsLinesAt(rows, k);
        assert after[j] == Rec(rows[k]);
        forall i | 0 <= i < j && after[i].Rec? ensures after[i].record.id != rows[k].id {
          if i < |before| {
            assert after[i] == before[i];
            ParsedIdsExactly(before, before[i].record.id);
          } else {
            AsLinesAt(rows, i - |before|);
            assert after[i] == Rec(rows[i - |before|]);
          }
        }
      }
    }
  }

  /** Lines `start` to `start + n` of the log are records of `category`. */
  ghost predicate Segment(lines: seq<Line>, start: nat, n: nat, category: string) {
    start + n <= |lines|
    && forall j :: start <= j < start + n ==> lines[j].Rec? && lines[j].record.category == category
  }

  /** The lines appended for rows of one category form a segment of it. */
  lemma AppendedSegment(before: seq<Line>, rows: seq<Record>, category: string)
    requires forall k :: 0 <= k < |rows| ==> rows[k].category == category
    ensures Segment(before + AsLines(rows), |before|, |rows|, category)
  {
    var after := before + AsLines(rows);
    forall j | |before| <= j < |before| + |rows|
      ensures after[j].Rec? && after[j].record.category == category
    {
      AsLinesAt(rows, j - |before|);
    }
  }

  /** Appending to the log keeps its earlier segments. */
  lemma SegmentKept(before: seq<Line>, after: seq<Line>, start: nat, n: nat, category: string)
    requires Segment(before, start, n, category)
    requires |before| <= |after| && after[..|before|] == before
    ensures Segment(after, start, n, category)
  {
    forall j | start <= j < start + n
      ensures after[j].Rec? && after[j].record.category == category
    {
      assert after[j] == after[..|before|][j];
    }
  }

  /** The lines from `start` on come in one segment per count: the i-th
      segment holds `counts[i]` records of the i-th label of `catalog`. */
  ghost predicate Segments(lines: seq<Line>, start: nat, counts: seq<nat>,
                           catalog: seq<(string, seq<string>)>) {
    forall i :: 0 <= i < |counts| && i < |catalog| ==>
      Segment(lines, start + Sum(counts[..i]), counts[i], catalog[i].0)
  }

  /** After one more label, its lines are one more segment and the earlier
      segments are kept. */
  lemma SegmentsExtend(before: seq<Line>, after: seq<Line>, start: nat, counts: seq<nat>, added: nat,
                       catalog: seq<(string, seq<string>)>)
    requires Segments(before, start, counts, catalog) && |counts| < |catalog|
    requires |before| <= |after| && after[..|before|] == before
    requires |before| == start + Sum(counts)
    requires Segment(after, |before|, added, catalog[|counts|].0)
    ensures Segments(after, start, counts + [added], catalog)
  {
    var counts' := counts + [added];
    forall i | 0 <= i < |counts'| && i < |catalog|
      ensures Segment(after, start + Sum(counts'[..i]), counts'[i], catalog[i].0)
    {
      assert counts'[..i] == counts[..i];
      if i < |counts| {
        SegmentKept(before, after, start + Sum(counts[..i]), counts[i], catalog[i].0);
      } else {
        assert counts[..i] == counts;
      }
    }
  }

  /** The log after one label of `run()`: `scrape_label` appends the label's
      rows, with the ids of the log so far as the ledger and the log's length
      as the first row number. */
  ghost function LabelAppend(web: Web, lines: seq<Line>, item: (string, seq<string>)): seq<Line> {
    lines + AsLines(ScrapeLabelSpec(web, item.0, item.1, IdsOf(Parsed(lines)), |lines|).rows)
  }

  /** The log after `run()`'s label loop: each label of `catalog` in turn
      appends what `scrape_label` gathers for it. */
  ghost function RunLabelsSpec(web: Web, lines: seq<Line>, catalog: seq<(string, seq<string>)>)
    : seq<Line>
    decreases |catalog|
  {
    if catalog == [] then lines
    else LabelAppend(web, RunLabelsSpec(web, lines, catalog[..|catalog| - 1]), catalog[|catalog| - 1])
  }

  /** The label loop only appends: the log it starts from is a prefix of the
      log it ends with. */
  lemma {:induction false} RunLabelsSpecExtends(web: Web, lines: seq<Line>,
                                                catalog: seq<(string, seq<string>)>)
    ensures var r := RunLabelsSpec(web, lines, catalog); |lines| <= |r| && r[..|lines|] == lines
    decreases |catalog|
  {
    if catalog != [] {
      var before := RunLabelsSpec(web, lines, catalog[..|catalog| - 1]);
      RunLabelsSpecExtends(web, lines, catalog[..|catalog| - 1]);
      var r := LabelAppend(web, before, catalog[|catalog| - 1]);
      assert r[..|before|] == before;
      assert r[..|lines|] == before[..|lines|];
    }
  }

  /** One more label of the catalog appends that label's rows to the log the
      earlier labels left. */
  lemma RunLabelsSpecStep(web: Web, lines: seq<Line>, catalog: seq<(string, seq<string>)>, li: nat)
    requires li < |catalog|
    ensures RunLabelsSpec(web, lines, catalog[..li + 1])
      == LabelAppend(web, RunLabelsSpec(web, lines, catalog[..li]), catalog[li])
  {
    var c := catalog[..li + 1];
    assert c[..|c| - 1] == catalog[..li];
    assert c[|c| - 1] == catalog[li];
  }

  /** One turn of the label loop of `run()`: scrapes a catalog label with the
      shared ledger. The log grows by exactly the label's rows, all of this
      label; every new line is fresh, and the ledger stays the set of ids in
      the log. */
  method RunLabel(store: Store, ledger: Ledger, web: Web, category: string, queries: seq<string>,
                  ghost catalog: seq<(string, seq<string>)>, ghost lines0: seq<Line>)
    returns (added: nat)
    requires InCatalog(catalog, category)
    requires |lines0| <= |store.lines| && store.lines[..|lines0|] == lines0
    requires ledger.ids == IdsOf(Parsed(store.lines))
    requires forall j :: |lines0| <= j < |store.lines| ==> FreshLine(catalog, store.lines, j)
    modifies store, ledger
    ensures var h := ScrapeLabelSpec(web, category, queries, old(ledger.ids), |old(store.lines)|);
      added == |h.rows| && store.lines == old(store.lines) + AsLines(h.rows)
    ensures store.lines == LabelAppend(web, old(store.lines), (category, queries))
    ensures added <= TARGET_PER_LABEL
    ensures |store.lines| == |old(store.lines)| + added && store.lines[..|lines0|] == lines0
    ensures store.lines[..|old(store.lines)|] == old(store.lines)
    ensures Segment(store.lines, |old(store.lines)|, added, category)
    ensures ledger.ids == IdsOf(Parsed(store.lines))
    ensures forall j :: |lines0| <= j < |store.lines| ==> FreshLine(catalog, store.lines, j)
    ensures store.table == old(store.table)
  {
    ghost var before := store.lines;
    ghost var seen0 := IdsOf(Parsed(before));
    added := ScrapeLabel(store, ledger, web, category, queries);
    ghost var h := ScrapeLabelSpec(web, category, queries, seen0, |before|);
    ScrapeLabelNoDuplicates(web, category, queries, seen0, |before|);
    ScrapeLabelLedger(web, category, queries, seen0, |before|);
    ScrapeLabelRowsValid(web, category, queries, seen0, |before|);
    ExtendLog(catalog, before, h.rows, |lines0|);
    ParsedAppend(before, h.rows);
    IdsOfConcat(Parsed(before), h.rows);
    AppendedSegment(before, h.rows, category);
    assert store.lines[..|before|] == before;
    assert store.lines[..|lines0|] == before[..|lines0|];
  }

  /** One turn of the label loop keeps its invariants: the log the earlier
      labels left, extended by the next label's rows, holds one more segment
      and is one more step of `RunLabelsSpec`. */
  lemma LabelTurn(web: Web, catalog: seq<(string, seq<string>)>, lines0: seq<Line>, counts: seq<nat>,
                  before: seq<Line>, after: seq<Line>, added: nat)
    requires |counts| < |catalog|
    requires |before| == |lines0| + Sum(counts) && Segments(before, |lines0|, counts, catalog)
    requires before == RunLabelsSpec(web, lines0, catalog[..|counts|])
    requires |after| == |before| + added && after == LabelAppend(web, before, catalog[|counts|])
    requires Segment(after, |before|, added, catalog[|counts|].0)
    ensures |after| == |lines0| + Sum(counts + [added])
    ensures Segments(after, |lines0|, counts + [added], catalog)
    ensures after == RunLabelsSpec(web, lines0, catalog[..|counts| + 1])
  {
    assert after[..|before|] == before;
    SegmentsExtend(before, after, |lines0|, counts, added, catalog);
    RunLabelsSpecStep(web, lines0, catalog, |counts|);
    assert (counts + [added])[..|counts|] == counts;
  }

  /** One more count within the quota keeps every count within it. */
  lemma QuotaSnoc(counts: seq<nat>, added: nat)
    requires forall i :: 0 <= i < |counts| ==> counts[i] <= TARGET_PER_LABEL
    requires added <= TARGET_PER_LABEL
    ensures forall i :: 0 <= i < |counts + [added]| ==> (counts + [added])[i] <= TARGET_PER_LABEL
  {
  }

  /** The label loop of `run()` over a catalog of labels and their queries,
      with one shared ledger that starts as the ids of the log. Returns the
      per-label counts and their total. */
  method RunLabels(store: Store, ledger: Ledger, web: Web, catalog: seq<(string, seq<string>)>)
    returns (counts: seq<nat>, total: nat)
    requires ledger.ids == IdsOf(Parsed(store.lines))
    modifies store, ledger
    ensures |counts| == |catalog|
    ensures forall i :: 0 <= i < |counts| ==> counts[i] <= TARGET_PER_LABEL
    ensures total == Sum(counts)
    ensures |store.lines| == |old(store.lines)| + total
    ensures store.lines[..|old(store.lines)|] == old(store.lines)
    ensures Segments(store.lines, |old(store.lines)|, counts, catalog)
    ensures store.lines == RunLabelsSpec(web, old(store.lines), catalog)
    ensures forall j :: |old(store.lines)| <= j < |store.lines| ==> FreshLine(catalog, store.lines, j)
    ensures store.table == old(store.table)
  {
    ghost var lines0 := store.lines;
    counts, total := [], 0;
    var li := 0;
    while li < |catalog|
      invariant 0 <= li <= |catalog| && |counts| == li
      invariant forall i :: 0 <= i < li ==> counts[i] <= TARGET_PER_LABEL
      invariant total == Sum(counts)
      invariant |store.lines| == |lines0| + total && store.lines[..|lines0|] == lines0
      invariant ledger.ids == IdsOf(Parsed(store.lines))
      invariant Segments(store.lines, |lines0|, counts, catalog)
      invariant store.lines == RunLabelsSpec(web, lines0, catalog[..li])
      invariant forall j :: |lines0| <= j < |store.lines| ==> FreshLine(catalog, store.lines, j)
      invariant store.table == old(store.table)
    {
      var (category, queries) := catalog[li];
      ghost var before := store.lines;
      var added := RunLabel(store, ledger, web, category, queries, catalog, lines0);
      assert (category, queries) == catalog[li];
      LabelTurn(web, catalog, lines0, counts, before, store.lines, added);
      QuotaSnoc(counts, added);
      counts, total := counts + [added], total + added;
      li := li + 1;
    }
    assert catalog[..li] == catalog;
  }

  /** `run()`: load the ledger from the log, scrape every label of the
      catalog in order with that one ledger, then rebuild the CSV. Returns the
      per-label counts, the total added, and whether the rebuild succeeded.
      The new lines come label by label, the i-th label's `counts[i]` lines
      all of that label, each count within the quota; every line added has a
      long enough text and an id no earlier line of the log has, so a log
      without duplicate ids keeps none. */
  method Run(store: Store, web: Web) returns (counts: seq<nat>, total: nat, rebuilt: bool)
    modifies store
    ensures |counts| == |LABEL_QUERIES|
    ensures forall i :: 0 <= i < |counts| ==> counts[i] <= TARGET_PER_LABEL
    ensures total == Sum(counts)
    ensures |store.lines| == |old(store.lines)| + total
    ensures store.lines[..|old(store.lines)|] == old(store.lines)
    ensures Segments(store.lines, |old(store.lines)|, counts, LABEL_QUERIES)
    ensures store.lines == RunLabelsSpec(web, old(store.lines), LABEL_QUERIES)
    ensures forall j :: |old(store.lines)| <= j < |store.lines| ==> FreshLine(LABEL_QUERIES, store.lines, j)
    ensures rebuilt == AllParse(store.lines)
    ensures store.table ==
      if rebuilt && Parsed(store.lines) != [] then KeepFirst(Parsed(store.lines)) else old(store.table)
  {
    var seenIds := store.LoadSeenIds();
    var ledger := new Ledger(seenIds);
    counts, total := RunLabels(store, ledger, web, LABEL_QUERIES);
    rebuilt := store.RebuildCsv();
  }

}

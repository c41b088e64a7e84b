/**
 * The durable store: the append-only log `raw.jsonl` (the source of truth),
 * the CSV snapshot rebuilt from it, and the projections over the log that
 * `load_seen_ids` and `rebuild_csv` compute.
 */
module Store {
  /** One scraped article, with the nine fields of a log line and a CSV row
      (`category` is the `label` column),
      in the order the CSV writes them. */
  datatype Record = Record(
    id: string,
    category: string,
    source: string,
    url: string,
    publishedAt: string,
    title: string,
    summary: string,
    text: string,
    scrapedAt: string)

  /** A line of the log: a record; a blank (empty or all-whitespace) line; or
      a line that does not parse as a record (a truncated or otherwise corrupt
      write). */
  datatype Line = Rec(record: Record) | BlankLine | Corrupt

  /** The log lines `append_raw` writes for these rows, one per row. */
  function AsLines(rows: seq<Record>): (ls: seq<Line>)
    ensures |ls| == |rows|
  {
    if rows == [] then [] else AsLines(rows[..|rows| - 1]) + [Rec(rows[|rows| - 1])]
  }

  /** Line `k` of the appended lines holds row `k`. */
  lemma {:induction false} AsLinesAt(rows: seq<Record>, k: nat)
    requires k < |rows|
    ensures AsLines(rows)[k] == Rec(rows[k])
    decreases |rows|
  {
    if k < |rows| - 1 {
      AsLinesAt(rows[..|rows| - 1], k);
    }
  }

  /** The records of the parseable lines, in log order. */
  function Parsed(lines: seq<Line>): (rows: seq<Record>)
    ensures |rows| <= |lines|
  {
    if lines == [] then []
    else
      Parsed(lines[..|lines| - 1])
      + if lines[|lines| - 1].Rec? then [lines[|lines| - 1].record] else []
  }

  /** The ids of some records. */
  function IdsOf(rows: seq<Record>): set<string> {
    set r | r in rows :: r.id
  }

  lemma IdsOfConcat(a: seq<Record>, b: seq<Record>)
    ensures IdsOf(a + b) == IdsOf(a) + IdsOf(b)
  {
    assert forall r :: r in a + b <==> r in a || r in b;
  }

  /** No log line is corrupt: each is a record or blank. */
  predicate AllParse(lines: seq<Line>) {
    forall i :: 0 <= i < |lines| ==> !lines[i].Corrupt?
  }

  /** No two records share an id. */
  predicate DistinctIds(rows: seq<Record>) {
    forall i, j :: 0 <= i < j < |rows| ==> rows[i].id != rows[j].id
  }

  /** The records of a log are exactly its parseable lines, in order: a record
      is in `Parsed(lines)` if and only if some line holds it. */
  lemma {:induction false} ParsedMembers(lines: seq<Line>, r: Record)
    ensures r in Parsed(lines) <==> exists i :: 0 <= i < |lines| && lines[i] == Rec(r)
    decreases |lines|
  {
    if lines != [] {
      var init := lines[..|lines| - 1];
      ParsedMembers(init, r);
      assert forall i :: 0 <= i < |init| ==> init[i] == lines[i];
    }
  }

  /** The ids `load_seen_ids` collects are exactly those of the parseable
      lines; a line that does not parse contributes nothing. */
  lemma ParsedIdsExactly(lines: seq<Line>, id: string)
    ensures id in IdsOf(Parsed(lines))
      <==> exists i :: 0 <= i < |lines| && lines[i].Rec? && lines[i].record.id == id
  {
    if id in IdsOf(Parsed(lines)) {
      var r :| r in Parsed(lines) && r.id == id;
      ParsedMembers(lines, r);
    }
    if exists i :: 0 <= i < |lines| && lines[i].Rec? && lines[i].record.id == id {
      var i :| 0 <= i < |lines| && lines[i].Rec? && lines[i].record.id == id;
      ParsedMembers(lines, lines[i].record);
    }
  }

  /** Appending rows to the log appends them, in order, to its records. */
  lemma {:induction false} ParsedAppend(lines: seq<Line>, rows: seq<Record>)
    ensures Parsed(lines + AsLines(rows)) == Parsed(lines) + rows
    decreases |rows|
  {
    if rows == [] {
      assert lines + AsLines(rows) == lines;
    } else {
      var init := rows[..|rows| - 1];
      var all := lines + AsLines(rows);
      assert all[..|all| - 1] == lines + AsLines(init);
      ParsedAppend(lines, init);
      assert rows == init + [rows[|rows| - 1]];
    }
  }

  /** The position of the first record with this id. */
  function FirstIndex(rows: seq<Record>, id: string): (k: nat)
    requires id in IdsOf(rows)
    ensures k < |rows| && rows[k].id == id
    ensures forall j :: 0 <= j < k ==> rows[j].id != id
  {
    if rows[0].id == id then 0
    else
      assert id in IdsOf(rows[1..]) by {
        var r :| r in rows && r.id == id;
        assert rows == [rows[0]] + rows[1..];
      }
      1 + FirstIndex(rows[1..], id)
  }

  /** `df.drop_duplicates("id")`: keep the first record of every id, in log
      order. */
  function KeepFirst(rows: seq<Record>): (kept: seq<Record>)
    ensures |kept| <= |rows|
    decreases |rows|
  {
    if rows == [] then []
    else
      var kept := KeepFirst(rows[..|rows| - 1]);
      var last := rows[|rows| - 1];
      if last.id in IdsOf(kept) then kept else kept + [last]
  }

  /** A first occurrence inside the prefix is the first one in the whole. */
  lemma FirstIndexOfPrefix(rows: seq<Record>, id: string)
    requires rows != [] && id in IdsOf(rows[..|rows| - 1])
    ensures id in IdsOf(rows)
    ensures FirstIndex(rows, id) == FirstIndex(rows[..|rows| - 1], id)
  {
    var init := rows[..|rows| - 1];
    var r :| r in init && r.id == id;
    assert r in rows;
    var a, b := FirstIndex(rows, id), FirstIndex(init, id);
    assert rows[b] == init[b];
    assert a <= b;
    assert init[a] == rows[a];
  }

  /** A last record whose id is new is its own first occurrence. */
  lemma FirstIndexOfNewLast(rows: seq<Record>)
    requires rows != [] && rows[|rows| - 1].id !in IdsOf(rows[..|rows| - 1])
    ensures rows[|rows| - 1].id in IdsOf(rows)
    ensures FirstIndex(rows, rows[|rows| - 1].id) == |rows| - 1
  {
    var n := |rows|;
    assert rows[n - 1] in rows;
    forall j | 0 <= j < n - 1 ensures rows[j].id != rows[n - 1].id {
      assert rows[..n - 1][j] == rows[j];
      assert rows[j] in rows[..n - 1];
    }
  }

  /** The CSV projection holds exactly one row per distinct id of the log. */
  lemma {:induction false} KeepFirstIds(rows: seq<Record>)
    ensures IdsOf(KeepFirst(rows)) == IdsOf(rows)
    ensures DistinctIds(KeepFirst(rows))
    decreases |rows|
  {
    if rows != [] {
      var n := |rows|;
      var init := rows[..n - 1];
      var last := rows[n - 1];
      var kept := KeepFirst(init);
      KeepFirstIds(init);
      assert rows == init + [last];
      IdsOfSnoc(init, last);
      if last.id !in IdsOf(kept) {
        SnocNewId(kept, last);
      }
    }
  }

  lemma IdsOfSnoc(rows: seq<Record>, r: Record)
    ensures IdsOf(rows + [r]) == IdsOf(rows) + {r.id}
  {
    IdsOfConcat(rows, [r]);
    assert IdsOf([r]) == {r.id};
  }

  /** A record with a new id keeps the ids distinct. */
  lemma SnocNewId(rows: seq<Record>, r: Record)
    requires DistinctIds(rows) && r.id !in IdsOf(rows)
    ensures DistinctIds(rows + [r]) && IdsOf(rows + [r]) == IdsOf(rows) + {r.id}
  {
    IdsOfSnoc(rows, r);
    forall i | 0 <= i < |rows| ensures rows[i].id != r.id {
      assert rows[i] in rows;
    }
  }

  /** `r` is the first record of `rows` with its id. */
  predicate FirstOfItsId(rows: seq<Record>, r: Record) {
    r.id in IdsOf(rows) && r == rows[FirstIndex(rows, r.id)]
  }

  /** A first occurrence in all but the last record is one in the whole. */
  lemma FirstOfItsIdPrefix(rows: seq<Record>, r: Record)
    requires rows != [] && FirstOfItsId(rows[..|rows| - 1], r)
    ensures FirstOfItsId(rows, r)
  {
    var init := rows[..|rows| - 1];
    FirstIndexOfPrefix(rows, r.id);
    assert init[FirstIndex(init, r.id)] == rows[FirstIndex(init, r.id)];
  }

  /** Each row of the projection is the first record of the log with its id. */
  lemma {:induction false} KeepFirstPicksFirst(rows: seq<Record>)
    ensures forall r :: r in KeepFirst(rows) ==> FirstOfItsId(rows, r)
    decreases |rows|
  {
    if rows != [] {
      var n := |rows|;
      var init := rows[..n - 1];
      var last := rows[n - 1];
      var kept := KeepFirst(init);
      KeepFirstPicksFirst(init);
      KeepFirstIds(init);
      forall r | r in kept ensures FirstOfItsId(rows, r) {
        FirstOfItsIdPrefix(rows, r);
      }
      if last.id in IdsOf(kept) {
        assert KeepFirst(rows) == kept;
      } else {
        FirstIndexOfNewLast(rows);
        assert FirstOfItsId(rows, last);
        assert KeepFirst(rows) == kept + [last];
        assert forall r :: r in kept + [last] ==> r in kept || r == last;
      }
    }
  }

  /** The rows of `out` have ids of `rows` and come in the order of those ids'
      first occurrences in `rows`. */
  predicate InFirstOrder(rows: seq<Record>, out: seq<Record>) {
    forall i, j :: 0 <= i < j < |out| ==>
      out[i].id in IdsOf(rows) && out[j].id in IdsOf(rows)
      && FirstIndex(rows, out[i].id) < FirstIndex(rows, out[j].id)
  }

  /** Each row kept from all but the last record keeps its first position
      when the last record is added. */
  lemma KeptInPrefix(rows: seq<Record>, i: nat)
    requires rows != [] && i < |KeepFirst(rows[..|rows| - 1])|
    ensures var init := rows[..|rows| - 1]; var r := KeepFirst(init)[i];
      r.id in IdsOf(init) && r.id in IdsOf(rows)
      && FirstIndex(rows, r.id) == FirstIndex(init, r.id) < |rows| - 1
  {
    var init := rows[..|rows| - 1];
    var kept := KeepFirst(init);
    KeepFirstIds(init);
    assert kept[i] in kept;
    FirstIndexOfPrefix(rows, kept[i].id);
  }

  /** Every row of `kept` has an id whose first occurrence in `rows` lies
      before position `n`. */
  predicate KeptBefore(rows: seq<Record>, kept: seq<Record>, n: int) {
    forall i :: 0 <= i < |kept| ==>
      kept[i].id in IdsOf(rows) && FirstIndex(rows, kept[i].id) < n
  }

  /** The order of the rows kept from all but the last record carries over
      to the whole. */
  lemma OrderOfKept(rows: seq<Record>)
    requires rows != []
    requires InFirstOrder(rows[..|rows| - 1], KeepFirst(rows[..|rows| - 1]))
    ensures InFirstOrder(rows, KeepFirst(rows[..|rows| - 1]))
    ensures KeptBefore(rows, KeepFirst(rows[..|rows| - 1]), |rows| - 1)
  {
    var init := rows[..|rows| - 1];
    var kept := KeepFirst(init);
    forall i | 0 <= i < |kept|
      ensures kept[i].id in IdsOf(rows) && FirstIndex(rows, kept[i].id) < |rows| - 1
    {
      KeptInPrefix(rows, i);
    }
    forall i, j | 0 <= i < j < |kept|
      ensures FirstIndex(rows, kept[i].id) < FirstIndex(rows, kept[j].id)
    {
      KeptInPrefix(rows, i);
      KeptInPrefix(rows, j);
    }
  }

  /** The rows of the projection come in the order of their ids' first
      occurrences in the log. */
  lemma {:induction false} KeepFirstKeepsOrder(rows: seq<Record>)
    ensures InFirstOrder(rows, KeepFirst(rows))
    decreases |rows|
  {
    if rows != [] {
      var n := |rows|;
      var init := rows[..n - 1];
      var last := rows[n - 1];
      var kept := KeepFirst(init);
      KeepFirstKeepsOrder(init);
      OrderOfKept(rows);
      if last.id in IdsOf(kept) {
        assert KeepFirst(rows) == kept;
      } else {
        var out := kept + [last];
        assert KeepFirst(rows) == out;
        KeepFirstIds(init);
        FirstIndexOfNewLast(rows);
        forall i, j | 0 <= i < j < |out|
          ensures out[i].id in IdsOf(rows) && out[j].id in IdsOf(rows)
          ensures FirstIndex(rows, out[i].id) < FirstIndex(rows, out[j].id)
        {
          assert out[i] == kept[i];
          if j < |kept| {
            assert out[j] == kept[j];
          } else {
            assert out[j] == last;
          }
        }
      }
    } else {
      assert KeepFirst(rows) == [];
    }
  }

  /** A sequence whose ids are already distinct is left as it is. */
  lemma {:induction false} KeepFirstOfDistinct(rows: seq<Record>)
    requires DistinctIds(rows)
    ensures KeepFirst(rows) == rows
    decreases |rows|
  {
    if rows != [] {
      var n := |rows|;
      var init := rows[..n - 1];
      var last := rows[n - 1];
      assert DistinctIds(init) by {
        forall i, j | 0 <= i < j < |init| ensures init[i].id != init[j].id {
          assert init[i] == rows[i] && init[j] == rows[j];
        }
      }
      KeepFirstOfDistinct(init);
      assert last.id !in IdsOf(init) by {
        forall r | r in init ensures r.id != last.id {
          var k :| 0 <= k < |init| && init[k] == r;
          assert rows[k] == r;
        }
      }
      assert rows == init + [last];
    }
  }

  /** Rebuilding the snapshot from its own rows changes nothing. */
  lemma KeepFirstIdempotent(rows: seq<Record>)
    ensures KeepFirst(KeepFirst(rows)) == KeepFirst(rows)
  {
    KeepFirstIds(rows);
    KeepFirstOfDistinct(KeepFirst(rows));
  }

  /** What holds of every log record holds of every snapshot row: each row of
      the snapshot is a record of the log. */
  lemma KeepFirstRowsFromLog(rows: seq<Record>, r: Record)
    requires r in KeepFirst(rows)
    ensures r in rows
  {
    KeepFirstPicksFirst(rows);
    assert FirstOfItsId(rows, r);
  }

  /** The files `raw.jsonl` (the log, as lines) and `processed.csv` (the last
      snapshot, as rows). An absent file and an empty one behave alike. */
  class Store {
    var lines: seq<Line>
    var table: seq<Record>

    constructor (lines: seq<Line>, table: seq<Record>)
      ensures this.lines == lines && this.table == table
    {
      this.lines := lines;
      this.table := table;
    }

    /** `load_seen_ids()`: the ids of every line that parses, skipping the
        others. */
    method LoadSeenIds() returns (seen: set<string>)
      ensures seen == IdsOf(Parsed(lines))
    {
      seen := {};
      var i := 0;
      while i < |lines|
        invariant 0 <= i <= |lines|
        invariant seen == IdsOf(Parsed(lines[..i]))
      {
        assert lines[..i + 1][..i] == lines[..i];
        match lines[i] {
          case Rec(r) =>
            IdsOfConcat(Parsed(lines[..i]), [r]);
            assert IdsOf([r]) == {r.id};
            seen := seen + {r.id};
          case _ =>
        }
        i := i + 1;
      }
      assert lines[..i] == lines;
    }

    /** `append_raw(row)`: one more complete line at the end of the log. */
    method AppendRaw(row: Record)
      modifies this
      ensures lines == old(lines) + [Rec(row)]
      ensures table == old(table)
    {
      lines := lines + [Rec(row)];
    }

    /** `rebuild_csv()`. With no records in the log (an absent or empty file,
        or only blank lines, which the JSON-lines reader skips) nothing is
        written. Otherwise the snapshot is replaced by the log's records,
        deduplicated by id keeping the first. `ok` is false when the log holds
        a corrupt line: the JSON-lines reader then raises instead of skipping
        it, and the old snapshot stays. The log is never changed. */
    method RebuildCsv() returns (ok: bool)
      modifies this
      ensures lines == old(lines)
      ensures ok == AllParse(lines)
      ensures table == if ok && Parsed(lines) != [] then KeepFirst(Parsed(lines)) else old(table)
    {
      ok := AllParse(lines);
      if ok && Parsed(lines) != [] {
        table := KeepFirst(Parsed(lines));
      }
    }
  }

  /** The in-memory set `seen` of ids already in the log, which the scraper
      consults and updates in place. */
  class Ledger {
    var ids: set<string>

    constructor (ids: set<string>)
      ensures this.ids == ids
    {
      this.ids := ids;
    }

    /** `seen.add(id)`. */
    method Add(id: string)
      modifies this
      ensures ids == old(ids) + {id}
    {
      ids := ids + {id};
    }
  }

}

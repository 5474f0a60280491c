/**
 * The insert loops shared by the ingesters: one `INSERT` statement per record, scope by
 * scope, stopping at the first one that fails. `IngestSpans` and `IngestLogs` say what a
 * sequence of such statements does to a table; the methods are the loops themselves.
 */
module Ingest {
  import opened Seqs
  import opened Schema

  /** The table after a sequence of row inserts: all rows went in, or the insert at batch
      position `index` failed and `table` holds what was stored before it. */
  datatype Ingest<R> = Ingested(table: seq<R>) | Refused(index: nat, table: seq<R>)

  /** Whether the insert of `row`, at batch position `k`, into `table` fails. */
  predicate RefusesRow(table: seq<SpanRow>, row: SpanRow, k: nat, failingRows: set<nat>)
  {
    row.id in Ids(table) || !FitsInteger(row.durationNs) || k in failingRows
  }

  /** Inserts `rows` (batch positions from `k`) one statement at a time. An insert fails when
      its id is already in the table (the span primary key), when its duration does not fit
      `duration_ns`, or when the statement fails for a reason outside the model. */
  function IngestSpans(table: seq<SpanRow>, rows: seq<SpanRow>, k: nat, failingRows: set<nat>): (r: Ingest<SpanRow>)
    decreases |rows|
    ensures r.Ingested? ==> r.table == table + rows
    ensures r.Refused? ==> k <= r.index < k + |rows| && r.table == table + rows[..r.index - k]
  {
    if rows == [] then Ingested(table)
    else if RefusesRow(table, rows[0], k, failingRows) then Refused(k, table)
    else
      assert table + [rows[0]] + rows[1..] == table + rows;
      var r := IngestSpans(table + [rows[0]], rows[1..], k + 1, failingRows);
      assert r.Refused? ==> table + [rows[0]] + rows[1..][..r.index - k - 1] == table + rows[..r.index - k];
      r
  }

  /** After `n` accepted statements, the rest of the loop continues from the grown table. */
  lemma {:induction false} IngestSpansPrefix(table: seq<SpanRow>, rows: seq<SpanRow>, k: nat, failingRows: set<nat>, n: nat)
    requires n <= |rows|
    requires forall i :: 0 <= i < n ==> !RefusesRow(table + rows[..i], rows[i], k + i, failingRows)
    ensures IngestSpans(table, rows, k, failingRows) == IngestSpans(table + rows[..n], rows[n..], k + n, failingRows)
    decreases n
  {
    if n == 0 {
      assert table + rows[..0] == table && rows[0..] == rows;
    } else {
      IngestSpansPrefix(table, rows, k, failingRows, n - 1);
      var t := table + rows[..n - 1];
      assert !RefusesRow(t, rows[n - 1], k + n - 1, failingRows);
      assert rows[n - 1..][0] == rows[n - 1] && rows[n - 1..][1..] == rows[n..];
      assert t + [rows[n - 1]] == table + rows[..n];
    }
  }

  /** One more accepted row extends both the accepted prefix and the table. */
  lemma IngestSpansStep(table: seq<SpanRow>, rows: seq<SpanRow>, k: nat, failingRows: set<nat>, n: nat)
    requires n < |rows|
    requires forall i :: 0 <= i < n ==> !RefusesRow(table + rows[..i], rows[i], k + i, failingRows)
    requires !RefusesRow(table + rows[..n], rows[n], k + n, failingRows)
    ensures forall i :: 0 <= i < n + 1 ==> !RefusesRow(table + rows[..i], rows[i], k + i, failingRows)
    ensures table + rows[..n] + [rows[n]] == table + rows[..n + 1]
  {
    assert rows[..n + 1] == rows[..n] + [rows[n]];
  }

  /** How the loop ends: all rows went in, or the first refused one stops it. */
  lemma IngestSpansEnd(table: seq<SpanRow>, rows: seq<SpanRow>, k: nat, failingRows: set<nat>, n: nat)
    requires n <= |rows|
    requires forall i :: 0 <= i < n ==> !RefusesRow(table + rows[..i], rows[i], k + i, failingRows)
    ensures n == |rows| ==> IngestSpans(table, rows, k, failingRows) == Ingested(table + rows)
    ensures n < |rows| && RefusesRow(table + rows[..n], rows[n], k + n, failingRows) ==>
      IngestSpans(table, rows, k, failingRows) == Refused(k + n, table + rows[..n])
  {
    IngestSpansPrefix(table, rows, k, failingRows, n);
    if n == |rows| {
      assert rows[..n] == rows && rows[n..] == [];
    } else {
      assert rows[n..][0] == rows[n];
    }
  }

  /** Row inserts keep the schema constraints of the span table. */
  lemma {:induction false} IngestKeepsConsistent(
    resources: map<string, Resource>, table: seq<SpanRow>, logs: seq<LogRow>,
    rows: seq<SpanRow>, k: nat, failingRows: set<nat>)
    requires Consistent(resources, table, logs)
    requires forall i :: 0 <= i < |rows| ==> rows[i].resourceId in resources
    ensures Consistent(resources, IngestSpans(table, rows, k, failingRows).table, logs)
    decreases |rows|
  {
    if rows != [] && !(rows[0].id in Ids(table) || !FitsInteger(rows[0].durationNs) || k in failingRows) {
      forall i | 0 <= i < |table| ensures table[i].id != rows[0].id {
        assert table[i].id in Ids(table);
      }
      IngestKeepsConsistent(resources, table + [rows[0]], logs, rows[1..], k + 1, failingRows);
    }
  }

  /** A row whose id is already stored is refused, at its position or earlier. */
  lemma {:induction false} StoredIdRefused(table: seq<SpanRow>, rows: seq<SpanRow>, k: nat, failingRows: set<nat>, j: nat)
    requires j < |rows| && rows[j].id in Ids(table)
    ensures IngestSpans(table, rows, k, failingRows).Refused?
    ensures IngestSpans(table, rows, k, failingRows).index <= k + j
    decreases |rows|
  {
    if !(rows[0].id in Ids(table) || !FitsInteger(rows[0].durationNs) || k in failingRows) {
      IdsAppend(table, [rows[0]]);
      StoredIdRefused(table + [rows[0]], rows[1..], k + 1, failingRows, j - 1);
    }
  }

  /** Two rows of one batch with the same id: the second is refused, or something before it. */
  lemma {:induction false} DuplicateInBatchRefused(
    table: seq<SpanRow>, rows: seq<SpanRow>, k: nat, failingRows: set<nat>, i: nat, j: nat)
    requires i < j < |rows| && rows[i].id == rows[j].id
    ensures IngestSpans(table, rows, k, failingRows).Refused?
    ensures IngestSpans(table, rows, k, failingRows).index <= k + j
    decreases |rows|
  {
    if !(rows[0].id in Ids(table) || !FitsInteger(rows[0].durationNs) || k in failingRows) {
      if i == 0 {
        IdsAppend(table, [rows[0]]);
        assert [rows[0]][0] == rows[0];
        assert rows[0].id in Ids([rows[0]]);
        StoredIdRefused(table + [rows[0]], rows[1..], k + 1, failingRows, j - 1);
      } else {
        DuplicateInBatchRefused(table + [rows[0]], rows[1..], k + 1, failingRows, i - 1, j - 1);
      }
    }
  }

  /** A row lasting longer than `duration_ns` can hold is refused, at its position or earlier. */
  lemma {:induction false} LongRowRefused(table: seq<SpanRow>, rows: seq<SpanRow>, k: nat, failingRows: set<nat>, j: nat)
    requires j < |rows| && !FitsInteger(rows[j].durationNs)
    ensures IngestSpans(table, rows, k, failingRows).Refused?
    ensures IngestSpans(table, rows, k, failingRows).index <= k + j
    decreases |rows|
  {
    if j > 0 && !(rows[0].id in Ids(table) || !FitsInteger(rows[0].durationNs) || k in failingRows) {
      LongRowRefused(table + [rows[0]], rows[1..], k + 1, failingRows, j - 1);
    }
  }

  /** Fresh, distinct ids whose durations fit, with no failing statement, all go in. */
  lemma {:induction false} CleanRowsIngested(table: seq<SpanRow>, rows: seq<SpanRow>, k: nat, failingRows: set<nat>)
    requires UniqueIds(rows)
    requires forall i :: 0 <= i < |rows| ==> rows[i].id !in Ids(table) && FitsInteger(rows[i].durationNs)
    requires forall i :: k <= i < k + |rows| ==> i !in failingRows
    ensures IngestSpans(table, rows, k, failingRows) == Ingested(table + rows)
    decreases |rows|
  {
    if rows != [] {
      IdsAppend(table, [rows[0]]);
      assert [rows[0]][0] == rows[0];
      assert Ids([rows[0]]) == {rows[0].id};
      forall i | 0 <= i < |rows[1..]| ensures rows[1..][i].id !in Ids(table + [rows[0]]) {
        assert rows[1..][i] == rows[i + 1];
      }
      CleanRowsIngested(table + [rows[0]], rows[1..], k + 1, failingRows);
    }
  }

  /** Inserting `a + b` is inserting `a` and then, if all of it went in, `b`. */
  lemma {:induction false} IngestSplits(table: seq<SpanRow>, a: seq<SpanRow>, b: seq<SpanRow>, k: nat, failingRows: set<nat>)
    ensures IngestSpans(table, a + b, k, failingRows) ==
      match IngestSpans(table, a, k, failingRows)
      case Refused(_, _) => IngestSpans(table, a, k, failingRows)
      case Ingested(t) => IngestSpans(t, b, k + |a|, failingRows)
    decreases |a|
  {
    if a == [] {
      assert a + b == b;
    } else {
      assert (a + b)[0] == a[0] && (a + b)[1..] == a[1..] + b;
      IngestSplits(table + [a[0]], a[1..], b, k + 1, failingRows);
    }
  }

  /** The same for log rows, which have no key: only a failing statement refuses one. */
  function IngestLogs(table: seq<LogRow>, rows: seq<LogRow>, k: nat, failingRows: set<nat>): (r: Ingest<LogRow>)
    decreases |rows|
    ensures r.Ingested? ==> r.table == table + rows
    ensures r.Refused? ==> k <= r.index < k + |rows| && r.index in failingRows
    ensures r.Refused? ==> r.table == table + rows[..r.index - k]
  {
    if rows == [] then Ingested(table)
    else if k in failingRows then Refused(k, table)
    else
      assert table + [rows[0]] + rows[1..] == table + rows;
      var r := IngestLogs(table + [rows[0]], rows[1..], k + 1, failingRows);
      assert r.Refused? ==> table + [rows[0]] + rows[1..][..r.index - k - 1] == table + rows[..r.index - k];
      r
  }

  lemma {:induction false} IngestLogsSplits(table: seq<LogRow>, a: seq<LogRow>, b: seq<LogRow>, k: nat, failingRows: set<nat>)
    decreases |a|
    ensures IngestLogs(table, a + b, k, failingRows) ==
      match IngestLogs(table, a, k, failingRows)
      case Refused(_, _) => IngestLogs(table, a, k, failingRows)
      case Ingested(t) => IngestLogs(t, b, k + |a|, failingRows)
  {
    if a == [] {
      assert a + b == b;
    } else {
      assert (a + b)[0] == a[0] && (a + b)[1..] == a[1..] + b;
      IngestLogsSplits(table + [a[0]], a[1..], b, k + 1, failingRows);
    }
  }

  lemma SpanRowsOfScopes(scopes: seq<seq<OtelSpan>>, si: nat, resourceId: string)
    requires si < |scopes|
    ensures SpanRows(Flatten(scopes[si..]), resourceId)
            == SpanRows(scopes[si], resourceId) + SpanRows(Flatten(scopes[si + 1..]), resourceId)
  {
    assert scopes[si..] == [scopes[si]] + scopes[si + 1..];
    assert Flatten(scopes[si..]) == scopes[si] + Flatten(scopes[si + 1..]);
  }

  /** Ingesting the scopes from `si` on is ingesting scope `si`, then, if that succeeded, the rest. */
  lemma SpanScopeStep(table: seq<SpanRow>, scopes: seq<seq<OtelSpan>>, si: nat, resourceId: string, k: nat, failingRows: set<nat>)
    requires si < |scopes|
    ensures var scoped := IngestSpans(table, SpanRows(scopes[si], resourceId), k, failingRows);
      var whole := IngestSpans(table, SpanRows(Flatten(scopes[si..]), resourceId), k, failingRows);
      && (scoped.Refused? ==> whole == scoped)
      && (scoped.Ingested? ==>
            whole == IngestSpans(scoped.table, SpanRows(Flatten(scopes[si + 1..]), resourceId), k + |scopes[si]|, failingRows))
  {
    var head := SpanRows(scopes[si], resourceId);
    var tail := SpanRows(Flatten(scopes[si + 1..]), resourceId);
    SpanRowsOfScopes(scopes, si, resourceId);
    IngestSplits(table, head, tail, k, failingRows);
    assert |head| == |scopes[si]|;
  }

  lemma LogRowsOfScopes(scopes: seq<seq<OtelLog>>, si: nat, resourceId: string)
    requires si < |scopes|
    ensures LogRows(Flatten(scopes[si..]), resourceId)
            == LogRows(scopes[si], resourceId) + LogRows(Flatten(scopes[si + 1..]), resourceId)
  {
    assert scopes[si..] == [scopes[si]] + scopes[si + 1..];
    assert Flatten(scopes[si..]) == scopes[si] + Flatten(scopes[si + 1..]);
  }

  /** Ingesting `head + tail` is ingesting `head`, then, if that succeeded, `tail`. */
  lemma LogHeadStep(table: seq<LogRow>, head: seq<LogRow>, tail: seq<LogRow>, k: nat, failingRows: set<nat>)
    ensures var scoped := IngestLogs(table, head, k, failingRows);
      var whole := IngestLogs(table, head + tail, k, failingRows);
      && (scoped.Refused? ==> whole == scoped)
      && (scoped.Ingested? ==> whole == IngestLogs(scoped.table, tail, k + |head|, failingRows))
  {
    IngestLogsSplits(table, head, tail, k, failingRows);
  }

  lemma LogScopeStep(table: seq<LogRow>, scopes: seq<seq<OtelLog>>, si: nat, resourceId: string, k: nat, failingRows: set<nat>)
    requires si < |scopes|
    ensures var scoped := IngestLogs(table, LogRows(scopes[si], resourceId), k, failingRows);
      var whole := IngestLogs(table, LogRows(Flatten(scopes[si..]), resourceId), k, failingRows);
      && (scoped.Refused? ==> whole == scoped)
      && (scoped.Ingested? ==>
            whole == IngestLogs(scoped.table, LogRows(Flatten(scopes[si + 1..]), resourceId), k + |scopes[si]|, failingRows))
  {
    var head := LogRows(scopes[si], resourceId);
    var tail := LogRows(Flatten(scopes[si + 1..]), resourceId);
    LogRowsOfScopes(scopes, si, resourceId);
    LogHeadStep(table, head, tail, k, failingRows);
    assert |head| == |scopes[si]|;
  }

  /** The span insert loop: for every scope, for every span, insert its row. */
  method ExecSpanInserts(table: seq<SpanRow>, scopes: seq<seq<OtelSpan>>, resourceId: string, failingRows: set<nat>)
    returns (r: Ingest<SpanRow>)
    ensures r == IngestSpans(table, SpanRows(Flatten(scopes), resourceId), 0, failingRows)
  {
    ghost var outcome := IngestSpans(table, SpanRows(Flatten(scopes), resourceId), 0, failingRows);
    var current := table;
    var k: nat := 0;
    var si := 0;
    assert scopes[0..] == scopes;
    while si < |scopes|
      invariant 0 <= si <= |scopes|
      invariant IngestSpans(current, SpanRows(Flatten(scopes[si..]), resourceId), k, failingRows) == outcome
    {
      SpanScopeStep(current, scopes, si, resourceId, k, failingRows);
      var scoped := ExecScopeSpanInserts(current, scopes[si], resourceId, k, failingRows);
      if scoped.Refused? {
        return scoped;
      }
      current := scoped.table;
      k := k + |scopes[si]|;
      si := si + 1;
    }
    assert scopes[si..] == [];
    return Ingested(current);
  }

  /** The inner loop over the spans of one scope, starting at batch position `k`. */
  method ExecScopeSpanInserts(table: seq<SpanRow>, scope: seq<OtelSpan>, resourceId: string, k: nat, failingRows: set<nat>)
    returns (r: Ingest<SpanRow>)
    ensures r == IngestSpans(table, SpanRows(scope, resourceId), k, failingRows)
  {
    var rows := SpanRows(scope, resourceId);
    var current := table;
    var sj := 0;
    while sj < |scope|
      invariant 0 <= sj <= |scope|
      invariant current == table + rows[..sj]
      invariant forall i :: 0 <= i < sj ==> !RefusesRow(table + rows[..i], rows[i], k + i, failingRows)
    {
      var row := rows[sj];
      if RefusesRow(current, row, k + sj, failingRows) {
        IngestSpansEnd(table, rows, k, failingRows, sj);
        return Refused(k + sj, current);
      }
      IngestSpansStep(table, rows, k, failingRows, sj);
      current := current + [row];
      sj := sj + 1;
    }
    IngestSpansEnd(table, rows, k, failingRows, sj);
    return Ingested(current);
  }

  lemma {:induction false} IngestLogsPrefix(table: seq<LogRow>, rows: seq<LogRow>, k: nat, failingRows: set<nat>, n: nat)
    requires n <= |rows|
    requires forall i :: k <= i < k + n ==> i !in failingRows
    ensures IngestLogs(table, rows, k, failingRows) == IngestLogs(table + rows[..n], rows[n..], k + n, failingRows)
    decreases n
  {
    if n == 0 {
      assert table + rows[..0] == table && rows[0..] == rows;
    } else {
      IngestLogsPrefix(table, rows, k, failingRows, n - 1);
      var t := table + rows[..n - 1];
      assert k + n - 1 !in failingRows;
      assert rows[n - 1..][0] == rows[n - 1] && rows[n - 1..][1..] == rows[n..];
      assert t + [rows[n - 1]] == table + rows[..n];
    }
  }

  lemma IngestLogsEnd(table: seq<LogRow>, rows: seq<LogRow>, k: nat, failingRows: set<nat>, n: nat)
    requires n <= |rows|
    requires forall i :: k <= i < k + n ==> i !in failingRows
    ensures n == |rows| ==> IngestLogs(table, rows, k, failingRows) == Ingested(table + rows)
    ensures n < |rows| && k + n in failingRows ==>
      IngestLogs(table, rows, k, failingRows) == Refused(k + n, table + rows[..n])
  {
    IngestLogsPrefix(table, rows, k, failingRows, n);
    if n == |rows| {
      assert rows[..n] == rows && rows[n..] == [];
    }
  }

  /** The log insert loop: for every scope, for every log record, insert its row. */
  method ExecLogInserts(table: seq<LogRow>, scopes: seq<seq<OtelLog>>, resourceId: string, failingRows: set<nat>)
    returns (r: Ingest<LogRow>)
    ensures r == IngestLogs(table, LogRows(Flatten(scopes), resourceId), 0, failingRows)
  {
    ghost var outcome := IngestLogs(table, LogRows(Flatten(scopes), resourceId), 0, failingRows);
    var current := table;
    var k: nat := 0;
    var si := 0;
    assert scopes[0..] == scopes;
    while si < |scopes|
      invariant 0 <= si <= |scopes|
      invariant IngestLogs(current, LogRows(Flatten(scopes[si..]), resourceId), k, failingRows) == outcome
    {
      LogScopeStep(current, scopes, si, resourceId, k, failingRows);
      var scoped := ExecScopeLogInserts(current, scopes[si], resourceId, k, failingRows);
      if scoped.Refused? {
        return scoped;
      }
      current := scoped.table;
      k := k + |scopes[si]|;
      si := si + 1;
    }
    assert scopes[si..] == [];
    return Ingested(current);
  }

  /** The inner loop over the records of one scope, starting at batch position `k`. */
  method ExecScopeLogInserts(table: seq<LogRow>, scope: seq<OtelLog>, resourceId: string, k: nat, failingRows: set<nat>)
    returns (r: Ingest<LogRow>)
    ensures r == IngestLogs(table, LogRows(scope, resourceId), k, failingRows)
  {
    ghost var rows := LogRows(scope, resourceId);
    var current := table;
    var sj := 0;
    while sj < |scope|
      invariant 0 <= sj <= |scope|
      invariant current == table + rows[..sj]
      invariant forall i :: k <= i < k + sj ==> i !in failingRows
    {
      var row := LogRowOf(scope[sj], resourceId);
      assert row == rows[sj];
      if k + sj in failingRows {
        IngestLogsEnd(table, rows, k, failingRows, sj);
        return Refused(k + sj, current);
      }
      current := current + [row];
      assert rows[..sj + 1] == rows[..sj] + [rows[sj]];
      sj := sj + 1;
    }
    IngestLogsEnd(table, rows, k, failingRows, sj);
    return Ingested(current);
  }
}

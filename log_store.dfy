/**
 * The log store: transactional ingest of one `ResourceLogs` batch, truncation of the log
 * table, and the newest-first listing.
 */
module LogStore {
  import opened Results
  import opened Seqs
  import opened Schema
  import opened Ingest
  import Ordering

  /** The error a transactional log batch reports, or `None` when it commits. */
  function TxOutcome(batch: ResourceLogs, faults: TxFaults): Option<DbError>
  {
    if faults.beginFails then Some(BeginFailed)
    else if faults.statements.resourceInsertFails then Some(ResourceInsertFailed)
    else match IngestLogs([], BatchLogRows(batch), 0, faults.statements.failingRows)
      case Refused(k, _) => Some(LogInsertFailed(k))
      case Ingested(_) => if faults.commitFails then Some(CommitFailed) else None
  }

  /** Inserts the batch's resource (insert-or-ignore) and every log row, all or nothing. */
  method InsertResourceLogs(d: Database, batch: ResourceLogs, faults: TxFaults) returns (err: Option<DbError>)
    requires d.Valid()
    modifies d
    ensures d.Valid()
    ensures err == TxOutcome(batch, faults)
    ensures err.None? ==>
      && d.resources == InsertOrIgnore(old(d.resources), ResourceOf(batch.resourceAttributes))
      && d.logs == old(d.logs) + BatchLogRows(batch)
    ensures err.Some? ==> d.resources == old(d.resources) && d.logs == old(d.logs)
    ensures d.spans == old(d.spans)
  {
    var res := ResourceOf(batch.resourceAttributes);
    if faults.beginFails {
      return Some(BeginFailed);
    }
    // The transaction's view of the tables; only the commit writes it back.
    var txResources := d.resources;
    if faults.statements.resourceInsertFails {
      return Some(ResourceInsertFailed);
    }
    txResources := InsertOrIgnore(txResources, res);
    var inserted := ExecLogInserts(d.logs, batch.scopeLogs, res.id, faults.statements.failingRows);
    LogOutcomeIndependentOfTable(d.logs, BatchLogRows(batch), 0, faults.statements.failingRows);
    if inserted.Refused? {
      return Some(LogInsertFailed(inserted.index));
    }
    if faults.commitFails {
      return Some(CommitFailed);
    }
    d.resources, d.logs := txResources, inserted.table;
    err := None;
  }

  /** Whether a log insert fails does not depend on what the table already holds. */
  lemma {:induction false} LogOutcomeIndependentOfTable(table: seq<LogRow>, rows: seq<LogRow>, k: nat, failingRows: set<nat>)
    decreases |rows|
    ensures IngestLogs(table, rows, k, failingRows).Refused? == IngestLogs([], rows, k, failingRows).Refused?
    ensures IngestLogs(table, rows, k, failingRows).Refused? ==>
      IngestLogs(table, rows, k, failingRows).index == IngestLogs([], rows, k, failingRows).index
  {
    if rows != [] && k !in failingRows {
      LogOutcomeIndependentOfTable(table + [rows[0]], rows[1..], k + 1, failingRows);
      LogOutcomeIndependentOfTable([] + [rows[0]], rows[1..], k + 1, failingRows);
    }
  }

  /** Log rows have no key: without failing statements every batch commits. */
  lemma FaultFreeBatchCommits(batch: ResourceLogs)
    ensures TxOutcome(batch, TxFaults(false, StatementFaults(false, {}), false)) == None
  {
    var r := IngestLogs([], BatchLogRows(batch), 0, {});
  }

  /** `TRUNCATE TABLE log`: resources and spans stay. */
  method ClearLogs(d: Database, fails: bool) returns (err: Option<DbError>)
    requires d.Valid()
    modifies d
    ensures d.Valid()
    ensures fails <==> err.Some?
    ensures d.logs == (if fails then old(d.logs) else [])
    ensures d.resources == old(d.resources) && d.spans == old(d.spans)
  {
    if fails {
      return Some(TruncateFailed("log"));
    }
    d.logs := [];
    err := None;
  }

  predicate NewestLogFirst(a: LogRow, b: LogRow) { a.timestamp >= b.timestamp }

  /** Every log row, newest timestamp first. */
  function GetLogs(logs: seq<LogRow>, queryFails: bool): (r: Result<seq<LogRow>, DbError>)
    ensures r.Failure? <==> queryFails
    ensures r.Success? ==> Ordering.IsOrderingOf(r.value, logs, NewestLogFirst)
  {
    if queryFails then Failure(QueryFailed)
    else
      assert Ordering.TotalPreorder(NewestLogFirst);
      Ordering.SortIsOrdering(logs, NewestLogFirst);
      Success(Ordering.Sort(logs, NewestLogFirst))
  }
}

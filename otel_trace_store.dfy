/**
 * The transactional span store: ingest of one `ResourceSpans` batch inside a transaction,
 * clearing the span table, and the read queries.
 */
module OtelTraceStore {
  import opened Results
  import opened Seqs
  import opened Schema
  import opened Ingest
  import SpanQueries
  import Ordering

  /** The error a transactional batch insert reports, or `None` when it commits. */
  function TxOutcome(stored: seq<SpanRow>, batch: ResourceSpans, faults: TxFaults): Option<DbError>
  {
    if faults.beginFails then Some(BeginFailed)
    else if faults.statements.resourceInsertFails then Some(ResourceInsertFailed)
    else match IngestSpans(stored, BatchRows(batch), 0, faults.statements.failingRows)
      case Refused(k, _) => Some(SpanInsertFailed(k))
      case Ingested(_) => if faults.commitFails then Some(CommitFailed) else None
  }

  /** Inserts the batch's resource (insert-or-ignore) and every span row, all or nothing:
      any failing statement rolls back, otherwise the transaction commits. */
  method InsertResourceSpans(d: Database, batch: ResourceSpans, faults: TxFaults) returns (err: Option<DbError>)
    requires d.Valid()
    modifies d
    ensures d.Valid()
    ensures err == TxOutcome(old(d.spans), batch, faults)
    ensures err.None? ==>
      && d.resources == InsertOrIgnore(old(d.resources), ResourceOf(batch.resourceAttributes))
      && d.spans == old(d.spans) + BatchRows(batch)
    ensures err.Some? ==> d.resources == old(d.resources) && d.spans == old(d.spans)
    ensures d.logs == old(d.logs)
  {
    var res := ResourceOf(batch.resourceAttributes);
    if faults.beginFails {
      return Some(BeginFailed);
    }
    // The transaction's view of the tables; only the commit writes it back.
    var txResources := d.resources;
    if faults.statements.resourceInsertFails {
      return Some(ResourceInsertFailed);
    }
    txResources := InsertOrIgnore(txResources, res);
    var inserted := ExecSpanInserts(d.spans, batch.scopeSpans, res.id, faults.statements.failingRows);
    if inserted.Refused? {
      return Some(SpanInsertFailed(inserted.index));
    }
    if faults.commitFails {
      return Some(CommitFailed);
    }
    IngestKeepsConsistent(txResources, d.spans, d.logs, BatchRows(batch), 0, faults.statements.failingRows);
    d.resources, d.spans := txResources, inserted.table;
    err := None;
  }

  /** A span whose id is already stored makes the whole call fail (primary key). */
  lemma DuplicateIdFails(stored: seq<SpanRow>, batch: ResourceSpans, faults: TxFaults, k: nat)
    requires k < |BatchRows(batch)| && BatchRows(batch)[k].id in Ids(stored)
    ensures TxOutcome(stored, batch, faults).Some?
  {
    StoredIdRefused(stored, BatchRows(batch), 0, faults.statements.failingRows, k);
  }

  /** A span lasting longer than the `duration_ns` column can hold makes the call fail. */
  lemma LongSpanFails(stored: seq<SpanRow>, batch: ResourceSpans, faults: TxFaults, k: nat)
    requires k < |BatchRows(batch)| && !FitsInteger(BatchRows(batch)[k].durationNs)
    ensures TxOutcome(stored, batch, faults).Some?
  {
    LongRowRefused(stored, BatchRows(batch), 0, faults.statements.failingRows, k);
  }

  /** Without faults, a batch of fresh, distinct ids whose durations fit commits. */
  lemma CleanBatchCommits(stored: seq<SpanRow>, batch: ResourceSpans)
    requires var rows := BatchRows(batch);
      && UniqueIds(rows)
      && (forall k :: 0 <= k < |rows| ==> rows[k].id !in Ids(stored) && FitsInteger(rows[k].durationNs))
    ensures TxOutcome(stored, batch, TxFaults(false, StatementFaults(false, {}), false)).None?
  {
    CleanRowsIngested(stored, BatchRows(batch), 0, {});
  }

  /** `TRUNCATE TABLE span`: resources and logs stay. */
  method ClearSpans(d: Database, fails: bool) returns (err: Option<DbError>)
    requires d.Valid()
    modifies d
    ensures d.Valid()
    ensures fails <==> err.Some?
    ensures d.spans == (if fails then old(d.spans) else [])
    ensures d.resources == old(d.resources) && d.logs == old(d.logs)
  {
    if fails {
      return Some(TruncateFailed("span"));
    }
    d.spans := [];
    err := None;
  }

  /** The resource with the given id, or `NotFound` (`sql.ErrNoRows`). */
  function GetResource(resources: map<string, Resource>, id: string, queryFails: bool): (r: Result<Resource, DbError>)
    requires forall k :: k in resources ==> resources[k].id == k
    ensures r.Success? <==> !queryFails && id in resources
    ensures r.Success? ==> r.value.id == id && r.value == resources[id]
  {
    if queryFails then Failure(QueryFailed)
    else if id in resources then Success(resources[id])
    else Failure(NotFound)
  }

  const RootSpanColumns := Columns(
    traceId := true, id := true, name := true, startTime := true, duration := true,
    parentSpanId := false, statusCode := true, statusMessage := false, attributes := true,
    resourceId := true, serviceName := true)

  const TraceSpanColumns := Columns(
    traceId := true, id := true, name := true, startTime := true, duration := true,
    parentSpanId := true, statusCode := false, statusMessage := false, attributes := true,
    resourceId := false, serviceName := true)

  /** Exactly the spans without a parent, newest start first; a failed query gives no spans. */
  function GetRootSpans(resources: map<string, Resource>, spans: seq<SpanRow>, queryFails: bool): (r: seq<Span>)
    ensures queryFails ==> r == []
    ensures !queryFails ==>
      exists ordered :: Ordering.IsOrderingOf(ordered, SpanQueries.RootRows(spans), NewerFirst)
                        && r == SelectAll(resources, ordered, RootSpanColumns)
  {
    if queryFails then [] else SpanQueries.RootSpans(resources, spans, RootSpanColumns)
  }

  /** Exactly the spans of the trace, oldest start first. */
  function GetSpansForTrace(resources: map<string, Resource>, spans: seq<SpanRow>, traceId: string, queryFails: bool)
    : (r: Result<seq<Span>, DbError>)
    ensures r.Failure? <==> queryFails
    ensures r.Success? ==>
      exists ordered :: Ordering.IsOrderingOf(ordered, SpanQueries.TraceRows(spans, traceId), OlderFirst)
                        && r.value == SelectAll(resources, ordered, TraceSpanColumns)
  {
    if queryFails then Failure(QueryFailed)
    else Success(SpanQueries.TraceSpans(resources, spans, traceId, TraceSpanColumns))
  }

  /** One bucket per distinct minute among the resource's spans, newest first, with counts. */
  function SpansPerMinuteForService(resources: map<string, Resource>, spans: seq<SpanRow>, resourceId: string, queryFails: bool)
    : (r: Result<seq<MinuteBucket>, DbError>)
    ensures r.Failure? <==> queryFails
    ensures r.Success? ==>
      var minutes := SpanQueries.Minutes(SpanQueries.ServiceRows(resources, spans, resourceId));
      && (forall i, j :: 0 <= i < j < |r.value| ==> r.value[i].bucketStart > r.value[j].bucketStart)
      && (forall i :: 0 <= i < |r.value| ==> r.value[i].spanCount == multiset(minutes)[r.value[i].bucketStart] > 0)
      && (forall m :: m in minutes <==> exists i :: 0 <= i < |r.value| && r.value[i].bucketStart == m)
  {
    if queryFails then Failure(QueryFailed)
    else Success(SpanQueries.SpansPerMinute(resources, spans, resourceId))
  }
}

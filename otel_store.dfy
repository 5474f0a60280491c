/**
 * The older, non-transactional span store: each statement of a batch insert is executed on
 * its own, so a failing span leaves the resource and the spans before it stored.
 */
module OtelStore {
  import opened Results
  import opened Seqs
  import opened Schema
  import opened Ingest
  import SpanQueries
  import Ordering
  import OtelTraceStore

  /** The error a non-transactional batch insert reports, or `None` when every statement succeeded. */
  function Outcome(stored: seq<SpanRow>, batch: ResourceSpans, faults: StatementFaults): Option<DbError>
  {
    if faults.resourceInsertFails then Some(ResourceInsertFailed)
    else match IngestSpans(stored, BatchRows(batch), 0, faults.failingRows)
      case Refused(k, _) => Some(SpanInsertFailed(k))
      case Ingested(_) => None
  }

  /** Inserts the batch's resource (insert-or-ignore) and then each span, stopping at the first
      failing statement; whatever was written before it stays written. */
  method InsertResourceSpans(d: Database, batch: ResourceSpans, faults: StatementFaults) returns (err: Option<DbError>)
    requires d.Valid()
    modifies d
    ensures d.Valid()
    ensures err == Outcome(old(d.spans), batch, faults)
    ensures faults.resourceInsertFails ==> d.resources == old(d.resources) && d.spans == old(d.spans)
    ensures !faults.resourceInsertFails ==>
      && d.resources == InsertOrIgnore(old(d.resources), ResourceOf(batch.resourceAttributes))
      && d.spans == IngestSpans(old(d.spans), BatchRows(batch), 0, faults.failingRows).table
    ensures err.Some? && err.value.SpanInsertFailed? ==>
      d.spans == old(d.spans) + BatchRows(batch)[..err.value.index]
    ensures err.None? ==> d.spans == old(d.spans) + BatchRows(batch)
    ensures d.logs == old(d.logs)
  {
    var res := ResourceOf(batch.resourceAttributes);
    if faults.resourceInsertFails {
      return Some(ResourceInsertFailed);
    }
    d.resources := InsertOrIgnore(d.resources, res);
    var inserted := ExecSpanInserts(d.spans, batch.scopeSpans, res.id, faults.failingRows);
    IngestKeepsConsistent(d.resources, d.spans, d.logs, BatchRows(batch), 0, faults.failingRows);
    d.spans := inserted.table;
    if inserted.Refused? {
      return Some(SpanInsertFailed(inserted.index));
    }
    err := None;
  }

  /** A batch with one scope holding two spans of the same id. */
  const RepeatedSpan := OtelSpan("a", "op", 0, 1, "t", "", Unset, "", map[])
  const RepeatedBatch := ResourceSpans(map[], [[RepeatedSpan, RepeatedSpan]])

  /** The insert is not atomic: on an empty database the first span stays stored and the
      second reports the failure, whereas the transactional store writes nothing. */
  lemma NotAtomic()
    ensures Outcome([], RepeatedBatch, StatementFaults(false, {})) == Some(SpanInsertFailed(1))
    ensures IngestSpans([], BatchRows(RepeatedBatch), 0, {}).table == [BatchRows(RepeatedBatch)[0]]
    ensures OtelTraceStore.TxOutcome([], RepeatedBatch, TxFaults(false, StatementFaults(false, {}), false))
            == Some(SpanInsertFailed(1))
  {
    var rows := BatchRows(RepeatedBatch);
    assert Flatten(RepeatedBatch.scopeSpans) == [RepeatedSpan, RepeatedSpan];
    assert |rows| == 2 && rows[0] == rows[1];
    assert !RefusesRow([], rows[0], 0, {});
    assert [rows[0]][0].id == rows[0].id;
    assert RefusesRow([rows[0]], rows[1..][0], 1, {});
    assert IngestSpans([rows[0]], rows[1..], 1, {}) == Refused(1, [rows[0]]);
    assert [] + [rows[0]] == [rows[0]];
    assert IngestSpans([], rows, 0, {}) == Refused(1, [rows[0]]);
  }

  /** `TRUNCATE TABLE span`, then `TRUNCATE TABLE resource`, stopping at the first error.
      The resource truncate is refused while logs still reference resources. */
  method Clear(d: Database, spanTruncateFails: bool, resourceTruncateFails: bool) returns (err: Option<DbError>)
    requires d.Valid()
    modifies d
    ensures d.Valid()
    ensures spanTruncateFails ==> err == Some(TruncateFailed("span")) && d.spans == old(d.spans)
    ensures !spanTruncateFails ==> d.spans == []
    ensures !spanTruncateFails && (resourceTruncateFails || |d.logs| > 0) ==>
      err == Some(TruncateFailed("resource")) && d.resources == old(d.resources)
    ensures err.None? <==> !spanTruncateFails && !resourceTruncateFails && |old(d.logs)| == 0
    ensures err.None? ==> d.resources == map[]
    ensures err.Some? ==> d.resources == old(d.resources)
    ensures d.logs == old(d.logs)
  {
    if spanTruncateFails {
      return Some(TruncateFailed("span"));
    }
    d.spans := [];
    if resourceTruncateFails || |d.logs| > 0 {
      return Some(TruncateFailed("resource"));
    }
    d.resources := map[];
    err := None;
  }

  /** The columns the older queries read: no parent, no message, no resource id. */
  const SpanColumns := Columns(
    traceId := true, id := true, name := true, startTime := true, duration := true,
    parentSpanId := false, statusCode := true, statusMessage := false, attributes := true,
    resourceId := false, serviceName := true)

  const TraceSpanColumns := Columns(
    traceId := true, id := true, name := true, startTime := true, duration := true,
    parentSpanId := true, statusCode := false, statusMessage := false, attributes := false,
    resourceId := false, serviceName := true)

  /** Every stored span, in no particular order (the query has no `ORDER BY`); a failed query
      gives no spans. */
  function GetSpans(resources: map<string, Resource>, spans: seq<SpanRow>, queryFails: bool): (r: seq<Span>)
    ensures queryFails ==> r == []
    ensures !queryFails ==>
      exists ordered :: multiset(ordered) == multiset(spans) && r == SelectAll(resources, ordered, SpanColumns)
    ensures !queryFails ==> |r| == |spans|
  {
    if queryFails then [] else SelectAll(resources, spans, SpanColumns)
  }

  /** Exactly the spans without a parent, newest start first; a failed query gives no spans. */
  function GetRootSpans(resources: map<string, Resource>, spans: seq<SpanRow>, queryFails: bool): (r: seq<Span>)
    ensures queryFails ==> r == []
    ensures !queryFails ==>
      exists ordered :: Ordering.IsOrderingOf(ordered, SpanQueries.RootRows(spans), NewerFirst)
                        && r == SelectAll(resources, ordered, SpanColumns)
  {
    if queryFails then [] else SpanQueries.RootSpans(resources, spans, SpanColumns)
  }

  /** Exactly the spans of the trace, oldest start first. */
  function GetSpansForTrace(resources: map<string, Resource>, spans: seq<SpanRow>, traceId: string, queryFails: bool)
    : (r: Result<seq<Span>, DbError>)
    ensures r.Failure? <==> queryFails
    ensures r.Success? ==>
      exists ordered :: Ordering.IsOrderingOf(ordered, SpanQueries.TraceRows(spans, traceId), OlderFirst)
                        && r.value == SelectAll(resources, ordered, TraceSpanColumns)
  {
    if queryFails then Failure(QueryFailed)
    else Success(SpanQueries.TraceSpans(resources, spans, traceId, TraceSpanColumns))
  }

  /** One bucket per distinct minute among the resource's spans, newest first, with counts. */
  function SpansPerMinuteForService(resources: map<string, Resource>, spans: seq<SpanRow>, resourceId: string, queryFails: bool)
    : (r: Result<seq<MinuteBucket>, DbError>)
    ensures r.Failure? <==> queryFails
    ensures r.Success? ==>
      var minutes := SpanQueries.Minutes(SpanQueries.ServiceRows(resources, spans, resourceId));
      && (forall i, j :: 0 <= i < j < |r.value| ==> r.value[i].bucketStart > r.value[j].bucketStart)
      && (forall i :: 0 <= i < |r.value| ==> r.value[i].spanCount == multiset(minutes)[r.value[i].bucketStart] > 0)
      && (forall m :: m in minutes <==> exists i :: 0 <= i < |r.value| && r.value[i].bucketStart == m)
  {
    if queryFails then Failure(QueryFailed)
    else Success(SpanQueries.SpansPerMinute(resources, spans, resourceId))
  }
}

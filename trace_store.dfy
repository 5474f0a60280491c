/**
 * The second transactional span store: the same ingest and truncate as the first, written
 * out again by the source, so the model delegates.
 */
module TraceStore {
  import opened Results
  import opened Schema
  import opened Ingest
  import OtelTraceStore

  /** All-or-nothing ingest of one batch, committing only when every statement succeeds. */
  method InsertResourceSpans(d: Database, batch: ResourceSpans, faults: TxFaults) returns (err: Option<DbError>)
    requires d.Valid()
    modifies d
    ensures d.Valid()
    ensures err == OtelTraceStore.TxOutcome(old(d.spans), batch, faults)
    ensures err.None? ==>
      && d.resources == InsertOrIgnore(old(d.resources), ResourceOf(batch.resourceAttributes))
      && d.spans == old(d.spans) + BatchRows(batch)
    ensures err.Some? ==> d.resources == old(d.resources) && d.spans == old(d.spans)
    ensures d.logs == old(d.logs)
  {
    err := OtelTraceStore.InsertResourceSpans(d, batch, faults);
  }

  /** A span whose id is already stored makes the call fail with nothing written. */
  lemma StoredIdWritesNothing(stored: seq<SpanRow>, batch: ResourceSpans, faults: TxFaults, k: nat)
    requires k < |BatchRows(batch)| && BatchRows(batch)[k].id in Ids(stored)
    ensures OtelTraceStore.TxOutcome(stored, batch, faults).Some?
  {
    OtelTraceStore.DuplicateIdFails(stored, batch, faults, k);
  }

  /** Two spans of one batch sharing an id make the call fail. */
  lemma DuplicateInBatchFails(stored: seq<SpanRow>, batch: ResourceSpans, faults: TxFaults, i: nat, j: nat)
    requires i < j < |BatchRows(batch)| && BatchRows(batch)[i].id == BatchRows(batch)[j].id
    ensures OtelTraceStore.TxOutcome(stored, batch, faults).Some?
  {
    DuplicateInBatchRefused(stored, BatchRows(batch), 0, faults.statements.failingRows, i, j);
  }

  /** `TRUNCATE TABLE span`: resources and logs stay. */
  method ClearSpans(d: Database, fails: bool) returns (err: Option<DbError>)
    requires d.Valid()
    modifies d
    ensures d.Valid()
    ensures fails <==> err.Some?
    ensures d.spans == (if fails then old(d.spans) else [])
    ensures d.resources == old(d.resources) && d.logs == old(d.logs)
  {
    err := OtelTraceStore.ClearSpans(d, fails);
  }
}

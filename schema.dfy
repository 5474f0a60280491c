/**
 * The storage layer's data: the three tables (resource, span, log) as maps and
 * sequences, the OpenTelemetry records handed to the ingesters, the row each
 * record becomes, and the span read model the queries return.
 */
module Schema {
  import opened Results
  import opened Seqs

  /** Go's zero `time.Time` (January 1 of year 1, UTC) in nanoseconds since the Unix epoch. */
  const ZeroTime: int := -62_135_596_800_000_000_000

  const NanosPerMinute: int := 60_000_000_000

  const NanosPerMicrosecond: int := 1_000

  /**
   * What a `TIMESTAMP` column keeps of a time: whole microseconds since the epoch, rounded
   * down (for times before the epoch too), so the sub-microsecond part is lost.
   */
  function StoredTimestamp(t: int): int
  {
    t - t % NanosPerMicrosecond
  }

  /** Two multiples of `k` that differ, differ by at least `k`. */
  lemma MultiplesApart(x: int, y: int, k: int)
    requires k > 0 && x % k == 0 && y % k == 0 && x < y
    ensures x + k <= y
  {
    var i, j := x / k, y / k;
    assert x == k * i && y == k * j;
    assert y - x == k * (j - i);
    MulSign(k, j - i);
  }

  /** A positive factor keeps the sign of the other and, for a whole multiple, its size. */
  lemma MulSign(k: int, m: int)
    requires k > 0
    ensures m <= 0 ==> k * m <= 0
    ensures m >= 1 ==> k * m >= k
  {
  }

  /** The stored time is the microsecond boundary at or below the time. */
  lemma StoredTimestampBounds(t: int)
    ensures StoredTimestamp(t) <= t < StoredTimestamp(t) + NanosPerMicrosecond
    ensures StoredTimestamp(t) % NanosPerMicrosecond == 0
  {
  }

  /** Storing keeps the order of times, and a stored time is stored unchanged. */
  lemma StoredTimestampMonotone(a: int, b: int)
    requires a <= b
    ensures StoredTimestamp(a) <= StoredTimestamp(b)
    ensures StoredTimestamp(StoredTimestamp(a)) == StoredTimestamp(a)
  {
    StoredTimestampBounds(a);
    StoredTimestampBounds(b);
    var ma, mb := StoredTimestamp(a), StoredTimestamp(b);
    if mb < ma {
      MultiplesApart(mb, ma, NanosPerMicrosecond);
    }
  }

  /** Two times in the same microsecond are stored equal, so a query ordering by the column
      sees them as tied. */
  lemma SameMicrosecondTies(a: int, b: int)
    requires StoredTimestamp(a) <= b < StoredTimestamp(a) + NanosPerMicrosecond
    ensures StoredTimestamp(b) == StoredTimestamp(a)
  {
    StoredTimestampBounds(a);
    StoredTimestampBounds(b);
    var ma, mb := StoredTimestamp(a), StoredTimestamp(b);
    if ma < mb {
      MultiplesApart(ma, mb, NanosPerMicrosecond);
    } else if mb < ma {
      MultiplesApart(mb, ma, NanosPerMicrosecond);
    }
  }

  /** The range of the 32-bit `INTEGER` column type used for `duration_ns`. */
  const IntegerMin: int := -0x8000_0000
  const IntegerMax: int := 0x7fff_ffff

  predicate FitsInteger(n: int) { IntegerMin <= n <= IntegerMax }

  /** A nullable text column (`sql.NullString`). */
  datatype NullString = NullString(str: string, valid: bool)

  const Null := NullString("", false)

  /** An attribute value. `NonFinite` stands for a NaN or infinite double, which JSON encoding refuses. */
  datatype Value = Str(s: string) | Int(i: int) | Double(d: real) | Bool(b: bool) | NonFinite

  type Attributes = map<string, Value>

  /** The text of a value as the pdata `Str()` accessor gives it: empty for every non-string value. */
  function StrOf(v: Value): string
  {
    if v.Str? then v.s else ""
  }

  /** JSON encoding of an attribute map succeeds exactly when no value is a non-finite double. */
  predicate Serializable(attrs: Attributes)
  {
    forall k :: k in attrs ==> !attrs[k].NonFinite?
  }

  /** The attributes column: the encoded map, or the empty object `{}` when encoding fails. */
  function StoredAttributes(attrs: Attributes): (r: Attributes)
    ensures Serializable(r)
    ensures Serializable(attrs) <==> r == attrs
  {
    if Serializable(attrs) then attrs else map[]
  }

  // ---------------------------------------------------------------- resources

  const ServiceNameKey := "service.name"
  const ServiceNamespaceKey := "service.namespace"
  const Unknown := "unknown"

  datatype Resource = Resource(id: string, serviceName: string, serviceNamespace: string)

  /** One resource attribute as the ingester reads it: its `Str()` text, or "unknown" when absent. */
  function ResourceField(attrs: Attributes, key: string): (r: string)
    ensures key !in attrs ==> r == Unknown
    ensures key in attrs && attrs[key].Str? ==> r == attrs[key].s
    ensures key in attrs && !attrs[key].Str? ==> r == ""
  {
    if key in attrs then StrOf(attrs[key]) else Unknown
  }

  /** The resource row an ingester writes for a batch with the given resource attributes. */
  function ResourceOf(attrs: Attributes): (r: Resource)
    ensures r.serviceName == ResourceField(attrs, ServiceNameKey)
    ensures r.serviceNamespace == ResourceField(attrs, ServiceNamespaceKey)
    ensures r.id == r.serviceName + ":" + r.serviceNamespace
  {
    var name := ResourceField(attrs, ServiceNameKey);
    var namespace := ResourceField(attrs, ServiceNamespaceKey);
    Resource(name + ":" + namespace, name, namespace)
  }

  /** A batch without service attributes lands in the resource "unknown:unknown". */
  lemma DefaultResource()
    ensures ResourceOf(map[]).id == "unknown:unknown"
  {
  }

  /** The id `name:namespace` does not tell names containing ':' apart: two different
      services share one resource row, and insert-or-ignore keeps whichever came first. */
  lemma ResourceIdCollides()
    ensures var a := ResourceOf(map[ServiceNameKey := Str("a:b"), ServiceNamespaceKey := Str("c")]);
            var b := ResourceOf(map[ServiceNameKey := Str("a"), ServiceNamespaceKey := Str("b:c")]);
            a.id == b.id && a != b
  {
    var a := ResourceOf(map[ServiceNameKey := Str("a:b"), ServiceNamespaceKey := Str("c")]);
    var b := ResourceOf(map[ServiceNameKey := Str("a"), ServiceNamespaceKey := Str("b:c")]);
    assert a.id == "a:b:c" == b.id;
    assert a.serviceName != b.serviceName by { assert |a.serviceName| == 3 && |b.serviceName| == 1; }
  }

  /** `INSERT OR IGNORE` on the resource table keyed by id. */
  function InsertOrIgnore(resources: map<string, Resource>, r: Resource): (m: map<string, Resource>)
    ensures r.id in m && m.Keys == resources.Keys + {r.id}
    ensures r.id in resources ==> m == resources
    ensures r.id !in resources ==> m[r.id] == r
    ensures forall id :: id in resources ==> m[id] == resources[id]
  {
    if r.id in resources then resources else resources[r.id := r]
  }

  /** Inserting the same resource twice is the same as once, and the first writer of an id wins. */
  lemma InsertOrIgnoreFirstWins(resources: map<string, Resource>, r1: Resource, r2: Resource)
    requires r1.id == r2.id
    ensures InsertOrIgnore(InsertOrIgnore(resources, r1), r2) == InsertOrIgnore(resources, r1)
  {
  }

  // ---------------------------------------------------------------- spans

  datatype StatusCode = Unset | Ok | Error

  function StatusCodeText(c: StatusCode): (t: string)
    ensures t in {"Unset", "Ok", "Error"}
  {
    match c
    case Unset => "Unset"
    case Ok => "Ok"
    case Error => "Error"
  }

  /** A span as the collector hands it over. Ids are their hex strings; an empty id is absent. */
  datatype OtelSpan = OtelSpan(
    spanId: string, name: string, startTimestamp: int, endTimestamp: int, traceId: string,
    parentSpanId: string, statusCode: StatusCode, statusMessage: string, attributes: Attributes)

  /** A `ResourceSpans`: resource attributes and the spans of each scope. */
  datatype ResourceSpans = ResourceSpans(resourceAttributes: Attributes, scopeSpans: seq<seq<OtelSpan>>)

  /** A row of the span table. */
  datatype SpanRow = SpanRow(
    id: string, name: string, startTime: int, durationNs: int, traceId: string,
    parentSpanId: NullString, statusCode: string, statusMessage: NullString,
    attributes: Attributes, resourceId: string)

  /** The row written for `span` under resource `resourceId`. */
  function SpanRowOf(span: OtelSpan, resourceId: string): (row: SpanRow)
    ensures row.id == span.spanId && row.name == span.name && row.traceId == span.traceId
    ensures row.startTime == StoredTimestamp(span.startTimestamp)
    ensures row.durationNs == span.endTimestamp - span.startTimestamp
    ensures !row.parentSpanId.valid <==> span.parentSpanId == ""
    ensures row.parentSpanId.str == span.parentSpanId
    ensures row.statusCode == StatusCodeText(span.statusCode)
    ensures row.statusMessage.valid <==> span.statusMessage != ""
    ensures row.statusMessage.str == StatusCodeText(span.statusCode)
    ensures row.attributes == StoredAttributes(span.attributes)
    ensures row.resourceId == resourceId
  {
    SpanRow(
      span.spanId, span.name, StoredTimestamp(span.startTimestamp), span.endTimestamp - span.startTimestamp,
      span.traceId, NullString(span.parentSpanId, span.parentSpanId != ""),
      StatusCodeText(span.statusCode),
      NullString(StatusCodeText(span.statusCode), span.statusMessage != ""),
      StoredAttributes(span.attributes), resourceId)
  }

  /** The status message column holds the status code's text, so the message text itself
      never reaches the table: spans differing only in a non-empty message give equal rows. */
  lemma StatusMessageTextNotStored(span: OtelSpan, message: string, resourceId: string)
    requires span.statusMessage != "" && message != ""
    ensures SpanRowOf(span.(statusMessage := message), resourceId) == SpanRowOf(span, resourceId)
  {
  }

  /** The rows written for `spans` under resource `resourceId`, in order. */
  function SpanRows(spans: seq<OtelSpan>, resourceId: string): (rows: seq<SpanRow>)
    ensures |rows| == |spans|
    ensures forall i :: 0 <= i < |rows| ==> rows[i] == SpanRowOf(spans[i], resourceId)
  {
    Map(spans, (s: OtelSpan) => SpanRowOf(s, resourceId))
  }

  /** The rows of a batch, in scope-then-span order. */
  function BatchRows(batch: ResourceSpans): seq<SpanRow>
  {
    SpanRows(Flatten(batch.scopeSpans), ResourceOf(batch.resourceAttributes).id)
  }

  function Ids(rows: seq<SpanRow>): set<string>
  {
    set i | 0 <= i < |rows| :: rows[i].id
  }

  lemma IdsAppend(a: seq<SpanRow>, b: seq<SpanRow>)
    ensures Ids(a + b) == Ids(a) + Ids(b)
  {
    forall id | id in Ids(a + b) ensures id in Ids(a) + Ids(b) {
      var i :| 0 <= i < |a + b| && (a + b)[i].id == id;
      if i >= |a| { assert b[i - |a|].id == id; }
    }
    forall id | id in Ids(a) + Ids(b) ensures id in Ids(a + b) {
      if id in Ids(a) {
        var i :| 0 <= i < |a| && a[i].id == id;
        assert (a + b)[i].id == id;
      } else {
        var i :| 0 <= i < |b| && b[i].id == id;
        assert (a + b)[|a| + i].id == id;
      }
    }
  }

  /** The span table's primary key: no two rows share an id. */
  predicate UniqueIds(rows: seq<SpanRow>)
  {
    forall i, j :: 0 <= i < j < |rows| ==> rows[i].id != rows[j].id
  }

  // ---------------------------------------------------------------- logs

  /** A log record as the collector hands it over. */
  datatype OtelLog = OtelLog(
    spanId: string, body: Value, timestamp: int, severityNumber: int, severityText: string,
    attributes: Attributes)

  datatype ResourceLogs = ResourceLogs(resourceAttributes: Attributes, scopeLogs: seq<seq<OtelLog>>)

  /** A row of the log table (it has no primary key). */
  datatype LogRow = LogRow(
    spanId: NullString, body: string, timestamp: int, severityNumber: int, severityText: string,
    resourceId: string, attributes: Attributes)

  function LogRowOf(log: OtelLog, resourceId: string): (row: LogRow)
    ensures !row.spanId.valid <==> log.spanId == ""
    ensures row.spanId.str == log.spanId
    ensures row.body == StrOf(log.body)
    ensures row.timestamp == StoredTimestamp(log.timestamp) && row.severityNumber == log.severityNumber
    ensures row.severityText == log.severityText
    ensures row.resourceId == resourceId
    ensures row.attributes == StoredAttributes(log.attributes)
  {
    LogRow(
      NullString(log.spanId, log.spanId != ""), StrOf(log.body), StoredTimestamp(log.timestamp),
      log.severityNumber, log.severityText, resourceId, StoredAttributes(log.attributes))
  }

  function LogRows(logs: seq<OtelLog>, resourceId: string): (rows: seq<LogRow>)
    ensures |rows| == |logs|
    ensures forall i :: 0 <= i < |rows| ==> rows[i] == LogRowOf(logs[i], resourceId)
  {
    Map(logs, (l: OtelLog) => LogRowOf(l, resourceId))
  }

  function BatchLogRows(batch: ResourceLogs): seq<LogRow>
  {
    LogRows(Flatten(batch.scopeLogs), ResourceOf(batch.resourceAttributes).id)
  }

  // ---------------------------------------------------------------- the database

  /** Schema constraints over the three tables: resources keyed by id, the span primary key,
      both foreign keys into the resource table, and the `duration_ns` column's range. */
  ghost predicate Consistent(resources: map<string, Resource>, spans: seq<SpanRow>, logs: seq<LogRow>)
  {
    && (forall id :: id in resources ==> resources[id].id == id)
    && UniqueIds(spans)
    && (forall i :: 0 <= i < |spans| ==> spans[i].resourceId in resources && FitsInteger(spans[i].durationNs))
    && (forall i :: 0 <= i < |logs| ==> logs[i].resourceId in resources)
  }

  /** The database: its tables are reassigned by the store operations. */
  class Database {
    var resources: map<string, Resource>
    var spans: seq<SpanRow>
    var logs: seq<LogRow>

    ghost predicate Valid()
      reads this
    {
      Consistent(resources, spans, logs)
    }

    /** A freshly migrated, empty database. */
    constructor ()
      ensures Valid()
      ensures resources == map[] && spans == [] && logs == []
    {
      resources, spans, logs := map[], [], [];
    }
  }

  /** Statement failures the database may report (I/O, constraint checks not modelled otherwise). */
  datatype DbError =
    | BeginFailed
    | ResourceInsertFailed
    | SpanInsertFailed(index: nat)
    | LogInsertFailed(index: nat)
    | CommitFailed
    | TruncateFailed(table: string)
    | QueryFailed
    | NotFound

  /** Which statements of one ingest call fail for reasons outside the model:
      the resource insert, and the row inserts at the given batch positions. */
  datatype StatementFaults = StatementFaults(resourceInsertFails: bool, failingRows: set<nat>)

  /** The same for a transactional ingest, plus the transaction's begin and commit. */
  datatype TxFaults = TxFaults(beginFails: bool, statements: StatementFaults, commitFails: bool)

  // ---------------------------------------------------------------- read model

  /** A span as the queries return it (`SpanWithResource`): unselected columns stay zero. */
  datatype Span = Span(
    traceId: string, id: string, name: string, startTime: int, duration: int,
    parentSpanId: NullString, statusCode: string, statusMessage: NullString,
    attributes: Attributes, resourceId: string, serviceName: string)

  /** Go's zero value of the read model. */
  const ZeroSpan := Span("", "", "", ZeroTime, 0, Null, "", Null, map[], "", "")

  function End(s: Span): int { s.startTime + s.duration }

  /** Which columns a query selects. */
  datatype Columns = Columns(
    traceId: bool, id: bool, name: bool, startTime: bool, duration: bool, parentSpanId: bool,
    statusCode: bool, statusMessage: bool, attributes: bool, resourceId: bool, serviceName: bool)

  /** The service name the `LEFT JOIN resource` contributes for a row. */
  function ServiceNameOf(resources: map<string, Resource>, row: SpanRow): string
  {
    if row.resourceId in resources then resources[row.resourceId].serviceName else ""
  }

  /** A selected column's value, or the zero value of an unselected one. */
  function Pick<T>(selected: bool, value: T, zero: T): T
  {
    if selected then value else zero
  }

  /** `SELECT <columns> FROM span s LEFT JOIN resource r ON s.resource_id = r.id` for one row:
      selected columns are copied, the others keep Go's zero value. */
  function Select(resources: map<string, Resource>, row: SpanRow, columns: Columns): (s: Span)
    ensures (columns.traceId ==> s.traceId == row.traceId) && (!columns.traceId ==> s.traceId == ZeroSpan.traceId)
    ensures (columns.id ==> s.id == row.id) && (!columns.id ==> s.id == ZeroSpan.id)
    ensures (columns.name ==> s.name == row.name) && (!columns.name ==> s.name == ZeroSpan.name)
    ensures (columns.startTime ==> s.startTime == row.startTime) && (!columns.startTime ==> s.startTime == ZeroSpan.startTime)
    ensures (columns.duration ==> s.duration == row.durationNs) && (!columns.duration ==> s.duration == ZeroSpan.duration)
    ensures (columns.parentSpanId ==> s.parentSpanId == row.parentSpanId) && (!columns.parentSpanId ==> s.parentSpanId == ZeroSpan.parentSpanId)
    ensures (columns.statusCode ==> s.statusCode == row.statusCode) && (!columns.statusCode ==> s.statusCode == ZeroSpan.statusCode)
    ensures (columns.statusMessage ==> s.statusMessage == row.statusMessage) && (!columns.statusMessage ==> s.statusMessage == ZeroSpan.statusMessage)
    ensures (columns.attributes ==> s.attributes == row.attributes) && (!columns.attributes ==> s.attributes == ZeroSpan.attributes)
    ensures (columns.resourceId ==> s.resourceId == row.resourceId) && (!columns.resourceId ==> s.resourceId == ZeroSpan.resourceId)
    ensures columns.serviceName && row.resourceId in resources ==> s.serviceName == resources[row.resourceId].serviceName
    ensures columns.serviceName && row.resourceId !in resources ==> s.serviceName == ""
    ensures !columns.serviceName ==> s.serviceName == ZeroSpan.serviceName
  {
    Span(
      Pick(columns.traceId, row.traceId, ""),
      Pick(columns.id, row.id, ""),
      Pick(columns.name, row.name, ""),
      Pick(columns.startTime, row.startTime, ZeroTime),
      Pick(columns.duration, row.durationNs, 0),
      Pick(columns.parentSpanId, row.parentSpanId, Null),
      Pick(columns.statusCode, row.statusCode, ""),
      Pick(columns.statusMessage, row.statusMessage, Null),
      Pick(columns.attributes, row.attributes, map[]),
      Pick(columns.resourceId, row.resourceId, ""),
      Pick(columns.serviceName, ServiceNameOf(resources, row), ""))
  }

  const AllColumns := Columns(true, true, true, true, true, true, true, true, true, true, true)

  const NoColumns := Columns(false, false, false, false, false, false, false, false, false, false, false)

  /** Selecting every column gives back the stored row, together with the service name of the
      resource it references (empty when the join finds none). */
  lemma SelectEveryColumn(resources: map<string, Resource>, row: SpanRow)
    ensures var s := Select(resources, row, AllColumns);
      && s.traceId == row.traceId && s.id == row.id && s.name == row.name
      && s.startTime == row.startTime && s.duration == row.durationNs
      && s.parentSpanId == row.parentSpanId && s.statusCode == row.statusCode
      && s.statusMessage == row.statusMessage && s.attributes == row.attributes
      && s.resourceId == row.resourceId
      && s.serviceName == if row.resourceId in resources then resources[row.resourceId].serviceName else ""
  {
  }

  /** Selecting no column gives Go's zero `SpanWithResource`, whatever the row. */
  lemma SelectNoColumn(resources: map<string, Resource>, row: SpanRow)
    ensures Select(resources, row, NoColumns) == ZeroSpan
  {
  }

  /** A selection reads only the selected columns: rows agreeing on them select equal spans. */
  lemma SelectReadsOnlySelected(resources: map<string, Resource>, a: SpanRow, b: SpanRow, columns: Columns)
    requires columns.traceId ==> a.traceId == b.traceId
    requires columns.id ==> a.id == b.id
    requires columns.name ==> a.name == b.name
    requires columns.startTime ==> a.startTime == b.startTime
    requires columns.duration ==> a.durationNs == b.durationNs
    requires columns.parentSpanId ==> a.parentSpanId == b.parentSpanId
    requires columns.statusCode ==> a.statusCode == b.statusCode
    requires columns.statusMessage ==> a.statusMessage == b.statusMessage
    requires columns.attributes ==> a.attributes == b.attributes
    requires columns.resourceId ==> a.resourceId == b.resourceId
    requires columns.serviceName ==> ServiceNameOf(resources, a) == ServiceNameOf(resources, b)
    ensures Select(resources, a, columns) == Select(resources, b, columns)
  {
  }

  function SelectAll(resources: map<string, Resource>, rows: seq<SpanRow>, columns: Columns): (r: seq<Span>)
    ensures |r| == |rows|
    ensures forall i :: 0 <= i < |rows| ==> r[i] == Select(resources, rows[i], columns)
  {
    Map(rows, (row: SpanRow) => Select(resources, row, columns))
  }

  predicate IsRootRow(row: SpanRow) { !row.parentSpanId.valid }

  predicate NewerFirst(a: SpanRow, b: SpanRow) { a.startTime >= b.startTime }

  predicate OlderFirst(a: SpanRow, b: SpanRow) { a.startTime <= b.startTime }

  /** The start of the minute `t` falls in (`date_trunc('minute', t)`), also for times before the epoch. */
  function MinuteOf(t: int): (m: int)
    ensures m <= t < m + NanosPerMinute
    ensures m % NanosPerMinute == 0
  {
    t - t % NanosPerMinute
  }

  /** A minute holds whole microseconds, so the precision a `TIMESTAMP` column drops never
      moves a time into another minute bucket. */
  lemma MinuteOfStored(t: int)
    ensures MinuteOf(StoredTimestamp(t)) == MinuteOf(t)
  {
    StoredTimestampBounds(t);
    var s, m := StoredTimestamp(t), MinuteOf(t);
    var i := m / NanosPerMinute;
    assert m == NanosPerMinute * i;
    assert m == NanosPerMicrosecond * (60_000_000 * i);
    assert m % NanosPerMicrosecond == 0;
    if s < m {
      MultiplesApart(s, m, NanosPerMicrosecond);
    }
    assert m <= s <= t < m + NanosPerMinute;
  }


  /** One row of the spans-per-minute query. */
  datatype MinuteBucket = MinuteBucket(bucketStart: int, spanCount: nat)
}

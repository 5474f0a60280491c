# otelly core in Dafny

otelly is a terminal viewer for OpenTelemetry data. A collector hands it batches of spans and
logs. It stores them in tables of resources, spans and logs, and shows them in a terminal UI.
The UI has a span table, a trace page (a tree of spans beside a waterfall of bars, plus an
attribute box for the span under the cursor) and a span detail panel with a flamegraph.

This project models the parts of otelly that are logic rather than rendering:

- **The store.**
  - State: the three tables, as a `map` of resources and `seq`s of span and log rows, held by
    a `Database` class.
  - The ingesters, in three variants:
    - `OtelTraceStore` and `TraceStore`: transactional batch insert of spans;
    - `OtelStore`: the older non-transactional batch insert of spans;
    - `LogStore`: transactional batch insert of logs.
  - Each ingester is two nested insert loops. These are proved equal to recursive fold
    functions (`Ingest.IngestSpans`, `Ingest.IngestLogs`).
  - Resource rows are insert-or-ignore, under the id `name:namespace` with "unknown" defaults.
  - A span insert fails on two schema constraints:
    - the span primary key: a duplicate id is refused;
    - the 32-bit `duration_ns` column: a duration outside its range is refused.
  - The read queries are filter, sort and bucket functions over the tables.
- **Trace reconstruction.**
  - `TraceTree`:
    - the tree of spans under the first parentless span;
    - each node's share of its parent's duration;
    - the breadth-first walk `All`;
    - the recursive time range.
  - `PagesTrace`: the older tree builder and its pre-order row numbering.
  - `Flamegraph`: the flamegraph builder. It computes one global window, sorts the inputs
    newest first, finds a single root, and gives every node the same width denominator.
- **Layout arithmetic.**
  - Waterfall bar widths and margins:
    - rounded, in `TraceWaterfall`;
    - floored, in `ComponentsWaterfall`.
  - The table's column widths.
  - The trace page's split of the viewport.
  - The flamegraph bar clamp.
- **Small state machines.**
  - The table's cursor and scroll offset, using `Clamp`.
  - The trace page's cursor, tree replacement, attribute box and scroll padding.
  - The span detail panel's span and tree transitions.
  - The two attribute boxes: sorted keys, string values only, and the height cut.

Conventions:

- Times and durations are integer nanoseconds since the Unix epoch. The `TIMESTAMP` columns keep
  whole microseconds only (`Schema.StoredTimestamp`), so stored and queried times are
  microsecond boundaries, while `duration_ns` keeps the nanosecond difference.
- Go's zero `time.Time` is the constant `Schema.ZeroTime`.
- Duration shares and flamegraph widths are exact rationals (`Ratio.Quotient`): `Exact(q)`,
  or `NonFinite` for a zero denominator.
- Calls into the database, and failures of the database's statements, become parameters:
  - a fault description for each ingest call;
  - a `queryFails` flag for each query;
  - the store's answer handed to the page and panel commands.
- The recursive tree builders terminate only on acyclic parent links. They take a ghost
  `rank: string -> nat` under which every parent-id string out-ranks the ids naming it.

## Model

| member | source | states |
|---|---|---|
| Clamp.Clamp | ui/helpers/clamp.go:7-17 | below `min` gives `min`, above `max` gives `max`, otherwise `n` unchanged; with `min <= max` the result lies in `[min, max]` |
| Clamp.ClampIdempotent | ui/helpers/clamp.go:7-17 | with `min <= max`, clamping a clamped value returns it unchanged |
| Clamp.ClampInvertedBounds | ui/helpers/clamp.go:8-14 | with `max < min` the first test wins: values below `min` give `min`; every other value gives `max` |
| Schema.StoredAttributes | db/otel_trace.go:46-49 | the stored attributes are always encodable; they equal the span's own attributes exactly when those encode; otherwise `{}` is stored |
| Schema.ResourceField | db/otel_trace.go:19-26 | an absent resource attribute reads "unknown", a string attribute reads its text, and any other value reads as the empty string |
| Schema.ResourceOf | db/otel_trace.go:19-27 | the resource row holds the service name and namespace read that way, under the id `name + ":" + namespace` |
| Schema.DefaultResource | db/otel_trace.go:19-27 | a batch without service attributes lands in resource `unknown:unknown` |
| Schema.ResourceIdCollides | db/otel_trace.go:27 | two different services can share one id when a name or namespace contains ':' |
| Schema.InsertOrIgnore | db/otel_trace.go:34-38 | after the insert the id is present; an existing row with that id is left unchanged; a new id maps to the new row; every other row is kept |
| Schema.InsertOrIgnoreFirstWins | db/otel_trace.go:34-38 | a second insert under an id already inserted changes nothing |
| Schema.StatusCodeText | db/otel_trace.go:61 | the status code's text is one of "Unset", "Ok" and "Error" |
| Schema.SpanRowOf | db/otel_trace.go:53-65 | the row copies the ids and name; its start is the start time cut to whole microseconds, as the `TIMESTAMP` column keeps it; its duration is end − start in nanoseconds; the parent is null exactly when the parent id is empty; the status message is non-null exactly when a message exists and then holds the code's text; the row carries the resource id |
| Schema.StatusMessageTextNotStored | db/otel_trace.go:62 | two spans differing only in a non-empty status message give equal rows |
| Schema.SpanRows | db/otel_trace.go:44-65 | one row per span of a scope, in order, each `SpanRowOf` that span |
| Schema.LogRowOf | db/log.go:61-67 | `span_id` is null exactly when the record's span id is empty; the body is the value's `Str()` text; the timestamp is cut to whole microseconds; severity and resource id are copied; attributes fall back to `{}` |
| Schema.LogRows | db/log.go:42-68 | one row per log record, in order |
| Schema.Database.constructor | db/db.go:47-72 | a migrated database has empty tables and satisfies the schema constraints |
| Schema.Select | db/otel_trace.go:109-122 | `SELECT … LEFT JOIN resource`: for each of the eleven columns, a selected column carries the row's value and an unselected one Go's zero value; a selected service name is the joined resource's, or empty when the join finds none |
| Schema.SelectEveryColumn | db/otel_trace.go:109-122 | selecting every column gives back every stored value of the row, with the referenced resource's service name |
| Schema.SelectNoColumn | db/otel_trace.go:109-122 | selecting no column gives Go's zero `SpanWithResource` for any row |
| Schema.SelectReadsOnlySelected | db/otel_trace.go:109-122 | rows that agree on the selected columns (and on the joined service name, when selected) give equal results |
| Schema.SelectAll | db/otel_trace.go:105-133 | the query result is one selected span per row, in row order |
| Schema.StoredTimestampBounds | db/db.go:53 | the stored time is the microsecond boundary at or below the time, less than a microsecond below it, before the epoch too |
| Schema.StoredTimestampMonotone | db/db.go:53 | storing keeps the order of times, and a stored time is stored unchanged |
| Schema.SameMicrosecondTies | db/db.go:66 | times within one microsecond are stored equal, so an `ORDER BY` on the column sees them as tied |
| Schema.MinuteOfStored | db/otel_trace.go:143 | the precision the column drops never moves a time into another minute bucket |
| Schema.MinuteOf | db/otel_trace.go:143 | `date_trunc('minute', t)` is the minute boundary at or below `t` and less than a minute below it, also before the epoch |
| Ingest.IngestSpans | db/otel_trace.go:44-70 | the statements either all go in and append every row, or one fails at a batch position within the batch and the table holds exactly the rows before it |
| Ingest.IngestKeepsConsistent | db/db.go:49-61 | inserting span rows whose resource is stored keeps every schema constraint: unique ids, references to stored resources, durations that fit |
| Ingest.StoredIdRefused | db/db.go:51 | a batch row whose id is already stored is refused, at its own position or earlier |
| Ingest.DuplicateInBatchRefused | db/db.go:51 | of two batch rows sharing an id, the later is refused, or a row before it |
| Ingest.LongRowRefused | db/db.go:54 | a row whose duration does not fit the 32-bit `duration_ns` column is refused, at its position or earlier |
| Ingest.CleanRowsIngested | db/otel_trace.go:44-70 | fresh, distinct ids with durations that fit, and no failing statement, all go in |
| Ingest.IngestSplits | db/otel_trace.go:44-45 | inserting `a + b` is inserting `a` and then, when all of `a` went in, `b` from the grown table |
| Ingest.IngestLogs | db/log.go:41-74 | log rows have no key: they all go in, or a failing statement stops the loop with the rows before it stored |
| Ingest.IngestLogsSplits | db/log.go:41-42 | the log fold splits over concatenation the same way |
| Ingest.ExecSpanInserts | db/otel_trace.go:44-70 | the scope-by-scope loop's outcome equals the fold over the flattened batch rows |
| Ingest.ExecScopeSpanInserts | db/otel_trace.go:45-69 | the inner, span-by-span loop of one scope equals the fold over that scope's rows |
| Ingest.ExecLogInserts | db/log.go:41-74 | the scope-by-scope log loop equals the fold over the flattened log rows |
| Ingest.ExecScopeLogInserts | db/log.go:42-73 | the inner log loop of one scope equals the fold over that scope's rows |
| OtelTraceStore.InsertResourceSpans | db/otel_trace.go:18-74 | all or nothing: on success the resource is insert-or-ignored and every batch row appended; on any error (begin, resource insert, some span insert, commit) no table changes; logs never change; the schema constraints hold afterwards |
| OtelTraceStore.DuplicateIdFails | db/otel_trace.go:53-69 | a batch span whose id is already stored makes the call fail |
| OtelTraceStore.LongSpanFails | db/otel_trace.go:53-69 | a span too long for `duration_ns` makes the call fail |
| OtelTraceStore.CleanBatchCommits | db/otel_trace.go:29-73 | without faults, a batch of fresh distinct ids whose durations fit commits |
| OtelTraceStore.ClearSpans | db/otel_trace.go:76-83 | an error exactly when the truncate fails; otherwise the span table is empty; resources and logs stay |
| OtelTraceStore.GetResource | db/otel_trace.go:85-103 | the resource is found exactly when the query succeeds and the id is stored, and then it is the stored row with that id |
| OtelTraceStore.GetRootSpans | db/otel_trace.go:105-133 | exactly the spans with a null parent, with multiplicities, newest start first; a failed query gives the empty list |
| OtelTraceStore.GetSpansForTrace | db/otel_trace.go:169-199 | an error exactly when the query fails; otherwise exactly the trace's spans, oldest start first |
| OtelTraceStore.SpansPerMinuteForService | db/otel_trace.go:140-167 | buckets strictly descending by minute; each counts that minute's spans of the resource, and the count is positive; the bucket minutes are exactly the minutes of the resource's spans |
| OtelStore.InsertResourceSpans | db/otel.go:21-70 | not atomic: a failing resource insert changes nothing; otherwise the resource stays inserted; when span `k` fails, the spans before `k` stay stored; the schema constraints hold |
| OtelStore.NotAtomic | db/otel.go:42-66 | a batch repeating one span id leaves its first span stored and reports the second, while the transactional store reports the same error and writes nothing |
| OtelStore.Clear | db/otel.go:72-83 | truncates spans, then resources, stopping at the first error; the resource truncate also fails while logs still reference resources; logs stay |
| OtelStore.GetSpans | db/otel.go:135-160 | every stored span once, unfiltered, in some order; a failed query gives the empty list |
| OtelStore.GetRootSpans | db/otel.go:162-191 | exactly the null-parent spans, newest start first; a failed query gives the empty list |
| OtelStore.GetSpansForTrace | db/otel.go:237-266 | an error exactly when the query fails; otherwise exactly the trace's spans, oldest start first |
| OtelStore.SpansPerMinuteForService | db/otel.go:198-225 | one bucket per distinct minute among the resource's spans, strictly descending, with counts |
| TraceStore.InsertResourceSpans | db/trace.go:17-73 | all or nothing, as the first transactional store: a commit appends every row, any error writes nothing |
| TraceStore.StoredIdWritesNothing | db/trace.go:52-68 | a span whose id already exists makes the call fail, so nothing is written |
| TraceStore.DuplicateInBatchFails | db/trace.go:43-70 | two spans of one batch with the same id make the call fail |
| TraceStore.ClearSpans | db/trace.go:75-82 | spans are removed unless the truncate fails; resources and logs stay |
| LogStore.InsertResourceLogs | db/log.go:15-77 | all or nothing: a commit insert-or-ignores the resource and appends every log row; any error changes no table; spans never change |
| LogStore.LogOutcomeIndependentOfTable | db/log.go:50-72 | whether and where a log insert fails does not depend on the rows already stored |
| LogStore.FaultFreeBatchCommits | db/log.go:26-76 | without failing statements every log batch commits |
| LogStore.ClearLogs | db/log.go:79-86 | logs are removed unless the truncate fails; resources and spans stay |
| LogStore.GetLogs | db/log.go:88-105 | an error exactly when the query fails; otherwise every log row with its multiplicity, newest timestamp first |
| SpanQueries.NewerFirstIsTotalPreorder | db/otel_trace.go:125-126 | start time descending is a total preorder, so sorting by it is well defined up to ties |
| SpanQueries.OlderFirstIsTotalPreorder | db/otel_trace.go:186-187 | start time ascending is a total preorder |
| SpanQueries.RootRows | db/otel_trace.go:123-124 | a row is kept exactly when its parent is null, with its multiplicity |
| SpanQueries.TraceRows | db/otel_trace.go:184-185 | a row is kept exactly when it belongs to the trace, with its multiplicity |
| SpanQueries.ServiceRows | db/otel_trace.go:147-150 | a row is kept exactly when its resource is the given stored resource |
| SpanQueries.RootSpans | db/otel_trace.go:105-133 | the root rows in some newest-first ordering, selected |
| SpanQueries.TraceSpans | db/otel_trace.go:169-187 | the trace's rows in some oldest-first ordering, selected |
| SpanQueries.Minutes | db/otel_trace.go:143 | each row's truncated minute, in row order |
| SpanQueries.GroupCovers | db/otel_trace.go:151-152 | every minute has a bucket, and every bucket's minute occurs |
| SpanQueries.GroupDescending | db/otel_trace.go:153-154 | grouping descending minutes gives strictly descending buckets |
| SpanQueries.GroupCounts | db/otel_trace.go:144 | each bucket's count is the number of spans in its minute |
| SpanQueries.SpansPerMinute | db/otel_trace.go:141-155 | buckets strictly descending, each with the positive count of its minute, covering exactly the minutes present |
| Ordering.InsertionSort | ui/span_attributes.go:45 | the in-place sort leaves the array ordered and a permutation of what it held |
| Ordering.Sort | db/log.go:97-98 | the functional sort is a permutation of its input |
| Ordering.InsertSorted | ui/span_attributes.go:45 | inserting into an ordered sequence keeps it ordered |
| Ordering.SortIsSorted | db/log.go:97-98 | the functional sort is ordered |
| Ordering.SortIsOrdering | db/otel_trace.go:125-126 | the sort is an ordering of its input: same elements with multiplicity, in order |
| Ordering.SortedPermutationsEqual | ui/span_attributes.go:41-45 | two sorted permutations of each other are equal when no two distinct elements are equivalent |
| Ordering.StrLeIsTotalPreorder | ui/span_attributes.go:45 | Go's string order is a total preorder and antisymmetric |
| Flamegraph.WindowIsMinMax | ui/flamegraph/flamegraph.go:34-53 | when no input starts at the zero time, the window runs from the earliest start to the latest end |
| Flamegraph.MakeNode | ui/flamegraph/flamegraph.go:78-85 | a node copies name, start and duration; its width is the duration over the one global window; its children are built the same way, at every depth |
| Flamegraph.FindChildren | ui/flamegraph/flamegraph.go:92-100 | the children are the inputs naming the parent's id, in sorted order, each built as a node |
| Flamegraph.FirstRoot | ui/flamegraph/flamegraph.go:74-90 | the first parentless input from a position on; none exactly when there is none |
| Flamegraph.FindRoots | ui/flamegraph/flamegraph.go:71-90 | the root search returns at most one node: none exactly when no input lacks a parent, otherwise the node of the first parentless input |
| Flamegraph.LaterStartIsTotalPreorder | ui/flamegraph/flamegraph.go:55-57 | the newest-first comparison is a total preorder |
| Flamegraph.Assemble | ui/flamegraph/flamegraph.go:59-65 | success exactly when some input has no parent, with the first such input's node; otherwise the zero-roots error |
| Flamegraph.Build | ui/flamegraph/flamegraph.go:29-66 | empty items give the "can't build flamegraph from empty items" error; otherwise the result is built from a newest-first ordering of the inputs and their global window |
| Flamegraph.Retrieve | ui/flamegraph/flamegraph.go:36-53 | the conversion loop fills the array with each item's input and computes the window |
| Flamegraph.BuildNeedsRoot | ui/flamegraph/flamegraph.go:59-63 | a flamegraph is built exactly when some input has an empty parent id |
| TraceTree.PopulateRoot | ui/helpers/build_trace_tree.go:83-104 | a parentless root has share 1 and its own start; any other node has its duration over the parent's, unclamped, and the parent's start; children are the spans naming the node, in input order, at every depth |
| TraceTree.ChildrenFrom | ui/helpers/build_trace_tree.go:93-98 | one child per span from a position on naming the root as parent, in order, each with its share and the root's start |
| TraceTree.RootIndex | ui/helpers/build_trace_tree.go:69-74 | the first span with an absent parent; none exactly when every span has a parent |
| TraceTree.BuildTree | ui/helpers/build_trace_tree.go:66-81 | an error exactly when no span lacks a parent, or the first such span has an empty id; otherwise the tree under that first root, whose item has share 1 and its own start; later parentless spans are not treated as roots |
| TraceTree.GetTimeRange | ui/helpers/build_trace_tree.go:47-64 | the earliest start and the latest end over the node and all its descendants; both are attained |
| TraceTree.RangeFrom | ui/helpers/build_trace_tree.go:53-61 | the children loop only widens the range, and it covers every descendant from a child on |
| TraceTree.NextQueueItems | ui/helpers/build_trace_tree.go:39-42 | popping the head and queueing its children removes exactly the head's item from what remains reachable |
| TraceTree.BfsVisitsEachOnce | ui/helpers/build_trace_tree.go:32-43 | the walk visits every node reachable from the queue exactly once |
| TraceTree.BfsLevelOrder | ui/helpers/build_trace_tree.go:31-44 | depths come out in ascending order, none below the first queued depth |
| TraceTree.NextLeveled | ui/helpers/build_trace_tree.go:39-42 | a breadth-first queue stays breadth-first after one turn |
| TraceTree.AllVisitsEachNode | ui/helpers/build_trace_tree.go:32-43 | walking a tree yields each of its nodes exactly once |
| TraceTree.WalkCountsNodes | ui/helpers/build_trace_tree.go:32-43 | the walk has one visit per node |
| TraceTree.BfsStartsAtRoot | ui/helpers/build_trace_tree.go:32-36 | the first visit is the root at depth 0 |
| TraceTree.KidsSize | ui/helpers/build_trace_tree.go:39-42 | the level below a forest holds its nodes less the forest's own roots, so the level-by-level walk ends |
| TraceTree.BfsLevel | ui/helpers/build_trace_tree.go:32-43 | with one level queued ahead of nodes one deeper, the walk visits that level in order at its depth and goes on with the queued deeper nodes followed by the level's children |
| TraceTree.BfsIsLevelWalk | ui/helpers/build_trace_tree.go:32-43 | the walk from a queued level equals the reference level order: each level in order at its own depth, then the level of all their children |
| TraceTree.WalkIsLevelOrder | ui/helpers/build_trace_tree.go:24-45 | a tree's walk is its level order: every node at its distance from the root, each parent's children together and in their own order, groups in the order of the level above |
| TraceTree.WalkOfTwoLevelTree | ui/helpers/build_trace_tree_test.go:65-84 | a root with children `c1` (parent of `g`) and `c2` is walked root, `c1`, `c2`, `g`, at depths 0, 1, 1, 2 |
| TraceTree.LowerLevelsOfTwoLevelTree | ui/helpers/build_trace_tree_test.go:72-80 | below that root the levels are `c1`, `c2` at depth 1, then `g` at depth 2 |
| TraceTree.All | ui/helpers/build_trace_tree.go:24-45 | the queue loop yields a prefix of the breadth-first walk, ending right after the visit the consumer refuses |
| TraceTree.AppendChildren | ui/helpers/build_trace_tree.go:40-42 | the append loop adds the children, one level deeper, at the queue's end |
| PagesTrace.StepStaysOnPage | ui/pages/trace.go:70-77 | on a non-empty page with the cursor on a span, `j`/`down` and `k`/`up` keep it on a span and move it one step unless at the edge |
| PagesTrace.JumpKeys | ui/pages/trace.go:78-81 | `g` goes to 0, `G` to the last span, and other keys leave the cursor alone |
| PagesTrace.EmptyPageDown | ui/pages/trace.go:70-73 | on an empty page `j` moves the cursor off the page, to 1 |
| PagesTrace.TracePageModel.constructor | ui/pages/trace.go:41-54 | no spans, cursor 0 |
| PagesTrace.TracePageModel.Update | ui/pages/trace.go:62-91 | keys move the cursor as above and `esc` returns to the main page; a trace whose spans could be fetched replaces the spans, and a failed fetch keeps them |
| PagesTrace.TracePageModel.View | ui/pages/trace.go:93-107 | the root is the first parentless span, or the zero span; the lines are the pre-order walk of the tree built under it |
| PagesTrace.ViewRoot | ui/pages/trace.go:96-102 | the root loop takes the first parentless span, or the zero value without an error |
| PagesTrace.BuildTree | ui/pages/trace.go:192-206 | the node holds the given span; its children are the spans naming it as parent, in input order, built the same way |
| PagesTrace.BuildChildren | ui/pages/trace.go:195-200 | one subtree per span naming the root, from a position on, in order |
| PagesTrace.PercentOf | ui/pages/trace.go:166-170 | a percentage exactly when the node has a parent, and then the duration over the parent's times 100 |
| PagesTrace.TreeView | ui/pages/trace.go:175-190 | one line per node in depth-first pre-order, line `i` numbered `row + i`, highlighted exactly when that number is the cursor; the counter advances by the number of lines |
| PagesTrace.PreorderCountsNodes | ui/pages/trace.go:175-185 | the walk has one entry per node |
| PagesTrace.ShapedIsLinked | ui/pages/trace.go:192-206 | every child at every level is a span of the trace naming its parent node's id |
| PagesTrace.PreorderFollowsParents | ui/pages/trace.go:175-185 | every entry after the first is a span of the trace, deeper, and under the span it names as parent |
| PagesTrace.ViewHighlightsCursorRow | ui/pages/trace.go:175-190 | the view has one line per node; exactly the cursor's row is highlighted; only the top line lacks a percentage |
| TraceWaterfall.RoundedQuotient | ui/trace_waterfall.go:57 | `math.Round(n / d)`: the nearest integer, halves rounded away from zero |
| TraceWaterfall.RoundedAtLeastOne | ui/trace_waterfall.go:57-60 | a share rounds to one or more exactly when it is at least a half |
| TraceWaterfall.RoundedShareBounds | ui/trace_waterfall.go:64 | an offset inside the window rounds into `[0, W]` |
| TraceWaterfall.BarWidth | ui/trace_waterfall.go:57-60 | the bar is at least one column, and one exactly when the share rounds below one; otherwise it is the rounded share |
| TraceWaterfall.Margin | ui/trace_waterfall.go:64-78 | the margin is the rounded offset share, except that a margin equal to `W` is taken back to `W - 1` |
| TraceWaterfall.MarginInsideView | ui/trace_waterfall.go:64-78 | with an offset inside the window and `W >= 1`, the margin lies in `[0, W - 1]` |
| TraceWaterfall.DefaultRenderLine | ui/trace_waterfall.go:29-34 | the text is never longer than the width; it is the name's prefix of that length; a name that fits is unchanged |
| TraceWaterfall.DelayPlacement | ui/trace_waterfall.go:81-93 | the delay goes before the bar exactly when its width fits in the margin, which then shrinks by it; the line is highlighted exactly on the cursor; the bar holds the cut name |
| TraceWaterfall.LinesOf | ui/trace_waterfall.go:56-101 | one line per visit of the walk |
| TraceWaterfall.Lines | ui/trace_waterfall.go:56 | the loop over `All()` yields the lines of the whole walk |
| TraceWaterfall.VisitLines | ui/trace_waterfall.go:56-101 | the `i`-th line is the line of the `i`-th visit, `lineIdx` counting the lines |
| TraceWaterfall.Fit | ui/trace_waterfall.go:105-111 | lines within the height are all shown; beyond it, `height - 1` lines are shown and the counter makes up the rest |
| TraceWaterfall.View | ui/trace_waterfall.go:46-116 | the shown lines are the walk's lines, cut to the height |
| TraceWaterfall.ViewLines | ui/trace_waterfall.go:56-101 | one line per node; line `i` is highlighted exactly when `i` is the cursor; every bar is at least one column and holds its text |
| TraceWaterfall.MarginsInsideView | ui/trace_waterfall.go:64-88 | with no negative durations and `W >= 1`, every margin lies in `[0, W - 1]` |
| TraceWaterfall.LineInsideView | ui/trace_waterfall.go:64-88 | a span inside the time range starts inside the view |
| TraceWaterfall.OverflowCountsEveryNode | ui/trace_waterfall.go:105-111 | with more nodes than rows, `height - 1` lines are shown and the shown lines plus the counter equal the node count |
| ComponentsWaterfall.TimeWindow | ui/components/trace_waterfall.go:52-67 | the first span seeds the window; afterwards it covers every span, and both ends are attained |
| ComponentsWaterfall.WindowHasLength | ui/components/trace_waterfall.go:54-67 | a window covering a span that ends after some span starts has a positive length |
| ComponentsWaterfall.FloorBarWidth | ui/components/trace_waterfall.go:75-78 | `max(floor(duration * W / window), 1)` |
| ComponentsWaterfall.FloorAtLeastOne | ui/components/trace_waterfall.go:75-78 | a floored quotient is at least one exactly when the numerator reaches the divisor |
| ComponentsWaterfall.FloorMargin | ui/components/trace_waterfall.go:80-83 | the floored offset share, never left equal to `W` |
| ComponentsWaterfall.FloorMarginInsideView | ui/components/trace_waterfall.go:80-83 | an offset inside the window gives a margin in `[0, W - 1]` |
| ComponentsWaterfall.SpanLines | ui/components/trace_waterfall.go:73-107 | exactly one line per span, in slice order |
| ComponentsWaterfall.View | ui/components/trace_waterfall.go:51-118 | the window covers every span with attained ends; without spans there are no lines; otherwise the window is positive and there is one line per span, in order |
| ComponentsWaterfall.LineGeometry | ui/components/trace_waterfall.go:75-97 | the bar is at least one column, the floored share when that is one or more; the margin is inside the view; the name is its first `width` characters when longer, and unchanged otherwise |
| Table.KeyKeepsRowOnItems | ui/table.go:73-88 | with items, every key leaves the row on an item; `j`/`k` step by one inside the edges; `g` gives row 0; `G` gives the last row when every item was rendered |
| Table.EmptyTableRow | ui/table.go:88 | without items the clamp bounds are inverted, and any target at or past row 0 gives row -1 |
| Table.KeyKeepsColumnOnCells | ui/table.go:89-93 | with cells in the first row the column stays on one of them; without rows it is 0 |
| Table.ScrolledOffset | ui/table.go:102-109 | with a content height of at least 1, the selected row is inside the content area; a visible row keeps the offset; a row below scrolls just far enough; a row above scrolls to it |
| Table.ScrollIdempotent | ui/table.go:102-109 | scrolling again to the same row changes nothing |
| Table.TruncQuotient | ui/table.go:160 | `int(n / d)`: the quotient truncated toward zero, for either sign of numerator and divisor |
| Table.Shares | ui/table.go:159-161 | one width per column definition |
| Table.SharesBelowRatios | ui/table.go:151-164 | the first `n` widths, times the total, add up to at most the width times those columns' ratios |
| Table.ColumnsFitWidth | ui/table.go:151-164 | with a non-negative width and ratios and a positive total, the widths sum to at most the width, and each lies in `[0, width]` |
| Table.RatioBelowTotal | ui/table.go:154-157 | each non-negative ratio is at most the total |
| Table.TableModel.constructor | ui/table.go:54-60 | no items, no columns, rows one line high, everything else zero |
| Table.TableModel.SetRowHeight | ui/table.go:50-52 | only the row height changes |
| Table.TableModel.SetColumnDefinitions | ui/table.go:62-64 | only the column definitions change |
| Table.TableModel.SetWidth | ui/table.go:193-195 | only the width changes |
| Table.TableModel.SetHeight | ui/table.go:197-199 | only the height changes |
| Table.TableModel.Update | ui/table.go:70-99 | a key moves and clamps the cursor row and column; any message then scrolls the offset to the cursor row within the height less two |
| Table.TableModel.UpdateYOffset | ui/table.go:102-113 | the offset becomes the scrolled offset for the cursor row inside the content area (the height less the header and help rows); nothing else changes |
| Table.TableModel.ColumnWidths | ui/table.go:151-164 | without columns there are no widths; otherwise each width is the column's truncated share of the width over the ratios' total, of either sign |
| Table.TableModel.SetItems | ui/table.go:184-191 | the items are replaced and `itemViews[i]` is the content of `items[i]`, for every item |
| Table.TableModel.SelectedItem | ui/table.go:201-207 | none exactly when there are no items, otherwise the item under the cursor |
| SpanAttributes.KeysInOrderUnique | ui/span_attributes.go:41-45 | the sorted keys are determined by the map, whatever order the map is iterated in |
| SpanAttributes.KeysInOrderListsEachKeyOnce | ui/span_attributes.go:41-45 | the sorted keys list each map key exactly once, strictly ascending |
| SpanAttributes.CollectKeys | ui/span_attributes.go:41-44 | the key loop collects every key of the map once |
| SpanAttributes.SortedKeys | ui/span_attributes.go:41-45 | collecting and sorting gives each key once, in Go's string order |
| SpanAttributes.EntriesAreStringAttributes | ui/span_attributes.go:47-64 | an entry is listed exactly when its key is listed and its value is a string, and then the entry holds that value |
| SpanAttributes.EntriesInKeyOrder | ui/span_attributes.go:47-64 | ascending keys give entries with strictly ascending keys |
| SpanAttributes.EntriesOfMap | ui/span_attributes.go:41-64 | the entries of a map are exactly its string attributes, in strictly ascending key order |
| SpanAttributes.NoAttributesNoEntries | ui/span_attributes.go:19-24 | a new box, with no attributes, lists nothing |
| SpanAttributes.StringEntries | ui/span_attributes.go:47-64 | the loop with `continue` keeps exactly the string entries, in key order |
| SpanAttributes.Truncate | ui/span_attributes.go:66-70 | when the entries plus one exceed the height, exactly `height - 2` are kept with a closing line; otherwise all are kept; below height 2 the slice panics |
| SpanAttributes.OverflowCount | ui/span_attributes.go:69 | the closing number is `len(keys) - height`; it falls two short of the hidden entries and also counts the keys without a string value |
| SpanAttributes.ZeroHeightPanics | ui/span_attributes.go:66-68 | at height 0 the cut always panics, so 0 does not show everything |
| SpanAttributes.SpanAttributeModel.constructor | ui/span_attributes.go:19-24 | no attributes and a height of 5 |
| SpanAttributes.SpanAttributeModel.SetAttributes | ui/span_attributes.go:34-36 | the map is replaced as a whole and nothing else changes |
| SpanAttributes.SpanAttributeModel.View | ui/span_attributes.go:38-70 | the listing is the height cut of the string entries in sorted key order, the closing line counting every key |
| ComponentsSpanAttributes.SpanAttributeModel.constructor | ui/components/span_attributes.go:18-23 | zero width and no attributes |
| ComponentsSpanAttributes.SpanAttributeModel.View | ui/components/span_attributes.go:33-71 | every string attribute, and nothing else, in strictly ascending key order, without any cut |
| SpanDetailPanel.RunFetchTrace | ui/span_detail_panel.go:40-61 | a failed read gives no message; otherwise a tree update with the flamegraph built from a newest-first ordering of the trace's spans; an empty trace or a failed build delivers the zero node |
| SpanDetailPanel.Truncate | ui/span_detail_panel.go:112 | `int(x)` truncates toward zero |
| SpanDetailPanel.BarWidth | ui/span_detail_panel.go:112 | the bar lies in `[1, W]` for `W >= 1`, the truncated share when that is in range |
| SpanDetailPanel.SpanDetailPanelModel.constructor | ui/span_detail_panel.go:27-29 | no span, the zero tree (empty name, Go's zero start time, no children), zero size |
| SpanDetailPanel.SpanDetailPanelModel.Update | ui/span_detail_panel.go:35-68 | loading a trace returns the fetch command; a tree update replaces the tree; nothing else changes |
| SpanDetailPanel.SpanDetailPanelModel.UpdateSpan | ui/span_detail_panel.go:153-168 | no span clears the span and the tree, with no command; the same span id changes nothing; any other span is stored and a load of its trace is delivered |
| SpanDetailPanel.SpanDetailPanelModel.SetHeight | ui/span_detail_panel.go:145-147 | only the height changes |
| SpanDetailPanel.SpanDetailPanelModel.SetWidth | ui/span_detail_panel.go:149-151 | only the width changes |
| SpanDetailPanel.SpanDetailPanelModel.TraceBars | ui/span_detail_panel.go:104-139 | "Trace not set" exactly when the tree has no name; otherwise one clamped bar width per node |
| TracePage.RunGetTrace | ui/trace_page.go:159-169 | a failed read gives no message; otherwise the received spans |
| TracePage.CursorStaysOnSpans | ui/trace_page.go:101-116 | on a non-empty trace, keys and a new trace keep the cursor on a span; steps move it by at most one |
| TracePage.ScrollOffset | ui/trace_page.go:135-141 | with at least three rows, the cursor ends inside the viewport with one row of padding on each side; a cursor already inside keeps the offset |
| TracePage.ScrollIdempotent | ui/trace_page.go:135-141 | scrolling twice for one cursor is scrolling once |
| TracePage.HalfDown | ui/trace_page.go:80 | `floor(x / 2)` |
| TracePage.HalfUp | ui/trace_page.go:81 | `ceil(x / 2)` |
| TracePage.HalvesFill | ui/trace_page.go:80-81 | the two halves add up to the viewport width |
| TracePage.Build | ui/trace_page.go:120-127 | the tree built from the spans, or none when the builder reports an error |
| TracePage.TracePageModel.constructor | ui/trace_page.go:50-67 | no spans, the zero tree, cursor 0, the sub-views as created, an empty viewport; all three trees agree |
| TracePage.TracePageModel.SetWidth | ui/trace_page.go:73-82 | the box and viewport lose two border columns; tree width + spacer (5) + waterfall width equals the viewport width |
| TracePage.TracePageModel.SetHeight | ui/trace_page.go:84-91 | viewport height `h - 2 - 10 - 2 - 1`, an unlimited waterfall, eight attribute rows |
| TracePage.TracePageModel.Update | ui/trace_page.go:93-157 | keys move the cursor or leave the page; a new trace resets the cursor and the scroll and fetches; received spans always replace the spans, and replace all three trees only when a tree is built; the attribute box shows the span under the cursor; the viewport scrolls with padding; both sub-views take the cursor; agreeing trees keep agreeing |
| TracePage.TracePageModel.ReceiveSpans | ui/trace_page.go:118-127 | the spans are replaced; the page and sub-view trees change together, and only when the build succeeds |
| TracePage.TracePageModel.Scroll | ui/trace_page.go:135-141 | the offset becomes the padded scroll offset for the cursor |
| TracePage.TracePageModel.UpdateSpanAttributes | ui/trace_page.go:216-223 | without spans nothing changes; otherwise the box shows the attributes of the span under the cursor |

## Left out

- Rendering (lipgloss styles, joins, borders), the help and header views and the table's `View`/`HeaderView`/`HelpView`. Only the numbers behind the rendering are modelled.
- I/O and the database engine: statement failures, begin and commit failures, and query errors are parameters. SQL is not parsed, and `sqlx` partial results on error are not modelled.
- Concurrency and logging (`zap`, `slog`).
- `GetSpan` and `GetResource` of db/otel.go, which scan single rows into the declarations of db/model.go.
- The declarations of db/model.go (`Span` with `start_duration`/`duration`, `Resource` with `name`/`namespace`) are taken as stale: they do not match the columns the schema creates. Every `sqlx` scan kept here (the resource lookup, the span and log queries) is modelled as delivering the selected columns into the read model. The scan errors that those mismatched declarations would raise are not modelled.
- The components waterfall's `Update`, which calls `GetSpan`.
- The waterfall call in the older trace page's `View`: `WaterfallLinesForSpans` is not part of this model, because no such function exists in the code it comes with.
- `traceView`'s node enumeration (`Node.All`) and its offset (`OffsetPct`): neither exists on `flamegraph.Node`, so the enumeration is a parameter of `TraceBars` and the offset is not modelled.
- The viewport's content and its own clamping of `SetYOffset`: setting the offset is taken as a plain assignment.
- Floating point: duration shares and flamegraph widths are exact rationals; NaN and infinities are not represented. The table's `float64` column quotient is the exact truncated quotient.
- Formatting durations and percentages as text; the delay text's display width is a parameter (`delayWidth`).
- Bytes and characters: strings are sequences of characters, each standing for one byte, so name truncation and Go's string order are byte-wise only for single-byte text.
- Acyclic parent links are a precondition (a ghost rank) of every recursive tree builder; on a cyclic trace the source recurses without end.
- Schema.Database.constructor: the migrations' `CREATE TABLE IF NOT EXISTS` on an existing database is not modelled; a fresh database starts empty.
- OtelStore.Clear: the foreign key from logs to resources is taken to refuse the resource truncate while logs exist.
- TracePage.TracePageModel.Update: requires that the cursor lands on a span whenever there are spans. Reading the span under an off-range cursor panics in the source, and that is reachable (for example `G` on an empty page, then received spans).
- TracePage.TracePageModel.UpdateSpanAttributes: requires the cursor on a span when there are spans, for the same panic.
- TraceWaterfall.View: requires a positive time range and a height of at least one; the source divides by the range unguarded and slices `lines[:height-1]`.
- ComponentsWaterfall.View: requires a positive window when there are spans; the source divides by it unguarded.
- Table.TableModel.ColumnWidths: requires a non-zero ratio total when there are columns; a zero total makes the float quotient non-finite. Without columns nothing is divided and the widths are empty.
- Table.TableModel.SelectedItem: requires the cursor on an item when there are items; indexing off the items panics in the source.
- SpanDetailPanel.BarWidth: requires an exact width share; a zero-length trace gives a non-finite share.
- SpanDetailPanel.SpanDetailPanelModel.TraceBars: requires exact width shares for every node, for the same reason.
- TraceTree.PopulateRoot: a parent of zero duration gives an `NonFinite` share rather than Go's infinity or NaN.
- Flamegraph.WindowIsMinMax: states the minimum and maximum only when no input starts at Go's zero time, which the source uses as its "unset" sentinel.

/**
 * The read queries over the span table, as filter, sort and group-by functions on the table
 * state. Each takes the column list its `SELECT` names; the stores add their error handling.
 */
module SpanQueries {
  import opened Seqs
  import opened Schema
  import Ordering

  lemma NewerFirstIsTotalPreorder()
    ensures Ordering.TotalPreorder(NewerFirst)
  {
  }

  lemma OlderFirstIsTotalPreorder()
    ensures Ordering.TotalPreorder(OlderFirst)
  {
  }

  /** `WHERE s.parent_span_id IS NULL`. */
  function RootRows(spans: seq<SpanRow>): (r: seq<SpanRow>)
    ensures forall row :: row in r <==> row in spans && !row.parentSpanId.valid
    ensures forall row :: multiset(r)[row] == if IsRootRow(row) then multiset(spans)[row] else 0
  {
    Filter(spans, IsRootRow)
  }

  /** `WHERE s.trace_id = $1`. */
  function TraceRows(spans: seq<SpanRow>, traceId: string): (r: seq<SpanRow>)
    ensures forall row :: row in r <==> row in spans && row.traceId == traceId
    ensures forall row :: multiset(r)[row] == if row.traceId == traceId then multiset(spans)[row] else 0
  {
    Filter(spans, (row: SpanRow) => row.traceId == traceId)
  }

  /** `LEFT JOIN resource r ON s.resource_id = r.id WHERE r.id = $1`. */
  function ServiceRows(resources: map<string, Resource>, spans: seq<SpanRow>, resourceId: string): (r: seq<SpanRow>)
    ensures forall row :: row in r <==> row in spans && row.resourceId == resourceId && resourceId in resources
  {
    Filter(spans, (row: SpanRow) => row.resourceId == resourceId && resourceId in resources)
  }

  /** Root spans, newest start first, with the selected columns. */
  function RootSpans(resources: map<string, Resource>, spans: seq<SpanRow>, columns: Columns): (r: seq<Span>)
    ensures exists ordered :: Ordering.IsOrderingOf(ordered, RootRows(spans), NewerFirst)
                              && r == SelectAll(resources, ordered, columns)
  {
    var ordered := Ordering.Sort(RootRows(spans), NewerFirst);
    NewerFirstIsTotalPreorder();
    Ordering.SortIsOrdering(RootRows(spans), NewerFirst);
    SelectAll(resources, ordered, columns)
  }

  /** The spans of one trace, oldest start first, with the selected columns. */
  function TraceSpans(resources: map<string, Resource>, spans: seq<SpanRow>, traceId: string, columns: Columns): (r: seq<Span>)
    ensures exists ordered :: Ordering.IsOrderingOf(ordered, TraceRows(spans, traceId), OlderFirst)
                              && r == SelectAll(resources, ordered, columns)
  {
    var ordered := Ordering.Sort(TraceRows(spans, traceId), OlderFirst);
    OlderFirstIsTotalPreorder();
    Ordering.SortIsOrdering(TraceRows(spans, traceId), OlderFirst);
    SelectAll(resources, ordered, columns)
  }

  // ---------------------------------------------------------------- spans per minute

  /** `date_trunc('minute', start_time)` of every row, in table order. */
  function Minutes(rows: seq<SpanRow>): (m: seq<int>)
    ensures |m| == |rows|
    ensures forall i :: 0 <= i < |rows| ==> m[i] == MinuteOf(rows[i].startTime)
  {
    if rows == [] then [] else [MinuteOf(rows[0].startTime)] + Minutes(rows[1..])
  }

  predicate Later(a: int, b: int) { a >= b }

  /** How many leading elements of `s` equal `v`. */
  function RunLength(s: seq<int>, v: int): (n: nat)
    ensures n <= |s|
    ensures s != [] && s[0] == v ==> n >= 1
    ensures forall i :: 0 <= i < n ==> s[i] == v
    ensures n < |s| ==> s[n] != v
  {
    if s == [] || s[0] != v then 0 else 1 + RunLength(s[1..], v)
  }

  /** `GROUP BY bucket_start` over minutes already in descending order: one bucket per run. */
  function Group(s: seq<int>): seq<MinuteBucket>
    decreases |s|
  {
    if s == [] then []
    else
      var n := RunLength(s, s[0]);
      [MinuteBucket(s[0], n)] + Group(s[n..])
  }

  /** The first run of a descending sequence, and what follows it. */
  lemma RunSplit(s: seq<int>)
    requires s != [] && Ordering.SortedBy(s, Later)
    ensures var n := RunLength(s, s[0]);
      && Ordering.SortedBy(s[n..], Later)
      && (forall x :: x in s[n..] ==> x < s[0])
      && multiset(s) == multiset(s[..n]) + multiset(s[n..])
      && (forall x :: multiset(s[..n])[x] == if x == s[0] then n else 0)
  {
    var n := RunLength(s, s[0]);
    assert s == s[..n] + s[n..];
    forall x | x in s[n..] ensures x < s[0] {
      var k :| 0 <= k < |s[n..]| && s[n..][k] == x;
      assert s[n + k] == x && s[n] != s[0];
      assert s[0] >= s[n] >= s[n + k];
    }
    RunMultiset(s[..n], s[0]);
  }

  lemma {:induction false} RunMultiset(r: seq<int>, v: int)
    requires forall i :: 0 <= i < |r| ==> r[i] == v
    ensures forall x :: multiset(r)[x] == if x == v then |r| else 0
  {
    if r != [] {
      assert r == [r[0]] + r[1..];
      RunMultiset(r[1..], v);
    }
  }

  /** Every value of the input has a bucket, and every bucket's value occurs in the input. */
  lemma {:induction false} GroupCovers(s: seq<int>)
    ensures forall m :: m in s <==> exists i :: 0 <= i < |Group(s)| && Group(s)[i].bucketStart == m
  {
    if s != [] {
      var n := RunLength(s, s[0]);
      var rest := Group(s[n..]);
      var g := Group(s);
      GroupCovers(s[n..]);
      assert s == s[..n] + s[n..];
      assert g == [MinuteBucket(s[0], n)] + rest;
      forall m | m in s ensures exists i :: 0 <= i < |g| && g[i].bucketStart == m {
        if m == s[0] {
          assert g[0].bucketStart == m;
        } else {
          assert m in s[n..];
          var i :| 0 <= i < |rest| && rest[i].bucketStart == m;
          assert g[i + 1] == rest[i];
        }
      }
      forall m | exists i :: 0 <= i < |g| && g[i].bucketStart == m ensures m in s {
        var i :| 0 <= i < |g| && g[i].bucketStart == m;
        if i > 0 {
          assert g[i] == rest[i - 1];
          assert m in s[n..];
        }
      }
    }
  }

  /** Grouping a descending sequence gives strictly descending buckets. */
  lemma {:induction false} GroupDescending(s: seq<int>)
    requires Ordering.SortedBy(s, Later)
    ensures forall i, j :: 0 <= i < j < |Group(s)| ==> Group(s)[i].bucketStart > Group(s)[j].bucketStart
  {
    if s != [] {
      var n := RunLength(s, s[0]);
      var rest := Group(s[n..]);
      var g := Group(s);
      RunSplit(s);
      GroupDescending(s[n..]);
      GroupCovers(s[n..]);
      assert g == [MinuteBucket(s[0], n)] + rest;
      forall i | 1 <= i < |g| ensures g[i] == rest[i - 1] && g[i].bucketStart < s[0] {
        assert g[i] == rest[i - 1];
        assert rest[i - 1].bucketStart in s[n..];
      }
      forall i, j | 0 <= i < j < |g| ensures g[i].bucketStart > g[j].bucketStart {
        if i > 0 {
          assert g[i] == rest[i - 1] && g[j] == rest[j - 1];
        }
      }
    }
  }

  /** Grouping a descending sequence gives buckets that each count the occurrences of their value. */
  lemma {:induction false} GroupCounts(s: seq<int>)
    requires Ordering.SortedBy(s, Later)
    ensures forall i :: 0 <= i < |Group(s)| ==> Group(s)[i].spanCount == multiset(s)[Group(s)[i].bucketStart]
  {
    if s != [] {
      var n := RunLength(s, s[0]);
      var rest := Group(s[n..]);
      var g := Group(s);
      RunSplit(s);
      GroupCounts(s[n..]);
      GroupCovers(s[n..]);
      assert g == [MinuteBucket(s[0], n)] + rest;
      assert s[0] !in s[n..];
      forall i | 0 <= i < |g| ensures g[i].spanCount == multiset(s)[g[i].bucketStart] {
        if i > 0 {
          assert g[i] == rest[i - 1];
          assert rest[i - 1].bucketStart in s[n..];
        }
      }
    }
  }

  /** Spans per minute for one resource: one bucket per distinct minute among its spans,
      newest minute first, each with that minute's span count. */
  function SpansPerMinute(resources: map<string, Resource>, spans: seq<SpanRow>, resourceId: string): (r: seq<MinuteBucket>)
    ensures var minutes := Minutes(ServiceRows(resources, spans, resourceId));
      && (forall i, j :: 0 <= i < j < |r| ==> r[i].bucketStart > r[j].bucketStart)
      && (forall i :: 0 <= i < |r| ==> r[i].spanCount == multiset(minutes)[r[i].bucketStart] > 0)
      && (forall m :: m in minutes <==> exists i :: 0 <= i < |r| && r[i].bucketStart == m)
  {
    var minutes := Minutes(ServiceRows(resources, spans, resourceId));
    var sorted := Ordering.Sort(minutes, Later);
    Ordering.SortIsSorted(minutes, Later);
    GroupDescending(sorted);
    GroupCounts(sorted);
    GroupCovers(sorted);
    SortedMinutesKeepCounts(minutes, sorted);
    Group(sorted)
  }

  lemma SortedMinutesKeepCounts(minutes: seq<int>, sorted: seq<int>)
    requires multiset(sorted) == multiset(minutes)
    ensures forall m :: m in sorted <==> m in minutes
    ensures forall m :: m in sorted ==> multiset(minutes)[m] > 0
  {
    forall m ensures m in sorted <==> m in minutes {
      assert m in sorted <==> m in multiset(sorted);
      assert m in minutes <==> m in multiset(minutes);
    }
  }
}

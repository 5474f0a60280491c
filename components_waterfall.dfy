/**
 * The span-table page's waterfall: the window from the earliest start to the latest end of
 * the trace's spans, then one line per span, in slice order, whose bar width and left margin
 * are the span's duration and start offset scaled to the view's width, rounded down.
 */
module ComponentsWaterfall {
  import opened Schema
  import TraceWaterfall

  datatype SpanWaterfallModel = SpanWaterfallModel(traceId: string, spans: seq<Span>, width: int)

  /** The window loop: the first span seeds both ends, the others widen them. Without spans
      both stay at the zero time. */
  method TimeWindow(spans: seq<Span>) returns (minTime: int, maxTime: int)
    ensures spans == [] ==> minTime == ZeroTime && maxTime == ZeroTime
    ensures forall i :: 0 <= i < |spans| ==> minTime <= spans[i].startTime && End(spans[i]) <= maxTime
    ensures spans != [] ==>
      && (exists i :: 0 <= i < |spans| && spans[i].startTime == minTime)
      && (exists i :: 0 <= i < |spans| && End(spans[i]) == maxTime)
  {
    minTime, maxTime := ZeroTime, ZeroTime;
    for i := 0 to |spans|
      invariant forall j :: 0 <= j < i ==> minTime <= spans[j].startTime && End(spans[j]) <= maxTime
      invariant i == 0 ==> minTime == ZeroTime && maxTime == ZeroTime
      invariant i > 0 ==>
        && (exists j :: 0 <= j < i && spans[j].startTime == minTime)
        && (exists j :: 0 <= j < i && End(spans[j]) == maxTime)
    {
      var span := spans[i];
      if i == 0 {
        minTime := span.startTime;
        maxTime := span.startTime + span.duration;
        continue;
      }
      if span.startTime < minTime {
        minTime := span.startTime;
      }
      if span.startTime + span.duration > maxTime {
        maxTime := span.startTime + span.duration;
      }
    }
  }

  /** The window has a positive length: some span ends after some span starts. */
  predicate PositiveWindow(spans: seq<Span>) {
    exists i, j :: 0 <= i < |spans| && 0 <= j < |spans| && End(spans[j]) > spans[i].startTime
  }

  lemma WindowHasLength(spans: seq<Span>, minTime: int, maxTime: int)
    requires PositiveWindow(spans)
    requires forall i :: 0 <= i < |spans| ==> minTime <= spans[i].startTime && End(spans[i]) <= maxTime
    ensures maxTime > minTime
  {
    var i, j :| 0 <= i < |spans| && 0 <= j < |spans| && End(spans[j]) > spans[i].startTime;
  }

  /** `max(floor(duration * w / window), 1)`. */
  function FloorBarWidth(duration: int, window: int, w: int): (b: int)
    requires window > 0
    ensures b >= 1
    ensures duration * w < window ==> b == 1
    ensures duration * w >= window ==> b * window <= duration * w < (b + 1) * window
  {
    var q := (duration * w) / window;
    FloorAtLeastOne(duration * w, window);
    if q < 1 then 1 else q
  }

  /** A quotient rounds down to one or more exactly when the numerator reaches the divisor. */
  lemma FloorAtLeastOne(n: int, d: int)
    requires d > 0
    ensures n / d >= 1 <==> n >= d
    ensures n / d * d <= n < (n / d + 1) * d
  {
    var q := n / d;
    assert q * d <= n < q * d + d;
    if q >= 1 {
      TraceWaterfall.MulMono(1, q, d);
    } else {
      TraceWaterfall.MulMono(q, 0, d);
    }
  }

  /** `floor(offset * w / window)`, a margin of the full width taken back by one column. */
  function FloorMargin(offset: int, window: int, w: int): (m: int)
    requires window > 0
    ensures m != w
    ensures m == w - 1 || m * window <= offset * w < (m + 1) * window
  {
    var q := (offset * w) / window;
    assert q * window <= offset * w < q * window + window;
    if q == w then q - 1 else q
  }

  /** An offset inside the window gives a margin inside the view. */
  lemma FloorMarginInsideView(offset: int, window: int, w: int)
    requires window > 0 && 0 <= offset <= window && w >= 1
    ensures 0 <= FloorMargin(offset, window, w) <= w - 1
  {
    var n := offset * w;
    var q := n / window;
    TraceWaterfall.MulMono(0, offset, w);
    TraceWaterfall.MulMono(offset, window, w);
    assert q * window <= n < q * window + window;
    if q > w {
      TraceWaterfall.MulMono(w + 1, q, window);
    }
    if q < 0 {
      TraceWaterfall.MulMono(q, -1, window);
    }
  }

  /** A line: the bar's width, its left margin and the name it shows. */
  datatype ComponentLine = ComponentLine(width: int, marginLeft: int, name: string)

  function LineOf(span: Span, minTime: int, window: int, w: int): ComponentLine
    requires window > 0
  {
    var width := FloorBarWidth(span.duration, window, w);
    ComponentLine(width, FloorMargin(span.startTime - minTime, window, w), TraceWaterfall.DefaultRenderLine(span.name, width))
  }

  /** The lines loop of `View`, one line per span, in slice order. */
  method SpanLines(spans: seq<Span>, minTime: int, window: int, w: int) returns (lines: seq<ComponentLine>)
    requires window > 0
    ensures |lines| == |spans|
    ensures forall i :: 0 <= i < |spans| ==> lines[i] == LineOf(spans[i], minTime, window, w)
  {
    lines := [];
    for i := 0 to |spans|
      invariant |lines| == i
      invariant forall j :: 0 <= j < i ==> lines[j] == LineOf(spans[j], minTime, window, w)
    {
      lines := lines + [LineOf(spans[i], minTime, window, w)];
    }
  }

  /** `View`: the window and the lines. The window's length is not guarded in the source, so a
      non-empty trace must span some time. */
  method View(m: SpanWaterfallModel) returns (minTime: int, maxTime: int, lines: seq<ComponentLine>)
    requires m.spans == [] || PositiveWindow(m.spans)
    ensures forall i :: 0 <= i < |m.spans| ==> minTime <= m.spans[i].startTime && End(m.spans[i]) <= maxTime
    ensures m.spans != [] ==>
      && (exists i :: 0 <= i < |m.spans| && m.spans[i].startTime == minTime)
      && (exists i :: 0 <= i < |m.spans| && End(m.spans[i]) == maxTime)
    ensures m.spans == [] ==> lines == []
    ensures m.spans != [] ==>
      && maxTime > minTime
      && |lines| == |m.spans|
      && forall i :: 0 <= i < |m.spans| ==> lines[i] == LineOf(m.spans[i], minTime, maxTime - minTime, m.width)
  {
    minTime, maxTime := TimeWindow(m.spans);
    if m.spans == [] {
      return minTime, maxTime, [];
    }
    WindowHasLength(m.spans, minTime, maxTime);
    lines := SpanLines(m.spans, minTime, maxTime - minTime, m.width);
  }

  /**
   * Each line of a span inside the window: a bar of at least one column, `floor(duration * w /
   * window)` columns when that is one or more, a margin inside the view when the span does not
   * have a negative duration, and the name cut to the bar's width.
   */
  lemma LineGeometry(span: Span, minTime: int, maxTime: int, w: int)
    requires maxTime > minTime && minTime <= span.startTime && End(span) <= maxTime
    ensures var l := LineOf(span, minTime, maxTime - minTime, w);
      && l.width >= 1
      && (span.duration * w >= maxTime - minTime ==> l.width == (span.duration * w) / (maxTime - minTime))
      && (span.duration >= 0 && w >= 1 ==> 0 <= l.marginLeft <= w - 1)
      && |l.name| <= l.width
      && (|span.name| <= l.width ==> l.name == span.name)
      && (|span.name| > l.width ==> l.name == span.name[..l.width])
  {
    var l := LineOf(span, minTime, maxTime - minTime, w);
    if span.duration * w >= maxTime - minTime {
      var b := l.width;
      var q := (span.duration * w) / (maxTime - minTime);
      assert q * (maxTime - minTime) <= span.duration * w < q * (maxTime - minTime) + (maxTime - minTime);
      if b < q {
        TraceWaterfall.MulMono(b + 1, q, maxTime - minTime);
      }
      if b > q {
        TraceWaterfall.MulMono(q + 1, b, maxTime - minTime);
      }
    }
    if span.duration >= 0 && w >= 1 {
      FloorMarginInsideView(span.startTime - minTime, maxTime - minTime, w);
    }
  }
}

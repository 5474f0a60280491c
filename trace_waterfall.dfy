/**
 * The trace page's waterfall: one line per node of the trace tree, in breadth-first order,
 * each a bar whose width and left margin are the span's duration and start offset scaled to
 * the view's width against the tree's time range, rounded to the nearest column.
 */
module TraceWaterfall {
  import opened Results
  import opened Schema
  import opened TraceTree

  datatype SpanWaterfallModel = SpanWaterfallModel(tree: TraceTreeNode, width: int, height: int, cursor: int)

  /** `CreateSpanWaterfallModel`: an empty tree, ten rows, no line under the cursor. */
  const Created := SpanWaterfallModel(ZeroNode, 0, 10, -1)

  // ---------------------------------------------------------------- geometry

  /** `math.Round(n / d)` for a positive `d`: the nearest integer, halves away from zero. */
  function RoundedQuotient(n: int, d: int): (r: int)
    requires d > 0
    ensures n >= 0 ==> 2 * r * d - d <= 2 * n < 2 * r * d + d
    ensures n < 0 ==> 2 * r * d - d < 2 * n <= 2 * r * d + d
  {
    if n >= 0 then
      var q := (2 * n + d) / (2 * d);
      assert 2 * d * q <= 2 * n + d < 2 * d * q + 2 * d;
      q
    else
      var q := (d - 2 * n) / (2 * d);
      assert 2 * d * q <= d - 2 * n < 2 * d * q + 2 * d;
      -q
  }

  /** Multiplying by a non-negative factor keeps an order. */
  lemma MulMono(a: int, b: int, c: int)
    requires a <= b && c >= 0
    ensures a * c <= b * c
  {
    assert b * c - a * c == (b - a) * c;
  }

  /** A quotient rounds to one or more exactly when it is at least one half. */
  lemma RoundedAtLeastOne(n: int, d: int)
    requires d > 0
    ensures RoundedQuotient(n, d) >= 1 <==> 2 * n >= d
  {
    var r := RoundedQuotient(n, d);
    if r >= 1 {
      MulMono(1, r, d);
    } else {
      MulMono(r, 0, d);
    }
  }

  /** A share of `window` no larger than the window itself rounds into `[0, w]`. */
  lemma RoundedShareBounds(offset: int, window: int, w: int)
    requires window > 0 && 0 <= offset <= window && w >= 0
    ensures 0 <= RoundedQuotient(offset * w, window) <= w
  {
    var n := offset * w;
    var r := RoundedQuotient(n, window);
    MulMono(0, offset, w);
    MulMono(offset, window, w);
    assert 0 <= n <= window * w;
    if r > w {
      MulMono(w + 1, r, window);
    }
    if r < 0 {
      MulMono(r, -1, window);
    }
  }

  /** The bar's width: the duration's share of the width, but never below one column. */
  function BarWidth(duration: int, window: int, w: int): (b: int)
    requires window > 0
    ensures b >= 1
    ensures 2 * duration * w < window ==> b == 1
    ensures 2 * duration * w >= window ==> 2 * b * window - window <= 2 * duration * w < 2 * b * window + window
  {
    var rounded := RoundedQuotient(duration * w, window);
    RoundedAtLeastOne(duration * w, window);
    assert 2 * duration * w == 2 * (duration * w);
    if rounded < 1 then 1 else rounded
  }

  /** The left margin: the start offset's share of the width, a margin of the full width
      taken back by one column. */
  function Margin(offset: int, window: int, w: int): (m: int)
    requires window > 0
    ensures m == w - 1 || m == RoundedQuotient(offset * w, window)
    ensures m != w
  {
    var rounded := RoundedQuotient(offset * w, window);
    if rounded == w then rounded - 1 else rounded
  }

  lemma MarginInsideView(offset: int, window: int, w: int)
    requires window > 0 && 0 <= offset <= window && w >= 1
    ensures 0 <= Margin(offset, window, w) <= w - 1
  {
    RoundedShareBounds(offset, window, w);
  }

  /** The default `renderLine`: the name cut to the bar's width. */
  function DefaultRenderLine(name: string, width: int): (r: string)
    requires width >= 0
    ensures |r| <= width
    ensures |r| == if |name| < width then |name| else width
    ensures r == name[..|r|]
    ensures |name| <= width ==> r == name
  {
    if |name| > width then name[..width] else name
  }

  // ---------------------------------------------------------------- the lines

  /** A rendered line: margin, the delay since the parent's start when it fits before the bar,
      the bar's width, the text inside the bar and whether the line is under the cursor. */
  datatype WaterfallLine = WaterfallLine(marginLeft: int, delay: Option<int>, barWidth: int, body: string, highlighted: bool)

  /**
   * The line of the `index`-th visited item. `delayWidth` is the display width of the rendered
   * delay text; the delay goes before the bar only when it fits in the margin, which then
   * shrinks by that width.
   */
  function LineOf(m: SpanWaterfallModel, item: TraceItem, index: int, range: Range, delayWidth: int -> nat)
    : WaterfallLine
    requires range.end > range.start
  {
    var window := range.end - range.start;
    var width := BarWidth(item.span.duration, window, m.width);
    var margin := Margin(item.span.startTime - range.start, window, m.width);
    var delay := item.span.startTime - item.parentStartTime;
    var body := DefaultRenderLine(item.span.name, width);
    if delayWidth(delay) <= margin then WaterfallLine(margin - delayWidth(delay), Some(delay), width, body, index == m.cursor)
    else WaterfallLine(margin, None, width, body, index == m.cursor)
  }

  /**
   * The delay is placed before the bar exactly when its width fits in the margin, which then
   * shrinks by that width; the bar is highlighted exactly on the cursor's line and holds the
   * name cut to the bar.
   */
  lemma DelayPlacement(m: SpanWaterfallModel, item: TraceItem, index: int, range: Range, delayWidth: int -> nat)
    requires range.end > range.start
    ensures var l := LineOf(m, item, index, range, delayWidth);
      var margin := Margin(item.span.startTime - range.start, range.end - range.start, m.width);
      var delay := item.span.startTime - item.parentStartTime;
      && (l.delay.Some? <==> delayWidth(delay) <= margin)
      && (l.delay.Some? ==> l.delay.value == delay && l.marginLeft == margin - delayWidth(delay))
      && (l.delay.None? ==> l.marginLeft == margin)
      && (l.highlighted <==> index == m.cursor)
      && l.barWidth == BarWidth(item.span.duration, range.end - range.start, m.width) >= 1
      && l.body == DefaultRenderLine(item.span.name, l.barWidth) && |l.body| <= l.barWidth
  {
  }

  /** The whole walk of the tree. */
  function Walk(t: TraceTreeNode): seq<Visit>
  {
    Bfs([QueueItem(t, 0)])
  }

  /** The lines of all visited items, the line number counting visits. */
  function LinesOf(m: SpanWaterfallModel, delayWidth: int -> nat): (ls: seq<WaterfallLine>)
    requires GetTimeRange(m.tree).end > GetTimeRange(m.tree).start
    ensures |ls| == |Walk(m.tree)|
  {
    var visits := Walk(m.tree);
    seq(|visits|, i requires 0 <= i < |visits| => LineOf(m, visits[i].item, i, GetTimeRange(m.tree), delayWidth))
  }

  /** The walk `View` ranges over: `All()`, whose consumer never stops the walk. */
  method Lines(m: SpanWaterfallModel, delayWidth: int -> nat) returns (lines: seq<WaterfallLine>)
    requires GetTimeRange(m.tree).end > GetTimeRange(m.tree).start
    ensures lines == LinesOf(m, delayWidth)
  {
    var minMax := GetTimeRange(m.tree);
    WalkCountsNodes(m.tree);
    var visits := All(m.tree, |Items(m.tree)|);
    assert visits == Walk(m.tree);
    lines := VisitLines(m, visits, minMax, delayWidth);
    assert lines == LinesOf(m, delayWidth);
  }

  /** The loop of `View`: one line per visit, `lineIdx` counting the lines. */
  method VisitLines(m: SpanWaterfallModel, visits: seq<Visit>, minMax: Range, delayWidth: int -> nat)
    returns (lines: seq<WaterfallLine>)
    requires minMax.end > minMax.start
    ensures |lines| == |visits|
    ensures forall i :: 0 <= i < |visits| ==> lines[i] == LineOf(m, visits[i].item, i, minMax, delayWidth)
  {
    lines := [];
    var lineIdx := 0;
    for k := 0 to |visits|
      invariant lineIdx == k == |lines|
      invariant forall i :: 0 <= i < k ==> lines[i] == LineOf(m, visits[i].item, i, minMax, delayWidth)
    {
      lines := lines + [LineOf(m, visits[k].item, lineIdx, minMax, delayWidth)];
      lineIdx := lineIdx + 1;
    }
  }

  /** What is shown: the lines kept and, past the height, the count behind `+ N spans`. */
  datatype Shown = Shown(lines: seq<WaterfallLine>, moreSpans: Option<int>)

  /** The height cut of `View`, one row per line. */
  function Fit(lines: seq<WaterfallLine>, height: int): (s: Shown)
    requires height >= 1
    ensures |lines| <= height ==> s == Shown(lines, None)
    ensures |lines| > height ==> s.lines == lines[..height - 1] && s.moreSpans.Some?
    ensures s.moreSpans.Some? ==> |s.lines| == height - 1 && |s.lines| + s.moreSpans.value == |lines|
  {
    if |lines| > height then Shown(lines[..height - 1], Some(|lines| - height + 1))
    else Shown(lines, None)
  }

  /** `View`: every line of the walk, cut to the height. The time range is not guarded
      against being empty in the source, so the caller must not pass a zero-length one. */
  method View(m: SpanWaterfallModel, delayWidth: int -> nat) returns (shown: Shown)
    requires GetTimeRange(m.tree).end > GetTimeRange(m.tree).start && m.height >= 1
    ensures shown == Fit(LinesOf(m, delayWidth), m.height)
  {
    var lines := Lines(m, delayWidth);
    if |lines| > m.height {
      shown := Shown(lines[..m.height - 1], Some(|lines| - m.height + 1));
    } else {
      shown := Shown(lines, None);
    }
  }

  // ---------------------------------------------------------------- what the view shows

  /**
   * Every node of the tree has one line, the `i`-th visit's line is highlighted exactly when
   * `i` is the cursor, and every bar is at least one column wide and holds its text.
   */
  lemma ViewLines(m: SpanWaterfallModel, delayWidth: int -> nat)
    requires GetTimeRange(m.tree).end > GetTimeRange(m.tree).start
    ensures var ls := LinesOf(m, delayWidth);
      && |ls| == |Items(m.tree)|
      && (forall i :: 0 <= i < |ls| ==> (ls[i].highlighted <==> i == m.cursor))
      && (forall i :: 0 <= i < |ls| ==> ls[i].barWidth >= 1 && |ls[i].body| <= ls[i].barWidth)
  {
    WalkCountsNodes(m.tree);
    var ls := LinesOf(m, delayWidth);
    var visits := Walk(m.tree);
    forall i | 0 <= i < |ls|
      ensures (ls[i].highlighted <==> i == m.cursor) && ls[i].barWidth >= 1 && |ls[i].body| <= ls[i].barWidth
    {
      DelayPlacement(m, visits[i].item, i, GetTimeRange(m.tree), delayWidth);
    }
  }

  /** When no span has a negative duration and the view is at least one column wide, every
      line's margin lies inside the view. */
  lemma MarginsInsideView(m: SpanWaterfallModel, delayWidth: int -> nat)
    requires GetTimeRange(m.tree).end > GetTimeRange(m.tree).start && m.width >= 1
    requires forall x :: x in Items(m.tree) ==> x.span.duration >= 0
    ensures var ls := LinesOf(m, delayWidth);
      forall i :: 0 <= i < |ls| ==> 0 <= ls[i].marginLeft <= m.width - 1
  {
    AllVisitsEachNode(m.tree);
    var ls := LinesOf(m, delayWidth);
    var visits := Walk(m.tree);
    var range := GetTimeRange(m.tree);
    forall i | 0 <= i < |ls| ensures 0 <= ls[i].marginLeft <= m.width - 1 {
      var item := visits[i].item;
      assert item == VisitedItems(visits)[i];
      assert item in multiset(Items(m.tree));
      LineInsideView(m, item, i, range, delayWidth);
    }
  }

  /** A line of a span inside the time range, not of negative duration, starts inside the view. */
  lemma LineInsideView(m: SpanWaterfallModel, item: TraceItem, index: int, range: Range, delayWidth: int -> nat)
    requires range.end > range.start && m.width >= 1 && item.span.duration >= 0
    requires range.start <= item.span.startTime && End(item.span) <= range.end
    ensures 0 <= LineOf(m, item, index, range, delayWidth).marginLeft <= m.width - 1
  {
    MarginInsideView(item.span.startTime - range.start, range.end - range.start, m.width);
    DelayPlacement(m, item, index, range, delayWidth);
  }

  /** With more lines than rows, the shown lines and the counter add up to every node. */
  lemma OverflowCountsEveryNode(m: SpanWaterfallModel, delayWidth: int -> nat)
    requires GetTimeRange(m.tree).end > GetTimeRange(m.tree).start && m.height >= 1
    requires |Items(m.tree)| > m.height
    ensures var s := Fit(LinesOf(m, delayWidth), m.height);
      s.moreSpans.Some? && |s.lines| == m.height - 1 && |s.lines| + s.moreSpans.value == |Items(m.tree)|
  {
    WalkCountsNodes(m.tree);
  }
}

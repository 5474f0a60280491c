/**
 * The trace page: the spans of one trace, the tree built from them, a cursor on a span, and
 * the sub-views that follow the cursor — the tree view, the waterfall, the attribute box of
 * the span under the cursor — inside a viewport scrolled so that the cursor keeps one row of
 * padding above and below it.
 */
module TracePage {
  import opened Results
  import opened Schema
  import opened TraceTree
  import TraceWaterfall
  import SpanAttributes
  import PagesTrace

  /** The page's messages: a key, a trace to show, the spans fetched for it, or anything else. */
  datatype Msg = Key(key: string) | GoToTrace(traceId: string) | ReceivedTraceSpans(spans: seq<Span>) | Other

  /** The commands the page returns: back to the main page, or fetch a trace's spans. */
  datatype Cmd = GoToMainPage | GetTrace(traceId: string)

  /** The viewport's numbers; its content is rendered text and is not modelled. */
  datatype Viewport = Viewport(width: int, height: int, yOffset: int)

  /** The tree view's state as the page sets it. */
  datatype TraceTreeViewModel = TraceTreeViewModel(tree: TraceTreeNode, cursor: int, width: int)

  const BorderWidth := 2
  const SpacerWidth := 5
  const ScrollPadding := 1

  /** The fetch command run against the store's answer: the spans, or no message on failure. */
  function RunGetTrace(fetched: Result<seq<Span>, DbError>): (msg: Option<Msg>)
    ensures msg.None? <==> fetched.Failure?
    ensures msg.Some? ==> msg.value.ReceivedTraceSpans? && msg.value.spans == fetched.value
  {
    if fetched.Failure? then None else Some(ReceivedTraceSpans(fetched.value))
  }

  // ---------------------------------------------------------------- the cursor

  /** The cursor after a message, with `count` spans before it: keys move it as on the other
      trace page, a new trace puts it back on the first span. */
  function CursorAfter(msg: Msg, cursor: int, count: nat): int
  {
    match msg
    case Key(key) => PagesTrace.KeyCursor(key, cursor, count)
    case GoToTrace(_) => 0
    case _ => cursor
  }

  /** The spans after a message: fetched spans replace them whatever the tree build does. */
  function SpansAfter(msg: Msg, spans: seq<Span>): seq<Span>
  {
    if msg.ReceivedTraceSpans? then msg.spans else spans
  }

  /**
   * On a non-empty trace, keys and new traces keep a cursor on a span: a step moves it by at
   * most one, `g` and `G` reach the ends, and everything else leaves it where it was.
   */
  lemma CursorStaysOnSpans(msg: Msg, cursor: int, spans: seq<Span>)
    requires !msg.ReceivedTraceSpans? && spans != []
    requires msg.GoToTrace? || 0 <= cursor < |spans|
    ensures 0 <= CursorAfter(msg, cursor, |spans|) < |SpansAfter(msg, spans)|
    ensures msg.Key? && msg.key in {"j", "down", "k", "up"} ==> -1 <= CursorAfter(msg, cursor, |spans|) - cursor <= 1
  {
    if msg.Key? {
      if msg.key in {"j", "down", "k", "up"} {
        PagesTrace.StepStaysOnPage(msg.key, cursor, |spans|);
      } else {
        PagesTrace.JumpKeys(cursor, |spans|);
      }
    }
  }

  /** The keys that leave the page. */
  predicate LeavesPage(msg: Msg) {
    msg.Key? && msg.key in {"esc", "ctrl+c", "q"}
  }

  // ---------------------------------------------------------------- scrolling

  /**
   * The scroll step after every message, with `SetYOffset` taken as a plain assignment: a
   * cursor on or past the second row from the bottom scrolls the view down; a cursor on or
   * above the top row scrolls it up. With three rows or more the cursor ends up off both
   * edges, and a cursor already off both edges keeps the offset.
   */
  function ScrollOffset(cursor: int, yOffset: int, height: int): (y: int)
    ensures height >= 3 ==> y + ScrollPadding <= cursor <= y + height - 1 - ScrollPadding
    ensures yOffset + ScrollPadding <= cursor <= yOffset + height - 1 - ScrollPadding ==> y == yOffset
  {
    var down := if cursor >= yOffset + height - 1 - ScrollPadding then cursor - height + 1 + ScrollPadding else yOffset;
    if cursor < down + ScrollPadding then cursor - ScrollPadding else down
  }

  /** Scrolling twice for the same cursor scrolls once. */
  lemma ScrollIdempotent(cursor: int, yOffset: int, height: int)
    requires height >= 3
    ensures ScrollOffset(cursor, ScrollOffset(cursor, yOffset, height), height) == ScrollOffset(cursor, yOffset, height)
  {
  }

  // ---------------------------------------------------------------- widths

  /** `int(math.Floor(x / 2))`. */
  function HalfDown(x: int): (h: int)
    ensures 2 * h <= x < 2 * h + 2
  {
    x / 2
  }

  /** `int(math.Ceil(x / 2))`. */
  function HalfUp(x: int): (h: int)
    ensures 2 * h - 2 < x <= 2 * h
  {
    -((-x) / 2)
  }

  /** The two halves of the viewport add up to it. */
  lemma HalvesFill(x: int)
    ensures HalfDown(x) + HalfUp(x) == x
  {
  }

  // ---------------------------------------------------------------- the model

  /** What building the tree from `spans` gives, as the builder promises: nothing without a
      proper root, otherwise the tree populated from that root. */
  ghost function BuiltTree(rank: string -> nat, spans: seq<Span>): Option<TraceTreeNode>
    requires Acyclic(spans, rank)
  {
    var k := RootIndex(spans);
    if k.None? || spans[k.value].id == "" then None
    else Some(PopulateRoot(rank, ZeroSpan, spans[k.value], spans))
  }

  /** `helpers.BuildTree`, its error reduced to the absence of a tree. */
  method Build(ghost rank: string -> nat, spans: seq<Span>) returns (t: Option<TraceTreeNode>)
    requires Acyclic(spans, rank)
    ensures t == BuiltTree(rank, spans)
  {
    var r := BuildTree(rank, spans);
    t := if r.Success? then Some(r.value) else None;
  }

  class TracePageModel {
    var spans: seq<Span>
    var tree: TraceTreeNode
    var cursor: int
    const spanAttributeModel: SpanAttributes.SpanAttributeModel
    var waterfallModel: TraceWaterfall.SpanWaterfallModel
    var traceTreeViewModel: TraceTreeViewModel
    var viewport: Viewport
    var width: int
    var height: int

    /** The page and both sub-views show the same tree. */
    predicate TreesAgree()
      reads this
    {
      waterfallModel.tree == tree && traceTreeViewModel.tree == tree
    }

    /** `CreateTracePageModel`: no spans, the zero tree, the cursor on the first row, the
        sub-views as they are created, an empty viewport. The store handle is replaced by the
        store's answer handed to `RunGetTrace`. */
    constructor ()
      ensures spans == [] && tree == ZeroNode && cursor == 0
      ensures fresh(spanAttributeModel)
      ensures spanAttributeModel.attributes == map[] && spanAttributeModel.height == 5
      ensures waterfallModel == TraceWaterfall.Created
      ensures traceTreeViewModel == TraceTreeViewModel(ZeroNode, 0, 0)
      ensures viewport == Viewport(0, 0, 0) && width == 0 && height == 0
      ensures TreesAgree()
    {
      spans := [];
      tree := ZeroNode;
      cursor := 0;
      spanAttributeModel := new SpanAttributes.SpanAttributeModel();
      waterfallModel := TraceWaterfall.Created;
      traceTreeViewModel := TraceTreeViewModel(ZeroNode, 0, 0);
      viewport := Viewport(0, 0, 0);
      width, height := 0, 0;
    }

    /**
     * `SetWidth`: the attribute box and the viewport lose two columns to borders; the tree view
     * takes the lower half of the viewport less the spacer, the waterfall the upper half.
     */
    method SetWidth(w: int)
      modifies this, spanAttributeModel
      ensures width == w && spanAttributeModel.width == w - BorderWidth
      ensures viewport == old(viewport).(width := w - BorderWidth)
      ensures traceTreeViewModel == old(traceTreeViewModel).(width := HalfDown(w - BorderWidth) - SpacerWidth)
      ensures waterfallModel == old(waterfallModel).(width := HalfUp(w - BorderWidth))
      ensures traceTreeViewModel.width + SpacerWidth + waterfallModel.width == viewport.width
      ensures spans == old(spans) && tree == old(tree) && cursor == old(cursor) && height == old(height)
      ensures spanAttributeModel.attributes == old(spanAttributeModel.attributes)
      ensures spanAttributeModel.height == old(spanAttributeModel.height)
    {
      width := w;
      spanAttributeModel.width := w - BorderWidth;
      viewport := viewport.(width := w - BorderWidth);
      traceTreeViewModel := traceTreeViewModel.(width := HalfDown(viewport.width) - SpacerWidth);
      waterfallModel := waterfallModel.(width := HalfUp(viewport.width));
      HalvesFill(viewport.width);
    }

    /** `SetHeight`: the viewport gets what the header, the attribute box, the borders and the
        help line leave; the waterfall is not limited; the attribute box has eight rows. */
    method SetHeight(h: int)
      modifies this, spanAttributeModel
      ensures height == h
      ensures viewport == old(viewport).(height := h - 2 - 10 - 2 - 1)
      ensures waterfallModel == old(waterfallModel).(height := 999999)
      ensures spanAttributeModel.height == 10 - 2
      ensures spans == old(spans) && tree == old(tree) && cursor == old(cursor) && width == old(width)
      ensures traceTreeViewModel == old(traceTreeViewModel)
      ensures spanAttributeModel.attributes == old(spanAttributeModel.attributes)
      ensures spanAttributeModel.width == old(spanAttributeModel.width)
    {
      height := h;
      viewport := viewport.(height := h - 2 - 10 - 2 - 1);
      waterfallModel := waterfallModel.(height := 999999);
      spanAttributeModel.height := 10 - 2;
    }

    /**
     * `Update`. Keys move the cursor or leave the page; a new trace resets the cursor and the
     * scroll and asks for the spans; fetched spans replace the spans, and the tree too when it
     * can be built. Then the attribute box shows the span under the cursor, the viewport
     * scrolls, and both sub-views take the cursor. Reading the span under a cursor that is off
     * the spans panics, so the cursor must land on one when there are spans.
     */
    method Update(ghost rank: string -> nat, msg: Msg) returns (cmds: seq<Cmd>)
      requires msg.ReceivedTraceSpans? ==> Acyclic(msg.spans, rank)
      requires SpansAfter(msg, spans) != [] ==> 0 <= CursorAfter(msg, cursor, |spans|) < |SpansAfter(msg, spans)|
      modifies this, spanAttributeModel
      ensures cursor == CursorAfter(msg, old(cursor), |old(spans)|)
      ensures spans == SpansAfter(msg, old(spans))
      ensures LeavesPage(msg) ==> cmds == [GoToMainPage]
      ensures msg.GoToTrace? ==> cmds == [GetTrace(msg.traceId)]
      ensures !LeavesPage(msg) && !msg.GoToTrace? ==> cmds == []
      ensures msg.ReceivedTraceSpans? && BuiltTree(rank, msg.spans).Some? ==>
        var t := BuiltTree(rank, msg.spans).value;
        tree == t && waterfallModel.tree == t && traceTreeViewModel.tree == t
      ensures !(msg.ReceivedTraceSpans? && BuiltTree(rank, msg.spans).Some?) ==>
        tree == old(tree) && waterfallModel.tree == old(waterfallModel.tree) &&
        traceTreeViewModel.tree == old(traceTreeViewModel.tree)
      ensures old(TreesAgree()) ==> TreesAgree()
      ensures spans != [] ==> spanAttributeModel.attributes == spans[cursor].attributes
      ensures spans == [] ==> spanAttributeModel.attributes == old(spanAttributeModel.attributes)
      ensures var start := if msg.GoToTrace? then 0 else old(viewport.yOffset);
        viewport == old(viewport).(yOffset := ScrollOffset(cursor, start, old(viewport.height)))
      ensures waterfallModel == old(waterfallModel).(tree := waterfallModel.tree, cursor := cursor)
      ensures traceTreeViewModel == old(traceTreeViewModel).(tree := traceTreeViewModel.tree, cursor := cursor)
      ensures width == old(width) && height == old(height)
      ensures spanAttributeModel.width == old(spanAttributeModel.width)
      ensures spanAttributeModel.height == old(spanAttributeModel.height)
    {
      cmds := [];
      match msg {
        case Key(key) =>
          if key in {"esc", "ctrl+c", "q"} {
            cmds := [GoToMainPage];
          }
          cursor := PagesTrace.KeyCursor(key, cursor, |spans|);
        case GoToTrace(id) =>
          cursor := 0;
          viewport := viewport.(yOffset := 0);
          cmds := [GetTrace(id)];
        case ReceivedTraceSpans(received) =>
          ReceiveSpans(rank, received);
        case Other =>
      }
      UpdateSpanAttributes();
      Scroll();
      waterfallModel := waterfallModel.(cursor := cursor);
      traceTreeViewModel := traceTreeViewModel.(cursor := cursor);
    }

    /** Fetched spans replace the spans; the built tree, when there is one, replaces the tree
        of the page and of both sub-views. */
    method ReceiveSpans(ghost rank: string -> nat, received: seq<Span>)
      requires Acyclic(received, rank)
      modifies this
      ensures spans == received
      ensures BuiltTree(rank, received).Some? ==>
        var t := BuiltTree(rank, received).value;
        tree == t && waterfallModel == old(waterfallModel).(tree := t) &&
        traceTreeViewModel == old(traceTreeViewModel).(tree := t)
      ensures BuiltTree(rank, received).None? ==>
        tree == old(tree) && waterfallModel == old(waterfallModel) && traceTreeViewModel == old(traceTreeViewModel)
      ensures cursor == old(cursor) && viewport == old(viewport) && width == old(width) && height == old(height)
    {
      spans := received;
      var built := Build(rank, received);
      if built.Some? {
        tree := built.value;
        waterfallModel := waterfallModel.(tree := built.value);
        traceTreeViewModel := traceTreeViewModel.(tree := built.value);
      }
    }

    /** The scroll step of `Update`. */
    method Scroll()
      modifies this
      ensures viewport == old(viewport).(yOffset := ScrollOffset(cursor, old(viewport.yOffset), old(viewport.height)))
      ensures spans == old(spans) && tree == old(tree) && cursor == old(cursor)
      ensures waterfallModel == old(waterfallModel) && traceTreeViewModel == old(traceTreeViewModel)
      ensures width == old(width) && height == old(height)
    {
      var y := viewport.yOffset;
      if cursor >= y + viewport.height - 1 - ScrollPadding {
        y := cursor - viewport.height + 1 + ScrollPadding;
      }
      if cursor < y + ScrollPadding {
        y := cursor - ScrollPadding;
      }
      viewport := viewport.(yOffset := y);
    }

    /** `updateSpanAttributes`: no spans, no change; otherwise the box shows the attributes of
        the span under the cursor. */
    method UpdateSpanAttributes()
      requires spans != [] ==> 0 <= cursor < |spans|
      modifies spanAttributeModel
      ensures spans != [] ==> spanAttributeModel.attributes == spans[cursor].attributes
      ensures spans == [] ==> spanAttributeModel.attributes == old(spanAttributeModel.attributes)
      ensures spanAttributeModel.width == old(spanAttributeModel.width)
      ensures spanAttributeModel.height == old(spanAttributeModel.height)
    {
      if |spans| == 0 {
        return;
      }
      var selected := spans[cursor];
      spanAttributeModel.SetAttributes(selected.attributes);
    }
  }
}

/**
 * The span detail panel: the selected span, the flamegraph of its trace and the panel's size.
 * Selecting a new span asks for its trace; loading the trace reads the spans and builds the
 * flamegraph, and the built tree comes back as a message.
 */
module SpanDetailPanel {
  import opened Results
  import opened Schema
  import opened Ratio
  import C = Clamp
  import Seqs
  import Flamegraph
  import Ordering

  /** The panel's messages: a trace to load, a flamegraph built, or anything else. */
  datatype Msg = LoadTrace(traceId: string) | TreeUpdated(tree: Flamegraph.Node) | Other

  /** The commands the panel returns: none, one that delivers a message at once, or the one
      that fetches a trace's spans and builds its flamegraph. */
  datatype Cmd = NoCmd | Deliver(msg: Msg) | FetchTrace(traceId: string)

  /** `flamegraph.Node{}`: empty name, Go's zero start time, zero duration and width, no children. */
  const ZeroNode := Flamegraph.Node("", ZeroTime, 0, Exact(0.0), [])

  const TraceNotSet := "Trace not set"

  /** The flamegraph input taken from a stored span. */
  function InputOf(s: Span): Flamegraph.NodeInput
  {
    Flamegraph.NodeInput(s.id, s.name, s.duration, s.parentSpanId.str, s.startTime)
  }

  /**
   * The fetch command run against the store's answer: a failed read yields no message; a read
   * yields the built flamegraph, or the zero node when building fails.
   */
  method RunFetchTrace(ghost rank: string -> nat, fetched: Result<seq<Span>, DbError>) returns (msg: Option<Msg>)
    requires fetched.Success? ==> Flamegraph.Acyclic(Seqs.Map(fetched.value, InputOf), rank)
    ensures fetched.Failure? ==> msg.None?
    ensures fetched.Success? ==> msg.Some? && msg.value.TreeUpdated?
    ensures fetched.Success? && fetched.value == [] ==> msg == Some(TreeUpdated(ZeroNode))
    ensures fetched.Success? && fetched.value != [] ==>
      var inputs := Seqs.Map(fetched.value, InputOf);
      exists sorted ::
        && Ordering.IsOrderingOf(sorted, inputs, Flamegraph.LaterStart)
        && Flamegraph.Acyclic(sorted, rank)
        && var built := Flamegraph.Assemble(rank, sorted, Flamegraph.WindowOf(inputs));
           msg == Some(TreeUpdated(if built.Success? then built.value else ZeroNode))
  {
    if fetched.Failure? {
      return None;
    }
    var built := Flamegraph.Build(rank, fetched.value, InputOf);
    var node := if built.Success? then built.value else ZeroNode;
    msg := Some(TreeUpdated(node));
  }

  /** `int(x)` of a float: truncated toward zero. */
  function Truncate(x: real): (n: int)
    ensures x >= 0.0 ==> n as real <= x < n as real + 1.0
    ensures x < 0.0 ==> n as real - 1.0 < x <= n as real
  {
    if x >= 0.0 then x.Floor else -((-x).Floor)
  }

  /** A node's bar: its width share of the panel, truncated, at least one column and at most
      the panel's width. The share of a zero-length trace is not finite and not modelled. */
  function BarWidth(widthPct: Fraction, width: int): (b: int)
    requires widthPct.Exact?
    ensures width >= 1 ==> 1 <= b <= width
    ensures 1 <= width && 1 <= Truncate(widthPct.value * width as real) <= width ==>
      b as real <= widthPct.value * width as real < b as real + 1.0
  {
    C.Clamp(1, Truncate(widthPct.value * width as real), width)
  }

  class SpanDetailPanelModel {
    var span: Option<Span>
    var tree: Flamegraph.Node
    var height: int
    var width: int

    /** `NewSpanDetailPanelModel`: no span, the zero tree, zero size. The store handle is
        replaced by the store's answer handed to `RunFetchTrace`. */
    constructor ()
      ensures span.None? && tree == ZeroNode && height == 0 && width == 0
    {
      span := None;
      tree := ZeroNode;
      height, width := 0, 0;
    }

    /** `Update`: a trace to load becomes the fetch command for it; a built tree replaces the
        panel's tree; nothing else changes anything. */
    method Update(msg: Msg) returns (cmd: Cmd)
      modifies this
      ensures msg.LoadTrace? ==> cmd == FetchTrace(msg.traceId)
      ensures !msg.LoadTrace? ==> cmd == NoCmd
      ensures tree == if msg.TreeUpdated? then msg.tree else old(tree)
      ensures span == old(span) && height == old(height) && width == old(width)
    {
      cmd := NoCmd;
      match msg {
        case LoadTrace(id) =>
          cmd := FetchTrace(id);
        case TreeUpdated(t) =>
          tree := t;
        case Other =>
      }
    }

    /**
     * `UpdateSpan`: no span clears the panel; the span already shown changes nothing; any
     * other span is stored and the trace it belongs to is asked for.
     */
    method UpdateSpan(s: Option<Span>) returns (cmd: Cmd)
      modifies this
      ensures s.None? ==> span.None? && tree == ZeroNode && cmd == NoCmd
      ensures s.Some? && old(span).Some? && old(span).value.id == s.value.id ==>
        span == old(span) && tree == old(tree) && cmd == NoCmd
      ensures s.Some? && !(old(span).Some? && old(span).value.id == s.value.id) ==>
        span == s && tree == old(tree) && cmd == Deliver(LoadTrace(s.value.traceId))
      ensures height == old(height) && width == old(width)
    {
      if s.None? {
        span := None;
        tree := ZeroNode;
        return NoCmd;
      }
      if span.Some? && span.value.id == s.value.id {
        return NoCmd;
      }
      span := s;
      cmd := Deliver(LoadTrace(s.value.traceId));
    }

    method SetHeight(i: int)
      modifies this
      ensures height == i && span == old(span) && tree == old(tree) && width == old(width)
    {
      height := i;
    }

    method SetWidth(i: int)
      modifies this
      ensures width == i && span == old(span) && tree == old(tree) && height == old(height)
    {
      width := i;
    }

    /**
     * `traceView`'s numbers: without a named root the trace is not set; otherwise one bar per
     * node, in the order `nodes` gives them (the node enumeration it walks is taken as given).
     */
    method TraceBars(nodes: seq<Flamegraph.Node>) returns (bars: Result<seq<int>, string>)
      requires forall i :: 0 <= i < |nodes| ==> nodes[i].widthPct.Exact?
      ensures bars.Failure? <==> tree.name == ""
      ensures bars.Failure? ==> bars.error == TraceNotSet
      ensures bars.Success? ==>
        && |bars.value| == |nodes|
        && forall i :: 0 <= i < |nodes| ==> bars.value[i] == BarWidth(nodes[i].widthPct, width)
    {
      if tree.name == "" {
        return Failure(TraceNotSet);
      }
      var ws := [];
      for i := 0 to |nodes|
        invariant |ws| == i
        invariant forall j :: 0 <= j < i ==> ws[j] == BarWidth(nodes[j].widthPct, width)
      {
        ws := ws + [BarWidth(nodes[i].widthPct, width)];
      }
      bars := Success(ws);
    }
  }
}

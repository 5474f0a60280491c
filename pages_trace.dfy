/**
 * The older trace page: a cursor moved by keys over the trace's spans, the tree rebuilt on
 * each render from the first parentless span, and one row per node, numbered in depth-first
 * pre-order by a counter shared across the recursion, the cursor's row highlighted.
 */
module PagesTrace {
  import opened Results
  import opened Schema
  import opened Ratio
  import TraceTree

  // ---------------------------------------------------------------- the cursor

  /** The messages the page reacts to; `fetched` is the answer of the span query for the trace. */
  datatype Msg =
    | Key(key: string)
    | GoToTrace(traceId: string, fetched: Result<seq<Span>, DbError>)
    | Other

  datatype PageMsg = ReturnToMainPage

  /** The cursor after a key, with `count` spans on the page. */
  function KeyCursor(key: string, cursor: int, count: nat): int
  {
    if key == "j" || key == "down" then (if cursor != count - 1 then cursor + 1 else cursor)
    else if key == "k" || key == "up" then (if cursor != 0 then cursor - 1 else cursor)
    else if key == "g" then 0
    else if key == "G" then count - 1
    else cursor
  }

  /** Moving down or up keeps a cursor inside a non-empty page, and moves it by one at most. */
  lemma StepStaysOnPage(key: string, cursor: int, count: nat)
    requires key in {"j", "down", "k", "up"}
    requires 0 <= cursor < count
    ensures var c := KeyCursor(key, cursor, count);
      0 <= c < count && -1 <= c - cursor <= 1
    ensures key in {"j", "down"} ==> KeyCursor(key, cursor, count) == if cursor < count - 1 then cursor + 1 else cursor
    ensures key in {"k", "up"} ==> KeyCursor(key, cursor, count) == if cursor > 0 then cursor - 1 else cursor
  {
  }

  /** `g` goes to the first span and `G` to the last; other keys leave the cursor alone. */
  lemma JumpKeys(cursor: int, count: nat)
    ensures KeyCursor("g", cursor, count) == 0
    ensures KeyCursor("G", cursor, count) == count - 1
    ensures forall key :: key !in {"j", "down", "k", "up", "g", "G"} ==> KeyCursor(key, cursor, count) == cursor
  {
  }

  /** On an empty page `j` leaves the range: the guard compares against `-1`. */
  lemma EmptyPageDown()
    ensures KeyCursor("j", 0, 0) == 1
  {
  }

  class TracePageModel {
    var spans: seq<Span>
    var cursor: int

    constructor ()
      ensures spans == [] && cursor == 0
    {
      spans := [];
      cursor := 0;
    }

    /** Keys move the cursor (escape asks to go back); a trace whose spans could be fetched
        replaces the spans, a failed fetch keeps them. */
    method Update(msg: Msg) returns (cmd: Option<PageMsg>)
      modifies this
      ensures msg.Key? ==> cursor == KeyCursor(msg.key, old(cursor), |old(spans)|) && spans == old(spans)
      ensures msg.Key? && msg.key == "esc" ==> cmd == Some(ReturnToMainPage)
      ensures !(msg.Key? && msg.key == "esc") ==> cmd == None
      ensures msg.GoToTrace? ==> cursor == old(cursor)
      ensures msg.GoToTrace? && msg.fetched.Success? ==> spans == msg.fetched.value
      ensures msg.GoToTrace? && msg.fetched.Failure? ==> spans == old(spans)
      ensures msg.Other? ==> cursor == old(cursor) && spans == old(spans)
    {
      cmd := None;
      match msg
      case Key(key) =>
        if key == "esc" {
          cmd := Some(ReturnToMainPage);
        } else if key == "j" || key == "down" {
          if cursor != |spans| - 1 {
            cursor := cursor + 1;
          }
        } else if key == "k" || key == "up" {
          if cursor != 0 {
            cursor := cursor - 1;
          }
        } else if key == "g" {
          cursor := 0;
        } else if key == "G" {
          cursor := |spans| - 1;
        }
      case GoToTrace(_, fetched) =>
        if fetched.Success? {
          spans := fetched.value;
        }
      case Other =>
    }

    /** The rendered tree: the root the page picks, and one line per node of the tree built under it. */
    method View(ghost rank: string -> nat) returns (root: Span, lines: seq<SpanLine>)
      requires Acyclic(spans, rank)
      ensures TraceTree.RootIndex(spans).Some? ==> root == spans[TraceTree.RootIndex(spans).value]
      ensures TraceTree.RootIndex(spans).None? ==> root == ZeroSpan
      ensures Renders(lines, Preorder(BuildTree(rank, root, spans), None, 0), 0, cursor)
    {
      root := ViewRoot(spans);
      var tree := BuildTree(rank, root, spans);
      var next;
      lines, next := TreeView(tree, 0, cursor, None, 0);
    }
  }

  /** The root loop of `View`: the first span without a parent, or the zero span. */
  method ViewRoot(spans: seq<Span>) returns (root: Span)
    ensures TraceTree.RootIndex(spans).Some? ==> root == spans[TraceTree.RootIndex(spans).value]
    ensures TraceTree.RootIndex(spans).None? ==> root == ZeroSpan
  {
    root := ZeroSpan;
    var i := 0;
    while i < |spans|
      invariant 0 <= i <= |spans|
      invariant forall j :: 0 <= j < i ==> spans[j].parentSpanId.valid
      invariant root == ZeroSpan
    {
      if !spans[i].parentSpanId.valid {
        root := spans[i];
        break;
      }
      i := i + 1;
    }
  }

  // ---------------------------------------------------------------- the tree

  datatype TraceNode = TraceNode(span: Span, children: seq<TraceNode>)

  /**
   * Some rank strictly drops from a parent-id string to the id of every span naming it. This
   * also covers a root with the empty id (the zero span), whose children are the spans whose
   * parent-id string is empty.
   */
  ghost predicate Acyclic(spans: seq<Span>, rank: string -> nat) {
    forall i :: 0 <= i < |spans| ==> rank(spans[i].parentSpanId.str) > rank(spans[i].id)
  }

  /** Every node's children are the spans naming it as parent, in input order, built the same way. */
  ghost predicate Shaped(t: TraceNode, spans: seq<Span>)
    decreases t
  {
    var kids := TraceTree.ChildSpans(spans, t.span.id);
    && |t.children| == |kids|
    && forall j :: 0 <= j < |t.children| ==> t.children[j].span == kids[j] && Shaped(t.children[j], spans)
  }

  /** `buildTree`: the node of `root`, with no check that `root` is a real span. */
  function BuildTree(ghost rank: string -> nat, root: Span, spans: seq<Span>): (t: TraceNode)
    requires Acyclic(spans, rank)
    decreases rank(root.id), |spans| + 1
    ensures t.span == root && Shaped(t, spans)
  {
    assert spans[0..] == spans;
    TraceNode(root, BuildChildren(rank, root, spans, 0))
  }

  /** The children loop of `buildTree`, from input position `i` on. */
  function BuildChildren(ghost rank: string -> nat, root: Span, spans: seq<Span>, i: nat): (cs: seq<TraceNode>)
    requires Acyclic(spans, rank) && i <= |spans|
    decreases rank(root.id), |spans| - i
    ensures var kids := TraceTree.ChildSpans(spans[i..], root.id);
      |cs| == |kids| && forall j :: 0 <= j < |cs| ==> cs[j].span == kids[j] && Shaped(cs[j], spans)
  {
    if i == |spans| then []
    else
      assert spans[i..][0] == spans[i] && spans[i..][1..] == spans[i + 1..];
      var rest := BuildChildren(rank, root, spans, i + 1);
      if spans[i].parentSpanId.str == root.id then
        var c := BuildTree(rank, spans[i], spans);
        var kids := TraceTree.ChildSpans(spans[i + 1..], root.id);
        assert TraceTree.ChildSpans(spans[i..], root.id) == [spans[i]] + kids;
        ConsShaped(c, rest, kids, spans);
        [c] + rest
      else
        assert TraceTree.ChildSpans(spans[i..], root.id) == TraceTree.ChildSpans(spans[i + 1..], root.id);
        rest
  }

  lemma ConsShaped(c: TraceNode, rest: seq<TraceNode>, kids: seq<Span>, spans: seq<Span>)
    requires Shaped(c, spans) && |rest| == |kids|
    requires forall j :: 0 <= j < |rest| ==> rest[j].span == kids[j] && Shaped(rest[j], spans)
    ensures var cs := [c] + rest; var ks := [c.span] + kids;
      forall j :: 0 <= j < |cs| ==> cs[j].span == ks[j] && Shaped(cs[j], spans)
  {
    var cs := [c] + rest;
    var ks := [c.span] + kids;
    forall j | 0 <= j < |cs| ensures cs[j].span == ks[j] && Shaped(cs[j], spans) {
      if j > 0 {
        assert cs[j] == rest[j - 1] && ks[j] == kids[j - 1];
      }
    }
  }

  // ---------------------------------------------------------------- the rows

  /** A node in the walk: its span, the span of its parent node (none for the top node) and its depth. */
  datatype Entry = Entry(span: Span, parent: Option<Span>, depth: nat)

  /** The nodes of a tree in depth-first pre-order: the node, then each child's walk in turn. */
  function Preorder(t: TraceNode, parent: Option<Span>, depth: nat): seq<Entry>
    decreases t, |t.children| + 1
  {
    [Entry(t.span, parent, depth)] + ChildrenPreorder(t, |t.children|, depth)
  }

  /** The walks of the first `k` children of `t`, one after the other. */
  function ChildrenPreorder(t: TraceNode, k: nat, depth: nat): seq<Entry>
    requires k <= |t.children|
    decreases t, k
  {
    if k == 0 then []
    else ChildrenPreorder(t, k - 1, depth) + Preorder(t.children[k - 1], Some(t.span), depth + 1)
  }

  /** The number of nodes of a tree. */
  function Size(t: TraceNode): nat
    decreases t, |t.children| + 1
  {
    1 + ChildrenSize(t, |t.children|)
  }

  function ChildrenSize(t: TraceNode, k: nat): nat
    requires k <= |t.children|
    decreases t, k
  {
    if k == 0 then 0 else ChildrenSize(t, k - 1) + Size(t.children[k - 1])
  }

  /** One line of the tree view: the span, its indentation level, whether it is highlighted and
      its share of the parent's duration in percent, shown only under a parent. */
  datatype SpanLine = SpanLine(span: Span, depth: nat, selected: bool, percentOfParent: Option<Fraction>)

  /** `spanView`'s percentage: the span's duration over its parent's, times 100. */
  function PercentOf(span: Span, parent: Option<Span>): (p: Option<Fraction>)
    ensures p.Some? <==> parent.Some?
    ensures parent.Some? && parent.value.duration != 0 ==>
      p.value.Exact? && p.value.value * (parent.value.duration as real) == 100.0 * span.duration as real
  {
    match parent
    case None => None
    case Some(ps) => Some(Quotient(100 * span.duration, ps.duration))
  }

  /** `lines` show `entries`, the line of entry `i` taking row number `row + i`. */
  ghost predicate Renders(lines: seq<SpanLine>, entries: seq<Entry>, row: int, cursor: int) {
    && |lines| == |entries|
    && forall i :: 0 <= i < |lines| ==>
         lines[i] == SpanLine(entries[i].span, entries[i].depth, row + i == cursor,
                              PercentOf(entries[i].span, entries[i].parent))
  }

  lemma RendersAppend(l1: seq<SpanLine>, e1: seq<Entry>, l2: seq<SpanLine>, e2: seq<Entry>, row: int, cursor: int)
    requires Renders(l1, e1, row, cursor) && Renders(l2, e2, row + |l1|, cursor)
    ensures Renders(l1 + l2, e1 + e2, row, cursor)
  {
    forall i | 0 <= i < |l1| + |l2|
      ensures (l1 + l2)[i] == SpanLine((e1 + e2)[i].span, (e1 + e2)[i].depth, row + i == cursor,
                                       PercentOf((e1 + e2)[i].span, (e1 + e2)[i].parent))
    {
      if i >= |l1| {
        assert (l1 + l2)[i] == l2[i - |l1|] && (e1 + e2)[i] == e2[i - |l1|];
      } else {
        assert (l1 + l2)[i] == l1[i] && (e1 + e2)[i] == e1[i];
      }
    }
  }

  /**
   * `treeView`: takes the current row, advances the shared counter, renders the node (highlighted
   * when its row is the cursor) and then each child, in order, one level deeper.
   */
  method TreeView(tree: TraceNode, row: int, cursor: int, parent: Option<Span>, depth: nat)
    returns (lines: seq<SpanLine>, next: int)
    decreases tree
    ensures Renders(lines, Preorder(tree, parent, depth), row, cursor)
    ensures next == row + |lines|
  {
    var currentRow := row;
    next := row + 1;
    lines := [SpanLine(tree.span, depth, currentRow == cursor, PercentOf(tree.span, parent))];
    ghost var head := [Entry(tree.span, parent, depth)];
    for k := 0 to |tree.children|
      invariant Renders(lines, head + ChildrenPreorder(tree, k, depth), row, cursor)
      invariant next == row + |lines|
    {
      var childLines, childNext := TreeView(tree.children[k], next, cursor, Some(tree.span), depth + 1);
      RendersAppend(lines, head + ChildrenPreorder(tree, k, depth), childLines,
                    Preorder(tree.children[k], Some(tree.span), depth + 1), row, cursor);
      assert head + ChildrenPreorder(tree, k + 1, depth)
          == (head + ChildrenPreorder(tree, k, depth)) + Preorder(tree.children[k], Some(tree.span), depth + 1);
      lines := lines + childLines;
      next := childNext;
    }
  }

  // ---------------------------------------------------------------- what the rows say

  /** The walk has one entry per node. */
  lemma {:induction false} PreorderCountsNodes(t: TraceNode, parent: Option<Span>, depth: nat)
    ensures |Preorder(t, parent, depth)| == Size(t)
    decreases t, |t.children| + 1
  {
    ChildrenPreorderCounts(t, |t.children|, depth);
  }

  lemma {:induction false} ChildrenPreorderCounts(t: TraceNode, k: nat, depth: nat)
    requires k <= |t.children|
    ensures |ChildrenPreorder(t, k, depth)| == ChildrenSize(t, k)
    decreases t, k
  {
    if k > 0 {
      ChildrenPreorderCounts(t, k - 1, depth);
      PreorderCountsNodes(t.children[k - 1], Some(t.span), depth + 1);
    }
  }

  /** The entry is a span of the trace, deeper than `depth`, under the span it names as parent. */
  predicate Under(e: Entry, spans: seq<Span>, depth: nat) {
    && e.span in spans && e.depth > depth
    && e.parent.Some? && e.span.parentSpanId.str == e.parent.value.id
  }

  ghost predicate FollowParents(es: seq<Entry>, spans: seq<Span>, depth: nat) {
    forall e :: e in es ==> Under(e, spans, depth)
  }

  /** Every child, at every level, is a span of the trace naming its parent node's id. */
  ghost predicate Linked(t: TraceNode, spans: seq<Span>)
    decreases t
  {
    forall c :: c in t.children ==> c.span in spans && c.span.parentSpanId.str == t.span.id && Linked(c, spans)
  }

  lemma {:induction false} ShapedIsLinked(t: TraceNode, spans: seq<Span>)
    requires Shaped(t, spans)
    ensures Linked(t, spans)
    decreases t
  {
    var kids := TraceTree.ChildSpans(spans, t.span.id);
    forall c | c in t.children ensures c.span in spans && c.span.parentSpanId.str == t.span.id && Linked(c, spans) {
      var j :| 0 <= j < |t.children| && t.children[j] == c;
      assert kids[j] in kids;
      ShapedIsLinked(c, spans);
    }
  }

  /**
   * In the walk of a built tree, the first entry is the top node and every later entry is a
   * span of the trace, one level or more deeper, whose parent entry is the span it names as parent.
   */
  lemma {:induction false} PreorderFollowsParents(t: TraceNode, spans: seq<Span>, parent: Option<Span>, depth: nat)
    requires Linked(t, spans)
    ensures var es := Preorder(t, parent, depth);
      es[0] == Entry(t.span, parent, depth) && FollowParents(es[1..], spans, depth)
    decreases t, |t.children| + 1
  {
    ChildrenFollowParents(t, spans, |t.children|, depth);
    var es := Preorder(t, parent, depth);
    assert es[1..] == ChildrenPreorder(t, |t.children|, depth);
  }

  lemma {:induction false} ChildrenFollowParents(t: TraceNode, spans: seq<Span>, k: nat, depth: nat)
    requires Linked(t, spans) && k <= |t.children|
    ensures FollowParents(ChildrenPreorder(t, k, depth), spans, depth)
    decreases t, k
  {
    if k > 0 {
      var c := t.children[k - 1];
      assert c in t.children;
      ChildrenFollowParents(t, spans, k - 1, depth);
      PreorderFollowsParents(c, spans, Some(t.span), depth + 1);
      var front := ChildrenPreorder(t, k - 1, depth);
      var back := Preorder(c, Some(t.span), depth + 1);
      ChildWalkFollows(back, t.span, spans, depth);
      assert ChildrenPreorder(t, k, depth) == front + back;
    }
  }

  /** A child's walk, its top entry included, is under the parent node when the child names it. */
  lemma ChildWalkFollows(back: seq<Entry>, parent: Span, spans: seq<Span>, depth: nat)
    requires |back| > 0 && back[0].parent == Some(parent) && back[0].depth == depth + 1
    requires back[0].span in spans && back[0].span.parentSpanId.str == parent.id
    requires FollowParents(back[1..], spans, depth + 1)
    ensures FollowParents(back, spans, depth)
  {
    assert back == [back[0]] + back[1..];
  }

  /** With the cursor on a row of the view, exactly that row is highlighted, and a percentage is
      shown on every row but the top one. */
  lemma ViewHighlightsCursorRow(lines: seq<SpanLine>, t: TraceNode, spans: seq<Span>, cursor: int)
    requires Shaped(t, spans) && Renders(lines, Preorder(t, None, 0), 0, cursor)
    ensures |lines| == Size(t)
    ensures forall i :: 0 <= i < |lines| ==> (lines[i].selected <==> i == cursor)
    ensures lines[0].span == t.span && lines[0].percentOfParent == None
    ensures forall i :: 0 < i < |lines| ==> lines[i].percentOfParent.Some? && lines[i].depth > 0
  {
    PreorderCountsNodes(t, None, 0);
    ShapedIsLinked(t, spans);
    PreorderFollowsParents(t, spans, None, 0);
    var es := Preorder(t, None, 0);
    forall i | 0 < i < |lines| ensures lines[i].percentOfParent.Some? && lines[i].depth > 0 {
      assert es[i] == es[1..][i - 1] && es[i] in es[1..];
    }
  }
}

/**
 * Trace-tree reconstruction: the root is the first span without a parent, every node's
 * children are the spans naming it as parent, each node records its share of the parent's
 * duration; plus the breadth-first walk and the time range of a tree.
 */
module TraceTree {
  import opened Results
  import opened Seqs
  import opened Schema
  import opened Ratio

  /** A node's payload: the span, its share of the parent's duration and the parent's start. */
  datatype TraceItem = TraceItem(span: Span, durationOfParent: Fraction, parentStartTime: int)

  datatype TraceTreeNode = TraceTreeNode(item: TraceItem, children: seq<TraceTreeNode>)

  /** Go's zero `TraceTreeNode`. */
  const ZeroNode := TraceTreeNode(TraceItem(ZeroSpan, Exact(0.0), ZeroTime), [])

  const NoRootError := "could not find root span in spans passed to build tree"

  // ---------------------------------------------------------------- building

  /**
   * The parent links admit no cycle: some rank strictly drops from a parent id to the ids
   * naming it, and a span with an empty id has no parent (otherwise the empty id would
   * name every parentless span as its child).
   */
  ghost predicate Acyclic(spans: seq<Span>, rank: string -> nat) {
    forall i :: 0 <= i < |spans| ==>
      if spans[i].id == "" then spans[i].parentSpanId == Null
      else rank(spans[i].parentSpanId.str) > rank(spans[i].id)
  }

  /** The spans whose parent-id string is `id`, in input order. */
  function ChildSpans(spans: seq<Span>, id: string): seq<Span>
  {
    Filter(spans, (s: Span) => s.parentSpanId.str == id)
  }

  /**
   * The shape every built node has: its children are exactly `ChildSpans` of its id, in order,
   * each carrying its duration share of this node and this node's start, and built the same way.
   */
  ghost predicate Built(t: TraceTreeNode, spans: seq<Span>)
    decreases t
  {
    var kids := ChildSpans(spans, t.item.span.id);
    && |t.children| == |kids|
    && forall j :: 0 <= j < |t.children| ==>
         && t.children[j].item == TraceItem(kids[j], Quotient(kids[j].duration, t.item.span.duration), t.item.span.startTime)
         && Built(t.children[j], spans)
  }

  /** The subtree rooted at `root`. Without a parent (empty id) the node is its own reference:
      share 1 and its own start. */
  function PopulateRoot(ghost rank: string -> nat, parent: Span, root: Span, spans: seq<Span>): (t: TraceTreeNode)
    requires Acyclic(spans, rank) && root.id != ""
    decreases rank(root.id), |spans| + 1
    ensures t.item.span == root
    ensures parent.id == "" ==> t.item.durationOfParent == Exact(1.0) && t.item.parentStartTime == root.startTime
    ensures parent.id != "" ==>
      t.item.durationOfParent == Quotient(root.duration, parent.duration) && t.item.parentStartTime == parent.startTime
    ensures Built(t, spans)
  {
    var item :=
      if parent.id == "" then TraceItem(root, Exact(1.0), root.startTime)
      else TraceItem(root, Quotient(root.duration, parent.duration), parent.startTime);
    assert spans[0..] == spans;
    TraceTreeNode(item, ChildrenFrom(rank, root, spans, 0))
  }

  /** The children loop of `PopulateRoot`, from input position `i` on. */
  function ChildrenFrom(ghost rank: string -> nat, root: Span, spans: seq<Span>, i: nat): (cs: seq<TraceTreeNode>)
    requires Acyclic(spans, rank) && root.id != "" && i <= |spans|
    decreases rank(root.id), |spans| - i
    ensures var kids := ChildSpans(spans[i..], root.id);
      && |cs| == |kids|
      && forall j :: 0 <= j < |cs| ==>
           && cs[j].item == TraceItem(kids[j], Quotient(kids[j].duration, root.duration), root.startTime)
           && Built(cs[j], spans)
  {
    if i == |spans| then []
    else
      assert spans[i..][0] == spans[i] && spans[i..][1..] == spans[i + 1..];
      var rest := ChildrenFrom(rank, root, spans, i + 1);
      if spans[i].parentSpanId.str == root.id then
        var c := PopulateRoot(rank, root, spans[i], spans);
        assert ChildSpans(spans[i..], root.id) == [spans[i]] + ChildSpans(spans[i + 1..], root.id);
        ConsChildren(c, rest, spans[i], ChildSpans(spans[i + 1..], root.id), root, spans);
        [c] + rest
      else
        assert ChildSpans(spans[i..], root.id) == ChildSpans(spans[i + 1..], root.id);
        rest
  }

  /** Prepending a built child to built children. */
  lemma ConsChildren(c: TraceTreeNode, rest: seq<TraceTreeNode>, kid: Span, kids: seq<Span>, root: Span, spans: seq<Span>)
    requires c.item == TraceItem(kid, Quotient(kid.duration, root.duration), root.startTime) && Built(c, spans)
    requires |rest| == |kids|
    requires forall j :: 0 <= j < |rest| ==>
      rest[j].item == TraceItem(kids[j], Quotient(kids[j].duration, root.duration), root.startTime) && Built(rest[j], spans)
    ensures var cs := [c] + rest; var ks := [kid] + kids;
      && |cs| == |ks|
      && forall j :: 0 <= j < |cs| ==>
           cs[j].item == TraceItem(ks[j], Quotient(ks[j].duration, root.duration), root.startTime) && Built(cs[j], spans)
  {
    var cs := [c] + rest;
    var ks := [kid] + kids;
    forall j | 0 <= j < |cs|
      ensures cs[j].item == TraceItem(ks[j], Quotient(ks[j].duration, root.duration), root.startTime) && Built(cs[j], spans)
    {
      if j > 0 {
        assert cs[j] == rest[j - 1] && ks[j] == kids[j - 1];
      }
    }
  }

  /** The position of the first span without a parent, if any. */
  function RootIndex(spans: seq<Span>): (r: Option<nat>)
    ensures r.None? <==> forall i :: 0 <= i < |spans| ==> spans[i].parentSpanId.valid
    ensures r.Some? ==>
      && r.value < |spans|
      && !spans[r.value].parentSpanId.valid
      && forall i :: 0 <= i < r.value ==> spans[i].parentSpanId.valid
  {
    if spans == [] then None
    else if !spans[0].parentSpanId.valid then Some(0)
    else match RootIndex(spans[1..])
      case None => None
      case Some(i) => Some(i + 1)
  }

  /** Finds the root with a loop and `break`, then builds the tree under it; a missing root,
      or a first parentless span with an empty id, is an error. */
  method BuildTree(ghost rank: string -> nat, spans: seq<Span>) returns (r: Result<TraceTreeNode, string>)
    requires Acyclic(spans, rank)
    ensures r.Failure? <==> RootIndex(spans).None? || spans[RootIndex(spans).value].id == ""
    ensures r.Failure? ==> r.error == NoRootError
    ensures r.Success? ==>
      var root := spans[RootIndex(spans).value];
      && r.value == PopulateRoot(rank, ZeroSpan, root, spans)
      && r.value.item == TraceItem(root, Exact(1.0), root.startTime)
      && Built(r.value, spans)
  {
    var rootSpan := ZeroSpan;
    var i := 0;
    while i < |spans|
      invariant 0 <= i <= |spans|
      invariant forall j :: 0 <= j < i ==> spans[j].parentSpanId.valid
      invariant rootSpan == ZeroSpan
    {
      if !spans[i].parentSpanId.valid {
        rootSpan := spans[i];
        break;
      }
      i := i + 1;
    }
    assert rootSpan != ZeroSpan ==> RootIndex(spans) == Some(i);
    assert rootSpan == ZeroSpan ==> RootIndex(spans).None? || spans[RootIndex(spans).value] == ZeroSpan;
    if rootSpan.id == "" {
      return Failure(NoRootError);
    }
    return Success(PopulateRoot(rank, ZeroSpan, rootSpan, spans));
  }

  // ---------------------------------------------------------------- the nodes of a tree

  /** The items of a tree in depth-first pre-order. */
  function Items(t: TraceTreeNode): seq<TraceItem>
    decreases t, |t.children| + 1
  {
    [t.item] + ItemsFrom(t, 0)
  }

  function ItemsFrom(t: TraceTreeNode, i: nat): seq<TraceItem>
    requires i <= |t.children|
    decreases t, |t.children| - i
  {
    if i == |t.children| then [] else Items(t.children[i]) + ItemsFrom(t, i + 1)
  }

  // ---------------------------------------------------------------- time range

  datatype Range = Range(start: int, end: int)

  /** The earliest start and the latest end over a node and all its descendants. */
  function GetTimeRange(t: TraceTreeNode): (r: Range)
    decreases t, |t.children| + 1
    ensures forall x :: x in Items(t) ==> r.start <= x.span.startTime && End(x.span) <= r.end
    ensures exists x :: x in Items(t) && x.span.startTime == r.start
    ensures exists x :: x in Items(t) && End(x.span) == r.end
  {
    assert t.item in Items(t);
    RangeFrom(t, 0, Range(t.item.span.startTime, End(t.item.span)))
  }

  /** The children loop of `GetTimeRange`: widens `acc` by each child's range from `i` on. */
  function RangeFrom(t: TraceTreeNode, i: nat, acc: Range): (r: Range)
    requires i <= |t.children|
    decreases t, |t.children| - i
    ensures forall x :: x in ItemsFrom(t, i) ==> r.start <= x.span.startTime && End(x.span) <= r.end
    ensures r.start <= acc.start && acc.end <= r.end
    ensures r.start == acc.start || exists x :: x in ItemsFrom(t, i) && x.span.startTime == r.start
    ensures r.end == acc.end || exists x :: x in ItemsFrom(t, i) && End(x.span) == r.end
  {
    if i == |t.children| then acc
    else
      var c := GetTimeRange(t.children[i]);
      var next := Range(if c.start < acc.start then c.start else acc.start, if c.end > acc.end then c.end else acc.end);
      RangeFrom(t, i + 1, next)
  }

  // ---------------------------------------------------------------- breadth-first walk

  datatype QueueItem = QueueItem(node: TraceTreeNode, depth: nat)

  /** What the walk hands to `yield`: the depth and the item. */
  datatype Visit = Visit(depth: nat, item: TraceItem)

  /** The children of a node, queued one level deeper. */
  function Enqueue(children: seq<TraceTreeNode>, depth: nat): (q: seq<QueueItem>)
    ensures |q| == |children|
    ensures forall j :: 0 <= j < |q| ==> q[j] == QueueItem(children[j], depth)
  {
    seq(|children|, j requires 0 <= j < |children| => QueueItem(children[j], depth))
  }

  /** Every item still reachable from the queue. */
  function QueueItems(q: seq<QueueItem>): seq<TraceItem>
  {
    if q == [] then [] else Items(q[0].node) + QueueItems(q[1..])
  }

  lemma {:induction false} QueueItemsAppend(a: seq<QueueItem>, b: seq<QueueItem>)
    ensures QueueItems(a + b) == QueueItems(a) + QueueItems(b)
  {
    if a == [] {
      assert a + b == b;
    } else {
      assert (a + b)[0] == a[0] && (a + b)[1..] == a[1..] + b;
      QueueItemsAppend(a[1..], b);
    }
  }

  lemma {:induction false} EnqueueItems(t: TraceTreeNode, i: nat, depth: nat)
    requires i <= |t.children|
    ensures QueueItems(Enqueue(t.children[i..], depth)) == ItemsFrom(t, i)
    decreases |t.children| - i
  {
    var q := Enqueue(t.children[i..], depth);
    if i < |t.children| {
      assert q[0] == QueueItem(t.children[i], depth);
      assert q[1..] == Enqueue(t.children[i + 1..], depth);
      EnqueueItems(t, i + 1, depth);
    }
  }

  /** The queue after popping the head and appending its children. */
  function NextQueue(q: seq<QueueItem>): seq<QueueItem>
    requires q != []
  {
    q[1..] + Enqueue(q[0].node.children, q[0].depth + 1)
  }

  /** Popping the head and queueing its children removes exactly the head's own item. */
  lemma NextQueueItems(q: seq<QueueItem>)
    requires q != []
    ensures QueueItems(q) == [q[0].node.item] + ItemsFrom(q[0].node, 0) + QueueItems(q[1..])
    ensures QueueItems(NextQueue(q)) == QueueItems(q[1..]) + ItemsFrom(q[0].node, 0)
  {
    QueueItemsAppend(q[1..], Enqueue(q[0].node.children, q[0].depth + 1));
    assert q[0].node.children[0..] == q[0].node.children;
    EnqueueItems(q[0].node, 0, q[0].depth + 1);
  }

  /** The sequence of visits the queue loop produces when `yield` never stops it. */
  function Bfs(q: seq<QueueItem>): seq<Visit>
    decreases |QueueItems(q)|
  {
    if q == [] then []
    else
      NextQueueItems(q);
      [Visit(q[0].depth, q[0].node.item)] + Bfs(NextQueue(q))
  }

  function VisitedItems(vs: seq<Visit>): (items: seq<TraceItem>)
    ensures |items| == |vs|
    ensures forall j :: 0 <= j < |vs| ==> items[j] == vs[j].item
  {
    if vs == [] then [] else [vs[0].item] + VisitedItems(vs[1..])
  }

  /** The walk visits every node of the queued trees exactly once. */
  lemma {:induction false} BfsVisitsEachOnce(q: seq<QueueItem>)
    ensures multiset(VisitedItems(Bfs(q))) == multiset(QueueItems(q))
    decreases |QueueItems(q)|
  {
    if q != [] {
      var next := NextQueue(q);
      var item := q[0].node.item;
      NextQueueItems(q);
      BfsVisitsEachOnce(next);
      var rest := Bfs(next);
      assert Bfs(q) == [Visit(q[0].depth, item)] + rest;
      assert Bfs(q)[0].item == item && Bfs(q)[1..] == rest;
      var below := ItemsFrom(q[0].node, 0);
      var others := QueueItems(q[1..]);
      calc {
        multiset(VisitedItems(Bfs(q)));
        multiset([item]) + multiset(VisitedItems(rest));
        multiset([item]) + multiset(others + below);
        multiset([item] + below + others);
        multiset(QueueItems(q));
      }
    }
  }

  /** One turn of the queue loop: the head is visited and the walk goes on from `NextQueue`. */
  lemma BfsStep(q: seq<QueueItem>)
    requires q != []
    ensures Bfs(q) == [Visit(q[0].depth, q[0].node.item)] + Bfs(NextQueue(q))
    ensures |QueueItems(NextQueue(q))| < |QueueItems(q)|
  {
    NextQueueItems(q);
  }

  /** A breadth-first queue: depths ascend and span at most one level. */
  ghost predicate Leveled(q: seq<QueueItem>) {
    && (forall i, j :: 0 <= i < j < |q| ==> q[i].depth <= q[j].depth)
    && (forall i :: 0 <= i < |q| ==> q[i].depth <= q[0].depth + 1)
  }

  /** The walk yields depths in ascending order, none below the depth of the first queued node. */
  lemma {:induction false} BfsLevelOrder(q: seq<QueueItem>)
    requires Leveled(q)
    ensures forall i, j :: 0 <= i < j < |Bfs(q)| ==> Bfs(q)[i].depth <= Bfs(q)[j].depth
    ensures q != [] ==> forall i :: 0 <= i < |Bfs(q)| ==> q[0].depth <= Bfs(q)[i].depth
    decreases |QueueItems(q)|
  {
    if q != [] {
      BfsStep(q);
      var next := NextQueue(q);
      NextLeveled(q);
      BfsLevelOrder(next);
      var rest := Bfs(next);
      assert next != [] ==> forall i :: 0 <= i < |rest| ==> q[0].depth <= next[0].depth <= rest[i].depth;
    }
  }

  /** Popping a leveled queue and queueing the head's children one level deeper keeps it
      leveled, at or below the head's depth. */
  lemma NextLeveled(q: seq<QueueItem>)
    requires Leveled(q) && q != []
    ensures Leveled(NextQueue(q))
    ensures forall i :: 0 <= i < |NextQueue(q)| ==> q[0].depth <= NextQueue(q)[i].depth
  {
    var next := NextQueue(q);
    var kids := Enqueue(q[0].node.children, q[0].depth + 1);
    forall i | 0 <= i < |next| ensures q[0].depth <= next[i].depth <= q[0].depth + 1 {
      if i < |q| - 1 {
        assert next[i] == q[i + 1];
      } else {
        assert next[i] == kids[i - (|q| - 1)];
      }
    }
    forall i, j | 0 <= i < j < |next| ensures next[i].depth <= next[j].depth {
      if j < |q| - 1 {
        assert next[i] == q[i + 1] && next[j] == q[j + 1];
      } else if i < |q| - 1 {
        assert next[j] == kids[j - (|q| - 1)];
      } else {
        assert next[i] == kids[i - (|q| - 1)] && next[j] == kids[j - (|q| - 1)];
      }
    }
  }

  /** Walking a whole tree visits each of its nodes exactly once. */
  lemma AllVisitsEachNode(t: TraceTreeNode)
    ensures multiset(VisitedItems(Bfs([QueueItem(t, 0)]))) == multiset(Items(t))
    ensures |Bfs([QueueItem(t, 0)])| == |Items(t)|
  {
    var q := [QueueItem(t, 0)];
    BfsVisitsEachOnce(q);
    assert q[1..] == [];
    assert QueueItems(q) == Items(t);
    assert |multiset(VisitedItems(Bfs(q)))| == |multiset(Items(t))|;
  }

  /** The walk of a tree has one visit per node. */
  lemma WalkCountsNodes(t: TraceTreeNode)
    ensures |Bfs([QueueItem(t, 0)])| == |Items(t)|
  {
    AllVisitsEachNode(t);
  }

  /** The first visit of a tree's walk is its root, at depth 0. */
  lemma BfsStartsAtRoot(t: TraceTreeNode)
    ensures Bfs([QueueItem(t, 0)]) != [] && Bfs([QueueItem(t, 0)])[0] == Visit(0, t.item)
  {
  }

  // ---------------------------------------------------------------- level order

  /** The level below `ns`: the children of each node, node by node, in order. */
  function Kids(ns: seq<TraceTreeNode>): seq<TraceTreeNode>
  {
    if ns == [] then [] else ns[0].children + Kids(ns[1..])
  }

  /** The visits of one level, all at depth `d`, in the level's order. */
  function LevelVisits(ns: seq<TraceTreeNode>, d: nat): seq<Visit>
  {
    if ns == [] then [] else [Visit(d, ns[0].item)] + LevelVisits(ns[1..], d)
  }

  /** The number of nodes in a forest. */
  function Size(ns: seq<TraceTreeNode>): nat
  {
    if ns == [] then 0 else |Items(ns[0])| + Size(ns[1..])
  }

  lemma {:induction false} SizeAppend(a: seq<TraceTreeNode>, b: seq<TraceTreeNode>)
    ensures Size(a + b) == Size(a) + Size(b)
  {
    if a == [] {
      assert a + b == b;
    } else {
      assert (a + b)[0] == a[0] && (a + b)[1..] == a[1..] + b;
      SizeAppend(a[1..], b);
    }
  }

  lemma {:induction false} ItemsFromSize(t: TraceTreeNode, i: nat)
    requires i <= |t.children|
    ensures |ItemsFrom(t, i)| == Size(t.children[i..])
    decreases |t.children| - i
  {
    if i < |t.children| {
      assert t.children[i..][0] == t.children[i] && t.children[i..][1..] == t.children[i + 1..];
      ItemsFromSize(t, i + 1);
    }
  }

  /** A level has one node fewer per node than the forest above and below it together. */
  lemma {:induction false} KidsSize(ns: seq<TraceTreeNode>)
    ensures Size(Kids(ns)) + |ns| == Size(ns)
  {
    if ns != [] {
      KidsSize(ns[1..]);
      SizeAppend(ns[0].children, Kids(ns[1..]));
      ItemsFromSize(ns[0], 0);
      assert ns[0].children[0..] == ns[0].children;
    }
  }

  /**
   * The reference order of the walk: every node of the level `ns` at depth `d` in order, then
   * the level below, one deeper, and so on. A node's depth is the number of levels above it,
   * and a parent's children stay together and in their own order.
   */
  function LevelWalk(ns: seq<TraceTreeNode>, d: nat): seq<Visit>
    decreases Size(ns)
  {
    if ns == [] then []
    else
      KidsSize(ns);
      LevelVisits(ns, d) + LevelWalk(Kids(ns), d + 1)
  }

  lemma {:induction false} EnqueueAppend(a: seq<TraceTreeNode>, b: seq<TraceTreeNode>, d: nat)
    ensures Enqueue(a + b, d) == Enqueue(a, d) + Enqueue(b, d)
  {
    var l, r := Enqueue(a + b, d), Enqueue(a, d) + Enqueue(b, d);
    assert |l| == |r|;
    forall j | 0 <= j < |l| ensures l[j] == r[j] {
      if j >= |a| { assert (a + b)[j] == b[j - |a|]; }
    }
  }

  /** Popping the first of the nodes `a` queued at depth `d` ahead of the nodes `b` queues
      its children behind `b`. */
  lemma LevelNextQueue(a: seq<TraceTreeNode>, b: seq<TraceTreeNode>, d: nat)
    requires a != []
    ensures var q := Enqueue(a, d) + Enqueue(b, d + 1);
      && q != [] && q[0] == QueueItem(a[0], d)
      && NextQueue(q) == Enqueue(a[1..], d) + Enqueue(b + a[0].children, d + 1)
  {
    var q := Enqueue(a, d) + Enqueue(b, d + 1);
    assert q[0] == QueueItem(a[0], d);
    assert Enqueue(a, d)[1..] == Enqueue(a[1..], d);
    assert q[1..] == Enqueue(a[1..], d) + Enqueue(b, d + 1);
    EnqueueAppend(b, a[0].children, d + 1);
  }

  /**
   * With the nodes `a` queued at depth `d` ahead of the nodes `b` one level deeper, the walk
   * first visits `a` in order and then continues from `b` followed by the children of `a`.
   */
  lemma {:induction false} BfsLevel(a: seq<TraceTreeNode>, b: seq<TraceTreeNode>, d: nat)
    ensures Bfs(Enqueue(a, d) + Enqueue(b, d + 1)) == LevelVisits(a, d) + Bfs(Enqueue(b + Kids(a), d + 1))
    decreases |a|
  {
    var q := Enqueue(a, d) + Enqueue(b, d + 1);
    if a == [] {
      assert q == Enqueue(b, d + 1);
      assert b + Kids(a) == b;
    } else {
      LevelNextQueue(a, b, d);
      BfsStep(q);
      BfsLevel(a[1..], b + a[0].children, d);
      assert b + a[0].children + Kids(a[1..]) == b + Kids(a);
    }
  }

  /** The walk of queued level `ns` at depth `d` is the reference level order. */
  lemma {:induction false} BfsIsLevelWalk(ns: seq<TraceTreeNode>, d: nat)
    ensures Bfs(Enqueue(ns, d)) == LevelWalk(ns, d)
    decreases Size(ns)
  {
    if ns == [] {
      assert Enqueue(ns, d) == [];
    } else {
      BfsLevel(ns, [], d);
      assert Enqueue(ns, d) + Enqueue([], d + 1) == Enqueue(ns, d);
      assert [] + Kids(ns) == Kids(ns);
      KidsSize(ns);
      BfsIsLevelWalk(Kids(ns), d + 1);
    }
  }

  /**
   * The walk of a tree is its level order: the root at depth 0, then each level's nodes at
   * the depth of that level, every node's children together and in their order, parents'
   * groups in the order of the level above.
   */
  lemma WalkIsLevelOrder(t: TraceTreeNode)
    ensures Bfs([QueueItem(t, 0)]) == LevelWalk([t], 0)
  {
    assert Enqueue([t], 0) == [QueueItem(t, 0)];
    BfsIsLevelWalk([t], 0);
  }

  /**
   * The tree of the trace-tree test: a root with children `c1` (itself the parent of `g`)
   * and `c2` is walked root, `c1`, `c2`, `g`, at depths 0, 1, 1 and 2.
   */
  lemma WalkOfTwoLevelTree(r: TraceItem, c1: TraceItem, c2: TraceItem, g: TraceItem)
    ensures var gn := TraceTreeNode(g, []);
      var t := TraceTreeNode(r, [TraceTreeNode(c1, [gn]), TraceTreeNode(c2, [])]);
      Bfs([QueueItem(t, 0)]) == [Visit(0, r), Visit(1, c1), Visit(1, c2), Visit(2, g)]
  {
    var n1, n2 := TraceTreeNode(c1, [TraceTreeNode(g, [])]), TraceTreeNode(c2, []);
    var t := TraceTreeNode(r, [n1, n2]);
    WalkIsLevelOrder(t);
    assert [t][1..] == [] && Kids([t]) == [n1, n2];
    assert LevelVisits([t], 0) == [Visit(0, r)];
    LowerLevelsOfTwoLevelTree(c1, c2, g);
  }

  /** The levels below the root of that tree: `c1` and `c2` at depth 1, then `g` at depth 2. */
  lemma LowerLevelsOfTwoLevelTree(c1: TraceItem, c2: TraceItem, g: TraceItem)
    ensures LevelWalk([TraceTreeNode(c1, [TraceTreeNode(g, [])]), TraceTreeNode(c2, [])], 1)
      == [Visit(1, c1), Visit(1, c2), Visit(2, g)]
  {
    var gn := TraceTreeNode(g, []);
    var n1, n2 := TraceTreeNode(c1, [gn]), TraceTreeNode(c2, []);
    assert [n1, n2][1..] == [n2] && [n2][1..] == [] && [gn][1..] == [];
    assert Kids([n2]) == [] && Kids([n1, n2]) == [gn] && Kids([gn]) == [];
    assert LevelVisits([], 1) == [] && LevelVisits([n2], 1) == [Visit(1, c2)];
    assert LevelVisits([n1, n2], 1) == [Visit(1, c1)] + LevelVisits([n2], 1);
    assert LevelVisits([gn], 2) == [Visit(2, g)] && LevelWalk([], 3) == [];
    assert LevelWalk([gn], 2) == [Visit(2, g)];
    assert LevelWalk([n1, n2], 1) == LevelVisits([n1, n2], 1) + LevelWalk([gn], 2);
  }


  /**
   * `All`: the queue loop, handing each visit to a consumer that accepts the first `accepts`
   * visits and answers false to the next one, which ends the walk.
   */
  method All(t: TraceTreeNode, accepts: nat) returns (yielded: seq<Visit>)
    ensures var whole := Bfs([QueueItem(t, 0)]);
      yielded == whole[..if accepts < |whole| then accepts + 1 else |whole|]
  {
    ghost var whole := Bfs([QueueItem(t, 0)]);
    var queue := [QueueItem(t, 0)];
    yielded := [];
    while |queue| != 0
      invariant whole == yielded + Bfs(queue)
      invariant |yielded| <= accepts
      decreases |QueueItems(queue)|
    {
      var head := queue[0];
      BfsStep(queue);
      ghost var next := NextQueue(queue);
      yielded := yielded + [Visit(head.depth, head.node.item)];
      if |yielded| > accepts {
        assert whole[..|yielded|] == yielded;
        return;
      }
      queue := AppendChildren(queue[1..], head.node.children, head.depth + 1);
      assert queue == next;
    }
    assert whole == yielded;
  }

  /** The loop that appends each child of the popped node to the queue. */
  method AppendChildren(queue: seq<QueueItem>, children: seq<TraceTreeNode>, depth: nat) returns (q: seq<QueueItem>)
    ensures q == queue + Enqueue(children, depth)
  {
    q := queue;
    var c := 0;
    while c < |children|
      invariant 0 <= c <= |children|
      invariant q == queue + Enqueue(children[..c], depth)
    {
      q := q + [QueueItem(children[c], depth)];
      c := c + 1;
      assert Enqueue(children[..c], depth) == Enqueue(children[..c - 1], depth) + [QueueItem(children[c - 1], depth)];
    }
    assert children[..c] == children;
  }
}

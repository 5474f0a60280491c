/**
 * The flamegraph builder: the inputs' global time window, the inputs sorted newest start
 * first, the single root (the first input without a parent id) and, recursively, each node's
 * children, every node's width taken against the one global window.
 */
module Flamegraph {
  import opened Results
  import opened Seqs
  import opened Schema
  import opened Ratio
  import Ordering

  datatype NodeInput = NodeInput(id: string, name: string, duration: int, parentId: string, startTime: int)

  datatype Node = Node(name: string, startTime: int, duration: int, widthPct: Fraction, children: seq<Node>)

  datatype Window = Window(start: int, end: int)

  const EmptyItemsError := "can't build flamegraph from empty items"
  const NoRootError := "when building node either 0 or more than 1 root was found: len(roots)=0"

  function InputEnd(ni: NodeInput): int { ni.startTime + ni.duration }

  // ---------------------------------------------------------------- the window

  /** One turn of the window loop: a start still at the zero time takes the input's range,
      otherwise the window widens to cover it. */
  function WidenWindow(w: Window, ni: NodeInput): Window
  {
    if w.start == ZeroTime then Window(ni.startTime, InputEnd(ni))
    else Window(if ni.startTime < w.start then ni.startTime else w.start,
                if InputEnd(ni) > w.end then InputEnd(ni) else w.end)
  }

  /** The window after the loop has seen `inputs`, starting from the zero time. */
  function WindowOf(inputs: seq<NodeInput>): Window
  {
    if inputs == [] then Window(ZeroTime, ZeroTime)
    else WidenWindow(WindowOf(inputs[..|inputs| - 1]), inputs[|inputs| - 1])
  }

  /** When no input starts at the zero time, the window runs from the earliest start to the latest end. */
  lemma {:induction false} WindowIsMinMax(inputs: seq<NodeInput>)
    requires inputs != []
    requires forall i :: 0 <= i < |inputs| ==> inputs[i].startTime != ZeroTime
    ensures var w := WindowOf(inputs);
      && (forall i :: 0 <= i < |inputs| ==> w.start <= inputs[i].startTime && InputEnd(inputs[i]) <= w.end)
      && (exists i :: 0 <= i < |inputs| && inputs[i].startTime == w.start)
      && (exists i :: 0 <= i < |inputs| && InputEnd(inputs[i]) == w.end)
  {
    var n := |inputs|;
    var init := inputs[..n - 1];
    if init != [] {
      WindowIsMinMax(init);
      var w := WindowOf(init);
      var i0 :| 0 <= i0 < |init| && init[i0].startTime == w.start;
      assert w.start != ZeroTime;
    }
  }

  // ---------------------------------------------------------------- building

  /** The parents' ids strictly out-rank their children's: the recursion ends. */
  ghost predicate Acyclic(inputs: seq<NodeInput>, rank: string -> nat) {
    forall i :: 0 <= i < |inputs| ==> rank(inputs[i].parentId) > rank(inputs[i].id)
  }

  /** The inputs naming `id` as parent, in order. */
  function ChildInputs(inputs: seq<NodeInput>, id: string): seq<NodeInput>
  {
    Filter(inputs, (ni: NodeInput) => ni.parentId == id)
  }

  /**
   * `n` is the node built for `input`: name, start and duration copied, width taken against
   * the window, and one child per input naming it as parent, in order, built the same way.
   */
  ghost predicate Shaped(n: Node, input: NodeInput, inputs: seq<NodeInput>, w: Window)
    decreases n
  {
    var kids := ChildInputs(inputs, input.id);
    && n.name == input.name && n.startTime == input.startTime && n.duration == input.duration
    && n.widthPct == Quotient(input.duration, w.end - w.start)
    && |n.children| == |kids|
    && forall j :: 0 <= j < |n.children| ==> Shaped(n.children[j], kids[j], inputs, w)
  }

  function MakeNode(ghost rank: string -> nat, input: NodeInput, inputs: seq<NodeInput>, w: Window): (n: Node)
    requires Acyclic(inputs, rank)
    decreases rank(input.id), |inputs| + 1
    ensures Shaped(n, input, inputs, w)
  {
    assert inputs[0..] == inputs;
    Node(input.name, input.startTime, input.duration, Quotient(input.duration, w.end - w.start),
         FindChildren(rank, input, inputs, 0, w))
  }

  /** `findNodesBelongingToParent` with a parent: the children loop from input position `i` on. */
  function FindChildren(ghost rank: string -> nat, parent: NodeInput, inputs: seq<NodeInput>, i: nat, w: Window)
    : (cs: seq<Node>)
    requires Acyclic(inputs, rank) && i <= |inputs|
    decreases rank(parent.id), |inputs| - i
    ensures var kids := ChildInputs(inputs[i..], parent.id);
      |cs| == |kids| && forall j :: 0 <= j < |cs| ==> Shaped(cs[j], kids[j], inputs, w)
  {
    if i == |inputs| then []
    else
      assert inputs[i..][0] == inputs[i] && inputs[i..][1..] == inputs[i + 1..];
      var rest := FindChildren(rank, parent, inputs, i + 1, w);
      if inputs[i].parentId == parent.id then
        var c := MakeNode(rank, inputs[i], inputs, w);
        var kids := ChildInputs(inputs[i + 1..], parent.id);
        assert ChildInputs(inputs[i..], parent.id) == [inputs[i]] + kids;
        ConsShaped(c, rest, inputs[i], kids, inputs, w);
        [c] + rest
      else
        assert ChildInputs(inputs[i..], parent.id) == ChildInputs(inputs[i + 1..], parent.id);
        rest
  }

  lemma ConsShaped(c: Node, rest: seq<Node>, kid: NodeInput, kids: seq<NodeInput>, inputs: seq<NodeInput>, w: Window)
    requires Shaped(c, kid, inputs, w) && |rest| == |kids|
    requires forall j :: 0 <= j < |rest| ==> Shaped(rest[j], kids[j], inputs, w)
    ensures forall j :: 0 <= j < |rest| + 1 ==> Shaped(([c] + rest)[j], ([kid] + kids)[j], inputs, w)
  {
    forall j | 0 <= j < |rest| + 1 ensures Shaped(([c] + rest)[j], ([kid] + kids)[j], inputs, w) {
      if j > 0 {
        assert ([c] + rest)[j] == rest[j - 1] && ([kid] + kids)[j] == kids[j - 1];
      }
    }
  }

  /** The first input from position `i` on without a parent id, if any. */
  function FirstRoot(inputs: seq<NodeInput>, i: nat): (k: Option<nat>)
    requires i <= |inputs|
    decreases |inputs| - i
    ensures k.None? <==> forall j :: i <= j < |inputs| ==> inputs[j].parentId != ""
    ensures k.Some? ==>
      && i <= k.value < |inputs| && inputs[k.value].parentId == ""
      && forall j :: i <= j < k.value ==> inputs[j].parentId != ""
  {
    if i == |inputs| then None
    else if inputs[i].parentId == "" then Some(i)
    else FirstRoot(inputs, i + 1)
  }

  /** `findNodesBelongingToParent` without a parent: the node of the first parentless input,
      returned at once, or nothing. */
  function FindRoots(ghost rank: string -> nat, inputs: seq<NodeInput>, w: Window): (roots: seq<Node>)
    requires Acyclic(inputs, rank)
    ensures |roots| <= 1
    ensures |roots| == 0 <==> forall j :: 0 <= j < |inputs| ==> inputs[j].parentId != ""
    ensures |roots| == 1 ==> Shaped(roots[0], inputs[FirstRoot(inputs, 0).value], inputs, w)
  {
    match FirstRoot(inputs, 0)
    case None => []
    case Some(k) => [MakeNode(rank, inputs[k], inputs, w)]
  }

  /** Newest start first (`b.StartTime.Compare(a.StartTime)`). */
  predicate LaterStart(a: NodeInput, b: NodeInput) { a.startTime >= b.startTime }

  lemma LaterStartIsTotalPreorder()
    ensures Ordering.TotalPreorder(LaterStart)
  {
  }

  /** What `Build` returns once the inputs are sorted and the window is known. */
  function Assemble(ghost rank: string -> nat, sorted: seq<NodeInput>, w: Window): (r: Result<Node, string>)
    requires Acyclic(sorted, rank)
    ensures r.Success? <==> exists j :: 0 <= j < |sorted| && sorted[j].parentId == ""
    ensures r.Failure? ==> r.error == NoRootError
    ensures r.Success? ==> Shaped(r.value, sorted[FirstRoot(sorted, 0).value], sorted, w)
  {
    var roots := FindRoots(rank, sorted, w);
    if |roots| != 1 then Failure(NoRootError) else Success(roots[0])
  }

  /** A permutation keeps the rank condition. */
  lemma AcyclicPermutation(a: seq<NodeInput>, b: seq<NodeInput>, rank: string -> nat)
    requires multiset(a) == multiset(b) && Acyclic(a, rank)
    ensures Acyclic(b, rank)
  {
    forall i | 0 <= i < |b| ensures rank(b[i].parentId) > rank(b[i].id) {
      assert b[i] in multiset(a);
      var k :| 0 <= k < |a| && a[k] == b[i];
    }
  }

  /**
   * `Build`: converts every item, computes the window in the same loop, sorts the inputs in
   * place newest first and builds from the single root. Ties in start time may come out in
   * any order, so the result is stated for some newest-first ordering of the inputs.
   */
  method Build<T>(ghost rank: string -> nat, items: seq<T>, retriever: T -> NodeInput) returns (r: Result<Node, string>)
    requires Acyclic(Map(items, retriever), rank)
    ensures items == [] ==> r == Failure(EmptyItemsError)
    ensures items != [] ==>
      var inputs := Map(items, retriever);
      exists sorted ::
        && Ordering.IsOrderingOf(sorted, inputs, LaterStart)
        && Acyclic(sorted, rank)
        && r == Assemble(rank, sorted, WindowOf(inputs))
  {
    if |items| == 0 {
      return Failure(EmptyItemsError);
    }
    ghost var inputs := Map(items, retriever);
    var nis, w := Retrieve(items, retriever);
    LaterStartIsTotalPreorder();
    Ordering.InsertionSort(nis, LaterStart);
    AcyclicPermutation(inputs, nis[..], rank);
    r := Assemble(rank, nis[..], w);
  }

  /** The first loop of `Build`: fills `nis` from the items and computes the window. */
  method Retrieve<T>(items: seq<T>, retriever: T -> NodeInput) returns (nis: array<NodeInput>, w: Window)
    ensures fresh(nis)
    ensures nis[..] == Map(items, retriever)
    ensures w == WindowOf(Map(items, retriever))
  {
    ghost var inputs := Map(items, retriever);
    nis := new NodeInput[|items|];
    w := Window(ZeroTime, ZeroTime);
    for i := 0 to |items|
      invariant nis[..i] == inputs[..i]
      invariant w == WindowOf(inputs[..i])
    {
      nis[i] := retriever(items[i]);
      assert inputs[..i + 1][..i] == inputs[..i];
      w := WidenWindow(w, nis[i]);
    }
    assert nis[..] == nis[..|items|];
    assert inputs[..|items|] == inputs;
  }

  /** The root of a built flamegraph exists exactly when some input has no parent id. */
  lemma BuildNeedsRoot(rank: string -> nat, inputs: seq<NodeInput>, sorted: seq<NodeInput>, w: Window)
    requires Ordering.IsOrderingOf(sorted, inputs, LaterStart) && Acyclic(sorted, rank)
    ensures Assemble(rank, sorted, w).Success? <==> exists j :: 0 <= j < |inputs| && inputs[j].parentId == ""
  {
    if exists j :: 0 <= j < |inputs| && inputs[j].parentId == "" {
      var j :| 0 <= j < |inputs| && inputs[j].parentId == "";
      assert inputs[j] in multiset(sorted);
      var k :| 0 <= k < |sorted| && sorted[k] == inputs[j];
    }
    if exists k :: 0 <= k < |sorted| && sorted[k].parentId == "" {
      var k :| 0 <= k < |sorted| && sorted[k].parentId == "";
      assert sorted[k] in multiset(inputs);
      var j :| 0 <= j < |inputs| && inputs[j] == sorted[k];
    }
  }
}

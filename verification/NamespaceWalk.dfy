/** The stackless walk `uacpi_namespace_do_for_each_child` of src/kern/acpi/namespace.c
    over linked nodes, and the recursive walk it is meant to be. */
module NamespaceWalk {
  import opened NamespaceTree

  /** One callback invocation. */
  datatype Call = Call(node: Node, ascending: bool, depth: nat)

  datatype Decision = Continue | Break | NextPeer | Unknown

  datatype Status = Ok | InvalidArgument

  /** The arguments of a walk. What a callback decides may depend on all calls so far,
      the last of them being its own. */
  datatype Walk = Walk(
    descending: bool, // whether there is a descending callback
    ascending: bool,
    kinds: set<nat>,  // the type mask
    maxDepth: nat,
    permanentOnly: bool,
    decide: seq<Call> -> Decision)

  /** The calls made, and whether the walk goes on. */
  datatype Outcome = Outcome(calls: seq<Call>, state: Progress)

  datatype Progress = Going | Broken | Invalid

  // The recursive walk

  predicate Skipped(w: Walk, n: Node) { w.permanentOnly && n.temporary }

  /** The descending visit of a node and whether its children are next. */
  function Down(w: Walk, n: Node, depth: nat, o: Outcome): (Outcome, bool) {
    if n.kind !in w.kinds then (o, true)
    else if Skipped(w, n) then (o, false)
    else if !w.descending then (o, true)
    else
      var calls := o.calls + [Call(n, false, depth)];
      match w.decide(calls)
      case Continue => (Outcome(calls, Going), true)
      case NextPeer => (Outcome(calls, Going), false)
      case Break => (Outcome(calls, Broken), false)
      case Unknown => (Outcome(calls, Invalid), false)
  }

  /** The ascending visit of a node; of its decision only a break matters. */
  function Up(w: Walk, n: Node, depth: nat, o: Outcome): Outcome {
    if n.kind !in w.kinds || Skipped(w, n) || !w.ascending then o
    else
      var calls := o.calls + [Call(n, true, depth)];
      Outcome(calls, if w.decide(calls).Break? then Broken else Going)
  }

  /** Descending visit, then the children unless pruned or too deep, then ascending visit. */
  ghost function VisitTree(w: Walk, t: Tree, depth: nat, o: Outcome): Outcome
    decreases t, 1
  {
    if !o.state.Going? then o
    else
      var (down, enter) := Down(w, t.node, depth, o);
      var below := if enter && depth != w.maxDepth then VisitList(w, t.children, depth + 1, down) else down;
      if below.state.Going? then Up(w, t.node, depth, below) else below
  }

  ghost function VisitList(w: Walk, ts: seq<Tree>, depth: nat, o: Outcome): Outcome
    decreases ts, 0
  {
    if ts == [] then o else VisitList(w, ts[1..], depth, VisitTree(w, ts[0], depth, o))
  }

  // What the recursive walk never does

  /** The calls before have let the walk into the children of n, at this depth: nothing
      looks at nodes of other types, a temporary node to skip is never entered, and a
      descending callback has to have said so. */
  ghost predicate LetIn(w: Walk, n: Node, depth: nat, before: seq<Call>) {
    n.kind in w.kinds ==>
      && !Skipped(w, n)
      && (w.descending ==>
            exists j: nat {:trigger before[j]} ::
              j < |before| && before[j] == Call(n, false, depth) && w.decide(before[..j + 1]).Continue?)
  }

  /** The node is in the trees, that many levels down, and the walk was let into every
      node on the way to it. */
  ghost predicate Open(w: Walk, ts: seq<Tree>, n: Node, depth: nat, level: nat, before: seq<Call>)
    decreases level
  {
    exists i: nat {:trigger ts[i]} :: i < |ts| &&
      if level == 0 then ts[i].node == n
      else LetIn(w, ts[i].node, depth, before) && Open(w, ts[i].children, n, depth + 1, level - 1, before)
  }

  /** A call may be made after those before: there is such a callback, the node has the
      right type, is not a temporary one to skip, is not too deep and not pruned by a
      decision about a node above it, and the depth told is its real depth. */
  ghost predicate Legal(w: Walk, ts: seq<Tree>, depth: nat, c: Call, before: seq<Call>) {
    && (if c.ascending then w.ascending else w.descending)
    && c.node.kind in w.kinds && !Skipped(w, c.node)
    && depth <= c.depth <= w.maxDepth && Open(w, ts, c.node, depth, c.depth - depth, before)
  }

  ghost predicate Extends(w: Walk, ts: seq<Tree>, depth: nat, before: seq<Call>, after: seq<Call>) {
    before <= after && forall k | |before| <= k < |after| :: Legal(w, ts, depth, after[k], after[..k])
  }

  lemma LegalAbove(w: Walk, t: Tree, depth: nat, c: Call, before: seq<Call>)
    requires LetIn(w, t.node, depth, before) && Legal(w, t.children, depth + 1, c, before)
    ensures Legal(w, [t], depth, c, before)
  {
    hide LetIn;
    assert [t][0] == t && Open(w, t.children, c.node, depth + 1, c.depth - depth - 1, before);
  }

  /** Where the children are entered, the calls so far have let the walk in, and so have
      all that follow. */
  lemma DownLetsIn(w: Walk, n: Node, depth: nat, o: Outcome, calls: seq<Call>)
    requires Down(w, n, depth, o).1 && Down(w, n, depth, o).0.calls <= calls
    ensures LetIn(w, n, depth, calls)
  {
    if n.kind in w.kinds && w.descending {
      var j := |o.calls|;
      assert calls[..j + 1] == o.calls + [Call(n, false, depth)];
      assert calls[j] == Call(n, false, depth);
    }
  }

  /** The calls for a node itself. */
  lemma OwnCallsLegal(w: Walk, t: Tree, depth: nat, o: Outcome)
    requires 1 <= depth <= w.maxDepth
    ensures Extends(w, [t], depth, o.calls, Down(w, t.node, depth, o).0.calls)
    ensures Extends(w, [t], depth, o.calls, Up(w, t.node, depth, o).calls)
  {
    assert [t][0].node == t.node;
    assert forall before :: Open(w, [t], t.node, depth, 0, before);
    hide Open;
  }

  lemma ExtendsBoth(w: Walk, ts: seq<Tree>, depth: nat, a: seq<Call>, b: seq<Call>, c: seq<Call>)
    requires Extends(w, ts, depth, a, b) && Extends(w, ts, depth, b, c)
    ensures Extends(w, ts, depth, a, c)
  {
    hide Legal;
    forall k | |a| <= k < |c|
      ensures Legal(w, ts, depth, c[k], c[..k])
    {
      assert k < |b| ==> b[k] == c[k] && b[..k] == c[..k];
    }
  }

  lemma {:induction false} TreeCallsLegal(w: Walk, t: Tree, depth: nat, o: Outcome)
    requires 1 <= depth <= w.maxDepth
    ensures Extends(w, [t], depth, o.calls, VisitTree(w, t, depth, o).calls)
    decreases t, 1
  {
    hide Down, Up, Legal, LetIn;
    if o.state.Going? {
      var (down, enter) := Down(w, t.node, depth, o);
      OwnCallsLegal(w, t, depth, o);
      var below := down;
      if enter && depth != w.maxDepth {
        ListCallsLegal(w, t.children, depth + 1, down);
        below := VisitList(w, t.children, depth + 1, down);
        forall k | |down.calls| <= k < |below.calls|
          ensures Legal(w, [t], depth, below.calls[k], below.calls[..k])
        {
          DownLetsIn(w, t.node, depth, o, below.calls[..k]);
          LegalAbove(w, t, depth, below.calls[k], below.calls[..k]);
        }
        ExtendsBoth(w, [t], depth, o.calls, down.calls, below.calls);
      }
      OwnCallsLegal(w, t, depth, below);
      ExtendsBoth(w, [t], depth, o.calls, below.calls, Up(w, t.node, depth, below).calls);
    }
  }

  /** Every call of the walk is legal. */
  lemma {:induction false} ListCallsLegal(w: Walk, ts: seq<Tree>, depth: nat, o: Outcome)
    requires 1 <= depth <= w.maxDepth
    ensures Extends(w, ts, depth, o.calls, VisitList(w, ts, depth, o).calls)
    decreases ts, 0
  {
    hide VisitTree, Legal;
    if ts != [] {
      var first, last := VisitTree(w, ts[0], depth, o), VisitList(w, ts, depth, o);
      TreeCallsLegal(w, ts[0], depth, o);
      ListCallsLegal(w, ts[1..], depth, first);
      MoreTrees(w, [ts[0]], ts, depth, o.calls, first.calls);
      MoreTrees(w, ts[1..], ts, depth, first.calls, last.calls);
      ExtendsBoth(w, ts, depth, o.calls, first.calls, last.calls);
    }
  }

  lemma MoreTrees(w: Walk, some: seq<Tree>, ts: seq<Tree>, depth: nat, before: seq<Call>, after: seq<Call>)
    requires Extends(w, some, depth, before, after) && forall t | t in some :: t in ts
    ensures Extends(w, ts, depth, before, after)
  {
    hide Open;
    forall k | |before| <= k < |after|
      ensures Legal(w, ts, depth, after[k], after[..k])
    {
      OpenWithin(w, some, ts, after[k].node, depth, after[k].depth - depth, after[..k]);
    }
  }

  lemma OpenWithin(w: Walk, some: seq<Tree>, ts: seq<Tree>, n: Node, depth: nat, level: nat, before: seq<Call>)
    requires Open(w, some, n, depth, level, before) && forall t | t in some :: t in ts
    ensures Open(w, ts, n, depth, level, before)
  {
    hide LetIn;
    var i: nat :| i < |some| &&
      if level == 0 then some[i].node == n
      else LetIn(w, some[i].node, depth, before) && Open(w, some[i].children, n, depth + 1, level - 1, before);
    assert some[i] in ts;
    var j: nat :| j < |ts| && ts[j] == some[i];
  }

  // What is left to do in the middle of a walk

  /** Where the walk is on one level: in a tree, with later siblings. */
  datatype Frame = Frame(tree: Tree, rest: seq<Tree>)

  /** The rest of the walk once the innermost tree is finished. */
  ghost function Finish(w: Walk, stack: seq<Frame>, o: Outcome): Outcome
    requires stack != []
    decreases |stack|
  {
    var level := VisitList(w, stack[|stack| - 1].rest, |stack|, o);
    if |stack| == 1 || !level.state.Going? then level
    else
      var parents := stack[..|stack| - 1];
      Finish(w, parents, Up(w, parents[|parents| - 1].tree.node, |parents|, level))
  }

  lemma {:induction false} StoppedList(w: Walk, ts: seq<Tree>, depth: nat, o: Outcome)
    requires !o.state.Going?
    ensures VisitList(w, ts, depth, o) == o
  {
    if ts != [] {
      StoppedList(w, ts[1..], depth, o);
    }
  }

  lemma StoppedFinish(w: Walk, stack: seq<Frame>, o: Outcome)
    requires stack != [] && !o.state.Going?
    ensures Finish(w, stack, o) == o
  {
    StoppedList(w, stack[|stack| - 1].rest, |stack|, o);
  }

  // Termination: every node of what is left is still visited at most twice

  ghost function Pending(stack: seq<Frame>): nat {
    if stack == [] then 0
    else 1 + ListSize(stack[|stack| - 1].rest) + Pending(stack[..|stack| - 1])
  }

  // The stack the links stand for

  /** The frame is one child of the parent together with the later ones. */
  ghost predicate IsChild(parent: Tree, f: Frame) {
    exists i: nat {:trigger parent.children[i]} :: i < |parent.children|
      && f == Frame(parent.children[i], parent.children[i + 1..])
  }

  ghost function ParentOf(root: Tree, stack: seq<Frame>, k: nat): Tree
    requires k < |stack|
  {
    if k == 0 then root else stack[k - 1].tree
  }

  ghost predicate OnTrack(root: Tree, stack: seq<Frame>) {
    && stack != []
    && forall k: nat {:trigger stack[k]} | k < |stack| ::
         ParentOf(root, stack, k) in Sub(root) && IsChild(ParentOf(root, stack, k), stack[k])
  }

  /** What the pointers of the innermost node say. */
  lemma TrackLinks(root: Tree, stack: seq<Frame>)
    requires Linked(root) && OnTrack(root, stack)
    ensures var top := stack[|stack| - 1];
            && top.tree in Sub(root) && top.tree.node in Nodes(root)
            && top.tree.node.parent == (if |stack| == 1 then root.node else stack[|stack| - 2].tree.node)
            && top.tree.node.next == NodeAt(top.rest, 0)
            && top.tree.node.child == NodeAt(top.tree.children, 0)
  {
    var top := stack[|stack| - 1];
    var parent := ParentOf(root, stack, |stack| - 1);
    ChildInSub(root, parent);
    var i: nat :| i < |parent.children| && top == Frame(parent.children[i], parent.children[i + 1..]);
    assert parent.children[i] in Sub(root);
    assert Chained(parent);
  }

  ghost function Entered(stack: seq<Frame>): seq<Frame>
    requires stack != [] && stack[|stack| - 1].tree.children != []
  {
    var children := stack[|stack| - 1].tree.children;
    stack + [Frame(children[0], children[1..])]
  }

  ghost function Advanced(stack: seq<Frame>): seq<Frame>
    requires stack != [] && stack[|stack| - 1].rest != []
  {
    var rest := stack[|stack| - 1].rest;
    stack[|stack| - 1 := Frame(rest[0], rest[1..])]
  }

  lemma FirstChild(t: Tree)
    requires t.children != []
    ensures IsChild(t, Frame(t.children[0], t.children[1..]))
  {
    assert t.children[0] == t.children[0];
  }

  lemma NextChild(parent: Tree, f: Frame)
    requires IsChild(parent, f) && f.rest != []
    ensures IsChild(parent, Frame(f.rest[0], f.rest[1..]))
  {
    var i: nat :| i < |parent.children| && f == Frame(parent.children[i], parent.children[i + 1..]);
    assert f.rest[0] == parent.children[i + 1] && f.rest[1..] == parent.children[i + 2..];
  }

  lemma EnterTrack(root: Tree, stack: seq<Frame>)
    requires OnTrack(root, stack) && stack[|stack| - 1].tree.children != []
    requires stack[|stack| - 1].tree in Sub(root)
    ensures OnTrack(root, Entered(stack))
  {
    hide Sub, IsChild;
    FirstChild(stack[|stack| - 1].tree);
    var stack' := Entered(stack);
    forall k: nat | k < |stack'|
      ensures ParentOf(root, stack', k) in Sub(root) && IsChild(ParentOf(root, stack', k), stack'[k])
    {
      if k < |stack| {
        assert stack'[k] == stack[k] && ParentOf(root, stack', k) == ParentOf(root, stack, k);
      }
    }
  }

  lemma AdvanceTrack(root: Tree, stack: seq<Frame>)
    requires OnTrack(root, stack) && stack[|stack| - 1].rest != []
    ensures OnTrack(root, Advanced(stack))
  {
    hide Sub, IsChild;
    var stack' := Advanced(stack);
    forall k: nat | k < |stack'|
      ensures ParentOf(root, stack', k) in Sub(root) && IsChild(ParentOf(root, stack', k), stack'[k])
    {
      assert ParentOf(root, stack', k) == ParentOf(root, stack, k);
      if k == |stack| - 1 {
        NextChild(ParentOf(root, stack, k), stack[k]);
      } else {
        assert stack'[k] == stack[k];
      }
    }
  }

  lemma LeaveTrack(root: Tree, stack: seq<Frame>)
    requires OnTrack(root, stack) && |stack| > 1
    ensures OnTrack(root, stack[..|stack| - 1])
  {
    hide Sub, IsChild;
    var stack' := stack[..|stack| - 1];
    forall k: nat | k < |stack'|
      ensures ParentOf(root, stack', k) in Sub(root) && IsChild(ParentOf(root, stack', k), stack'[k])
    {
      assert stack'[k] == stack[k] && ParentOf(root, stack', k) == ParentOf(root, stack, k);
    }
  }

  lemma StartTrack(w: Walk, root: Tree)
    requires root.children != []
    ensures var stack := [Frame(root.children[0], root.children[1..])];
            && OnTrack(root, stack)
            && VisitList(w, root.children, 1, Outcome([], Going)) == Descending(w, stack, Outcome([], Going))
  {
    FirstChild(root);
    assert root in Sub(root);
    var stack := [Frame(root.children[0], root.children[1..])];
    assert ParentOf(root, stack, 0) == root && IsChild(root, stack[0]);
  }

  /** The links of the root, and the walk over no children. */
  lemma RootLinks(w: Walk, root: Tree)
    requires Linked(root)
    ensures Chained(root) && root.node.child == NodeAt(root.children, 0)
    ensures root.children == [] ==> VisitList(w, root.children, 1, Outcome([], Going)) == Outcome([], Going)
  {
    assert root in Sub(root);
  }

  // The moves of the loop leave the rest of the recursive walk as it is

  ghost function Descending(w: Walk, stack: seq<Frame>, o: Outcome): Outcome
    requires stack != []
  {
    Finish(w, stack, VisitTree(w, stack[|stack| - 1].tree, |stack|, o))
  }

  lemma EnterMove(w: Walk, stack: seq<Frame>, o: Outcome, down: Outcome)
    requires stack != [] && stack[|stack| - 1].tree.children != [] && o.state.Going? && |stack| != w.maxDepth
    requires Down(w, stack[|stack| - 1].tree.node, |stack|, o) == (down, true) && down.state.Going?
    ensures Descending(w, stack, o) == Descending(w, Entered(stack), down)
    ensures var cs := stack[|stack| - 1].tree.children;
            Pending(Entered(stack)) + Size(cs[0]) < Pending(stack) + Size(stack[|stack| - 1].tree)
  {
    hide Down, Up;
    var stack' := Entered(stack);
    assert stack'[..|stack'| - 1] == stack;
    var t := stack[|stack| - 1].tree;
    var below := VisitList(w, t.children, |stack| + 1, down);
    assert below == VisitList(w, t.children[1..], |stack| + 1, VisitTree(w, t.children[0], |stack| + 1, down));
    if !below.state.Going? {
      StoppedFinish(w, stack, below);
    }
  }

  lemma TurnMove(w: Walk, stack: seq<Frame>, o: Outcome, down: Outcome, enter: bool)
    requires stack != [] && o.state.Going? && down.state.Going?
    requires Down(w, stack[|stack| - 1].tree.node, |stack|, o) == (down, enter)
    requires !enter || |stack| == w.maxDepth || stack[|stack| - 1].tree.children == []
    ensures Descending(w, stack, o) == Finish(w, stack, Up(w, stack[|stack| - 1].tree.node, |stack|, down))
  {
    hide Up;
    var t := stack[|stack| - 1].tree;
    assert t.children == [] ==> VisitList(w, t.children, |stack| + 1, down) == down;
  }

  lemma StopMove(w: Walk, stack: seq<Frame>, o: Outcome, down: Outcome)
    requires stack != [] && o.state.Going? && !down.state.Going?
    requires Down(w, stack[|stack| - 1].tree.node, |stack|, o) == (down, false)
    ensures Descending(w, stack, o) == down
  {
    hide Down, Up;
    StoppedFinish(w, stack, down);
  }

  lemma AdvanceMove(w: Walk, stack: seq<Frame>, o: Outcome)
    requires stack != [] && stack[|stack| - 1].rest != []
    ensures Finish(w, stack, o) == Descending(w, Advanced(stack), o)
    ensures Pending(Advanced(stack)) + Size(stack[|stack| - 1].rest[0]) == Pending(stack)
  {
    hide VisitTree;
    assert Advanced(stack)[..|stack| - 1] == stack[..|stack| - 1];
  }

  lemma LeaveMove(w: Walk, stack: seq<Frame>, o: Outcome)
    requires stack != [] && stack[|stack| - 1].rest == [] && o.state.Going?
    ensures |stack| == 1 ==> Finish(w, stack, o) == o
    ensures |stack| > 1 ==>
              Finish(w, stack, o)
              == Finish(w, stack[..|stack| - 1], Up(w, stack[|stack| - 2].tree.node, |stack| - 1, o))
    ensures Pending(stack[..|stack| - 1]) < Pending(stack)
  {
  }

  /** The first half of the loop body: type mask, temporary nodes, the callback. */
  function Visit(w: Walk, node: Node, walkingUp: bool, depth: nat, before: seq<Call>): (r: (seq<Call>, Decision))
    ensures walkingUp ==>
              Up(w, node, depth, Outcome(before, Going)) == Outcome(r.0, if r.1.Break? then Broken else Going)
    ensures !walkingUp ==>
              Down(w, node, depth, Outcome(before, Going))
              == (Outcome(r.0, if r.1.Break? then Broken else if r.1.Unknown? then Invalid else Going), r.1.Continue?)
  {
    if node.kind !in w.kinds then (before, Continue)
    else if w.permanentOnly && node.temporary then (before, NextPeer)
    else if if walkingUp then w.ascending else w.descending then
      var calls := before + [Call(node, walkingUp, depth)];
      (calls, w.decide(calls))
    else (before, Continue)
  }

  /** The walk with its cursor, depth counter and direction flag makes exactly the calls
      of the recursive walk, in the same order and with the same depths. */
  method DoForEachChild(w: Walk, start: Node, ghost root: Tree) returns (calls: seq<Call>, status: Status)
    requires Linked(root) && root.node == start
    ensures (!w.descending && !w.ascending) || w.maxDepth == 0 ==> calls == [] && status == InvalidArgument
    ensures (w.descending || w.ascending) && w.maxDepth != 0 ==>
              var o := VisitList(w, root.children, 1, Outcome([], Going));
              calls == o.calls && status == if o.state.Invalid? then InvalidArgument else Ok
  {
    hide VisitTree, VisitList, Finish, Descending, Pending, Size, OnTrack, Sub, Linked, Up, Down, Visit;
    calls := [];
    if !w.descending && !w.ascending {
      return [], InvalidArgument;
    }
    if w.maxDepth == 0 {
      return [], InvalidArgument;
    }
    RootLinks(w, root);
    if start.child == null {
      return [], Ok;
    }
    var node := start.child;
    ghost var stack := [Frame(root.children[0], root.children[1..])];
    StartTrack(w, root);
    var depth, walkingUp := 1, false;
    ghost var goal := VisitList(w, root.children, 1, Outcome([], Going));
    while depth != 0
      invariant Linked(root)
      invariant depth == 0 ==> goal == Outcome(calls, Going)
      invariant depth != 0 ==> OnTrack(root, stack) && depth == |stack| && node == stack[|stack| - 1].tree.node
      invariant depth != 0 && walkingUp ==>
                  goal == Finish(w, stack, Up(w, node, depth, Outcome(calls, Going)))
      invariant depth != 0 && !walkingUp ==>
                  goal == Descending(w, stack, Outcome(calls, Going))
      decreases if depth == 0 then 0 else Pending(stack) + if walkingUp then 0 else Size(stack[|stack| - 1].tree) - 1
    {
      TrackLinks(root, stack);
      ghost var top := stack[|stack| - 1];
      ghost var before := Outcome(calls, Going);
      var (made, decision) := Visit(w, node, walkingUp, depth, calls);
      calls := made;
      if decision == Break {
        if walkingUp {
          StoppedFinish(w, stack, Outcome(calls, Broken));
        } else {
          StopMove(w, stack, before, Outcome(calls, Broken));
        }
        return calls, Ok;
      }
      if walkingUp {
        if node.next != null {
          node := node.next;
          AdvanceTrack(root, stack);
          AdvanceMove(w, stack, Outcome(calls, Going));
          stack := Advanced(stack);
          walkingUp := false;
        } else {
          depth := depth - 1;
          node := node.parent;
          LeaveMove(w, stack, Outcome(calls, Going));
          if depth != 0 {
            LeaveTrack(root, stack);
          }
          stack := stack[..|stack| - 1];
        }
      } else {
        match decision {
          case Continue =>
            if depth != w.maxDepth && node.child != null {
              node := node.child;
              depth := depth + 1;
              EnterTrack(root, stack);
              EnterMove(w, stack, before, Outcome(calls, Going));
              stack := Entered(stack);
            } else {
              TurnMove(w, stack, before, Outcome(calls, Going), true);
              walkingUp := true;
            }
          case NextPeer =>
            TurnMove(w, stack, before, Outcome(calls, Going), false);
            walkingUp := true;
          case _ =>
            StopMove(w, stack, before, Outcome(calls, Invalid));
            return calls, InvalidArgument;
        }
      }
    }
    return calls, Ok;
  }
}

/** Which calls the namespace walk makes, told without the walk: those on the tour around
    the whole tree that are legal after the calls made before them, up to the first one
    that stops it. */
module NamespaceTour {
  import opened NamespaceTree
  import opened NamespaceWalk

  // The tour around a tree, every node on the way down and on the way up

  ghost function TourOf(t: Tree, depth: nat): seq<Call>
    decreases t, 1
  {
    [Call(t.node, false, depth)] + Tour(t.children, depth + 1) + [Call(t.node, true, depth)]
  }

  ghost function Tour(ts: seq<Tree>, depth: nat): seq<Call>
    decreases ts, 0
  {
    if ts == [] then [] else TourOf(ts[0], depth) + Tour(ts[1..], depth)
  }

  /** The last call ends the walk: a break, or an unknown decision on the way down. */
  predicate Stopped(w: Walk, calls: seq<Call>) {
    calls != [] && (w.decide(calls).Break? || (w.decide(calls).Unknown? && !calls[|calls| - 1].ascending))
  }

  /** The calls made along a tour through these trees. */
  ghost function Made(w: Walk, ts: seq<Tree>, depth: nat, tour: seq<Call>, before: seq<Call>): seq<Call> {
    if tour == [] || Stopped(w, before) then before
    else Made(w, ts, depth, tour[1..], if Legal(w, ts, depth, tour[0], before) then before + [tour[0]] else before)
  }

  // Every node is in one place

  ghost function ListNodes(ts: seq<Tree>): set<Node> { set s | s in SubList(ts) :: s.node }

  ghost predicate OnceEach(ts: seq<Tree>)
    decreases ts
  {
    ts == [] || (ts[0].node !in ListNodes(ts[0].children) && OnceEach(ts[0].children) &&
                 Nodes(ts[0]) !! ListNodes(ts[1..]) && OnceEach(ts[1..]))
  }

  ghost predicate Fresh(before: seq<Call>, nodes: set<Node>) { forall c | c in before :: c.node !in nodes }

  lemma NodesOf(ts: seq<Tree>)
    ensures ts != [] ==> ListNodes(ts) == Nodes(ts[0]) + ListNodes(ts[1..])
    ensures ts != [] ==> Nodes(ts[0]) == {ts[0].node} + ListNodes(ts[0].children)
  {
  }

  lemma {:induction false} TourNodes(ts: seq<Tree>, depth: nat)
    ensures forall c | c in Tour(ts, depth) :: c.node in ListNodes(ts) && depth <= c.depth
    decreases ts
  {
    if ts != [] {
      TourNodes(ts[0].children, depth + 1);
      TourNodes(ts[1..], depth);
      NodesOf(ts);
    }
  }

  lemma {:induction false} OpenHasNode(w: Walk, ts: seq<Tree>, n: Node, depth: nat, level: nat, before: seq<Call>)
    requires Open(w, ts, n, depth, level, before)
    ensures n in ListNodes(ts)
    decreases level
  {
    hide LetIn;
    var i: nat :| i < |ts| &&
      if level == 0 then ts[i].node == n
      else LetIn(w, ts[i].node, depth, before) && Open(w, ts[i].children, n, depth + 1, level - 1, before);
    SubListHas(ts, i);
    assert ts[i] in Sub(ts[i]);
    if level > 0 {
      OpenHasNode(w, ts[i].children, n, depth + 1, level - 1, before);
      assert SubList(ts[i].children) <= Sub(ts[i]);
    }
  }

  // Legality in a list is that in the one tree that has the node

  lemma OpenInOne(w: Walk, ts: seq<Tree>, n: Node, depth: nat, level: nat, before: seq<Call>)
    requires ts != []
    ensures n !in ListNodes(ts[1..]) ==>
              (Open(w, ts, n, depth, level, before) <==> Open(w, [ts[0]], n, depth, level, before))
    ensures n !in Nodes(ts[0]) ==>
              (Open(w, ts, n, depth, level, before) <==> Open(w, ts[1..], n, depth, level, before))
  {
    NodesOf([ts[0]]);
    assert [ts[0]][1..] == [] && ListNodes([]) == {};
    if Open(w, [ts[0]], n, depth, level, before) {
      OpenWithin(w, [ts[0]], ts, n, depth, level, before);
      OpenHasNode(w, [ts[0]], n, depth, level, before);
    }
    if Open(w, ts[1..], n, depth, level, before) {
      OpenWithin(w, ts[1..], ts, n, depth, level, before);
      OpenHasNode(w, ts[1..], n, depth, level, before);
    }
    if Open(w, ts, n, depth, level, before) {
      OpenSomewhere(w, ts, n, depth, level, before);
    }
  }

  lemma OpenSomewhere(w: Walk, ts: seq<Tree>, n: Node, depth: nat, level: nat, before: seq<Call>)
    requires Open(w, ts, n, depth, level, before)
    ensures ts != [] &&
            (Open(w, [ts[0]], n, depth, level, before) || Open(w, ts[1..], n, depth, level, before))
  {
    hide LetIn;
    var i: nat :| i < |ts| &&
      if level == 0 then ts[i].node == n
      else LetIn(w, ts[i].node, depth, before) && Open(w, ts[i].children, n, depth + 1, level - 1, before);
    if i == 0 {
      assert [ts[0]][0] == ts[i];
    } else {
      assert ts[1..][i - 1] == ts[i];
    }
  }

  /** In a single tree: the root is open, and what is below it if the walk was let in. */
  lemma OpenBelow(w: Walk, t: Tree, n: Node, depth: nat, level: nat, before: seq<Call>)
    ensures Open(w, [t], n, depth, level, before) <==>
            if level == 0 then n == t.node
            else LetIn(w, t.node, depth, before) && Open(w, t.children, n, depth + 1, level - 1, before)
  {
    hide LetIn;
    assert [t][0] == t;
  }

  // Tours in pieces

  lemma {:induction false} MadeInTwo(w: Walk, ts: seq<Tree>, depth: nat, a: seq<Call>, b: seq<Call>, before: seq<Call>)
    ensures Made(w, ts, depth, a + b, before) == Made(w, ts, depth, b, Made(w, ts, depth, a, before))
    decreases |a|
  {
    hide Legal;
    if a == [] {
      assert a + b == b;
    } else if !Stopped(w, before) {
      assert (a + b)[1..] == a[1..] + b;
      MadeInTwo(w, ts, depth, a[1..], b, if Legal(w, ts, depth, a[0], before) then before + [a[0]] else before);
    }
  }

  lemma {:induction false} MadeExtends(w: Walk, ts: seq<Tree>, depth: nat, tour: seq<Call>, before: seq<Call>)
    ensures before <= Made(w, ts, depth, tour, before)
    ensures forall c | c in Made(w, ts, depth, tour, before) :: c in before || c in tour
    decreases |tour|
  {
    hide Legal;
    if tour != [] && !Stopped(w, before) {
      var next := if Legal(w, ts, depth, tour[0], before) then before + [tour[0]] else before;
      MadeExtends(w, ts, depth, tour[1..], next);
    }
  }

  /** Where the same calls are legal in both lists of trees, the same ones are made. */
  lemma {:induction false} MadeSame(w: Walk, ts: seq<Tree>, depth: nat, us: seq<Tree>, depth': nat, tour: seq<Call>,
                                    base: seq<Call>, before: seq<Call>)
    requires base <= before
    requires forall c, calls | c in tour && base <= calls ::
               Legal(w, ts, depth, c, calls) == Legal(w, us, depth', c, calls)
    ensures Made(w, ts, depth, tour, before) == Made(w, us, depth', tour, before)
    decreases |tour|
  {
    hide Legal;
    if tour != [] && !Stopped(w, before) {
      assert tour[0] in tour;
      MadeSame(w, ts, depth, us, depth', tour[1..], base,
               if Legal(w, ts, depth, tour[0], before) then before + [tour[0]] else before);
    }
  }

  lemma {:induction false} MadeNothing(w: Walk, ts: seq<Tree>, depth: nat, tour: seq<Call>, before: seq<Call>)
    requires forall c | c in tour :: !Legal(w, ts, depth, c, before)
    ensures Made(w, ts, depth, tour, before) == before
    decreases |tour|
  {
    hide Legal;
    if tour != [] && !Stopped(w, before) {
      assert tour[0] in tour;
      MadeNothing(w, ts, depth, tour[1..], before);
    }
  }

  lemma MadeOne(w: Walk, ts: seq<Tree>, depth: nat, c: Call, before: seq<Call>)
    ensures Made(w, ts, depth, [c], before)
         == if !Stopped(w, before) && Legal(w, ts, depth, c, before) then before + [c] else before
  {
    hide Legal;
    var next := if Legal(w, ts, depth, c, before) then before + [c] else before;
    assert Made(w, ts, depth, [], next) == next;
  }

  lemma MadeStopped(w: Walk, ts: seq<Tree>, depth: nat, tour: seq<Call>, before: seq<Call>)
    requires Stopped(w, before)
    ensures Made(w, ts, depth, tour, before) == before
  {
  }

  // The walk makes these calls

  /** The calls tell the state. */
  predicate Tells(w: Walk, o: Outcome) {
    o.state == if !Stopped(w, o.calls) then Going else if w.decide(o.calls).Break? then Broken else Invalid
  }

  lemma OwnLegal(w: Walk, t: Tree, depth: nat, ascending: bool, before: seq<Call>)
    requires 1 <= depth <= w.maxDepth
    ensures Legal(w, [t], depth, Call(t.node, ascending, depth), before)
            <==> (if ascending then w.ascending else w.descending) && t.node.kind in w.kinds && !Skipped(w, t.node)
  {
    OpenBelow(w, t, t.node, depth, 0, before);
  }

  lemma DownMakes(w: Walk, t: Tree, depth: nat, o: Outcome)
    requires 1 <= depth <= w.maxDepth && o.state.Going? && Tells(w, o)
    ensures Made(w, [t], depth, [Call(t.node, false, depth)], o.calls) == Down(w, t.node, depth, o).0.calls
    ensures Tells(w, Down(w, t.node, depth, o).0)
  {
    MadeOne(w, [t], depth, Call(t.node, false, depth), o.calls);
    OwnLegal(w, t, depth, false, o.calls);
  }

  lemma UpMakes(w: Walk, t: Tree, depth: nat, o: Outcome)
    requires 1 <= depth <= w.maxDepth && o.state.Going? && Tells(w, o)
    ensures Made(w, [t], depth, [Call(t.node, true, depth)], o.calls) == Up(w, t.node, depth, o).calls
    ensures Tells(w, Up(w, t.node, depth, o))
  {
    MadeOne(w, [t], depth, Call(t.node, true, depth), o.calls);
    OwnLegal(w, t, depth, true, o.calls);
  }

  /** A node that is not entered has not let the walk in. */
  lemma NotLetIn(w: Walk, n: Node, depth: nat, o: Outcome)
    requires !Down(w, n, depth, o).1 && o.state.Going? && Fresh(o.calls, {n})
    requires Down(w, n, depth, o).0.state.Going?
    ensures !LetIn(w, n, depth, Down(w, n, depth, o).0.calls)
  {
    var calls := Down(w, n, depth, o).0.calls;
    assert forall i: nat | i < |o.calls| :: o.calls[i] in o.calls;
    assert forall i: nat | i < |o.calls| :: calls[i] == o.calls[i];
    assert calls[..|calls|] == calls;
  }

  lemma LegalBelow(w: Walk, t: Tree, depth: nat, c: Call, before: seq<Call>)
    requires depth < c.depth
    ensures Legal(w, [t], depth, c, before)
            <==> LetIn(w, t.node, depth, before) && Legal(w, t.children, depth + 1, c, before)
  {
    OpenBelow(w, t, c.node, depth, c.depth - depth, before);
    hide LetIn, Open;
  }

  /** The part of the tour below a node. */
  lemma BelowMakes(w: Walk, t: Tree, depth: nat, o: Outcome, down: Outcome, enter: bool)
    requires 1 <= depth <= w.maxDepth && o.state.Going? && Fresh(o.calls, {t.node})
    requires Down(w, t.node, depth, o) == (down, enter) && down.state.Going?
    ensures var tour := Tour(t.children, depth + 1);
            Made(w, [t], depth, tour, down.calls)
            == if enter && depth != w.maxDepth then Made(w, t.children, depth + 1, tour, down.calls) else down.calls
  {
    hide Legal, LetIn, Down, Tour;
    var tour := Tour(t.children, depth + 1);
    TourNodes(t.children, depth + 1);
    forall c, calls | c in tour
      ensures Legal(w, [t], depth, c, calls)
              <==> LetIn(w, t.node, depth, calls) && Legal(w, t.children, depth + 1, c, calls)
    {
      LegalBelow(w, t, depth, c, calls);
    }
    if !enter {
      NotLetIn(w, t.node, depth, o);
      MadeNothing(w, [t], depth, tour, down.calls);
    } else if depth == w.maxDepth {
      forall c | c in tour
        ensures !Legal(w, [t], depth, c, down.calls)
      {
        TooDeep(w, [t], depth, c, down.calls);
      }
      MadeNothing(w, [t], depth, tour, down.calls);
    } else {
      forall calls | down.calls <= calls
        ensures LetIn(w, t.node, depth, calls)
      {
        DownLetsIn(w, t.node, depth, o, calls);
      }
      MadeSame(w, [t], depth, t.children, depth + 1, tour, down.calls, down.calls);
    }
  }

  lemma TooDeep(w: Walk, ts: seq<Tree>, depth: nat, c: Call, before: seq<Call>)
    requires w.maxDepth < c.depth
    ensures !Legal(w, ts, depth, c, before)
  {
  }

  lemma {:induction false} TreeMakes(w: Walk, t: Tree, depth: nat, o: Outcome)
    requires 1 <= depth <= w.maxDepth && o.state.Going? && Tells(w, o) && OnceEach([t]) && Fresh(o.calls, Nodes(t))
    ensures Made(w, [t], depth, TourOf(t, depth), o.calls) == VisitTree(w, t, depth, o).calls
    ensures Tells(w, VisitTree(w, t, depth, o))
    decreases t, 1
  {
    hide Down, Up, Legal, Stopped, Made, Tour, VisitList;
    var first, below, last := [Call(t.node, false, depth)], Tour(t.children, depth + 1), [Call(t.node, true, depth)];
    NodesOf([t]);
    MadeInTwo(w, [t], depth, first + below, last, o.calls);
    MadeInTwo(w, [t], depth, first, below, o.calls);
    DownMakes(w, t, depth, o);
    var (down, enter) := Down(w, t.node, depth, o);
    if !down.state.Going? {
      DownStops(w, t.node, depth, o);
      MadeStopped(w, [t], depth, below, down.calls);
      MadeStopped(w, [t], depth, last, down.calls);
    } else {
      BelowMakes(w, t, depth, o, down, enter);
      var after := down;
      if enter && depth != w.maxDepth {
        after := VisitList(w, t.children, depth + 1, down);
        DownFresh(w, t, depth, o);
        ListMakes(w, t.children, depth + 1, down);
      }
      if after.state.Going? {
        UpMakes(w, t, depth, after);
      } else {
        MadeStopped(w, [t], depth, last, after.calls);
      }
    }
  }

  lemma DownStops(w: Walk, n: Node, depth: nat, o: Outcome)
    requires o.state.Going? && !Down(w, n, depth, o).0.state.Going?
    ensures !Down(w, n, depth, o).1
  {
  }

  lemma DownFresh(w: Walk, t: Tree, depth: nat, o: Outcome)
    requires OnceEach([t]) && Fresh(o.calls, Nodes(t))
    ensures OnceEach(t.children) && Fresh(Down(w, t.node, depth, o).0.calls, ListNodes(t.children))
  {
    NodesOf([t]);
    assert t == [t][0];
  }

  /** The walk through a list makes exactly the calls of the tour that are legal. */
  lemma {:induction false} ListMakes(w: Walk, ts: seq<Tree>, depth: nat, o: Outcome)
    requires 1 <= depth <= w.maxDepth && o.state.Going? && Tells(w, o) && OnceEach(ts) && Fresh(o.calls, ListNodes(ts))
    ensures Made(w, ts, depth, Tour(ts, depth), o.calls) == VisitList(w, ts, depth, o).calls
    ensures Tells(w, VisitList(w, ts, depth, o))
    decreases ts, 0
  {
    hide Legal, Stopped, Made, VisitTree, TourOf;
    if ts == [] {
      NoTour(w, ts, depth, o.calls);
    } else {
      var first, rest := TourOf(ts[0], depth), Tour(ts[1..], depth);
      NodesOf(ts);
      OnceFirst(ts);
      FirstAlone(w, ts, depth, first, o.calls);
      TreeMakes(w, ts[0], depth, o);
      MadeInTwo(w, ts, depth, first, rest, o.calls);
      var after := VisitTree(w, ts[0], depth, o);
      if after.state.Going? {
        MadeExtends(w, [ts[0]], depth, first, o.calls);
        TourOfNodes(ts[0], depth);
        ListMakes(w, ts[1..], depth, after);
        RestAlone(w, ts, depth, rest, after.calls);
      } else {
        MadeStopped(w, ts, depth, rest, after.calls);
        StoppedList(w, ts[1..], depth, after);
      }
    }
  }

  lemma NoTour(w: Walk, ts: seq<Tree>, depth: nat, before: seq<Call>)
    ensures Made(w, ts, depth, [], before) == before
  {
  }

  lemma OnceFirst(ts: seq<Tree>)
    requires ts != [] && OnceEach(ts)
    ensures OnceEach([ts[0]]) && OnceEach(ts[1..]) && Nodes(ts[0]) !! ListNodes(ts[1..])
  {
    assert [ts[0]][1..] == [] && ListNodes([]) == {};
  }

  lemma TourOfNodes(t: Tree, depth: nat)
    ensures forall c | c in TourOf(t, depth) :: c.node in Nodes(t)
  {
    TourNodes([t], depth);
    NodesOf([t]);
    assert Tour([t], depth) == TourOf(t, depth) + [];
    assert ListNodes([t][1..]) == {};
  }

  lemma FirstAlone(w: Walk, ts: seq<Tree>, depth: nat, tour: seq<Call>, before: seq<Call>)
    requires ts != [] && Nodes(ts[0]) !! ListNodes(ts[1..]) && tour == TourOf(ts[0], depth)
    ensures Made(w, ts, depth, tour, before) == Made(w, [ts[0]], depth, tour, before)
  {
    hide Open, Made, Nodes, ListNodes, TourOf;
    TourOfNodes(ts[0], depth);
    forall c, calls | c in tour
      ensures Legal(w, ts, depth, c, calls) == Legal(w, [ts[0]], depth, c, calls)
    {
      if depth <= c.depth {
        OpenInOne(w, ts, c.node, depth, c.depth - depth, calls);
      }
    }
    MadeSame(w, ts, depth, [ts[0]], depth, tour, before, before);
  }

  lemma RestAlone(w: Walk, ts: seq<Tree>, depth: nat, tour: seq<Call>, before: seq<Call>)
    requires ts != [] && Nodes(ts[0]) !! ListNodes(ts[1..]) && tour == Tour(ts[1..], depth)
    ensures Made(w, ts, depth, tour, before) == Made(w, ts[1..], depth, tour, before)
  {
    hide Open, Made, Nodes, ListNodes, Tour;
    TourNodes(ts[1..], depth);
    forall c, calls | c in tour
      ensures Legal(w, ts, depth, c, calls) == Legal(w, ts[1..], depth, c, calls)
    {
      if depth <= c.depth {
        OpenInOne(w, ts, c.node, depth, c.depth - depth, calls);
      }
    }
    MadeSame(w, ts, depth, ts[1..], depth, tour, before, before);
  }

  // Linked nodes are in one place each

  lemma {:induction false} SubSmaller(ts: seq<Tree>, s: Tree)
    requires s in SubList(ts)
    ensures Size(s) <= ListSize(ts)
    decreases ts
  {
    if s in Sub(ts[0]) {
      if s != ts[0] {
        SubSmaller(ts[0].children, s);
      }
    } else {
      SubSmaller(ts[1..], s);
    }
  }

  lemma {:induction false} SameChildNodes(root: Tree, s: Tree, u: Tree, i: nat)
    requires Linked(root) && s in Sub(root) && u in Sub(root) && s.node == u.node
    ensures NodeAt(s.children, i) == NodeAt(u.children, i)
  {
    hide Sub;
    if i > 0 {
      SameChildNodes(root, s, u, i - 1);
    }
  }

  /** Two trees with the same node are the same. */
  lemma {:induction false} SameTree(root: Tree, s: Tree, u: Tree)
    requires Linked(root) && s in Sub(root) && u in Sub(root) && s.node == u.node
    ensures s == u
    decreases s
  {
    hide Linked, Sub;
    SameChildNodes(root, s, u, |s.children|);
    SameChildNodes(root, s, u, |u.children|);
    ChildInSub(root, s);
    ChildInSub(root, u);
    forall i: nat | i < |s.children|
      ensures s.children[i] == u.children[i]
    {
      SameChildNodes(root, s, u, i);
      SameTree(root, s.children[i], u.children[i]);
    }
    assert s.children == u.children;
  }

  lemma {:induction false} SiblingsDiffer(root: Tree, t: Tree, i: nat, j: nat)
    requires Linked(root) && t in Sub(root) && i < j < |t.children|
    ensures t.children[i].node != t.children[j].node
    decreases |t.children| - j
  {
    hide Sub;
    if j + 1 < |t.children| {
      SiblingsDiffer(root, t, i + 1, j + 1);
    }
  }

  lemma {:induction false} ParentIn(t: Tree, s: Tree) returns (v: Tree, k: nat)
    requires s in Sub(t) && s != t
    ensures v in Sub(t) && k < |v.children| && v.children[k] == s
    decreases t, 1
  {
    if i: nat :| i < |t.children| && t.children[i] == s {
      v, k := t, i;
    } else {
      v, k := ParentInList(t.children, s);
    }
  }

  lemma {:induction false} ParentInList(ts: seq<Tree>, s: Tree) returns (v: Tree, k: nat)
    requires s in SubList(ts) && s !in ts
    ensures v in SubList(ts) && k < |v.children| && v.children[k] == s
    decreases ts, 0
  {
    if s in Sub(ts[0]) {
      v, k := ParentIn(ts[0], s);
    } else {
      v, k := ParentInList(ts[1..], s);
    }
  }

  /** What a parent pointer says. */
  lemma ParentPoints(root: Tree, t: Tree, v: Tree, k: nat)
    requires Linked(root) && t in Sub(root) && v in Sub(t) && k < |v.children|
    ensures v in Sub(root) && v.children[k] in Sub(root) && v.children[k].node.parent == v.node
  {
    SubOfSub(root, t);
    ChildInSub(root, v);
    hide Sub;
    assert Chained(v);
  }

  lemma {:induction false} PartsApart(root: Tree, t: Tree, i: nat, j: nat, s: Tree)
    requires Linked(root) && t in Sub(root) && i < j < |t.children|
    requires s in Sub(t.children[i])
    ensures s !in Sub(t.children[j])
    decreases Size(t) - Size(s)
  {
    if s in Sub(t.children[j]) {
      var a, b := t.children[i], t.children[j];
      ChildInSub(t, t);
      assert t in Sub(t);
      SiblingsDiffer(root, t, i, j);
      ParentPoints(root, t, t, i);
      ParentPoints(root, t, t, j);
      SubListHas(t.children, i);
      SubListHas(t.children, j);
      hide Sub, Linked;
      if s != a && s != b {
        var v, k := ParentIn(a, s);
        var u, l := ParentIn(b, s);
        ParentPoints(root, a, v, k);
        ParentPoints(root, b, u, l);
        SameTree(root, v, u);
        SizeOfChild(v, k);
        SubSmaller(t.children, v);
        PartsApart(root, t, i, j, v);
      } else {
        var c := if s == a then b else a;
        var v, k := ParentIn(c, s);
        ParentPoints(root, c, v, k);
        SameTree(root, v, t);
        SubSmaller(t.children, v);
      }
    }
  }

  lemma SizeOfChild(v: Tree, k: nat)
    requires k < |v.children|
    ensures Size(v.children[k]) < Size(v)
  {
    SubListHas(v.children, k);
    assert v.children[k] in Sub(v.children[k]);
    SubSmaller(v.children, v.children[k]);
  }

  lemma {:induction false} InOneOf(ts: seq<Tree>, s: Tree) returns (j: nat)
    requires s in SubList(ts)
    ensures j < |ts| && s in Sub(ts[j])
  {
    if s in Sub(ts[0]) {
      j := 0;
    } else {
      j := InOneOf(ts[1..], s);
      j := j + 1;
    }
  }

  lemma {:induction false} ChildrenOnce(root: Tree, t: Tree, i: nat)
    requires Linked(root) && t in Sub(root) && i <= |t.children|
    ensures OnceEach(t.children[i..])
    decreases t, |t.children| - i
  {
    if i < |t.children| {
      var c, rest := t.children[i], t.children[i + 1..];
      ChildInSub(root, t);
      SubOfSub(root, c);
      hide Linked, OnceEach;
      ChildrenOnce(root, c, 0);
      ChildrenOnce(root, t, i + 1);
      assert c.children[0..] == c.children && t.children[i..][1..] == rest;
      forall s | s in SubList(c.children)
        ensures s.node != c.node
      {
        SubSmaller(c.children, s);
        if s.node == c.node {
          SameTree(root, s, c);
        }
      }
      forall s, u | s in Sub(c) && u in SubList(rest)
        ensures s.node != u.node
      {
        var j := InOneOf(rest, u);
        assert rest[j] == t.children[i + 1 + j];
        SubOfSub(root, t.children[i + 1 + j]);
        if s.node == u.node {
          SameTree(root, s, u);
          PartsApart(root, t, i, i + 1 + j, s);
        }
      }
      OnceMore(t.children[i..]);
    }
  }

  lemma OnceMore(ts: seq<Tree>)
    requires ts != [] && OnceEach(ts[0].children) && OnceEach(ts[1..])
    requires forall s | s in SubList(ts[0].children) :: s.node != ts[0].node
    requires forall s, u | s in Sub(ts[0]) && u in SubList(ts[1..]) :: s.node != u.node
    ensures OnceEach(ts)
  {
  }

  /** The walk from a node makes exactly the legal calls of the tour below it, in the order
      of the tour, up to the first one that stops it. */
  lemma WalkMakesLegalCalls(w: Walk, root: Tree)
    requires Linked(root) && 1 <= w.maxDepth
    ensures var o := VisitList(w, root.children, 1, Outcome([], Going));
            o.calls == Made(w, root.children, 1, Tour(root.children, 1), []) && Tells(w, o)
  {
    assert root in Sub(root);
    ChildrenOnce(root, root, 0);
    assert root.children[0..] == root.children;
    ListMakes(w, root.children, 1, Outcome([], Going));
  }

  /** A call of the tour is made exactly if the walk has not stopped and it is legal after
      the calls made before it. */
  lemma MadeIffLegal(w: Walk, ts: seq<Tree>, depth: nat, tour: seq<Call>, k: nat)
    requires k < |tour|
    ensures var before := Made(w, ts, depth, tour[..k], []);
            Made(w, ts, depth, tour[..k + 1], [])
            == if !Stopped(w, before) && Legal(w, ts, depth, tour[k], before) then before + [tour[k]] else before
  {
    hide Legal;
    assert tour[..k + 1] == tour[..k] + [tour[k]];
    MadeInTwo(w, ts, depth, tour[..k], [tour[k]], []);
    MadeOne(w, ts, depth, tour[k], Made(w, ts, depth, tour[..k], []));
  }
}

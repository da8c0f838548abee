/** Taking nodes out of the namespace: `uacpi_namespace_node_uninstall` and the
    stackless teardown `uacpi_deinitialize_namespace` of src/kern/acpi/namespace.c. */
module NamespaceTeardown {
  import opened NamespaceTree

  datatype Status = Ok | Dangling | Denied | NotLinked

  // One node

  ghost function ItemAt(list: seq<Node>, i: nat): Node? {
    if i < |list| then list[i] else null
  }

  ghost predicate Distinct(list: seq<Node>) {
    forall i, j | 0 <= i < j < |list| :: list[i] != list[j]
  }

  ghost predicate ChainOf(list: seq<Node>)
    reads list
  {
    forall i: nat {:trigger list[i]} | i < |list| :: list[i].next == ItemAt(list, i + 1)
  }

  /** The children of the parent are exactly this list. */
  ghost predicate IsChildList(parent: Node, list: seq<Node>)
    reads parent, list
  {
    Distinct(list) && parent.child == ItemAt(list, 0) && ChainOf(list)
  }

  ghost function Without(list: seq<Node>, k: nat): seq<Node>
    requires k < |list|
  {
    list[..k] + list[k + 1..]
  }

  /** A chain in which item k is bypassed. */
  ghost predicate Bypassed(list: seq<Node>, k: nat)
    requires k < |list|
    reads list
  {
    && (forall i: nat {:trigger list[i]} | i < |list| && i != k && i + 1 != k :: list[i].next == ItemAt(list, i + 1))
    && (k > 0 ==> list[k - 1].next == ItemAt(list, k + 1))
  }

  lemma StillChained(list: seq<Node>, k: nat)
    requires k < |list| && Distinct(list) && Bypassed(list, k)
    ensures Distinct(Without(list, k)) && ChainOf(Without(list, k))
    ensures ItemAt(Without(list, k), 0) == ItemAt(list, if k == 0 then 1 else 0)
  {
    hide Bypassed, Distinct;
    DistinctWithout(list, k);
    var rest := Without(list, k);
    forall i: nat | i < |rest|
      ensures rest[i].next == ItemAt(rest, i + 1)
    {
      BypassedAt(list, k, if i < k then i else i + 1);
      WithoutAt(list, k, i);
      WithoutAt(list, k, i + 1);
    }
    WithoutAt(list, k, 0);
  }

  lemma WithoutAt(list: seq<Node>, k: nat, i: nat)
    requires k < |list|
    ensures ItemAt(Without(list, k), i) == ItemAt(list, if i < k then i else i + 1)
  {
  }

  lemma DistinctWithout(list: seq<Node>, k: nat)
    requires k < |list| && Distinct(list)
    ensures Distinct(Without(list, k))
  {
  }

  lemma BypassedAt(list: seq<Node>, k: nat, i: nat)
    requires k < |list| && Bypassed(list, k) && i < |list| && i != k
    ensures list[i].next == ItemAt(list, if i + 1 == k then i + 2 else i + 1)
  {
  }

  /** A node that is in its parent's list and has no child comes out of the list, which
      keeps all others in order; any other node is refused. */
  method Uninstall(node: Node, ghost list: seq<Node>) returns (status: Status, ghost k: nat)
    requires node.parent != null && !node.dangling && node.child == null ==> IsChildList(node.parent, list)
    modifies node`dangling, list`next, (if node.parent == null then {} else {node.parent})`child
    ensures status == if old(node.dangling) then Dangling else if old(node.child) != null then Denied
                      else if node.parent == null || node !in list then NotLinked else Ok
    ensures status == Ok ==>
              node.dangling && k < |list| && list[k] == node && IsChildList(node.parent, Without(list, k))
    ensures status != Ok || k == 0 ==> forall n | n in list :: n.next == old(n.next)
    ensures status != Ok ==> node.dangling == old(node.dangling) &&
                             (node.parent != null ==> node.parent.child == old(node.parent.child))
  {
    hide Without;
    k := 0;
    if node.dangling {
      return Dangling, k;
    }
    if node.child != null {
      return Denied, k;
    }
    var prev := if node.parent != null then node.parent.child else null;
    if prev == node {
      node.parent.child := node.next;
    } else {
      ghost var i := 0;
      while prev != null && prev.next != node
        invariant prev == null || (node.parent != null && prev == ItemAt(list, i))
        invariant node.parent != null ==> i <= |list| && prev == ItemAt(list, i)
        invariant node.parent != null ==> forall j: nat {:trigger list[j]} | j <= i && j < |list| :: list[j] != node
        decreases |list| - i, prev != null
      {
        prev := prev.next;
        i := i + 1;
      }
      if prev == null {
        return NotLinked, k;
      }
      prev.next := node.next;
      k := i + 1;
    }
    node.dangling := true;
    assert Bypassed(list, k);
    hide Bypassed;
    StillChained(list, k);
    return Ok, k;
  }

  // The order of the teardown

  ghost function Heads(ts: seq<Tree>): (hs: seq<Node>)
    ensures |hs| == |ts|
  {
    seq(|ts|, i requires 0 <= i < |ts| => ts[i].node)
  }

  /** All nodes below the root of the tree: first what is below each child, child by
      child, then the children. */
  ghost function Below(t: Tree): seq<Node>
    decreases t, 1
  {
    BelowList(t.children) + Heads(t.children)
  }

  ghost function BelowList(ts: seq<Tree>): seq<Node>
    decreases ts, 0
  {
    if ts == [] then [] else Below(ts[0]) + BelowList(ts[1..])
  }

  /** All nodes of the tree, parents first. */
  ghost function AllNodes(t: Tree): seq<Node>
    decreases t, 1
  {
    [t.node] + AllList(t.children)
  }

  ghost function AllList(ts: seq<Tree>): seq<Node>
    decreases ts, 0
  {
    if ts == [] then [] else AllNodes(ts[0]) + AllList(ts[1..])
  }

  /** No node occurs twice in the tree. */
  ghost predicate Unique(t: Tree) { Distinct(AllNodes(t)) }

  lemma {:induction false} BelowPermutes(t: Tree)
    ensures multiset([t.node] + Below(t)) == multiset(AllNodes(t))
    decreases t, 1
  {
    BelowListPermutes(t.children);
  }

  lemma Regroup(a: seq<Node>, b: seq<Node>, h: Node, hs: seq<Node>)
    ensures multiset((a + b) + ([h] + hs)) == multiset([h] + a) + multiset(b + hs)
  {
  }

  lemma {:induction false} BelowListPermutes(ts: seq<Tree>)
    ensures multiset(BelowList(ts) + Heads(ts)) == multiset(AllList(ts))
    decreases ts, 0
  {
    if ts != [] {
      BelowPermutes(ts[0]);
      BelowListPermutes(ts[1..]);
      hide Below, AllNodes;
      assert Heads(ts) == [ts[0].node] + Heads(ts[1..]);
      Regroup(Below(ts[0]), BelowList(ts[1..]), ts[0].node, Heads(ts[1..]));
    }
  }

  lemma DistinctCounts(list: seq<Node>)
    requires Distinct(list)
    ensures forall n :: multiset(list)[n] <= 1
    decreases |list|
  {
    if list != [] {
      var last := list[|list| - 1];
      assert list == list[..|list| - 1] + [last] && last !in list[..|list| - 1];
      DistinctCounts(list[..|list| - 1]);
    }
  }

  lemma CountsDistinct(list: seq<Node>)
    requires forall n :: multiset(list)[n] <= 1
    ensures Distinct(list)
    decreases |list|
  {
    if list != [] {
      var init, last := list[..|list| - 1], list[|list| - 1];
      assert list == init + [last];
      assert multiset(list) == multiset(init) + multiset{last};
      assert multiset(list)[last] <= 1;
      assert last !in multiset(init);
      assert forall n :: multiset(init)[n] <= multiset(list)[n];
      CountsDistinct(init);
    }
  }

  /** The teardown order lists every node but the root exactly once. */
  lemma BelowIsComplete(t: Tree)
    requires Unique(t)
    ensures Distinct([t.node] + Below(t))
    ensures forall n :: n in [t.node] + Below(t) <==> n in AllNodes(t)
  {
    BelowPermutes(t);
    DistinctCounts(AllNodes(t));
    CountsDistinct([t.node] + Below(t));
    forall n
      ensures n in [t.node] + Below(t) <==> n in AllNodes(t)
    {
      assert n in [t.node] + Below(t) <==> n in multiset([t.node] + Below(t));
      assert n in AllNodes(t) <==> n in multiset(AllNodes(t));
    }
  }

  ghost predicate Before(order: seq<Node>, a: Node, b: Node) {
    exists i, j :: 0 <= i < j < |order| && order[i] == a && order[j] == b
  }

  lemma BeforeWithin(head: seq<Node>, order: seq<Node>, tail: seq<Node>, a: Node, b: Node)
    requires Before(order, a, b)
    ensures Before(head + order + tail, a, b)
  {
    var i, j :| 0 <= i < j < |order| && order[i] == a && order[j] == b;
    var all := head + order + tail;
    assert all[|head| + i] == a && all[|head| + j] == b;
  }

  lemma BeforeAcross(first: seq<Node>, second: seq<Node>, a: Node, b: Node)
    requires a in first && b in second
    ensures Before(first + second, a, b)
  {
    var i, j :| 0 <= i < |first| && first[i] == a && 0 <= j < |second| && second[j] == b;
    assert (first + second)[i] == a && (first + second)[|first| + j] == b;
  }

  lemma BeforeSplit(first: seq<Node>, x: seq<Node>, h: Node, y: seq<Node>, a: Node, b: Node)
    requires Before(x + y, a, b)
    ensures Before((first + x) + ([h] + y), a, b)
  {
    var i, j :| 0 <= i < j < |x + y| && (x + y)[i] == a && (x + y)[j] == b;
    var all := (first + x) + ([h] + y);
    assert all[|first| + i + (if i < |x| then 0 else 1)] == a && all[|first| + j + (if j < |x| then 0 else 1)] == b;
  }

  /** Every node below the root comes after all of its children. */
  lemma {:induction false} ChildrenFirst(t: Tree, s: Tree, c: nat)
    requires s in SubList(t.children) && c < |s.children|
    ensures Before(Below(t), s.children[c].node, s.node)
    decreases t, 1
  {
    ChildrenFirstInList(t.children, s, c);
    assert Below(t) == [] + (BelowList(t.children) + Heads(t.children)) + [];
  }

  lemma {:induction false} ChildrenFirstInList(ts: seq<Tree>, s: Tree, c: nat)
    requires s in SubList(ts) && c < |s.children|
    ensures Before(BelowList(ts) + Heads(ts), s.children[c].node, s.node)
    decreases ts, 0
  {
    var a, b := s.children[c].node, s.node;
    assert Heads(ts) == [ts[0].node] + Heads(ts[1..]);
    if s == ts[0] {
      assert Heads(s.children)[c] == a && a in BelowList(ts) && b in Heads(ts);
      BeforeAcross(BelowList(ts), Heads(ts), a, b);
    } else if s in Sub(ts[0]) {
      ChildrenFirst(ts[0], s, c);
      BeforeWithin([], Below(ts[0]), BelowList(ts[1..]) + Heads(ts), a, b);
      assert [] + Below(ts[0]) + (BelowList(ts[1..]) + Heads(ts)) == BelowList(ts) + Heads(ts);
    } else {
      ChildrenFirstInList(ts[1..], s, c);
      BeforeSplit(Below(ts[0]), BelowList(ts[1..]), ts[0].node, Heads(ts[1..]), a, b);
    }
  }

  // Uniqueness of subtrees

  lemma {:induction false} SubListNode(ts: seq<Tree>, s: Tree)
    requires s in SubList(ts)
    ensures s.node in AllList(ts)
    decreases ts, 0
  {
    if s in Sub(ts[0]) {
      SubNode(ts[0], s);
    } else {
      SubListNode(ts[1..], s);
    }
  }

  lemma {:induction false} SubNode(t: Tree, s: Tree)
    requires s in Sub(t)
    ensures s.node in AllNodes(t)
    decreases t, 1
  {
    if s != t {
      SubListNode(t.children, s);
    }
  }

  lemma DistinctParts(a: seq<Node>, b: seq<Node>)
    requires Distinct(a + b)
    ensures Distinct(a) && Distinct(b) && forall n :: n in a ==> n !in b
  {
    assert forall i | 0 <= i < |a| :: (a + b)[i] == a[i];
    assert forall j | 0 <= j < |b| :: (a + b)[|a| + j] == b[j];
  }

  /** One node belongs to one subtree. */
  lemma {:induction false} SameNode(t: Tree, s: Tree, u: Tree)
    requires Unique(t) && s in Sub(t) && u in Sub(t) && s.node == u.node
    ensures s == u
    decreases t, 1
  {
    DistinctParts([t.node], AllList(t.children));
    if s != t {
      SubListNode(t.children, s);
    }
    if u != t {
      SubListNode(t.children, u);
    }
    if s != t && u != t {
      SameNodeInList(t.children, s, u);
    }
  }

  lemma {:induction false} SameNodeInList(ts: seq<Tree>, s: Tree, u: Tree)
    requires Distinct(AllList(ts)) && s in SubList(ts) && u in SubList(ts) && s.node == u.node
    ensures s == u
    decreases ts, 0
  {
    DistinctParts(AllNodes(ts[0]), AllList(ts[1..]));
    if s in Sub(ts[0]) {
      SubNode(ts[0], s);
    } else {
      SubListNode(ts[1..], s);
    }
    if u in Sub(ts[0]) {
      SubNode(ts[0], u);
    } else {
      SubListNode(ts[1..], u);
    }
    if s in Sub(ts[0]) && u in Sub(ts[0]) {
      SameNode(ts[0], s, u);
    } else if s in SubList(ts[1..]) && u in SubList(ts[1..]) {
      SameNodeInList(ts[1..], s, u);
    }
  }

  // The links during the teardown

  /** How many of the first children are gone. */
  ghost function Gone(ts: seq<Tree>, order: seq<Node>): (j: nat)
    ensures j <= |ts|
  {
    if ts == [] || ts[0].node !in order then 0 else 1 + Gone(ts[1..], order)
  }

  lemma {:induction false} GoneIs(ts: seq<Tree>, order: seq<Node>, j: nat)
    requires j <= |ts| && (forall i | 0 <= i < j :: ts[i].node in order) && (j < |ts| ==> ts[j].node !in order)
    ensures Gone(ts, order) == j
  {
    if j > 0 {
      GoneIs(ts[1..], order, j - 1);
    }
  }

  lemma {:induction false} GoneSame(ts: seq<Tree>, order: seq<Node>, x: Node)
    requires forall i | 0 <= i < |ts| :: ts[i].node != x
    ensures Gone(ts, order + [x]) == Gone(ts, order)
  {
    if ts != [] {
      GoneSame(ts[1..], order, x);
    }
  }

  datatype Links = Links(parent: Node?, child: Node?, next: Node?, dangling: bool)

  ghost function Snapshot(nodes: set<Node>): map<Node, Links>
    reads nodes
  {
    map n | n in nodes :: Links(n.parent, n.child, n.next, n.dangling)
  }

  ghost predicate ChildrenFit(links: map<Node, Links>, s: Tree) {
    forall i: nat {:trigger s.children[i]} | i < |s.children| ::
      && s.children[i].node in links
      && links[s.children[i].node].parent == s.node
      && links[s.children[i].node].next == NodeAt(s.children, i + 1)
  }

  ghost predicate NodeFits(links: map<Node, Links>, s: Tree, order: seq<Node>) {
    && s.node in links && ChildrenFit(links, s)
    && (links[s.node].dangling <==> s.node in order)
    && links[s.node].child == NodeAt(s.children, Gone(s.children, order))
  }

  /** Exactly the nodes of the order are uninstalled, and every node still has those of
      its children that are not. */
  ghost predicate Partly(root: Tree, links: map<Node, Links>, order: seq<Node>) {
    forall s | s in Sub(root) :: NodeFits(links, s, order)
  }

  ghost predicate DistinctHeads(ts: seq<Tree>) {
    forall i, j | 0 <= i < j < |ts| :: ts[i].node != ts[j].node
  }

  /** Child j of p is next: everything before it and below it is gone. */
  ghost predicate IsNext(root: Tree, order: seq<Node>, p: Tree, j: nat) {
    && Unique(root) && p in Sub(root) && j < |p.children| && DistinctHeads(p.children)
    && (forall i | 0 <= i < |p.children| :: p.children[i].node in order <==> i < j)
    && forall i | 0 <= i < |p.children[j].children| :: p.children[j].children[i].node in order
  }

  function Removed(links: map<Node, Links>, parent: Node, n: Node, next: Node?): map<Node, Links>
    requires parent in links && n in links
  {
    var was := if n == parent then links[n].(dangling := true) else links[parent];
    links[n := links[n].(dangling := true)][parent := was.(child := next)]
  }

  lemma OthersFit(links: map<Node, Links>, s: Tree, order: seq<Node>, parent: Node, n: Node, next: Node?)
    requires NodeFits(links, s, order) && parent in links && n in links && n != parent
    requires s.node != parent && links[n].parent == parent
    ensures NodeFits(Removed(links, parent, n, next), s, order + [n])
  {
    forall i | 0 <= i < |s.children|
      ensures s.children[i].node != n
    {
      assert links[s.children[i].node].parent == s.node;
    }
    GoneSame(s.children, order, n);
    var links' := Removed(links, parent, n, next);
    assert forall m | m in links ::
             m in links' && links'[m].parent == links[m].parent && links'[m].next == links[m].next;
  }

  lemma ParentFits(links: map<Node, Links>, p: Tree, order: seq<Node>, j: nat)
    requires NodeFits(links, p, order) && j < |p.children| && DistinctHeads(p.children)
    requires forall i | 0 <= i < |p.children| :: p.children[i].node in order <==> i < j
    requires p.node != p.children[j].node
    ensures NodeFits(Removed(links, p.node, p.children[j].node, NodeAt(p.children, j + 1)), p,
                     order + [p.children[j].node])
  {
    var n := p.children[j].node;
    GoneIs(p.children, order + [n], j + 1);
    var links' := Removed(links, p.node, n, NodeAt(p.children, j + 1));
    assert forall m | m in links ::
             m in links' && links'[m].parent == links[m].parent && links'[m].next == links[m].next;
  }

  lemma ParentDiffers(root: Tree, p: Tree, j: nat)
    requires Unique(root) && p in Sub(root) && j < |p.children|
    ensures p.node != p.children[j].node
  {
    ChildInSub(root, p);
    if p.node == p.children[j].node {
      SameNode(root, p, p.children[j]);
      assert false;
    }
  }

  lemma RemovedFits(root: Tree, links: map<Node, Links>, order: seq<Node>, p: Tree, j: nat)
    requires Partly(root, links, order) && IsNext(root, order, p, j) && p.node in links && p.children[j].node in links
    ensures Partly(root, Removed(links, p.node, p.children[j].node, NodeAt(p.children, j + 1)),
                   order + [p.children[j].node])
  {
    hide Sub, Unique, NodeFits, Removed;
    ParentDiffers(root, p, j);
    var n, next := p.children[j].node, NodeAt(p.children, j + 1);
    assert NodeFits(links, p, order);
    assert links[n].parent == p.node by { FittingChild(links, p, order, j); }
    forall s | s in Sub(root)
      ensures NodeFits(Removed(links, p.node, n, next), s, order + [n])
    {
      if s.node == p.node {
        SameNode(root, s, p);
        ParentFits(links, p, order, j);
      } else {
        OthersFit(links, s, order, p.node, n, next);
      }
    }
  }

  lemma FittingChild(links: map<Node, Links>, p: Tree, order: seq<Node>, j: nat)
    requires NodeFits(links, p, order) && j < |p.children|
    ensures p.children[j].node in links
    ensures links[p.children[j].node].parent == p.node
    ensures links[p.children[j].node].next == NodeAt(p.children, j + 1)
  {
  }

  /** What `Uninstall` asks for. */
  lemma ReadyToRemove(root: Tree, nodes: set<Node>, order: seq<Node>, p: Tree, j: nat)
    requires Partly(root, Snapshot(nodes), order) && IsNext(root, order, p, j)
    ensures p.node in nodes && forall i | 0 <= i < |p.children| :: p.children[i].node in nodes
    ensures var n := p.children[j].node;
            && p.node.child == n && n.parent == p.node && n.child == null && !n.dangling && p.node != n
            && IsChildList(p.node, Heads(p.children)[j..])
  {
    hide Unique, Sub, Gone, IsChildList;
    var links, c := Snapshot(nodes), p.children[j];
    ChildInSub(root, p);
    assert NodeFits(links, p, order) && NodeFits(links, c, order);
    GoneIs(p.children, order, j);
    GoneIs(c.children, order, |c.children|);
    ParentDiffers(root, p, j);
    FittingList(nodes, p, order, j);
  }

  lemma DroppedHeads(ts: seq<Tree>, j: nat)
    requires j <= |ts|
    ensures var list := Heads(ts)[j..];
            |list| == |ts| - j && forall i: nat {:trigger list[i]} | i < |list| :: list[i] == ts[j + i].node
  {
  }

  lemma ItemIsNode(ts: seq<Tree>, j: nat, i: nat)
    requires j <= |ts|
    ensures ItemAt(Heads(ts)[j..], i) == NodeAt(ts, j + i)
  {
  }

  lemma FittingList(nodes: set<Node>, p: Tree, order: seq<Node>, j: nat)
    requires NodeFits(Snapshot(nodes), p, order) && j < |p.children| && DistinctHeads(p.children)
    requires p.node.child == p.children[j].node
    ensures IsChildList(p.node, Heads(p.children)[j..])
    ensures forall i | 0 <= i < |p.children| :: p.children[i].node in nodes
  {
    hide Gone, NodeAt, ItemAt, Heads;
    var list := Heads(p.children)[j..];
    DroppedHeads(p.children, j);
    ItemIsNode(p.children, j, 0);
    NodeAtIs(p.children, j);
    forall i: nat | i < |list|
      ensures list[i].next == ItemAt(list, i + 1)
    {
      ItemIsNode(p.children, j, i + 1);
      FittingChild(Snapshot(nodes), p, order, j + i);
    }
  }

  lemma NodeAtIs(ts: seq<Tree>, i: nat)
    requires i < |ts|
    ensures NodeAt(ts, i) == ts[i].node
  {
  }

  /** Uninstalls the first child that is left. */
  method RemoveFirst(current: Node, ghost p: Tree, ghost root: Tree, ghost nodes: set<Node>, ghost order: seq<Node>,
                     ghost j: nat)
      returns (status: Status)
    requires Partly(root, Snapshot(nodes), order) && IsNext(root, order, p, j) && current == p.node
    modifies nodes`child, nodes`next, nodes`dangling
    ensures status == Ok && Partly(root, Snapshot(nodes), order + [p.children[j].node])
    ensures current.child == NodeAt(p.children, j + 1)
  {
    hide Partly, IsNext, IsChildList, Removed;
    assert j < |p.children| by { NextBounds(root, order, p, j); }
    ReadyToRemove(root, nodes, order, p, j);
    ghost var links, n, list := Snapshot(nodes), p.children[j].node, Heads(p.children)[j..];
    assert forall i: nat | i < |list| :: list[i] == p.children[j + i].node;
    OnlyFirst(current, list);
    ghost var k;
    status, k := Uninstall(current.child, list);
    assert k == 0;
    ChildListHead(current, Without(list, 0));
    assert ItemAt(Without(list, 0), 0) == NodeAt(p.children, j + 1);
    RemovedFits(root, links, order, p, j);
    RemovedSnapshot(nodes, links, current, n, NodeAt(p.children, j + 1));
  }

  lemma NextBounds(root: Tree, order: seq<Node>, p: Tree, j: nat)
    requires IsNext(root, order, p, j)
    ensures j < |p.children|
  {
  }

  lemma OnlyFirst(parent: Node, list: seq<Node>)
    requires IsChildList(parent, list) && list != []
    ensures parent.child == list[0] && forall i: nat {:trigger list[i]} | i < |list| && list[i] == list[0] :: i == 0
  {
  }

  lemma ChildListHead(parent: Node, list: seq<Node>)
    requires IsChildList(parent, list)
    ensures parent.child == ItemAt(list, 0)
  {
  }

  lemma RemovedSnapshot(nodes: set<Node>, links: map<Node, Links>, parent: Node, n: Node, next: Node?)
    requires links.Keys == nodes && parent in nodes && n in nodes && n != parent
    requires forall m | m in nodes ::
      && m.parent == links[m].parent && m.next == links[m].next
      && m.dangling == (links[m].dangling || m == n)
      && m.child == if m == parent then next else links[m].child
    ensures Snapshot(nodes) == Removed(links, parent, n, next)
  {
  }

  // What is left to do in the middle of a teardown

  /** A node on the way down, and how many of its children are finished: everything below
      them is gone. */
  datatype Spot = Spot(tree: Tree, done: nat)

  ghost predicate OnTrack(root: Tree, stack: seq<Spot>) {
    && stack != [] && stack[0].tree == root
    && (forall k: nat {:trigger stack[k]} | k < |stack| ::
          stack[k].tree in Sub(root) && stack[k].done <= |stack[k].tree.children|)
    && forall k: nat | k < |stack| - 1 :: IsUnder(stack[k], stack[k + 1])
  }

  ghost predicate IsUnder(upper: Spot, lower: Spot) {
    upper.done < |upper.tree.children| && lower.tree == upper.tree.children[upper.done]
  }

  ghost function Top(stack: seq<Spot>): Spot
    requires stack != []
  {
    stack[|stack| - 1]
  }

  /** The innermost node has one more finished child. */
  ghost function Advance(stack: seq<Spot>): (r: seq<Spot>)
    requires stack != []
    ensures |r| == |stack|
  {
    stack[|stack| - 1 := Spot(Top(stack).tree, Top(stack).done + 1)]
  }

  ghost function Pop(stack: seq<Spot>): (r: seq<Spot>)
    requires stack != []
    ensures |r| == |stack| - 1
  {
    if |stack| == 1 then [] else Advance(stack[..|stack| - 1])
  }

  /** The nodes still to be uninstalled, in order. */
  ghost function Rest(stack: seq<Spot>): seq<Node>
    decreases |stack|
  {
    if stack == [] then []
    else
      var top := Top(stack);
      (if top.done <= |top.tree.children| then BelowList(top.tree.children[top.done..]) else [])
      + Heads(top.tree.children) + Rest(Pop(stack))
  }

  ghost function Pending(stack: seq<Spot>): nat
    decreases |stack|
  {
    if stack == [] then 0
    else
      var top := Top(stack);
      1 + (if top.done <= |top.tree.children| then ListSize(top.tree.children[top.done..]) else 0) + Pending(Pop(stack))
  }

  lemma Unfold(stack: seq<Spot>)
    requires stack != [] && Top(stack).done <= |Top(stack).tree.children|
    ensures var ts, i := Top(stack).tree.children, Top(stack).done;
            && Rest(stack) == BelowList(ts[i..]) + Heads(ts) + Rest(Pop(stack))
            && Pending(stack) == 1 + ListSize(ts[i..]) + Pending(Pop(stack))
  {
  }

  lemma Popped(stack: seq<Spot>, lower: Spot)
    requires stack != []
    ensures Pop(stack + [lower]) == Advance(stack) && Pop(Advance(stack)) == Pop(stack)
    ensures Top(stack + [lower]) == lower && Top(Advance(stack)) == Spot(Top(stack).tree, Top(stack).done + 1)
  {
    assert (stack + [lower])[..|stack|] == stack;
    assert Advance(stack)[..|stack| - 1] == stack[..|stack| - 1];
  }

  lemma SplitFirst(ts: seq<Tree>, i: nat)
    requires i < |ts|
    ensures BelowList(ts[i..]) == BelowList(ts[i].children) + Heads(ts[i].children) + BelowList(ts[i + 1..])
    ensures ListSize(ts[i..]) == 2 + ListSize(ts[i].children) + ListSize(ts[i + 1..])
  {
    assert ts[i..][0] == ts[i] && ts[i..][1..] == ts[i + 1..];
  }

  /** Going into an unfinished child, or past it if there is nothing below it, leaves the
      rest as it is. */
  lemma EnterMove(stack: seq<Spot>)
    requires stack != [] && Top(stack).done < |Top(stack).tree.children|
    ensures var c := Top(stack).tree.children[Top(stack).done];
            && Rest(stack + [Spot(c, 0)]) == Rest(stack)
            && Pending(stack + [Spot(c, 0)]) < Pending(stack)
            && (c.children == [] ==> Rest(Advance(stack)) == Rest(stack) && Pending(Advance(stack)) < Pending(stack))
  {
    hide Rest, Pending, Top, Pop, Advance, BelowList, Heads, ListSize;
    var ts, i := Top(stack).tree.children, Top(stack).done;
    var c := ts[i];
    Popped(stack, Spot(c, 0));
    Unfold(stack);
    Unfold(stack + [Spot(c, 0)]);
    Unfold(Advance(stack));
    SplitFirst(ts, i);
    assert c.children[0..] == c.children;
    Associate(BelowList(c.children), Heads(c.children), BelowList(ts[i + 1..]), Heads(ts), Rest(Pop(stack)));
    if c.children == [] {
      NothingBelow();
    }
  }

  lemma Associate(a: seq<Node>, b: seq<Node>, c: seq<Node>, d: seq<Node>, e: seq<Node>)
    ensures a + b + c + d + e == a + b + (c + d + e)
  {
  }

  lemma NothingBelow()
    ensures BelowList([]) == [] && Heads([]) == []
  {
  }

  lemma WipeMove(stack: seq<Spot>)
    requires stack != [] && Top(stack).done == |Top(stack).tree.children|
    ensures Rest(stack) == Heads(Top(stack).tree.children) + Rest(Pop(stack))
    ensures Pending(Pop(stack)) < Pending(stack)
  {
    assert Top(stack).tree.children[Top(stack).done..] == [];
  }

  ghost predicate Cleared(t: Tree, order: seq<Node>) {
    forall i | 0 <= i < |t.children| :: t.children[i].node in order
  }

  ghost predicate Finished(spot: Spot, order: seq<Node>) {
    forall i {:trigger spot.tree.children[i]} | 0 <= i < spot.done && i < |spot.tree.children| ::
      Cleared(spot.tree.children[i], order)
  }

  /** The state of a teardown: what is gone, and what is left to do. */
  ghost predicate Midway(root: Tree, stack: seq<Spot>, order: seq<Node>) {
    && Unique(root) && OnTrack(root, stack)
    && order + Rest(stack) == Below(root)
    && forall k: nat {:trigger stack[k]} | k < |stack| :: Finished(stack[k], order)
  }

  lemma TopBounds(root: Tree, stack: seq<Spot>, order: seq<Node>)
    requires Midway(root, stack, order)
    ensures stack != [] && Top(stack).done <= |Top(stack).tree.children| && Top(stack).tree in Sub(root)
    ensures |stack| == 1 ==> Top(stack).tree == root
    ensures |stack| > 1 ==> IsUnder(stack[|stack| - 2], Top(stack)) && stack[|stack| - 2].tree in Sub(root)
  {
    hide Sub;
    assert stack[|stack| - 1] == Top(stack);
    if |stack| > 1 {
      var k: nat := |stack| - 2;
      assert k < |stack| - 1 && stack[k].tree in Sub(root) && IsUnder(stack[k], stack[k + 1]);
    }
  }

  lemma RestHolds(stack: seq<Spot>)
    requires stack != [] && Top(stack).done <= |Top(stack).tree.children|
    ensures forall n | n in Heads(Top(stack).tree.children) :: n in Rest(stack)
    ensures Distinct(Rest(stack)) ==> Distinct(Heads(Top(stack).tree.children))
    ensures Top(stack).done < |Top(stack).tree.children| ==>
              forall n | n in Heads(Top(stack).tree.children[Top(stack).done].children) :: n in Rest(stack)
    ensures |stack| > 1 && Top(stack[..|stack| - 1]).done < |Top(stack[..|stack| - 1]).tree.children| ==>
              forall n | n in Heads(Top(stack[..|stack| - 1]).tree.children) :: n in Rest(stack)
  {
    hide Heads, BelowList;
    var ts, i := Top(stack).tree.children, Top(stack).done;
    Unfold(stack);
    if Distinct(Rest(stack)) {
      DistinctParts(BelowList(ts[i..]) + Heads(ts), Rest(Pop(stack)));
      DistinctParts(BelowList(ts[i..]), Heads(ts));
    }
    if i < |ts| {
      SplitFirst(ts, i);
    }
    if |stack| > 1 && Top(stack[..|stack| - 1]).done < |Top(stack[..|stack| - 1]).tree.children| {
      Unfold(Pop(stack));
    }
  }

  /** Nothing the teardown is about to look at is gone. */
  lemma StillThere(root: Tree, stack: seq<Spot>, order: seq<Node>)
    requires Midway(root, stack, order)
    ensures var top := Top(stack);
            && top.tree.node !in order && DistinctHeads(top.tree.children)
            && (forall i | 0 <= i < |top.tree.children| :: top.tree.children[i].node !in order)
            && (top.done < |top.tree.children| ==>
                  var c := top.tree.children[top.done];
                  forall i | 0 <= i < |c.children| :: c.children[i].node !in order)
  {
    hide Midway, Sub, OnTrack, Below, Rest, Unique, Heads, Distinct;
    TopBounds(root, stack, order);
    RestHolds(stack);
    var top := Top(stack);
    var ts := top.tree.children;
    Leftover(root, stack, order);
    HeadsHave(ts);
    if top.done < |ts| {
      HeadsHave(ts[top.done].children);
    }
    if |stack| > 1 {
      CurrentIsChild(stack[|stack| - 2], top);
      assert Top(stack[..|stack| - 1]) == stack[|stack| - 2];
    }
  }

  lemma HeadsHave(ts: seq<Tree>)
    ensures forall i | 0 <= i < |ts| :: Heads(ts)[i] == ts[i].node && ts[i].node in Heads(ts)
    ensures Distinct(Heads(ts)) ==> DistinctHeads(ts)
  {
    forall i | 0 <= i < |ts|
      ensures Heads(ts)[i] == ts[i].node && ts[i].node in Heads(ts)
    {
      assert Heads(ts)[i] in Heads(ts);
    }
  }

  lemma CurrentIsChild(upper: Spot, lower: Spot)
    requires IsUnder(upper, lower)
    ensures upper.done < |upper.tree.children| && lower.tree.node in Heads(upper.tree.children)
  {
    assert Heads(upper.tree.children)[upper.done] == lower.tree.node;
  }

  lemma Leftover(root: Tree, stack: seq<Spot>, order: seq<Node>)
    requires Midway(root, stack, order)
    ensures Distinct(Rest(stack)) && root.node !in order && forall n | n in Rest(stack) :: n !in order
  {
    hide Below, Rest, OnTrack, Finished;
    BelowIsComplete(root);
    DistinctParts([root.node], Below(root));
    DistinctParts(order, Rest(stack));
    assert root.node in [root.node];
    assert forall n | n in order :: n in order + Rest(stack);
  }

  // The moves of the loop

  lemma EnterKeeps(root: Tree, stack: seq<Spot>, order: seq<Node>)
    requires Midway(root, stack, order) && Top(stack).done < |Top(stack).tree.children|
    ensures Midway(root, stack + [Spot(Top(stack).tree.children[Top(stack).done], 0)], order)
  {
    hide Rest, Below, Sub, Unique, Finished, OnTrack, IsUnder;
    TopBounds(root, stack, order);
    EnterMove(stack);
    EnterOnTrack(root, stack);
    var lower := Spot(Top(stack).tree.children[Top(stack).done], 0);
    NothingFinished(lower, order);
    assert forall k: nat | k < |stack| :: (stack + [lower])[k] == stack[k];
  }

  lemma EnterOnTrack(root: Tree, stack: seq<Spot>)
    requires OnTrack(root, stack) && Top(stack).done < |Top(stack).tree.children|
    ensures OnTrack(root, stack + [Spot(Top(stack).tree.children[Top(stack).done], 0)])
  {
    hide Sub;
    var top := Top(stack);
    var lower := Spot(top.tree.children[top.done], 0);
    var stack' := stack + [lower];
    assert stack[|stack| - 1].tree in Sub(root);
    ChildInSub(root, top.tree);
    forall k: nat | k < |stack'|
      ensures stack'[k].tree in Sub(root) && stack'[k].done <= |stack'[k].tree.children|
    {
      assert k < |stack| ==> stack'[k] == stack[k];
    }
    forall k: nat | k < |stack'| - 1
      ensures IsUnder(stack'[k], stack'[k + 1])
    {
      assert stack'[k] == stack[k];
      assert k < |stack| - 1 ==> IsUnder(stack[k], stack[k + 1]);
    }
  }

  lemma NothingFinished(spot: Spot, order: seq<Node>)
    requires spot.done == 0
    ensures Finished(spot, order)
  {
  }

  lemma OneMoreFinished(spot: Spot, order: seq<Node>)
    requires Finished(spot, order) && spot.done < |spot.tree.children| && Cleared(spot.tree.children[spot.done], order)
    ensures Finished(Spot(spot.tree, spot.done + 1), order)
  {
  }

  lemma AdvanceKeeps(root: Tree, stack: seq<Spot>, order: seq<Node>)
    requires Midway(root, stack, order) && Top(stack).done < |Top(stack).tree.children|
    requires Top(stack).tree.children[Top(stack).done].children == []
    ensures Midway(root, Advance(stack), order)
  {
    hide Rest, Below, Sub, Unique, Finished, OnTrack;
    TopBounds(root, stack, order);
    EnterMove(stack);
    AdvanceOnTrack(root, stack);
    assert Finished(stack[|stack| - 1], order);
    OneMoreFinished(Top(stack), order);
    assert forall k: nat | k < |stack| - 1 :: Advance(stack)[k] == stack[k];
  }

  lemma AdvanceOnTrack(root: Tree, stack: seq<Spot>)
    requires OnTrack(root, stack) && Top(stack).done < |Top(stack).tree.children|
    ensures OnTrack(root, Advance(stack))
  {
    hide Sub;
    var stack', last := Advance(stack), |stack| - 1;
    forall k: nat | k < |stack'|
      ensures stack'[k].tree in Sub(root) && stack'[k].done <= |stack'[k].tree.children|
    {
      assert stack[k].tree in Sub(root);
    }
    forall k: nat | k < |stack'| - 1
      ensures IsUnder(stack'[k], stack'[k + 1])
    {
      assert IsUnder(stack[k], stack[k + 1]);
    }
  }

  lemma FinishedLonger(spot: Spot, order: seq<Node>, more: seq<Node>)
    requires Finished(spot, order)
    ensures Finished(spot, order + more)
  {
    forall i | 0 <= i < spot.done && i < |spot.tree.children|
      ensures Cleared(spot.tree.children[i], order + more)
    {
      assert Cleared(spot.tree.children[i], order);
    }
  }

  lemma PopKeeps(root: Tree, stack: seq<Spot>, order: seq<Node>)
    requires Midway(root, stack, order) && Top(stack).done == |Top(stack).tree.children|
    ensures var order' := order + Heads(Top(stack).tree.children);
            && (|stack| == 1 ==> order' == Below(root))
            && (|stack| > 1 ==> Midway(root, Pop(stack), order'))
  {
    hide Rest, Below, Sub, Unique, Finished, Heads;
    WipeMove(stack);
    TopBounds(root, stack, order);
    var order' := order + Heads(Top(stack).tree.children);
    assert order' + Rest(Pop(stack)) == order + (Heads(Top(stack).tree.children) + Rest(Pop(stack)));
    if |stack| == 1 {
      assert Rest(Pop(stack)) == [] by { NothingLeft(Pop(stack)); }
    } else {
      var stack', upper := Pop(stack), stack[|stack| - 2];
      assert Cleared(Top(stack).tree, order') by { HeadsHave(Top(stack).tree.children); }
      assert Top(stack[..|stack| - 1]) == upper && Finished(stack[|stack| - 2], order);
      FinishedLonger(upper, order, Heads(Top(stack).tree.children));
      OneMoreFinished(upper, order');
      forall k: nat | k < |stack'|
        ensures Finished(stack'[k], order')
      {
        if k < |stack'| - 1 {
          assert stack'[k] == stack[k];
          FinishedLonger(stack[k], order, Heads(Top(stack).tree.children));
        }
      }
      assert OnTrack(root, stack') by { PopOnTrack(root, stack); }
    }
  }

  lemma NothingLeft(stack: seq<Spot>)
    requires |stack| == 0
    ensures Rest(stack) == []
  {
  }

  lemma PopOnTrack(root: Tree, stack: seq<Spot>)
    requires OnTrack(root, stack) && |stack| > 1
    ensures OnTrack(root, Pop(stack))
  {
    hide Sub;
    var stack', upper := Pop(stack), stack[|stack| - 2];
    assert stack[..|stack| - 1][|stack| - 2] == upper;
    assert IsUnder(stack[|stack| - 2], stack[|stack| - 2 + 1]);
    assert forall k: nat | k < |stack'| - 1 :: stack'[k] == stack[k];
    forall k: nat | k < |stack'| - 1
      ensures IsUnder(stack'[k], stack'[k + 1])
    {
      assert IsUnder(stack[k], stack[k + 1]);
    }
  }

  /** The pointers the loop reads, none of them from an uninstalled node. */
  lemma Look(root: Tree, nodes: set<Node>, stack: seq<Spot>, order: seq<Node>)
    requires Midway(root, stack, order) && Partly(root, Snapshot(nodes), order)
    ensures var (top, ts) := (Top(stack), Top(stack).tree.children);
            && !top.tree.node.dangling && top.tree.node.child == NodeAt(ts, 0)
            && (0 < top.done <= |ts| ==> !ts[top.done - 1].node.dangling
                                         && ts[top.done - 1].node.next == NodeAt(ts, top.done))
            && (top.done < |ts| ==> !ts[top.done].node.dangling
                                    && ts[top.done].node.child == NodeAt(ts[top.done].children, 0))
            && (|stack| > 1 ==> top.tree.node.parent == stack[|stack| - 2].tree.node)
  {
    var (top, ts) := (Top(stack), Top(stack).tree.children);
    hide Midway, Sub, Unique, OnTrack, Rest, Below, Gone, NodeAt;
    TopBounds(root, stack, order);
    StillThere(root, stack, order);
    ChildInSub(root, top.tree);
    assert NodeFits(Snapshot(nodes), top.tree, order);
    GoneIs(ts, order, 0);
    if 0 < top.done {
      FittingChild(Snapshot(nodes), top.tree, order, top.done - 1);
      assert NodeFits(Snapshot(nodes), ts[top.done - 1], order);
    }
    if top.done < |ts| {
      assert NodeFits(Snapshot(nodes), ts[top.done], order);
      GoneIs(ts[top.done].children, order, 0);
    }
    if |stack| > 1 {
      var upper := stack[|stack| - 2];
      assert NodeFits(Snapshot(nodes), upper.tree, order);
      FittingChild(Snapshot(nodes), upper.tree, order, upper.done);
    }
  }

  /** While the children of a finished node are wiped, the first one left is next. */
  lemma WipeNext(root: Tree, stack: seq<Spot>, order: seq<Node>, j: nat)
    requires Midway(root, stack, order) && Top(stack).done == |Top(stack).tree.children|
             && j < |Top(stack).tree.children|
    ensures IsNext(root, order + Heads(Top(stack).tree.children)[..j], Top(stack).tree, j)
  {
    var ts := Top(stack).tree.children;
    var order' := order + Heads(ts)[..j];
    TopBounds(root, stack, order);
    StillThere(root, stack, order);
    HeadsHave(ts);
    hide Sub, OnTrack, Rest, Below, NodeAt, Heads;
    assert Finished(stack[|stack| - 1], order);
    assert Cleared(ts[j], order);
    forall i | 0 <= i < |ts|
      ensures ts[i].node in order' <==> i < j
    {
      if i < j {
        assert Heads(ts)[..j][i] == ts[i].node;
      } else {
        assert ts[i].node !in Heads(ts)[..j];
      }
    }
  }

  /** The inner loop: wipes what is left of a finished subtree. */
  method WipeChildren(current: Node, ghost root: Tree, ghost nodes: set<Node>, ghost stack: seq<Spot>,
                      ghost was: seq<Node>)
      returns (ghost order: seq<Node>)
    requires Midway(root, stack, was) && Partly(root, Snapshot(nodes), was) && current == Top(stack).tree.node
    requires Top(stack).done == |Top(stack).tree.children| && current.child == NodeAt(Top(stack).tree.children, 0)
    modifies nodes`child, nodes`next, nodes`dangling
    ensures order == was + Heads(Top(stack).tree.children)
    ensures Partly(root, Snapshot(nodes), order) && current.child == null
  {
    hide Midway, Partly, IsNext, Sub, Rest, Unique;
    order := was;
    TopBounds(root, stack, was);
    ghost var p := Top(stack).tree;
    ghost var j := 0;
    while current.child != null
      invariant 0 <= j <= |p.children| && order == was + Heads(p.children)[..j]
      invariant current.child == NodeAt(p.children, j)
      invariant Partly(root, Snapshot(nodes), order)
      decreases |p.children| - j
    {
      WipeNext(root, stack, was, j);
      var status := RemoveFirst(current, p, root, nodes, order, j);
      assert status == Ok;
      assert Heads(p.children)[..j + 1] == Heads(p.children)[..j] + [p.children[j].node];
      order := order + [p.children[j].node];
      j := j + 1;
    }
    assert Heads(p.children)[..j] == Heads(p.children);
  }

  /** The teardown with its two cursors and depth counter: it ends, uninstalls every node
      but the root exactly once and children before their parents, is never refused, and
      reads no pointer of a node it has uninstalled. */
  method DeinitializeNamespace(rootNode: Node, ghost root: Tree) returns (ghost order: seq<Node>)
    requires root.node == rootNode && rootNode.parent == null && Unique(root)
    requires Linked(root) && forall n | n in Nodes(root) :: !n.dangling
    modifies Nodes(root)`child, Nodes(root)`next, Nodes(root)`dangling
    ensures order == Below(root)
    ensures forall n | n in Nodes(root) :: n.dangling <==> n in order
    ensures rootNode.child == null
  {
    hide Midway, Partly, Rest, Below, Linked, Nodes, Sub, Pending, Top, Pop, Advance, Unique, IsNext, IsUnder;
    hide Heads, Snapshot;
    ghost var nodes := Nodes(root);
    StartMidway(root);
    order := [];
    ghost var stack := [Spot(root, 0)];
    var current: Node? := rootNode;
    var next: Node? := null;
    var depth := 1;
    while depth != 0
      invariant |stack| == depth && Partly(root, Snapshot(nodes), order)
      invariant depth == 0 ==> order == Below(root) && rootNode.child == null
      invariant depth != 0 ==>
                  && Midway(root, stack, order) && current == Top(stack).tree.node
                  && Top(stack).done <= |Top(stack).tree.children|
                  && next == (if Top(stack).done == 0 then null else Top(stack).tree.children[Top(stack).done - 1].node)
      decreases Pending(stack)
    {
      Look(root, nodes, stack, order);
      TopBounds(root, stack, order);
      ghost var top := Top(stack);
      ghost var ts := top.tree.children;
      if next == null {
        assert !current.dangling;
        next := current.child;
      } else {
        assert !next.dangling;
        next := next.next;
      }
      assert next == NodeAt(ts, top.done);
      if next == null {
        depth := depth - 1;
        ghost var was := order;
        order := WipeChildren(current, root, nodes, stack, was);
        PopKeeps(root, stack, was);
        WipeMove(stack);
        PoppedTop(root, stack, was);
        next := current;
        current := current.parent;
        stack := Pop(stack);
      } else {
        assert !next.dangling;
        EnterMove(stack);
        Popped(stack, Spot(ts[top.done], 0));
        if next.child != null {
          EnterKeeps(root, stack, order);
          stack := stack + [Spot(ts[top.done], 0)];
          depth := depth + 1;
          current := next;
          next := null;
        } else {
          AdvanceKeeps(root, stack, order);
          stack := Advance(stack);
        }
      }
    }
    AllGone(root, nodes, order);
  }

  lemma PoppedTop(root: Tree, stack: seq<Spot>, order: seq<Node>)
    requires Midway(root, stack, order)
    ensures |stack| > 1 ==>
              && Top(Pop(stack)).tree == stack[|stack| - 2].tree
              && 0 < Top(Pop(stack)).done <= |Top(Pop(stack)).tree.children|
              && Top(Pop(stack)).tree.children[Top(Pop(stack)).done - 1] == Top(stack).tree
    ensures |stack| == 1 ==> Top(stack).tree == root && Pop(stack) == []
  {
    hide Midway, Sub, Rest;
    TopBounds(root, stack, order);
  }

  lemma AllGone(root: Tree, nodes: set<Node>, order: seq<Node>)
    requires Partly(root, Snapshot(nodes), order) && nodes == Nodes(root)
    ensures forall n | n in nodes :: n.dangling <==> n in order
  {
    forall n | n in nodes
      ensures n.dangling <==> n in order
    {
      var s :| s in Sub(root) && s.node == n;
      assert NodeFits(Snapshot(nodes), s, order);
    }
  }

  lemma StartMidway(root: Tree)
    requires Unique(root) && Linked(root) && forall n | n in Nodes(root) :: !n.dangling
    ensures Midway(root, [Spot(root, 0)], []) && Top([Spot(root, 0)]) == Spot(root, 0)
    ensures Partly(root, Snapshot(Nodes(root)), [])
  {
    var stack := [Spot(root, 0)];
    assert Rest(stack) == Below(root) by {
      Unfold(stack);
      assert root.children[0..] == root.children;
    }
    NothingFinished(stack[0], []);
    forall s | s in Sub(root)
      ensures NodeFits(Snapshot(Nodes(root)), s, [])
    {
      StartFits(root, s);
    }
  }

  lemma StartFits(root: Tree, s: Tree)
    requires Linked(root) && s in Sub(root) && forall n | n in Nodes(root) :: !n.dangling
    ensures NodeFits(Snapshot(Nodes(root)), s, [])
  {
    hide NodeAt;
    ChildInSub(root, s);
    assert s.node in Nodes(root) && Chained(s);
    GoneIs(s.children, [], 0);
  }
}

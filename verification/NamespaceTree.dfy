/** The ACPI namespace as linked nodes, src/kern/acpi/namespace.c, and the tree of values
    that a well-formed set of links stands for. */
module NamespaceTree {

  class Node {
    const kind: nat      // type of the attached object
    const temporary: bool
    var parent: Node?
    var child: Node?
    var next: Node?
    var dangling: bool
  }

  datatype Tree = Tree(node: Node, children: seq<Tree>)

  /** All subtrees, the tree itself included. */
  ghost function Sub(t: Tree): set<Tree> {
    {t} + SubList(t.children)
  }

  ghost function SubList(ts: seq<Tree>): set<Tree> {
    if ts == [] then {} else Sub(ts[0]) + SubList(ts[1..])
  }

  /** A measure with room for two visits of each node. */
  ghost function Size(t: Tree): (n: nat)
    ensures n >= 2
    decreases t, 1
  {
    2 + ListSize(t.children)
  }

  ghost function ListSize(ts: seq<Tree>): nat
    decreases ts, 0
  {
    if ts == [] then 0 else Size(ts[0]) + ListSize(ts[1..])
  }

  ghost function NodeAt(ts: seq<Tree>, i: nat): Node? {
    if i < |ts| then ts[i].node else null
  }

  /** The children of the tree are chained in order and point back to their parent. */
  ghost predicate Chained(t: Tree)
    reads set c | c in t.children :: c.node
  {
    forall i: nat {:trigger t.children[i]} | i < |t.children| ::
      t.children[i].node.parent == t.node && t.children[i].node.next == NodeAt(t.children, i + 1)
  }

  ghost function Nodes(t: Tree): set<Node> {
    set s | s in Sub(t) :: s.node
  }

  /** The links of all nodes are those of the tree. */
  ghost predicate Linked(t: Tree)
    reads Nodes(t)
  {
    forall s | s in Sub(t) :: ChildInSub(t, s); Chained(s) && s.node.child == NodeAt(s.children, 0)
  }

  lemma {:induction false} SubListHas(ts: seq<Tree>, i: nat)
    requires i < |ts|
    ensures Sub(ts[i]) <= SubList(ts)
  {
    if i > 0 {
      SubListHas(ts[1..], i - 1);
      assert ts[1..][i - 1] == ts[i];
    }
  }

  lemma {:induction false} SubOfSub(t: Tree, s: Tree)
    requires s in Sub(t)
    ensures Sub(s) <= Sub(t)
    decreases t, 1
  {
    if s != t {
      SubOfSubList(t.children, s);
    }
  }

  lemma {:induction false} SubOfSubList(ts: seq<Tree>, s: Tree)
    requires s in SubList(ts)
    ensures Sub(s) <= SubList(ts)
    decreases ts, 0
  {
    if s in Sub(ts[0]) {
      SubOfSub(ts[0], s);
    } else {
      SubOfSubList(ts[1..], s);
    }
  }

  lemma ChildInSub(t: Tree, s: Tree)
    requires s in Sub(t)
    ensures forall i: nat {:trigger s.children[i]} | i < |s.children| ::
              s.children[i] in Sub(t) && s.children[i].node in Nodes(t)
  {
    SubOfSub(t, s);
    forall i: nat | i < |s.children|
      ensures s.children[i] in Sub(t)
    {
      SubListHas(s.children, i);
    }
  }
}

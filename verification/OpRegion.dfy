/** Binding of operation regions to address space handlers, src/kern/acpi/opregion.c.
    Nodes are numbered in the order of their creation, so a parent has a smaller number
    than its children and siblings are in list order. */
module OpRegion {
  import opened Common

  datatype Kind =
    | Host                 // root, device, processor or thermal zone: can have handlers
    | Region(space: nat)
    | Plain

  /** `handlers` is the node's handler list, newest first. */
  datatype Node = Node(parent: nat, kind: Kind, handlers: seq<nat>)

  /** `spaces` gives the address space of every handler ever created. */
  datatype Tree = Tree(nodes: seq<Node>, spaces: seq<nat>) {
    ghost predicate Valid() {
      && nodes != [] && nodes[0].kind.Host?
      && (forall n | 0 < n < |nodes| :: nodes[n].parent < n)
      && (forall n | 0 <= n < |nodes| :: nodes[n].handlers != [] ==> nodes[n].kind.Host?)
      && (forall n, h | 0 <= n < |nodes| && h in nodes[n].handlers :: h < |spaces|)
    }
  }

  /** For every node the handler its region is bound to, and for every handler the list
      of its regions. */
  datatype State = State(tree: Tree, binding: seq<Option<nat>>, lists: seq<seq<nat>>)

  // Lookup

  /** `find_handler`: the first handler of the list for the space. */
  function FindHandler(spaces: seq<nat>, handlers: seq<nat>, space: nat): (r: Option<nat>)
    requires forall h: nat | h in handlers :: h < |spaces|
    ensures r.None? <==> forall h: nat | h in handlers :: spaces[h] != space
    ensures r.Some? ==> r.value in handlers && spaces[r.value] == space
  {
    if handlers == [] then None
    else if assert handlers[0] in handlers; spaces[handlers[0]] == space then Some(handlers[0])
    else
      assert forall h: nat | h in handlers[1..] :: h in handlers;
      FindHandler(spaces, handlers[1..], space)
  }

  function HandlerAt(t: Tree, n: nat, space: nat): Option<nat>
    requires t.Valid() && n < |t.nodes|
  {
    FindHandler(t.spaces, t.nodes[n].handlers, space)
  }

  /** The rule: the handler for the space on the node or its nearest ancestor with one. */
  function Nearest(t: Tree, n: nat, space: nat): Option<nat>
    requires t.Valid() && n < |t.nodes|
  {
    if HandlerAt(t, n, space).Some? then HandlerAt(t, n, space)
    else if n == 0 then None
    else Nearest(t, t.nodes[n].parent, space)
  }

  lemma SuffixMembers(list: seq<nat>, i: nat)
    requires i <= |list|
    ensures forall h: nat | h in list[i..] :: h in list
  {
  }

  /** `find_handler` as the loop over the list. */
  method SearchHandler(spaces: seq<nat>, handlers: seq<nat>, space: nat) returns (r: Option<nat>)
    requires forall h: nat | h in handlers :: h < |spaces|
    ensures r == FindHandler(spaces, handlers, space)
  {
    var i := 0;
    while i < |handlers|
      invariant 0 <= i <= |handlers|
      invariant forall h: nat | h in handlers[i..] :: h in handlers
      invariant FindHandler(spaces, handlers, space) == FindHandler(spaces, handlers[i..], space)
    {
      assert handlers[i] in handlers;
      if spaces[handlers[i]] == space {
        return Some(handlers[i]);
      }
      assert handlers[i..][1..] == handlers[i + 1..];
      SuffixMembers(handlers, i + 1);
      i := i + 1;
    }
    return None;
  }

  /** The climb of `uacpi_initialize_opregion_node` from the region's parent to the root. */
  method Climb(t: Tree, parent: nat, space: nat) returns (r: Option<nat>)
    requires t.Valid() && parent < |t.nodes|
    ensures r == Nearest(t, parent, space)
  {
    var p: nat := parent;
    while true
      invariant p < |t.nodes| && Nearest(t, parent, space) == Nearest(t, p, space)
      decreases p
    {
      var handler := SearchHandler(t.spaces, t.nodes[p].handlers, space);
      if handler.Some? {
        return handler;
      }
      if p == 0 {
        return None;
      }
      p := t.nodes[p].parent;
    }
  }

  // Region lists

  /** The effect of `region_uninstall_handler` on the links. */
  function Unbind(s: State, r: nat): State
    requires r < |s.binding| && (s.binding[r].Some? ==> s.binding[r].value < |s.lists|)
  {
    if s.binding[r].None? then s
    else
      var h := s.binding[r].value;
      s.(binding := s.binding[r := None], lists := s.lists[h := Unlink(s.lists[h], r)])
  }

  /** The effect of `region_install_handler` on the links: at the head of the list. */
  function Bind(s: State, r: nat, h: nat): State
    requires r < |s.binding| && h < |s.lists|
  {
    s.(binding := s.binding[r := Some(h)], lists := s.lists[h := [r] + s.lists[h]])
  }

  predicate Distinct(list: seq<nat>) {
    forall i, j | 0 <= i < j < |list| :: list[i] != list[j]
  }

  ghost predicate Shape(s: State) {
    && s.tree.Valid() && |s.binding| == |s.tree.nodes| && |s.lists| == |s.tree.spaces|
    && (forall r | 0 <= r < |s.binding| && s.binding[r].Some? :: s.binding[r].value < |s.lists|)
  }

  /** The list holds exactly the regions bound to the handler, each once. */
  ghost predicate IsListOf(list: seq<nat>, binding: seq<Option<nat>>, h: nat) {
    Distinct(list) && forall r: nat :: r in list <==> r < |binding| && binding[r] == Some(h)
  }

  ghost predicate Links(s: State) {
    forall h: nat | h < |s.lists| :: IsListOf(s.lists[h], s.binding, h)
  }

  ghost predicate ListsInv(s: State) { Shape(s) && Links(s) }

  lemma {:induction false} UnlinkIsExact(list: seq<nat>, r: nat)
    requires Distinct(list)
    ensures Distinct(Unlink(list, r)) && forall x :: x in Unlink(list, r) <==> x in list && x != r
  {
    if list != [] {
      assert list[0] !in list[1..] && list == [list[0]] + list[1..];
      UnlinkIsExact(list[1..], r);
    }
  }

  lemma UnbindKeepsLists(s: State, r: nat)
    requires ListsInv(s) && r < |s.binding|
    ensures ListsInv(Unbind(s, r))
  {
    if s.binding[r].Some? {
      var s' := Unbind(s, r);
      UnlinkIsExact(s.lists[s.binding[r].value], r);
      forall h: nat | h < |s'.lists|
        ensures IsListOf(s'.lists[h], s'.binding, h)
      {
        assert IsListOf(s.lists[h], s.binding, h);
      }
    }
  }

  lemma BindKeepsLists(s: State, r: nat, h: nat)
    requires ListsInv(s) && r < |s.binding| && s.binding[r].None? && h < |s.lists|
    ensures ListsInv(Bind(s, r, h))
  {
    var s' := Bind(s, r, h);
    forall k: nat | k < |s'.lists|
      ensures IsListOf(s'.lists[k], s'.binding, k)
    {
      assert IsListOf(s.lists[k], s.binding, k);
      assert r !in s.lists[k];
    }
  }

  // The walk below the handler's node

  datatype Action = InstallAll | UninstallAll

  /** The binding a visited region of the space gets. */
  function NewBinding(current: Option<nat>, h: nat, action: Action): Option<nat> {
    if action == InstallAll then Some(h) else if current == Some(h) then None else current
  }

  /** `do_install_or_uninstall_handler` on a region of the space. */
  function Rebind(s: State, r: nat, h: nat, action: Action): (s': State)
    requires ListsInv(s) && r < |s.binding| && h < |s.lists|
    ensures ListsInv(s') && s'.tree == s.tree
    ensures s'.binding == s.binding[r := NewBinding(s.binding[r], h, action)]
  {
    UnbindKeepsLists(s, r);
    if action == InstallAll then
      var unbound := Unbind(s, r);
      BindKeepsLists(unbound, r, h);
      Bind(unbound, r, h)
    else if s.binding[r] != Some(h) then s
    else Unbind(s, r)
  }

  /** The depth-first walk over the children of node n from number c on. A node with a
      handler of its own for the space hides everything below it. */
  function Walk(s: State, n: nat, c: nat, h: nat, action: Action): (s': State)
    requires ListsInv(s) && n < |s.binding| && c <= |s.binding| && h < |s.lists|
    ensures ListsInv(s') && s'.tree == s.tree
    decreases |s.binding| - c
  {
    if c == |s.binding| then s
    else if c == 0 || s.tree.nodes[c].parent != n then Walk(s, n, c + 1, h, action)
    else
      var space := s.tree.spaces[h];
      var visited := if s.tree.nodes[c].kind == Region(space) then Rebind(s, c, h, action) else s;
      var below := if HandlerAt(s.tree, c, space).Some? then visited else Walk(visited, c, c + 1, h, action);
      Walk(below, n, c + 1, h, action)
  }

  /** The child of n through which r hangs below n with no handler for the space on any
      node strictly between n and r. */
  function Via(t: Tree, n: nat, r: nat, space: nat): (k: Option<nat>)
    requires t.Valid() && r < |t.nodes|
    ensures k.Some? ==> n < k.value <= r && t.nodes[k.value].parent == n
  {
    if r == 0 then None
    else if t.nodes[r].parent == n then Some(r)
    else if HandlerAt(t, t.nodes[r].parent, space).Some? then None
    else Via(t, n, t.nodes[r].parent, space)
  }

  lemma {:induction false} ViaChild(t: Tree, c: nat, r: nat, space: nat)
    requires t.Valid() && 0 < c < |t.nodes| && r < |t.nodes|
    ensures Via(t, t.nodes[c].parent, r, space) == Some(c)
            <==> r == c || (HandlerAt(t, c, space).None? && Via(t, c, r, space).Some?)
  {
    hide HandlerAt;
    if r > 0 && t.nodes[r].parent != t.nodes[c].parent && HandlerAt(t, t.nodes[r].parent, space).None? {
      ViaChild(t, c, t.nodes[r].parent, space);
    }
  }

  predicate Reached(t: Tree, n: nat, c: nat, r: nat, space: nat)
    requires t.Valid() && r < |t.nodes|
  {
    && t.nodes[r].kind == Region(space)
    && Via(t, n, r, space).Some? && Via(t, n, r, space).value >= c
  }

  /** Child c splits what the walk reaches: c itself, what hangs below it, the rest. */
  lemma ReachedSplits(t: Tree, c: nat, r: nat, space: nat)
    requires t.Valid() && 0 < c < |t.nodes| && r < |t.nodes|
    ensures Reached(t, t.nodes[c].parent, c, r, space)
            <==> || (r == c && t.nodes[c].kind == Region(space))
                 || (HandlerAt(t, c, space).None? && Reached(t, c, c + 1, r, space))
                 || Reached(t, t.nodes[c].parent, c + 1, r, space)
  {
    hide HandlerAt, Via;
    ViaChild(t, c, r, space);
  }

  /** The walk rebinds exactly the regions of the space with a free way up to n. */
  lemma {:induction false} WalkReaches(s: State, n: nat, c: nat, h: nat, action: Action, r: nat)
    requires ListsInv(s) && n < |s.binding| && c <= |s.binding| && h < |s.lists| && r < |s.binding|
    ensures var space := s.tree.spaces[h];
            Walk(s, n, c, h, action).binding[r]
            == if Reached(s.tree, n, c, r, space) then NewBinding(s.binding[r], h, action) else s.binding[r]
    decreases |s.binding| - c
  {
    hide Links, HandlerAt, Rebind, Via;
    if c == |s.binding| {
    } else if c == 0 || s.tree.nodes[c].parent != n {
      WalkReaches(s, n, c + 1, h, action, r);
    } else {
      hide Reached;
      var space := s.tree.spaces[h];
      var visited := if s.tree.nodes[c].kind == Region(space) then Rebind(s, c, h, action) else s;
      var below := visited;
      if HandlerAt(s.tree, c, space).None? {
        WalkReaches(visited, c, c + 1, h, action, r);
        below := Walk(visited, c, c + 1, h, action);
      }
      WalkReaches(below, n, c + 1, h, action, r);
      ReachedSplits(s.tree, c, r, space);
    }
  }

  // Operations

  datatype Status = Ok | InvalidArgument | AlreadyExists | NoHandler

  datatype Step =
    | Create(parent: nat, kind: Kind)          // a node, with `uacpi_initialize_opregion_node` for a region
    | InstallHandler(node: nat, space: nat)
    | UninstallHandler(node: nat, space: nat)

  function Created(s: State, parent: nat, kind: Kind): State
    requires ListsInv(s) && parent < |s.tree.nodes|
  {
    var s' := State(s.tree.(nodes := s.tree.nodes + [Node(parent, kind, [])]), s.binding + [None], s.lists);
    if !kind.Region? then s'
    else match Nearest(s.tree, parent, kind.space)
      case None => s'
      case Some(h) =>
        NearestIsAHandler(s.tree, parent, kind.space);
        Bind(s', |s.tree.nodes|, h)
  }

  function WithHandlers(t: Tree, n: nat, handlers: seq<nat>): Tree
    requires n < |t.nodes|
  {
    t.(nodes := t.nodes[n := t.nodes[n].(handlers := handlers)])
  }

  function Installed(s: State, n: nat, space: nat): (State, Status)
    requires ListsInv(s) && n < |s.tree.nodes|
  {
    if !s.tree.nodes[n].kind.Host? then (s, InvalidArgument)
    else if HandlerAt(s.tree, n, space).Some? then (s, AlreadyExists)
    else
      var s' := WithNewHandler(s, n, space);
      WithNewHandlerIsValid(s, n, space);
      (Walk(s', n, 0, |s.lists|, InstallAll), Ok)
  }

  function WithNewHandler(s: State, n: nat, space: nat): State
    requires n < |s.tree.nodes|
  {
    State(WithHandlers(s.tree, n, [|s.lists|] + s.tree.nodes[n].handlers).(spaces := s.tree.spaces + [space]),
          s.binding, s.lists + [[]])
  }

  function Uninstalled(s: State, n: nat, space: nat): (State, Status)
    requires ListsInv(s) && n < |s.tree.nodes|
  {
    if !s.tree.nodes[n].kind.Host? then (s, InvalidArgument)
    else match HandlerAt(s.tree, n, space)
      case None => (s, NoHandler)
      case Some(h) =>
        var s' := Walk(s, n, 0, h, UninstallAll);
        (s'.(tree := WithHandlers(s.tree, n, Unlink(s.tree.nodes[n].handlers, h))), Ok)
  }

  lemma {:induction false} NearestIsAHandler(t: Tree, n: nat, space: nat)
    requires t.Valid() && n < |t.nodes|
    ensures Nearest(t, n, space).Some? ==> Nearest(t, n, space).value < |t.spaces|
  {
    if HandlerAt(t, n, space).None? && n > 0 {
      NearestIsAHandler(t, t.nodes[n].parent, space);
    }
  }

  lemma WithNewHandlerIsValid(s: State, n: nat, space: nat)
    requires ListsInv(s) && n < |s.tree.nodes| && s.tree.nodes[n].kind.Host?
    ensures ListsInv(WithNewHandler(s, n, space))
  {
    var s' := WithNewHandler(s, n, space);
    forall h: nat | h < |s'.lists|
      ensures IsListOf(s'.lists[h], s'.binding, h)
    {
      assert h < |s.lists| ==> IsListOf(s.lists[h], s.binding, h);
    }
  }

  // Invariant

  /** Handlers of one node serve different spaces, and no two nodes share one. */
  ghost predicate HandlersInv(t: Tree)
    requires t.Valid()
  {
    && (forall n, g, h | 0 <= n < |t.nodes| && g in t.nodes[n].handlers && h in t.nodes[n].handlers ::
          t.spaces[g] == t.spaces[h] ==> g == h)
    && (forall n | 0 <= n < |t.nodes| :: Distinct(t.nodes[n].handlers))
    && (forall n, m, h | 0 <= n < |t.nodes| && 0 <= m < |t.nodes| && h in t.nodes[n].handlers
        && h in t.nodes[m].handlers ::
          n == m)
  }

  /** What the rule says about node r: nothing unless it is a region. */
  function Rule(t: Tree, r: nat): Option<nat>
    requires t.Valid() && r < |t.nodes|
  {
    if r == 0 || !t.nodes[r].kind.Region? then None else Nearest(t, t.nodes[r].parent, t.nodes[r].kind.space)
  }

  /** Every region has no handler or the one of its nearest ancestor that has one. */
  ghost predicate Inv(s: State) {
    && ListsInv(s) && HandlersInv(s.tree)
    && forall r: nat | r < |s.binding| :: s.binding[r] == None || s.binding[r] == Rule(s.tree, r)
  }

  /** Without uninstalls every region has exactly that handler. */
  ghost predicate FullInv(s: State) {
    Inv(s) && forall r: nat | r < |s.binding| :: s.binding[r] == Rule(s.tree, r)
  }

  // How a change at one node moves the rule

  /** The trees differ at most in what node d says about the space. */
  ghost predicate DifferAt(t: Tree, t': Tree, d: nat, space: nat)
  {
    && t.Valid() && t'.Valid() && |t.nodes| == |t'.nodes|
    && (forall n: nat | n < |t.nodes| :: t.nodes[n].parent == t'.nodes[n].parent && t.nodes[n].kind == t'.nodes[n].kind)
    && forall n: nat | n < |t.nodes| && n != d :: HandlerAt(t, n, space) == HandlerAt(t', n, space)
  }

  lemma {:induction false} RuleMoves(t: Tree, t': Tree, d: nat, r: nat, space: nat)
    requires DifferAt(t, t', d, space) && 0 < r < |t.nodes| && d < |t.nodes|
    ensures Via(t, d, r, space) == Via(t', d, r, space)
    ensures Via(t, d, r, space).None? ==>
              Nearest(t', t.nodes[r].parent, space) == Nearest(t, t.nodes[r].parent, space)
    ensures Via(t, d, r, space).Some? ==>
              && (HandlerAt(t, d, space).Some? ==> Nearest(t, t.nodes[r].parent, space) == HandlerAt(t, d, space))
              && (HandlerAt(t', d, space).Some? ==> Nearest(t', t.nodes[r].parent, space) == HandlerAt(t', d, space))
  {
    hide HandlerAt;
    var p := t.nodes[r].parent;
    if p != d && p > 0 && HandlerAt(t, p, space).None? {
      RuleMoves(t, t', d, p, space);
    }
  }

  /** A region whose rule names a handler of node d has a free way up to d. */
  lemma {:induction false} RuleIsReached(t: Tree, d: nat, r: nat, space: nat, h: nat)
    requires t.Valid() && HandlersInv(t) && d < |t.nodes| && 0 < r < |t.nodes| && h in t.nodes[d].handlers
    requires Nearest(t, t.nodes[r].parent, space) == Some(h)
    ensures Via(t, d, r, space).Some?
  {
    var p := t.nodes[r].parent;
    if p != d {
      assert HandlerAt(t, p, space).None? && p > 0;
      RuleIsReached(t, d, p, space, h);
    }
  }

  // Every operation keeps the invariant

  lemma {:induction false} NearestExtends(t: Tree, t': Tree, n: nat, space: nat)
    requires t.Valid() && t'.Valid() && n < |t.nodes| && t.nodes <= t'.nodes && t.spaces == t'.spaces
    ensures Nearest(t', n, space) == Nearest(t, n, space)
  {
    if HandlerAt(t, n, space).None? && n > 0 {
      NearestExtends(t, t', t.nodes[n].parent, space);
    }
  }

  lemma CreatedKeepsLists(s: State, parent: nat, kind: Kind)
    requires ListsInv(s) && parent < |s.tree.nodes|
    ensures ListsInv(Created(s, parent, kind))
    ensures var s' := Created(s, parent, kind);
            && s'.tree == s.tree.(nodes := s.tree.nodes + [Node(parent, kind, [])])
            && s'.binding == s.binding + [if kind.Region? then Nearest(s.tree, parent, kind.space) else None]
  {
    var s' := State(s.tree.(nodes := s.tree.nodes + [Node(parent, kind, [])]), s.binding + [None], s.lists);
    assert forall h: nat | h < |s.lists| && IsListOf(s.lists[h], s.binding, h) :: IsListOf(s.lists[h], s'.binding, h);
    assert ListsInv(s');
    if kind.Region? && Nearest(s.tree, parent, kind.space).Some? {
      NearestIsAHandler(s.tree, parent, kind.space);
      BindKeepsLists(s', |s.tree.nodes|, Nearest(s.tree, parent, kind.space).value);
    }
  }

  lemma CreatedKeepsHandlers(t: Tree, n: Node)
    requires t.Valid() && HandlersInv(t) && n.handlers == [] && t.(nodes := t.nodes + [n]).Valid()
    ensures HandlersInv(t.(nodes := t.nodes + [n]))
  {
  }

  lemma CreatedKeepsInv(s: State, parent: nat, kind: Kind)
    requires Inv(s) && parent < |s.tree.nodes|
    ensures Inv(Created(s, parent, kind))
    ensures FullInv(s) ==> FullInv(Created(s, parent, kind))
  {
    CreatedKeepsLists(s, parent, kind);
    hide Links, Created, Nearest, ListsInv;
    var s' := Created(s, parent, kind);
    assert HandlersInv(s.tree);
    hide HandlersInv;
    assert s.tree.Valid() && s'.tree.Valid();
    CreatedKeepsHandlers(s.tree, Node(parent, kind, []));
    forall r: nat | 0 < r < |s'.binding| && s'.tree.nodes[r].kind.Region?
      ensures Rule(s'.tree, r) == Nearest(s.tree, s'.tree.nodes[r].parent, s'.tree.nodes[r].kind.space)
    {
      NearestExtends(s.tree, s'.tree, s'.tree.nodes[r].parent, s'.tree.nodes[r].kind.space);
    }
  }

  lemma {:induction false} FindExtends(spaces: seq<nat>, space': nat, handlers: seq<nat>, space: nat)
    requires forall h: nat | h in handlers :: h < |spaces|
    ensures FindHandler(spaces + [space'], handlers, space) == FindHandler(spaces, handlers, space)
  {
    if handlers != [] {
      assert handlers[0] in handlers && forall h: nat | h in handlers[1..] :: h in handlers;
      FindExtends(spaces, space', handlers[1..], space);
    }
  }

  lemma NewHandlerAt(s: State, n: nat, space: nat, m: nat, other: nat)
    requires ListsInv(s) && n < |s.tree.nodes| && s.tree.nodes[n].kind.Host? && m < |s.tree.nodes|
    ensures WithNewHandler(s, n, space).tree.Valid()
    ensures HandlerAt(WithNewHandler(s, n, space).tree, m, other)
            == if m == n && other == space then Some(|s.lists|) else HandlerAt(s.tree, m, other)
  {
    WithNewHandlerIsValid(s, n, space);
    var t, t' := s.tree, WithNewHandler(s, n, space).tree;
    FindExtends(t.spaces, space, t.nodes[m].handlers, other);
    if m == n {
      assert t'.nodes[n].handlers[1..] == t.nodes[n].handlers;
    }
  }

  lemma NewHandlerKeepsHandlers(s: State, n: nat, space: nat)
    requires ListsInv(s) && HandlersInv(s.tree) && n < |s.tree.nodes| && s.tree.nodes[n].kind.Host?
    requires HandlerAt(s.tree, n, space).None?
    ensures WithNewHandler(s, n, space).tree.Valid() && HandlersInv(WithNewHandler(s, n, space).tree)
  {
    hide Links;
    WithNewHandlerIsValid(s, n, space);
    var t, t' := s.tree, WithNewHandler(s, n, space).tree;
    forall m | 0 <= m < |t'.nodes|
      ensures Distinct(t'.nodes[m].handlers)
    {
      if m == n {
        assert |t.spaces| !in t.nodes[n].handlers;
      }
    }
  }

  /** After an install every region that was bound by the rule still is, and exactly the
      regions whose rule now names the new handler were moved to it. */
  lemma InstalledKeepsInv(s: State, n: nat, space: nat)
    requires Inv(s) && n < |s.tree.nodes|
    ensures Inv(Installed(s, n, space).0)
    ensures FullInv(s) ==> FullInv(Installed(s, n, space).0)
  {
    if Installed(s, n, space).1 == Ok {
      WithNewHandlerIsValid(s, n, space);
      NewHandlerKeepsHandlers(s, n, space);
      var s' := WithNewHandler(s, n, space);
      var w := Walk(s', n, 0, |s.lists|, InstallAll);
      forall r: nat | r < |s.binding|
        ensures w.binding[r] == Rule(s'.tree, r) || (w.binding[r] == s.binding[r] && s.binding[r] != Rule(s.tree, r))
      {
        InstalledBinding(s, n, space, r);
      }
    }
  }

  lemma InstalledBinding(s: State, n: nat, space: nat, r: nat)
    requires ListsInv(s) && n < |s.tree.nodes| && s.tree.nodes[n].kind.Host? && r < |s.binding|
    requires HandlerAt(s.tree, n, space).None? && ListsInv(WithNewHandler(s, n, space))
    ensures var s' := WithNewHandler(s, n, space);
            var w := Walk(s', n, 0, |s.lists|, InstallAll);
            (w.binding[r] == s.binding[r] && Rule(s'.tree, r) == Rule(s.tree, r)) || w.binding[r] == Rule(s'.tree, r)
  {
    hide Links, HandlerAt;
    var s' := WithNewHandler(s, n, space);
    var h := |s.lists|;
    WalkReaches(s', n, 0, h, InstallAll, r);
    if r > 0 && s.tree.nodes[r].kind.Region? {
      var other := s.tree.nodes[r].kind.space;
      forall m: nat | m < |s.tree.nodes|
        ensures HandlerAt(s'.tree, m, other)
             == if m == n && other == space then Some(h) else HandlerAt(s.tree, m, other)
      {
        NewHandlerAt(s, n, space, m, other);
      }
      var d := if other == space then n else r;
      RuleMoves(s.tree, s'.tree, d, r, other);
    }
  }

  lemma {:induction false} FindUnlink(spaces: seq<nat>, handlers: seq<nat>, h: nat, space: nat)
    requires forall g: nat | g in handlers :: g < |spaces|
    requires h in handlers && Distinct(handlers)
    requires forall g | g in handlers && spaces[g] == spaces[h] :: g == h
    ensures forall g | g in Unlink(handlers, h) :: g in handlers && g != h
    ensures FindHandler(spaces, Unlink(handlers, h), space)
            == if spaces[h] == space then None else FindHandler(spaces, handlers, space)
  {
    UnlinkIsExact(handlers, h);
    assert handlers[0] in handlers && forall g: nat | g in handlers[1..] :: g in handlers;
    if handlers[0] != h {
      assert h in handlers[1..];
      FindUnlink(spaces, handlers[1..], h, space);
      assert Unlink(handlers, h)[1..] == Unlink(handlers[1..], h);
    }
  }

  /** Uninstalling h leaves the tree valid, only node n's answer for h's space changed. */
  lemma WithoutHandlerAt(t: Tree, n: nat, h: nat)
    requires t.Valid() && HandlersInv(t) && n < |t.nodes| && h in t.nodes[n].handlers
    ensures var t' := WithHandlers(t, n, Unlink(t.nodes[n].handlers, h));
            && t'.Valid() && HandlersInv(t')
            && forall m: nat, space | m < |t.nodes| ::
                 HandlerAt(t', m, space) == if m == n && space == t.spaces[h] then None else HandlerAt(t, m, space)
  {
    UnlinkIsExact(t.nodes[n].handlers, h);
    var t' := WithHandlers(t, n, Unlink(t.nodes[n].handlers, h));
    assert t'.Valid();
    forall m: nat, space | m < |t.nodes|
      ensures HandlerAt(t', m, space) == if m == n && space == t.spaces[h] then None else HandlerAt(t, m, space)
    {
      if m == n {
        FindUnlink(t.spaces, t.nodes[n].handlers, h, space);
      }
    }
  }

  lemma UninstalledBinding(s: State, n: nat, h: nat, r: nat)
    requires Inv(s) && n < |s.tree.nodes| && r < |s.binding| && h in s.tree.nodes[n].handlers
    requires HandlerAt(s.tree, n, s.tree.spaces[h]) == Some(h)
    ensures var w := Walk(s, n, 0, h, UninstallAll);
            var t' := WithHandlers(s.tree, n, Unlink(s.tree.nodes[n].handlers, h));
            && t'.Valid() && w.binding[r] != Some(h)
            && (w.binding[r] == None || w.binding[r] == Rule(t', r))
  {
    hide Links, HandlerAt;
    var t := s.tree;
    WithoutHandlerAt(t, n, h);
    var t' := WithHandlers(t, n, Unlink(t.nodes[n].handlers, h));
    WalkReaches(s, n, 0, h, UninstallAll, r);
    if r > 0 && t.nodes[r].kind.Region? {
      var space := t.nodes[r].kind.space;
      var d := if space == t.spaces[h] then n else r;
      RuleMoves(t, t', d, r, space);
      if s.binding[r] == Some(h) {
        RuleIsReached(t, n, r, space, h);
        NearestServes(t, t.nodes[r].parent, space);
      }
    }
  }

  lemma {:induction false} NearestServes(t: Tree, n: nat, space: nat)
    requires t.Valid() && n < |t.nodes|
    ensures Nearest(t, n, space).Some? ==>
              Nearest(t, n, space).value < |t.spaces| && t.spaces[Nearest(t, n, space).value] == space
  {
    if HandlerAt(t, n, space).None? && n > 0 {
      NearestServes(t, t.nodes[n].parent, space);
    }
  }

  lemma HeadIsMember(list: seq<nat>)
    ensures list == [] || list[0] in list
  {
  }

  /** Uninstalling unbinds every region of the handler, and no other region. */
  lemma UninstalledKeepsInv(s: State, n: nat, space: nat)
    requires Inv(s) && n < |s.tree.nodes|
    ensures var (s', status) := Uninstalled(s, n, space);
            && Inv(s')
            && (status == Ok ==>
                  && HandlerAt(s.tree, n, space).Some?
                  && var h := HandlerAt(s.tree, n, space).value;
                     && s'.lists[h] == []
                     && forall r: nat | r < |s.binding| ::
                          s'.binding[r] == if s.binding[r] == Some(h) then None else s.binding[r])
  {
    var (s', status) := Uninstalled(s, n, space);
    if status == Ok {
      var h := HandlerAt(s.tree, n, space).value;
      WithoutHandlerAt(s.tree, n, h);
      forall r: nat | r < |s.binding|
        ensures s'.binding[r] != Some(h) && (s'.binding[r] == None || s'.binding[r] == Rule(s'.tree, r))
        ensures s'.binding[r] == if s.binding[r] == Some(h) then None else s.binding[r]
      {
        UninstalledBinding(s, n, h, r);
        WalkReaches(s, n, 0, h, UninstallAll, r);
      }
      assert IsListOf(s'.lists[h], s'.binding, h);
      assert forall r: nat :: r !in s'.lists[h];
      HeadIsMember(s'.lists[h]);
    }
  }

  /** An install is carried out exactly on a node that can have handlers and has none for
      the space. The new handler is the node's only change, no other region's binding moves,
      and exactly the regions below the node with a free way up to it are moved. */
  lemma InstallOutcome(s: State, n: nat, space: nat)
    requires Inv(s) && n < |s.tree.nodes|
    ensures var (s', status) := Installed(s, n, space);
            && status == (if !s.tree.nodes[n].kind.Host? then InvalidArgument
                          else if HandlerAt(s.tree, n, space).Some? then AlreadyExists else Ok)
            && (status != Ok ==> s' == s)
            && (status == Ok ==>
                  && |s'.binding| == |s.binding| && s'.tree == WithNewHandler(s, n, space).tree
                  && s'.tree.spaces == s.tree.spaces + [space]
                  && s'.tree.nodes[n].handlers == [|s.lists|] + s.tree.nodes[n].handlers
                  && forall r: nat | r < |s.binding| ::
                       s'.binding[r] == if Reached(s'.tree, n, 0, r, space) then Some(|s.lists|) else s.binding[r])
  {
    hide Reached, Inv;
    assert ListsInv(s) by { Invariants(s); }
    if Installed(s, n, space).1 == Ok {
      WithNewHandlerIsValid(s, n, space);
      var s' := WithNewHandler(s, n, space);
      forall r: nat | r < |s.binding|
        ensures Walk(s', n, 0, |s.lists|, InstallAll).binding[r]
             == if Reached(s'.tree, n, 0, r, space) then Some(|s.lists|) else s.binding[r]
      {
        WalkReaches(s', n, 0, |s.lists|, InstallAll, r);
      }
    }
  }

  lemma Invariants(s: State)
    requires Inv(s)
    ensures ListsInv(s) && HandlersInv(s.tree)
  {
  }

  /** An uninstall is carried out exactly on a node that has a handler for the space, which
      leaves its list. */
  lemma UninstallOutcome(s: State, n: nat, space: nat)
    requires Inv(s) && n < |s.tree.nodes|
    ensures var (s', status) := Uninstalled(s, n, space);
            && status == (if !s.tree.nodes[n].kind.Host? then InvalidArgument
                          else if HandlerAt(s.tree, n, space).None? then NoHandler else Ok)
            && (status != Ok ==> s' == s)
            && (status == Ok ==>
                  var h := HandlerAt(s.tree, n, space).value;
                  && s'.tree.spaces == s.tree.spaces && |s'.tree.nodes| == |s.tree.nodes|
                  && (forall m: nat | m < |s.tree.nodes| && m != n :: s'.tree.nodes[m] == s.tree.nodes[m])
                  && forall g :: g in s'.tree.nodes[n].handlers <==> g in s.tree.nodes[n].handlers && g != h)
  {
    hide Walk;
    assert ListsInv(s) && HandlersInv(s.tree);
    if Uninstalled(s, n, space).1 == Ok {
      UnlinkIsExact(s.tree.nodes[n].handlers, HandlerAt(s.tree, n, space).value);
    }
  }

  /** A new node is there, and a region bound to the nearest handler above it. */
  lemma CreateOutcome(s: State, parent: nat, kind: Kind)
    requires Inv(s) && parent < |s.tree.nodes|
    ensures var s' := Created(s, parent, kind);
            && s'.tree.nodes == s.tree.nodes + [Node(parent, kind, [])] && s'.tree.spaces == s.tree.spaces
            && s'.binding == s.binding + [if kind.Region? then Nearest(s.tree, parent, kind.space) else None]
  {
    CreatedKeepsLists(s, parent, kind);
  }

  /** The handler of the nearest node above, k levels up, the node itself included. */
  lemma {:induction false} NearestIsNearest(t: Tree, n: nat, space: nat) returns (k: nat)
    requires t.Valid() && n < |t.nodes|
    ensures forall j: nat | j < k :: HandlerAt(t, Above(t, n, j), space).None?
    ensures if Nearest(t, n, space).None? then Above(t, n, k) == 0 && HandlerAt(t, 0, space).None?
            else Nearest(t, n, space) == HandlerAt(t, Above(t, n, k), space)
    decreases n
  {
    hide HandlerAt;
    k := 0;
    assert Above(t, n, 0) == n;
    if HandlerAt(t, n, space).None? && n != 0 {
      var p := t.nodes[n].parent;
      var above := NearestIsNearest(t, p, space);
      k := above + 1;
      forall j: nat | j <= above
        ensures Above(t, n, j + 1) == Above(t, p, j)
      {
        AboveParent(t, n, j);
      }
      forall j: nat | j < k
        ensures HandlerAt(t, Above(t, n, j), space).None?
      {
        assert j > 0 ==> Above(t, n, j - 1 + 1) == Above(t, p, j - 1);
      }
    }
  }

  /** The node so many levels up; above the root there is the root. */
  function Above(t: Tree, n: nat, k: nat): (a: nat)
    requires t.Valid() && n < |t.nodes|
    ensures a < |t.nodes|
  {
    if k == 0 || n == 0 then n
    else
      var below := Above(t, n, k - 1);
      if below == 0 then 0 else t.nodes[below].parent
  }

  lemma {:induction false} AboveParent(t: Tree, n: nat, k: nat)
    requires t.Valid() && 0 < n < |t.nodes|
    ensures Above(t, n, k + 1) == Above(t, t.nodes[n].parent, k)
  {
    if k > 0 {
      AboveParent(t, n, k - 1);
    }
  }

  // Runs

  function After(s: State, step: Step): State
    requires ListsInv(s)
  {
    var size := |s.tree.nodes|;
    match step
    case Create(parent, kind) => if parent < size then Created(s, parent, kind) else s
    case InstallHandler(n, space) => if n < size then Installed(s, n, space).0 else s
    case UninstallHandler(n, space) => if n < size then Uninstalled(s, n, space).0 else s
  }

  /** Only the root, without handlers. */
  const Start: State := State(Tree([Node(0, Host, [])], []), [None], [])

  lemma StepKeepsInv(s: State, step: Step)
    requires Inv(s)
    ensures Inv(After(s, step))
    ensures FullInv(s) && !step.UninstallHandler? ==> FullInv(After(s, step))
  {
    var size := |s.tree.nodes|;
    match step
    case Create(parent, kind) => if parent < size { CreatedKeepsInv(s, parent, kind); }
    case InstallHandler(n, space) => if n < size { InstalledKeepsInv(s, n, space); }
    case UninstallHandler(n, space) => if n < size { UninstalledKeepsInv(s, n, space); }
  }

  /** The state after a run of operations. */
  function Execute(steps: seq<Step>): (s: State)
    ensures Inv(s)
    decreases |steps|
  {
    if steps == [] then
      StartIsValid();
      Start
    else
      StepKeepsInv(Execute(steps[..|steps| - 1]), steps[|steps| - 1]);
      After(Execute(steps[..|steps| - 1]), steps[|steps| - 1])
  }

  lemma StartIsValid()
    ensures FullInv(Start)
  {
    assert Start.lists == [];
  }

  lemma {:induction false} RunKeepsFullInv(steps: seq<Step>)
    requires forall step | step in steps :: !step.UninstallHandler?
    ensures FullInv(Execute(steps))
    decreases |steps|
  {
    if steps == [] {
      StartIsValid();
    } else {
      var init, last := steps[..|steps| - 1], steps[|steps| - 1];
      assert last in steps && forall step | step in init :: step in steps;
      RunKeepsFullInv(init);
      StepKeepsInv(Execute(init), last);
    }
  }

  /** In every run of region creations and handler installs each region is bound to the
      handler of its nearest ancestor that has one for its space, or to none if no
      ancestor has one; uninstalls can only leave regions without a handler. In all runs
      every handler's list holds exactly its bound regions, none of them twice. */
  lemma BoundToNearest(steps: seq<Step>, r: nat)
    requires r < |Execute(steps).tree.nodes|
    ensures var s := Execute(steps);
            && (forall h: nat | h < |s.lists| :: IsListOf(s.lists[h], s.binding, h))
            && (s.binding[r] == None || s.binding[r] == Rule(s.tree, r))
            && ((forall step | step in steps :: !step.UninstallHandler?) ==> s.binding[r] == Rule(s.tree, r))
  {
    hide Execute, Rule;
    if forall step | step in steps :: !step.UninstallHandler? {
      RunKeepsFullInv(steps);
    }
  }
}

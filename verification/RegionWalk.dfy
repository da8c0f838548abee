/** The walk that binds regions is the general namespace walk: the recursive rebinding of
    `OpRegion` is what the callback `do_install_or_uninstall_handler` of
    src/kern/acpi/opregion.c does along the calls of `NamespaceWalk`. */
module RegionWalk {
  import opened Common
  import opened OpRegion
  import N = NamespaceTree
  import W = NamespaceWalk

  /** The numbers of the children of node n, from c on, in order. */
  function Children(t: Tree, n: nat, c: nat): (cs: seq<nat>)
    requires c <= |t.nodes|
    ensures forall i: nat | i < |cs| :: c <= cs[i] < |t.nodes| && cs[i] > 0 && t.nodes[cs[i]].parent == n
    decreases |t.nodes| - c
  {
    if c == |t.nodes| then []
    else if c > 0 && t.nodes[c].parent == n then [c] + Children(t, n, c + 1)
    else Children(t, n, c + 1)
  }

  /** The linked tree has the shape of the numbered one below node n. */
  ghost predicate Numbered(t: Tree, l: N.Tree, n: nat, number: map<N.Node, nat>)
    decreases l, 1
  {
    && l.node in number && number[l.node] == n && n < |t.nodes|
    && NumberedList(t, l.children, Children(t, n, 0), number)
  }

  ghost predicate NumberedList(t: Tree, ls: seq<N.Tree>, cs: seq<nat>, number: map<N.Node, nat>)
    decreases ls, 0
  {
    |ls| == |cs| && (ls != [] ==> Numbered(t, ls[0], cs[0], number) && NumberedList(t, ls[1..], cs[1..], number))
  }

  // The callback

  /** What it decides for node c. */
  ghost function Decide(t: Tree, c: nat, space: nat): W.Decision
    requires t.Valid() && c < |t.nodes|
  {
    if t.nodes[c].kind.Region? then W.Continue
    else if HandlerAt(t, c, space).Some? then W.NextPeer else W.Continue
  }

  /** What it does to node c. */
  function Visit(s: State, c: nat, h: nat, action: Action): (s': State)
    requires ListsInv(s) && c < |s.binding| && h < |s.lists|
    ensures ListsInv(s') && s'.tree == s.tree
  {
    if s.tree.nodes[c].kind == Region(s.tree.spaces[h]) then Rebind(s, c, h, action) else s
  }

  predicate Known(calls: seq<W.Call>, number: map<N.Node, nat>, count: nat) {
    forall k | 0 <= k < |calls| :: calls[k].node in number && number[calls[k].node] < count
  }

  /** Its effect along some calls. */
  ghost function Along(s: State, calls: seq<W.Call>, number: map<N.Node, nat>, h: nat, action: Action): (s': State)
    requires ListsInv(s) && h < |s.lists| && Known(calls, number, |s.binding|)
    ensures ListsInv(s') && s'.tree == s.tree
    decreases |calls|
  {
    if calls == [] then s
    else Along(Visit(s, number[calls[0].node], h, action), calls[1..], number, h, action)
  }

  lemma {:induction false} AlongBoth(s: State, a: seq<W.Call>, b: seq<W.Call>, number: map<N.Node, nat>, h: nat,
                                     action: Action)
    requires ListsInv(s) && h < |s.lists| && Known(a, number, |s.binding|) && Known(b, number, |s.binding|)
    ensures Known(a + b, number, |s.binding|)
    ensures Along(s, a + b, number, h, action) == Along(Along(s, a, number, h, action), b, number, h, action)
    decreases |a|
  {
    hide Visit, Links;
    if a == [] {
      assert a + b == b;
    } else {
      AlongBoth(Visit(s, number[a[0].node], h, action), a[1..], b, number, h, action);
      assert (a + b)[1..] == a[1..] + b;
    }
  }

  /** Descending calls only, all types, any depth. */
  ghost function RegionWalk(t: Tree, number: map<N.Node, nat>, space: nat, kinds: set<nat>, maxDepth: nat,
                            permanentOnly: bool)
      : W.Walk
    requires t.Valid()
  {
    W.Walk(true, false, kinds, maxDepth, permanentOnly,
           (calls: seq<W.Call>) =>
             if calls != [] && calls[|calls| - 1].node in number && number[calls[|calls| - 1].node] < |t.nodes|
             then Decide(t, number[calls[|calls| - 1].node], space) else W.Unknown)
  }

  /** The walk does not pass over a node for its type or its lifetime. */
  ghost predicate Unfiltered(number: map<N.Node, nat>, kinds: set<nat>, permanentOnly: bool) {
    forall n: N.Node | n in number :: n.kind in kinds && !(permanentOnly && n.temporary)
  }

  // The recursive walk over a list of children

  ghost function WalkList(s: State, cs: seq<nat>, h: nat, action: Action): (s': State)
    requires ListsInv(s) && h < |s.lists| && forall i: nat | i < |cs| :: cs[i] < |s.binding|
    ensures ListsInv(s') && s'.tree == s.tree
    decreases |cs|
  {
    if cs == [] then s
    else
      var visited := Visit(s, cs[0], h, action);
      var below := if HandlerAt(s.tree, cs[0], s.tree.spaces[h]).Some? then visited
                   else Walk(visited, cs[0], 0, h, action);
      WalkList(below, cs[1..], h, action)
  }

  /** No child comes before its parent. */
  lemma {:induction false} LateStart(s: State, n: nat, c: nat, h: nat, action: Action)
    requires ListsInv(s) && n < |s.binding| && c <= n + 1 && h < |s.lists|
    ensures Walk(s, n, c, h, action) == Walk(s, n, n + 1, h, action)
    decreases n + 1 - c
  {
    hide Links, Rebind, HandlerAt;
    if c <= n {
      LateStart(s, n, c + 1, h, action);
    }
  }

  lemma {:induction false} WalkIsList(s: State, n: nat, c: nat, h: nat, action: Action)
    requires ListsInv(s) && n < |s.binding| && c <= |s.binding| && h < |s.lists|
    ensures Walk(s, n, c, h, action) == WalkList(s, Children(s.tree, n, c), h, action)
    decreases |s.binding| - c
  {
    hide Links, Rebind, HandlerAt;
    if c == |s.binding| {
    } else if c == 0 || s.tree.nodes[c].parent != n {
      WalkIsList(s, n, c + 1, h, action);
    } else {
      var visited := Visit(s, c, h, action);
      LateStart(visited, c, 0, h, action);
      var below := if HandlerAt(s.tree, c, s.tree.spaces[h]).Some? then visited else Walk(visited, c, c + 1, h, action);
      WalkIsList(below, n, c + 1, h, action);
      assert ([c] + Children(s.tree, n, c + 1))[1..] == Children(s.tree, n, c + 1);
    }
  }

  // The calls of the general walk

  datatype Setting = Setting(tree: Tree, number: map<N.Node, nat>, kinds: set<nat>, maxDepth: nat,
                             permanentOnly: bool, h: nat, action: Action) {
    ghost predicate Valid() {
      && tree.Valid() && h < |tree.spaces| && |tree.nodes| < maxDepth && Unfiltered(number, kinds, permanentOnly)
    }

    ghost function Walk(): W.Walk
      requires Valid()
    {
      RegionWalk(tree, number, tree.spaces[h], kinds, maxDepth, permanentOnly)
    }

    ghost predicate Fits(s: State) { ListsInv(s) && s.tree == tree }
  }

  lemma FitsMeans(g: Setting, s: State)
    requires g.Valid() && g.Fits(s)
    ensures |s.binding| == |g.tree.nodes| && g.h < |s.lists|
  {
  }

  /** The descending visit of node c. */
  lemma DownCalls(g: Setting, node: N.Node, c: nat, depth: nat, o: W.Outcome)
    requires g.Valid() && node in g.number && g.number[node] == c < |g.tree.nodes| && o.state.Going?
    ensures W.Down(g.Walk(), node, depth, o)
         == (W.Outcome(o.calls + [W.Call(node, false, depth)], W.Going), HandlerAt(g.tree, c, g.tree.spaces[g.h]).None?)
    ensures forall p: W.Outcome :: W.Up(g.Walk(), node, depth, p) == p
  {
    if g.tree.nodes[c].kind.Region? {
      NoHandlers(g.tree, c, g.tree.spaces[g.h]);
    }
    hide HandlerAt;
    var calls := o.calls + [W.Call(node, false, depth)];
    assert calls[|calls| - 1].node == node;
  }

  lemma WalkIsDeep(g: Setting)
    requires g.Valid()
    ensures g.Walk().maxDepth > |g.tree.nodes|
  {
  }

  lemma NoHandlers(t: Tree, c: nat, space: nat)
    requires t.Valid() && c < |t.nodes| && t.nodes[c].kind.Region?
    ensures HandlerAt(t, c, space).None?
  {
  }

  /** The calls `after` makes behind `before` do to the state what is said. */
  ghost predicate Does(g: Setting, s: State, before: W.Outcome, after: W.Outcome, s': State)
    requires g.Valid() && g.Fits(s)
  {
    && after.state.Going? && before.calls <= after.calls
    && Known(after.calls[|before.calls|..], g.number, |g.tree.nodes|)
    && (FitsMeans(g, s); Along(s, after.calls[|before.calls|..], g.number, g.h, g.action) == s')
  }

  lemma DoesNothing(g: Setting, s: State, o: W.Outcome)
    requires g.Valid() && g.Fits(s) && o.state.Going?
    ensures Does(g, s, o, o, s)
  {
    hide ListsInv;
    FitsMeans(g, s);
  }

  lemma DoesOne(g: Setting, s: State, o: W.Outcome, call: W.Call)
    requires g.Valid() && g.Fits(s) && o.state.Going? && call.node in g.number && g.number[call.node] < |g.tree.nodes|
    ensures |s.binding| == |g.tree.nodes| && g.h < |s.lists|
    ensures Does(g, s, o, W.Outcome(o.calls + [call], W.Going), Visit(s, g.number[call.node], g.h, g.action))
  {
    hide ListsInv, Visit;
    FitsMeans(g, s);
    var more, visited := (o.calls + [call])[|o.calls|..], Visit(s, g.number[call.node], g.h, g.action);
    assert more == [call] && more[1..] == [];
    FitsMeans(g, visited);
    assert Along(visited, more[1..], g.number, g.h, g.action) == visited;
    assert Along(s, more, g.number, g.h, g.action) == visited;
  }

  lemma DoesBoth(g: Setting, s: State, a: W.Outcome, b: W.Outcome, c: W.Outcome, s1: State, s2: State)
    requires g.Valid() && g.Fits(s) && g.Fits(s1) && Does(g, s, a, b, s1) && Does(g, s1, b, c, s2)
    ensures Does(g, s, a, c, s2)
  {
    hide ListsInv;
    FitsMeans(g, s);
    FitsMeans(g, s1);
    var x, y := b.calls[|a.calls|..], c.calls[|b.calls|..];
    assert c.calls[|a.calls|..] == x + y;
    AlongBoth(s, x, y, g.number, g.h, g.action);
  }

  lemma {:induction false} TreeFollows(g: Setting, s: State, l: N.Tree, c: nat, depth: nat, o: W.Outcome)
    requires g.Valid() && g.Fits(s) && o.state.Going?
    requires Numbered(g.tree, l, c, g.number) && depth <= c
    ensures |s.binding| == |g.tree.nodes| && g.h < |s.lists|
    ensures var visited := Visit(s, c, g.h, g.action);
            Does(g, s, o, W.VisitTree(g.Walk(), l, depth, o),
                 if HandlerAt(g.tree, c, g.tree.spaces[g.h]).Some? then visited else Walk(visited, c, 0, g.h, g.action))
    decreases l, 1
  {
    hide ListsInv, HandlerAt, Visit, Does, W.Down, W.Up, Walk, Setting.Walk;
    FitsMeans(g, s);
    WalkIsDeep(g);
    var visited, down := Visit(s, c, g.h, g.action), W.Outcome(o.calls + [W.Call(l.node, false, depth)], W.Going);
    DownCalls(g, l.node, c, depth, o);
    DoesOne(g, s, o, W.Call(l.node, false, depth));
    if HandlerAt(g.tree, c, g.tree.spaces[g.h]).None? {
      var cs := Children(g.tree, c, 0);
      LateChildren(g.tree, c);
      ListFollows(g, visited, l.children, cs, depth + 1, down);
      WalkIsList(visited, c, 0, g.h, g.action);
      DoesBoth(g, s, o, down, W.VisitList(g.Walk(), l.children, depth + 1, down), visited,
               Walk(visited, c, 0, g.h, g.action));
      DoesGoOn(g, visited, down, W.VisitList(g.Walk(), l.children, depth + 1, down),
               Walk(visited, c, 0, g.h, g.action));
    }
  }

  lemma DoesGoOn(g: Setting, s: State, a: W.Outcome, b: W.Outcome, s': State)
    requires g.Valid() && g.Fits(s) && Does(g, s, a, b, s')
    ensures b.state.Going?
  {
  }

  lemma LateChildren(t: Tree, n: nat)
    requires t.Valid() && n < |t.nodes|
    ensures forall i: nat | i < |Children(t, n, 0)| :: n < Children(t, n, 0)[i] < |t.nodes|
  {
  }

  /** The calls for a list of children rebind what the recursive walk rebinds. */
  lemma {:induction false} ListFollows(g: Setting, s: State, ls: seq<N.Tree>, cs: seq<nat>, depth: nat, o: W.Outcome)
    requires g.Valid() && g.Fits(s) && o.state.Going?
    requires NumberedList(g.tree, ls, cs, g.number) && forall i: nat | i < |cs| :: depth <= cs[i] < |g.tree.nodes|
    ensures |s.binding| == |g.tree.nodes| && g.h < |s.lists|
    ensures Does(g, s, o, W.VisitList(g.Walk(), ls, depth, o), WalkList(s, cs, g.h, g.action))
    decreases ls, 0
  {
    hide ListsInv, HandlerAt, Visit, Does, Walk, W.VisitTree, Setting.Walk;
    FitsMeans(g, s);
    if ls == [] {
      DoesNothing(g, s, o);
    } else {
      TreeFollows(g, s, ls[0], cs[0], depth, o);
      var visited := Visit(s, cs[0], g.h, g.action);
      FitsMeans(g, visited);
      var below := if HandlerAt(g.tree, cs[0], g.tree.spaces[g.h]).Some? then visited
        else Walk(visited, cs[0], 0, g.h, g.action);
      var first := W.VisitTree(g.Walk(), ls[0], depth, o);
      DoesGoOn(g, s, o, first, below);
      ListFollows(g, below, ls[1..], cs[1..], depth, first);
      DoesBoth(g, s, o, first, W.VisitList(g.Walk(), ls, depth, o), below, WalkList(s, cs, g.h, g.action));
    }
  }

  /** The calls of the general walk below node n, which `NamespaceWalk.DoForEachChild`
      makes, rebind exactly as `OpRegion.Walk` does. */
  lemma CallsRebind(g: Setting, s: State, l: N.Tree, n: nat)
    requires g.Valid() && g.Fits(s) && Numbered(g.tree, l, n, g.number)
    ensures |s.binding| == |g.tree.nodes| && g.h < |s.lists|
    ensures var calls := W.VisitList(g.Walk(), l.children, 1, W.Outcome([], W.Going)).calls;
            && Known(calls, g.number, |s.binding|)
            && Along(s, calls, g.number, g.h, g.action) == Walk(s, n, 0, g.h, g.action)
  {
    hide ListsInv, Visit, Along, Walk, WalkList, Known;
    FitsMeans(g, s);
    var start := W.Outcome([], W.Going);
    ListFollows(g, s, l.children, Children(g.tree, n, 0), 1, start);
    WalkIsList(s, n, 0, g.h, g.action);
    var calls := W.VisitList(g.Walk(), l.children, 1, start).calls;
    assert calls[0..] == calls;
  }
}

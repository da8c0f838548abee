/** Names and paths in the namespace: lookup of a text path and printing of a node's
    absolute path, src/kern/acpi/namespace.c. Nodes are numbered so that a parent comes
    before its children and siblings are in list order; node 0 is the root. */
module NamespacePath {
  import opened Common

  type Name = s: seq<char> | |s| == 4 witness "____"

  datatype Space = Space(parents: seq<nat>, names: seq<Name>, temporary: seq<bool>) {
    ghost predicate Valid() {
      && 0 < |parents| == |names| == |temporary| && parents[0] == 0
      && forall n | 0 < n < |parents| :: parents[n] < n
    }

    predicate IsChild(c: nat, p: nat) { 0 < c < |parents| && parents[c] == p }
  }

  /** `NullRead` stands for following the pointer of a parent that was not given. */
  datatype Result = Found(node: nat) | NotFound | InvalidArgument | Denied | NullRead

  // Lookup of one name

  /** `uacpi_namespace_node_find_sub_node`: the first child of p, from number c on, with
      the name. */
  function FindFrom(ns: Space, p: nat, name: Name, c: nat): (r: Option<nat>)
    requires ns.Valid() && c <= |ns.parents|
    ensures r.Some? ==> r.value < |ns.parents| && ns.IsChild(r.value, p) && ns.names[r.value] == name
    ensures r.None? ==> forall k: nat {:trigger ns.IsChild(k, p)} | c <= k && ns.IsChild(k, p) :: ns.names[k] != name
    decreases |ns.parents| - c
  {
    if c == |ns.parents| then None
    else if ns.IsChild(c, p) && ns.names[c] == name then Some(c)
    else FindFrom(ns, p, name, c + 1)
  }

  function Find(ns: Space, p: nat, name: Name): Option<nat>
    requires ns.Valid()
  {
    FindFrom(ns, p, name, 1)
  }

  /** A name looked up in the node, else in its parent, and so on up to the root. */
  function SearchUp(ns: Space, n: nat, name: Name): (r: Option<nat>)
    requires ns.Valid() && n < |ns.parents|
    ensures r.Some? ==> r.value < |ns.parents|
  {
    if Find(ns, n, name).Some? then Find(ns, n, name)
    else if n == 0 then None
    else SearchUp(ns, ns.parents[n], name)
  }

  /** One name after the other, each in the node found for the last. */
  function Descend(ns: Space, n: nat, segments: seq<Name>): (r: Option<nat>)
    requires ns.Valid() && n < |ns.parents|
    ensures r.Some? ==> r.value < |ns.parents|
    decreases |segments|
  {
    if segments == [] then Some(n)
    else match Find(ns, n, segments[0])
      case None => None
      case Some(c) => Descend(ns, c, segments[1..])
  }

  // Prefixes

  /** Carets, or one backslash: what comes before the first name. */
  function PrefixLength(s: seq<char>): (k: nat)
    ensures k <= |s|
  {
    if s == [] then 0
    else if s[0] == '^' then 1 + PrefixLength(s[1..])
    else if s[0] == '\\' then 1
    else 0
  }

  /** Where the prefix leads from n; nowhere above the root or at a backslash after a caret. */
  function Climb(ns: Space, n: nat, prefix: seq<char>, afterCaret: bool): (r: Option<nat>)
    requires ns.Valid() && n < |ns.parents|
    ensures r.Some? ==> r.value < |ns.parents|
  {
    if prefix == [] then Some(n)
    else if prefix[0] == '\\' then if afterCaret then None else Climb(ns, 0, prefix[1..], false)
    else if n == 0 then None
    else Climb(ns, ns.parents[n], prefix[1..], true)
  }

  /** The meaning of a path: a lone name may be searched in all enclosing scopes, anything
      else is looked up downwards only. */
  function Lookup(ns: Space, scope: nat, prefix: seq<char>, segments: seq<Name>, search: bool): Result
    requires ns.Valid() && scope < |ns.parents|
  {
    match Climb(ns, scope, prefix, false)
    case None => InvalidArgument
    case Some(start) =>
      var found := if search && prefix == [] && |segments| == 1 then SearchUp(ns, start, segments[0])
                   else Descend(ns, start, segments);
      match found
      case None => NotFound
      case Some(n) => Found(n)
  }

  function Permit(ns: Space, r: Result, permanentOnly: bool): Result {
    if permanentOnly && r.Found? && r.node < |ns.temporary| && ns.temporary[r.node] then Denied else r
  }

  /** The permanent-only filter denies temporary nodes and nothing else. */
  lemma PermitDenies(ns: Space, r: Result, permanentOnly: bool)
    requires ns.Valid() && (r.Found? ==> r.node < |ns.parents|) && !r.Denied?
    ensures Permit(ns, r, permanentOnly).Denied? <==> permanentOnly && r.Found? && ns.temporary[r.node]
    ensures !Permit(ns, r, permanentOnly).Denied? ==> Permit(ns, r, permanentOnly) == r
  {
  }

  // Where carets and upward search lead, by the parents of a node

  /** The node k levels up; the root has itself above it. */
  function Ancestor(ns: Space, n: nat, k: nat): (a: nat)
    requires ns.Valid() && n < |ns.parents|
    ensures a < |ns.parents|
  {
    if k == 0 then n else ns.parents[Ancestor(ns, n, k - 1)]
  }

  lemma {:induction false} AncestorOfParent(ns: Space, n: nat, k: nat)
    requires ns.Valid() && n < |ns.parents|
    ensures Ancestor(ns, n, k + 1) == Ancestor(ns, ns.parents[n], k)
  {
    if k > 0 {
      AncestorOfParent(ns, n, k - 1);
    }
  }

  function Carets(k: nat): seq<char> { seq(k, _ => '^') }

  /** As many carets lead to that ancestor, or nowhere exactly if there are not as many
      levels above the node. */
  lemma {:induction false} CaretsLeadUp(ns: Space, n: nat, k: nat, afterCaret: bool)
    requires ns.Valid() && n < |ns.parents|
    ensures Climb(ns, n, Carets(k), afterCaret) == if k <= Depth(ns, n) then Some(Ancestor(ns, n, k)) else None
    decreases k
  {
    if k > 0 {
      assert Carets(k)[1..] == Carets(k - 1);
      if n != 0 {
        CaretsLeadUp(ns, ns.parents[n], k - 1, true);
        AncestorOfParent(ns, n, k - 1);
      }
    }
  }

  lemma {:induction false} CaretsAreCounted(k: nat, rest: seq<char>)
    requires rest == [] || (rest[0] != '^' && rest[0] != '\\')
    ensures PrefixLength(Carets(k) + rest) == k
  {
    if k > 0 {
      CaretsAreCounted(k - 1, rest);
      assert (Carets(k) + rest)[1..] == Carets(k - 1) + rest;
    } else {
      assert Carets(0) + rest == rest;
    }
  }

  /** The upward search looks at the node and the nodes above it, and finds the child of the
      first one that has one of the name, k levels up; none has exactly if it finds nothing. */
  lemma {:induction false} SearchFindsNearest(ns: Space, n: nat, name: Name) returns (k: nat)
    requires ns.Valid() && n < |ns.parents|
    ensures forall j: nat | j < k :: Find(ns, Ancestor(ns, n, j), name).None?
    ensures SearchUp(ns, n, name).Some? ==>
              k <= Depth(ns, n) && SearchUp(ns, n, name) == Find(ns, Ancestor(ns, n, k), name)
    ensures SearchUp(ns, n, name).None? ==> k == Depth(ns, n) + 1
  {
    hide Find;
    assert Ancestor(ns, n, 0) == n;
    k := 0;
    if Find(ns, n, name).None? {
      k := 1;
      if n != 0 {
        var above := SearchFindsNearest(ns, ns.parents[n], name);
        k := above + 1;
        forall j: nat | j <= above
          ensures Ancestor(ns, n, j + 1) == Ancestor(ns, ns.parents[n], j)
        {
          AncestorOfParent(ns, n, j);
        }
        forall j: nat | j < k
          ensures Find(ns, Ancestor(ns, n, j), name).None?
        {
          assert j > 0 ==> Ancestor(ns, n, j - 1 + 1) == Ancestor(ns, ns.parents[n], j - 1);
        }
      }
    }
  }

  /** Of several children with the name the first is found. */
  lemma {:induction false} FindFirst(ns: Space, p: nat, name: Name, c: nat, k: nat)
    requires ns.Valid() && c <= k && ns.IsChild(k, p) && ns.names[k] == name
    ensures FindFrom(ns, p, name, c).Some? && c <= FindFrom(ns, p, name, c).value <= k
    decreases k - c
  {
    if c < k {
      FindFirst(ns, p, name, c + 1, k);
    }
  }

  // Text paths

  /** `segment_to_name`: up to k characters before the next dot, padded with underscores. */
  function Segment(path: seq<char>, i: nat, k: nat): (r: (seq<char>, nat))
    requires i <= |path|
    ensures |r.0| == k && i <= r.1 <= |path|
    ensures k > 0 && i < |path| && path[i] != '.' ==> i < r.1
    decreases k
  {
    if k == 0 then ([], i)
    else if i == |path| || path[i] == '.' then
      var (rest, end) := Segment(path, i, k - 1);
      (['_'] + rest, end)
    else
      var (rest, end) := Segment(path, i + 1, k - 1);
      ([path[i]] + rest, end)
  }

  function SkipDot(path: seq<char>, i: nat): nat {
    if i < |path| && path[i] == '.' then i + 1 else i
  }

  function Segments(path: seq<char>, i: nat): seq<Name>
    requires i <= |path|
    decreases |path| - i
  {
    if i == |path| then []
    else
      var (name, end) := Segment(path, SkipDot(path, i), 4);
      [name] + Segments(path, end)
  }

  function ResolveSpec(ns: Space, scope: nat, path: seq<char>, search: bool): Result
    requires ns.Valid() && scope < |ns.parents|
  {
    Lookup(ns, scope, path[..PrefixLength(path)], Segments(path, PrefixLength(path)), search)
  }

  /** `segment_to_name` as the loop over the cursor. */
  method SegmentToName(path: seq<char>, i: nat) returns (name: seq<char>, end: nat)
    requires i <= |path|
    ensures name == Segment(path, i, 4).0 && end == Segment(path, i, 4).1
  {
    hide Segment;
    name, end := [], i;
    var offset := 0;
    while offset < 4
      invariant 0 <= offset <= 4 && |name| == offset && i <= end <= |path|
      invariant Segment(path, i, 4).0 == name + Segment(path, end, 4 - offset).0
      invariant Segment(path, i, 4).1 == Segment(path, end, 4 - offset).1
    {
      SegmentStep(path, end, 4 - offset, name);
      if end == |path| || path[end] == '.' {
        name := name + ['_'];
      } else {
        name := name + [path[end]];
        end := end + 1;
      }
      offset := offset + 1;
    }
    SegmentDone(path, end);
    assert name + [] == name;
  }

  lemma SegmentStep(path: seq<char>, i: nat, k: nat, before: seq<char>)
    requires i <= |path| && k > 0
    ensures if i == |path| || path[i] == '.' then
              && before + Segment(path, i, k).0 == before + ['_'] + Segment(path, i, k - 1).0
              && Segment(path, i, k).1 == Segment(path, i, k - 1).1
            else
              && before + Segment(path, i, k).0 == before + [path[i]] + Segment(path, i + 1, k - 1).0
              && Segment(path, i, k).1 == Segment(path, i + 1, k - 1).1
  {
  }

  lemma SegmentDone(path: seq<char>, i: nat)
    requires i <= |path|
    ensures Segment(path, i, 0) == ([], i)
  {
  }

  /** The prefix loop of `uacpi_namespace_node_resolve`. */
  method ResolvePrefix(ns: Space, scope: nat, path: seq<char>) returns (start: Option<nat>, cursor: nat)
    requires ns.Valid() && scope < |ns.parents|
    ensures start == Climb(ns, scope, path[..PrefixLength(path)], false)
    ensures start.Some? ==> cursor == PrefixLength(path)
  {
    var cur: nat := scope;
    var prev := ' ';
    cursor := 0;
    ghost var goal := Climb(ns, scope, path[..PrefixLength(path)], false);
    while true
      invariant 0 <= cursor <= |path| && cur < |ns.parents|
      invariant PrefixLength(path) == cursor + PrefixLength(path[cursor..])
      invariant goal == Climb(ns, cur, path[cursor..][..PrefixLength(path[cursor..])], prev == '^')
      decreases |path| - cursor
    {
      if cursor == |path| {
        break;
      }
      ghost var rest := path[cursor..];
      assert rest[1..] == path[cursor + 1..];
      if path[cursor] == '\\' {
        if prev == '^' {
          return None, cursor;
        }
        cur := 0;
      } else if path[cursor] == '^' {
        if cur == 0 {
          return None, cursor;
        }
        assert rest[..PrefixLength(rest)][1..] == rest[1..][..PrefixLength(rest[1..])];
        cur := ns.parents[cur];
      }
      prev := path[cursor];
      if prev == '^' || prev == '\\' {
        cursor := cursor + 1;
      }
      if prev != '^' {
        break;
      }
    }
    return Some(cur), cursor;
  }

  /** The upward search from the parent of the scope on; without a scope there is no
      pointer to follow. */
  method SearchParents(ns: Space, scope: Option<nat>, name: Name) returns (ok: bool, r: Option<nat>)
    requires ns.Valid() && ScopeNode(scope) < |ns.parents| && Find(ns, ScopeNode(scope), name).None?
    ensures ok == scope.Some? && r == SearchUp(ns, ScopeNode(scope), name)
  {
    if scope.None? {
      return false, None;
    }
    var parent: nat := scope.value;
    while parent != 0
      invariant parent < |ns.parents| && Find(ns, parent, name).None?
      invariant SearchUp(ns, scope.value, name) == SearchUp(ns, parent, name)
      decreases parent
    {
      parent := ns.parents[parent];
      r := Find(ns, parent, name);
      if r.Some? {
        return true, r;
      }
    }
    return true, None;
  }

  /** What the names after the prefix lead to. */
  function Target(ns: Space, scope: nat, start: nat, path: seq<char>, prefix: nat, search: bool): (r: Option<nat>)
    requires ns.Valid() && scope < |ns.parents| && start < |ns.parents| && prefix <= |path|
    ensures r.Some? ==> r.value < |ns.parents|
  {
    var segments := Segments(path, prefix);
    if search && prefix == 0 && |segments| == 1 then SearchUp(ns, scope, segments[0]) else Descend(ns, start, segments)
  }

  /** The segment loop: only a first name that ends the path, without prefix, is searched. */
  method ResolveSegments(ns: Space, scope: Option<nat>, start: nat, path: seq<char>, prefix: nat, search: bool)
      returns (ok: bool, r: Option<nat>)
    requires ns.Valid() && ScopeNode(scope) < |ns.parents| && start < |ns.parents| && prefix <= |path|
    requires prefix == 0 ==> start == ScopeNode(scope)
    ensures ok <==> scope.Some? || !Stranded(ns, path, prefix, search)
    ensures r == Target(ns, ScopeNode(scope), start, path, prefix, search)
  {
    hide Segment, SearchUp, Find, Stranded;
    var cur: nat, cursor := start, prefix;
    var single := cursor == 0;
    ghost var goal := Target(ns, ScopeNode(scope), start, path, prefix, search);
    StrandedIs(ns, path, prefix, search);
    while cursor < |path|
      invariant prefix <= cursor <= |path| && cur < |ns.parents|
      invariant cursor == prefix ==> cur == start && (single <==> prefix == 0)
      invariant cursor != prefix && cursor < |path| ==> !single
      invariant cursor != prefix ==> goal == Descend(ns, cur, Segments(path, cursor))
      invariant cursor != prefix ==> scope.Some? || !Stranded(ns, path, prefix, search)
      decreases |path| - cursor
    {
      ghost var before := cursor;
      if path[cursor] == '.' {
        cursor := cursor + 1;
      }
      var name, end := SegmentToName(path, cursor);
      cursor := end;
      assert Segments(path, before) == [name] + Segments(path, end);
      assert before == prefix && prefix == 0 && end == |path| ==> Segments(path, before) == [name];
      if cursor != |path| && single {
        single := false;
      }
      FoundIsFirst(ns, cur, name);
      var child := Find(ns, cur, name);
      if child.None? {
        if !search || !single {
          return true, None;
        }
        ok, r := SearchParents(ns, scope, name);
        return;
      }
      cur := child.value;
    }
    return true, Some(cur);
  }

  function ScopeNode(scope: Option<nat>): nat { if scope.Some? then scope.value else 0 }

  /** A lone name, without prefix, that is to be searched and is missing below the root. */
  predicate Stranded(ns: Space, path: seq<char>, prefix: nat, search: bool)
    requires ns.Valid() && prefix <= |path|
  {
    search && prefix == 0 && |Segments(path, 0)| == 1 && Find(ns, 0, Segments(path, 0)[0]).None?
  }

  lemma StrandedIs(ns: Space, path: seq<char>, prefix: nat, search: bool)
    requires ns.Valid() && prefix <= |path|
    ensures Stranded(ns, path, prefix, search) <==>
            search && prefix == 0 && |Segments(path, 0)| == 1 && Find(ns, 0, Segments(path, 0)[0]).None?
  {
  }

  lemma FoundIsFirst(ns: Space, n: nat, name: Name)
    requires ns.Valid() && n < |ns.parents|
    ensures Find(ns, n, name).Some? ==>
              SearchUp(ns, n, name) == Find(ns, n, name) && Find(ns, n, name).value < |ns.parents|
  {
  }

  /** `uacpi_namespace_node_resolve`: the cursor loops compute the meaning of the path. A
      parent that is not given stands for the root, except that the upward search of a
      lone name that the root does not have follows it. */
  method Resolve(ns: Space, scope: Option<nat>, path: seq<char>, search: bool, permanentOnly: bool) returns (r: Result)
    requires ns.Valid() && ScopeNode(scope) < |ns.parents|
    ensures r == if scope.None? && Stranded(ns, path, PrefixLength(path), search) then NullRead
                 else Permit(ns, ResolveSpec(ns, ScopeNode(scope), path, search), permanentOnly)
  {
    hide Stranded, Find, SearchUp, Descend, Segments;
    var start, cursor := ResolvePrefix(ns, ScopeNode(scope), path);
    if start.None? {
      StartsSomewhere(ns, scope, path, search);
      return InvalidArgument;
    }
    var ok, found := ResolveSegments(ns, scope, start.value, path, cursor, search);
    if !ok {
      return NullRead;
    }
    if found.None? {
      return NotFound;
    }
    if permanentOnly && ns.temporary[found.value] {
      return Denied;
    }
    return Found(found.value);
  }

  /** A path without prefix never fails at the prefix. */
  lemma StartsSomewhere(ns: Space, scope: Option<nat>, path: seq<char>, search: bool)
    requires ns.Valid() && ScopeNode(scope) < |ns.parents|
    requires Climb(ns, ScopeNode(scope), path[..PrefixLength(path)], false).None?
    ensures !Stranded(ns, path, PrefixLength(path), search)
  {
  }

  /** Where the root is given instead, such a search finds nothing. */
  lemma StrandedFindsNothing(ns: Space, path: seq<char>, search: bool)
    requires ns.Valid() && Stranded(ns, path, PrefixLength(path), search)
    ensures ResolveSpec(ns, 0, path, search) == NotFound
  {
    hide Find;
    assert path[..0] == [];
  }

  function Underscores(k: nat): seq<char> { seq(k, _ => '_') }

  /** A short segment is filled up with underscores, and one of more than four characters is
      cut there. */
  lemma {:induction false} SegmentPads(path: seq<char>, i: nat, n: nat, k: nat)
    requires n <= k && i + n <= |path| && '.' !in path[i..i + n]
    requires n == k || i + n == |path| || path[i + n] == '.'
    ensures Segment(path, i, k) == (path[i..i + n] + Underscores(k - n), i + n)
    decreases k
  {
    if n > 0 {
      assert path[i] in path[i..i + n];
      assert path[i + 1..i + n] == path[i..i + n][1..];
      SegmentPads(path, i + 1, n - 1, k - 1);
      assert path[i..i + n] + Underscores(k - n) == [path[i]] + (path[i + 1..i + n] + Underscores(k - n));
    } else if k > 0 {
      SegmentPads(path, i, 0, k - 1);
      assert path[i..i + n] + Underscores(k) == ['_'] + (path[i..i + n] + Underscores(k - 1));
    } else {
      assert path[i..i + n] + Underscores(k) == [];
    }
  }

  // Paths that start further up

  /** Carets and a name lead to the child of that name of the ancestor so many levels up. */
  lemma CaretsFindChild(ns: Space, scope: nat, k: nat, n: nat, search: bool)
    requires ns.Valid() && Printable(ns) && scope < |ns.parents| && 0 < k <= Depth(ns, scope)
    requires 0 < n < |ns.parents| && ns.parents[n] == Ancestor(ns, scope, k)
    requires ns.names[n][0] != '^' && ns.names[n][0] != '\\'
    ensures ResolveSpec(ns, scope, Carets(k) + ns.names[n], search) == Found(n)
  {
    hide Segment, Segments, Find, PrefixLength, Climb, Carets;
    var name, path := ns.names[n], Carets(k) + ns.names[n];
    CaretsAreCounted(k, name);
    CaretsLength(k);
    assert path[..k] == Carets(k);
    CaretsLeadUp(ns, scope, k, false);
    ReadsName(Carets(k), "", name, []);
    assert Carets(k) + "" + name + [] == path;
    NothingLeft(path);
    FindIsUnique(ns, n);
    OneDown(ns, ns.parents[n], name);
  }

  /** A lone name is searched upwards only on demand, otherwise it has to be in the scope. */
  lemma LoneName(ns: Space, scope: nat, name: Name, search: bool)
    requires ns.Valid() && scope < |ns.parents| && '.' !in name && name[0] != '^' && name[0] != '\\'
    ensures ResolveSpec(ns, scope, name, search)
         == match if search then SearchUp(ns, scope, name) else Find(ns, scope, name)
            case None => NotFound
            case Some(n) => Found(n)
  {
    hide Segments, Segment, Find, SearchUp, PrefixLength;
    CaretsAreCounted(0, name);
    assert Carets(0) + name == name && name[..0] == [];
    ReadsName([], "", name, []);
    assert [] + "" + name + [] == name;
    NothingLeft(name);
    OneDown(ns, scope, name);
  }

  /** With more carets than levels the path is invalid. */
  lemma TooManyCarets(ns: Space, scope: nat, k: nat, rest: seq<char>, search: bool)
    requires ns.Valid() && scope < |ns.parents| && Depth(ns, scope) < k
    requires rest == [] || (rest[0] != '^' && rest[0] != '\\')
    ensures ResolveSpec(ns, scope, Carets(k) + rest, search) == InvalidArgument
  {
    hide Segments, Find, PrefixLength, Climb, Carets;
    CaretsAreCounted(k, rest);
    CaretsLength(k);
    assert (Carets(k) + rest)[..k] == Carets(k);
    CaretsLeadUp(ns, scope, k, false);
  }

  /** A backslash behind carets makes the path invalid, too; alone it leads to the root. */
  lemma {:induction false} CaretsThenRoot(ns: Space, n: nat, k: nat, afterCaret: bool)
    requires ns.Valid() && n < |ns.parents|
    ensures PrefixLength(Carets(k) + "\\") == k + 1
    ensures Climb(ns, n, Carets(k) + "\\", afterCaret) == if k == 0 && !afterCaret then Some(0) else None
    decreases k
  {
    var path := Carets(k) + "\\";
    if k > 0 {
      assert path[1..] == Carets(k - 1) + "\\";
      CaretsThenRoot(ns, ns.parents[n], k - 1, true);
    } else {
      assert path == "\\" && path[1..] == [];
      assert Climb(ns, 0, [], false) == Some(0);
    }
  }

  lemma RootAfterCarets(ns: Space, scope: nat, k: nat, search: bool)
    requires ns.Valid() && scope < |ns.parents|
    ensures ResolveSpec(ns, scope, Carets(k) + "\\", search) == if k == 0 then Found(0) else InvalidArgument
  {
    hide Segments, Find, PrefixLength, Climb, Carets;
    CaretsThenRoot(ns, scope, k, false);
    CaretsLength(k);
    var path := Carets(k) + "\\";
    assert path[..k + 1] == path;
    NothingLeft(path);
  }

  lemma CaretsLength(k: nat)
    ensures |Carets(k)| == k
  {
  }

  lemma NothingLeft(path: seq<char>)
    ensures Segments(path, |path|) == []
  {
  }

  lemma OneDown(ns: Space, p: nat, name: Name)
    requires ns.Valid() && p < |ns.parents|
    ensures Descend(ns, p, [name]) == Find(ns, p, name)
  {
  }

  // Absolute paths

  /** Backslash, then the names from the root down with a dot between any two. */
  function AbsolutePath(ns: Space, n: nat): (path: seq<char>)
    requires ns.Valid() && n < |ns.parents|
    ensures path != []
  {
    if n == 0 then "\\"
    else AbsolutePath(ns, ns.parents[n]) + (if ns.parents[n] == 0 then "" else ".") + ns.names[n]
  }

  /** `uacpi_namespace_node_depth`. */
  method NodeDepth(ns: Space, node: nat) returns (depth: nat)
    requires ns.Valid() && node < |ns.parents|
    ensures depth == Depth(ns, node)
  {
    depth := 0;
    var n: nat := node;
    while n != 0
      invariant n < |ns.parents| && Depth(ns, node) == depth + Depth(ns, n)
      decreases n
    {
      depth := depth + 1;
      n := ns.parents[n];
    }
  }

  function Depth(ns: Space, n: nat): nat
    requires ns.Valid() && n < |ns.parents|
  {
    if n == 0 then 0 else 1 + Depth(ns, ns.parents[n])
  }

  lemma {:induction false} PathLength(ns: Space, n: nat)
    requires ns.Valid() && n < |ns.parents|
    ensures Depth(ns, n) == 0 <==> n == 0
    ensures |AbsolutePath(ns, n)| == 1 + 4 * Depth(ns, n) + if Depth(ns, n) > 1 then Depth(ns, n) - 1 else 0
  {
    if n != 0 {
      PathLength(ns, ns.parents[n]);
    }
  }

  lemma PathStep(ns: Space, n: nat, tail: seq<char>)
    requires ns.Valid() && 0 < n < |ns.parents|
    ensures var p := ns.parents[n];
            && AbsolutePath(ns, n) + tail == AbsolutePath(ns, p) + ((if p == 0 then "" else ".") + ns.names[n] + tail)
            && |AbsolutePath(ns, n)| == |AbsolutePath(ns, p)| + (if p == 0 then 4 else 5)
  {
  }

  /** The loop body: the name goes in front of what is there, and a dot in front of it
      unless the parent is the root. */
  method PlaceName(path: array<char>, end: nat, name: Name, parent: nat) returns (offset: nat)
    requires (if parent == 0 then 4 else 5) < end <= path.Length
    modifies path
    ensures offset == end - (if parent == 0 then 4 else 5)
    ensures path[offset..] == (if parent == 0 then "" else ".") + name + old(path[end..]) && path[0] == old(path[0])
  {
    offset := end - 4;
    forall i | 0 <= i < 4 {
      path[offset + i] := name[i];
    }
    assert path[offset..] == "" + name + old(path[end..]);
    if parent != 0 {
      offset := offset - 1;
      path[offset] := '.';
      assert path[offset..] == "." + path[offset + 1..];
    }
  }

  /** The buffer is sized before it is filled from its end; it is filled exactly. */
  method GenerateAbsolutePath(ns: Space, node: nat) returns (path: array<char>)
    requires ns.Valid() && node < |ns.parents|
    ensures fresh(path) && path[..] == AbsolutePath(ns, node) + ['\0']
  {
    hide AbsolutePath, Depth;
    var depth := NodeDepth(ns, node);
    depth := depth + 1;
    var bytesNeeded := 1 + (depth - 1) * 4;
    bytesNeeded := bytesNeeded + if depth > 2 then depth - 2 else 0;
    bytesNeeded := bytesNeeded + 1;
    PathLength(ns, node);
    path := new char[bytesNeeded];
    path[0] := '\\';
    var offset := bytesNeeded - 1;
    path[offset] := '\0';
    var n: nat := node;
    while n != 0
      invariant n < |ns.parents| && offset == |AbsolutePath(ns, n)| && offset <= path.Length && path[0] == '\\'
      invariant AbsolutePath(ns, n) + path[offset..] == AbsolutePath(ns, node) + ['\0']
      decreases n
    {
      PathStep(ns, n, path[offset..]);
      offset := PlaceName(path, offset, ns.names[n], ns.parents[n]);
      n := ns.parents[n];
    }
    RootPath(ns);
    assert path[..] == [path[0]] + path[1..];
  }

  lemma RootPath(ns: Space)
    requires ns.Valid()
    ensures AbsolutePath(ns, 0) == "\\"
  {
  }

  // A printed path leads back to its node

  /** Siblings differ in name and no name holds a dot. */
  ghost predicate Printable(ns: Space)
    requires ns.Valid()
  {
    && (forall n, m: nat {:trigger ns.names[n], ns.names[m]} |
          0 < n < |ns.parents| && 0 < m < |ns.parents|
          && ns.parents[n] == ns.parents[m] && ns.names[n] == ns.names[m] :: n == m)
    && forall n | 0 < n < |ns.parents| :: '.' !in ns.names[n]
  }

  lemma FindIsUnique(ns: Space, n: nat)
    requires ns.Valid() && Printable(ns) && 0 < n < |ns.parents|
    ensures Find(ns, ns.parents[n], ns.names[n]) == Some(n)
  {
    assert ns.IsChild(n, ns.parents[n]);
    var r := Find(ns, ns.parents[n], ns.names[n]);
    if r.Some? {
      assert ns.parents[r.value] == ns.parents[n] && ns.names[r.value] == ns.names[n];
    }
  }

  lemma {:induction false} SegmentReads(path: seq<char>, i: nat, k: nat)
    requires i + k <= |path| && '.' !in path[i..i + k]
    ensures Segment(path, i, k) == (path[i..i + k], i + k)
    decreases k
  {
    if k > 0 {
      assert path[i] in path[i..i + k];
      assert path[i + 1..i + k] == path[i..i + k][1..];
      SegmentReads(path, i + 1, k - 1);
      assert path[i..i + k] == [path[i]] + path[i + 1..i + k];
    } else {
      assert path[i..i] == [];
    }
  }

  /** A name behind a text, with or without a dot between them, is read as a segment. */
  lemma ReadsName(before: seq<char>, dot: seq<char>, name: Name, rest: seq<char>)
    requires '.' !in name && (dot == "" || dot == ".")
    ensures var whole := before + dot + name + rest;
            Segments(whole, |before|) == [name] + Segments(whole, |before| + |dot| + 4)
  {
    hide Segment;
    var whole := before + dot + name + rest;
    var j := |before| + |dot|;
    NamePlaced(before, dot, name, rest);
    SegmentReads(whole, j, 4);
  }

  lemma NamePlaced(before: seq<char>, dot: seq<char>, name: Name, rest: seq<char>)
    requires '.' !in name && (dot == "" || dot == ".")
    ensures var whole := before + dot + name + rest;
            && |whole| == |before| + |dot| + 4 + |rest|
            && whole[|before| + |dot|..|before| + |dot| + 4] == name
            && SkipDot(whole, |before|) == |before| + |dot|
  {
    var whole := before + dot + name + rest;
    assert dot != "" ==> whole[|before|] == '.';
    assert whole[|before| + |dot|] == name[0] && name[0] in name;
  }

  /** Looking up a longer path passes through the node whose path comes first. */
  lemma {:induction false} PassesThrough(ns: Space, n: nat, rest: seq<char>)
    requires ns.Valid() && Printable(ns) && n < |ns.parents|
    ensures var whole := AbsolutePath(ns, n) + rest;
            Descend(ns, 0, Segments(whole, 1)) == Descend(ns, n, Segments(whole, |AbsolutePath(ns, n)|))
  {
    hide Segments, Segment, Find;
    if n != 0 {
      var p, name := ns.parents[n], ns.names[n];
      var dot: seq<char> := if p == 0 then "" else ".";
      PathStep(ns, n, rest);
      PassesThrough(ns, p, dot + name + rest);
      ReadsName(AbsolutePath(ns, p), dot, name, rest);
      assert AbsolutePath(ns, p) + (dot + name + rest) == AbsolutePath(ns, p) + dot + name + rest;
      FindIsUnique(ns, n);
    }
  }

  /** What a C string function sees of a buffer. */
  function Text(buffer: seq<char>): seq<char> {
    if buffer == [] || buffer[0] == '\0' then [] else [buffer[0]] + Text(buffer[1..])
  }

  lemma {:induction false} TextOf(s: seq<char>)
    requires '\0' !in s
    ensures Text(s + ['\0']) == s
  {
    if s != [] {
      assert (s + ['\0'])[1..] == s[1..] + ['\0'];
      TextOf(s[1..]);
    }
  }

  lemma {:induction false} PathHasNoNul(ns: Space, n: nat)
    requires ns.Valid() && n < |ns.parents| && forall k | 0 < k < |ns.names| :: '\0' !in ns.names[k]
    ensures '\0' !in AbsolutePath(ns, n)
  {
    if n != 0 {
      PathHasNoNul(ns, ns.parents[n]);
    }
  }

  /** The generated buffer, read back as a string, resolves to the node it was generated
      for, from every scope and with or without upward search; only the permanent-only
      filter can refuse it. */
  lemma PathRoundTrip(ns: Space, n: nat, scope: nat, search: bool)
    requires ns.Valid() && Printable(ns) && n < |ns.parents| && scope < |ns.parents|
    requires forall k | 0 < k < |ns.names| :: '\0' !in ns.names[k]
    ensures ResolveSpec(ns, scope, Text(AbsolutePath(ns, n) + ['\0']), search) == Found(n)
  {
    PathHasNoNul(ns, n);
    TextOf(AbsolutePath(ns, n));
    AbsolutePathResolves(ns, n, scope, search);
  }

  lemma AbsolutePathResolves(ns: Space, n: nat, scope: nat, search: bool)
    requires ns.Valid() && Printable(ns) && n < |ns.parents| && scope < |ns.parents|
    ensures ResolveSpec(ns, scope, AbsolutePath(ns, n), search) == Found(n)
  {
    var path := AbsolutePath(ns, n);
    PassesThrough(ns, n, []);
    assert path + [] == path;
    StartsAtRoot(ns, n);
    assert PrefixLength(path) == 1;
    assert path[..1] == ['\\'] && path[..1][1..] == [];
    assert Climb(ns, scope, path[..1], false) == Climb(ns, 0, [], false);
  }

  lemma {:induction false} StartsAtRoot(ns: Space, n: nat)
    requires ns.Valid() && n < |ns.parents|
    ensures AbsolutePath(ns, n)[0] == '\\'
  {
    if n != 0 {
      StartsAtRoot(ns, ns.parents[n]);
    }
  }
}

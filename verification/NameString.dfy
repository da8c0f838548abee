/** AML name strings (ACPI 6.5 section 20.2.2): the two decoders of
    src/kern/acpi/interpreter.c, one that looks a name string up directly and one that
    turns it into a text path. A byte of code is the character with its value. */
module NameString {
  import opened Common
  import opened NamespacePath

  const DUAL_NAME_PREFIX: char := '.'
  const MULTI_NAME_PREFIX: char := '/'
  const NULL_NAME: char := '\0'

  predicate ValidByte(c: char) { c == '_' || '0' <= c <= '9' || 'A' <= c <= 'Z' }

  predicate ValidName(name: seq<char>) { forall c | c in name :: ValidByte(c) }

  // The format

  /** How the names of a name string are introduced. */
  datatype Form = Null | Single | Dual | Multi

  /** A name string: prefix characters, form, and the bytes of its names. */
  datatype Parsed = Parsed(prefix: seq<char>, form: Form, names: seq<Name>, length: nat)

  function Names(code: seq<char>, i: nat, count: nat): (r: seq<Name>)
    requires i + 4 * count <= |code|
    ensures |r| == count
    decreases count
  {
    if count == 0 then [] else [code[i..i + 4]] + Names(code, i + 4, count - 1)
  }

  /** The header after the prefix: form, number of names and where they start. */
  function Header(code: seq<char>, p: nat): Option<(Form, nat, nat)> {
    if p >= |code| then None
    else if code[p] == DUAL_NAME_PREFIX then Some((Dual, 2, p + 1))
    else if code[p] == MULTI_NAME_PREFIX then
      if p + 1 >= |code| || code[p + 1] == '\0' then None else Some((Multi, code[p + 1] as int, p + 2))
    else if code[p] == NULL_NAME then Some((Null, 0, p + 1))
    else Some((Single, 1, p))
  }

  function Parse(code: seq<char>): (r: Option<Parsed>)
    ensures r.Some? ==> (r.value.form.Null? <==> r.value.names == []) && (r.value.form.Single? ==> |r.value.names| == 1)
    ensures r.Some? ==> (r.value.form.Dual? ==> |r.value.names| == 2)
  {
    var p := PrefixLength(code);
    match Header(code, p)
    case None => None
    case Some((form, count, at)) =>
      if at + 4 * count > |code| then None
      else Some(Parsed(code[..p], form, Names(code, at, count), at + 4 * count))
  }

  // Text form

  function Join(names: seq<Name>): seq<char> {
    if names == [] then [] else if |names| == 1 then names[0] else names[0] + "." + Join(names[1..])
  }

  /** The path that a name string stands for. */
  function PathOf(n: Parsed): seq<char> {
    n.prefix + Join(n.names)
  }

  method PrefixBytes(code: seq<char>) returns (status: bool, prefix: nat)
    ensures status ==> prefix == PrefixLength(code) < |code|
    ensures !status ==> PrefixLength(code) == |code|
  {
    prefix := 0;
    while true
      invariant 0 <= prefix <= |code| && PrefixLength(code) == prefix + PrefixLength(code[prefix..])
      decreases |code| - prefix
    {
      if prefix == |code| {
        return false, prefix;
      }
      assert code[prefix..][1..] == code[prefix + 1..];
      var prev := code[prefix];
      if prev == '^' || prev == '\\' {
        prefix := prefix + 1;
      }
      if prev != '^' {
        break;
      }
    }
    status := prefix < |code|;
  }

  method ReadHeader(code: seq<char>, p: nat) returns (header: Option<(Form, nat, nat)>)
    requires p < |code|
    ensures header == Header(code, p)
  {
    var c := code[p];
    if c == DUAL_NAME_PREFIX {
      return Some((Dual, 2, p + 1));
    } else if c == MULTI_NAME_PREFIX {
      if p + 1 == |code| {
        return None;
      }
      var count := code[p + 1] as int;
      if count == 0 {
        return None;
      }
      return Some((Multi, count, p + 2));
    } else if c == NULL_NAME {
      return Some((Null, 0, p + 1));
    }
    return Some((Single, 1, p));
  }

  /** The loop body: four bytes of code, and a dot if more names follow. */
  method PlaceSegment(buffer: array<char>, at: nat, code: seq<char>, cursor: nat, more: bool) returns (end: nat)
    requires cursor + 4 <= |code| && at + 4 + (if more then 1 else 0) <= buffer.Length
    modifies buffer
    ensures end == at + 4 + if more then 1 else 0
    ensures buffer[..end] == old(buffer[..at]) + code[cursor..cursor + 4] + if more then "." else ""
  {
    forall i | 0 <= i < 4 {
      buffer[at + i] := code[cursor + i];
    }
    end := at + 4;
    assert buffer[..end] == old(buffer[..at]) + code[cursor..cursor + 4];
    if more {
      buffer[end] := '.';
      end := end + 1;
      assert buffer[..end] == buffer[..at + 4] + ".";
    }
  }

  lemma JoinStep(code: seq<char>, i: nat, count: nat)
    requires count > 0 && i + 4 * count <= |code|
    ensures Join(Names(code, i, count))
         == code[i..i + 4] + (if count > 1 then "." else "") + Join(Names(code, i + 4, count - 1))
  {
    assert Names(code, i, count)[1..] == Names(code, i + 4, count - 1);
  }

  /** `name_string_to_path`: the buffer is sized first and then filled exactly. */
  method NameStringToPath(code: seq<char>) returns (path: Option<array<char>>)
    ensures path.Some? <==> Parse(code).Some?
    ensures path.Some? ==> path.value[..] == PathOf(Parse(code).value) + ['\0']
  {
    hide PrefixLength, Names, Join;
    var ok, prefix := PrefixBytes(code);
    if !ok {
      return None;
    }
    var header := ReadHeader(code, prefix);
    if header.None? {
      return None;
    }
    var count: nat, cursor: nat := header.value.1, header.value.2;
    if count * 4 > |code| - cursor {
      return None;
    }
    ghost var parsed := Parse(code).value;
    var nameBytes := 0;
    if count != 0 {
      nameBytes := count * 4 + count - 1;
    }
    JoinLength(parsed.names);
    var buffer := new char[nameBytes + prefix + 1];
    forall i | 0 <= i < prefix {
      buffer[i] := code[i];
    }
    assert buffer[..prefix] == parsed.prefix;
    var at, left := prefix, count;
    while left > 0
      invariant 0 <= left <= count && cursor + 4 * left <= |code|
      invariant at + |Join(Names(code, cursor, left))| == buffer.Length - 1 && at <= buffer.Length
      invariant buffer[..at] + Join(Names(code, cursor, left)) == PathOf(parsed)
      decreases left
    {
      JoinStep(code, cursor, left);
      at := PlaceSegment(buffer, at, code, cursor, left > 1);
      cursor := cursor + 4;
      left := left - 1;
    }
    NoNames(code, cursor);
    buffer[at] := '\0';
    return Some(buffer);
  }

  lemma NoNames(code: seq<char>, i: nat)
    requires i <= |code|
    ensures Join(Names(code, i, 0)) == []
  {
  }

  lemma {:induction false} JoinLength(names: seq<Name>)
    ensures |Join(names)| == if names == [] then 0 else 5 * |names| - 1
  {
    if |names| > 1 {
      JoinLength(names[1..]);
    }
  }

  // Direct lookup

  /** Whether the last name is to be created, and must not exist yet, or has to exist. */
  datatype Behavior = CreateLast | MustExist

  /** `Create` is a node with that name and parent, allocated but not installed. */
  datatype Outcome = Node(n: nat) | Missing | Bad | Exists | NoMemory | Create(parent: nat, name: Name)

  function AsOutcome(r: Option<nat>): Outcome {
    match r case None => Missing case Some(n) => Node(n)
  }

  /** Names from n downwards; each is checked just before it is looked up. */
  function DescendChecked(ns: Space, n: nat, names: seq<Name>): Outcome
    requires ns.Valid() && n < |ns.parents|
    decreases |names|
  {
    if names == [] then Node(n)
    else if !ValidName(names[0]) then Bad
    else match Find(ns, n, names[0])
      case None => Missing
      case Some(c) => DescendChecked(ns, c, names[1..])
  }

  function LookupParsed(ns: Space, scope: nat, start: nat, p: Parsed): Outcome
    requires ns.Valid() && scope < |ns.parents| && start < |ns.parents|
  {
    match p.form
    case Null => if p.prefix == [] then Bad else Node(start)
    case Single =>
      if p.prefix == [] && |p.names| == 1 then
        if ValidName(p.names[0]) then AsOutcome(SearchUp(ns, scope, p.names[0])) else Bad
      else DescendChecked(ns, start, p.names)
    case _ => DescendChecked(ns, start, p.names)
  }

  /** What `resolve_name_string` finds for a name that has to exist. */
  function DirectSpec(ns: Space, scope: nat, code: seq<char>): Outcome
    requires ns.Valid() && scope < |ns.parents|
  {
    match Parse(code)
    case None => Bad
    case Some(p) =>
      match Climb(ns, scope, p.prefix, false)
      case None => Bad
      case Some(start) => LookupParsed(ns, scope, start, p)
  }

  /** The names but the last from n downwards, and the last one missing there. */
  function CreateBelow(ns: Space, n: nat, names: seq<Name>, canAllocate: bool): Outcome
    requires ns.Valid() && n < |ns.parents| && names != []
    decreases |names|
  {
    if !ValidName(names[0]) then Bad
    else match Find(ns, n, names[0])
      case None => if |names| > 1 then Missing else if canAllocate then Create(n, names[0]) else NoMemory
      case Some(c) => if |names| > 1 then CreateBelow(ns, c, names[1..], canAllocate) else Exists
  }

  /** What it makes of a name that it is to create. */
  function CreateSpec(ns: Space, scope: nat, code: seq<char>, canAllocate: bool): Outcome
    requires ns.Valid() && scope < |ns.parents|
  {
    match Parse(code)
    case None => Bad
    case Some(p) =>
      match Climb(ns, scope, p.prefix, false)
      case None => Bad
      case Some(start) => if p.form.Null? then Bad else CreateBelow(ns, start, p.names, canAllocate)
  }

  method DirectPrefix(ns: Space, scope: nat, code: seq<char>) returns (start: Option<nat>, cursor: nat)
    requires ns.Valid() && scope < |ns.parents|
    ensures start.Some? ==> cursor == PrefixLength(code) < |code| && start == Climb(ns, scope, code[..cursor], false)
    ensures start.None? ==>
              PrefixLength(code) == |code| || Climb(ns, scope, code[..PrefixLength(code)], false).None?
  {
    var cur: nat := scope;
    var prev := ' ';
    cursor := 0;
    ghost var goal := Climb(ns, scope, code[..PrefixLength(code)], false);
    while true
      invariant 0 <= cursor <= |code| && cur < |ns.parents|
      invariant PrefixLength(code) == cursor + PrefixLength(code[cursor..])
      invariant goal == Climb(ns, cur, code[cursor..][..PrefixLength(code[cursor..])], prev == '^')
      decreases |code| - cursor
    {
      if cursor == |code| {
        return None, cursor;
      }
      ghost var rest := code[cursor..];
      assert rest[1..] == code[cursor + 1..];
      if code[cursor] == '\\' {
        if prev == '^' {
          return None, cursor;
        }
        cur := 0;
      } else if code[cursor] == '^' {
        if cur == 0 {
          return None, cursor;
        }
        assert rest[..PrefixLength(rest)][1..] == rest[1..][..PrefixLength(rest[1..])];
        cur := ns.parents[cur];
      }
      prev := code[cursor];
      if prev == '^' || prev == '\\' {
        cursor := cursor + 1;
      }
      if prev != '^' {
        break;
      }
    }
    if cursor == |code| {
      return None, cursor;
    }
    return Some(cur), cursor;
  }

  /** The name loop; `justOne` asks for the search in enclosing scopes. */
  method FindNames(ns: Space, start: nat, code: seq<char>, at: nat, count: nat, justOne: bool, behavior: Behavior,
                   canAllocate: bool)
      returns (r: Outcome, offset: nat)
    requires ns.Valid() && start < |ns.parents| && at + 4 * count <= |code| && 0 < count && (justOne ==> count == 1)
    ensures behavior.CreateLast? ==> r == CreateBelow(ns, start, Names(code, at, count), canAllocate)
    ensures behavior.MustExist? && !justOne ==> r == DescendChecked(ns, start, Names(code, at, count))
    ensures behavior.MustExist? && justOne ==>
              r == if ValidName(code[at..at + 4]) then AsOutcome(SearchUp(ns, start, code[at..at + 4])) else Bad
    ensures !r.Bad? ==> offset == at + 4 * count
  {
    hide Find, Names, DescendChecked, CreateBelow, SearchUp;
    var cur: nat, cursor, left := start, at, count;
    while left > 0
      invariant cursor + 4 * left == at + 4 * count && cur < |ns.parents|
      invariant justOne ==> left <= 1
      invariant justOne && left == 1 ==> cur == start
      invariant behavior.MustExist? && justOne && left == 0 ==>
                  ValidName(code[at..at + 4]) && SearchUp(ns, start, code[at..at + 4]) == Some(cur)
      invariant behavior.MustExist? && !justOne ==>
                  DescendChecked(ns, start, Names(code, at, count))
                  == DescendChecked(ns, cur, Names(code, cursor, left))
      invariant behavior.CreateLast? ==> left > 0
      invariant behavior.CreateLast? ==>
                  CreateBelow(ns, start, Names(code, at, count), canAllocate)
                  == CreateBelow(ns, cur, Names(code, cursor, left), canAllocate)
      decreases left
    {
      var name := code[cursor..cursor + 4];
      NamesStep(ns, cur, code, cursor, left, canAllocate);
      if !(forall c | c in name :: ValidByte(c)) {
        return Bad, 0;
      }
      FoundIsFirst(ns, cur, name);
      var child := Find(ns, cur, name);
      if behavior.CreateLast? {
        if left == 1 {
          if child.Some? {
            return Exists, cursor + left * 4;
          }
          if !canAllocate {
            return NoMemory, cursor + left * 4;
          }
          return Create(cur, name), cursor + left * 4;
        }
      } else if justOne && child.None? {
        var _, above := SearchParents(ns, Some(cur), name);
        child := above;
      }
      if child.None? {
        return Missing, cursor + left * 4;
      }
      cur := child.value;
      cursor := cursor + 4;
      left := left - 1;
    }
    NamesDone(ns, cur, code, cursor);
    return Node(cur), cursor;
  }

  lemma NamesStep(ns: Space, n: nat, code: seq<char>, i: nat, count: nat, canAllocate: bool)
    requires ns.Valid() && n < |ns.parents| && count > 0 && i + 4 * count <= |code|
    ensures var name := code[i..i + 4];
            DescendChecked(ns, n, Names(code, i, count))
            == if !ValidName(name) then Bad
               else match Find(ns, n, name)
                 case None => Missing
                 case Some(c) => DescendChecked(ns, c, Names(code, i + 4, count - 1))
    ensures var name := code[i..i + 4];
            CreateBelow(ns, n, Names(code, i, count), canAllocate)
            == if !ValidName(name) then Bad
               else match Find(ns, n, name)
                 case None => if count > 1 then Missing else if canAllocate then Create(n, name) else NoMemory
                 case Some(c) =>
                   if count > 1 then CreateBelow(ns, c, Names(code, i + 4, count - 1), canAllocate) else Exists
  {
    hide Find, ValidName;
    assert Names(code, i, count)[1..] == Names(code, i + 4, count - 1);
  }

  lemma NamesDone(ns: Space, n: nat, code: seq<char>, i: nat)
    requires ns.Valid() && n < |ns.parents| && i <= |code|
    ensures DescendChecked(ns, n, Names(code, i, 0)) == Node(n)
  {
  }

  /** `resolve_name_string`. The offset of the next byte of code does not depend on
      whether the name was found or created. */
  method ResolveNameString(ns: Space, scope: nat, code: seq<char>, behavior: Behavior, canAllocate: bool)
      returns (r: Outcome, offset: nat)
    requires ns.Valid() && scope < |ns.parents|
    ensures r == if behavior.CreateLast? then CreateSpec(ns, scope, code, canAllocate) else DirectSpec(ns, scope, code)
    ensures !r.Bad? ==> Parse(code).Some? && offset == Parse(code).value.length
  {
    hide PrefixLength, Find, SearchUp, DescendChecked, CreateBelow;
    offset := 0;
    var start, cursor := DirectPrefix(ns, scope, code);
    if start.None? {
      return Bad, 0;
    }
    var justOne := cursor == 0;
    var header := ReadHeader(code, cursor);
    if header.None? {
      return Bad, 0;
    }
    var form, count: nat := header.value.0, header.value.1;
    cursor := header.value.2;
    if form.Null? {
      if behavior.CreateLast? || justOne {
        return Bad, 0;
      }
      return Node(start.value), cursor;
    }
    if count * 4 > |code| - cursor {
      return Bad, 0;
    }
    r, offset := FindNames(ns, start.value, code, cursor, count, justOne && form.Single?, behavior, canAllocate);
  }

  // Encoding

  function Flat(names: seq<Name>): (r: seq<char>)
    ensures |r| == 4 * |names|
  {
    if names == [] then [] else names[0] + Flat(names[1..])
  }

  /** How a compiler writes a prefix and up to 255 names (section 20.2.2 of ACPI 6.5). */
  function Encoded(prefix: seq<char>, names: seq<Name>): seq<char>
    requires |names| <= 255
  {
    prefix + match |names|
             case 0 => ['\0']
             case 1 => names[0]
             case 2 => [0x2E as char] + Flat(names)
             case n => [0x2F as char, n as char] + Flat(names)
  }

  lemma {:induction false} NamesOfFlat(before: seq<char>, names: seq<Name>)
    ensures Names(before + Flat(names), |before|, |names|) == names
    decreases |names|
  {
    if names != [] {
      var code := before + Flat(names);
      assert code == (before + names[0]) + Flat(names[1..]);
      assert code[|before|..|before| + 4] == names[0];
      NamesOfFlat(before + names[0], names[1..]);
    }
  }

  /** Both decoders read the prefix and the names that were written. */
  lemma EncodedParses(prefix: seq<char>, names: seq<Name>)
    requires |names| <= 255 && forall name | name in names :: ValidName(name)
    requires prefix == Carets(|prefix|) || prefix == "\\"
    ensures Parse(Encoded(prefix, names)).Some?
    ensures var p := Parse(Encoded(prefix, names)).value;
            && p.prefix == prefix && p.names == names && p.length == |Encoded(prefix, names)|
            && (p.form.Null? <==> |names| == 0) && (p.form.Single? <==> |names| == 1)
  {
    hide PrefixLength, Names, Carets;
    var code, flat := Encoded(prefix, names), Flat(names);
    PrefixOfEncoded(prefix, code[|prefix|..], names);
    assert code == prefix + code[|prefix|..] && code[..|prefix|] == prefix;
    var header := code[..|code| - |flat|];
    if |names| == 0 {
      NoNamesAt(code, |code|);
    } else if |names| == 1 {
      assert flat == names[0] + Flat([]) == names[0];
      assert code == prefix + flat;
      NamesOfFlat(prefix, names);
    } else {
      assert code == header + flat;
      NamesOfFlat(header, names);
    }
  }

  lemma PrefixOfEncoded(prefix: seq<char>, rest: seq<char>, names: seq<Name>)
    requires prefix == Carets(|prefix|) || prefix == "\\"
    requires |names| <= 255 && forall name | name in names :: ValidName(name)
    requires rest == Encoded(prefix, names)[|prefix|..]
    ensures PrefixLength(prefix + rest) == |prefix|
    ensures rest != [] && (|names| == 1 ==> rest[0] != '.' && rest[0] != '/' && rest[0] != '\0')
  {
    hide PrefixLength, Carets, Flat;
    if |names| == 1 {
      assert names[0] in names && names[0][0] in names[0];
      assert rest == names[0];
    }
    if prefix != "\\" {
      CaretsAreCounted(|prefix|, rest);
    } else {
      BackslashCounts(rest);
    }
  }

  lemma BackslashCounts(rest: seq<char>)
    ensures PrefixLength("\\" + rest) == 1
  {
  }

  // Names that start further up

  /** Carets in front of one name, which an AML name string and a text path write alike. */
  lemma CaretsParse(k: nat, name: Name)
    requires k > 0 && ValidName(name)
    ensures Parse(Carets(k) + name) == Some(Parsed(Carets(k), Single, [name], k + 4))
  {
    hide PrefixLength, Carets;
    var code := Carets(k) + name;
    assert name[0] in name;
    CaretsAreCounted(k, name);
    CaretsLength(k);
    assert code[..k] == Carets(k) && code[k] == name[0] && code[k..k + 4] == name;
    NoNamesAt(code, k + 4);
    assert Names(code, k, 1) == [name] + Names(code, k + 4, 0) == [name];
  }

  lemma NoNamesAt(code: seq<char>, i: nat)
    requires i <= |code|
    ensures Names(code, i, 0) == []
  {
  }

  /** They lead to the child of that name of the ancestor so many levels up. */
  lemma CaretsNameChild(ns: Space, scope: nat, k: nat, n: nat)
    requires ns.Valid() && Printable(ns) && scope < |ns.parents| && 0 < k <= Depth(ns, scope)
    requires 0 < n < |ns.parents| && ns.parents[n] == Ancestor(ns, scope, k) && ValidName(ns.names[n])
    ensures DirectSpec(ns, scope, Carets(k) + ns.names[n]) == Node(n)
  {
    hide Parse, Find, Climb, Carets, SearchUp;
    CaretsParse(k, ns.names[n]);
    CaretsLength(k);
    CaretsLeadUp(ns, scope, k, false);
    FindIsUnique(ns, n);
    assert DescendChecked(ns, n, [ns.names[n]][1..]) == Node(n);
    assert Carets(k) != [];
  }

  /** A lone name leads to the child of the nearest node above that has one of the name. */
  lemma LoneNameIsNearest(ns: Space, scope: nat, name: Name)
    requires ns.Valid() && scope < |ns.parents| && ValidName(name)
    ensures DirectSpec(ns, scope, name) == AsOutcome(SearchUp(ns, scope, name))
  {
    hide Parse, Find, SearchUp;
    LoneParses(name);
    assert Climb(ns, scope, [], false) == Some(scope);
  }

  lemma LoneParses(name: Name)
    requires ValidName(name)
    ensures Parse(name) == Some(Parsed([], Single, [name], 4))
  {
    assert name[0] in name && PrefixLength(name) == 0;
    assert name[..0] == [] && name[0..4] == name;
    NoNamesAt(name, 4);
    assert Names(name, 0, 1) == [name] + Names(name, 4, 0) == [name];
  }

  // A created name

  /** The space with one more node, the last child of its parent. */
  function With(ns: Space, parent: nat, name: Name, temporary: bool): Space {
    Space(ns.parents + [parent], ns.names + [name], ns.temporary + [temporary])
  }

  /** One more node changes no lookup but that of its own name in its own parent, and
      that one only if it failed. */
  lemma {:induction false} FindWith(ns: Space, parent: nat, name: Name, temporary: bool, p: nat, other: Name, c: nat)
    requires ns.Valid() && parent < |ns.parents| && 0 < c <= |ns.parents|
    ensures var more := With(ns, parent, name, temporary);
            && more.Valid()
            && FindFrom(more, p, other, c)
               == if FindFrom(ns, p, other, c).None? && p == parent && other == name then Some(|ns.parents|)
                  else FindFrom(ns, p, other, c)
    decreases |ns.parents| - c
  {
    var more := With(ns, parent, name, temporary);
    assert more.Valid();
    if c < |ns.parents| {
      FindWith(ns, parent, name, temporary, p, other, c + 1);
    } else {
      assert FindFrom(more, p, other, c + 1) == None;
    }
  }

  lemma {:induction false} ClimbWith(ns: Space, parent: nat, name: Name, temporary: bool, n: nat, prefix: seq<char>,
                                     afterCaret: bool)
    requires ns.Valid() && parent < |ns.parents| && n < |ns.parents|
    ensures With(ns, parent, name, temporary).Valid()
    ensures Climb(With(ns, parent, name, temporary), n, prefix, afterCaret) == Climb(ns, n, prefix, afterCaret)
    decreases |prefix|
  {
    var more := With(ns, parent, name, temporary);
    assert more.Valid();
    if prefix != [] && prefix[0] == '\\' {
      ClimbWith(ns, parent, name, temporary, 0, prefix[1..], false);
    } else if prefix != [] && n != 0 {
      assert more.parents[n] == ns.parents[n];
      ClimbWith(ns, parent, name, temporary, ns.parents[n], prefix[1..], true);
    }
  }

  lemma {:induction false} CreatedBelowIsFound(ns: Space, n: nat, names: seq<Name>, parent: nat, name: Name,
                                               temporary: bool)
    requires ns.Valid() && n < |ns.parents| && names != []
    requires CreateBelow(ns, n, names, true) == Create(parent, name)
    ensures parent < |ns.parents| && Find(ns, parent, name).None? && With(ns, parent, name, temporary).Valid()
    ensures DescendChecked(With(ns, parent, name, temporary), n, names) == Node(|ns.parents|)
    decreases |names|
  {
    var more := With(ns, parent, name, temporary);
    if |names| == 1 {
      FindWith(ns, parent, name, temporary, n, names[0], 1);
      assert DescendChecked(more, |ns.parents|, []) == Node(|ns.parents|);
    } else {
      CreatedBelowIsFound(ns, Find(ns, n, names[0]).value, names[1..], parent, name, temporary);
      FindWith(ns, parent, name, temporary, n, names[0], 1);
    }
  }

  /** What one call creates, the other finds: once the node is installed, the same code in
      the same scope names it. */
  lemma CreatedIsFound(ns: Space, scope: nat, code: seq<char>, parent: nat, name: Name, temporary: bool)
    requires ns.Valid() && scope < |ns.parents|
    requires CreateSpec(ns, scope, code, true) == Create(parent, name)
    ensures parent < |ns.parents| && Find(ns, parent, name).None?
    ensures With(ns, parent, name, temporary).Valid()
    ensures DirectSpec(With(ns, parent, name, temporary), scope, code) == Node(|ns.parents|)
  {
    hide Parse, FindFrom, Climb, PrefixLength;
    var p := Parse(code).value;
    var more := With(ns, parent, name, temporary);
    var start := Climb(ns, scope, p.prefix, false).value;
    CreatedBelowIsFound(ns, start, p.names, parent, name, temporary);
    ClimbWith(ns, parent, name, temporary, scope, p.prefix, false);
    if p.form.Single? && p.prefix == [] {
      NoClimb(ns, scope);
      LoneIsFound(more, scope, p.names[0]);
      assert p.names == [p.names[0]];
    }
  }

  lemma NoClimb(ns: Space, n: nat)
    requires ns.Valid() && n < |ns.parents|
    ensures Climb(ns, n, [], false) == Some(n)
  {
  }

  lemma LoneIsFound(ns: Space, n: nat, name: Name)
    requires ns.Valid() && n < |ns.parents|
    ensures DescendChecked(ns, n, [name]).Node? ==>
              ValidName(name) && DescendChecked(ns, n, [name]) == AsOutcome(SearchUp(ns, n, name))
    ensures DescendChecked(ns, n, [name]).Node? <==> ValidName(name) && Find(ns, n, name).Some?
  {
    if ValidName(name) && Find(ns, n, name).Some? {
      assert DescendChecked(ns, Find(ns, n, name).value, []) == Node(Find(ns, n, name).value);
    }
  }

  lemma {:induction false} TakenBelow(ns: Space, n: nat, names: seq<Name>, canAllocate: bool)
    requires ns.Valid() && n < |ns.parents| && names != []
    ensures CreateBelow(ns, n, names, canAllocate) == Exists <==> DescendChecked(ns, n, names).Node?
    decreases |names|
  {
    hide FindFrom, ValidName;
    if ValidName(names[0]) && Find(ns, n, names[0]).Some? && |names| > 1 {
      TakenBelow(ns, Find(ns, n, names[0]).value, names[1..], canAllocate);
    } else if |names| == 1 {
      assert names == [names[0]];
      LoneIsFound(ns, n, names[0]);
    }
  }

  /** A name is taken exactly if it can be looked up, but for a name found in an outer
      scope only, which a new node may hide. */
  lemma TakenIsFound(ns: Space, scope: nat, code: seq<char>, canAllocate: bool)
    requires ns.Valid() && scope < |ns.parents|
    ensures CreateSpec(ns, scope, code, canAllocate) == Exists <==>
            && DirectSpec(ns, scope, code).Node? && !Parse(code).value.form.Null?
            && var p := Parse(code).value;
               (p.form.Single? && p.prefix == [] ==> Find(ns, scope, p.names[0]).Some?)
  {
    hide Parse, Find, Climb, PrefixLength, CreateBelow, DescendChecked, SearchUp;
    if Parse(code).Some? {
      var p := Parse(code).value;
      var start := Climb(ns, scope, p.prefix, false);
      if start.Some? && !p.form.Null? {
        TakenBelow(ns, start.value, p.names, canAllocate);
        if p.form.Single? && p.prefix == [] {
          NoClimb(ns, scope);
          LoneIsFound(ns, scope, p.names[0]);
          assert p.names == [p.names[0]];
        }
      }
    }
  }

  // The two decoders agree

  /** The prefix ends where the prefix of the code ended, whatever follows it in the text. */
  lemma {:induction false} PrefixStays(code: seq<char>, text: seq<char>)
    requires text != [] ==> text[0] != '^' && text[0] != '\\'
    ensures PrefixLength(code[..PrefixLength(code)] + text) == PrefixLength(code)
  {
    var prefix := code[..PrefixLength(code)];
    if code != [] && code[0] == '^' {
      PrefixStays(code[1..], text);
      assert prefix[1..] == code[1..][..PrefixLength(code[1..])];
      assert (prefix + text)[1..] == prefix[1..] + text;
    } else if prefix == [] {
      assert prefix + text == text;
    }
  }

  lemma ValidHasNoDot(name: Name)
    requires ValidName(name)
    ensures '.' !in name && name[0] != '^' && name[0] != '\\'
  {
    assert name[0] in name;
  }

  /** Cutting the joined names at the dots gives the names back. */
  lemma {:induction false} SplitJoin(before: seq<char>, dot: seq<char>, names: seq<Name>)
    requires names != [] && (forall k | 0 <= k < |names| :: ValidName(names[k])) && (dot == "" || dot == ".")
    ensures Segments(before + dot + Join(names), |before|) == names
    decreases |names|
  {
    hide Join, Segments, ValidName;
    var text, done := before + dot + Join(names), before + dot + names[0];
    var tail := if |names| > 1 then "." + Join(names[1..]) else "";
    JoinStarts(names);
    assert text == done + tail;
    ValidHasNoDot(names[0]);
    ReadsName(before, dot, names[0], tail);
    if |names| > 1 {
      assert text == done + "." + Join(names[1..]);
      SplitJoin(done, ".", names[1..]);
    } else {
      NoSegments(text);
    }
  }

  lemma NoSegments(text: seq<char>)
    ensures Segments(text, |text|) == []
  {
  }

  lemma JoinStarts(names: seq<Name>)
    requires names != []
    ensures Join(names) == names[0] + if |names| > 1 then "." + Join(names[1..]) else ""
  {
  }

  lemma ParsedPrefix(p: Parsed, code: seq<char>)
    requires Parse(code) == Some(p)
    ensures p.prefix == code[..PrefixLength(code)] && |p.prefix| == PrefixLength(code)
  {
  }

  lemma TextOfParsed(p: Parsed, code: seq<char>)
    requires Parse(code) == Some(p) && forall k | 0 <= k < |p.names| :: ValidName(p.names[k])
    ensures PrefixLength(PathOf(p)) == |p.prefix| && PathOf(p)[..|p.prefix|] == p.prefix
    ensures Segments(PathOf(p), |p.prefix|) == p.names
  {
    hide Parse, Segments, ValidName, PrefixLength, Join;
    ParsedPrefix(p, code);
    if p.names != [] {
      ValidHasNoDot(p.names[0]);
      JoinStarts(p.names);
      SplitJoin(p.prefix, "", p.names);
      assert p.prefix + "" + Join(p.names) == PathOf(p);
      assert Join(p.names)[0] == p.names[0][0];
    } else {
      JoinLength(p.names);
      assert PathOf(p) == p.prefix;
      NoSegments(p.prefix);
    }
    PrefixStays(code, Join(p.names));
  }

  lemma {:induction false} CheckedDescend(ns: Space, n: nat, names: seq<Name>)
    requires ns.Valid() && n < |ns.parents| && forall k | 0 <= k < |names| :: ValidName(names[k])
    ensures DescendChecked(ns, n, names) == AsOutcome(Descend(ns, n, names))
    decreases |names|
  {
    if names != [] && Find(ns, n, names[0]).Some? {
      CheckedDescend(ns, Find(ns, n, names[0]).value, names[1..]);
    }
  }

  /** Both find the same node, or both fail. */
  predicate Agree(direct: Outcome, text: Result) {
    if direct.Node? then text == Found(direct.n) else !text.Found?
  }

  /** A lone name behind a MultiNamePrefix is not searched upwards directly, but its text
      form is: it is missing from the scope and present further up. */
  predicate LoneMulti(ns: Space, scope: nat, p: Parsed)
    requires ns.Valid() && scope < |ns.parents|
  {
    && p.form.Multi? && p.prefix == [] && |p.names| == 1
    && Find(ns, scope, p.names[0]).None? && SearchUp(ns, scope, p.names[0]).Some?
  }

  /** For valid names, the direct lookup of a name string and the upward-searching lookup
      of its text form agree, except exactly for a bare NullName and for a lone name
      behind a MultiNamePrefix that only an outer scope has. */
  lemma DecodersAgree(ns: Space, scope: nat, code: seq<char>)
    requires ns.Valid() && scope < |ns.parents|
    requires Parse(code).Some? ==> forall name | name in Parse(code).value.names :: ValidName(name)
    ensures Parse(code).None? ==> DirectSpec(ns, scope, code) == Bad
    ensures Parse(code).Some? ==>
              var p := Parse(code).value;
              Agree(DirectSpec(ns, scope, code), ResolveSpec(ns, scope, PathOf(p), true))
              <==> !(p.form.Null? && p.prefix == []) && !LoneMulti(ns, scope, p)
  {
    if Parse(code).Some? {
      var p := Parse(code).value;
      TextOfParsed(p, code);
      var start := Climb(ns, scope, p.prefix, false);
      if start.Some? {
        CheckedDescend(ns, start.value, p.names);
        hide Parse, Find, PathOf, SearchUp, Descend, DescendChecked, Segments, PrefixLength, Climb;
        if |p.names| == 1 {
          OneNameAgrees(ns, scope, start.value, p);
        } else if p.names == [] {
          NoNameAgrees(ns, scope, start.value, p);
        }
      }
    }
  }

  lemma OneNameAgrees(ns: Space, scope: nat, start: nat, p: Parsed)
    requires ns.Valid() && scope < |ns.parents| && start < |ns.parents| && |p.names| == 1 && !p.form.Null?
             && !p.form.Dual?
    requires p.prefix == [] ==> start == scope
    requires ValidName(p.names[0]) && DescendChecked(ns, start, p.names) == AsOutcome(Descend(ns, start, p.names))
    ensures var found := if p.prefix == [] then SearchUp(ns, start, p.names[0]) else Descend(ns, start, p.names);
            Agree(LookupParsed(ns, scope, start, p), if found.None? then Result.NotFound else Found(found.value))
            <==> !LoneMulti(ns, scope, p)
  {
    hide Find, SearchUp, Descend, DescendChecked;
    DescendOne(ns, start, p.names[0]);
    assert p.names == [p.names[0]];
  }

  lemma NoNameAgrees(ns: Space, scope: nat, start: nat, p: Parsed)
    requires ns.Valid() && scope < |ns.parents| && start < |ns.parents| && p.names == [] && p.form.Null?
    ensures Descend(ns, start, []) == Some(start)
    ensures Agree(LookupParsed(ns, scope, start, p), Found(start)) <==> p.prefix != []
  {
  }

  lemma DescendOne(ns: Space, n: nat, name: Name)
    requires ns.Valid() && n < |ns.parents|
    ensures Descend(ns, n, [name]) == Find(ns, n, name)
    ensures Find(ns, n, name).Some? ==> SearchUp(ns, n, name) == Find(ns, n, name)
  {
  }

  /** A node AAAA and its sibling BBBB. */
  function TwoSiblings(): Space { Space([0, 0, 0], ["____", "AAAA", "BBBB"], [false, false, false]) }

  /** A bare NullName names nothing to one decoder and the scope to the other. */
  lemma BareNullNameDiffers()
    ensures TwoSiblings().Valid()
    ensures Parse([NULL_NAME]) == Some(Parsed([], Null, [], 1))
    ensures !Agree(DirectSpec(TwoSiblings(), 1, [NULL_NAME]),
                   ResolveSpec(TwoSiblings(), 1, PathOf(Parse([NULL_NAME]).value), true))
  {
    assert TwoSiblings().Valid();
    var code := [NULL_NAME];
    assert PrefixLength(code) == 0 && code[..0] == [];
    DecodersAgree(TwoSiblings(), 1, code);
  }

  /** MultiNamePrefix, a count of one and the name of the sibling. */
  function LoneName(): seq<char> { [MULTI_NAME_PREFIX, 1 as char] + "BBBB" }

  lemma LoneNameParses()
    ensures Parse(LoneName()) == Some(Parsed([], Multi, ["BBBB"], 6))
  {
    var code := LoneName();
    assert PrefixLength(code) == 0 && code[..0] == [];
    assert code[1] == 1 as char && code[1] as int == 1;
    assert Header(code, 0) == Some((Multi, 1, 2));
    assert |code| == 6 && code[2..2 + 4] == "BBBB";
    assert Names(code, 6, 0) == [];
    assert Names(code, 2, 1) == ["BBBB"] + Names(code, 6, 0) == ["BBBB"];
  }

  lemma SiblingIsFound()
    ensures TwoSiblings().Valid()
    ensures Find(TwoSiblings(), 1, "BBBB") == None && SearchUp(TwoSiblings(), 1, "BBBB") == Some(2)
  {
    var ns := TwoSiblings();
    assert FindFrom(ns, 1, "BBBB", 3) == FindFrom(ns, 1, "BBBB", 2) == FindFrom(ns, 1, "BBBB", 1) == None;
    assert FindFrom(ns, 0, "BBBB", 2) == FindFrom(ns, 0, "BBBB", 1) == Some(2);
  }

  /** Only one decoder looks for a lone name behind a MultiNamePrefix in outer scopes. */
  lemma LoneMultiNameDiffers()
    ensures TwoSiblings().Valid()
    ensures Parse(LoneName()) == Some(Parsed([], Multi, ["BBBB"], 6))
    ensures !Agree(DirectSpec(TwoSiblings(), 1, LoneName()),
                   ResolveSpec(TwoSiblings(), 1, PathOf(Parse(LoneName()).value), true))
  {
    SiblingIsFound();
    LoneNameParses();
    hide Parse, DirectSpec, ResolveSpec, PathOf, Agree, Find, SearchUp, LoneName;
    assert ValidName("BBBB");
    assert LoneMulti(TwoSiblings(), 1, Parse(LoneName()).value);
    DecodersAgree(TwoSiblings(), 1, LoneName());
  }
}

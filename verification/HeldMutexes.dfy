/** The held-mutex array of an execution context, over the arrays it is stored in:
    `held_mutexes_array_push` and `held_mutexes_array_remove_and_release` of
    src/kern/acpi/interpreter.c. */
module HeldMutexes {
  import opened Common
  import opened SyncLevels
  import IA = InlineArray

  function AsMap(pool: seq<Mutex>): map<nat, Mutex> {
    map i: nat | i < |pool| :: pool[i]
  }

  ghost predicate Listed(held: IA.InlineArray<nat>, pool: array<Mutex>)
    reads held, held.inlineStorage, held.dynamicStorage
  {
    held.Valid() && forall h | h in held.Contents() :: h < pool.Length
  }

  /** The 16-bit decrement of the depth. */
  function Fewer(depth: nat): nat { if depth == 0 then MAX_DEPTH else depth - 1 }

  /** `uacpi_release_aml_mutex`: a mutex at depth zero is freed, too, and keeps a
      depth that has wrapped around. */
  method ReleaseMutex(pool: array<Mutex>, m: nat)
    requires m < pool.Length
    modifies pool
    ensures old(pool[m].depth) > 1 ==>
              pool[..] == old(pool[..])[m := old(pool[m]).(depth := old(pool[m].depth) - 1)]
    ensures old(pool[m].depth) == 1 ==>
              pool[..] == old(pool[..])[m := old(pool[m]).(holder := None, owner := None, depth := 0)]
    ensures old(pool[m].depth) == 0 ==>
              pool[..] == old(pool[..])[m := old(pool[m]).(holder := None, owner := None, depth := MAX_DEPTH)]
  {
    var depth := pool[m].depth;
    pool[m] := pool[m].(depth := Fewer(depth));
    if depth > 1 {
      return;
    }
    pool[m] := pool[m].(owner := None);
    pool[m] := pool[m].(holder := None);
  }

  /** Position of the last entry for `m`, found from the back. */
  method Search(held: IA.InlineArray<nat>, m: nat) returns (found: Option<nat>)
    requires held.Valid() && held.Contents() != []
    ensures found == LastIndex(held.Contents(), m)
  {
    var i := held.sizeIncludingInline;
    while true
      invariant 0 < i <= |held.Contents()| && m !in held.Contents()[i..]
      decreases i
    {
      i := i - 1;
      var _, item := held.At(i);
      if item == m {
        LastIndexIs(held.Contents(), m, i);
        return Some(i);
      }
      if i == 0 {
        assert held.Contents()[0..] == held.Contents();
        return None;
      }
    }
  }

  lemma {:induction false} LastIndexIs(held: seq<nat>, m: nat, i: nat)
    requires i < |held| && held[i] == m && m !in held[i + 1..]
    ensures LastIndex(held, m) == Some(i)
  {
    var n := |held| - 1;
    if i < n {
      assert held[n] == held[i + 1..][n - i - 1];
      var rest := held[..n][i + 1..];
      assert held[i + 1..] == rest + [held[n]];
      LastIndexIs(held[..n], m, i);
    }
  }

  /** Deletes the last entry for `m`, at once when it is the last entry of all. */
  method Unlist(held: IA.InlineArray<nat>, m: nat) returns (found: bool)
    requires held.Valid() && held.Contents() != []
    modifies held, held.inlineStorage, held.dynamicStorage
    ensures held.Valid() && held.dynamicStorage == old(held.dynamicStorage)
    ensures match LastIndex(old(held.Contents()), m)
            case None => !found && held.Contents() == old(held.Contents())
            case Some(i) => found && held.Contents() == Without(old(held.Contents()), i)
  {
    hide IA.InlineArray.Contents;
    ghost var before := held.Contents();
    var _, item := held.Last();
    if item == m {
      LastIndexIs(before, m, |before| - 1);
      held.Pop();
      assert held.Contents() == Without(before, |before| - 1);
      return true;
    }
    var i := Search(held, m);
    if i.None? {
      return false;
    }
    held.RemoveIdx(i.value);
    return true;
  }

  lemma WithoutSubset(held: seq<nat>, i: nat)
    requires i < |held|
    ensures forall h | h in Without(held, i) :: h in held
  {
  }

  /** Carries out what `Decide` decides: the step relation of `SyncLevels` is what
      this loop over the split array does. */
  method RemoveAndRelease(held: IA.InlineArray<nat>, pool: array<Mutex>, m: nat, force: bool) returns (ok: bool)
    requires Listed(held, pool) && m < pool.Length
    modifies held, held.inlineStorage, held.dynamicStorage, pool
    ensures Listed(held, pool) && held.dynamicStorage == old(held.dynamicStorage)
    ensures match Decide(AsMap(old(pool[..])), old(held.Contents()), m, force)
            case Invalid => !ok && held.Contents() == old(held.Contents()) && pool[..] == old(pool[..])
            case Ignored => ok && held.Contents() == old(held.Contents()) && pool[..] == old(pool[..])
            case Shallower => ok && held.Contents() == old(held.Contents())
                              && pool[..] == old(pool[..])[m := old(pool[m]).(depth := old(pool[m].depth) - 1)]
            case Remove(i) => ok && held.Contents() == Without(old(held.Contents()), i)
                              && pool[..] ==
                                 old(pool[..])[m := old(pool[m]).(holder := None, owner := None, depth := 0)]
  {
    hide IA.InlineArray.Contents, Without;
    ghost var before := held.Contents();
    if held.sizeIncludingInline == 0 {
      return false;
    }
    var _, item := held.Last();
    assert item in before;
    if pool[item].level != pool[m].level && !force {
      return true;
    }
    if pool[m].depth > 1 && !force {
      ReleaseMutex(pool, m);
      return true;
    }
    var found := Unlist(held, m);
    if !found {
      return false;
    }
    WithoutSubset(before, LastIndex(before, m).value);
    pool[m] := pool[m].(depth := 1);
    ReleaseMutex(pool, m);
    return true;
  }

  /** `held_mutexes_array_push`. */
  method PushHeld(held: IA.InlineArray<nat>, pool: array<Mutex>, m: nat, canAllocate: bool) returns (ok: bool)
    requires Listed(held, pool) && m < pool.Length
    modifies held, held.inlineStorage, held.dynamicStorage
    ensures Listed(held, pool) && held.Contents() == old(held.Contents()) + if ok then [m] else []
    ensures canAllocate ==> ok
  {
    ok := held.Push(m, canAllocate);
  }
}

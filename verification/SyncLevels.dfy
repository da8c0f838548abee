/** AML mutexes: the Acquire and Release opcodes of src/kern/acpi/interpreter.c over
    the recursive mutexes of src/kern/acpi/mutex.c, as steps of any number of threads.
    Each thread runs one execution context at a time. */
module SyncLevels {
  import opened Common

  const MAX_DEPTH: nat := 0xFFFF

  /** `holder` is the host mutex behind the handle, `owner` and `depth` are the
      fields threads read to see whether they already hold the mutex. */
  datatype Mutex = Mutex(level: nat, holder: Option<nat>, owner: Option<nat>, depth: nat)

  datatype Activity =
    | Idle
    | Waiting(m: nat)    // blocked on the host mutex, namespace lock dropped
    | Acquired(m: nat)   // host mutex taken, owner not stored yet
    | Owning(m: nat)     // owner and depth stored, not in the held array yet
    | Releasing(m: nat)  // out of the held array, owner still stored
    | Disowned(m: nat)   // owner cleared, host mutex still taken

  /** `exiting` marks a context that only runs its clean-up. */
  datatype Context = Context(syncLevel: nat, held: seq<nat>, activity: Activity, exiting: bool)

  datatype State = State(mutexes: map<nat, Mutex>, contexts: map<nat, Context>)

  // Release: which entry of the held array goes

  datatype Decision =
    | Invalid        // nothing held, or the mutex is not in the array
    | Ignored        // sync level differs from the last acquired mutex
    | Shallower      // one of several nested acquires undone
    | Remove(i: nat) // the entry to delete before the mutex is released

  function LastIndex(held: seq<nat>, m: nat): (r: Option<nat>)
    ensures r.None? <==> m !in held
    ensures r.Some? ==> r.value < |held| && held[r.value] == m && m !in held[r.value + 1..]
  {
    if held == [] then None
    else if held[|held| - 1] == m then Some(|held| - 1)
    else LastIndex(held[..|held| - 1], m)
  }

  /** `held_mutexes_array_remove_and_release`, up to the release itself. */
  function Decide(mutexes: map<nat, Mutex>, held: seq<nat>, m: nat, force: bool): Decision
    requires m in mutexes && forall h | h in held :: h in mutexes
  {
    if held == [] then Invalid
    else
      var last := held[|held| - 1];
      if mutexes[last].level != mutexes[m].level && !force then Ignored
      else if mutexes[m].depth > 1 && !force then Shallower
      else match LastIndex(held, m) case None => Invalid case Some(i) => Remove(i)
  }

  function Without(held: seq<nat>, i: nat): seq<nat>
    requires i < |held|
  {
    held[..i] + held[i + 1..]
  }

  /** The level a context falls back to: that of its last held mutex, or 0. */
  function Top(mutexes: map<nat, Mutex>, held: seq<nat>): nat
    requires forall h | h in held :: h in mutexes
  {
    if held == [] then 0 else mutexes[held[|held| - 1]].level
  }

  // Steps

  datatype Step =
    | Acquire(m: nat)   // the opcode, up to the wait
    | TakeNative        // the host mutex is granted
    | TimeOut           // or it is not
    | StoreOwner
    | FirmwareRefusal   // the Global Lock could not be had from firmware
    | Push              // into the held array, raising the sync level
    | PushFailure       // no memory: the method is aborted
    | Release(m: nat)   // the opcode, up to the release of the mutex
    | ClearOwner
    | ReleaseNative     // and the sync level falls back
    | Exit              // the method ends or is aborted
    | ForceRelease      // clean-up of one held mutex
    | Restart           // the thread starts another method

  ghost predicate WellFormed(s: State) {
    forall t | t in s.contexts ::
      var c := s.contexts[t];
      && (forall h | h in c.held :: h in s.mutexes)
      && (!c.activity.Idle? ==> c.activity.m in s.mutexes)
  }

  ghost predicate Next(s: State, t: nat, step: Step, s': State)
    requires WellFormed(s)
  {
    && t in s.contexts
    && match step
       case Acquire(m) => AcquireStep(s, t, m, s')
       case TakeNative => TakeStep(s, t, s')
       case TimeOut =>
         s.contexts[t].activity.Waiting? && s' == SetContext(s, t, s.contexts[t].(activity := Idle))
       case StoreOwner => StoreStep(s, t, s')
       case FirmwareRefusal => RefusalStep(s, t, s')
       case Push => PushStep(s, t, s')
       case PushFailure =>
         && s.contexts[t].activity.Owning?
         && s' == SetContext(s, t, s.contexts[t].(activity := Releasing(s.contexts[t].activity.m), exiting := true))
       case Release(m) => ReleaseStep(s, t, m, s')
       case ClearOwner => ClearStep(s, t, s')
       case ReleaseNative => FreeStep(s, t, s')
       case Exit =>
         s.contexts[t].activity.Idle? && s' == SetContext(s, t, s.contexts[t].(exiting := true))
       case ForceRelease => ForceStep(s, t, s')
       case Restart =>
         && s.contexts[t].activity.Idle? && s.contexts[t].exiting && s.contexts[t].held == []
         && s' == SetContext(s, t, Context(0, [], Idle, false))
  }

  ghost predicate AcquireStep(s: State, t: nat, m: nat, s': State)
    requires WellFormed(s) && t in s.contexts
  {
    var c := s.contexts[t];
    && c.activity.Idle? && !c.exiting && m in s.mutexes
    && var mutex := s.mutexes[m];
       if c.syncLevel > mutex.level then s' == s
       else if mutex.owner != Some(t) then s' == SetContext(s, t, c.(activity := Waiting(m)))
       else if mutex.depth == MAX_DEPTH then s' == s
       else s' == Set(s, m, mutex.(depth := mutex.depth + 1), t, c)
  }

  ghost predicate TakeStep(s: State, t: nat, s': State)
    requires WellFormed(s) && t in s.contexts
  {
    var c := s.contexts[t];
    && c.activity.Waiting?
    && var m := c.activity.m;
       && s.mutexes[m].holder.None?
       && s' == Set(s, m, s.mutexes[m].(holder := Some(t)), t, c.(activity := Acquired(m)))
  }

  ghost predicate StoreStep(s: State, t: nat, s': State)
    requires WellFormed(s) && t in s.contexts
  {
    var c := s.contexts[t];
    && c.activity.Acquired?
    && var m := c.activity.m;
       s' == Set(s, m, s.mutexes[m].(owner := Some(t), depth := 1), t, c.(activity := Owning(m)))
  }

  ghost predicate RefusalStep(s: State, t: nat, s': State)
    requires WellFormed(s) && t in s.contexts
  {
    var c := s.contexts[t];
    && c.activity.Acquired?
    && var m := c.activity.m;
       s' == Set(s, m, s.mutexes[m].(holder := None), t, c.(activity := Idle))
  }

  ghost predicate PushStep(s: State, t: nat, s': State)
    requires WellFormed(s) && t in s.contexts
  {
    var c := s.contexts[t];
    && c.activity.Owning?
    && var m := c.activity.m;
       s' == SetContext(s, t, c.(held := c.held + [m], syncLevel := s.mutexes[m].level, activity := Idle))
  }

  ghost predicate ReleaseStep(s: State, t: nat, m: nat, s': State)
    requires WellFormed(s) && t in s.contexts
  {
    var c := s.contexts[t];
    && c.activity.Idle? && !c.exiting && m in s.mutexes
    && var mutex := s.mutexes[m];
       if mutex.owner != Some(t) then s' == s
       else match Decide(s.mutexes, c.held, m, false)
         case Invalid => s' == s
         case Ignored => s' == Set(s, m, mutex, t, c.(syncLevel := Top(s.mutexes, c.held)))
         case Shallower => s' == Set(s, m, mutex.(depth := mutex.depth - 1), t, c.(syncLevel := Top(s.mutexes, c.held)))
         case Remove(i) => s' == Removed(s, t, i)
  }

  /** The mutex leaves the held array and is about to be released at depth 1. */
  function Removed(s: State, t: nat, i: nat): State
    requires t in s.contexts && i < |s.contexts[t].held| && s.contexts[t].held[i] in s.mutexes
  {
    var c := s.contexts[t];
    var m := c.held[i];
    Set(s, m, s.mutexes[m].(depth := 1), t, c.(held := Without(c.held, i), activity := Releasing(m)))
  }

  ghost predicate ForceStep(s: State, t: nat, s': State)
    requires WellFormed(s) && t in s.contexts
  {
    var c := s.contexts[t];
    && c.activity.Idle? && c.exiting && c.held != []
    && match Decide(s.mutexes, c.held, c.held[|c.held| - 1], true)
       case Remove(i) => s' == Removed(s, t, i)
       case _ => s' == s
  }

  ghost predicate ClearStep(s: State, t: nat, s': State)
    requires WellFormed(s) && t in s.contexts
  {
    var c := s.contexts[t];
    && c.activity.Releasing?
    && var m := c.activity.m;
       s' == Set(s, m, s.mutexes[m].(owner := None, depth := 0), t, c.(activity := Disowned(m)))
  }

  ghost predicate FreeStep(s: State, t: nat, s': State)
    requires WellFormed(s) && t in s.contexts
  {
    var c := s.contexts[t];
    && c.activity.Disowned?
    && var m := c.activity.m;
       s' == Set(s, m, s.mutexes[m].(holder := None), t,
                 c.(activity := Idle, syncLevel := if c.exiting then c.syncLevel else Top(s.mutexes, c.held)))
  }

  function Set(s: State, m: nat, mutex: Mutex, t: nat, c: Context): State {
    State(s.mutexes[m := mutex], s.contexts[t := c])
  }

  function SetContext(s: State, t: nat, c: Context): State {
    s.(contexts := s.contexts[t := c])
  }

  // The invariant

  ghost predicate Sorted(mutexes: map<nat, Mutex>, held: seq<nat>)
    requires forall h | h in held :: h in mutexes
  {
    forall i: nat, j: nat | i < j < |held| :: mutexes[held[i]].level <= mutexes[held[j]].level
  }

  ghost predicate Distinct(held: seq<nat>) {
    forall i: nat, j: nat | i < j < |held| :: held[i] != held[j]
  }

  /** The mutex a context has taken but not yet listed, or unlisted but not yet freed. */
  predicate InFlight(c: Context, m: nat) {
    (c.activity.Acquired? || c.activity.Owning? || c.activity.Releasing? || c.activity.Disowned?) && c.activity.m == m
  }

  predicate Uses(c: Context, m: nat) {
    m in c.held || InFlight(c, m)
  }

  predicate StoresOwner(c: Context, m: nat) {
    m in c.held || ((c.activity.Owning? || c.activity.Releasing?) && c.activity.m == m)
  }

  ghost predicate ContextInv(mutexes: map<nat, Mutex>, c: Context)
    requires forall h | h in c.held :: h in mutexes
    requires !c.activity.Idle? ==> c.activity.m in mutexes
  {
    && Sorted(mutexes, c.held) && Distinct(c.held)
    && Top(mutexes, c.held) <= c.syncLevel
    && (!c.exiting && !c.activity.Releasing? && !c.activity.Disowned? ==> c.syncLevel == Top(mutexes, c.held))
    && (!c.activity.Idle? ==> c.activity.m !in c.held)
    && (c.activity.Waiting? || c.activity.Acquired? || c.activity.Owning? ==>
          !c.exiting && c.syncLevel <= mutexes[c.activity.m].level)
  }

  /** Holder and owner of a mutex are what its users' contexts say. */
  ghost predicate MutexInv(s: State, m: nat, mutex: Mutex) {
    && (forall t | t in s.contexts :: mutex.holder == Some(t) <==> Uses(s.contexts[t], m))
    && (forall t | t in s.contexts :: mutex.owner == Some(t) <==> StoresOwner(s.contexts[t], m))
    && (mutex.holder.Some? ==> mutex.holder.value in s.contexts)
    && (mutex.owner.Some? ==> mutex.owner.value in s.contexts && 1 <= mutex.depth <= MAX_DEPTH)
  }

  predicate OnceDeep(c: Context) {
    c.activity.Owning? || c.activity.Releasing?
  }

  ghost predicate ContextsOk(s: State)
    requires WellFormed(s)
  {
    forall t | t in s.contexts :: ContextInv(s.mutexes, s.contexts[t])
  }

  ghost predicate MutexesOk(s: State) {
    forall m | m in s.mutexes :: MutexInv(s, m, s.mutexes[m])
  }

  ghost predicate DepthsOk(s: State)
    requires WellFormed(s)
  {
    forall t | t in s.contexts && OnceDeep(s.contexts[t]) :: s.mutexes[s.contexts[t].activity.m].depth == 1
  }

  ghost predicate Inv(s: State) {
    WellFormed(s) && ContextsOk(s) && MutexesOk(s) && DepthsOk(s)
  }

  lemma WithoutKeeps(mutexes: map<nat, Mutex>, held: seq<nat>, i: nat)
    requires i < |held| && (forall h | h in held :: h in mutexes) && Sorted(mutexes, held) && Distinct(held)
    ensures forall h | h in Without(held, i) :: h in mutexes
    ensures Sorted(mutexes, Without(held, i)) && Distinct(Without(held, i))
    ensures Top(mutexes, Without(held, i)) <= Top(mutexes, held)
    ensures forall h :: h in Without(held, i) <==> h in held && h != held[i]
  {
  }

  /** What a step needs to know about the context and the mutex it works on. */
  lemma Facts(s: State, t: nat, m: nat)
    requires Inv(s) && t in s.contexts && m in s.mutexes
    ensures ContextFits(s.mutexes, s.contexts[t])
    ensures var c, mutex := s.contexts[t], s.mutexes[m];
            && (mutex.holder == Some(t) <==> Uses(c, m)) && (mutex.owner == Some(t) <==> StoresOwner(c, m))
            && (mutex.owner.Some? ==> mutex.owner == mutex.holder && 1 <= mutex.depth <= MAX_DEPTH)
            && (OnceDeep(c) && c.activity.m == m ==> mutex.depth == 1)
  {
    HolderOwns(s, m);
    assert MutexInv(s, m, s.mutexes[m]);
  }

  /** Whoever has the owner field also has the host mutex. */
  lemma HolderOwns(s: State, m: nat)
    requires m in s.mutexes && MutexInv(s, m, s.mutexes[m])
    ensures s.mutexes[m].owner.None? || s.mutexes[m].owner == s.mutexes[m].holder
  {
  }

  // A step changes one context and at most one mutex. It keeps the invariant when
  // the two agree afterwards and the context's use of other mutexes is as before.

  ghost predicate ContextFits(mutexes: map<nat, Mutex>, c: Context) {
    && (forall h | h in c.held :: h in mutexes)
    && (!c.activity.Idle? ==> c.activity.m in mutexes)
    && ContextInv(mutexes, c)
  }

  ghost predicate SameUse(c: Context, c': Context, x: nat) {
    (Uses(c', x) <==> Uses(c, x)) && (StoresOwner(c', x) <==> StoresOwner(c, x))
  }

  lemma ContextsKept(s: State, m: nat, mutex: Mutex, t: nat, c: Context)
    requires WellFormed(s) && ContextsOk(s) && t in s.contexts && m in s.mutexes && mutex.level == s.mutexes[m].level
    requires ContextFits(s.mutexes, c)
    ensures WellFormed(Set(s, m, mutex, t, c)) && ContextsOk(Set(s, m, mutex, t, c))
  {
    var s' := Set(s, m, mutex, t, c);
    forall u | u in s'.contexts
      ensures ContextInv(s'.mutexes, s'.contexts[u])
    {
      LevelsOnly(s.mutexes, s'.mutexes, s'.contexts[u]);
    }
  }

  lemma LevelsOnly(mutexes: map<nat, Mutex>, mutexes': map<nat, Mutex>, c: Context)
    requires mutexes'.Keys == mutexes.Keys && forall m | m in mutexes :: mutexes'[m].level == mutexes[m].level
    requires ContextFits(mutexes, c)
    ensures ContextFits(mutexes', c)
  {
  }

  lemma MutexesKept(s: State, m: nat, mutex: Mutex, t: nat, c: Context)
    requires MutexesOk(s) && t in s.contexts && m in s.mutexes
    requires forall x | x in s.mutexes && x != m :: SameUse(s.contexts[t], c, x)
    requires MutexInv(Set(s, m, mutex, t, c), m, mutex)
    ensures MutexesOk(Set(s, m, mutex, t, c))
  {
    hide MutexInv, SameUse;
    var s' := Set(s, m, mutex, t, c);
    forall x | x in s'.mutexes
      ensures MutexInv(s', x, s'.mutexes[x])
    {
      if x != m { OtherMutex(s, s', t, c, x); }
    }
  }

  lemma OtherMutex(s: State, s': State, t: nat, c: Context, x: nat)
    requires x in s.mutexes && MutexInv(s, x, s.mutexes[x]) && t in s.contexts
    requires s'.contexts == s.contexts[t := c] && SameUse(s.contexts[t], c, x)
    ensures MutexInv(s', x, s.mutexes[x])
  {
  }

  lemma DepthsKept(s: State, m: nat, mutex: Mutex, t: nat, c: Context)
    requires WellFormed(s) && DepthsOk(s) && t in s.contexts && m in s.mutexes
    requires MutexInv(s, m, s.mutexes[m]) && s.mutexes[m].owner in {None, Some(t)}
    requires OnceDeep(c) ==> c.activity.m == m && mutex.depth == 1
    requires WellFormed(Set(s, m, mutex, t, c))
    ensures DepthsOk(Set(s, m, mutex, t, c))
  {
    forall u | u in s.contexts && u != t && OnceDeep(s.contexts[u])
      ensures s.contexts[u].activity.m != m
    {
      assert StoresOwner(s.contexts[u], s.contexts[u].activity.m);
    }
  }

  lemma MutexFits(s: State, m: nat, mutex: Mutex, t: nat, c: Context)
    requires t in s.contexts && m in s.mutexes && MutexInv(s, m, s.mutexes[m])
    requires s.mutexes[m].holder in {None, Some(t)}
    requires AgreesWith(mutex, m, t, c)
    ensures MutexInv(Set(s, m, mutex, t, c), m, mutex)
  {
    HolderOwns(s, m);
  }

  predicate AgreesWith(mutex: Mutex, m: nat, t: nat, c: Context) {
    && mutex.holder == (if Uses(c, m) then Some(t) else None)
    && mutex.owner == (if StoresOwner(c, m) then Some(t) else None)
    && (mutex.owner.Some? ==> 1 <= mutex.depth <= MAX_DEPTH)
  }

  lemma Kept(s: State, m: nat, mutex: Mutex, t: nat, c: Context)
    requires Inv(s) && t in s.contexts && m in s.mutexes && mutex.level == s.mutexes[m].level
    requires ContextFits(s.mutexes, c)
    requires forall x | x in s.mutexes && x != m :: SameUse(s.contexts[t], c, x)
    requires s.mutexes[m].holder in {None, Some(t)} && AgreesWith(mutex, m, t, c)
    requires OnceDeep(c) ==> c.activity.m == m && mutex.depth == 1
    ensures Inv(Set(s, m, mutex, t, c))
  {
    assert MutexInv(s, m, s.mutexes[m]);
    HolderOwns(s, m);
    hide ContextsOk, MutexesOk, DepthsOk, MutexInv, SameUse, ContextFits, AgreesWith;
    MutexFits(s, m, mutex, t, c);
    ContextsKept(s, m, mutex, t, c);
    MutexesKept(s, m, mutex, t, c);
    DepthsKept(s, m, mutex, t, c);
  }

  /** A context that only goes through stages of its work on `m`. */
  lemma WorksOn(c: Context, activity: Activity, m: nat)
    requires (c.activity.Idle? || c.activity.m == m) && (activity.Idle? || activity.m == m)
    ensures forall x, syncLevel, exiting | x != m ::
              SameUse(c, c.(activity := activity, syncLevel := syncLevel, exiting := exiting), x)
  {
  }

  /** The same for a step that leaves every mutex alone. */
  lemma KeptLocally(s: State, t: nat, c: Context)
    requires Inv(s) && t in s.contexts && ContextFits(s.mutexes, c) && !OnceDeep(c)
    requires forall x | x in s.mutexes :: SameUse(s.contexts[t], c, x)
    ensures Inv(SetContext(s, t, c))
  {
    hide MutexInv, SameUse, ContextInv;
    var s' := SetContext(s, t, c);
    forall x | x in s.mutexes
      ensures MutexInv(s', x, s.mutexes[x])
    {
      OtherMutex(s, s', t, c, x);
    }
  }

  lemma AcquireKeepsInv(s: State, t: nat, m: nat, s': State)
    requires Inv(s) && t in s.contexts && AcquireStep(s, t, m, s')
    ensures Inv(s')
  {
    if s' != s {
      if s.mutexes[m].owner != Some(t) { WaitKeepsInv(s, t, m); } else { DeeperKeepsInv(s, t, m); }
    }
  }

  lemma WaitKeepsInv(s: State, t: nat, m: nat)
    requires Inv(s) && t in s.contexts && s.contexts[t].activity.Idle? && !s.contexts[t].exiting
    requires m in s.mutexes && s.contexts[t].syncLevel <= s.mutexes[m].level && s.mutexes[m].owner != Some(t)
    ensures Inv(SetContext(s, t, s.contexts[t].(activity := Waiting(m))))
  {
    Facts(s, t, m);
    hide Inv, WellFormed;
    KeptLocally(s, t, s.contexts[t].(activity := Waiting(m)));
  }

  lemma DeeperKeepsInv(s: State, t: nat, m: nat)
    requires Inv(s) && t in s.contexts && s.contexts[t].activity.Idle?
    requires m in s.mutexes && s.mutexes[m].owner == Some(t) && s.mutexes[m].depth != MAX_DEPTH
    ensures Inv(Set(s, m, s.mutexes[m].(depth := s.mutexes[m].depth + 1), t, s.contexts[t]))
  {
    Facts(s, t, m);
    hide Inv, WellFormed;
    Kept(s, m, s.mutexes[m].(depth := s.mutexes[m].depth + 1), t, s.contexts[t]);
  }

  lemma TakeKeepsInv(s: State, t: nat, s': State)
    requires Inv(s) && t in s.contexts && TakeStep(s, t, s')
    ensures Inv(s')
  {
    var m := s.contexts[t].activity.m;
    Facts(s, t, m);
    hide Inv, WellFormed, SameUse;
    WorksOn(s.contexts[t], s'.contexts[t].activity, m);
    Kept(s, m, s'.mutexes[m], t, s'.contexts[t]);
  }

  lemma StoreKeepsInv(s: State, t: nat, s': State)
    requires Inv(s) && t in s.contexts && StoreStep(s, t, s')
    ensures Inv(s')
  {
    var m := s.contexts[t].activity.m;
    Facts(s, t, m);
    hide Inv, WellFormed, SameUse;
    WorksOn(s.contexts[t], s'.contexts[t].activity, m);
    Kept(s, m, s'.mutexes[m], t, s'.contexts[t]);
  }

  lemma RefusalKeepsInv(s: State, t: nat, s': State)
    requires Inv(s) && t in s.contexts && RefusalStep(s, t, s')
    ensures Inv(s')
  {
    var m := s.contexts[t].activity.m;
    Facts(s, t, m);
    hide Inv, WellFormed, SameUse;
    WorksOn(s.contexts[t], s'.contexts[t].activity, m);
    Kept(s, m, s'.mutexes[m], t, s'.contexts[t]);
  }

  lemma PushKeepsInv(s: State, t: nat, s': State)
    requires Inv(s) && t in s.contexts && PushStep(s, t, s')
    ensures Inv(s')
  {
    var c := s.contexts[t];
    var m := c.activity.m;
    Facts(s, t, m);
    PushedFits(s.mutexes, c);
    hide Inv, WellFormed, ContextFits, ContextInv;
    Kept(s, m, s.mutexes[m], t, s'.contexts[t]);
    assert s.mutexes[m := s.mutexes[m]] == s.mutexes;
  }

  lemma PushedFits(mutexes: map<nat, Mutex>, c: Context)
    requires ContextFits(mutexes, c) && c.activity.Owning?
    ensures var m := c.activity.m;
            var c' := c.(held := c.held + [m], syncLevel := mutexes[m].level, activity := Idle);
            ContextFits(mutexes, c') && forall x | x != m :: SameUse(c, c', x)
  {
    var m := c.activity.m;
    assert forall x :: x in c.held + [m] <==> x in c.held || x == m;
  }

  lemma PushFailureKeepsInv(s: State, t: nat, s': State)
    requires Inv(s) && t in s.contexts && s.contexts[t].activity.Owning?
    requires s' == SetContext(s, t, s.contexts[t].(activity := Releasing(s.contexts[t].activity.m), exiting := true))
    ensures Inv(s')
  {
    var m := s.contexts[t].activity.m;
    Facts(s, t, m);
    hide Inv, WellFormed, SameUse;
    WorksOn(s.contexts[t], s'.contexts[t].activity, m);
    Kept(s, m, s.mutexes[m], t, s'.contexts[t]);
    assert s.mutexes[m := s.mutexes[m]] == s.mutexes;
  }

  lemma RemoveKeepsInv(s: State, t: nat, i: nat)
    requires Inv(s) && t in s.contexts && s.contexts[t].activity.Idle? && i < |s.contexts[t].held|
    ensures s.contexts[t].held[i] in s.mutexes && Inv(Removed(s, t, i))
  {
    var c := s.contexts[t];
    var m := c.held[i];
    var c' := c.(held := Without(c.held, i), activity := Releasing(m));
    Facts(s, t, m);
    RemovedFits(s.mutexes, c, i);
    hide Inv, WellFormed, Without, ContextFits, ContextInv, SameUse;
    Kept(s, m, s.mutexes[m].(depth := 1), t, c');
  }

  lemma RemovedFits(mutexes: map<nat, Mutex>, c: Context, i: nat)
    requires ContextFits(mutexes, c) && c.activity.Idle? && i < |c.held|
    ensures ContextFits(mutexes, c.(held := Without(c.held, i), activity := Releasing(c.held[i])))
    ensures forall x | x != c.held[i] ::
              SameUse(c, c.(held := Without(c.held, i), activity := Releasing(c.held[i])), x)
  {
    hide Without, Sorted, Distinct, Top;
    WithoutKeeps(mutexes, c.held, i);
  }

  lemma ReleaseKeepsInv(s: State, t: nat, m: nat, s': State)
    requires Inv(s) && t in s.contexts && ReleaseStep(s, t, m, s')
    ensures Inv(s')
  {
    Facts(s, t, m);
    hide Inv, WellFormed, SameUse;
    WorksOn(s.contexts[t], s'.contexts[t].activity, m);
    if s.mutexes[m].owner == Some(t) {
      match Decide(s.mutexes, s.contexts[t].held, m, false)
      case Invalid =>
      case Remove(i) => RemoveKeepsInv(s, t, i);
      case Ignored => Kept(s, m, s'.mutexes[m], t, s'.contexts[t]);
      case Shallower => Kept(s, m, s'.mutexes[m], t, s'.contexts[t]);
    }
  }

  lemma ClearKeepsInv(s: State, t: nat, s': State)
    requires Inv(s) && t in s.contexts && ClearStep(s, t, s')
    ensures Inv(s')
  {
    var m := s.contexts[t].activity.m;
    Facts(s, t, m);
    hide Inv, WellFormed, SameUse;
    WorksOn(s.contexts[t], s'.contexts[t].activity, m);
    Kept(s, m, s'.mutexes[m], t, s'.contexts[t]);
  }

  lemma FreeKeepsInv(s: State, t: nat, s': State)
    requires Inv(s) && t in s.contexts && FreeStep(s, t, s')
    ensures Inv(s')
  {
    var m := s.contexts[t].activity.m;
    Facts(s, t, m);
    hide Inv, WellFormed, SameUse;
    WorksOn(s.contexts[t], s'.contexts[t].activity, m);
    Kept(s, m, s'.mutexes[m], t, s'.contexts[t]);
  }

  lemma LocalStepKeepsInv(s: State, t: nat, step: Step, s': State)
    requires Inv(s) && Next(s, t, step, s') && (step.TimeOut? || step.Exit? || step.Restart?)
    ensures Inv(s')
  {
    assert ContextInv(s.mutexes, s.contexts[t]);
    KeptLocally(s, t, s'.contexts[t]);
  }

  /** Every step of every thread keeps the invariant. */
  lemma StepKeepsInv(s: State, t: nat, step: Step, s': State)
    requires Inv(s) && Next(s, t, step, s')
    ensures Inv(s')
  {
    match step
    case Acquire(m) => AcquireKeepsInv(s, t, m, s');
    case TakeNative => TakeKeepsInv(s, t, s');
    case StoreOwner => StoreKeepsInv(s, t, s');
    case FirmwareRefusal => RefusalKeepsInv(s, t, s');
    case Push => PushKeepsInv(s, t, s');
    case PushFailure => PushFailureKeepsInv(s, t, s');
    case Release(m) => ReleaseKeepsInv(s, t, m, s');
    case ClearOwner => ClearKeepsInv(s, t, s');
    case ReleaseNative => FreeKeepsInv(s, t, s');
    case ForceRelease => RemoveKeepsInv(s, t, |s.contexts[t].held| - 1);
    case _ => LocalStepKeepsInv(s, t, step, s');
  }

  // Runs

  ghost predicate Init(s: State) {
    && (forall t | t in s.contexts :: s.contexts[t] == Context(0, [], Idle, false))
    && forall m | m in s.mutexes :: s.mutexes[m].holder.None? && s.mutexes[m].owner.None? && s.mutexes[m].depth == 0
  }

  /** A run: any interleaving of enabled steps of any threads. */
  ghost predicate Run(states: seq<State>, moves: seq<(nat, Step)>) {
    && |states| == |moves| + 1 && Init(states[0])
    && forall i: nat | i < |moves| ::
         WellFormed(states[i]) && Next(states[i], moves[i].0, moves[i].1, states[i + 1])
  }

  lemma {:induction false} RunKeepsInv(states: seq<State>, moves: seq<(nat, Step)>, k: nat)
    requires Run(states, moves) && k < |states|
    ensures Inv(states[k])
  {
    if k > 0 {
      RunKeepsInv(states, moves, k - 1);
      StepKeepsInv(states[k - 1], moves[k - 1].0, moves[k - 1].1, states[k]);
    }
  }

  /** In every state of every run a context's held mutexes are sorted by level, bounded
      by its sync level and held once each, and who is the owner has the host mutex. */
  lemma HeldSortedAndBounded(states: seq<State>, moves: seq<(nat, Step)>, k: nat, t: nat)
    requires Run(states, moves) && k < |states| && t in states[k].contexts
    ensures var s := states[k];
            var c := s.contexts[t];
            && WellFormed(s) && Sorted(s.mutexes, c.held) && Distinct(c.held)
            && (forall h | h in c.held :: s.mutexes[h].level <= c.syncLevel)
            && (forall m | m in s.mutexes :: s.mutexes[m].owner == Some(t) ==> s.mutexes[m].holder == Some(t))
  {
    RunKeepsInv(states, moves, k);
    var s := states[k];
    var c := s.contexts[t];
    assert ContextInv(s.mutexes, c);
    forall h | h in c.held
      ensures s.mutexes[h].level <= c.syncLevel
    {
      LastIsTop(s.mutexes, c.held, h);
    }
    forall m | m in s.mutexes && s.mutexes[m].owner == Some(t)
      ensures s.mutexes[m].holder == Some(t)
    {
      HolderOwns(s, m);
    }
  }

  /** No mutex a thread holds is in use by another thread. */
  lemma HeldByOneThread(states: seq<State>, moves: seq<(nat, Step)>, k: nat, t: nat, u: nat, h: nat)
    requires Run(states, moves) && k < |states| && t in states[k].contexts && u in states[k].contexts && t != u
    requires h in states[k].contexts[t].held
    ensures !Uses(states[k].contexts[u], h)
  {
    RunKeepsInv(states, moves, k);
    var s := states[k];
    assert ContextInv(s.mutexes, s.contexts[t]);
    assert MutexInv(s, h, s.mutexes[h]);
  }

  lemma LastIsTop(mutexes: map<nat, Mutex>, held: seq<nat>, h: nat)
    requires (forall x | x in held :: x in mutexes) && Sorted(mutexes, held) && h in held
    ensures mutexes[h].level <= Top(mutexes, held)
  {
    var i :| 0 <= i < |held| && held[i] == h;
    assert i < |held| - 1 ==> mutexes[held[i]].level <= mutexes[held[|held| - 1]].level;
  }

  // Deadlock

  /** Every thread of the cycle waits for a mutex that the next one has. */
  ghost predicate WaitCycle(s: State, cycle: seq<nat>)
    requires WellFormed(s)
  {
    && cycle != []
    && (forall i: nat | i < |cycle| :: cycle[i] in s.contexts && s.contexts[cycle[i]].activity.Waiting?)
    && forall i: nat | i < |cycle| ::
         s.mutexes[s.contexts[cycle[i]].activity.m].holder == Some(cycle[if i + 1 == |cycle| then 0 else i + 1])
  }

  function WaitLevel(s: State, t: nat): nat
    requires WellFormed(s) && t in s.contexts && s.contexts[t].activity.Waiting?
  {
    s.mutexes[s.contexts[t].activity.m].level
  }

  /** A thread that waits only holds mutexes of at most the level it waits for. */
  lemma WaitsUpwards(s: State, t: nat, u: nat)
    requires Inv(s) && t in s.contexts && u in s.contexts
    requires s.contexts[t].activity.Waiting? && s.contexts[u].activity.Waiting?
    requires s.mutexes[s.contexts[t].activity.m].holder == Some(u)
    ensures WaitLevel(s, t) <= WaitLevel(s, u)
    ensures t != u || s.contexts[t].activity.m in s.contexts[t].held
    ensures s.contexts[t].activity.m in s.contexts[u].held
  {
    var m := s.contexts[t].activity.m;
    assert MutexInv(s, m, s.mutexes[m]) && ContextInv(s.mutexes, s.contexts[u]);
    LastIsTop(s.mutexes, s.contexts[u].held, m);
  }

  lemma {:induction false} LevelsRise(s: State, cycle: seq<nat>, i: nat, j: nat)
    requires Inv(s) && WaitCycle(s, cycle) && i <= j < |cycle|
    ensures WaitLevel(s, cycle[i]) <= WaitLevel(s, cycle[j])
    decreases j - i
  {
    if i < j {
      assert i + 1 < |cycle|;
      WaitsUpwards(s, cycle[i], cycle[i + 1]);
      LevelsRise(s, cycle, i + 1, j);
    }
  }

  /** Every wait-for cycle of every run uses mutexes of one single sync level. */
  lemma CycleHasOneLevel(states: seq<State>, moves: seq<(nat, Step)>, k: nat, cycle: seq<nat>, i: nat, j: nat)
    requires Run(states, moves) && k < |states| && WellFormed(states[k]) && WaitCycle(states[k], cycle)
    requires i < |cycle| && j < |cycle|
    ensures WaitLevel(states[k], cycle[i]) == WaitLevel(states[k], cycle[j])
  {
    RunKeepsInv(states, moves, k);
    var s, n := states[k], |cycle|;
    WaitsUpwards(s, cycle[n - 1], cycle[0]);
    LevelsRise(s, cycle, 0, i);
    LevelsRise(s, cycle, i, n - 1);
    LevelsRise(s, cycle, 0, j);
    LevelsRise(s, cycle, j, n - 1);
  }

  /** With pairwise different levels there is no wait-for cycle at all. */
  lemma NoCycleWithDistinctLevels(states: seq<State>, moves: seq<(nat, Step)>, k: nat, cycle: seq<nat>)
    requires Run(states, moves) && k < |states| && WellFormed(states[k])
    requires forall m, m' | m in states[k].mutexes && m' in states[k].mutexes && m != m' ::
               states[k].mutexes[m].level != states[k].mutexes[m'].level
    ensures !WaitCycle(states[k], cycle)
  {
    var s := states[k];
    if WaitCycle(s, cycle) {
      RunKeepsInv(states, moves, k);
      var n := |cycle|;
      var next := if n == 1 then 0 else 1;
      CycleHasOneLevel(states, moves, k, cycle, 0, next);
      WaitsUpwards(s, cycle[0], cycle[next]);
    }
  }

  // Two mutexes of one level are enough for a deadlock: each of two threads takes
  // one and then asks for the other.

  const START := Context(0, [], Idle, false)

  function DeadlockMutex(level: nat, t: nat, stage: nat): Mutex {
    match stage
    case 0 => Mutex(level, None, None, 0)
    case 1 => Mutex(level, None, None, 0)
    case 2 => Mutex(level, Some(t), None, 0)
    case _ => Mutex(level, Some(t), Some(t), 1)
  }

  /** Thread `t` on its way to its own mutex and then to the other one. */
  function DeadlockContext(level: nat, t: nat, stage: nat): Context
    requires t < 2
  {
    match stage
    case 0 => START
    case 1 => START.(activity := Waiting(t))
    case 2 => START.(activity := Acquired(t))
    case 3 => START.(activity := Owning(t))
    case 4 => Context(level, [t], Idle, false)
    case _ => Context(level, [t], Waiting(1 - t), false)
  }

  function DeadlockStep(t: nat, stage: nat): Step
    requires t < 2
  {
    match stage
    case 0 => Acquire(t)
    case 1 => TakeNative
    case 2 => StoreOwner
    case 3 => Push
    case _ => Acquire(1 - t)
  }

  /** Both threads at given stages. */
  function DeadlockState(level: nat, a: nat, b: nat): State {
    State(map[0 := DeadlockMutex(level, 0, a), 1 := DeadlockMutex(level, 1, b)],
          map[0 := DeadlockContext(level, 0, a), 1 := DeadlockContext(level, 1, b)])
  }

  lemma FirstThreadTakes(level: nat, a: nat, b: nat)
    requires a < 4 && b <= 4
    ensures WellFormed(DeadlockState(level, a, b))
    ensures Next(DeadlockState(level, a, b), 0, DeadlockStep(0, a), DeadlockState(level, a + 1, b))
  {
    assert [] + [0] == [0];
    match a case 0 => case 1 => case 2 => case _ =>
  }

  lemma FirstThreadAsks(level: nat, b: nat)
    requires b <= 4
    ensures WellFormed(DeadlockState(level, 4, b))
    ensures Next(DeadlockState(level, 4, b), 0, DeadlockStep(0, 4), DeadlockState(level, 5, b))
  {
  }

  lemma SecondThreadTakes(level: nat, a: nat, b: nat)
    requires 4 <= a <= 5 && b < 4
    ensures WellFormed(DeadlockState(level, a, b))
    ensures Next(DeadlockState(level, a, b), 1, DeadlockStep(1, b), DeadlockState(level, a, b + 1))
  {
    assert [] + [1] == [1];
    match b case 0 => case 1 => case 2 => case _ =>
  }

  lemma SecondThreadAsks(level: nat, a: nat)
    requires 4 <= a <= 5
    ensures WellFormed(DeadlockState(level, a, 4))
    ensures Next(DeadlockState(level, a, 4), 1, DeadlockStep(1, 4), DeadlockState(level, a, 5))
  {
  }

  lemma BothIdle(level: nat)
    ensures Init(DeadlockState(level, 0, 0))
  {
  }

  lemma BothWait(level: nat)
    ensures WellFormed(DeadlockState(level, 5, 5)) && WaitCycle(DeadlockState(level, 5, 5), [0, 1])
  {
  }

  /** The first thread takes its mutex, the second takes its own, then each asks for
      the other: stages (a, b) after `i` steps. */
  function DeadlockStages(i: nat): (nat, nat) {
    if i <= 4 then (i, 0) else if i <= 8 then (4, i - 4) else if i == 9 then (5, 4) else (5, 5)
  }

  function DeadlockMove(i: nat): (nat, Step) {
    var (a, b) := DeadlockStages(i);
    if i < 4 || i == 8 then (0, DeadlockStep(0, a)) else (1, DeadlockStep(1, b))
  }

  /** So the single level of `CycleHasOneLevel` cannot be ruled out. */
  lemma SameLevelCanDeadlock(level: nat) returns (states: seq<State>, moves: seq<(nat, Step)>)
    ensures Run(states, moves) && WellFormed(states[|moves|]) && WaitCycle(states[|moves|], [0, 1])
    ensures forall m | m in states[0].mutexes :: states[0].mutexes[m].level == level
  {
    hide Next, WellFormed, DeadlockState, DeadlockStep, Init, WaitCycle;
    states := seq(11, i requires 0 <= i => DeadlockState(level, DeadlockStages(i).0, DeadlockStages(i).1));
    moves := seq(10, i requires 0 <= i => DeadlockMove(i));
    forall i: nat | i < 10
      ensures WellFormed(states[i]) && Next(states[i], moves[i].0, moves[i].1, states[i + 1])
    {
      var (a, b) := DeadlockStages(i);
      if i < 4 {
        FirstThreadTakes(level, a, b);
      } else if i == 8 {
        FirstThreadAsks(level, b);
      } else if i < 8 {
        SecondThreadTakes(level, a, b);
      } else {
        SecondThreadAsks(level, a);
      }
    }
    BothIdle(level);
    BothWait(level);
    SameLevels(level);
  }

  lemma SameLevels(level: nat)
    ensures forall m | m in DeadlockState(level, 0, 0).mutexes :: DeadlockState(level, 0, 0).mutexes[m].level == level
  {
  }
}

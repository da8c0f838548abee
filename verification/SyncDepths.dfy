/** The depth of a mutex as a count along runs of `SyncLevels`: the acquires of its owner
    that no release has undone yet. */
module SyncDepths {
  import opened Common
  import opened SyncLevels

  /** A release that is carried out: by the owner, at the level of its last mutex. */
  ghost predicate Undoes(s: State, t: nat, m: nat)
    requires WellFormed(s) && t in s.contexts && m in s.mutexes
  {
    var held := s.contexts[t].held;
    s.mutexes[m].owner == Some(t) && held != [] && s.mutexes[held[|held| - 1]].level == s.mutexes[m].level
  }

  /** A nested acquire that succeeds: by the owner, not below its sync level, and not beyond
      what 16 bits can count. */
  ghost predicate Nests(s: State, t: nat, m: nat, count: int)
    requires WellFormed(s) && t in s.contexts && m in s.mutexes
  {
    s.mutexes[m].owner == Some(t) && s.contexts[t].syncLevel <= s.mutexes[m].level && count < 0xFFFF
  }

  /** What a step of a thread does to the count of a mutex. */
  ghost function Counted(s: State, t: nat, step: Step, m: nat, count: int): int
    requires WellFormed(s) && t in s.contexts && m in s.mutexes
  {
    var c := s.contexts[t];
    match step
    case Acquire(x) => if x == m && Nests(s, t, m, count) then count + 1 else count
    case StoreOwner => if c.activity == Acquired(m) then count + 1 else count
    case Release(x) => if x == m && Undoes(s, t, m) then count - 1 else count
    case PushFailure => if c.activity == Owning(m) then count - 1 else count
    case ForceRelease => if c.held != [] && c.held[|c.held| - 1] == m then 0 else count
    case _ => count
  }

  /** Acquires of m not undone after the first k steps. */
  ghost function Outstanding(states: seq<State>, moves: seq<(nat, Step)>, k: nat, m: nat): int
    requires Run(states, moves) && k <= |moves| && m in states[0].mutexes
  {
    if k == 0 then 0
    else
      SameMutexes(states, moves, k - 1);
      RunStep(states, moves, k - 1);
      Counted(states[k - 1], moves[k - 1].0, moves[k - 1].1, m, Outstanding(states, moves, k - 1, m))
  }

  lemma RunStep(states: seq<State>, moves: seq<(nat, Step)>, k: nat)
    requires Run(states, moves) && k < |moves|
    ensures |states| == |moves| + 1 && WellFormed(states[k]) && moves[k].0 in states[k].contexts
    ensures Next(states[k], moves[k].0, moves[k].1, states[k + 1])
  {
    hide AcquireStep, TakeStep, StoreStep, RefusalStep, PushStep, ReleaseStep, ForceStep, ClearStep, FreeStep;
    assert Next(states[k], moves[k].0, moves[k].1, states[k + 1]);
  }

  lemma {:induction false} SameMutexes(states: seq<State>, moves: seq<(nat, Step)>, k: nat)
    requires Run(states, moves) && k <= |moves|
    ensures states[k].mutexes.Keys == states[0].mutexes.Keys && states[k].contexts.Keys == states[0].contexts.Keys
  {
    hide Next;
    if k > 0 {
      SameMutexes(states, moves, k - 1);
      RunStep(states, moves, k - 1);
      StepKeepsKeys(states[k - 1], moves[k - 1].0, moves[k - 1].1, states[k]);
    }
  }

  lemma StepKeepsKeys(s: State, t: nat, step: Step, s': State)
    requires WellFormed(s) && Next(s, t, step, s')
    ensures s'.mutexes.Keys == s.mutexes.Keys && s'.contexts.Keys == s.contexts.Keys
  {
    hide Without, Top, LastIndex;
    forall m, mutex, c | m in s.mutexes
      ensures Set(s, m, mutex, t, c).mutexes.Keys == s.mutexes.Keys
      ensures Set(s, m, mutex, t, c).contexts.Keys == s.contexts.Keys
    {
    }
    forall c
      ensures SetContext(s, t, c).contexts.Keys == s.contexts.Keys
    {
    }
    hide Set, SetContext;
  }

  /** A listed mutex has the count as its depth; one just acquired has a count of one; a
      mutex that is free or about to be freed has none outstanding. */
  ghost predicate CountFits(s: State, m: nat, count: int)
    requires m in s.mutexes
  {
    && (s.mutexes[m].owner.None? ==> count == 0)
    && forall t | t in s.contexts ::
         && (m in s.contexts[t].held ==> s.mutexes[m].depth == count)
         && (s.contexts[t].activity == Owning(m) ==> count == 1)
         && (s.contexts[t].activity == Releasing(m) ==> count == 0)
  }

  lemma LastIndexFound(held: seq<nat>, i: nat)
    requires i < |held|
    ensures LastIndex(held, held[i]).Some?
  {
  }

  /** A thread is the owner exactly if it says so, and a second one cannot. */
  lemma OwnerOnly(s: State, m: nat, t: nat)
    requires Inv(s) && m in s.mutexes && t in s.contexts
    ensures s.mutexes[m].owner == Some(t) <==> StoresOwner(s.contexts[t], m)
    ensures s.mutexes[m].owner == Some(t) ==> 1 <= s.mutexes[m].depth
    ensures Distinct(s.contexts[t].held)
    ensures s.contexts[t].activity == Owning(m) ==> m !in s.contexts[t].held
    ensures s.contexts[t].activity == Acquired(m) ==> s.mutexes[m].owner.None?
  {
    Facts(s, t, m);
    assert MutexInv(s, m, s.mutexes[m]);
  }

  lemma OthersDoNot(s: State, m: nat, t: nat)
    requires Inv(s) && m in s.mutexes && s.mutexes[m].owner in {None, Some(t)}
    ensures forall u | u in s.contexts && u != t :: !StoresOwner(s.contexts[u], m)
  {
    assert MutexInv(s, m, s.mutexes[m]);
  }

  lemma AcquireCounts(s: State, t: nat, x: nat, s': State, m: nat, count: int)
    requires Inv(s) && m in s.mutexes && CountFits(s, m, count) && t in s.contexts && AcquireStep(s, t, x, s')
    ensures CountFits(s', m, Counted(s, t, Acquire(x), m, count))
  {
    OwnerOnly(s, x, t);
    if s.mutexes[x].owner == Some(t) {
      assert m == x ==> s.mutexes[m].depth == count;
      if s' != s {
        OthersDoNot(s, x, t);
        hide Inv, CountFits, StoresOwner;
        DepthMoves(s, t, x, s.mutexes[x].depth + 1, s.contexts[t], m, count, Counted(s, t, Acquire(x), m, count));
      }
    }
  }

  /** The depth of a mutex that its owner holds moves, and so does the count. */
  lemma DepthMoves(s: State, t: nat, x: nat, depth: nat, c: Context, m: nat, count: int, count': int)
    requires x in s.mutexes && m in s.mutexes && CountFits(s, m, count) && t in s.contexts
    requires s.mutexes[x].owner == Some(t) && c.held == s.contexts[t].held && c.activity.Idle?
    requires forall u | u in s.contexts && u != t :: !StoresOwner(s.contexts[u], x)
    requires if x == m then count' == depth else count' == count
    ensures CountFits(Set(s, x, s.mutexes[x].(depth := depth), t, c), m, count')
  {
  }

  lemma StoreCounts(s: State, t: nat, s': State, m: nat, count: int)
    requires Inv(s) && m in s.mutexes && CountFits(s, m, count) && t in s.contexts && StoreStep(s, t, s')
    ensures CountFits(s', m, Counted(s, t, StoreOwner, m, count))
  {
    OwnerOnly(s, m, t);
    if s.contexts[t].activity == Acquired(m) {
      OthersDoNot(s, m, t);
    }
  }

  lemma PushCounts(s: State, t: nat, s': State, m: nat, count: int)
    requires Inv(s) && m in s.mutexes && CountFits(s, m, count) && t in s.contexts && PushStep(s, t, s')
    ensures CountFits(s', m, count)
  {
    var x := s.contexts[t].activity.m;
    Facts(s, t, x);
    assert forall h :: h in s.contexts[t].held + [x] <==> h in s.contexts[t].held || h == x;
    if x == m {
      OthersDoNot(s, m, t);
    }
  }

  lemma PushFailureCounts(s: State, t: nat, s': State, m: nat, count: int)
    requires Inv(s) && m in s.mutexes && CountFits(s, m, count) && Next(s, t, PushFailure, s')
    ensures CountFits(s', m, Counted(s, t, PushFailure, m, count))
  {
    OwnerOnly(s, m, t);
    if s.contexts[t].activity == Owning(m) {
      OthersDoNot(s, m, t);
    }
  }

  /** The mutex leaves the held array with nothing outstanding. */
  lemma RemovedCounts(s: State, t: nat, i: nat, m: nat, count: int, count': int)
    requires Inv(s) && m in s.mutexes && CountFits(s, m, count) && t in s.contexts && s.contexts[t].activity.Idle?
    requires i < |s.contexts[t].held| && count' == if s.contexts[t].held[i] == m then 0 else count
    ensures s.contexts[t].held[i] in s.mutexes && CountFits(Removed(s, t, i), m, count')
  {
    var c := s.contexts[t];
    var x := c.held[i];
    OwnerOnly(s, x, t);
    WithoutOne(c.held, i);
    OthersDoNot(s, x, t);
    hide Without, Distinct;
  }

  lemma WithoutOne(held: seq<nat>, i: nat)
    requires i < |held| && Distinct(held)
    ensures forall h :: h in Without(held, i) <==> h in held && h != held[i]
  {
  }

  /** What is decided about a mutex its owner holds. */
  lemma OwnRelease(s: State, t: nat, m: nat)
    requires Inv(s) && t in s.contexts && s.contexts[t].activity.Idle?
    requires m in s.mutexes && s.mutexes[m].owner == Some(t)
    ensures m in s.contexts[t].held
    ensures var held := s.contexts[t].held;
            match Decide(s.mutexes, held, m, false)
            case Invalid => false
            case Ignored => !Undoes(s, t, m)
            case Shallower => Undoes(s, t, m) && s.mutexes[m].depth > 1
            case Remove(i) => Undoes(s, t, m) && s.mutexes[m].depth == 1 && i < |held| && held[i] == m
  {
    OwnerOnly(s, m, t);
    hide Distinct;
  }

  lemma ReleaseCounts(s: State, t: nat, x: nat, s': State, m: nat, count: int)
    requires Inv(s) && m in s.mutexes && CountFits(s, m, count) && t in s.contexts && ReleaseStep(s, t, x, s')
    ensures CountFits(s', m, Counted(s, t, Release(x), m, count))
  {
    assert WellFormed(s);
    hide Inv, CountFits, Decide, Removed, Top;
    if s.mutexes[x].owner == Some(t) {
      OwnRelease(s, t, x);
      match Decide(s.mutexes, s.contexts[t].held, x, false)
      case Remove(i) => RemovedCounts(s, t, i, m, count, if x == m then 0 else count);
      case _ => KeptCounts(s, t, x, s', m, count);
    }
  }

  lemma KeptCounts(s: State, t: nat, x: nat, s': State, m: nat, count: int)
    requires Inv(s) && m in s.mutexes && CountFits(s, m, count) && t in s.contexts && ReleaseStep(s, t, x, s')
    requires s.mutexes[x].owner == Some(t) && !Decide(s.mutexes, s.contexts[t].held, x, false).Remove?
    ensures CountFits(s', m, Counted(s, t, Release(x), m, count))
  {
    OwnRelease(s, t, x);
    OthersDoNot(s, x, t);
    var count' := Counted(s, t, Release(x), m, count);
    var depth := if Undoes(s, t, x) then s.mutexes[x].depth - 1 else s.mutexes[x].depth;
    hide Inv, Top, Undoes, StoresOwner, CountFits, LastIndex;
    assert s.mutexes[x].(depth := depth).depth == depth;
    DepthMoves(s, t, x, depth, s'.contexts[t], m, count, count');
  }

  lemma ForceCounts(s: State, t: nat, s': State, m: nat, count: int)
    requires Inv(s) && m in s.mutexes && CountFits(s, m, count) && t in s.contexts && ForceStep(s, t, s')
    ensures CountFits(s', m, Counted(s, t, ForceRelease, m, count))
  {
    hide Inv, CountFits, Removed, LastIndex;
    var held := s.contexts[t].held;
    LastIndexFound(held, |held| - 1);
    var i := LastIndex(held, held[|held| - 1]).value;
    RemovedCounts(s, t, i, m, count, if held[|held| - 1] == m then 0 else count);
  }

  lemma ClearCounts(s: State, t: nat, s': State, m: nat, count: int)
    requires Inv(s) && m in s.mutexes && CountFits(s, m, count) && t in s.contexts && ClearStep(s, t, s')
    ensures CountFits(s', m, count)
  {
    var x := s.contexts[t].activity.m;
    Facts(s, t, x);
    OthersDoNot(s, x, t);
  }

  lemma OtherCounts(s: State, t: nat, step: Step, s': State, m: nat, count: int)
    requires Inv(s) && Next(s, t, step, s') && m in s.mutexes && CountFits(s, m, count) && m in s'.mutexes
    requires step.TakeNative? || step.TimeOut? || step.FirmwareRefusal? || step.ReleaseNative? || step.Exit?
             || step.Restart?
    ensures CountFits(s', m, count)
  {
    hide Top, Inv;
  }

  /** Every step moves depth and count alike. */
  lemma StepCounts(s: State, t: nat, step: Step, s': State, m: nat, count: int)
    requires Inv(s) && Next(s, t, step, s') && m in s.mutexes && CountFits(s, m, count)
    ensures m in s'.mutexes && CountFits(s', m, Counted(s, t, step, m, count))
  {
    StepKeepsKeys(s, t, step, s');
    hide Inv, CountFits, Nests, Undoes, AcquireStep, StoreStep, PushStep, ReleaseStep, ForceStep, ClearStep;
    hide TakeStep, RefusalStep, FreeStep;
    match step
    case Acquire(x) => AcquireCounts(s, t, x, s', m, count);
    case StoreOwner => StoreCounts(s, t, s', m, count);
    case Push => PushCounts(s, t, s', m, count);
    case PushFailure => PushFailureCounts(s, t, s', m, count);
    case Release(x) => ReleaseCounts(s, t, x, s', m, count);
    case ForceRelease => ForceCounts(s, t, s', m, count);
    case ClearOwner => ClearCounts(s, t, s', m, count);
    case _ => OtherCounts(s, t, step, s', m, count);
  }

  lemma {:induction false} RunCounts(states: seq<State>, moves: seq<(nat, Step)>, k: nat, m: nat)
    requires Run(states, moves) && k <= |moves| && m in states[0].mutexes
    ensures m in states[k].mutexes && CountFits(states[k], m, Outstanding(states, moves, k, m))
  {
    hide Inv, CountFits, Counted, Next;
    if k == 0 {
      StartCounts(states, moves, m);
    } else {
      RunCounts(states, moves, k - 1, m);
      RunKeepsInv(states, moves, k - 1);
      StepCounts(states[k - 1], moves[k - 1].0, moves[k - 1].1, states[k], m, Outstanding(states, moves, k - 1, m));
    }
  }

  lemma StartCounts(states: seq<State>, moves: seq<(nat, Step)>, m: nat)
    requires Run(states, moves) && m in states[0].mutexes
    ensures CountFits(states[0], m, 0)
  {
  }

  /** In every run the depth of a held mutex is the number of acquires not undone. */
  lemma DepthIsCount(states: seq<State>, moves: seq<(nat, Step)>, k: nat, t: nat, m: nat)
    requires Run(states, moves) && k <= |moves| && m in states[0].mutexes
    requires t in states[k].contexts && m in states[k].contexts[t].held
    ensures m in states[k].mutexes && states[k].mutexes[m].depth == Outstanding(states, moves, k, m) >= 1
    ensures states[k].mutexes[m].owner == Some(t)
  {
    RunCounts(states, moves, k, m);
    RunKeepsInv(states, moves, k);
    OwnerOnly(states[k], m, t);
  }

  /** A release by the owner takes the mutex out of the held array exactly if it is carried
      out and undoes the only acquire outstanding; else the mutex stays held, one acquire
      less deep if it is carried out. */
  lemma LastReleaseFrees(states: seq<State>, moves: seq<(nat, Step)>, k: nat, t: nat, m: nat)
    requires Run(states, moves) && k < |moves| && moves[k] == (t, Release(m)) && m in states[0].mutexes
    requires t in states[k].contexts && m in states[k].contexts[t].held
    ensures WellFormed(states[k]) && m in states[k].mutexes && m in states[k + 1].mutexes
    ensures t in states[k + 1].contexts
    ensures var count := Outstanding(states, moves, k, m);
            && (m !in states[k + 1].contexts[t].held <==> Undoes(states[k], t, m) && count == 1)
            && (m in states[k + 1].contexts[t].held ==>
                  states[k + 1].mutexes[m].depth == if Undoes(states[k], t, m) then count - 1 else count)
  {
    hide Run, Inv, Undoes, ReleaseStep;
    DepthIsCount(states, moves, k, t, m);
    RunStep(states, moves, k);
    RunKeepsInv(states, moves, k);
    ReleaseEnds(states[k], t, m, states[k + 1]);
  }

  lemma ReleaseEnds(s: State, t: nat, m: nat, s': State)
    requires Inv(s) && t in s.contexts && m in s.contexts[t].held && m in s.mutexes && ReleaseStep(s, t, m, s')
    ensures t in s'.contexts && m in s'.mutexes
    ensures m !in s'.contexts[t].held <==> Undoes(s, t, m) && s.mutexes[m].depth == 1
    ensures m in s'.contexts[t].held ==>
              s'.mutexes[m].depth == s.mutexes[m].depth - if Undoes(s, t, m) then 1 else 0
  {
    OwnerOnly(s, m, t);
    OwnRelease(s, t, m);
    hide Inv, Undoes, Top;
    match Decide(s.mutexes, s.contexts[t].held, m, false)
    case Remove(i) => WithoutOne(s.contexts[t].held, i);
    case _ =>
  }
}

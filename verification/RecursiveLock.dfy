/** The recursive lock of src/kern/acpi/mutex.c: a plain mutex, the owner's thread id and
    a depth, as steps of any number of threads that acquire and release in brackets. */
module RecursiveLock {
  import opened Common

  datatype Phase =
    | Outside
    | Waiting                // the owner read was another: blocked on the mutex
    | Granted                // has the mutex, next stores its id
    | Stored                 // next sets the depth
    | Inside(acquires: nat)  // acquires it has to release again
    | Leaving                // counted the depth to zero, next clears the owner
    | Cleared                // next gives the mutex back

  datatype State = State(mutex: Option<nat>, owner: Option<nat>, depth: nat, threads: map<nat, Phase>)

  datatype Step = Acquire | Grant | Fail | StoreOwner | SetDepth | Release | ClearOwner | FreeMutex

  function Go(s: State, t: nat, phase: Phase): State { s.(threads := s.threads[t := phase]) }

  /** Acquire and release look at the shared owner and depth only; the phase of a thread
      counts the acquires it has not released yet. */
  ghost predicate Next(s: State, t: nat, step: Step, s': State) {
    && t in s.threads
    && var phase := s.threads[t];
       match step
       case Acquire =>
         && (phase.Outside? || phase.Inside?)
         && s' == if s.owner == Some(t)
                  then Go(s.(depth := s.depth + 1), t, Inside(if phase.Inside? then phase.acquires + 1 else 1))
                  else Go(s, t, Waiting)
       case Grant => phase.Waiting? && s.mutex.None? && s' == Go(s.(mutex := Some(t)), t, Granted)
       case Fail => phase.Waiting? && s' == Go(s, t, Outside)
       case StoreOwner => phase.Granted? && s' == Go(s.(owner := Some(t)), t, Stored)
       case SetDepth => phase.Stored? && s' == Go(s.(depth := 1), t, Inside(1))
       case Release =>
         && phase.Inside?
         && s' == Go(s.(depth := if s.depth == 0 then 0xFFFF_FFFF_FFFF_FFFF else s.depth - 1), t,
                     if s.depth > 1 && phase.acquires > 0 then Inside(phase.acquires - 1) else Leaving)
       case ClearOwner => phase.Leaving? && s' == Go(s.(owner := None), t, Cleared)
       case FreeMutex => phase.Cleared? && s' == Go(s.(mutex := None), t, Outside)
  }

  predicate HasMutex(p: Phase) { p.Granted? || p.Stored? || p.Inside? || p.Leaving? || p.Cleared? }

  predicate Owns(p: Phase) { p.Stored? || p.Inside? || p.Leaving? }

  ghost predicate ThreadInv(s: State, t: nat, p: Phase) {
    && (HasMutex(p) <==> s.mutex == Some(t))
    && (Owns(p) <==> s.owner == Some(t))
    && (p.Inside? ==> s.depth == p.acquires >= 1)
    && (p.Leaving? ==> s.depth == 0)
  }

  ghost predicate Inv(s: State) {
    && (s.owner.Some? ==> s.owner == s.mutex)
    && forall t {:trigger s.threads[t]} | t in s.threads :: ThreadInv(s, t, s.threads[t])
  }

  lemma {:induction false} StepKeepsInv(s: State, t: nat, step: Step, s': State)
    requires Inv(s) && Next(s, t, step, s')
    ensures Inv(s')
  {
    assert ThreadInv(s, t, s.threads[t]);
    assert s'.threads == s.threads[t := s'.threads[t]];
    forall u | u in s'.threads
      ensures ThreadInv(s', u, s'.threads[u])
    {
      assert ThreadInv(s, u, s.threads[u]);
    }
  }

  ghost predicate Init(s: State) {
    s.mutex.None? && s.owner.None? && s.depth == 0 && forall t | t in s.threads :: s.threads[t].Outside?
  }

  ghost predicate Run(states: seq<State>, moves: seq<(nat, Step)>) {
    && |states| == |moves| + 1 && Init(states[0])
    && forall i: nat {:trigger moves[i]} | i < |moves| :: Next(states[i], moves[i].0, moves[i].1, states[i + 1])
  }

  lemma {:induction false} RunKeepsInv(states: seq<State>, moves: seq<(nat, Step)>, k: nat)
    requires Run(states, moves) && k < |states|
    ensures Inv(states[k])
  {
    hide Next;
    if k > 0 {
      RunKeepsInv(states, moves, k - 1);
      assert Next(states[k - 1], moves[k - 1].0, moves[k - 1].1, states[k - 1 + 1]);
      StepKeepsInv(states[k - 1], moves[k - 1].0, moves[k - 1].1, states[k]);
    }
  }

  /** In every state of every run a thread reads its own id as the owner exactly while it
      holds the lock, and the depth is then the number of its acquires. So the recursive
      path of acquire is taken exactly by the holder. */
  lemma OwnerIsHolder(states: seq<State>, moves: seq<(nat, Step)>, k: nat, t: nat)
    requires Run(states, moves) && k < |states| && t in states[k].threads
    ensures var s := states[k];
            && (s.owner == Some(t) <==> Owns(s.threads[t]))
            && (s.threads[t].Inside? ==> s.depth == s.threads[t].acquires >= 1)
  {
    RunKeepsInv(states, moves, k);
    var s := states[k];
    assert ThreadInv(s, t, s.threads[t]);
  }

  /** No two threads hold the lock. */
  lemma HeldByOneThread(states: seq<State>, moves: seq<(nat, Step)>, k: nat, t: nat, u: nat)
    requires Run(states, moves) && k < |states| && t in states[k].threads && u in states[k].threads && t != u
    ensures !(HasMutex(states[k].threads[t]) && HasMutex(states[k].threads[u]))
  {
    RunKeepsInv(states, moves, k);
    var s := states[k];
    assert ThreadInv(s, t, s.threads[t]) && ThreadInv(s, u, s.threads[u]);
  }
}

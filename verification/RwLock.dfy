/** The reader/writer lock of src/kern/acpi/mutex.c: two plain mutexes and a counter, as
    steps of any number of threads that lock and unlock in brackets. The first reader
    takes the write mutex and the last one, maybe another thread, gives it back. Taking
    either mutex may fail; a reader whose unlock fails is still inside. */
module RwLock {
  import opened Common

  /** A 64-bit `uacpi_size` counted below zero. */
  const MAX_SIZE: nat := 0xFFFF_FFFF_FFFF_FFFF

  datatype Phase =
    | Outside
    | WantsToRead    // next takes the read mutex
    | CountsIn       // has it, next counts itself
    | First          // was the first: next takes the write mutex
    | Entered        // counted and covered by the write mutex, gives the read mutex back
    | Refused        // could not have the write mutex, gives the read mutex back
    | Reading
    | WantsToLeave   // next takes the read mutex
    | CountsOut      // has it, next counts itself out
    | Last           // was the last: next gives the write mutex back
    | Left           // gives the read mutex back
    | WantsToWrite
    | Writing

  datatype State = State(readMutex: Option<nat>, writeTaken: bool, readers: nat, threads: map<nat, Phase>)

  datatype Step =
    | BeginRead | TakeRead | MissRead | CountIn | TakeWrite | MissWrite | FreeRead
    | BeginUnread | CountOut | FreeWrite | BeginWrite | EndWrite

  function Go(s: State, t: nat, phase: Phase): State { s.(threads := s.threads[t := phase]) }

  ghost predicate Next(s: State, t: nat, step: Step, s': State) {
    && t in s.threads
    && var phase := s.threads[t];
       match step
       case BeginRead => phase.Outside? && s' == Go(s, t, WantsToRead)
       case TakeRead =>
         && s.readMutex.None? && (phase.WantsToRead? || phase.WantsToLeave?)
         && s' == Go(s.(readMutex := Some(t)), t, if phase.WantsToRead? then CountsIn else CountsOut)
       case MissRead =>
         && (phase.WantsToRead? || phase.WantsToLeave?)
         && s' == Go(s, t, if phase.WantsToRead? then Outside else Reading)
       case CountIn =>
         phase.CountsIn? && s' == Go(s.(readers := s.readers + 1), t, if s.readers == 0 then First else Entered)
       case TakeWrite =>
         && !s.writeTaken && (phase.First? || phase.WantsToWrite?)
         && s' == Go(s.(writeTaken := true), t, if phase.First? then Entered else Writing)
       case MissWrite =>
         && (phase.First? || phase.WantsToWrite?)
         && s' == if phase.First? then Go(s.(readers := 0), t, Refused) else Go(s, t, Outside)
       case FreeRead =>
         && (phase.Entered? || phase.Refused? || phase.Left?)
         && s' == Go(s.(readMutex := None), t, if phase.Entered? then Reading else Outside)
       case BeginUnread => phase.Reading? && s' == Go(s, t, WantsToLeave)
       case CountOut =>
         && phase.CountsOut?
         && s' == Go(s.(readers := if s.readers == 0 then MAX_SIZE else s.readers - 1), t,
                     if s.readers == 1 then Last else Left)
       case FreeWrite => phase.Last? && s' == Go(s.(writeTaken := false), t, Left)
       case BeginWrite => phase.Outside? && s' == Go(s, t, WantsToWrite)
       case EndWrite => phase.Writing? && s' == Go(s.(writeTaken := false), t, Outside)
  }

  predicate HasReadMutex(p: Phase) {
    p.CountsIn? || p.First? || p.Entered? || p.Refused? || p.CountsOut? || p.Last? || p.Left?
  }

  /** Between the calls to lock and unlock for reading have taken effect. */
  predicate Inside(p: Phase) { p.Entered? || p.Reading? || p.WantsToLeave? || p.CountsOut? }

  predicate Counted(p: Phase) { Inside(p) || p.First? }

  ghost function CountedSet(threads: map<nat, Phase>): set<nat> {
    set t | t in threads && Counted(threads[t])
  }

  ghost predicate ReadMutexInv(s: State) {
    && (s.readMutex.Some? ==> s.readMutex.value in s.threads)
    && forall t {:trigger s.threads[t]} | t in s.threads :: HasReadMutex(s.threads[t]) <==> s.readMutex == Some(t)
  }

  /** The lock holds the write mutex for this thread, or this thread holds it itself. */
  predicate Covered(p: Phase) { Inside(p) || p.Last? || p.Writing? }

  /** Two threads may be at these places at once. */
  predicate Compatible(p: Phase, q: Phase) {
    && !(p.Writing? && Covered(q)) && !(q.Writing? && Covered(p))
    && !((p.First? || p.Last?) && Inside(q)) && !((q.First? || q.Last?) && Inside(p))
  }

  ghost predicate WriteMutexInv(s: State) {
    && (forall t {:trigger s.threads[t]} | t in s.threads && Covered(s.threads[t]) :: s.writeTaken)
    && forall t, u {:trigger Compatible(s.threads[t], s.threads[u])} | t in s.threads && u in s.threads && t != u ::
         Compatible(s.threads[t], s.threads[u])
  }

  /** The counter counts the readers inside and the first reader on its way in. */
  ghost predicate CountInv(s: State) {
    && s.readers == |CountedSet(s.threads)|
    && forall t | t in s.threads :: (s.threads[t].First? ==> s.readers == 1) && (s.threads[t].Last? ==> s.readers == 0)
  }

  /** The write mutex is taken for somebody. */
  ghost predicate TakenInv(s: State) { s.writeTaken ==> exists t :: t in s.threads && Covered(s.threads[t]) }

  ghost predicate Inv(s: State) { ReadMutexInv(s) && WriteMutexInv(s) && CountInv(s) && TakenInv(s) }

  /** What a change of one thread does to the count. */
  lemma CountChanges(threads: map<nat, Phase>, t: nat, phase: Phase)
    requires t in threads
    ensures var before, after := CountedSet(threads), CountedSet(threads[t := phase]);
            && (t in before <==> Counted(threads[t]))
            && |after| == |before| + (if Counted(phase) then 1 else 0) - (if Counted(threads[t]) then 1 else 0)
            && (Counted(threads[t]) ==> |before| >= 1)
  {
    var before, after := CountedSet(threads), CountedSet(threads[t := phase]);
    if Counted(phase) && !Counted(threads[t]) {
      assert after == before + {t};
    } else if !Counted(phase) && Counted(threads[t]) {
      assert before == after + {t};
    } else {
      assert after == before;
      assert Counted(threads[t]) ==> before == (before - {t}) + {t};
    }
  }

  lemma NobodyElse(threads: map<nat, Phase>, t: nat)
    requires t in threads && Counted(threads[t]) && |CountedSet(threads)| == 1
    ensures forall u | u in threads && u != t :: !Counted(threads[u])
  {
    var all := CountedSet(threads);
    assert |all - {t}| == 0 && all == (all - {t}) + {t};
    assert forall u | u in threads && Counted(threads[u]) :: u in all;
  }

  lemma SomebodyOrNobody(threads: map<nat, Phase>)
    ensures |CountedSet(threads)| > 0 ==> exists w :: w in threads && Counted(threads[w])
    ensures |CountedSet(threads)| == 0 ==> forall u | u in threads :: !Counted(threads[u])
  {
    var all := CountedSet(threads);
    if |all| > 0 {
      var w :| w in all;
    } else {
      assert all == {} && forall u | u in threads && Counted(threads[u]) :: u in all;
    }
  }

  lemma ReadMutexKept(s: State, t: nat, step: Step, s': State)
    requires ReadMutexInv(s) && Next(s, t, step, s')
    ensures ReadMutexInv(s')
  {
  }

  /** Who else can be where when thread t moves. */
  lemma OthersFit(s: State, t: nat, step: Step, s': State, u: nat)
    requires Inv(s) && Next(s, t, step, s') && u in s.threads && u != t
    ensures Compatible(s'.threads[t], s.threads[u])
    ensures Covered(s.threads[u]) ==> s'.writeTaken
  {
    hide CountedSet;
    SomebodyOrNobody(s.threads);
    assert Compatible(s.threads[t], s.threads[u]);
    assert HasReadMutex(s.threads[t]) ==> !HasReadMutex(s.threads[u]);
    if step.CountOut? && s.readers == 1 {
      NobodyElse(s.threads, t);
    } else if step.CountIn? && s.readers > 0 {
      var w :| w in s.threads && Counted(s.threads[w]);
      assert Inside(s.threads[w]);
      assert w != u ==> Compatible(s.threads[w], s.threads[u]);
    }
  }

  lemma MoverFits(s: State, t: nat, step: Step, s': State)
    requires Inv(s) && Next(s, t, step, s')
    ensures Covered(s'.threads[t]) ==> s'.writeTaken
  {
    hide CountedSet;
    SomebodyOrNobody(s.threads);
    if step.CountIn? && s.readers > 0 {
      var w :| w in s.threads && Counted(s.threads[w]);
      assert Inside(s.threads[w]);
    }
  }

  lemma AnotherCounted(threads: map<nat, Phase>, t: nat) returns (w: nat)
    requires |CountedSet(threads)| > 1
    ensures w in threads && w != t && Counted(threads[w])
  {
    var all := CountedSet(threads);
    assert |all - {t}| >= |all| - 1;
    w :| w in all - {t};
  }

  /** A thread that the write mutex was taken for goes on, leaves another one covered, or
      gives it back. */
  lemma TakenKept(s: State, t: nat, step: Step, s': State)
    requires Inv(s) && Next(s, t, step, s')
    ensures TakenInv(s')
  {
    hide CountedSet, ReadMutexInv;
    SomebodyOrNobody(s.threads);
    if s'.writeTaken && !Covered(s'.threads[t]) {
      if step.CountOut? {
        var w := AnotherCounted(s.threads, t);
        assert Compatible(s.threads[w], s.threads[t]);
        assert Covered(s'.threads[w]);
      } else {
        var w :| w in s.threads && Covered(s.threads[w]);
        assert w != t;
        assert s'.threads[w] == s.threads[w];
      }
    } else if s'.writeTaken {
      assert t in s'.threads;
    }
  }

  lemma CountKept(s: State, t: nat, step: Step, s': State)
    requires Inv(s) && Next(s, t, step, s')
    ensures CountInv(s')
  {
    hide CountedSet, Compatible;
    SomebodyOrNobody(s.threads);
    CountChanges(s.threads, t, s'.threads[t]);
    assert s'.threads == s.threads[t := s'.threads[t]];
  }

  lemma StepKeepsInv(s: State, t: nat, step: Step, s': State)
    requires Inv(s) && Next(s, t, step, s')
    ensures Inv(s')
  {
    ReadMutexKept(s, t, step, s');
    CountKept(s, t, step, s');
    TakenKept(s, t, step, s');
    MoverFits(s, t, step, s');
    forall u | u in s.threads && u != t
      ensures Compatible(s'.threads[t], s.threads[u]) && (Covered(s.threads[u]) ==> s'.writeTaken)
    {
      OthersFit(s, t, step, s', u);
    }
    assert s'.threads == s.threads[t := s'.threads[t]];
    hide CountInv, ReadMutexInv, TakenInv, Next;
    assert WriteMutexInv(s');
  }

  // Runs

  ghost predicate Init(s: State) {
    && s.readMutex.None? && !s.writeTaken && s.readers == 0
    && forall t | t in s.threads :: s.threads[t].Outside?
  }

  ghost predicate Run(states: seq<State>, moves: seq<(nat, Step)>) {
    && |states| == |moves| + 1 && Init(states[0])
    && forall i: nat {:trigger moves[i]} | i < |moves| :: Next(states[i], moves[i].0, moves[i].1, states[i + 1])
  }

  lemma {:induction false} RunKeepsInv(states: seq<State>, moves: seq<(nat, Step)>, k: nat)
    requires Run(states, moves) && k < |states|
    ensures Inv(states[k])
  {
    hide Next;
    if k == 0 {
      assert CountedSet(states[0].threads) == {};
    } else {
      RunKeepsInv(states, moves, k - 1);
      assert Next(states[k - 1], moves[k - 1].0, moves[k - 1].1, states[k - 1 + 1]);
      StepKeepsInv(states[k - 1], moves[k - 1].0, moves[k - 1].1, states[k]);
    }
  }

  /** In every run, once all threads are outside nothing is left taken or counted. */
  lemma FreeWhenEmpty(states: seq<State>, moves: seq<(nat, Step)>, k: nat)
    requires Run(states, moves) && k < |states|
    requires forall t | t in states[k].threads :: states[k].threads[t].Outside?
    ensures !states[k].writeTaken && states[k].readMutex.None? && states[k].readers == 0
  {
    RunKeepsInv(states, moves, k);
    SomebodyOrNobody(states[k].threads);
    assert forall t | t in states[k].threads :: !HasReadMutex(states[k].threads[t]);
  }

  /** In every state of every run no writer runs beside a reader or another writer, and
      the counter is the number of readers inside plus one if a first reader is waiting. */
  lemma WritersRunAlone(states: seq<State>, moves: seq<(nat, Step)>, k: nat)
    requires Run(states, moves) && k < |states|
    ensures var threads := states[k].threads;
            && (forall t, u | t in threads && u in threads && t != u && threads[t].Writing? ::
                  !Inside(threads[u]) && !threads[u].Writing?)
            && var inside := set t | t in threads && Inside(threads[t]);
               states[k].readers == |inside| + if exists t :: t in threads && threads[t].First? then 1 else 0
  {
    RunKeepsInv(states, moves, k);
    var s := states[k];
    var inside := set t | t in s.threads && Inside(s.threads[t]);
    forall t, u | t in s.threads && u in s.threads && t != u && s.threads[t].Writing?
      ensures !Inside(s.threads[u]) && !s.threads[u].Writing?
    {
      assert Compatible(s.threads[t], s.threads[u]);
    }
    if w :| w in s.threads && s.threads[w].First? {
      assert forall t | t in s.threads && s.threads[t].First? :: s.readMutex == Some(t);
      assert CountedSet(s.threads) == inside + {w};
    } else {
      assert CountedSet(s.threads) == inside;
    }
  }
}

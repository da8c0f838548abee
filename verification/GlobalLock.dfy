/** The firmware Global Lock (ACPI 6.5 section 5.2.10.1): the operating system side of
    src/kern/acpi/mutex.c, the release interrupt of src/kern/acpi/event.c and firmware,
    interleaved at every access to the shared lock word and to the wake-up event.
    The host mutex in front of the lock lets one thread at a time through, so the
    operating system is a single agent here. */
module GlobalLock {

  const MAX_SPINS: nat := 0xFFFF

  // The lock word

  datatype Word = Word(bits: bv32)

  predicate Pending(word: Word) { word.bits & 1 != 0 }

  predicate Owned(word: Word) { word.bits & 2 != 0 }

  function Reserved(word: Word): bv32 { word.bits & 0xFFFF_FFFC }

  /** The new value `try_acquire_global_lock_from_firmware` swaps in. */
  function AcquireWord(word: Word): Word {
    var cleared := (word.bits & !3) | 2;
    Word(if (word.bits & 2) >> 1 != 0 then cleared | 1 else cleared)
  }

  /** The new value `do_release_global_lock_to_firmware` swaps in. */
  function ReleaseWord(word: Word): Word { Word(word.bits & !3) }

  /** Acquiring always leaves the lock owned, and pending exactly if somebody had it. */
  lemma AcquireWordBits(word: Word)
    ensures Owned(AcquireWord(word))
    ensures Pending(AcquireWord(word)) <==> Owned(word)
    ensures Reserved(AcquireWord(word)) == Reserved(word)
  {
  }

  lemma ReleaseWordBits(word: Word)
    ensures !Owned(ReleaseWord(word)) && !Pending(ReleaseWord(word))
    ensures Reserved(ReleaseWord(word)) == Reserved(word)
  {
  }

  // State

  /** `spins` counts attempts, as the source's 16-bit counter does. */
  datatype Os =
    | Outside
    | Entering(spins: nat)              // wants the spinlock for its next attempt
    | Reading(spins: nat)               // has the spinlock, next reads the word
    | Swapping(spins: nat, value: Word) // next compares and swaps
    | Failed(spins: nat)                // swapped, but the lock had an owner
    | Asleep(spins: nat)                // without the spinlock, waits for the event
    | Won(spins: nat)                   // swapped and owns the lock, spinlock still taken
    | Holding
    | Leaving(value: Word)              // release: next compares and swaps
    | Notifying                         // released a pending lock: next sets GBL_RLS

  datatype Firmware =
    | FwOutside
    | FwSwapping(value: Word)
    | FwWaiting   // failed: waits for GBL_RLS
    | FwHolding
    | FwLeaving(value: Word)
    | FwNotifying // released a pending lock: next raises the release status bit

  datatype Interrupt =
    | Quiet
    | Arrived   // status bit cleared, handler wants the spinlock
    | Handling  // has the spinlock, next tests `global_lock_pending`
    | Signalled // event signalled, next clears `global_lock_pending`

  datatype Holder = Free | ByOs | ByInterrupt

  datatype State = State(
    word: Word,
    spinlock: Holder,
    pending: bool,       // `global_lock_pending`
    signals: nat,        // count of the wake-up event
    releaseStatus: bool, // release notification raised to the operating system
    releaseNotice: bool, // GBL_RLS: release notification to firmware
    os: Os,
    firmware: Firmware,
    interrupt: Interrupt)

  // Steps

  datatype Step =
    | Begin | TakeSpinlock | Read | Swap | SleepOnEvent | Wake | GiveUp | Finish
    | StartRelease | SwapRelease | Notify
    | FwRead | FwSwap | FwRetry | FwAbandon | FwStartRelease | FwSwapRelease | FwNotify
    | Deliver | InterruptLocks | Test | Clear

  ghost predicate Next(s: State, step: Step, s': State) {
    OsNext(s, step, s') || FirmwareNext(s, step, s') || InterruptNext(s, step, s')
  }

  ghost predicate OsNext(s: State, step: Step, s': State) {
    match step
    case Begin => s.os.Outside? && s' == s.(os := Entering(0))
    case TakeSpinlock =>
      s.os.Entering? && s.spinlock.Free? && s' == s.(spinlock := ByOs, os := Reading(s.os.spins + 1))
    case Read => s.os.Reading? && s' == s.(os := Swapping(s.os.spins, s.word))
    case Swap =>
      && s.os.Swapping?
      && s' == if s.word != s.os.value then s.(os := Swapping(s.os.spins, s.word))
               else s.(word := AcquireWord(s.os.value),
                       os := if Owned(s.os.value) then Failed(s.os.spins) else Won(s.os.spins))
    case SleepOnEvent =>
      && s.os.Failed? && s.os.spins != MAX_SPINS
      && s' == s.(pending := true, spinlock := Free, os := Asleep(s.os.spins))
    case Wake =>
      s.os.Asleep? && s.signals > 0 && s' == s.(signals := s.signals - 1, os := Entering(s.os.spins))
    case GiveUp =>
      && s.os.Failed? && s.os.spins == MAX_SPINS
      && s' == s.(pending := false, spinlock := Free, os := Outside)
    case Finish => s.os.Won? && s' == s.(pending := false, spinlock := Free, os := Holding)
    case StartRelease => s.os.Holding? && s' == s.(os := Leaving(s.word))
    case SwapRelease =>
      && s.os.Leaving?
      && s' == if s.word != s.os.value then s.(os := Leaving(s.word))
               else s.(word := ReleaseWord(s.os.value), os := if Pending(s.os.value) then Notifying else Outside)
    case Notify => s.os.Notifying? && s' == s.(releaseNotice := true, os := Outside)
    case _ => false
  }

  /** Firmware follows the same protocol of the ACPI specification from its side. */
  ghost predicate FirmwareNext(s: State, step: Step, s': State) {
    match step
    case FwRead => s.firmware.FwOutside? && s' == s.(firmware := FwSwapping(s.word))
    case FwSwap =>
      && s.firmware.FwSwapping?
      && s' == if s.word != s.firmware.value then s.(firmware := FwSwapping(s.word))
               else s.(word := AcquireWord(s.firmware.value),
                       firmware := if Owned(s.firmware.value) then FwWaiting else FwHolding)
    case FwRetry =>
      s.firmware.FwWaiting? && s.releaseNotice && s' == s.(releaseNotice := false, firmware := FwSwapping(s.word))
    case FwAbandon => s.firmware.FwWaiting? && s' == s.(firmware := FwOutside)
    case FwStartRelease => s.firmware.FwHolding? && s' == s.(firmware := FwLeaving(s.word))
    case FwSwapRelease =>
      && s.firmware.FwLeaving?
      && s' == if s.word != s.firmware.value then s.(firmware := FwLeaving(s.word))
               else s.(word := ReleaseWord(s.firmware.value),
                       firmware := if Pending(s.firmware.value) then FwNotifying else FwOutside)
    case FwNotify => s.firmware.FwNotifying? && s' == s.(releaseStatus := true, firmware := FwOutside)
    case _ => false
  }

  /** The fixed-event dispatcher clears the status bit before it calls the handler. */
  ghost predicate InterruptNext(s: State, step: Step, s': State) {
    match step
    case Deliver => s.interrupt.Quiet? && s.releaseStatus && s' == s.(releaseStatus := false, interrupt := Arrived)
    case InterruptLocks =>
      s.interrupt.Arrived? && s.spinlock.Free? && s' == s.(spinlock := ByInterrupt, interrupt := Handling)
    case Test =>
      && s.interrupt.Handling?
      && s' == if s.pending then s.(signals := s.signals + 1, interrupt := Signalled)
               else s.(spinlock := Free, interrupt := Quiet)
    case Clear => s.interrupt.Signalled? && s' == s.(pending := false, spinlock := Free, interrupt := Quiet)
    case _ => false
  }

  // Invariant

  ghost predicate OsOwns(s: State) { s.os.Won? || s.os.Holding? || s.os.Leaving? }

  ghost predicate FirmwareOwns(s: State) { s.firmware.FwHolding? || s.firmware.FwLeaving? }

  /** The owned bit tells the truth and at most one side owns the lock. */
  ghost predicate Exclusive(s: State) {
    && (Owned(s.word) <==> OsOwns(s) || FirmwareOwns(s))
    && !(OsOwns(s) && FirmwareOwns(s))
    && (Pending(s.word) ==> Owned(s.word))
  }

  ghost predicate SpinlockInv(s: State) {
    && (s.spinlock.ByOs? <==> s.os.Reading? || s.os.Swapping? || s.os.Failed? || s.os.Won?)
    && (s.spinlock.ByInterrupt? <==> s.interrupt.Handling? || s.interrupt.Signalled?)
  }

  ghost predicate SpinsInv(os: Os) {
    match os
    case Entering(spins) => spins < MAX_SPINS
    case Asleep(spins) => spins < MAX_SPINS
    case Reading(spins) => 1 <= spins <= MAX_SPINS
    case Swapping(spins, _) => 1 <= spins <= MAX_SPINS
    case Failed(spins) => 1 <= spins <= MAX_SPINS
    case Won(spins) => 1 <= spins <= MAX_SPINS
    case _ => true
  }

  /** At most one wake-up exists, and only for a sleeper. */
  ghost predicate TokenInv(s: State) {
    && s.signals <= 1
    && (s.signals == 1 ==> s.os.Asleep? && (s.pending ==> s.interrupt.Signalled?))
    && (s.pending ==> s.os.Asleep? || (s.os.Entering? && s.interrupt.Signalled?))
    && (s.interrupt.Signalled? ==> s.pending && (s.os.Asleep? ==> s.signals == 1))
  }

  /** A release notification to the operating system is outstanding. */
  ghost predicate NoticeComing(s: State) {
    || (FirmwareOwns(s) && Pending(s.word)) // firmware will see the pending bit
    || s.firmware.FwNotifying?
    || s.releaseStatus
    || s.interrupt.Arrived?
    || s.interrupt.Handling?
  }

  ghost predicate SleepInv(s: State) {
    && (s.os.Failed? ==> NoticeComing(s))
    && (s.os.Asleep? ==> s.signals == 1 || (s.pending && NoticeComing(s)))
  }

  ghost predicate FirmwareWaitInv(s: State) {
    s.firmware.FwWaiting? ==> (OsOwns(s) && Pending(s.word)) || s.os.Notifying? || s.releaseNotice
  }

  ghost predicate Inv(s: State) {
    Exclusive(s) && SpinlockInv(s) && SpinsInv(s.os) && TokenInv(s) && SleepInv(s) && FirmwareWaitInv(s)
  }

  /** Only a successful compare-and-swap changes the word or who owns it. */
  lemma OsKeepsExclusive(s: State, step: Step, s': State)
    requires Exclusive(s) && OsNext(s, step, s')
    ensures Exclusive(s') && Reserved(s'.word) == Reserved(s.word)
  {
    hide Owned, Pending, AcquireWord, ReleaseWord, Reserved;
    AcquireWordBits(s.word);
    ReleaseWordBits(s.word);
  }

  lemma FirmwareKeepsExclusive(s: State, step: Step, s': State)
    requires Exclusive(s) && FirmwareNext(s, step, s')
    ensures Exclusive(s') && Reserved(s'.word) == Reserved(s.word)
  {
    hide Owned, Pending, AcquireWord, ReleaseWord, Reserved;
    AcquireWordBits(s.word);
    ReleaseWordBits(s.word);
  }

  lemma OsKeepsTokens(s: State, step: Step, s': State)
    requires SpinlockInv(s) && SpinsInv(s.os) && TokenInv(s) && OsNext(s, step, s')
    ensures SpinlockInv(s') && SpinsInv(s'.os) && TokenInv(s')
  {
    hide Owned, Pending, AcquireWord, ReleaseWord;
  }

  /** A failed swap leaves the lock pending with firmware; going to sleep sets the flag. */
  lemma OsKeepsSleep(s: State, step: Step, s': State)
    requires Exclusive(s) && SleepInv(s) && OsNext(s, step, s')
    ensures SleepInv(s')
  {
    hide Owned, Pending, AcquireWord, ReleaseWord;
    if step.Swap? && s'.os.Failed? {
      AcquireWordBits(s.word);
      assert FirmwareOwns(s') && Pending(s'.word);
    } else if step.SleepOnEvent? {
      assert s'.pending && NoticeComing(s');
    } else {
      assert !s'.os.Failed? && !s'.os.Asleep?;
    }
  }

  lemma OsKeepsFirmwareWait(s: State, step: Step, s': State)
    requires Exclusive(s) && FirmwareWaitInv(s) && OsNext(s, step, s')
    ensures FirmwareWaitInv(s')
  {
    hide Owned, Pending, AcquireWord, ReleaseWord;
    if step.Swap? {
      AcquireWordBits(s.word);
    } else if step.SwapRelease? {
      ReleaseWordBits(s.word);
    } else {
      assert s'.word == s.word && s'.firmware == s.firmware;
    }
  }

  lemma FirmwareKeepsSleep(s: State, step: Step, s': State)
    requires Exclusive(s) && SleepInv(s) && FirmwareNext(s, step, s')
    ensures SleepInv(s')
  {
    hide Owned, Pending, AcquireWord, ReleaseWord;
    if step.FwSwap? {
      AcquireWordBits(s.word);
    } else if step.FwSwapRelease? {
      ReleaseWordBits(s.word);
    } else {
      assert s'.word == s.word && s'.os == s.os;
    }
  }

  lemma FirmwareKeepsWait(s: State, step: Step, s': State)
    requires Exclusive(s) && FirmwareWaitInv(s) && FirmwareNext(s, step, s')
    ensures FirmwareWaitInv(s')
  {
    hide Owned, Pending, AcquireWord, ReleaseWord;
    if step.FwSwap? {
      AcquireWordBits(s.word);
    } else if step.FwSwapRelease? {
      ReleaseWordBits(s.word);
    } else {
      assert s'.word == s.word && s'.os == s.os;
    }
  }

  lemma FirmwareKeepsTokens(s: State, step: Step, s': State)
    requires SpinlockInv(s) && SpinsInv(s.os) && TokenInv(s) && FirmwareNext(s, step, s')
    ensures SpinlockInv(s') && SpinsInv(s'.os) && TokenInv(s')
  {
    hide Owned, Pending, AcquireWord, ReleaseWord, SpinsInv;
    assert s' == s.(word := s'.word, firmware := s'.firmware, releaseStatus := s'.releaseStatus,
                    releaseNotice := s'.releaseNotice);
  }

  lemma InterruptStepKeepsInv(s: State, step: Step, s': State)
    requires Inv(s) && InterruptNext(s, step, s')
    ensures Inv(s') && s'.word == s.word
  {
    hide Owned, Pending, SpinsInv;
  }

  /** Every step of every side keeps the invariant and the reserved bits of the word. */
  lemma StepKeepsInv(s: State, step: Step, s': State)
    requires Inv(s) && Next(s, step, s')
    ensures Inv(s') && Reserved(s'.word) == Reserved(s.word)
  {
    hide Owned, Pending, Reserved, Exclusive, SpinlockInv, TokenInv, SleepInv, FirmwareWaitInv, OsNext;
    hide FirmwareNext, InterruptNext;
    if OsNext(s, step, s') {
      OsKeepsExclusive(s, step, s');
      OsKeepsTokens(s, step, s');
      OsKeepsSleep(s, step, s');
      OsKeepsFirmwareWait(s, step, s');
    } else if FirmwareNext(s, step, s') {
      FirmwareKeepsExclusive(s, step, s');
      FirmwareKeepsTokens(s, step, s');
      FirmwareKeepsSleep(s, step, s');
      FirmwareKeepsWait(s, step, s');
    } else {
      InterruptStepKeepsInv(s, step, s');
    }
  }

  // Runs

  ghost predicate Init(s: State) {
    && !Owned(s.word) && !Pending(s.word)
    && s == State(s.word, Free, false, 0, false, false, Outside, FwOutside, Quiet)
  }

  ghost predicate Run(states: seq<State>, steps: seq<Step>) {
    && |states| == |steps| + 1 && Init(states[0])
    && forall i: nat {:trigger steps[i]} | i < |steps| :: Next(states[i], steps[i], states[i + 1])
  }

  lemma {:induction false} RunKeepsInv(states: seq<State>, steps: seq<Step>, k: nat)
    requires Run(states, steps) && k < |states|
    ensures Inv(states[k]) && Reserved(states[k].word) == Reserved(states[0].word)
  {
    hide Next, Reserved;
    if k > 0 {
      RunKeepsInv(states, steps, k - 1);
      assert Next(states[k - 1], steps[k - 1], states[k - 1 + 1]);
      StepKeepsInv(states[k - 1], steps[k - 1], states[k]);
    }
  }

  /** In every state of every run at most one side owns the lock, the owned bit says
      whether one does, and no attempt changes the rest of the word. */
  lemma MutualExclusion(states: seq<State>, steps: seq<Step>, k: nat)
    requires Run(states, steps) && k < |states|
    ensures !(OsOwns(states[k]) && FirmwareOwns(states[k]))
    ensures Owned(states[k].word) <==> OsOwns(states[k]) || FirmwareOwns(states[k])
    ensures Reserved(states[k].word) == Reserved(states[0].word)
  {
    RunKeepsInv(states, steps, k);
  }

  /** The operating system never sleeps without a wake-up coming, firmware never waits
      without a notice coming, and no wake-up outlives the attempt it was meant for. */
  lemma NoLostWakeUp(states: seq<State>, steps: seq<Step>, k: nat)
    requires Run(states, steps) && k < |states|
    ensures var s := states[k];
            && (s.os.Asleep? ==> s.signals == 1 || (s.pending && NoticeComing(s)))
            && (s.firmware.FwWaiting? ==> (OsOwns(s) && Pending(s.word)) || s.os.Notifying? || s.releaseNotice)
            && (s.os.Outside? || s.os.Holding? ==> s.signals == 0 && !s.pending)
  {
    RunKeepsInv(states, steps, k);
  }

  // Attempts

  /** Attempts of the operating system since it last began to acquire the lock. */
  function Attempts(steps: seq<Step>): nat {
    if steps == [] then 0
    else
      var before := Attempts(steps[..|steps| - 1]);
      match steps[|steps| - 1]
      case Begin => 0
      case TakeSpinlock => before + 1
      case _ => before
  }

  predicate CountsAttempts(os: Os, attempts: nat) {
    match os
    case Entering(spins) => spins == attempts
    case Reading(spins) => spins == attempts
    case Swapping(spins, _) => spins == attempts
    case Failed(spins) => spins == attempts
    case Asleep(spins) => spins == attempts
    case Won(spins) => spins == attempts
    case _ => true
  }

  lemma {:induction false} RunCountsAttempts(states: seq<State>, steps: seq<Step>, k: nat)
    requires Run(states, steps) && k <= |steps|
    ensures CountsAttempts(states[k].os, Attempts(steps[..k]))
  {
    if k > 0 {
      RunCountsAttempts(states, steps, k - 1);
      assert Next(states[k - 1], steps[k - 1], states[k - 1 + 1]);
      assert steps[..k][..k - 1] == steps[..k - 1];
      StepCountsAttempts(states[k - 1], steps[k - 1], states[k], Attempts(steps[..k - 1]));
    }
  }

  lemma StepCountsAttempts(s: State, step: Step, s': State, attempts: nat)
    requires Next(s, step, s') && CountsAttempts(s.os, attempts)
    ensures CountsAttempts(s'.os, match step case Begin => 0 case TakeSpinlock => attempts + 1 case _ => attempts)
  {
    hide AcquireWord, ReleaseWord, Owned, Pending;
  }

  /** In every run a failed attempt is followed by sleep, and the 65535th is the last: it
      gives up without the lock. */
  lemma GivesUpAtLast(states: seq<State>, steps: seq<Step>, k: nat)
    requires Run(states, steps) && k < |steps|
    ensures steps[k] == GiveUp ==>
              Attempts(steps[..k]) == 65535 && states[k + 1].os.Outside? && !OsOwns(states[k + 1])
    ensures steps[k] == SleepOnEvent ==> Attempts(steps[..k]) < 65535 && states[k + 1].os.Asleep?
  {
    RunKeepsInv(states, steps, k);
    RunCountsAttempts(states, steps, k);
    assert Next(states[k], steps[k], states[k + 1]);
    hide AcquireWord, ReleaseWord, Owned, Pending;
  }

  // Progress

  /** How far the wake-up of a sleeper is away, counted in steps of the other sides. */
  ghost function Distance(s: State): (d: nat)
    ensures d <= 8
  {
    if s.signals > 0 then 0
    else if s.interrupt.Handling? then 1
    else if s.interrupt.Arrived? then 2
    else if s.releaseStatus then if s.interrupt.Quiet? then 3 else 4
    else if s.firmware.FwNotifying? then 5
    else if s.firmware.FwLeaving? then if s.firmware.value == s.word then 6 else 7
    else 8
  }

  /** The step that brings the wake-up closer, and the state it leads to. */
  ghost function Helpful(s: State): (Step, State)
    requires Inv(s) && s.os.Asleep?
  {
    if s.signals > 0 then (Wake, s.(signals := s.signals - 1, os := Entering(s.os.spins)))
    else if s.interrupt.Handling? then (Test, s.(signals := s.signals + 1, interrupt := Signalled))
    else if s.interrupt.Arrived? then (InterruptLocks, s.(spinlock := ByInterrupt, interrupt := Handling))
    else if s.releaseStatus then (Deliver, s.(releaseStatus := false, interrupt := Arrived))
    else if s.firmware.FwNotifying? then (FwNotify, s.(releaseStatus := true, firmware := FwOutside))
    else if s.firmware.FwHolding? then (FwStartRelease, s.(firmware := FwLeaving(s.word)))
    else if s.firmware.value != s.word then (FwSwapRelease, s.(firmware := FwLeaving(s.word)))
    else (FwSwapRelease, s.(word := ReleaseWord(s.word), firmware := FwNotifying))
  }

  lemma HelpfulIsAStep(s: State)
    requires Inv(s) && s.os.Asleep?
    ensures Next(s, Helpful(s).0, Helpful(s).1)
  {
    hide Owned, Pending, ReleaseWord, AcquireWord, SpinsInv, Distance;
  }

  /** While the operating system sleeps, one enabled step of some other side always
      brings its wake-up closer; once signalled, its own step wakes it. */
  lemma HelpfulIsEnabled(s: State)
    requires Inv(s) && s.os.Asleep?
    ensures var (step, s') := Helpful(s);
            && Next(s, step, s')
            && if s.signals > 0 then step == Wake && s'.os.Entering?
               else s'.os == s.os && Distance(s') < Distance(s)
  {
    hide Owned, Pending, ReleaseWord, AcquireWord, SpinsInv, FirmwareNext, InterruptNext, OsNext;
    var (step, s') := Helpful(s);
    assert Next(s, step, s') by { HelpfulIsAStep(s); }
  }

  /** No step of any side moves the wake-up of a sleeper further away. */
  lemma WakeUpOnlyComesCloser(s: State, step: Step, s': State)
    requires Inv(s) && Next(s, step, s') && s.os.Asleep? && s'.os.Asleep?
    ensures Distance(s') <= Distance(s)
  {
    hide Owned, Pending, ReleaseWord, AcquireWord;
  }

  ghost predicate Path(states: seq<State>, steps: seq<Step>) {
    && |states| == |steps| + 1
    && forall i: nat {:trigger steps[i]} | i < |steps| :: Next(states[i], steps[i], states[i + 1])
  }

  /** From every reachable state in which the operating system sleeps, at most nine
      further steps wake it, only the last of them its own. */
  lemma {:induction false} SleeperWakes(s: State) returns (states: seq<State>, steps: seq<Step>)
    requires Inv(s) && s.os.Asleep?
    ensures Path(states, steps) && states[0] == s && states[|steps|].os == Entering(s.os.spins)
    ensures 1 <= |steps| <= Distance(s) + 1 <= 9
    ensures forall i: nat | i < |steps| - 1 :: !OsNext(states[i], steps[i], states[i + 1])
    decreases Distance(s)
  {
    hide Inv, Distance, Next, ReleaseWord;
    HelpfulIsEnabled(s);
    var (step, s') := Helpful(s);
    if s.signals > 0 {
      states, steps := [s, s'], [step];
    } else {
      StepKeepsInv(s, step, s');
      var restStates, restSteps := SleeperWakes(s');
      states, steps := [s] + restStates, [step] + restSteps;
    }
  }
}

/** General-purpose events (ACPI 6.5 section 5.6.4): one status/enable register of
    src/kern/acpi/event.c with its software masks, used by one management thread at a
    time (they hold the event lock), any number of interrupts and deferred work items.
    A mask is the set of the event bits that are 1 in it. */
module GpeMask {
  import opened Common

  const MAX_USERS: nat := 0xFF

  /** The agent that runs the management functions; every other agent is an interrupt
      or a work item. */
  const MANAGER: nat := 0

  datatype Mode = Enabled | Conditional | Disabled

  /** One `set_gpe_state` call in progress. */
  datatype Call =
    | Idle
    | Checking(bit: nat, mode: Mode)                              // next tests the masks
    | Locking(bit: nat, enabling: bool)                           // past the tests, wants the spinlock
    | Modifying(bit: nat, enabling: bool, value: set<nat>)        // has the new register value
    | Returning(success: bool)

  /** Where the management thread is. */
  datatype Phase =
    | Free
    | Adding(bit: nat)                           // first user added, register being set
    | Removing(bit: nat)                         // last user removed, register being cleared
    | Switching                                  // suspend, resume, finish or unmask
    | Draining(bit: nat, awaited: set<nat>)      // masked, first wait
    | Disabling(bit: nat)
    | DrainingAgain(bit: nat, awaited: set<nat>) // second wait
    | Applying(value: set<nat>)                  // whole-register action, about to write

  datatype Action = DisableAll | EnableAllForRuntime | EnableAllForWake

  datatype State = State(
    users: map<nat, nat>, // `num_users` of the events of this register
    runtime: set<nat>,
    wake: set<nat>,
    masked: set<nat>,
    current: set<nat>,
    enable: set<nat>,     // the hardware enable register
    blocked: set<nat>,    // events with `block_interrupts`
    spinlock: Option<nat>,
    phase: Phase,
    calls: map<nat, Call>)

  datatype Step =
    // inside a `set_gpe_state` call of agent a; `works` says whether the hardware access does
    | Check(a: nat) | Lock(a: nat, works: bool) | Write(a: nat, works: bool)
    // interrupts and work items (management functions set `block_interrupts` as well)
    | Start(a: nat, bit: nat, mode: Mode) | Return(a: nat) | Block(a: nat, bit: nat, on: bool)
    // management functions
    | AddUser(bit: nat) | AddDone | RemoveUser(bit: nat) | RemoveDone
    | Switch(bit: nat, mode: Mode) | SwitchDone | SetWake(bit: nat)
    | Mask(bit: nat) | Drained | DisableDone | MaskReturn | Unmask(bit: nat)
    | Apply(action: Action) | ApplyWrite(works: bool)

  function WithCall(s: State, a: nat, call: Call): State { s.(calls := s.calls[a := call]) }

  // `set_gpe_state`

  ghost predicate CallNext(s: State, step: Step, s': State) {
    match step
    case Check(a) =>
      && a in s.calls && s.calls[a].Checking?
      && var (bit, mode) := (s.calls[a].bit, s.calls[a].mode);
         s' == WithCall(s, a,
           if mode != Disabled && bit in s.masked then Returning(true)
           else if mode == Conditional && bit !in s.current then Returning(true)
           else Locking(bit, mode != Disabled))
    case Lock(a, works) =>
      && a in s.calls && s.calls[a].Locking? && s.spinlock.None?
      && var (bit, enabling) := (s.calls[a].bit, s.calls[a].enabling);
         s' == if !works then WithCall(s, a, Returning(false))
               else WithCall(s.(spinlock := Some(a)), a,
                 Modifying(bit, enabling, if enabling then s.enable + {bit} else s.enable - {bit}))
    case Write(a, works) =>
      && a in s.calls && s.calls[a].Modifying?
      && s' == WithCall(s.(spinlock := None, enable := if works then s.calls[a].value else s.enable), a,
                        Returning(works))
    case _ => false
  }

  // Interrupts and work items may run any such call at any time

  function WithoutAwaited(phase: Phase, a: nat): Phase {
    match phase
    case Draining(bit, awaited) => Draining(bit, awaited - {a})
    case DrainingAgain(bit, awaited) => DrainingAgain(bit, awaited - {a})
    case _ => phase
  }

  ghost predicate WorkNext(s: State, step: Step, s': State) {
    match step
    case Start(a, bit, mode) =>
      a != MANAGER && a in s.calls && s.calls[a].Idle? && bit in s.users && s' == WithCall(s, a, Checking(bit, mode))
    case Return(a) =>
      && a != MANAGER && a in s.calls && s.calls[a].Returning?
      && s' == WithCall(s, a, Idle).(phase := WithoutAwaited(s.phase, a))
    case Block(a, bit, on) =>
      a in s.calls && s' == s.(blocked := if on then s.blocked + {bit} else s.blocked - {bit})
    case _ => false
  }

  // Management functions

  /** `gp_event_toggle_masks` with the user count it belongs to. */
  function Counted(s: State, bit: nat, users: nat): State {
    var runtime := if users > 0 then s.runtime + {bit} else s.runtime - {bit};
    s.(users := s.users[bit := users], runtime := runtime, current := runtime)
  }

  ghost function Busy(s: State): set<nat> { set a | a in s.calls && a != MANAGER && !s.calls[a].Idle? }

  function ActionValue(s: State, action: Action): set<nat> {
    match action
    case DisableAll => {}
    case EnableAllForRuntime => s.runtime - s.masked
    case EnableAllForWake => s.wake
  }

  ghost predicate UserNext(s: State, step: Step, s': State)
    requires MANAGER in s.calls
  {
    var call := s.calls[MANAGER];
    match step
    case AddUser(bit) =>
      && s.phase.Free? && bit in s.users
      && s' == if s.users[bit] == MAX_USERS then s
               else if s.users[bit] > 0 then s.(users := s.users[bit := s.users[bit] + 1])
               else WithCall(Counted(s, bit, 1).(phase := Adding(bit)), MANAGER, Checking(bit, Enabled))
    case AddDone =>
      && s.phase.Adding? && call.Returning?
      && s' == WithCall(if call.success then s else Counted(s, s.phase.bit, 0), MANAGER, Idle).(phase := Free)
    case RemoveUser(bit) =>
      && s.phase.Free? && bit in s.users
      && s' == if s.users[bit] == 0 then s
               else if s.users[bit] > 1 then s.(users := s.users[bit := s.users[bit] - 1])
               else WithCall(Counted(s, bit, 0).(phase := Removing(bit)), MANAGER, Checking(bit, Disabled))
    case RemoveDone =>
      && s.phase.Removing? && call.Returning?
      && s' == WithCall(if call.success then s else Counted(s, s.phase.bit, 1), MANAGER, Idle).(phase := Free)
    case Switch(bit, mode) =>
      s.phase.Free? && bit in s.users && s' == WithCall(s.(phase := Switching), MANAGER, Checking(bit, mode))
    case SwitchDone =>
      s.phase.Switching? && call.Returning? && s' == WithCall(s.(phase := Free), MANAGER, Idle)
    case SetWake(bit) => s.phase.Free? && s' == s.(wake := s.wake + {bit})
    case _ => false
  }

  ghost predicate MaskNext(s: State, step: Step, s': State)
    requires MANAGER in s.calls
  {
    var call := s.calls[MANAGER];
    match step
    case Mask(bit) =>
      && s.phase.Free? && bit in s.users
      && s' == if bit in s.masked then s
               else s.(masked := s.masked + {bit}, phase := Draining(bit, Busy(s)))
    case Drained =>
      && s.phase.Draining? && s.phase.awaited == {}
      && s' == WithCall(s.(phase := Disabling(s.phase.bit)), MANAGER, Checking(s.phase.bit, Disabled))
    case DisableDone =>
      && s.phase.Disabling? && call.Returning?
      && s' == WithCall(s.(phase := DrainingAgain(s.phase.bit, Busy(s))), MANAGER, Idle)
    case MaskReturn => s.phase.DrainingAgain? && s.phase.awaited == {} && s' == s.(phase := Free)
    case Unmask(bit) =>
      && s.phase.Free? && bit in s.users
      && s' == if bit !in s.masked then s
               else if bit !in s.blocked && s.users[bit] > 0 then
                 WithCall(s.(masked := s.masked - {bit}, phase := Switching), MANAGER, Checking(bit, Conditional))
               else s.(masked := s.masked - {bit})
    case Apply(action) =>
      && s.phase.Free?
      && s' == s.(current := ActionValue(s, action), phase := Applying(ActionValue(s, action)))
    case ApplyWrite(works) =>
      s.phase.Applying? && s' == s.(enable := if works then s.phase.value else s.enable, phase := Free)
    case _ => false
  }

  ghost predicate Next(s: State, step: Step, s': State) {
    && MANAGER in s.calls
    && (CallNext(s, step, s') || WorkNext(s, step, s') || UserNext(s, step, s') || MaskNext(s, step, s'))
  }

  // Invariant

  /** The call is past its mask tests and going to set the bit. */
  predicate SetsBit(call: Call, bit: nat) {
    (call.Locking? || call.Modifying?) && call.enabling && call.bit == bit
  }

  ghost predicate SpinlockInv(s: State) {
    forall a {:trigger s.calls[a]} | a in s.calls :: s.calls[a].Modifying? <==> s.spinlock == Some(a)
  }

  ghost predicate UsersInv(s: State) {
    && (forall b | b in s.users :: s.users[b] <= MAX_USERS && (s.users[b] > 0 <==> b in s.runtime))
    && (s.phase.Adding? ==> s.phase.bit in s.users && s.users[s.phase.bit] == 1)
    && (s.phase.Removing? ==> s.phase.bit in s.users && s.users[s.phase.bit] == 0)
  }

  /** The call that takes the bit out of the register. */
  predicate Clears(call: Call, bit: nat) {
    match call
    case Idle => false
    case Checking(b, mode) => b == bit && mode == Disabled
    case Locking(b, enabling) => b == bit && !enabling
    case Modifying(b, enabling, value) => b == bit && !enabling && bit !in value
    case Returning(_) => true
  }

  ghost predicate PhaseInv(s: State) {
    && MANAGER in s.calls
    && var call := s.calls[MANAGER];
       match s.phase
       case Free => call.Idle?
       case Draining(_, awaited) => call.Idle? && MANAGER !in awaited
       case DrainingAgain(_, awaited) => call.Idle? && MANAGER !in awaited
       case Applying(_) => call.Idle?
       case Disabling(bit) => Clears(call, bit)
       case _ => !call.Idle?
  }

  /** Calls that got past the mask test before the bit was masked are waited for; once
      the first wait is over there are none. */
  ghost predicate MaskInv(s: State) {
    forall a, b {:trigger SetsBit(s.calls[a], b)} | a in s.calls && b in s.masked && SetsBit(s.calls[a], b) ::
      s.phase.Draining? && s.phase.bit == b && a in s.phase.awaited
  }

  ghost predicate Inv(s: State) {
    SpinlockInv(s) && UsersInv(s) && PhaseInv(s) && MaskInv(s)
  }

  lemma CallStepKeepsInv(s: State, step: Step, s': State)
    requires Inv(s) && CallNext(s, step, s')
    ensures Inv(s')
  {
    forall a, b | a in s'.calls && b in s'.masked && SetsBit(s'.calls[a], b)
      ensures SetsBit(s.calls[a], b)
    {
    }
  }

  lemma WorkStepKeepsInv(s: State, step: Step, s': State)
    requires Inv(s) && WorkNext(s, step, s')
    ensures Inv(s')
  {
  }

  lemma UserStepKeepsInv(s: State, step: Step, s': State)
    requires Inv(s) && UserNext(s, step, s')
    ensures Inv(s')
  {
  }

  lemma MaskStepKeepsInv(s: State, step: Step, s': State)
    requires Inv(s) && MaskNext(s, step, s')
    ensures Inv(s')
  {
  }

  lemma StepKeepsInv(s: State, step: Step, s': State)
    requires Inv(s) && Next(s, step, s')
    ensures Inv(s')
  {
    hide Inv, CallNext, WorkNext, UserNext, MaskNext;
    if CallNext(s, step, s') {
      CallStepKeepsInv(s, step, s');
    } else if WorkNext(s, step, s') {
      WorkStepKeepsInv(s, step, s');
    } else if UserNext(s, step, s') {
      UserStepKeepsInv(s, step, s');
    } else {
      MaskStepKeepsInv(s, step, s');
    }
  }

  // Masking

  /** The bit is masked, out of the hardware register, and nothing under way has it in
      the value it is going to write. */
  ghost predicate Quiet(s: State, b: nat) {
    && b in s.masked && b !in s.enable
    && !(s.phase.Draining? && s.phase.bit == b)
    && (s.phase.Applying? ==> b !in s.phase.value)
    && forall a {:trigger s.calls[a]} | a in s.calls && s.calls[a].Modifying? :: b !in s.calls[a].value
  }

  /** The steps that end the masking of a bit, or ignore it. */
  predicate Unmasks(s: State, step: Step, b: nat) {
    step == Unmask(b) || (step == Apply(EnableAllForWake) && b in s.wake)
  }

  /** Masking gets there: the register write between the two waits leaves the bit quiet. */
  lemma DisablingMakesQuiet(s: State, s': State, b: nat)
    requires Inv(s) && s.phase == Disabling(b) && b in s.masked && CallNext(s, Write(MANAGER, true), s')
    ensures Quiet(s', b)
  {
  }

  lemma CallStepKeepsQuiet(s: State, step: Step, s': State, b: nat)
    requires Inv(s) && Quiet(s, b) && CallNext(s, step, s')
    ensures Quiet(s', b)
  {
    hide UsersInv, PhaseInv;
    assert forall a | a in s.calls :: !SetsBit(s.calls[a], b);
  }

  lemma OtherStepKeepsQuiet(s: State, step: Step, s': State, b: nat)
    requires Inv(s) && Quiet(s, b) && Next(s, step, s') && !CallNext(s, step, s') && !Unmasks(s, step, b)
    ensures Quiet(s', b)
  {
    hide UsersInv, SpinlockInv, MaskInv, CallNext, PhaseInv;
  }

  /** No step but an unmask (or a wake action) brings a quiet bit back: not an interrupt
      or a restore already under way, not enable, resume, finish or enable-all-runtime. */
  lemma QuietUntilUnmasked(s: State, step: Step, s': State, b: nat)
    requires Inv(s) && Quiet(s, b) && Next(s, step, s') && !Unmasks(s, step, b)
    ensures Quiet(s', b)
  {
    hide Inv, Quiet, Next, CallNext, WorkNext, UserNext, MaskNext;
    if CallNext(s, step, s') {
      CallStepKeepsQuiet(s, step, s', b);
    } else {
      OtherStepKeepsQuiet(s, step, s', b);
    }
  }

  // Runs

  ghost predicate Init(s: State) {
    && MANAGER in s.calls && (forall a | a in s.calls :: s.calls[a].Idle?)
    && (forall b | b in s.users :: s.users[b] == 0)
    && s == State(s.users, {}, {}, {}, {}, {}, {}, None, Free, s.calls)
  }

  ghost predicate Run(states: seq<State>, steps: seq<Step>) {
    && |states| == |steps| + 1 && Init(states[0])
    && forall i: nat {:trigger steps[i]} | i < |steps| :: Next(states[i], steps[i], states[i + 1])
  }

  lemma {:induction false} RunKeepsInv(states: seq<State>, steps: seq<Step>, k: nat)
    requires Run(states, steps) && k < |states|
    ensures Inv(states[k])
  {
    hide Next;
    if k > 0 {
      RunKeepsInv(states, steps, k - 1);
      assert Next(states[k - 1], steps[k - 1], states[k - 1 + 1]);
      StepKeepsInv(states[k - 1], steps[k - 1], states[k]);
    }
  }

  /** In every state of every run, also after failed register writes, an event has users
      exactly when its runtime bit is set. */
  lemma UsersMatchRuntimeMask(states: seq<State>, steps: seq<Step>, k: nat)
    requires Run(states, steps) && k < |states|
    ensures forall b | b in states[k].users :: states[k].users[b] > 0 <==> b in states[k].runtime
  {
    RunKeepsInv(states, steps, k);
  }

  /** The first user of an event and its last one set off a register access, which is over
      before the count is settled; only if it fails does the count go back. */
  lemma UsersSetRegister(s: State, step: Step, s': State, b: nat)
    requires Inv(s) && Next(s, step, s') && b in s.users
    ensures b in s'.users
    ensures s.users[b] > 0 && s'.users[b] == 0 ==>
              || (s'.phase == Removing(b) && s'.calls[MANAGER] == Checking(b, Disabled))
              || (s.phase == Adding(b) && s.calls[MANAGER] == Returning(false))
    ensures s.users[b] == 0 && s'.users[b] > 0 ==>
              || (s'.phase == Adding(b) && s'.calls[MANAGER] == Checking(b, Enabled))
              || (s.phase == Removing(b) && s.calls[MANAGER] == Returning(false))
    ensures b in s.masked && b !in s'.masked && b !in s.blocked && s.users[b] > 0 ==>
              s'.phase == Switching && s'.calls[MANAGER] == Checking(b, Conditional)
    ensures s.phase != s'.phase && (s.phase.Adding? || s.phase.Removing? || s.phase.Switching?) ==>
              s.calls[MANAGER].Returning?
  {
    hide Inv, CallNext, WorkNext, UserNext, MaskNext;
    if UserNext(s, step, s') {
      UserStepSets(s, step, s', b);
    } else if MaskNext(s, step, s') {
      MaskStepSets(s, step, s', b);
    } else {
      NoUserChange(s, step, s');
    }
  }

  lemma UserStepSets(s: State, step: Step, s': State, b: nat)
    requires MANAGER in s.calls && UserNext(s, step, s') && b in s.users
    ensures b in s'.users && s'.masked == s.masked
    ensures s.users[b] > 0 && s'.users[b] == 0 ==>
              || (s'.phase == Removing(b) && s'.calls[MANAGER] == Checking(b, Disabled))
              || (s.phase == Adding(b) && s.calls[MANAGER] == Returning(false))
    ensures s.users[b] == 0 && s'.users[b] > 0 ==>
              || (s'.phase == Adding(b) && s'.calls[MANAGER] == Checking(b, Enabled))
              || (s.phase == Removing(b) && s.calls[MANAGER] == Returning(false))
    ensures s.phase != s'.phase && (s.phase.Adding? || s.phase.Removing? || s.phase.Switching?) ==>
              s.calls[MANAGER].Returning?
  {
  }

  lemma MaskStepSets(s: State, step: Step, s': State, b: nat)
    requires MANAGER in s.calls && MaskNext(s, step, s') && b in s.users
    ensures s'.users == s.users
    ensures b in s.masked && b !in s'.masked && b !in s.blocked && s.users[b] > 0 ==>
              s'.phase == Switching && s'.calls[MANAGER] == Checking(b, Conditional)
    ensures s.phase != s'.phase ==> !s.phase.Adding? && !s.phase.Removing? && !s.phase.Switching?
  {
  }

  lemma NoUserChange(s: State, step: Step, s': State)
    requires CallNext(s, step, s') || WorkNext(s, step, s')
    ensures s'.users == s.users && s'.masked == s.masked
    ensures s.phase != s'.phase ==> !s.phase.Adding? && !s.phase.Removing? && !s.phase.Switching?
  {
  }

  /** A call returns at once for a masked event that is not to be disabled and for one that
      is off and only to be restored; any other call goes for the register. */
  lemma CallRefused(s: State, s': State, a: nat)
    requires a in s.calls && s.calls[a].Checking? && CallNext(s, Check(a), s')
    ensures var (bit, mode) := (s.calls[a].bit, s.calls[a].mode);
            s' == WithCall(s, a, if (mode != Disabled && bit in s.masked) || (mode == Conditional && bit !in s.current)
                                 then Returning(true) else Locking(bit, mode != Disabled))
  {
  }

  /** What a whole-register action leaves in the register when the access works. */
  lemma ApplyOutcome(s: State, action: Action, s1: State, s2: State)
    requires MANAGER in s.calls && MaskNext(s, Apply(action), s1) && MaskNext(s1, ApplyWrite(true), s2)
    ensures match action
            case DisableAll => s2.enable == {}
            case EnableAllForRuntime => forall b :: b in s2.enable <==> b in s.runtime && b !in s.masked
            case EnableAllForWake => s2.enable == s.wake
  {
  }

  /** The register access of a mask call is over: refused when read or written, or done. */
  predicate Ends(step: Step) {
    step == Lock(MANAGER, false) || step == Write(MANAGER, false) || step == Write(MANAGER, true)
  }

  lemma EndIsACall(s: State, step: Step, s': State)
    requires Next(s, step, s') && Ends(step)
    ensures CallNext(s, step, s')
  {
  }

  /** The access leaves the bit quiet if it worked or had nothing to do, and only then. */
  lemma EndMakesQuiet(s: State, step: Step, s': State, b: nat)
    requires Inv(s) && s.phase == Disabling(b) && b in s.masked && Ends(step) && CallNext(s, step, s')
    ensures Quiet(s', b) <==> step == Write(MANAGER, true) || b !in s.enable
    ensures !Quiet(s', b) ==> b in s'.enable
  {
    if step == Write(MANAGER, true) {
      DisablingMakesQuiet(s, s', b);
    }
  }

  lemma {:induction false} QuietLasts(states: seq<State>, steps: seq<Step>, i: nat, k: nat, b: nat)
    requires Run(states, steps) && i <= k < |states| && Quiet(states[i], b)
    requires forall j: nat | i <= j < k :: !Unmasks(states[j], steps[j], b)
    ensures Quiet(states[k], b)
  {
    hide Next, Inv, Quiet;
    if i < k {
      QuietLasts(states, steps, i, k - 1, b);
      RunKeepsInv(states, steps, k - 1);
      assert Next(states[k - 1], steps[k - 1], states[k - 1 + 1]);
      QuietUntilUnmasked(states[k - 1], steps[k - 1], states[k], b);
    }
  }

  /** From the register access of a mask call on, the hardware enable bit is clear in every
      state up to the first unmask, so in particular from the return of the mask call on,
      exactly if the access worked or the bit was clear already. */
  lemma MaskedStaysDisabled(states: seq<State>, steps: seq<Step>, i: nat, n: nat, b: nat)
    requires Run(states, steps) && i < n < |states|
    requires states[i].phase == Disabling(b) && b in states[i].masked && Ends(steps[i])
    requires forall j: nat | i < j < n :: !Unmasks(states[j], steps[j], b)
    ensures (forall k: nat | i < k <= n :: b !in states[k].enable)
            <==> steps[i] == Write(MANAGER, true) || b !in states[i].enable
  {
    hide Next, Inv;
    RunKeepsInv(states, steps, i);
    assert Next(states[i], steps[i], states[i + 1]);
    EndIsACall(states[i], steps[i], states[i + 1]);
    EndMakesQuiet(states[i], steps[i], states[i + 1], b);
    if Quiet(states[i + 1], b) {
      forall k: nat | i < k <= n
        ensures b !in states[k].enable
      {
        QuietLasts(states, steps, i + 1, k, b);
      }
    }
  }

  // A mask call ignores whether its register access worked. When it did not, the bit can
  // be set again while masked: a read-modify-write of another event that already holds
  // the old register value lands after the unlocked write of disable-all.

  lemma Extend(states: seq<State>, steps: seq<Step>, step: Step, s: State)
      returns (states': seq<State>, steps': seq<Step>)
    requires Run(states, steps) && |states| == |steps| + 1 && Next(states[|steps|], step, s)
    ensures states' == states + [s] && steps' == steps + [step] && |states'| == |steps'| + 1 && Run(states', steps')
  {
    hide Next, Init;
    states', steps' := states + [s], steps + [step];
  }

  /** A register with two enabled events and one interrupt. */
  function TwoUsers(phase: Phase, manager: Call, interrupt: Call): State {
    State(map[0 := 1, 1 := 1], {0, 1}, {}, {}, {0, 1}, {0, 1}, {}, None, phase, map[0 := manager, 1 := interrupt])
  }

  lemma BeginRun(s: State)
    requires Init(s)
    ensures Run([s], [])
  {
  }

  /** A whole undisturbed call, which the hardware carries out or refuses. */
  lemma RunCall(states: seq<State>, steps: seq<Step>, s: State, a: nat, works: bool)
      returns (states': seq<State>, steps': seq<Step>, s': State)
    requires Run(states, steps) && |states| == |steps| + 1 && states[|steps|] == s && MANAGER in s.calls
    requires a in s.calls && s.calls[a].Checking? && s.spinlock.None?
    requires s.calls[a].mode == Disabled || (s.calls[a].mode == Enabled && s.calls[a].bit !in s.masked)
    ensures var (bit, on) := (s.calls[a].bit, s.calls[a].mode == Enabled);
            s' == WithCall(if !works then s else if on then s.(enable := s.enable + {bit})
                           else s.(enable := s.enable - {bit}), a, Returning(works))
    ensures Run(states', steps') && |states'| == |steps'| + 1 && states'[|steps'|] == s'
    ensures steps' == steps + if works then [Check(a), Lock(a, true), Write(a, true)] else [Check(a), Lock(a, false)]
  {
    hide Run, UserNext, MaskNext, WorkNext;
    var (bit, on) := (s.calls[a].bit, s.calls[a].mode == Enabled);
    s' := WithCall(s, a, Locking(bit, on));
    states', steps' := Extend(states, steps, Check(a), s');
    if works {
      s' := WithCall(s'.(spinlock := Some(a)), a,
                     Modifying(bit, on, if on then s.enable + {bit} else s.enable - {bit}));
      states', steps' := Extend(states', steps', Lock(a, true), s');
      s' := WithCall(s'.(spinlock := None, enable := s'.calls[a].value), a, Returning(true));
      states', steps' := Extend(states', steps', Write(a, true), s');
    } else {
      s' := WithCall(s', a, Returning(false));
      states', steps' := Extend(states', steps', Lock(a, false), s');
    }
  }

  /** A first user, whose register access works. */
  lemma EnableOne(states: seq<State>, steps: seq<Step>, s: State, bit: nat)
      returns (states': seq<State>, steps': seq<Step>, s': State)
    requires Run(states, steps) && |states| == |steps| + 1 && states[|steps|] == s && MANAGER in s.calls
    requires s.phase.Free? && s.calls[MANAGER].Idle? && s.spinlock.None?
    requires bit in s.users && s.users[bit] == 0 && bit !in s.masked
    ensures Run(states', steps') && |states'| == |steps'| + 1 && states'[|steps'|] == s'
    ensures s' == Counted(s, bit, 1).(enable := s.enable + {bit})
    ensures steps' == steps + [AddUser(bit), Check(MANAGER), Lock(MANAGER, true), Write(MANAGER, true), AddDone]
  {
    hide Run, CallNext, WorkNext, MaskNext;
    s' := WithCall(Counted(s, bit, 1).(phase := Adding(bit)), MANAGER, Checking(bit, Enabled));
    states', steps' := Extend(states, steps, AddUser(bit), s');
    states', steps', s' := RunCall(states', steps', s', MANAGER, true);
    var done := WithCall(s', MANAGER, Idle).(phase := Free);
    states', steps' := Extend(states', steps', AddDone, done);
    s' := done;
    assert s'.calls == s.calls;
  }

  lemma EnableBoth() returns (states: seq<State>, steps: seq<Step>)
    ensures Run(states, steps) && |states| == |steps| + 1 && states[|steps|] == TwoUsers(Free, Idle, Idle)
    ensures Unmask(0) !in steps && Apply(EnableAllForWake) !in steps
  {
    hide Run;
    var s := State(map[0 := 0, 1 := 0], {}, {}, {}, {}, {}, {}, None, Free, map[0 := Idle, 1 := Idle]);
    BeginRun(s);
    states, steps := [s], [];
    states, steps, s := EnableOne(states, steps, s, 0);
    states, steps, s := EnableOne(states, steps, s, 1);
    assert s == TwoUsers(Free, Idle, Idle);
  }

  lemma MaskWithFailingRegister() returns (states: seq<State>, steps: seq<Step>)
    ensures Run(states, steps) && |states| == |steps| + 1
    ensures states[|steps|] == TwoUsers(Free, Idle, Idle).(masked := {0})
    ensures Unmask(0) !in steps && Apply(EnableAllForWake) !in steps
  {
    hide Run, CallNext, WorkNext, UserNext;
    states, steps := EnableBoth();
    var s := TwoUsers(Free, Idle, Idle);
    s := s.(masked := s.masked + {0}, phase := Draining(0, Busy(s)));
    states, steps := Extend(states, steps, Mask(0), s);
    assert s.phase.awaited == {};
    s := WithCall(s.(phase := Disabling(0)), 0, Checking(0, Disabled));
    states, steps := Extend(states, steps, Drained, s);
    states, steps, s := RunCall(states, steps, s, 0, false);
    s := WithCall(s.(phase := DrainingAgain(0, Busy(s))), 0, Idle);
    states, steps := Extend(states, steps, DisableDone, s);
    assert s.phase.awaited == {};
    s := s.(phase := Free);
    states, steps := Extend(states, steps, MaskReturn, s);
  }

  /** An interrupt of the other event is about to write the register without its own bit. */
  lemma HoldOldValue() returns (states: seq<State>, steps: seq<Step>)
    ensures Run(states, steps) && |states| == |steps| + 1
    ensures states[|steps|] == TwoUsers(Free, Idle, Modifying(1, false, {0})).(masked := {0}, spinlock := Some(1))
    ensures Unmask(0) !in steps && Apply(EnableAllForWake) !in steps
  {
    hide Run, UserNext, MaskNext;
    states, steps := MaskWithFailingRegister();
    var s := WithCall(TwoUsers(Free, Idle, Idle).(masked := {0}), 1, Checking(1, Disabled));
    states, steps := Extend(states, steps, Start(1, 1, Disabled), s);
    s := WithCall(s, 1, Locking(1, false));
    states, steps := Extend(states, steps, Check(1), s);
    assert s.enable - {1} == {0};
    s := WithCall(s.(spinlock := Some(1)), 1, Modifying(1, false, {0}));
    states, steps := Extend(states, steps, Lock(1, true), s);
  }

  lemma MaskedBitComesBack() returns (states: seq<State>, steps: seq<Step>)
    ensures Run(states, steps) && |states| == |steps| + 1 && |steps| > 0 && Unmask(0) !in steps
            && Apply(EnableAllForWake) !in steps
    ensures var before, after := states[|steps| - 1], states[|steps|];
            && before.phase.Free? && 0 in before.masked && 0 !in before.enable
            && after.phase.Free? && 0 in after.masked && 0 in after.enable
  {
    hide Run, UserNext, WorkNext;
    states, steps := HoldOldValue();
    var s := states[|steps|].(current := {}, phase := Applying({}));
    states, steps := Extend(states, steps, Apply(DisableAll), s);
    s := s.(enable := {}, phase := Free);
    states, steps := Extend(states, steps, ApplyWrite(true), s);
    s := WithCall(s.(spinlock := None, enable := {0}), 1, Returning(true));
    states, steps := Extend(states, steps, Write(1, true), s);
  }
}

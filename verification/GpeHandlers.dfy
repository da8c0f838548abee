/** Users, masking and handlers of one general-purpose event, src/kern/acpi/event.c.
    Management functions run under the event lock, so each is one step here; every
    hardware access takes a flag `works` that says whether the register could be read
    and written. A mask is the set of the event bits that are 1 in it. */
module GpeHandlers {

  const MAX_USERS: nat := 0xFF

  datatype Mode = Enabled | Conditional | Disabled

  datatype Triggering = Level | Edge

  datatype HandlerType = NoHandler | AmlHandler | Native | NativeRaw | ImplicitNotify

  /** The union behind `any_handler`; a native handler remembers what it replaced. */
  datatype Handler =
    | Nothing
    | AmlMethod(node: nat)
    | NotifyList(devices: seq<nat>)
    | NativeHandler(callback: nat, previous: Handler, previousType: HandlerType, previousTriggering: Triggering,
                    previouslyEnabled: bool)

  datatype Status = Ok | InvalidArgument | AlreadyExists | NotFound | HardwareError

  /** One event and the masks of its register. */
  datatype Event = Event(
    handler: Handler, kind: HandlerType, triggering: Triggering, users: nat, blocked: bool,
    runtime: set<nat>, masked: set<nat>, current: set<nat>, enable: set<nat>)
  {
    ghost predicate Valid(bit: nat) {
      && users <= MAX_USERS && (users > 0 <==> bit in runtime)
      && (IsNative(kind) <==> handler.NativeHandler?)
      && (handler.NativeHandler? ==> !handler.previous.NativeHandler? && !IsNative(handler.previousType))
    }
  }

  predicate IsNative(kind: HandlerType) { kind == Native || kind == NativeRaw }

  predicate CountsAsUser(kind: HandlerType) { kind == AmlHandler || kind == ImplicitNotify }

  function SetState(e: Event, bit: nat, mode: Mode, works: bool): (Event, Status) {
    if mode != Disabled && bit in e.masked then (e, Ok)
    else if mode == Conditional && bit !in e.current then (e, Ok)
    else if !works then (e, HardwareError)
    else (e.(enable := if mode == Disabled then e.enable - {bit} else e.enable + {bit}), Ok)
  }

  /** `gp_event_toggle_masks` with the user count it belongs to. */
  function Counted(e: Event, bit: nat, users: nat): Event {
    var runtime := if users > 0 then e.runtime + {bit} else e.runtime - {bit};
    e.(users := users, runtime := runtime, current := runtime)
  }

  function RemoveUser(e: Event, bit: nat, works: bool): (Event, Status) {
    if e.users == 0 then (e, InvalidArgument)
    else if e.users > 1 then (e.(users := e.users - 1), Ok)
    else
      var (off, status) := SetState(Counted(e, bit, 0), bit, Disabled, works);
      (if status == Ok then off else Counted(off, bit, 1), status)
  }

  function AddUser(e: Event, bit: nat, works: bool): (Event, Status) {
    if e.users == MAX_USERS then (e, InvalidArgument)
    else if e.users > 0 then (e.(users := e.users + 1), Ok)
    else
      var (on, status) := SetState(Counted(e, bit, 1), bit, Enabled, works);
      (if status == Ok then on else Counted(on, bit, 0), status)
  }

  function Mask(e: Event, bit: nat, works: bool): Event {
    if bit in e.masked then e else SetState(e.(masked := e.masked + {bit}), bit, Disabled, works).0
  }

  function Unmask(e: Event, bit: nat, works: bool): Event {
    if bit !in e.masked then e
    else
      var open := e.(masked := e.masked - {bit});
      if !open.blocked && open.users > 0 then SetState(open, bit, Conditional, works).0 else open
  }

  /** `gpe_mask_safe`: only an event that may fire needs the mask. */
  function MaskSafe(e: Event, bit: nat, works: bool): (Event, bool) {
    if bit in e.current then (Mask(e, bit, works), true) else (e, false)
  }

  /** Whether each of the three register accesses of an operation works: the one under
      the mask, the one for the user count, the one of the unmask. */
  datatype Works = Works(mask: bool, count: bool, unmask: bool)

  /** The native handler takes over; an event that counted as enabled loses that user. */
  function Replaced(e: Event, bit: nat, kind: HandlerType, triggering: Triggering, callback: nat, works: bool): Event {
    var enabled := CountsAsUser(e.kind) && e.users != 0;
    (if enabled then RemoveUser(e, bit, works).0 else e).(
      handler := NativeHandler(callback, e.handler, e.kind, e.triggering, enabled),
      kind := kind, triggering := triggering)
  }

  function Install(e: Event, bit: nat, kind: HandlerType, triggering: Triggering, callback: nat, works: Works)
      : (Event, Status)
  {
    if IsNative(e.kind) then (e, AlreadyExists)
    else
      var (masked, didMask) := MaskSafe(e, bit, works.mask);
      var installed := Replaced(masked, bit, kind, triggering, callback, works.count);
      (if didMask then Unmask(installed, bit, works.unmask) else installed, Ok)
  }

  function Uninstall(e: Event, bit: nat, callback: nat, works: Works): (Event, Status)
    requires e.Valid(bit)
  {
    if !IsNative(e.kind) then (e, NotFound)
    else if e.handler.callback != callback then (e, InvalidArgument)
    else
      var (masked, didMask) := MaskSafe(e, bit, works.mask);
      var restored := masked.(handler := e.handler.previous, kind := e.handler.previousType,
                          triggering := e.handler.previousTriggering);
      var counted := if CountsAsUser(restored.kind) && e.handler.previouslyEnabled
        then AddUser(restored, bit, works.count).0
                     else restored;
      (if didMask then Unmask(counted, bit, works.unmask) else counted, Ok)
  }

  lemma CountingFrame(e: Event, bit: nat, works: bool)
    ensures var r := RemoveUser(e, bit, works).0;
            r == e.(users := r.users, runtime := r.runtime, current := r.current, enable := r.enable)
    ensures var r := AddUser(e, bit, works).0;
            r == e.(users := r.users, runtime := r.runtime, current := r.current, enable := r.enable)
  {
  }

  lemma MaskingFrame(e: Event, bit: nat, works: bool)
    ensures var (r, didMask) := MaskSafe(e, bit, works);
            && r == e.(masked := r.masked, enable := r.enable)
            && (didMask <==> bit in e.current)
            && (bit !in e.masked ==> r.masked == if didMask then e.masked + {bit} else e.masked)
    ensures var r := Unmask(e, bit, works);
            r == e.(masked := r.masked, enable := r.enable) && r.masked == e.masked - {bit}
  {
    assert bit !in e.masked ==> e.masked - {bit} == e.masked;
  }

  /** The register after an install: cleared by the mask of an event that is on and by its
      last user going, and set again by the unmask of an event that is still on. */
  function InstalledEnable(e: Event, bit: nat, last: bool, works: Works): set<nat> {
    if bit !in e.current then if last && works.count then e.enable - {bit} else e.enable
    else if !e.blocked && e.users > 0 && !(last && works.count) && works.unmask
    then e.enable + {bit}
    else if works.mask || (last && works.count) then e.enable - {bit}
    else e.enable
  }

  /** The user that install takes away: counted events lose one, unless it is the last
      and the register does not work. */
  lemma InstallOutcome(e: Event, bit: nat, kind: HandlerType, triggering: Triggering, callback: nat, works: Works)
    requires e.Valid(bit) && !IsNative(e.kind) && IsNative(kind) && bit !in e.masked
    ensures var r := Install(e, bit, kind, triggering, callback, works).0;
            var counted := CountsAsUser(e.kind) && e.users > 0;
            && r.Valid(bit) && r.kind == kind && r.triggering == triggering && r.masked == e.masked
            && r.handler == NativeHandler(callback, e.handler, e.kind, e.triggering, counted)
            && r.users == (if counted && (e.users > 1 || works.count) then e.users - 1 else e.users)
            && r.blocked == e.blocked
            && r.runtime == (if r.users > 0 then e.runtime else e.runtime - {bit})
            && r.current == (if counted && e.users == 1 then r.runtime else e.current)
            && r.enable == InstalledEnable(e, bit, counted && e.users == 1, works)
  {
    hide RemoveUser, Mask, Unmask, Replaced;
    MaskOutcome(e, bit, works.mask);
    var (masked, didMask) := MaskSafe(e, bit, works.mask);
    MaskingFrame(e, bit, works.mask);
    ReplacedOutcome(masked, bit, kind, triggering, callback, works.count);
    var installed := Replaced(masked, bit, kind, triggering, callback, works.count);
    MaskingFrame(installed, bit, works.unmask);
    MaskOutcome(installed, bit, works.unmask);
    assert (if didMask then masked.masked - {bit} else masked.masked) == e.masked;
  }

  lemma ReplacedOutcome(e: Event, bit: nat, kind: HandlerType, triggering: Triggering, callback: nat, works: bool)
    requires e.Valid(bit)
    ensures var r := Replaced(e, bit, kind, triggering, callback, works);
            var counted := CountsAsUser(e.kind) && e.users > 0;
            && r.kind == kind && r.triggering == triggering && r.masked == e.masked && r.blocked == e.blocked
            && r.handler == NativeHandler(callback, e.handler, e.kind, e.triggering, counted)
            && r.users == (if counted && (e.users > 1 || works) then e.users - 1 else e.users)
            && r.runtime == (if r.users > 0 then e.runtime else e.runtime - {bit})
            && r.current == (if counted && e.users == 1 then r.runtime else e.current)
            && r.enable == if counted && e.users == 1 && works then e.enable - {bit} else e.enable
  {
    hide RemoveUser;
    RemoveOutcome(e, bit, works);
    assert e.users == 0 ==> e.runtime - {bit} == e.runtime;
  }

  /** Removing a user: only the last one going touches the masks and the register, and
      only if the register works does it go. The event is then disabled. */
  lemma RemoveOutcome(e: Event, bit: nat, works: bool)
    requires e.Valid(bit)
    ensures var (r, status) := RemoveUser(e, bit, works);
            && r == e.(users := r.users, runtime := r.runtime, current := r.current, enable := r.enable)
            && r.users == (if e.users > 1 || (e.users == 1 && works) then e.users - 1 else e.users)
            && r.runtime == (if r.users > 0 then e.runtime else e.runtime - {bit})
            && r.current == (if e.users == 1 then r.runtime else e.current)
            && r.enable == (if e.users == 1 && works then e.enable - {bit} else e.enable)
            && status == if e.users == 0 then InvalidArgument
                         else if e.users == 1 && !works then HardwareError else Ok
  {
    CountingFrame(e, bit, works);
    if e.users == 0 {
      assert e.runtime - {bit} == e.runtime;
    } else {
      assert e.runtime - {bit} + {bit} == e.runtime;
    }
  }

  /** Adding a user: only the first one touches the masks and the register; a masked event
      is counted without a write. */
  lemma AddOutcome(e: Event, bit: nat, works: bool)
    requires e.Valid(bit)
    ensures var (r, status) := AddUser(e, bit, works);
            && r == e.(users := r.users, runtime := r.runtime, current := r.current, enable := r.enable)
            && r.users == (if 0 < e.users < MAX_USERS || (e.users == 0 && (works || bit in e.masked))
                           then e.users + 1 else e.users)
            && r.runtime == (if r.users > 0 then e.runtime + {bit} else e.runtime)
            && r.current == (if e.users == 0 then r.runtime else e.current)
            && r.enable == (if e.users == 0 && bit !in e.masked && works then e.enable + {bit} else e.enable)
            && status == if e.users == MAX_USERS then InvalidArgument
                         else if e.users == 0 && bit !in e.masked && !works then HardwareError else Ok
  {
    CountingFrame(e, bit, works);
    if e.users == 0 {
      assert e.runtime + {bit} - {bit} == e.runtime;
    } else {
      assert e.runtime + {bit} == e.runtime;
    }
  }

  /** Masking disables an event that was not masked if the register works; unmasking enables
      exactly an event that was masked, has users, is not blocked and is to be on. */
  lemma MaskOutcome(e: Event, bit: nat, works: bool)
    ensures Mask(e, bit, works)
         == e.(masked := e.masked + {bit}, enable := if bit !in e.masked && works then e.enable - {bit} else e.enable)
    ensures Unmask(e, bit, works)
         == e.(masked := e.masked - {bit},
               enable := if bit in e.masked && !e.blocked && e.users > 0 && bit in e.current && works
                         then e.enable + {bit} else e.enable)
  {
    assert bit in e.masked ==> e.masked + {bit} == e.masked;
    assert bit !in e.masked ==> e.masked - {bit} == e.masked;
  }

  /** The register after an uninstall: an event that was off is enabled by its first user;
      one that was on is disabled by the mask and enabled again by the unmask. */
  function UninstalledEnable(e: Event, bit: nat, counted: bool, works: Works): set<nat> {
    if bit !in e.current then if counted && e.users == 0 && works.count then e.enable + {bit} else e.enable
    else if !e.blocked && (e.users > 0 || counted) && works.unmask then e.enable + {bit}
    else if works.mask then e.enable - {bit}
    else e.enable
  }

  /** What is refused, and then nothing changes. */
  lemma Refusals(e: Event, bit: nat, kind: HandlerType, triggering: Triggering, callback: nat, works: Works)
    requires e.Valid(bit)
    ensures var (r, status) := Install(e, bit, kind, triggering, callback, works);
            && status == (if IsNative(e.kind) then AlreadyExists else Ok)
            && (status != Ok ==> r == e)
    ensures var (r, status) := Uninstall(e, bit, callback, works);
            && status == (if !IsNative(e.kind) then NotFound
                          else if e.handler.callback != callback then InvalidArgument else Ok)
            && (status != Ok ==> r == e)
  {
  }

  /** The user that uninstall gives back: a masked register is not written, so the count
      then rises whether or not the register works. */
  lemma UninstallOutcome(e: Event, bit: nat, callback: nat, works: Works)
    requires e.Valid(bit) && IsNative(e.kind) && e.handler.callback == callback && bit !in e.masked
    ensures var (r, status) := Uninstall(e, bit, callback, works);
            var counted := CountsAsUser(e.handler.previousType) && e.handler.previouslyEnabled;
            && status == Ok && r.handler == e.handler.previous && r.kind == e.handler.previousType
            && r.triggering == e.handler.previousTriggering && r.masked == e.masked
            && r.users == (if counted &&
                              (0 < e.users < MAX_USERS || (e.users == 0 && (works.count || bit in e.current)))
                           then e.users + 1 else e.users)
            && r.runtime == (if r.users > 0 then e.runtime + {bit} else e.runtime) && r.blocked == e.blocked
            && r.current == (if counted && e.users == 0 then r.runtime else e.current)
            && r.enable == UninstalledEnable(e, bit, counted, works)
  {
    hide AddUser, RemoveUser, Mask, Unmask;
    MaskOutcome(e, bit, works.mask);
    var (masked, didMask) := MaskSafe(e, bit, works.mask);
    MaskingFrame(e, bit, works.mask);
    var restored := masked.(handler := e.handler.previous, kind := e.handler.previousType,
                            triggering := e.handler.previousTriggering);
    AddOutcome(restored, bit, works.count);
    var counted := if CountsAsUser(restored.kind) && e.handler.previouslyEnabled
                   then AddUser(restored, bit, works.count).0 else restored;
    MaskingFrame(counted, bit, works.unmask);
    MaskOutcome(counted, bit, works.unmask);
    assert e.masked + {bit} - {bit} == e.masked;
    assert e.users > 0 ==> e.runtime + {bit} == e.runtime;
  }

  /** Installing a native handler on an unmasked event and uninstalling it again always
      brings handler, type and triggering back and leaves the event unmasked. The user
      count and the runtime bit come back exactly if the register accesses behind the
      last user going and coming back both worked. */
  lemma RoundTrip(e: Event, bit: nat, kind: HandlerType, triggering: Triggering, callback: nat, down: Works, up: Works)
    requires e.Valid(bit) && !IsNative(e.kind) && IsNative(kind) && bit !in e.masked
    ensures var installed := Install(e, bit, kind, triggering, callback, down).0;
            && installed.Valid(bit)
            && var (r, status) := Uninstall(installed, bit, callback, up);
            && status == Ok
            && r.handler == e.handler && r.kind == e.kind && r.triggering == e.triggering && r.masked == e.masked
            && (r.users == e.users <==> (CountsAsUser(e.kind) && e.users == 1 ==> down.count && up.count))
            && (r.users == e.users ==> r.runtime == e.runtime)
  {
    hide Install, Uninstall;
    var installed := Install(e, bit, kind, triggering, callback, down).0;
    InstallOutcome(e, bit, kind, triggering, callback, down);
    UninstallOutcome(installed, bit, callback, up);
    if e.users > 0 {
      assert e.runtime - {bit} + {bit} == e.runtime == e.runtime + {bit};
    } else {
      assert e.runtime - {bit} == e.runtime;
    }
  }

  /** A last user whose register access fails on the way out stays, and is then added a
      second time on the way back. */
  lemma FailedAccessAddsAUser() returns (e: Event)
    ensures e.Valid(0) && e.kind == AmlHandler && e.users == 1 && 0 !in e.masked
    ensures var installed := Install(e, 0, Native, Edge, 7, Works(true, false, true)).0;
            installed.Valid(0) && Uninstall(installed, 0, 7, Works(true, true, true)).0.users == 2
  {
    e := Event(AmlMethod(0), AmlHandler, Edge, 1, false, {0}, {}, {0}, {0});
    hide Install, Uninstall;
    var down, up := Works(true, false, true), Works(true, true, true);
    InstallOutcome(e, 0, Native, Edge, 7, down);
    UninstallOutcome(Install(e, 0, Native, Edge, 7, down).0, 0, 7, up);
  }

  /** When the register always works and the event was in a settled state, nothing at
      all is different afterwards. */
  lemma RoundTripRestoresAll(e: Event, bit: nat, kind: HandlerType, triggering: Triggering, callback: nat)
    requires e.Valid(bit) && !IsNative(e.kind) && IsNative(kind) && bit !in e.masked
    requires !e.blocked && e.current == e.runtime && (bit in e.enable <==> e.users > 0)
    ensures var works := Works(true, true, true);
            var installed := Install(e, bit, kind, triggering, callback, works).0;
            installed.Valid(bit) && Uninstall(installed, bit, callback, works) == (e, Ok)
  {
    InstallOutcome(e, bit, kind, triggering, callback, Works(true, true, true));
    assert e.masked + {bit} - {bit} == e.masked;
    if e.users > 0 {
      assert e.runtime - {bit} + {bit} == e.runtime;
      assert e.enable - {bit} + {bit} == e.enable;
      assert e.enable - {bit} - {bit} + {bit} == e.enable;
      assert e.enable - {bit} + {bit} - {bit} + {bit} == e.enable;
    }
  }

  // The event and its register as the source updates them in place

  class GpEvent {
    const bit: nat
    var handler: Handler
    var kind: HandlerType
    var triggering: Triggering
    var users: nat
    var blocked: bool
    var runtime: set<nat>
    var masked: set<nat>
    var current: set<nat>
    var enable: set<nat>

    function View(): Event
      reads this
    {
      Event(handler, kind, triggering, users, blocked, runtime, masked, current, enable)
    }

    method SetGpeState(mode: Mode, works: bool) returns (status: Status)
      modifies this`enable
      ensures (View(), status) == SetState(old(View()), bit, mode, works)
    {
      if mode != Disabled && bit in masked {
        return Ok;
      }
      var state := mode;
      if mode == Conditional {
        if bit !in current {
          return Ok;
        }
        state := Enabled;
      }
      if !works {
        return HardwareError;
      }
      if state == Enabled {
        enable := enable + {bit};
      } else {
        enable := enable - {bit};
      }
      return Ok;
    }

    method ToggleMasks(on: bool)
      modifies this`runtime, this`current
      ensures View() == Counted(old(View()), bit, if on then 1 else 0).(users := old(users))
    {
      if on {
        runtime := runtime + {bit};
        current := runtime;
        return;
      }
      runtime := runtime - {bit};
      current := runtime;
    }

    method GpeRemoveUser(works: bool) returns (status: Status)
      modifies this`users, this`runtime, this`current, this`enable
      ensures (View(), status) == RemoveUser(old(View()), bit, works)
    {
      status := Ok;
      if users == 0 {
        return InvalidArgument;
      }
      users := users - 1;
      if users == 0 {
        ToggleMasks(false);
        status := SetGpeState(Disabled, works);
        if status != Ok {
          ToggleMasks(true);
          users := users + 1;
        }
      }
    }

    method GpeAddUser(works: bool) returns (status: Status)
      modifies this`users, this`runtime, this`current, this`enable
      ensures (View(), status) == AddUser(old(View()), bit, works)
    {
      status := Ok;
      if users == MAX_USERS {
        return InvalidArgument;
      }
      users := users + 1;
      if users == 1 {
        ToggleMasks(true);
        status := SetGpeState(Enabled, works);
        if status != Ok {
          ToggleMasks(false);
          users := users - 1;
        }
      }
    }

    method GpeMaskUnmask(shouldMask: bool, works: bool) returns (status: Status)
      modifies this`masked, this`enable
      ensures View() == if shouldMask then Mask(old(View()), bit, works) else Unmask(old(View()), bit, works)
      ensures status == if shouldMask == (bit in old(masked)) then InvalidArgument else Ok
    {
      if shouldMask {
        if bit in masked {
          return InvalidArgument;
        }
        masked := masked + {bit};
        var _ := SetGpeState(Disabled, works);
        return Ok;
      }
      if bit !in masked {
        return InvalidArgument;
      }
      masked := masked - {bit};
      if !blocked && users > 0 {
        var _ := SetGpeState(Conditional, works);
      }
      return Ok;
    }

    method GpeMaskSafe(works: bool) returns (didMask: bool)
      modifies this`masked, this`enable
      ensures (View(), didMask) == MaskSafe(old(View()), bit, works)
    {
      if bit !in current {
        return false;
      }
      var _ := GpeMaskUnmask(true, works);
      return true;
    }

    method ReplaceHandler(newKind: HandlerType, claimed: Triggering, callback: nat, works: bool)
      modifies this
      ensures View() == Replaced(old(View()), bit, newKind, claimed, callback, works)
    {
      hide SetState, RemoveUser;
      var previous, previousType, previousTriggering, previouslyEnabled := handler, kind, triggering, false;
      if CountsAsUser(kind) && users != 0 {
        previouslyEnabled := true;
        var _ := GpeRemoveUser(works);
      }
      handler := NativeHandler(callback, previous, previousType, previousTriggering, previouslyEnabled);
      kind := newKind;
      triggering := claimed;
    }

    method InstallHandler(newKind: HandlerType, claimed: Triggering, callback: nat, works: Works)
      returns (status: Status)
      modifies this
      ensures (View(), status) == Install(old(View()), bit, newKind, claimed, callback, works)
    {
      hide Replaced, MaskSafe, Unmask, Mask;
      if kind == Native || kind == NativeRaw {
        return AlreadyExists;
      }
      var didMask := GpeMaskSafe(works.mask);
      ReplaceHandler(newKind, claimed, callback, works.count);
      if didMask {
        var _ := GpeMaskUnmask(false, works.unmask);
      }
      return Ok;
    }

    method UninstallHandler(callback: nat, works: Works) returns (status: Status)
      requires View().Valid(bit)
      modifies this
      ensures (View(), status) == Uninstall(old(View()), bit, callback, works)
    {
      hide SetState, AddUser, MaskSafe, Unmask, Mask;
      if kind != Native && kind != NativeRaw {
        return NotFound;
      }
      var native := handler;
      if native.callback != callback {
        return InvalidArgument;
      }
      var didMask := GpeMaskSafe(works.mask);
      handler := native.previous;
      triggering := native.previousTriggering;
      kind := native.previousType;
      if CountsAsUser(kind) && native.previouslyEnabled {
        var _ := GpeAddUser(works.count);
      }
      if didMask {
        var _ := GpeMaskUnmask(false, works.unmask);
      }
      return Ok;
    }
  }
}

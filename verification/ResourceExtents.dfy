/** How far the tables of `ResourceTables` reach: the native bytes and the AML bytes their
    instructions touch, in both directions. */
module ResourceExtents {
  import opened Bits
  import opened ResourceCodec
  import opened ResourceTables

  /** The AML bytes behind an instruction of fixed place. */
  function AmlEnd(insn: Insn, maxAcc: nat): nat {
    match insn
    case PackedArray(aml, _, _, bytes) => aml + bytes
    case BitField(aml, _, _, _) => aml + 1
    case Field(aml, _, bytes, imm) =>
      aml + Scaled(bytes, if imm == 0xFF then 1 else if maxAcc + imm == 0 then 1 else maxAcc + imm)
    case SetToImm(aml, _, _) => aml + 1
    case Load8Store(aml, _, _) => aml + 1
    case _ => 0
  }

  /** The limits of a table: native bytes, AML bytes, and whether it may store constants. */
  datatype Limits = Limits(native: nat, aml: nat, constants: bool)

  predicate InsnWithin(insn: Insn, bound: nat, l: Limits) {
    && !insn.PackedArray? && (insn.SetToImm? ==> l.constants)
    && (HasSpan(insn) ==> SpanEnd(insn, bound) <= l.native && AmlEnd(insn, bound) <= l.aml)
  }

  predicate Within(p: Program, bound: nat, l: Limits)
    decreases p
  {
    p.Stop? || (CheckedInsn(p.insn) && InsnWithin(p.insn, bound, l) && Within(p.rest, Bump(p.insn, bound), l))
  }

  lemma {:induction false} WithinOn(p: Program, bound: nat, l: Limits, count: nat)
    requires Within(p, bound, l)
    ensures Within(Drop(p, count), BoundAfter(p, bound, count), l)
  {
    hide CheckedInsn, InsnWithin;
    if count > 0 && p.Then? {
      WithinOn(p.rest, Bump(p.insn, bound), l, count - 1);
    }
  }

  lemma {:induction false} WithinHasNoConstants(p: Program, bound: nat, l: Limits)
    requires Within(p, bound, l) && !l.constants
    ensures NoConstants(p)
  {
    hide CheckedInsn, SpanEnd, AmlEnd;
    if p.Then? {
      WithinHasNoConstants(p.rest, Bump(p.insn, bound), l);
    }
  }

  lemma WithinThen(p: Program, bound: nat, l: Limits)
    requires p.Then? && !p.insn.Load8Store?
    requires CheckedInsn(p.insn) && InsnWithin(p.insn, bound, l) && Within(p.rest, bound, l)
    ensures Within(p, bound, l)
  {
    hide CheckedInsn, InsnWithin;
  }

  // Native bytes written by decoding

  lemma {:induction false} WritesWithin(p: Program, acc: nat, bound: nat, l: Limits, d: Desc, k: nat)
    requires Within(p, bound, l) && acc <= bound && WritesLater(p, acc, d, k)
    ensures k < l.native
    decreases p
  {
    hide CheckedInsn, Writes, After, Skipped, SpanEnd, AmlEnd;
    if !Ends(p) {
      if Writes(p.insn, acc, d, k) {
        WritesInSpan(p.insn, acc, bound, d, k);
      } else {
        var loaded := Loaded(p.insn, d.bytes, false);
        AccBumps(p, acc, bound, d);
        AfterDrops(p, acc, d.size, loaded);
        var (next, acc') := After(p, acc, d.size, loaded);
        var count := Skipped(p, acc, d.size);
        WithinOn(p.rest, Bump(p.insn, bound), l, count);
        WritesWithin(next, acc', BoundAfter(p.rest, Bump(p.insn, bound), count), l, d, k);
      }
    }
  }

  // AML bytes read by decoding

  predicate ReadBy(insn: Insn, acc: nat, d: Desc, k: nat) {
    match insn
    case PackedArray(aml, _, _, bytes) => aml <= k < aml + if bytes == 2 then 2 else 1
    case BitField(aml, _, _, _) => k == aml
    case Field(aml, _, _, _) => aml <= k < aml + FieldCount(insn, acc)
    case Load8Store(aml, _, _) => k == aml
    case ResourceSource => SourceAt(d, acc).present && d.base + acc <= k <= d.base + acc + |SourceAt(d, acc).text|
    case _ => false
  }

  predicate ReadsLater(p: Program, acc: nat, d: Desc, k: nat)
    decreases p
  {
    !Ends(p) &&
    (ReadBy(p.insn, acc, d, k) ||
     var (next, acc') := After(p, acc, d.size, Loaded(p.insn, d.bytes, false));
     ReadsLater(next, acc', d, k))
  }

  lemma ReadsStep(p: Program, acc: nat, d: Desc, k: nat)
    requires p.Then?
    ensures Ends(p) ==> !ReadsLater(p, acc, d, k)
    ensures !Ends(p) ==> (ReadsLater(p, acc, d, k) <==>
                          ReadBy(p.insn, acc, d, k) ||
                          ReadsLater(Drop(p.rest, Skipped(p, acc, d.size)), AccAfter(p.insn, acc, d), d, k))
    ensures !IsSkip(p.insn) ==> Drop(p.rest, Skipped(p, acc, d.size)) == p.rest
  {
    hide ReadBy;
  }

  lemma AmlEndCovers(insn: Insn, acc: nat, bound: nat)
    requires insn.Field? && acc <= bound
    ensures insn.aml + FieldCount(insn, acc) <= AmlEnd(insn, bound)
  {
  }

  lemma ReadWithin(insn: Insn, acc: nat, bound: nat, l: Limits, d: Desc, k: nat)
    requires InsnWithin(insn, bound, l) && acc <= bound && ReadBy(insn, acc, d, k)
    ensures k < l.aml || k < d.size + d.header
  {
    hide TextAt, FieldCount, AmlEnd;
    if insn.Field? {
      AmlEndCovers(insn, acc, bound);
    } else {
      SimpleEnd(insn, bound);
    }
  }

  lemma SimpleEnd(insn: Insn, bound: nat)
    requires insn.BitField? || insn.SetToImm? || insn.Load8Store? || insn.ResourceSource? || insn.End?
             || IsSkip(insn) || insn.PackedArray?
    ensures insn.BitField? || insn.SetToImm? || insn.Load8Store? ==> AmlEnd(insn, bound) == insn.aml + 1
  {
  }

  lemma {:induction false} ReadsWithin(p: Program, acc: nat, bound: nat, l: Limits, d: Desc, k: nat)
    requires Within(p, bound, l) && acc <= bound && ReadsLater(p, acc, d, k)
    ensures k < l.aml || k < d.size + d.header
    decreases p
  {
    hide CheckedInsn, ReadBy, After, Skipped, InsnWithin;
    if !Ends(p) {
      if ReadBy(p.insn, acc, d, k) {
        ReadWithin(p.insn, acc, bound, l, d, k);
      } else {
        var loaded := Loaded(p.insn, d.bytes, false);
        AccBumps(p, acc, bound, d);
        AfterDrops(p, acc, d.size, loaded);
        var (next, acc') := After(p, acc, d.size, loaded);
        var count := Skipped(p, acc, d.size);
        WithinOn(p.rest, Bump(p.insn, bound), l, count);
        ReadsWithin(next, acc', BoundAfter(p.rest, Bump(p.insn, bound), count), l, d, k);
      }
    }
  }

  // AML bytes written by encoding

  predicate AmlWrittenBy(insn: Insn, acc: nat, base: nat, n: Native, k: nat) {
    match insn
    case PackedArray(aml, _, _, bytes) => aml <= k < aml + if bytes == 2 then 2 else 1
    case BitField(aml, _, _, _) => k == aml
    case Field(aml, _, _, _) => aml <= k < aml + FieldCount(insn, acc)
    case SetToImm(aml, _, _) => k == aml
    case Load8Store(aml, _, _) => k == aml
    case ResourceSource => base + acc <= k < base + acc + |n.source.text| + if n.source.present then 1 else 0
    case _ => false
  }

  predicate AmlWritesLater(p: Program, acc: nat, size: nat, base: nat, n: Native, k: nat)
    decreases p
  {
    !Ends(p) &&
    (AmlWrittenBy(p.insn, acc, base, n, k) ||
     var (next, acc') := After(p, acc, size, Loaded(p.insn, n.bytes, true));
     AmlWritesLater(next, acc', size, base, n, k))
  }

  lemma AmlStepLeaves(insn: Insn, acc: nat, base: nat, n: Native, out: Buffer, k: nat)
    requires !AmlWrittenBy(insn, acc, base, n, k)
    ensures StepToAml(insn, acc, base, n, out)(k) == out(k)
  {
    hide FieldCount, Or, Shl, Rebuilt, Taken, LowByte, HighByte, ToNat, ToByte;
  }

  /** Encoding leaves all bytes alone that no instruction of the run writes. */
  lemma {:induction false} AmlLeavesRest(p: Program, acc: nat, size: nat, base: nat, n: Native, out: Buffer, k: nat)
    requires !AmlWritesLater(p, acc, size, base, n, k)
    ensures ToAml(p, acc, size, base, n, out)(k) == out(k)
    decreases p
  {
    hide AmlWrittenBy, StepToAml;
    if !Ends(p) {
      var (next, acc') := After(p, acc, size, Loaded(p.insn, n.bytes, true));
      AmlStepLeaves(p.insn, acc, base, n, out, k);
      AmlLeavesRest(next, acc', size, base, n, StepToAml(p.insn, acc, base, n, out), k);
    }
  }

  lemma NativeAccBumps(p: Program, acc: nat, bound: nat, size: nat, n: Native)
    requires p.Then? && acc <= bound && CheckedInsn(p.insn)
    ensures After(p, acc, size, Loaded(p.insn, n.bytes, true)).1 <= Bump(p.insn, bound)
  {
    if p.insn.Load8Store? {
      ScaledAtMost(Loaded(p.insn, n.bytes, true), 255, p.insn.imm);
      ScaledAtMost(p.insn.imm, 4, 255);
    }
  }

  lemma AmlWrittenWithin(insn: Insn, acc: nat, bound: nat, l: Limits, base: nat, n: Native, k: nat)
    requires InsnWithin(insn, bound, l) && acc <= bound && !insn.ResourceSource? && AmlWrittenBy(insn, acc, base, n, k)
    ensures k < l.aml
  {
    hide FieldCount, AmlEnd;
    if insn.Field? {
      AmlEndCovers(insn, acc, bound);
    } else {
      SimpleEnd(insn, bound);
    }
  }

  lemma {:induction false} AmlWritesWithin(p: Program, acc: nat, bound: nat, l: Limits, size: nat, base: nat,
                                           n: Native, k: nat)
    requires Within(p, bound, l) && acc <= bound && !SourceLater(p) && AmlWritesLater(p, acc, size, base, n, k)
    ensures k < l.aml
    decreases p
  {
    hide CheckedInsn, AmlWrittenBy, After, Skipped, InsnWithin;
    if !Ends(p) {
      if AmlWrittenBy(p.insn, acc, base, n, k) {
        AmlWrittenWithin(p.insn, acc, bound, l, base, n, k);
      } else {
        var loaded := Loaded(p.insn, n.bytes, true);
        NativeAccBumps(p, acc, bound, size, n);
        AfterDrops(p, acc, size, loaded);
        var (next, acc') := After(p, acc, size, loaded);
        var count := Skipped(p, acc, size);
        WithinOn(p.rest, Bump(p.insn, bound), l, count);
        DropsSource(p.rest, count);
        AmlWritesWithin(next, acc', BoundAfter(p.rest, Bump(p.insn, bound), count), l, size, base, n, k);
      }
    }
  }

  function NativeAcc(insn: Insn, acc: nat, n: Native): nat {
    match insn
    case Field(_, _, _, _) => 0
    case Load8Store(_, native, imm) => ToNat(n.bytes(native)) * if imm == 0 then 1 else imm
    case _ => acc
  }

  lemma AmlWritesStep(p: Program, acc: nat, size: nat, base: nat, n: Native, k: nat)
    requires p.Then? && !IsSkip(p.insn)
    ensures Ends(p) ==> !AmlWritesLater(p, acc, size, base, n, k)
    ensures !Ends(p) ==> (AmlWritesLater(p, acc, size, base, n, k) <==>
                          AmlWrittenBy(p.insn, acc, base, n, k) ||
                          AmlWritesLater(p.rest, NativeAcc(p.insn, acc, n), size, base, n, k))
  {
    hide AmlWrittenBy;
  }

  // The tables

  const DMA_REST := Limits(4, 3, false)
  const IO := Limits(8, 8, false)
  const FIXED_IO := Limits(4, 4, false)
  const FIXED_DMA := Limits(6, 6, false)
  const MEMORY24 := Limits(10, 12, false)
  const MEMORY32 := Limits(20, 20, false)
  const FIXED_MEMORY32 := Limits(12, 12, false)
  const REGISTER := Limits(16, 15, false)
  const IRQ_REST := Limits(6, 4, true)
  const START := Limits(3, 2, true)
  const EXTENDED_ADDRESS := Limits(64, 56, false)

  lemma DmaWithin()
    ensures Dma().Then? && Dma().insn == PackedArray(1, 4, 3, 1) && Within(Dma().rest, 0, DMA_REST)
  {
  }

  lemma ThreeWithin(a: Insn, b: Insn, c: Insn, rest: Program, l: Limits)
    requires Plain(a) && Plain(b) && Plain(c) && CheckedInsn(a) && CheckedInsn(b) && CheckedInsn(c)
    requires InsnWithin(a, 0, l) && InsnWithin(b, 0, l) && InsnWithin(c, 0, l) && Within(rest, 0, l)
    ensures Within(Then(a, Then(b, Then(c, rest))), 0, l)
  {
    hide Within, InsnWithin, CheckedInsn;
    WithinThen(Then(c, rest), 0, l);
    WithinThen(Then(b, Then(c, rest)), 0, l);
    WithinThen(Then(a, Then(b, Then(c, rest))), 0, l);
  }

  lemma IoWithin()
    ensures Within(Io(), 0, IO)
  {
    hide Within, IoBytes, InsnWithin, CheckedInsn;
    IoBytesWithin();
    IoHeadWithin();
    ThreeWithin(BitField(1, 0, 1, 0), Field(2, 2, 2, 0), Field(4, 4, 2, 0), IoBytes(), IO);
  }

  lemma IoBytesWithin()
    ensures Within(IoBytes(), 0, IO)
  {
  }

  lemma IoHeadWithin()
    ensures CheckedInsn(BitField(1, 0, 1, 0)) && InsnWithin(BitField(1, 0, 1, 0), 0, IO)
    ensures CheckedInsn(Field(2, 2, 2, 0)) && InsnWithin(Field(2, 2, 2, 0), 0, IO)
    ensures CheckedInsn(Field(4, 4, 2, 0)) && InsnWithin(Field(4, 4, 2, 0), 0, IO)
  {
  }

  lemma FixedWithin()
    ensures Within(FixedIo(), 0, FIXED_IO) && Within(FixedDma(), 0, FIXED_DMA)
  {
  }

  lemma MemoryWithin()
    ensures Within(Memory24(), 0, MEMORY24) && Within(Memory32(), 0, MEMORY32)
  {
  }

  lemma RegisterWithin()
    ensures Within(FixedMemory32(), 0, FIXED_MEMORY32) && Within(GenericRegister(), 0, REGISTER)
  {
  }

  lemma IrqWithin()
    ensures IrqToNative().Then? && IrqToNative().insn == PackedArray(1, 6, 5, 2)
    ensures Within(IrqToNative().rest, 0, IRQ_REST)
  {
    hide Within, IrqFull;
    EndWithin(IRQ_REST);
    ConstantsWithin(LENGTH_ONE_LESS, TRIGGERING_EDGE, Then(End, Stop), IRQ_REST);
    IrqFullWithin(IrqShort());
    WithinThen(IrqToNative().rest, 0, IRQ_REST);
  }

  lemma ConstantsWithin(first: nat, second: nat, rest: Program, l: Limits)
    requires Within(rest, 0, l) && l.constants && l.native >= 2 && l.aml >= 1
    ensures Within(Then(SetToImm(0, 0, first), Then(SetToImm(0, 1, second), rest)), 0, l)
  {
    hide Within;
    ConstantWithin(SetToImm(0, 1, second), rest, l);
    ConstantWithin(SetToImm(0, 0, first), Then(SetToImm(0, 1, second), rest), l);
  }

  lemma EndWithin(l: Limits)
    ensures Within(Then(End, Stop), 0, l)
  {
  }

  lemma ConstantWithin(insn: Insn, rest: Program, l: Limits)
    requires insn.SetToImm? && insn.native < l.native && insn.aml < l.aml && l.constants && Within(rest, 0, l)
    ensures Within(Then(insn, rest), 0, l)
  {
  }

  lemma IrqFullWithin(rest: Program)
    requires Within(rest, 0, IRQ_REST)
    ensures Within(IrqFull(rest), 0, IRQ_REST)
  {
    hide Within;
    var p := IrqFull(rest);
    WithinThen(p.rest.rest.rest.rest.rest, 0, IRQ_REST);
    WithinThen(p.rest.rest.rest.rest, 0, IRQ_REST);
    WithinThen(p.rest.rest.rest, 0, IRQ_REST);
    WithinThen(p.rest.rest, 0, IRQ_REST);
    WithinThen(p.rest, 0, IRQ_REST);
    WithinThen(p, 0, IRQ_REST);
  }

  lemma IrqToAmlWithin()
    ensures IrqToAml().Then? && IrqToAml().insn == PackedArray(1, 6, 5, 2)
    ensures Within(IrqToAml().rest, 0, Limits(6, 4, false)) && !SourceLater(IrqToAml().rest)
  {
  }

  lemma StartWithin()
    ensures Within(StartToNative(), 0, START)
  {
    hide Within;
    EndWithin(START);
    ConstantWithin(SetToImm(0, 2, ACCEPTABLE), Then(End, Stop), START);
    ConstantsWithin(LENGTH_ONE_LESS, ACCEPTABLE, Then(SetToImm(0, 2, ACCEPTABLE), Then(End, Stop)), START);
    var p := StartToNative();
    WithinThen(p.rest.rest.rest.rest, 0, START);
    WithinThen(p.rest.rest.rest, 0, START);
    WithinThen(p.rest.rest, 0, START);
    WithinThen(p.rest, 0, START);
    WithinThen(p, 0, START);
  }

  lemma StartToAmlWithin()
    ensures Within(StartToAml(), 0, Limits(3, 2, false)) && !SourceLater(StartToAml())
  {
  }

  predicate RoomForFlags(l: Limits) { l.native >= 9 && l.aml >= 6 }

  lemma OtherFlagsWithin(l: Limits)
    requires RoomForFlags(l)
    ensures Within(OtherFlags(), MAX_LOAD, l)
  {
  }

  lemma IoFlagsWithin(other: Program, l: Limits)
    requires RoomForFlags(l) && Within(other, MAX_LOAD, l)
    ensures Within(IoFlagsOr(other), MAX_LOAD, l)
  {
    hide Within;
    var p := IoFlagsOr(other);
    WithinThen(p.rest.rest.rest.rest, MAX_LOAD, l);
    WithinThen(p.rest.rest.rest, MAX_LOAD, l);
    WithinThen(p.rest.rest, MAX_LOAD, l);
    WithinThen(p.rest, MAX_LOAD, l);
    WithinThen(p, MAX_LOAD, l);
  }

  lemma MemoryFlagsWithin(other: Program, l: Limits)
    requires RoomForFlags(l) && Within(other, MAX_LOAD, l)
    ensures Within(MemoryFlagsOr(other), MAX_LOAD, l)
  {
    hide Within;
    var q := MemoryFlagsOr(other);
    WithinThen(q.rest.rest.rest.rest.rest, MAX_LOAD, l);
    WithinThen(q.rest.rest.rest.rest, MAX_LOAD, l);
    WithinThen(q.rest.rest.rest, MAX_LOAD, l);
    WithinThen(q.rest.rest, MAX_LOAD, l);
    WithinThen(q.rest, MAX_LOAD, l);
    WithinThen(q, MAX_LOAD, l);
  }

  lemma LoadWithin(rest: Program, l: Limits)
    requires RoomForFlags(l) && Within(rest, MAX_LOAD, l)
    ensures Within(Then(Load8Store(3, 4, 0), rest), 0, l)
  {
  }

  lemma TypeFlagsWithin(l: Limits)
    requires RoomForFlags(l)
    ensures Within(TypeFlags(), 0, l)
  {
    hide Within, OtherFlags, IoFlagsOr, MemoryFlagsOr, RoomForFlags;
    OtherFlagsWithin(l);
    IoFlagsWithin(OtherFlags(), l);
    MemoryFlagsWithin(IoFlags(), l);
    LoadWithin(MemoryFlags(), l);
  }

  lemma GeneralFlagsWithin(rest: Program, l: Limits)
    requires RoomForFlags(l) && Within(rest, 0, l)
    ensures Within(GeneralFlags(rest), 0, l)
  {
    hide Within;
    var p := GeneralFlags(rest);
    WithinThen(p.rest.rest.rest, 0, l);
    WithinThen(p.rest.rest, 0, l);
    WithinThen(p.rest, 0, l);
    WithinThen(p, 0, l);
  }

  lemma FieldWithin(insn: Insn, l: Limits)
    requires insn.Field? && 0 < insn.imm < 0xFF
    requires insn.native + Scaled(insn.bytes, insn.imm) <= l.native && insn.aml + Scaled(insn.bytes, insn.imm) <= l.aml
    ensures InsnWithin(insn, 0, l)
  {
  }

  lemma AddressWithin(native: nat, width: nat, l: Limits)
    requires RoomForFlags(l) && width in {2, 4, 8} && native + 5 * width <= l.native && 6 + 5 * width <= l.aml
    ensures Within(Address(native, width), 0, l)
  {
    hide Within, GeneralFlags, TypeFlags;
    TypeFlagsWithin(l);
    var source := Then(ResourceSource, TypeFlags());
    WithinThen(source, 0, l);
    FieldWithin(Field(6, native, width, 5), l);
    WithinThen(Then(Field(6, native, width, 5), source), 0, l);
    GeneralFlagsWithin(Then(Field(6, native, width, 5), source), l);
  }

  lemma ExtendedAddressWithin()
    ensures Within(Address64Extended(), 0, EXTENDED_ADDRESS)
  {
    hide Within, GeneralFlags, TypeFlags;
    var l := EXTENDED_ADDRESS;
    TypeFlagsWithin(l);
    var wide := Then(Field(8, 16, 8, 6), TypeFlags());
    FieldWithin(Field(8, 16, 8, 6), l);
    WithinThen(wide, 0, l);
    WithinThen(Then(Field(6, 9, 1, 0), wide), 0, l);
    GeneralFlagsWithin(Then(Field(6, 9, 1, 0), wide), l);
  }

  lemma IrqNumbersHaveNoConstants()
    ensures NoConstants(IrqNumbers())
  {
  }

  lemma IrqFlagsHaveNoConstants(rest: Program)
    requires NoConstants(rest)
    ensures NoConstants(IrqFlags(rest))
  {
    assert NoConstants(IrqFlags(rest).rest.rest.rest);
  }

  // Tables without a resource source

  lemma OtherSourceless()
    ensures !SourceLater(OtherFlags())
  {
  }

  lemma TypeFlagsSourceless()
    ensures !SourceLater(TypeFlags())
  {
    hide OtherFlags;
    OtherSourceless();
    IoSourceless(OtherFlags());
    hide IoFlagsOr;
    MemorySourceless(IoFlagsOr(OtherFlags()));
    hide MemoryFlagsOr;
  }

  lemma IoSourceless(other: Program)
    requires !SourceLater(other)
    ensures !SourceLater(IoFlagsOr(other))
  {
    hide SourceLater;
    var p := IoFlagsOr(other);
    MoreSourceless(p.rest.rest.rest.rest);
    MoreSourceless(p.rest.rest.rest);
    MoreSourceless(p.rest.rest);
    MoreSourceless(p.rest);
    MoreSourceless(p);
  }

  lemma MoreSourceless(p: Program)
    requires p.Then? && !p.insn.ResourceSource? && !SourceLater(p.rest)
    ensures !SourceLater(p)
  {
  }

  lemma MemorySourceless(other: Program)
    requires !SourceLater(other)
    ensures !SourceLater(MemoryFlagsOr(other))
  {
    hide SourceLater;
    var p := MemoryFlagsOr(other);
    MoreSourceless(p.rest.rest.rest.rest.rest);
    MoreSourceless(p.rest.rest.rest.rest);
    MoreSourceless(p.rest.rest.rest);
    MoreSourceless(p.rest.rest);
    MoreSourceless(p.rest);
    MoreSourceless(p);
  }

  lemma SmallSourceless()
    ensures !SourceLater(Dma()) && !SourceLater(Io()) && !SourceLater(FixedIo()) && !SourceLater(FixedDma())
  {
  }

  lemma LargeSourceless()
    ensures !SourceLater(Memory24()) && !SourceLater(Memory32()) && !SourceLater(FixedMemory32())
    ensures !SourceLater(GenericRegister()) && !SourceLater(Stop)
  {
  }

  lemma IrqSourceless()
    ensures !SourceLater(IrqToNative()) && !SourceLater(IrqToAml())
  {
  }

  lemma StartSourceless()
    ensures !SourceLater(StartToNative()) && !SourceLater(StartToAml())
  {
  }

  lemma ExtendedSourceless()
    ensures !SourceLater(Address64Extended())
  {
    hide TypeFlags;
    TypeFlagsSourceless();
    var p := Address64Extended().rest.rest.rest;
    assert !SourceLater(p.rest);
    assert !SourceLater(p);
  }
}

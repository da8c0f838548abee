/** The instruction tables of src/kern/acpi/resources.c for the descriptors whose layout
    does not depend on stored offsets, with the offsets of include/uacpi/acpi.h and
    include/uacpi/resources.h (64-bit pointers), and the bits of each descriptor that
    survive decoding and encoding. Byte 0 is the first byte of the header. */
module ResourceTables {
  import opened Bits
  import opened ResourceCodec

  // Tables used in both directions

  function Dma(): Program {
    Then(PackedArray(1, 4, 3, 1),
    Then(BitField(2, 0, 2, 0),
    Then(BitField(2, 1, 1, 2),
    Then(BitField(2, 2, 2, 5),
    Then(End, Stop)))))
  }

  function Io(): Program {
    Then(BitField(1, 0, 1, 0),
    Then(Field(2, 2, 2, 0),
    Then(Field(4, 4, 2, 0), IoBytes())))
  }

  function IoBytes(): Program {
    Then(Field(6, 6, 1, 0),
    Then(Field(7, 7, 1, 0),
    Then(End, Stop)))
  }

  function FixedIo(): Program {
    Then(Field(1, 0, 2, 0),
    Then(Field(3, 2, 1, 0),
    Then(End, Stop)))
  }

  function FixedDma(): Program {
    Then(Field(1, 0, 2, 0),
    Then(Field(3, 2, 2, 0),
    Then(Field(5, 4, 1, 0),
    Then(End, Stop))))
  }

  function Memory24(): Program {
    Then(BitField(3, 0, 1, 0),
    Then(Field(4, 2, 2, 4),
    Then(End, Stop)))
  }

  function Memory32(): Program {
    Then(BitField(3, 0, 1, 0),
    Then(Field(4, 4, 4, 4),
    Then(End, Stop)))
  }

  function FixedMemory32(): Program {
    Then(BitField(3, 0, 1, 0),
    Then(Field(4, 4, 4, 0),
    Then(Field(8, 8, 4, 0),
    Then(End, Stop))))
  }

  function GenericRegister(): Program {
    Then(Field(3, 0, 1, 4),
    Then(Field(7, 8, 8, 0),
    Then(End, Stop)))
  }

  function ExtendedIrq(): Program { IrqFlags(IrqNumbers()) }

  function IrqFlags(rest: Program): Program {
    Then(BitField(3, 0, 1, 0),
    Then(BitField(3, 1, 1, 1),
    Then(BitField(3, 2, 1, 2),
    Then(BitField(3, 3, 1, 3),
    Then(BitField(3, 4, 1, 4), rest)))))
  }

  function IrqNumbers(): Program {
    Then(Load8Store(4, 5, 4),
    Then(ResourceSource,
    Then(Field(5, 24, 1, 0),
    Then(End, Stop))))
  }

  function GeneralFlags(rest: Program): Program {
    Then(BitField(4, 5, 1, 0),
    Then(BitField(4, 6, 1, 1),
    Then(BitField(4, 7, 1, 2),
    Then(BitField(4, 8, 1, 3), rest))))
  }

  /** A range type the table does not know: the whole byte. */
  function OtherFlags(): Program {
    Then(Field(5, 0, 1, 0xFF),
    Then(End, Stop))
  }

  function IoFlags(): Program { IoFlagsOr(OtherFlags()) }

  function IoFlagsOr(other: Program): Program {
    Then(SkipIfNotEquals(1, 4),
    Then(BitField(5, 0, 2, 0),
    Then(BitField(5, 2, 1, 4),
    Then(BitField(5, 1, 1, 5),
    Then(End, other)))))
  }

  function MemoryFlags(): Program { MemoryFlagsOr(IoFlags()) }

  function MemoryFlagsOr(other: Program): Program {
    Then(SkipIfNotEquals(0, 5),
    Then(BitField(5, 0, 1, 0),
    Then(BitField(5, 1, 2, 1),
    Then(BitField(5, 2, 2, 3),
    Then(BitField(5, 3, 1, 5),
    Then(End, other))))))
  }

  function TypeFlags(): Program { Then(Load8Store(3, 4, 0), MemoryFlags()) }

  /** The 16, 32 and 64-bit address descriptors: five numbers of that width, which start
      at this offset of the native structure. */
  function Address(native: nat, width: nat): Program {
    GeneralFlags(Then(Field(6, native, width, 5), Then(ResourceSource, TypeFlags())))
  }

  function Address16(): Program { Address(10, 2) }

  function Address32(): Program { Address(12, 4) }

  function Address64(): Program { Address(16, 8) }

  function Address64Extended(): Program {
    GeneralFlags(Then(Field(6, 9, 1, 0), Then(Field(8, 16, 8, 6), TypeFlags())))
  }

  // Tables that differ by direction

  function IrqToNative(): Program {
    Then(PackedArray(1, 6, 5, 2),
    Then(SkipIfSizeLess(3, 6), IrqFull(IrqShort())))
  }

  function IrqFull(rest: Program): Program {
    Then(SetToImm(0, 0, LENGTH_FULL),
    Then(BitField(3, 1, 1, 0),
    Then(BitField(3, 2, 1, 3),
    Then(BitField(3, 3, 1, 4),
    Then(BitField(3, 4, 1, 5),
    Then(End, rest))))))
  }

  function IrqShort(): Program {
    Then(SetToImm(0, 0, LENGTH_ONE_LESS),
    Then(SetToImm(0, 1, TRIGGERING_EDGE),
    Then(End, Stop)))
  }

  function IrqToAml(): Program {
    Then(PackedArray(1, 6, 5, 2),
    Then(SkipIfSizeLess(3, 4), IrqFlagBits()))
  }

  function IrqFlagBits(): Program {
    Then(BitField(3, 1, 1, 0),
    Then(BitField(3, 2, 1, 3),
    Then(BitField(3, 3, 1, 4),
    Then(BitField(3, 4, 1, 5),
    Then(End, Stop)))))
  }

  function StartToNative(): Program {
    Then(SkipIfSizeLess(1, 4),
    Then(SetToImm(0, 0, LENGTH_FULL),
    Then(BitField(1, 1, 2, 0),
    Then(BitField(1, 2, 2, 2),
    Then(End, StartShort())))))
  }

  function StartShort(): Program {
    Then(SetToImm(0, 0, LENGTH_ONE_LESS),
    Then(SetToImm(0, 1, ACCEPTABLE),
    Then(SetToImm(0, 2, ACCEPTABLE),
    Then(End, Stop))))
  }

  /** Without the priority byte only one of the two instructions is skipped. */
  function StartToAml(): Program {
    Then(SkipIfSizeLess(1, 1),
    Then(BitField(1, 1, 2, 0),
    Then(BitField(1, 2, 2, 2),
    Then(End, Stop))))
  }

  const LENGTH_ANY: nat := 0
  const LENGTH_ONE_LESS: nat := 1
  const LENGTH_FULL: nat := 2
  const TRIGGERING_EDGE: nat := 1
  const ACTIVE_HIGH: nat := 0
  const EXCLUSIVE: nat := 0
  const ACCEPTABLE: nat := 1

  // No table lets one instruction overwrite what another one of the same run wrote

  lemma DmaChecked()
    ensures Checked(Dma(), 0)
  {
  }

  lemma IoChecked()
    ensures Checked(Io(), 0)
  {
    hide SpanEnd, Checked, LaterDisjoint, Disjoint, CheckedInsn;
    IoBytesChecked();
    IoBytesApart(BitField(1, 0, 1, 0));
    IoBytesApart(Field(2, 2, 2, 0));
    IoBytesApart(Field(4, 4, 2, 0));
    IoHeadApart();
    ThreeChecked(BitField(1, 0, 1, 0), Field(2, 2, 2, 0), Field(4, 4, 2, 0), IoBytes());
  }

  lemma ThreeChecked(a: Insn, b: Insn, c: Insn, rest: Program)
    requires Plain(a) && Plain(b) && Plain(c) && CheckedInsn(a) && CheckedInsn(b) && CheckedInsn(c)
    requires Disjoint(a, 0, b, 0) && Disjoint(a, 0, c, 0) && Disjoint(b, 0, c, 0)
    requires LaterDisjoint(a, 0, rest, 0, false) && LaterDisjoint(b, 0, rest, 0, false)
             && LaterDisjoint(c, 0, rest, 0, false)
    requires Checked(rest, 0)
    ensures Checked(Then(a, Then(b, Then(c, rest))), 0)
  {
    hide Checked, LaterDisjoint, Disjoint, CheckedInsn;
    ApartThen(a, 0, c, rest, 0, false);
    ApartThen(b, 0, c, rest, 0, false);
    ApartThen(a, 0, b, Then(c, rest), 0, false);
    CheckedThen(c, rest, 0);
    CheckedThen(b, Then(c, rest), 0);
    CheckedThen(a, Then(b, Then(c, rest)), 0);
  }

  lemma IoHeadApart()
    ensures CheckedInsn(BitField(1, 0, 1, 0)) && CheckedInsn(Field(2, 2, 2, 0)) && CheckedInsn(Field(4, 4, 2, 0))
    ensures Disjoint(BitField(1, 0, 1, 0), 0, Field(2, 2, 2, 0), 0)
    ensures Disjoint(BitField(1, 0, 1, 0), 0, Field(4, 4, 2, 0), 0)
    ensures Disjoint(Field(2, 2, 2, 0), 0, Field(4, 4, 2, 0), 0)
  {
  }

  predicate Plain(insn: Insn) { HasSpan(insn) && !insn.Load8Store? }

  /** One more plain instruction in front of a checked table. */
  lemma CheckedThen(insn: Insn, rest: Program, bound: nat)
    requires Plain(insn) && CheckedInsn(insn) && LaterDisjoint(insn, bound, rest, bound, false) && Checked(rest, bound)
    ensures Checked(Then(insn, rest), bound)
  {
    hide LaterDisjoint, CheckedInsn;
  }

  lemma ApartThen(insn: Insn, bound: nat, next: Insn, rest: Program, later: nat, skipped: bool)
    requires Plain(next) && Disjoint(insn, bound, next, later) && LaterDisjoint(insn, bound, rest, later, skipped)
    ensures LaterDisjoint(insn, bound, Then(next, rest), later, skipped)
  {
    hide Disjoint;
  }

  /** Nothing before an end reaches past it, unless it skips. */
  lemma CheckedEnd(rest: Program, bound: nat)
    requires Checked(rest, bound)
    ensures Checked(Then(End, rest), bound)
    ensures forall insn: Insn, early: nat, later: nat :: LaterDisjoint(insn, early, Then(End, rest), later, false)
  {
    hide Disjoint;
  }

  lemma ApartEnd(insn: Insn, bound: nat, rest: Program, later: nat)
    requires LaterDisjoint(insn, bound, rest, later, true)
    ensures forall skipped :: LaterDisjoint(insn, bound, Then(End, rest), later, skipped)
  {
  }

  lemma SkipThen(skip: Insn, rest: Program, bound: nat)
    requires IsSkip(skip)
    ensures Checked(rest, bound) ==> Checked(Then(skip, rest), bound)
    ensures forall insn: Insn, early: nat, skipped: bool | LaterDisjoint(insn, early, rest, bound, true) ::
              LaterDisjoint(insn, early, Then(skip, rest), bound, skipped)
  {
  }

  lemma IoBytesChecked()
    ensures Checked(IoBytes(), 0)
  {
  }

  lemma IoBytesApart(insn: Insn)
    requires (insn.BitField? && insn.native < 6)
             || (insn.Field? && insn.imm == 0 && insn.bytes == 2 && insn.native <= 4)
    ensures LaterDisjoint(insn, 0, IoBytes(), 0, false)
  {
  }

  lemma FixedTablesChecked()
    ensures Checked(FixedIo(), 0) && Checked(FixedDma(), 0)
  {
  }

  lemma MemoryTablesChecked()
    ensures Checked(Memory24(), 0) && Checked(Memory32(), 0) && Checked(FixedMemory32(), 0)
            && Checked(GenericRegister(), 0)
  {
  }

  lemma ExtendedIrqChecked()
    ensures Checked(ExtendedIrq(), 0)
  {
    hide IrqNumbers, IrqFlags;
    IrqNumbersChecked();
    forall native, index | 0 <= native < 5 && 0 <= index < 8
      ensures LaterDisjoint(BitField(3, native, 1, index), 0, IrqNumbers(), 0, false)
    {
      IrqNumbersApart(native, index);
    }
    IrqFlagsChecked(IrqNumbers());
  }

  lemma IrqFlagsChecked(rest: Program)
    requires Checked(rest, 0)
    requires forall native, index | 0 <= native < 5 && 0 <= index < 8 ::
               LaterDisjoint(BitField(3, native, 1, index), 0, rest, 0, false)
    ensures Checked(IrqFlags(rest), 0)
  {
    hide Checked, LaterDisjoint, SpanEnd;
    var p3 := Then(BitField(3, 3, 1, 3), Then(BitField(3, 4, 1, 4), rest));
    TwoBits(3, 3, 4, 3, 4, rest);
    forall native: nat, index: nat | native < 3 && index < 8
      ensures LaterDisjoint(BitField(3, native, 1, index), 0, p3, 0, false)
    {
      BitsApart(3, native, 1, index, 3, 4, 3, 4, rest);
    }
    TwoBits(3, 1, 2, 1, 2, p3);
    BitsApart(3, 0, 1, 0, 1, 2, 1, 2, p3);
    CheckedThen(BitField(3, 0, 1, 0), IrqFlags(rest).rest, 0);
  }

  /** Two flags with native bytes of their own. */
  lemma TwoBits(aml: nat, first: nat, second: nat, i: nat, j: nat, rest: Program)
    requires first != second && i < 8 && j < 8 && Checked(rest, 0)
    requires LaterDisjoint(BitField(aml, first, 1, i), 0, rest, 0, false)
    requires LaterDisjoint(BitField(aml, second, 1, j), 0, rest, 0, false)
    ensures Checked(Then(BitField(aml, first, 1, i), Then(BitField(aml, second, 1, j), rest)), 0)
  {
    hide Checked, LaterDisjoint;
    CheckedThen(BitField(aml, second, 1, j), rest, 0);
    ApartThen(BitField(aml, first, 1, i), 0, BitField(aml, second, 1, j), rest, 0, false);
    CheckedThen(BitField(aml, first, 1, i), Then(BitField(aml, second, 1, j), rest), 0);
  }

  lemma BitsApart(aml: nat, native: nat, width: nat, index: nat, first: nat, second: nat, i: nat, j: nat, rest: Program)
    requires native != first && native != second
    requires LaterDisjoint(BitField(aml, native, width, index), 0, rest, 0, false)
    ensures LaterDisjoint(BitField(aml, native, width, index), 0,
                          Then(BitField(aml, first, 1, i), Then(BitField(aml, second, 1, j), rest)), 0, false)
  {
    hide LaterDisjoint;
    var insn := BitField(aml, native, width, index);
    ApartThen(insn, 0, BitField(aml, second, 1, j), rest, 0, false);
    ApartThen(insn, 0, BitField(aml, first, 1, i), Then(BitField(aml, second, 1, j), rest), 0, false);
  }

  lemma IrqNumbersChecked()
    ensures Checked(IrqNumbers(), 0)
  {
  }

  lemma IrqNumbersApart(native: nat, index: nat)
    requires native < 5
    ensures LaterDisjoint(BitField(3, native, 1, index), 0, IrqNumbers(), 0, false)
  {
  }

  lemma TypeFlagsChecked()
    ensures Checked(TypeFlags(), 0)
  {
    hide MemoryFlags;
    MemoryFlagsChecked();
    MemoryFlagsApart(Load8Store(3, 4, 0), 0, false);
  }

  lemma IoFlagsChecked(other: Program)
    requires Checked(other, MAX_LOAD)
    ensures Checked(IoFlagsOr(other), MAX_LOAD)
  {
    hide Checked, LaterDisjoint;
    CheckedEnd(other, MAX_LOAD);
    var p := Then(End, other);
    CheckedThen(BitField(5, 1, 1, 5), p, MAX_LOAD);
    ApartThen(BitField(5, 2, 1, 4), MAX_LOAD, BitField(5, 1, 1, 5), p, MAX_LOAD, false);
    CheckedThen(BitField(5, 2, 1, 4), Then(BitField(5, 1, 1, 5), p), MAX_LOAD);
    ApartThen(BitField(5, 0, 2, 0), MAX_LOAD, BitField(5, 1, 1, 5), p, MAX_LOAD, false);
    ApartThen(BitField(5, 0, 2, 0), MAX_LOAD, BitField(5, 2, 1, 4), Then(BitField(5, 1, 1, 5), p), MAX_LOAD, false);
    CheckedThen(BitField(5, 0, 2, 0), Then(BitField(5, 2, 1, 4), Then(BitField(5, 1, 1, 5), p)), MAX_LOAD);
    SkipThen(SkipIfNotEquals(1, 4), IoFlagsOr(other).rest, MAX_LOAD);
  }

  lemma MemoryFlagsOrChecked(other: Program)
    requires Checked(other, MAX_LOAD)
    ensures Checked(MemoryFlagsOr(other), MAX_LOAD)
  {
    hide Checked, LaterDisjoint;
    var b0, b1, b2, b3 := BitField(5, 0, 1, 0), BitField(5, 1, 2, 1), BitField(5, 2, 2, 3), BitField(5, 3, 1, 5);
    CheckedEnd(other, MAX_LOAD);
    var p4 := Then(End, other);
    var p3 := Then(b3, p4);
    var p2 := Then(b2, p3);
    var p1 := Then(b1, p2);
    CheckedThen(b3, p4, MAX_LOAD);
    ApartThen(b2, MAX_LOAD, b3, p4, MAX_LOAD, false);
    CheckedThen(b2, p3, MAX_LOAD);
    ApartThen(b1, MAX_LOAD, b3, p4, MAX_LOAD, false);
    ApartThen(b1, MAX_LOAD, b2, p3, MAX_LOAD, false);
    CheckedThen(b1, p2, MAX_LOAD);
    ApartThen(b0, MAX_LOAD, b3, p4, MAX_LOAD, false);
    ApartThen(b0, MAX_LOAD, b2, p3, MAX_LOAD, false);
    ApartThen(b0, MAX_LOAD, b1, p2, MAX_LOAD, false);
    CheckedThen(b0, p1, MAX_LOAD);
    SkipThen(SkipIfNotEquals(0, 5), Then(b0, p1), MAX_LOAD);
  }

  lemma MemoryFlagsChecked()
    ensures Checked(MemoryFlags(), MAX_LOAD)
  {
    assert Checked(OtherFlags(), MAX_LOAD);
    hide OtherFlags, Checked, IoFlagsOr, MemoryFlagsOr;
    IoFlagsChecked(OtherFlags());
    MemoryFlagsOrChecked(IoFlags());
  }

  /** Instructions whose native bytes are not the type-specific flags. */
  predicate AboveFlags(insn: Insn) {
    insn.ResourceSource? || ((insn.BitField? || insn.Field? || insn.Load8Store?) && insn.native >= 4)
  }

  lemma IoFlagsApart(insn: Insn, bound: nat, other: Program)
    requires AboveFlags(insn) && LaterDisjoint(insn, bound, other, MAX_LOAD, true)
    ensures LaterDisjoint(insn, bound, IoFlagsOr(other), MAX_LOAD, true)
  {
    hide LaterDisjoint;
    var p := Then(End, other);
    ApartEnd(insn, bound, other, MAX_LOAD);
    ApartThen(insn, bound, BitField(5, 1, 1, 5), p, MAX_LOAD, true);
    ApartThen(insn, bound, BitField(5, 2, 1, 4), Then(BitField(5, 1, 1, 5), p), MAX_LOAD, true);
    ApartThen(insn, bound, BitField(5, 0, 2, 0), Then(BitField(5, 2, 1, 4), Then(BitField(5, 1, 1, 5), p)),
              MAX_LOAD, true);
    SkipThen(SkipIfNotEquals(1, 4), IoFlagsOr(other).rest, MAX_LOAD);
  }

  lemma MemoryFlagsOrApart(insn: Insn, bound: nat, other: Program, skipped: bool)
    requires AboveFlags(insn) && LaterDisjoint(insn, bound, other, MAX_LOAD, true)
    ensures LaterDisjoint(insn, bound, MemoryFlagsOr(other), MAX_LOAD, skipped)
  {
    hide LaterDisjoint;
    var p4 := Then(End, other);
    var p3 := Then(BitField(5, 3, 1, 5), p4);
    var p2 := Then(BitField(5, 2, 2, 3), p3);
    var p1 := Then(BitField(5, 1, 2, 1), p2);
    ApartEnd(insn, bound, other, MAX_LOAD);
    ApartThen(insn, bound, BitField(5, 3, 1, 5), p4, MAX_LOAD, true);
    ApartThen(insn, bound, BitField(5, 2, 2, 3), p3, MAX_LOAD, true);
    ApartThen(insn, bound, BitField(5, 1, 2, 1), p2, MAX_LOAD, true);
    ApartThen(insn, bound, BitField(5, 0, 1, 0), p1, MAX_LOAD, true);
    SkipThen(SkipIfNotEquals(0, 5), Then(BitField(5, 0, 1, 0), p1), MAX_LOAD);
  }

  lemma OtherFlagsApart(insn: Insn, bound: nat)
    requires AboveFlags(insn)
    ensures LaterDisjoint(insn, bound, OtherFlags(), MAX_LOAD, true)
  {
  }

  lemma MemoryFlagsApart(insn: Insn, bound: nat, skipped: bool)
    requires AboveFlags(insn)
    ensures LaterDisjoint(insn, bound, MemoryFlags(), MAX_LOAD, skipped)
  {
    hide LaterDisjoint, OtherFlags, IoFlagsOr, MemoryFlagsOr;
    OtherFlagsApart(insn, bound);
    IoFlagsApart(insn, bound, OtherFlags());
    MemoryFlagsOrApart(insn, bound, IoFlags(), skipped);
  }

  lemma LoadApart(insn: Insn, bound: nat, rest: Program, skipped: bool)
    requires AboveFlags(insn) && (insn.ResourceSource? || insn.native >= 5)
    requires LaterDisjoint(insn, bound, rest, MAX_LOAD, skipped)
    ensures LaterDisjoint(insn, bound, Then(Load8Store(3, 4, 0), rest), 0, skipped)
  {
  }

  lemma TypeFlagsApart(insn: Insn, bound: nat, skipped: bool)
    requires AboveFlags(insn) && (insn.ResourceSource? || insn.native >= 5)
    ensures LaterDisjoint(insn, bound, TypeFlags(), 0, skipped)
  {
    hide LaterDisjoint, MemoryFlags;
    MemoryFlagsApart(insn, bound, skipped);
    LoadApart(insn, bound, MemoryFlags(), skipped);
  }

  lemma GeneralFlagsChecked(rest: Program)
    requires Checked(rest, 0)
    requires forall native, index | 5 <= native < 9 && 0 <= index < 8 ::
               LaterDisjoint(BitField(4, native, 1, index), 0, rest, 0, false)
    ensures Checked(GeneralFlags(rest), 0)
  {
    hide Checked, LaterDisjoint, SpanEnd;
    var p := Then(BitField(4, 7, 1, 2), Then(BitField(4, 8, 1, 3), rest));
    TwoBits(4, 7, 8, 2, 3, rest);
    BitsApart(4, 5, 1, 0, 7, 8, 2, 3, rest);
    BitsApart(4, 6, 1, 1, 7, 8, 2, 3, rest);
    TwoBits(4, 5, 6, 0, 1, p);
  }

  lemma AddressChecked(native: nat, width: nat)
    requires native >= 9
    ensures Checked(Address(native, width), 0)
  {
    hide TypeFlags, GeneralFlags;
    var field, source := Field(6, native, width, 5), Then(ResourceSource, TypeFlags());
    TypeFlagsChecked();
    TypeFlagsApart(ResourceSource, 0, true);
    TypeFlagsApart(field, 0, false);
    assert Checked(source, 0);
    assert LaterDisjoint(field, 0, source, 0, false);
    assert Checked(Then(field, source), 0);
    forall at, index | 5 <= at < 9 && 0 <= index < 8
      ensures LaterDisjoint(BitField(4, at, 1, index), 0, Then(field, source), 0, false)
    {
      TypeFlagsApart(BitField(4, at, 1, index), 0, false);
      assert LaterDisjoint(BitField(4, at, 1, index), 0, source, 0, false);
    }
    GeneralFlagsChecked(Then(field, source));
  }

  lemma ExtendedAddressChecked()
    ensures Checked(Address64Extended(), 0)
  {
    hide TypeFlags, GeneralFlags;
    var revision, wide := Field(6, 9, 1, 0), Then(Field(8, 16, 8, 6), TypeFlags());
    TypeFlagsChecked();
    TypeFlagsApart(Field(8, 16, 8, 6), 0, false);
    TypeFlagsApart(revision, 0, false);
    assert Checked(wide, 0);
    assert LaterDisjoint(revision, 0, wide, 0, false);
    assert Checked(Then(revision, wide), 0);
    forall at, index | 5 <= at < 9 && 0 <= index < 8
      ensures LaterDisjoint(BitField(4, at, 1, index), 0, Then(revision, wide), 0, false)
    {
      TypeFlagsApart(BitField(4, at, 1, index), 0, false);
      assert LaterDisjoint(BitField(4, at, 1, index), 0, wide, 0, false);
    }
    GeneralFlagsChecked(Then(revision, wide));
  }

  // Single steps of the covered bits

  lemma Masks()
    ensures Shl(LowMask(1), 0) == 0x01 && Shl(LowMask(1), 1) == 0x02 && Shl(LowMask(1), 2) == 0x04
    ensures Shl(LowMask(1), 3) == 0x08 && Shl(LowMask(1), 4) == 0x10 && Shl(LowMask(1), 5) == 0x20
    ensures Shl(LowMask(2), 0) == 0x03 && Shl(LowMask(2), 1) == 0x06 && Shl(LowMask(2), 2) == 0x0C
    ensures Shl(LowMask(2), 3) == 0x18 && Shl(LowMask(2), 5) == 0x60
  {
  }

  lemma BitStep(p: Program, acc: nat, d: Desc, k: nat, prior: bv8)
    requires p.Then? && p.insn.BitField?
    ensures Cover(p, acc, d, k, prior)
         == Cover(p.rest, acc, d, k, if k == p.insn.aml then Or(prior, Shl(LowMask(p.insn.width), p.insn.index))
                  else prior)
  {
    hide Or, Shl, LowMask;
  }

  lemma FieldStep(p: Program, acc: nat, d: Desc, k: nat, prior: bv8)
    requires p.Then? && p.insn.Field?
    ensures Cover(p, acc, d, k, prior)
         == Cover(p.rest, 0, d, k, if p.insn.aml <= k < p.insn.aml + FieldCount(p.insn, acc) then 0xFF else prior)
  {
    hide FieldCount;
  }

  lemma LoadStep(p: Program, acc: nat, d: Desc, k: nat, prior: bv8)
    requires p.Then? && p.insn.Load8Store?
    ensures Cover(p, acc, d, k, prior)
         == Cover(p.rest, AccAfter(p.insn, acc, d), d, k, if k == p.insn.aml then 0xFF else prior)
  {
    hide AccAfter;
  }

  predicate InSource(d: Desc, acc: nat, k: nat) {
    SourceAt(d, acc).present && d.base + acc <= k <= d.base + acc + |SourceAt(d, acc).text|
  }

  lemma SourceStep(p: Program, acc: nat, d: Desc, k: nat, prior: bv8)
    requires p.Then? && p.insn.ResourceSource?
    ensures Cover(p, acc, d, k, prior) == Cover(p.rest, acc, d, k, if InSource(d, acc, k) then 0xFF else prior)
  {
    hide SourceAt;
  }

  lemma SkipStep(p: Program, acc: nat, d: Desc, k: nat, prior: bv8)
    requires p.Then? && IsSkip(p.insn)
    ensures Cover(p, acc, d, k, prior) == Cover(Drop(p.rest, Skipped(p, acc, d.size)), acc, d, k, prior)
  {
  }

  lemma EndStep(p: Program, acc: nat, d: Desc, k: nat, prior: bv8)
    requires Ends(p)
    ensures Cover(p, acc, d, k, prior) == prior
  {
  }

  lemma DropIs(p: Program, count: nat)
    ensures Drop(p, 0) == p
    ensures count > 0 && p.Then? ==> Drop(p, count) == Drop(p.rest, count - 1)
  {
  }

  // The address descriptors

  lemma CoverOther(acc: nat, d: Desc, k: nat, prior: bv8)
    ensures Cover(OtherFlags(), acc, d, k, prior) == if k == 5 then 0xFF else prior
  {
    hide Cover;
    FieldStep(OtherFlags(), acc, d, k, prior);
    EndStep(OtherFlags().rest, 0, d, k, if k == 5 then 0xFF else prior);
  }

  lemma CoverIo(acc: nat, d: Desc, k: nat)
    ensures Cover(IoFlags(), acc, d, k, 0) == if k != 5 then 0 else if acc == 1 then 0x33 else 0xFF
    ensures k != 5 ==> Cover(IoFlags(), acc, d, k, 0xFF) == 0xFF
  {
    forall prior: bv8 | prior == 0 || (prior == 0xFF && k != 5)
      ensures Cover(IoFlags(), acc, d, k, prior) == if k != 5 then prior else if acc == 1 then 0x33 else 0xFF
    {
      hide Cover, OtherFlags;
      Masks();
      SkipStep(IoFlags(), acc, d, k, prior);
      var p := IoFlags().rest;
      DropIs(p, 4);
      DropIs(p.rest, 3);
      DropIs(p.rest.rest, 2);
      DropIs(p.rest.rest.rest, 1);
      DropIs(p.rest.rest.rest.rest, 0);
      if acc == 1 {
        BitStep(p, acc, d, k, prior);
        BitStep(p.rest, acc, d, k, if k == 5 then 0x03 else prior);
        BitStep(p.rest.rest, acc, d, k, if k == 5 then 0x13 else prior);
        EndStep(p.rest.rest.rest, acc, d, k, if k == 5 then 0x33 else prior);
      } else {
        CoverOther(acc, d, k, prior);
      }
    }
  }

  /** The defined bits of the type-specific flags: memory, IO, any other range type. */
  function TypeMask(rangeType: nat): bv8 {
    if rangeType == 0 then 0x3F else if rangeType == 1 then 0x33 else 0xFF
  }

  lemma CoverMemory(acc: nat, d: Desc, k: nat, prior: bv8)
    requires prior == 0 || (prior == 0xFF && k != 5)
    ensures Cover(MemoryFlags(), acc, d, k, prior) == if k == 5 then TypeMask(acc) else prior
  {
    hide Cover, IoFlags;
    Masks();
    SkipStep(MemoryFlags(), acc, d, k, prior);
    var p := MemoryFlags().rest;
    DropIs(p, 5);
    DropIs(p.rest, 4);
    DropIs(p.rest.rest, 3);
    DropIs(p.rest.rest.rest, 2);
    DropIs(p.rest.rest.rest.rest, 1);
    DropIs(p.rest.rest.rest.rest.rest, 0);
    if acc == 0 {
      BitStep(p, acc, d, k, prior);
      BitStep(p.rest, acc, d, k, if k == 5 then 0x01 else prior);
      BitStep(p.rest.rest, acc, d, k, if k == 5 then 0x07 else prior);
      BitStep(p.rest.rest.rest, acc, d, k, if k == 5 then 0x1F else prior);
      EndStep(p.rest.rest.rest.rest, acc, d, k, if k == 5 then 0x3F else prior);
    } else {
      CoverIo(acc, d, k);
    }
  }

  lemma CoverTypeFlags(d: Desc, k: nat, prior: bv8)
    requires prior == 0 || (prior == 0xFF && k != 5) || k == 4
    ensures k != 4 ==> Cover(TypeFlags(), 0, d, k, prior)
                       == if k == 3 then 0xFF else if k == 5 then TypeMask(ToNat(d.bytes(3))) else prior
    ensures k == 4 ==> Cover(TypeFlags(), 0, d, k, prior) == prior
  {
    hide Cover, MemoryFlags, TypeMask;
    LoadStep(TypeFlags(), 0, d, k, prior);
    var acc := ToNat(d.bytes(3));
    assert AccAfter(Load8Store(3, 4, 0), 0, d) == acc;
    if k == 4 {
      CoverMemoryElsewhere(acc, d, prior);
    } else {
      CoverMemory(acc, d, k, if k == 3 then 0xFF else prior);
    }
  }

  /** The general flags byte is not touched by the type-specific part. */
  lemma CoverMemoryElsewhere(acc: nat, d: Desc, prior: bv8)
    ensures Cover(MemoryFlags(), acc, d, 4, prior) == prior
  {
    hide Cover;
    SkipStep(MemoryFlags(), acc, d, 4, prior);
    var p := MemoryFlags().rest;
    DropIs(p, 5);
    DropIs(p.rest, 4);
    DropIs(p.rest.rest, 3);
    DropIs(p.rest.rest.rest, 2);
    DropIs(p.rest.rest.rest.rest, 1);
    DropIs(p.rest.rest.rest.rest.rest, 0);
    BitStep(p, acc, d, 4, prior);
    BitStep(p.rest, acc, d, 4, prior);
    BitStep(p.rest.rest, acc, d, 4, prior);
    BitStep(p.rest.rest.rest, acc, d, 4, prior);
    EndStep(p.rest.rest.rest.rest, acc, d, 4, prior);
    SkipStep(IoFlags(), acc, d, 4, prior);
    var q := IoFlags().rest;
    DropIs(q, 4);
    DropIs(q.rest, 3);
    DropIs(q.rest.rest, 2);
    DropIs(q.rest.rest.rest, 1);
    DropIs(q.rest.rest.rest.rest, 0);
    BitStep(q, acc, d, 4, prior);
    BitStep(q.rest, acc, d, 4, prior);
    BitStep(q.rest.rest, acc, d, 4, prior);
    EndStep(q.rest.rest.rest, acc, d, 4, prior);
    CoverOther(acc, d, 4, prior);
  }

  lemma CoverGeneral(rest: Program, d: Desc, k: nat, prior: bv8)
    requires prior == 0 || (prior == 0xFF && k != 4)
    ensures Cover(GeneralFlags(rest), 0, d, k, prior) == Cover(rest, 0, d, k, if k == 4 then 0x0F else prior)
  {
    hide Cover;
    Masks();
    var p := GeneralFlags(rest);
    BitStep(p, 0, d, k, prior);
    BitStep(p.rest, 0, d, k, if k == 4 then 0x01 else prior);
    BitStep(p.rest.rest, 0, d, k, if k == 4 then 0x03 else prior);
    BitStep(p.rest.rest.rest, 0, d, k, if k == 4 then 0x07 else prior);
  }

  // The other descriptors; a byte of the header is covered before the run starts

  function Prior(header: nat, k: nat): bv8 { if k < header then 0xFF else 0 }

  lemma CoverDma(d: Desc, k: nat)
    ensures Cover(Dma(), 0, d, k, Prior(1, k)) == if k < 2 then 0xFF else if k == 2 then 0x67 else 0
  {
    Masks();
    var p := Dma();
    var flags: bv8 := if k < 2 then 0xFF else 0;
    assert Cover(p, 0, d, k, Prior(1, k)) == Cover(p.rest, 0, d, k, flags);
    hide Cover;
    BitStep(p.rest, 0, d, k, flags);
    BitStep(p.rest.rest, 0, d, k, if k == 2 then 0x03 else flags);
    BitStep(p.rest.rest.rest, 0, d, k, if k == 2 then 0x07 else flags);
    EndStep(p.rest.rest.rest.rest, 0, d, k, if k == 2 then 0x67 else flags);
  }

  lemma CoverPorts(d: Desc, k: nat)
    ensures Cover(Io(), 0, d, k, Prior(1, k)) == if k == 1 then 0x01 else if k < 8 then 0xFF else 0
  {
    hide Cover, IoBytes;
    Masks();
    var p, prior: bv8 := Io(), Prior(1, k);
    var first: bv8 := if k == 1 then 0x01 else prior;
    var second: bv8 := if k == 1 then 0x01 else if k < 4 then 0xFF else 0;
    BitStep(p, 0, d, k, prior);
    FieldStep(p.rest, 0, d, k, first);
    FieldStep(p.rest.rest, 0, d, k, second);
    CoverPortBytes(d, k, if k == 1 then 0x01 else if k < 6 then 0xFF else 0);
  }

  lemma CoverPortBytes(d: Desc, k: nat, prior: bv8)
    requires 6 <= k ==> prior == 0
    ensures Cover(IoBytes(), 0, d, k, prior) == if k < 6 then prior else if k < 8 then 0xFF else 0
  {
    hide Cover;
    var p := IoBytes();
    FieldStep(p, 0, d, k, prior);
    FieldStep(p.rest, 0, d, k, if k < 6 then prior else if k < 7 then 0xFF else 0);
    EndStep(p.rest.rest, 0, d, k, if k < 6 then prior else if k < 8 then 0xFF else 0);
  }

  lemma CoverFixedIo(d: Desc, k: nat)
    ensures Cover(FixedIo(), 0, d, k, Prior(1, k)) == Prior(4, k)
  {
    hide Cover;
    var p := FixedIo();
    FieldStep(p, 0, d, k, Prior(1, k));
    FieldStep(p.rest, 0, d, k, Prior(3, k));
    EndStep(p.rest.rest, 0, d, k, Prior(4, k));
  }

  lemma CoverFixedDma(d: Desc, k: nat)
    ensures Cover(FixedDma(), 0, d, k, Prior(1, k)) == Prior(6, k)
  {
    hide Cover;
    var p := FixedDma();
    FieldStep(p, 0, d, k, Prior(1, k));
    FieldStep(p.rest, 0, d, k, Prior(3, k));
    FieldStep(p.rest.rest, 0, d, k, Prior(5, k));
    EndStep(p.rest.rest.rest, 0, d, k, Prior(6, k));
  }

  lemma CoverMemory24(d: Desc, k: nat)
    ensures Cover(Memory24(), 0, d, k, Prior(3, k)) == if k == 3 then 0x01 else Prior(12, k)
  {
    hide Cover;
    Masks();
    var p := Memory24();
    BitStep(p, 0, d, k, Prior(3, k));
    FieldStep(p.rest, 0, d, k, if k == 3 then 0x01 else Prior(3, k));
    EndStep(p.rest.rest, 0, d, k, if k == 3 then 0x01 else Prior(12, k));
  }

  lemma CoverMemory32(d: Desc, k: nat)
    ensures Cover(Memory32(), 0, d, k, Prior(3, k)) == if k == 3 then 0x01 else Prior(20, k)
  {
    hide Cover;
    Masks();
    var p := Memory32();
    BitStep(p, 0, d, k, Prior(3, k));
    FieldStep(p.rest, 0, d, k, if k == 3 then 0x01 else Prior(3, k));
    EndStep(p.rest.rest, 0, d, k, if k == 3 then 0x01 else Prior(20, k));
  }

  lemma CoverFixedMemory32(d: Desc, k: nat)
    ensures Cover(FixedMemory32(), 0, d, k, Prior(3, k)) == if k == 3 then 0x01 else Prior(12, k)
  {
    hide Cover;
    Masks();
    var p := FixedMemory32();
    BitStep(p, 0, d, k, Prior(3, k));
    FieldStep(p.rest, 0, d, k, if k == 3 then 0x01 else Prior(3, k));
    FieldStep(p.rest.rest, 0, d, k, if k == 3 then 0x01 else Prior(8, k));
    EndStep(p.rest.rest.rest, 0, d, k, if k == 3 then 0x01 else Prior(12, k));
  }

  lemma CoverRegister(d: Desc, k: nat)
    ensures Cover(GenericRegister(), 0, d, k, Prior(3, k)) == Prior(15, k)
  {
    hide Cover;
    var p := GenericRegister();
    FieldStep(p, 0, d, k, Prior(3, k));
    FieldStep(p.rest, 0, d, k, Prior(7, k));
    EndStep(p.rest.rest, 0, d, k, Prior(15, k));
  }

  lemma CoverIrq(d: Desc, k: nat)
    ensures Cover(IrqToAml(), 0, d, k, Prior(1, k)) == if k == 3 then (if d.size < 3 then 0 else 0x39) else Prior(3, k)
  {
    var p := IrqToAml();
    assert Cover(p, 0, d, k, Prior(1, k)) == Cover(p.rest, 0, d, k, Prior(3, k));
    hide Cover;
    Masks();
    SkipStep(p.rest, 0, d, k, Prior(3, k));
    var q := IrqFlagBits();
    if d.size < 3 {
      DropIs(q, 4);
      DropIs(q.rest, 3);
      DropIs(q.rest.rest, 2);
      DropIs(q.rest.rest.rest, 1);
      DropIs(q.rest.rest.rest.rest, 0);
      EndStep(q.rest.rest.rest.rest, 0, d, k, Prior(3, k));
    } else {
      DropIs(q, 0);
      BitStep(q, 0, d, k, Prior(3, k));
      BitStep(q.rest, 0, d, k, if k == 3 then 0x01 else Prior(3, k));
      BitStep(q.rest.rest, 0, d, k, if k == 3 then 0x09 else Prior(3, k));
      BitStep(q.rest.rest.rest, 0, d, k, if k == 3 then 0x19 else Prior(3, k));
      EndStep(q.rest.rest.rest.rest, 0, d, k, if k == 3 then 0x39 else Prior(3, k));
    }
  }

  lemma CoverStart(d: Desc, k: nat)
    requires d.size >= 1
    ensures Cover(StartToAml(), 0, d, k, Prior(1, k)) == if k == 1 then 0x0F else Prior(1, k)
  {
    hide Cover;
    Masks();
    var p := StartToAml();
    SkipStep(p, 0, d, k, Prior(1, k));
    DropIs(p.rest, 0);
    BitStep(p.rest, 0, d, k, Prior(1, k));
    BitStep(p.rest.rest, 0, d, k, if k == 1 then 0x03 else Prior(1, k));
    EndStep(p.rest.rest.rest, 0, d, k, if k == 1 then 0x0F else Prior(1, k));
  }

  // Descriptors with a resource source

  /** The fixed part and the source fill the descriptor exactly. */
  predicate SourceFills(d: Desc, acc: nat) {
    && d.base + acc <= d.size + d.header
    && (SourceAt(d, acc).present ==> d.base + acc + 1 + |SourceAt(d, acc).text| == d.size + d.header)
  }

  lemma SourceCovers(d: Desc, acc: nat, k: nat)
    requires SourceFills(d, acc)
    ensures InSource(d, acc, k) <==> d.base + acc <= k < d.size + d.header
  {
    hide TextAt;
  }

  lemma CoverAddress(native: nat, width: nat, d: Desc, k: nat)
    requires width in {2, 4, 8} && d.base == 6 + 5 * width && SourceFills(d, 0)
    ensures Cover(Address(native, width), 0, d, k, Prior(3, k))
         == if k == 4 then 0x0F else if k == 5 then TypeMask(ToNat(d.bytes(3))) else Prior(d.size + d.header, k)
  {
    hide Cover, GeneralFlags, TypeFlags, SourceAt, InSource, TypeMask, ToNat;
    SourceCovers(d, 0, k);
    var source := Then(ResourceSource, TypeFlags());
    var rest := Then(Field(6, native, width, 5), source);
    CoverGeneral(rest, d, k, Prior(3, k));
    var flags: bv8 := if k == 4 then 0x0F else Prior(3, k);
    FieldStep(rest, 0, d, k, flags);
    SourceStep(source, 0, d, k, if 6 <= k < d.base then 0xFF else flags);
    CoverTypeFlags(d, k, if 6 <= k < d.size + d.header then 0xFF else flags);
  }

  lemma CoverExtendedAddress(d: Desc, k: nat)
    ensures Cover(Address64Extended(), 0, d, k, Prior(3, k))
         == if k == 4 then 0x0F else if k == 5 then TypeMask(ToNat(d.bytes(3))) else if k == 7 then 0 else Prior(56, k)
  {
    hide Cover, GeneralFlags, TypeFlags, TypeMask, ToNat;
    var wide := Then(Field(8, 16, 8, 6), TypeFlags());
    var rest := Then(Field(6, 9, 1, 0), wide);
    CoverGeneral(rest, d, k, Prior(3, k));
    var flags: bv8 := if k == 4 then 0x0F else Prior(3, k);
    FieldStep(rest, 0, d, k, flags);
    FieldStep(wide, 0, d, k, if k == 6 then 0xFF else flags);
    CoverTypeFlags(d, k, if k == 6 || 8 <= k < 56 then 0xFF else flags);
  }

  lemma CoverIrqFlags(rest: Program, d: Desc, k: nat, prior: bv8)
    requires k == 3 ==> prior == 0
    ensures Cover(IrqFlags(rest), 0, d, k, prior) == Cover(rest, 0, d, k, if k == 3 then 0x1F else prior)
  {
    hide Cover;
    Masks();
    var p := IrqFlags(rest);
    BitStep(p, 0, d, k, prior);
    BitStep(p.rest, 0, d, k, if k == 3 then 0x01 else prior);
    BitStep(p.rest.rest, 0, d, k, if k == 3 then 0x03 else prior);
    BitStep(p.rest.rest.rest, 0, d, k, if k == 3 then 0x07 else prior);
    BitStep(p.rest.rest.rest.rest, 0, d, k, if k == 3 then 0x0F else prior);
  }

  /** An empty list still has one byte copied, the first behind the fixed part. */
  lemma CoverExtendedIrq(d: Desc, k: nat)
    requires d.base == 5 && SourceFills(d, 4 * ToNat(d.bytes(4)))
    ensures Cover(ExtendedIrq(), 0, d, k, Prior(3, k))
         == if k == 3 then 0x1F else if k == 5 && d.bytes(4) == 0 then 0xFF else Prior(d.size + d.header, k)
  {
    hide Cover, SourceAt, InSource, ToNat;
    var count := ToNat(d.bytes(4));
    ToNatZero(d.bytes(4));
    SourceCovers(d, 4 * count, k);
    var p := IrqNumbers();
    CoverIrqFlags(p, d, k, Prior(3, k));
    LoadStep(p, 0, d, k, if k == 3 then 0x1F else Prior(3, k));
    var loaded: bv8 := if k == 3 then 0x1F else Prior(5, k);
    SourceStep(p.rest, 4 * count, d, k, loaded);
    var sourced: bv8 := if 5 + 4 * count <= k < d.size + d.header then 0xFF else loaded;
    FieldStep(p.rest.rest, 4 * count, d, k, sourced);
    var covered: bv8 := if k == 3 then 0x1F else if k == 5 && count == 0 then 0xFF else Prior(d.size + d.header, k);
    EndStep(p.rest.rest.rest, 0, d, k, covered);
  }

  lemma ToNatZero(b: bv8)
    ensures ToNat(b) == 0 <==> b == 0
  {
  }
}

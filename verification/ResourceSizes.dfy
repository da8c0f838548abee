/** The sizing passes of src/kern/acpi/resources.c (64-bit pointers) and the bytes the
    conversions touch: which native bytes are written, which AML bytes are read, and which
    are written on the way back. */
module ResourceSizes {
  import opened Bits
  import opened ResourceCodec
  import opened ResourceTables
  import opened ResourceExtents
  import opened ResourceConvert
  import opened ResourceInterpreter
  import T = ResourceTemplate

  /** Type and length in front of every native structure. */
  const NATIVE_HEADER: nat := 8

  /** The native structure without its variable part. */
  function StructSize(kind: T.Kind): nat {
    match kind
    case Irq => 6
    case Dma => 4
    case StartDependent => 3
    case Io => 8
    case FixedIo => 4
    case FixedDma => 6
    case Memory24 => 10
    case GenericRegister => 16
    case Memory32 => 20
    case FixedMemory32 => 12
    case Address32 => 48
    case Address16 => 40
    case ExtendedIrq => 24
    case Address64 => 72
    case Address64Extended => 64
    case _ => 0
  }

  const TWO_64: nat := 0x1_0000_0000_0000_0000

  /** 64-bit sizes. */
  function Wrap(size: int): (r: nat)
    ensures 0 <= size < TWO_64 ==> r == size
    ensures 0 <= size + TWO_64 < TWO_64 ==> r == size + TWO_64
    ensures TWO_64 <= size < 2 * TWO_64 ==> r == size - TWO_64
  {
    size % 0x1_0000_0000_0000_0000
  }

  function RoundUp(size: nat): (r: nat)
    ensures size <= r < size + 8 && r % 8 == 0
  {
    (size + 7) / 8 * 8
  }

  function AlignUp(size: nat): nat { Wrap(RoundUp(size)) }

  function ExtraForSource(base: nat, reported: nat): nat {
    if reported <= base then 0 else AlignUp(reported - base - 1)
  }

  /** The descriptor's mask: two bytes for interrupts, one for DMA channels. */
  function MaskOf(kind: T.Kind, d: Desc): bv16 { MaskAt(d.bytes, 1, if kind.Irq? then 2 else 1) }

  function ExtraSize(kind: T.Kind, d: Desc): nat {
    match kind
    case Irq => |BitNumbers(MaskOf(kind, d), 0)|
    case Dma => |BitNumbers(MaskOf(kind, d), 0)|
    case Address16 => ExtraForSource(T.AmlSize(kind), d.size)
    case Address32 => ExtraForSource(T.AmlSize(kind), d.size)
    case Address64 => ExtraForSource(T.AmlSize(kind), d.size)
    case ExtendedIrq => Wrap(Extra(kind, d) + ExtraForSource(T.AmlSize(kind), Wrap(d.size - Extra(kind, d))))
    case _ => 0
  }

  /** `native_size_for_aml_resource`. */
  function NativeSize(kind: T.Kind, d: Desc): nat {
    AlignUp(StructSize(kind) + NATIVE_HEADER + ExtraSize(kind, d))
  }

  /** `extra_size_for_native_irq_or_dma` counts what the conversion collects. */
  method CountBits(mask: bv16, bits: nat) returns (count: nat)
    requires bits == 16 || (bits == 8 && mask < 0x100)
    ensures count == |BitNumbers(mask, 0)|
  {
    hide HasBit, ToByte, BitNumbers;
    count := 0;
    for i := 0 to bits
      invariant count + |BitNumbers(mask, i)| == |BitNumbers(mask, 0)|
    {
      BitNumbersStep(mask, i);
      if HasBit(mask, i) {
        count := count + 1;
      }
    }
    NoMoreBits(mask, bits);
  }

  // Native bytes written by decoding

  /** How many native bytes behind the structure a conversion writes. */
  function Behind(kind: T.Kind, d: Desc): nat {
    if kind.Irq? || kind.Dma? then |BitNumbers(MaskOf(kind, d), 0)|
    else if kind.ExtendedIrq? && Extra(kind, d) == 0 then 1
    else Extra(kind, d)
  }

  /** The numbers of an extended interrupt are copied even if there are none. */
  lemma ExtendedIrqWrites(d: Desc, k: nat)
    requires k >= 24
    ensures WritesLater(ExtendedIrq(), 0, d, k) <==> k < 24 + Behind(T.ExtendedIrq, d)
  {
    hide WritesLater, ToNat;
    var count := ToNat(d.bytes(4));
    var p, q := IrqFlags(IrqNumbers()), IrqNumbers();
    WritesStep(q.rest.rest.rest, 0, d, k);
    WritesStep(q.rest.rest, 4 * count, d, k);
    WritesStep(q.rest, 4 * count, d, k);
    WritesStep(q, 0, d, k);
    WritesStep(p.rest.rest.rest.rest, 0, d, k);
    WritesStep(p.rest.rest.rest, 0, d, k);
    WritesStep(p.rest.rest, 0, d, k);
    WritesStep(p.rest, 0, d, k);
    WritesStep(p, 0, d, k);
  }

  lemma PackedWrites(p: Program, l: Limits, d: Desc, k: nat)
    requires p.Then? && p.insn.PackedArray? && p.insn.native == l.native && p.insn.count < l.native
    requires Within(p.rest, 0, l) && WritesLater(p, 0, d, k)
    ensures k < l.native + |BitNumbers(MaskAt(d.bytes, p.insn.aml, p.insn.bytes), 0)|
  {
    hide Within, BitNumbers, MaskAt;
    if WritesLater(p.rest, 0, d, k) {
      WritesWithin(p.rest, 0, 0, l, d, k);
    }
  }

  lemma SmallWrites(kind: T.Kind, d: Desc, k: nat)
    requires kind.Irq? || kind.StartDependent? || kind.Dma? || kind.Io? || kind.FixedIo? || kind.FixedDma?
    requires WritesLater(ToNativeTable(kind), 0, d, k)
    ensures k < StructSize(kind) + Behind(kind, d)
  {
    hide WritesLater, Within, ToNativeTable, BitNumbers, MaskAt, Dma, Io, FixedIo, FixedDma, IrqToNative, StartToNative;
    SmallTables();
    match kind
    case Irq => IrqWithin(); PackedWrites(IrqToNative(), IRQ_REST, d, k);
    case StartDependent => StartWithin(); WritesWithin(StartToNative(), 0, 0, START, d, k);
    case Dma => DmaWithin(); PackedWrites(Dma(), DMA_REST, d, k);
    case Io => IoWithin(); WritesWithin(Io(), 0, 0, IO, d, k);
    case FixedIo => FixedWithin(); WritesWithin(FixedIo(), 0, 0, FIXED_IO, d, k);
    case FixedDma => FixedWithin(); WritesWithin(FixedDma(), 0, 0, FIXED_DMA, d, k);
  }

  lemma MemoryWrites(kind: T.Kind, d: Desc, k: nat)
    requires kind.Memory24? || kind.Memory32? || kind.FixedMemory32? || kind.GenericRegister?
    requires WritesLater(ToNativeTable(kind), 0, d, k)
    ensures k < StructSize(kind)
  {
    hide WritesLater, Within, ToNativeTable, Memory24, Memory32, FixedMemory32, GenericRegister;
    MemoryTables();
    match kind
    case Memory24 => MemoryWithin(); WritesWithin(Memory24(), 0, 0, MEMORY24, d, k);
    case Memory32 => MemoryWithin(); WritesWithin(Memory32(), 0, 0, MEMORY32, d, k);
    case FixedMemory32 => RegisterWithin(); WritesWithin(FixedMemory32(), 0, 0, FIXED_MEMORY32, d, k);
    case GenericRegister => RegisterWithin(); WritesWithin(GenericRegister(), 0, 0, REGISTER, d, k);
  }

  const ADDRESS16 := Limits(40, 16, false)
  const ADDRESS32 := Limits(48, 26, false)
  const ADDRESS64 := Limits(72, 46, false)

  lemma AddressWrites(kind: T.Kind, d: Desc, k: nat)
    requires kind.Address16? || kind.Address32? || kind.Address64? || kind.Address64Extended?
    requires WritesLater(ToNativeTable(kind), 0, d, k)
    ensures k < StructSize(kind)
  {
    hide WritesLater, Within, ToNativeTable, Address, Address64Extended;
    AddressTables();
    match kind
    case Address16 => AddressWithin(10, 2, ADDRESS16); WritesWithin(Address(10, 2), 0, 0, ADDRESS16, d, k);
    case Address32 => AddressWithin(12, 4, ADDRESS32); WritesWithin(Address(12, 4), 0, 0, ADDRESS32, d, k);
    case Address64 => AddressWithin(16, 8, ADDRESS64); WritesWithin(Address(16, 8), 0, 0, ADDRESS64, d, k);
    case Address64Extended => ExtendedAddressWithin(); WritesWithin(Address64Extended(), 0, 0, EXTENDED_ADDRESS, d, k);
  }

  lemma NothingWritten(kind: T.Kind, d: Desc, k: nat)
    requires kind.EndDependent? || kind.EndTag?
    ensures !WritesLater(ToNativeTable(kind), 0, d, k)
  {
  }

  /** All native bytes a conversion writes lie in the structure and right behind it. */
  lemma WritesFit(kind: T.Kind, d: Desc, k: nat)
    requires Modelled(kind) && WritesLater(ToNativeTable(kind), 0, d, k)
    ensures k < StructSize(kind) + Behind(kind, d)
  {
    hide WritesLater, ToNativeTable, Behind, ExtendedIrq;
    if kind.ExtendedIrq? {
      AddressTables();
      if k >= 24 {
        ExtendedIrqWrites(d, k);
      }
    } else if kind.EndDependent? || kind.EndTag? {
      NothingWritten(kind, d, k);
    } else if kind.Memory24? || kind.Memory32? || kind.FixedMemory32? || kind.GenericRegister? {
      MemoryWrites(kind, d, k);
    } else if kind.Address16? || kind.Address32? || kind.Address64? || kind.Address64Extended? {
      AddressWrites(kind, d, k);
    } else {
      SmallWrites(kind, d, k);
    }
  }

  // The size given to a native structure

  lemma Aligned(size: nat)
    requires size < 0x1_0000_0000
    ensures size <= AlignUp(size) < size + 8 && AlignUp(size) % 8 == 0
  {
    hide Wrap, RoundUp;
  }

  /** An unsigned difference that went below zero, aligned: nothing is left of it, or some
      multiple of eight is missing. */
  lemma AlignedBelowZero(under: nat)
    requires 0 < under < 0x10000
    ensures var lost := TWO_64 - AlignUp(TWO_64 - under - 3);
      if under <= 4 then lost == TWO_64 else 0 < lost <= under + 3 && lost % 8 == 0
  {
    hide Wrap, RoundUp;
  }

  /** Whether the sizing pass reserves enough: `extra_size_for_extended_irq` subtracts the
      numbers from the size of the descriptor without a look at which is larger, and the
      conversion copies a byte even for an empty list. */
  predicate RoomEnough(kind: T.Kind, d: Desc) {
    kind.ExtendedIrq? ==> if d.bytes(4) == 0 then d.size >= 4 else Extra(kind, d) <= d.size + 4
  }

  lemma ExtendedIrqRoom(extra: nat, size: nat)
    requires extra % 4 == 0 && extra <= 1020 && 2 <= size < 0x10000
    ensures var given := AlignUp(32 + Wrap(extra + ExtraForSource(2, Wrap(size - extra))));
      && (32 + extra <= given <==> extra <= size + 4)
      && (extra == 0 ==> (given > 32 <==> size >= 4))
      && (size > extra + 2 ==> 32 + extra + (size - extra - 3) <= given)
  {
    hide AlignUp, Wrap;
    if extra <= size {
      if size - extra > 2 {
        Aligned(size - extra - 3);
      }
      Aligned(32 + extra + ExtraForSource(2, size - extra));
    } else {
      var under := extra - size;
      AlignedBelowZero(under);
      assert Wrap(size - extra) == TWO_64 - under;
      if under <= 4 {
        Aligned(32 + extra);
      } else {
        var lost := TWO_64 - AlignUp(TWO_64 - under - 3);
        assert ExtraForSource(2, Wrap(size - extra)) == TWO_64 - lost;
        assert lost <= extra;
        Aligned(32 + extra - lost);
      }
    }
  }

  /** Everything the conversion writes to the native structure lies inside the size the
      sizing pass computed, exactly if there is `RoomEnough`; the source string does
      exactly if the numbers exceed the descriptor by at most four bytes. */
  lemma NativeFits(kind: T.Kind, d: Desc)
    requires Modelled(kind) && Described(kind, d) && d.size < 0x10000
    ensures (forall k: nat | WritesLater(ToNativeTable(kind), 0, d, k) :: NATIVE_HEADER + k < NativeSize(kind, d))
            <==> RoomEnough(kind, d)
    ensures HasSource(kind) ==>
              (NATIVE_HEADER + StructSize(kind) + Extra(kind, d) + |SourceAt(d, Extra(kind, d)).text|
                 <= NativeSize(kind, d)
               <==> Extra(kind, d) <= d.size + 4)
  {
    hide WritesLater, ToNativeTable, Behind, NativeSize, TextAt, SourceAt, StructSize, Extra;
    if kind.ExtendedIrq? {
      ExtendedIrqFits(d);
    } else {
      OthersFit(kind, d);
      forall k: nat | WritesLater(ToNativeTable(kind), 0, d, k)
        ensures NATIVE_HEADER + k < NativeSize(kind, d)
      {
        WritesFit(kind, d, k);
      }
    }
  }

  lemma OthersFit(kind: T.Kind, d: Desc)
    requires Modelled(kind) && !kind.ExtendedIrq? && Described(kind, d) && d.size < 0x10000
    ensures NATIVE_HEADER + StructSize(kind) + Behind(kind, d) <= NativeSize(kind, d)
    ensures HasSource(kind) ==>
              && Extra(kind, d) == 0
              && NATIVE_HEADER + StructSize(kind) + |SourceAt(d, 0).text| <= NativeSize(kind, d)
  {
    hide AlignUp, TextAt, BitNumbers, MaskOf, T.SizeFits;
    if HasSource(kind) && d.size > T.AmlSize(kind) {
      Aligned(d.size - T.AmlSize(kind) - 1);
    }
    Aligned(StructSize(kind) + NATIVE_HEADER + ExtraSize(kind, d));
  }

  lemma ExtendedIrqFits(d: Desc)
    requires Described(T.ExtendedIrq, d) && d.size < 0x10000
    ensures (forall k: nat | WritesLater(ToNativeTable(T.ExtendedIrq), 0, d, k) ::
               NATIVE_HEADER + k < NativeSize(T.ExtendedIrq, d)) <==> RoomEnough(T.ExtendedIrq, d)
    ensures var extra := Extra(T.ExtendedIrq, d);
            NATIVE_HEADER + StructSize(T.ExtendedIrq) + extra + |SourceAt(d, extra).text|
              <= NativeSize(T.ExtendedIrq, d)
            <==> extra <= d.size + 4
  {
    hide WritesLater, ToNativeTable, AlignUp, TextAt, ToNat, ExtendedIrq, ExtraForSource, Wrap;
    AddressTables();
    ToNatZero(d.bytes(4));
    var extra := Extra(T.ExtendedIrq, d);
    var given := NativeSize(T.ExtendedIrq, d);
    ExtendedIrqRoom(extra, d.size);
    var last := 24 + Behind(T.ExtendedIrq, d) - 1;
    ExtendedIrqWrites(d, last);
    assert WritesLater(ToNativeTable(T.ExtendedIrq), 0, d, last);
    if NATIVE_HEADER + last < given {
      forall k: nat | WritesLater(ToNativeTable(T.ExtendedIrq), 0, d, k)
        ensures NATIVE_HEADER + k < given
      {
        WritesFit(T.ExtendedIrq, d, k);
      }
    }
  }

  /** If the numbers exceed the descriptor by four bytes at most, a single byte can lie
      behind the structure: the one copied for an empty list where there is no string. */
  lemma OneByteBehind(kind: T.Kind, d: Desc, k: nat)
    requires Modelled(kind) && Described(kind, d) && d.size < 0x10000 && Extra(kind, d) <= d.size + 4
    requires WritesLater(ToNativeTable(kind), 0, d, k) && NATIVE_HEADER + k >= NativeSize(kind, d)
    ensures Crowded(kind, d) && k == 24 && NATIVE_HEADER + k == NativeSize(kind, d)
  {
    hide WritesLater, ToNativeTable, AlignUp, Wrap, ToNat, ExtraForSource;
    NativeFits(kind, d);
    WritesFit(kind, d, k);
    ToNatZero(d.bytes(4));
    ExtendedIrqRoom(0, d.size);
    NoRoomSize();
  }

  lemma NoRoomSize()
    ensures AlignUp(32 + Wrap(0 + ExtraForSource(2, Wrap(2)))) == 32
    ensures AlignUp(32 + Wrap(0 + ExtraForSource(2, Wrap(3)))) == 32
  {
  }

  /** Two interrupt numbers claimed by a descriptor of two bytes: the size computed is that
      of an empty list, and the conversion writes behind it. */
  lemma RoomMissing(d: Desc)
    requires Described(T.ExtendedIrq, d) && d.size == 2 && d.bytes(4) == 2
    ensures NativeSize(T.ExtendedIrq, d) == 32 && WritesLater(ToNativeTable(T.ExtendedIrq), 0, d, 31)
  {
    hide Described, WritesLater, ToNativeTable, ExtendedIrq, AlignUp, Wrap, ToByte, ToNat, HeaderNumber;
    AddressTables();
    Two();
    ExtendedIrqWrites(d, 31);
    AlignedBelowZero(6);
    Aligned(32);
  }

  lemma Two()
    ensures ToNat(2) == 2
  {
  }

  /** Where the last field of a native structure ends, the source included. */
  function FieldsEnd(kind: T.Kind): nat {
    match kind
    case Irq => 6 case Dma => 4 case StartDependent => 3 case Io => 8 case FixedIo => 3 case FixedDma => 5
    case Memory24 => 10 case GenericRegister => 16 case Memory32 => 20 case FixedMemory32 => 12
    case Address16 => 40 case Address32 => 48 case Address64 => 72 case Address64Extended => 64
    case ExtendedIrq => 24
    case _ => 0
  }

  /** The native size is no larger than it has to be: header, fields and what is behind them,
      rounded up to eight bytes, with room for a whole string in an address. */
  lemma SizeIsTight(kind: T.Kind, d: Desc)
    requires Modelled(kind) && !kind.ExtendedIrq? && Described(kind, d) && d.size < 0x10000
    ensures var text := if HasSource(kind) && d.size > T.AmlSize(kind) then d.size - T.AmlSize(kind) - 1 else 0;
            var behind := Behind(kind, d) + RoundUp(text);
            NativeSize(kind, d) == RoundUp(NATIVE_HEADER + FieldsEnd(kind) + behind)
  {
    hide RoundUp, AlignUp, StructSize, FieldsEnd, Described;
    var text := if HasSource(kind) && d.size > T.AmlSize(kind) then d.size - T.AmlSize(kind) - 1 else 0;
    NoWrap(text);
    ExtraIs(kind, d, text);
    StructEnds(kind, Behind(kind, d) + RoundUp(text));
    hide ExtraSize, Behind;
    NoWrap(StructSize(kind) + NATIVE_HEADER + ExtraSize(kind, d));
  }

  lemma ExtraIs(kind: T.Kind, d: Desc, text: nat)
    requires Modelled(kind) && !kind.ExtendedIrq? && text < 0x10000
    requires text == if HasSource(kind) && d.size > T.AmlSize(kind) then d.size - T.AmlSize(kind) - 1 else 0
    ensures ExtraSize(kind, d) == Behind(kind, d) + RoundUp(text) <= 0x10010
    ensures kind.FixedIo? || kind.FixedDma? ==> Behind(kind, d) + RoundUp(text) == 0
  {
    hide BitNumbers, MaskOf, AlignUp, T.AmlSize;
    NoWrap(text);
  }

  lemma StructEnds(kind: T.Kind, behind: nat)
    requires Modelled(kind) && !kind.ExtendedIrq? && (kind.FixedIo? || kind.FixedDma? ==> behind == 0)
    ensures StructSize(kind) <= 72
    ensures RoundUp(NATIVE_HEADER + FieldsEnd(kind) + behind) == RoundUp(NATIVE_HEADER + StructSize(kind) + behind)
  {
    if kind.FixedIo? || kind.FixedDma? {
    } else {
      hide RoundUp;
    }
  }

  lemma NoWrap(size: nat)
    ensures size < 0x1_0000_0000 ==> AlignUp(size) == RoundUp(size)
  {
  }

  lemma ExtendedIrqExtra(extra: nat, size: nat)
    requires extra % 4 == 0 && extra <= 1020 && 2 <= size < 0x10000
    ensures Wrap(extra + ExtraForSource(2, Wrap(size - extra))) <= 0x11000
  {
    hide AlignUp, Wrap;
    if extra <= size {
      if size - extra > 2 {
        Aligned(size - extra - 3);
      }
    } else {
      AlignedBelowZero(extra - size);
      assert Wrap(size - extra) == TWO_64 - (extra - size);
    }
  }

  lemma ExtendedIrqBounds(d: Desc)
    requires Described(T.ExtendedIrq, d) && d.size < 0x10000
    ensures 8 <= NativeSize(T.ExtendedIrq, d) <= 0x20000
  {
    hide AlignUp, Wrap, ToNat, ExtraForSource;
    ExtendedIrqExtra(Extra(T.ExtendedIrq, d), d.size);
    Aligned(StructSize(T.ExtendedIrq) + NATIVE_HEADER + ExtraSize(T.ExtendedIrq, d));
  }

  /** A size is never zero, nor so large that a sum of them could overflow. */
  lemma SizeBounds(kind: T.Kind, d: Desc)
    requires Modelled(kind) && Described(kind, d) && d.size < 0x10000
    ensures 8 <= NativeSize(kind, d) <= 0x20000
  {
    hide AlignUp, Wrap, BitNumbers, MaskOf, T.SizeFits, Described;
    if kind.ExtendedIrq? {
      ExtendedIrqBounds(d);
    } else {
      if HasSource(kind) && d.size > T.AmlSize(kind) {
        Aligned(d.size - T.AmlSize(kind) - 1);
      }
      Aligned(StructSize(kind) + NATIVE_HEADER + ExtraSize(kind, d));
    }
  }

  // AML bytes read by decoding

  /** Whether the numbers an extended interrupt claims are inside it. */
  predicate ListInside(kind: T.Kind, d: Desc) {
    kind.ExtendedIrq? ==> if d.bytes(4) == 0 then d.size >= 3 else Extra(kind, d) + 2 <= d.size
  }

  lemma ExtendedIrqReads(d: Desc, k: nat)
    requires d.header == 3 && d.base == 5 && k >= 5
    ensures ReadsLater(ExtendedIrq(), 0, d, k) ==>
              k < 5 + Behind(T.ExtendedIrq, d) || k < d.size + d.header
    ensures k < 5 + Behind(T.ExtendedIrq, d) ==> ReadsLater(ExtendedIrq(), 0, d, k)
  {
    hide ReadsLater, ToNat, IrqNumbers, SourceAt;
    var p := IrqFlags(IrqNumbers());
    IrqNumbersReads(d, k);
    ReadsStep(p.rest.rest.rest.rest, 0, d, k);
    ReadsStep(p.rest.rest.rest, 0, d, k);
    ReadsStep(p.rest.rest, 0, d, k);
    ReadsStep(p.rest, 0, d, k);
    ReadsStep(p, 0, d, k);
  }

  lemma IrqNumbersReads(d: Desc, k: nat)
    requires d.header == 3 && d.base == 5 && k >= 5
    ensures ReadsLater(IrqNumbers(), 0, d, k) ==>
              k < 5 + Behind(T.ExtendedIrq, d) || k < d.size + d.header
    ensures k < 5 + Behind(T.ExtendedIrq, d) ==> ReadsLater(IrqNumbers(), 0, d, k)
  {
    hide ReadsLater, ToNat, TextAt;
    var count := ToNat(d.bytes(4));
    var q := IrqNumbers();
    ReadsStep(q.rest.rest.rest, 0, d, k);
    ReadsStep(q.rest.rest, 4 * count, d, k);
    ReadsStep(q.rest, 4 * count, d, k);
    ReadsStep(q, 0, d, k);
  }

  /** The flags are not read where the descriptor has none. */
  lemma IrqReads(d: Desc, k: nat)
    requires d.header == 1 && 2 <= d.size && ReadsLater(IrqToNative(), 0, d, k)
    ensures k < d.size + d.header
  {
    hide ReadsLater;
    var p := IrqToNative();
    ReadsStep(p, 0, d, k);
    if d.size < 3 {
      hide IrqFull;
      SkipsToShort();
      ReadsStep(p.rest, 0, d, k);
      ReadsStep(IrqShort(), 0, d, k);
      ReadsStep(IrqShort().rest, 0, d, k);
      ReadsStep(IrqShort().rest.rest, 0, d, k);
    } else if ReadsLater(p.rest, 0, d, k) {
      IrqWithin();
      ReadsWithin(p.rest, 0, 0, IRQ_REST, d, k);
    }
  }

  lemma StartReads(d: Desc, k: nat)
    requires d.header == 1 && ReadsLater(StartToNative(), 0, d, k)
    ensures k < d.size + d.header
  {
    hide ReadsLater;
    if d.size < 1 {
      var p, q := StartToNative(), StartShort();
      assert Drop(p.rest, 4) == q;
      ReadsStep(p, 0, d, k);
      ReadsStep(q, 0, d, k);
      ReadsStep(q.rest, 0, d, k);
      ReadsStep(q.rest.rest, 0, d, k);
      ReadsStep(q.rest.rest.rest, 0, d, k);
    } else {
      StartWithin();
      ReadsWithin(StartToNative(), 0, 0, START, d, k);
    }
  }

  lemma DmaReads(d: Desc, k: nat)
    requires d.header == 1 && d.size == 2 && ReadsLater(Dma(), 0, d, k)
    ensures k < d.size + d.header
  {
    hide ReadsLater, Within;
    var p := Dma();
    DmaWithin();
    ReadsStep(p, 0, d, k);
    if ReadsLater(p.rest, 0, d, k) {
      ReadsWithin(p.rest, 0, 0, DMA_REST, d, k);
    }
  }

  lemma SmallReads(kind: T.Kind, d: Desc, k: nat)
    requires kind.Irq? || kind.StartDependent? || kind.Dma? || kind.Io? || kind.FixedIo? || kind.FixedDma?
    requires d.header == HeaderOf(kind) && T.SizeFits(kind, d.size) && ReadsLater(ToNativeTable(kind), 0, d, k)
    ensures k < d.size + d.header
  {
    hide ReadsLater, Within, ToNativeTable, Dma, Io, FixedIo, FixedDma, IrqToNative, StartToNative;
    SmallTables();
    match kind
    case Irq => IrqReads(d, k);
    case StartDependent => StartReads(d, k);
    case Dma => DmaReads(d, k);
    case Io => IoWithin(); ReadsWithin(Io(), 0, 0, IO, d, k);
    case FixedIo => FixedWithin(); ReadsWithin(FixedIo(), 0, 0, FIXED_IO, d, k);
    case FixedDma => FixedWithin(); ReadsWithin(FixedDma(), 0, 0, FIXED_DMA, d, k);
  }

  lemma MemoryReads(kind: T.Kind, d: Desc, k: nat)
    requires kind.Memory24? || kind.Memory32? || kind.FixedMemory32? || kind.GenericRegister?
    requires d.header == HeaderOf(kind) && T.SizeFits(kind, d.size) && ReadsLater(ToNativeTable(kind), 0, d, k)
    ensures k < d.size + d.header
  {
    hide ReadsLater, Within, ToNativeTable, Memory24, Memory32, FixedMemory32, GenericRegister;
    MemoryTables();
    match kind
    case Memory24 => MemoryWithin(); ReadsWithin(Memory24(), 0, 0, MEMORY24, d, k);
    case Memory32 => MemoryWithin(); ReadsWithin(Memory32(), 0, 0, MEMORY32, d, k);
    case FixedMemory32 => RegisterWithin(); ReadsWithin(FixedMemory32(), 0, 0, FIXED_MEMORY32, d, k);
    case GenericRegister => RegisterWithin(); ReadsWithin(GenericRegister(), 0, 0, REGISTER, d, k);
  }

  lemma AddressReads(kind: T.Kind, d: Desc, k: nat)
    requires kind.Address16? || kind.Address32? || kind.Address64? || kind.Address64Extended?
    requires d.header == HeaderOf(kind) && T.SizeFits(kind, d.size) && ReadsLater(ToNativeTable(kind), 0, d, k)
    ensures k < d.size + d.header
  {
    hide ReadsLater, Within, ToNativeTable, Address, Address64Extended;
    AddressTables();
    match kind
    case Address16 => AddressWithin(10, 2, ADDRESS16); ReadsWithin(Address(10, 2), 0, 0, ADDRESS16, d, k);
    case Address32 => AddressWithin(12, 4, ADDRESS32); ReadsWithin(Address(12, 4), 0, 0, ADDRESS32, d, k);
    case Address64 => AddressWithin(16, 8, ADDRESS64); ReadsWithin(Address(16, 8), 0, 0, ADDRESS64, d, k);
    case Address64Extended => ExtendedAddressWithin(); ReadsWithin(Address64Extended(), 0, 0, EXTENDED_ADDRESS, d, k);
  }

  lemma NothingRead(kind: T.Kind, d: Desc, k: nat)
    requires kind.EndDependent? || kind.EndTag?
    ensures !ReadsLater(ToNativeTable(kind), 0, d, k)
  {
  }

  lemma ReadFits(kind: T.Kind, d: Desc, k: nat)
    requires Modelled(kind) && !kind.ExtendedIrq? && Described(kind, d) && ReadsLater(ToNativeTable(kind), 0, d, k)
    ensures k < d.size + d.header
  {
    hide ReadsLater, ToNativeTable, HeaderNumber, T.SizeFits;
    if kind.EndDependent? || kind.EndTag? {
      NothingRead(kind, d, k);
    } else if kind.Memory24? || kind.Memory32? || kind.FixedMemory32? || kind.GenericRegister? {
      MemoryReads(kind, d, k);
    } else if kind.Address16? || kind.Address32? || kind.Address64? || kind.Address64Extended? {
      AddressReads(kind, d, k);
    } else {
      SmallReads(kind, d, k);
    }
  }

  /** The conversion reads inside the descriptor exactly if the claimed numbers are inside. */
  lemma ReadsFit(kind: T.Kind, d: Desc)
    requires Modelled(kind) && Described(kind, d)
    ensures (forall k: nat | ReadsLater(ToNativeTable(kind), 0, d, k) :: k < d.size + d.header) <==> ListInside(kind, d)
  {
    hide ReadsLater, ToNativeTable, ExtendedIrq, ToNat;
    if kind.ExtendedIrq? {
      AddressTables();
      ToNatZero(d.bytes(4));
      var last := 5 + Behind(kind, d) - 1;
      ExtendedIrqReads(d, last);
      assert ReadsLater(ToNativeTable(kind), 0, d, last);
      forall k: nat | ReadsLater(ToNativeTable(kind), 0, d, k) && k >= 5
        ensures k <= last || k < d.size + d.header
      {
        ExtendedIrqReads(d, k);
      }
    } else {
      forall k: nat | ReadsLater(ToNativeTable(kind), 0, d, k)
        ensures k < d.size + d.header
      {
        ReadFits(kind, d, k);
      }
    }
  }

  // AML bytes written by encoding

  lemma PackedEncodes(p: Program, l: Limits, size: nat, base: nat, n: Native, k: nat)
    requires p.Then? && p.insn.PackedArray? && p.insn.aml + 2 <= l.aml
    requires Within(p.rest, 0, l) && !SourceLater(p.rest) && AmlWritesLater(p, 0, size, base, n, k)
    ensures k < l.aml
  {
    hide Within, AmlWritesLater, SourceLater;
    AmlWritesStep(p, 0, size, base, n, k);
    if AmlWritesLater(p.rest, 0, size, base, n, k) {
      AmlWritesWithin(p.rest, 0, 0, l, size, base, n, k);
    }
  }

  lemma SmallEncodes(kind: T.Kind, size: nat, base: nat, n: Native, k: nat)
    requires kind.Irq? || kind.StartDependent? || kind.Dma? || kind.Io? || kind.FixedIo? || kind.FixedDma?
    requires AmlWritesLater(ToAmlTable(kind), 0, size, base, n, k)
    ensures k < T.AmlSize(kind) + HeaderOf(kind)
  {
    hide AmlWritesLater, Within, SourceLater, ToAmlTable, Dma, Io, FixedIo, FixedDma, IrqToAml, StartToAml;
    SmallTables();
    Sourceless(kind);
    match kind
    case Irq => IrqToAmlWithin(); PackedEncodes(IrqToAml(), Limits(6, 4, false), size, base, n, k);
    case StartDependent =>
      StartToAmlWithin();
      AmlWritesWithin(StartToAml(), 0, 0, Limits(3, 2, false), size, base, n, k);
    case Dma => DmaWithin(); NoSourceBehind(Dma()); PackedEncodes(Dma(), DMA_REST, size, base, n, k);
    case Io => IoWithin(); AmlWritesWithin(Io(), 0, 0, IO, size, base, n, k);
    case FixedIo => FixedWithin(); AmlWritesWithin(FixedIo(), 0, 0, FIXED_IO, size, base, n, k);
    case FixedDma => FixedWithin(); AmlWritesWithin(FixedDma(), 0, 0, FIXED_DMA, size, base, n, k);
  }

  lemma NoSourceBehind(p: Program)
    requires p.Then? && !SourceLater(p)
    ensures !SourceLater(p.rest)
  {
  }

  lemma MemoryEncodes(kind: T.Kind, size: nat, base: nat, n: Native, k: nat)
    requires kind.Memory24? || kind.Memory32? || kind.FixedMemory32? || kind.GenericRegister?
    requires AmlWritesLater(ToAmlTable(kind), 0, size, base, n, k)
    ensures k < T.AmlSize(kind) + HeaderOf(kind)
  {
    hide AmlWritesLater, Within, SourceLater, ToAmlTable, Memory24, Memory32, FixedMemory32, GenericRegister;
    MemoryTables();
    Sourceless(kind);
    match kind
    case Memory24 => MemoryWithin(); AmlWritesWithin(Memory24(), 0, 0, MEMORY24, size, base, n, k);
    case Memory32 => MemoryWithin(); AmlWritesWithin(Memory32(), 0, 0, MEMORY32, size, base, n, k);
    case FixedMemory32 => RegisterWithin(); AmlWritesWithin(FixedMemory32(), 0, 0, FIXED_MEMORY32, size, base, n, k);
    case GenericRegister => RegisterWithin(); AmlWritesWithin(GenericRegister(), 0, 0, REGISTER, size, base, n, k);
  }

  lemma AddressEncodes(native: nat, width: nat, size: nat, base: nat, n: Native, k: nat)
    requires width in {2, 4, 8} && base == 6 + 5 * width && AmlWritesLater(Address(native, width), 0, size, base, n, k)
    ensures k < base + SourceLength(n.source)
  {
    hide AmlWritesLater, Within, TypeFlags;
    var l := Limits(9, 6, false);
    TypeFlagsWithin(l);
    TypeFlagsSourceless();
    var p := Address(native, width);
    AmlWritesStep(p, 0, size, base, n, k);
    AmlWritesStep(p.rest, 0, size, base, n, k);
    AmlWritesStep(p.rest.rest, 0, size, base, n, k);
    AmlWritesStep(p.rest.rest.rest, 0, size, base, n, k);
    AmlWritesStep(p.rest.rest.rest.rest, 0, size, base, n, k);
    AmlWritesStep(p.rest.rest.rest.rest.rest, 0, size, base, n, k);
    if AmlWritesLater(TypeFlags(), 0, size, base, n, k) {
      AmlWritesWithin(TypeFlags(), 0, 0, l, size, base, n, k);
    }
  }

  lemma ExtendedIrqEncodes(size: nat, n: Native, k: nat)
    requires AmlWritesLater(ExtendedIrq(), 0, size, 5, n, k)
    ensures k <= 5 + 4 * ToNat(n.bytes(5)) + SourceLength(n.source)
  {
    hide AmlWritesLater, ToNat;
    var count := ToNat(n.bytes(5));
    var p, q := IrqFlags(IrqNumbers()), IrqNumbers();
    AmlWritesStep(p, 0, size, 5, n, k);
    AmlWritesStep(p.rest, 0, size, 5, n, k);
    AmlWritesStep(p.rest.rest, 0, size, 5, n, k);
    AmlWritesStep(p.rest.rest.rest, 0, size, 5, n, k);
    AmlWritesStep(p.rest.rest.rest.rest, 0, size, 5, n, k);
    AmlWritesStep(q, 0, size, 5, n, k);
    AmlWritesStep(q.rest, 4 * count, size, 5, n, k);
    AmlWritesStep(q.rest.rest, 4 * count, size, 5, n, k);
    AmlWritesStep(q.rest.rest.rest, 0, size, 5, n, k);
  }

  lemma ExtendedAddressEncodes(size: nat, base: nat, n: Native, k: nat)
    requires AmlWritesLater(Address64Extended(), 0, size, base, n, k)
    ensures k < 56
  {
    hide AmlWritesLater, Within, SourceLater, Address64Extended;
    ExtendedAddressWithin();
    ExtendedSourceless();
    AmlWritesWithin(Address64Extended(), 0, 0, EXTENDED_ADDRESS, size, base, n, k);
  }

  lemma AddressEncodesOf(kind: T.Kind, native: nat, width: nat, size: nat, n: Native, k: nat)
    requires (kind.Address16? && native == 10 && width == 2) || (kind.Address32? && native == 12 && width == 4)
             || (kind.Address64? && native == 16 && width == 8)
    requires AmlWritesLater(ToAmlTable(kind), 0, size, T.AmlSize(kind) + HeaderOf(kind), n, k)
    ensures k <= AmlLength(kind, n)
  {
    hide AmlWritesLater, ToAmlTable, Address, Address64Extended, ExtendedIrq, SourceLength;
    AddressTables();
    AddressEncodes(native, width, size, 6 + 5 * width, n, k);
  }

  lemma ExtendedKindEncodes(kind: T.Kind, size: nat, n: Native, k: nat)
    requires kind.Address64Extended? || kind.ExtendedIrq?
    requires AmlWritesLater(ToAmlTable(kind), 0, size, T.AmlSize(kind) + HeaderOf(kind), n, k)
    ensures k <= AmlLength(kind, n)
  {
    hide AmlWritesLater, ToAmlTable, Address, Address64Extended, ExtendedIrq, SourceLength, ToNat;
    AddressTables();
    if kind.ExtendedIrq? {
      ExtendedIrqEncodes(size, n, k);
    } else {
      ExtendedAddressEncodes(size, 56, n, k);
    }
  }

  lemma AddressKindEncodes(kind: T.Kind, size: nat, n: Native, k: nat)
    requires kind.Address16? || kind.Address32? || kind.Address64? || kind.Address64Extended? || kind.ExtendedIrq?
    requires AmlWritesLater(ToAmlTable(kind), 0, size, T.AmlSize(kind) + HeaderOf(kind), n, k)
    ensures k <= AmlLength(kind, n)
  {
    hide AmlWritesLater, ToAmlTable, AmlLength, HeaderOf, T.AmlSize;
    match kind
    case Address16 => AddressEncodesOf(kind, 10, 2, size, n, k);
    case Address32 => AddressEncodesOf(kind, 12, 4, size, n, k);
    case Address64 => AddressEncodesOf(kind, 16, 8, size, n, k);
    case Address64Extended => ExtendedKindEncodes(kind, size, n, k);
    case ExtendedIrq => ExtendedKindEncodes(kind, size, n, k);
  }

  lemma NothingEncodedBy(kind: T.Kind, size: nat, base: nat, n: Native, k: nat)
    requires kind.EndDependent? || kind.EndTag?
    ensures !AmlWritesLater(ToAmlTable(kind), 0, size, base, n, k)
  {
  }

  lemma EncodesBelow(kind: T.Kind, size: nat, n: Native, k: nat)
    requires Modelled(kind) && AmlWritesLater(ToAmlTable(kind), 0, size, T.AmlSize(kind) + HeaderOf(kind), n, k)
    ensures k <= AmlLength(kind, n) && !kind.EndTag?
  {
    hide AmlWritesLater, ToAmlTable, T.AmlSize, HeaderOf, ToNat, SourceLength;
    var base := T.AmlSize(kind) + HeaderOf(kind);
    if kind.EndDependent? || kind.EndTag? {
      NothingEncodedBy(kind, size, base, n, k);
    } else if kind.Memory24? || kind.Memory32? || kind.FixedMemory32? || kind.GenericRegister? {
      MemoryEncodes(kind, size, base, n, k);
    } else if kind.Address16? || kind.Address32? || kind.Address64? || kind.Address64Extended? || kind.ExtendedIrq? {
      AddressKindEncodes(kind, size, n, k);
    } else {
      SmallEncodes(kind, size, base, n, k);
    }
  }

  /** Whatever the native structure holds, encoding it writes at most one byte behind the
      length computed for it, and an end tag writes none. */
  lemma EncodeFits(kind: T.Kind, n: Native, out: Buffer, k: nat)
    requires Modelled(kind) && (k > AmlLength(kind, n) || (k == AmlLength(kind, n) && kind.EndTag?))
    ensures Encode(kind, n, out)(k) == out(k)
  {
    hide AmlWritesLater, ToAml, ToAmlTable, AmlLength, HeaderNumber, Corrected;
    CorrectedLength(kind, n);
    var size, base, m := AmlLength(kind, n) - HeaderOf(kind), T.AmlSize(kind) + HeaderOf(kind), Corrected(kind, n);
    if AmlWritesLater(ToAmlTable(kind), 0, size, base, m, k) {
      EncodesBelow(kind, size, m, k);
    }
    AmlLeavesRest(ToAmlTable(kind), 0, size, base, m, Headed(kind, size, out), k);
  }

  /** The correction changes no length: the size function counted the index already. */
  lemma CorrectedLength(kind: T.Kind, n: Native)
    ensures AmlLength(kind, Corrected(kind, n)) == AmlLength(kind, n)
  {
    hide ToNat;
  }
}

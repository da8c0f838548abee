/** Whole descriptors and whole templates through the two converters of
    src/kern/acpi/resources.c: sizes, headers and bytes. */
module ResourceConvert {
  import opened Common
  import opened Bits
  import opened ResourceCodec
  import opened ResourceTables
  import opened ResourceExtents
  import T = ResourceTemplate

  /** The descriptors with a modelled table. */
  predicate Modelled(kind: T.Kind) {
    kind.Irq? || kind.Dma? || kind.StartDependent? || kind.EndDependent? || kind.Io? || kind.FixedIo? ||
    kind.FixedDma? || kind.EndTag? || kind.Memory24? || kind.GenericRegister? || kind.Memory32? ||
    kind.FixedMemory32? || kind.Address32? || kind.Address16? || kind.ExtendedIrq? || kind.Address64? ||
    kind.Address64Extended?
  }

  function SameTable(kind: T.Kind): Program {
    match kind
    case Dma => Dma()
    case Io => Io()
    case FixedIo => FixedIo()
    case FixedDma => FixedDma()
    case Memory24 => Memory24()
    case GenericRegister => GenericRegister()
    case Memory32 => Memory32()
    case FixedMemory32 => FixedMemory32()
    case Address32 => Address32()
    case Address16 => Address16()
    case ExtendedIrq => ExtendedIrq()
    case Address64 => Address64()
    case Address64Extended => Address64Extended()
    case _ => Stop
  }

  function ToNativeTable(kind: T.Kind): Program {
    if kind.Irq? then IrqToNative() else if kind.StartDependent? then StartToNative() else SameTable(kind)
  }

  function ToAmlTable(kind: T.Kind): Program {
    if kind.Irq? then IrqToAml() else if kind.StartDependent? then StartToAml() else SameTable(kind)
  }

  /** The item name in the header. */
  function Code(kind: T.Kind): nat {
    match kind
    case Irq => 0x04 case Dma => 0x05 case StartDependent => 0x06 case EndDependent => 0x07 case Io => 0x08
    case FixedIo => 0x09 case FixedDma => 0x0A case VendorType0 => 0x0E case EndTag => 0x0F
    case Memory24 => 0x01 case GenericRegister => 0x02 case VendorType1 => 0x04 case Memory32 => 0x05
    case FixedMemory32 => 0x06 case Address32 => 0x07 case Address16 => 0x08 case ExtendedIrq => 0x09
    case Address64 => 0x0A case Address64Extended => 0x0B case GpioConnection => 0x0C case PinFunction => 0x0D
    case SerialConnection => 0x0E case PinConfiguration => 0x0F case PinGroup => 0x10
    case PinGroupFunction => 0x11 case PinGroupConfiguration => 0x12 case ClockInput => 0x13
  }

  predicate IsSmall(kind: T.Kind) {
    kind.Irq? || kind.Dma? || kind.StartDependent? || kind.EndDependent? || kind.Io? || kind.FixedIo? ||
    kind.FixedDma? || kind.VendorType0? || kind.EndTag?
  }

  function HeaderOf(kind: T.Kind): nat { if IsSmall(kind) then 1 else 3 }

  /** The header as numbers: name and size share a byte in small items, the size follows
      in two bytes in large ones. */
  function HeaderNumber(kind: T.Kind, size: nat, k: nat): nat {
    if IsSmall(kind) then Code(kind) * 8 + size
    else if k == 0 then 128 + Code(kind) else if k == 1 then size % 256 else size / 256
  }

  function Blank(): Native { Native(Zeros(), Source(false, 0, [])) }

  /** What the table makes of a descriptor. */
  function Decode(kind: T.Kind, d: Desc): Native { ToNative(ToNativeTable(kind), 0, d, Blank()) }

  /** The source string stands behind the numbers of an extended interrupt. The byte that is
      copied even for an empty list then lands on the first character of the string. */
  function Overlaid(kind: T.Kind, n: Native): Native {
    if kind.ExtendedIrq? && n.bytes(5) == 0 && n.source.text != []
    then n.(source := n.source.(text := [n.bytes(24)] + n.source.text[1..])) else n
  }

  /** The type numbers of the native structures of the modelled kinds. */
  function NativeType(kind: T.Kind): nat {
    match kind
    case Irq => 0 case ExtendedIrq => 1 case Dma => 2 case FixedDma => 3 case Io => 4 case FixedIo => 5
    case Address16 => 6 case Address32 => 7 case Address64 => 8 case Address64Extended => 9
    case Memory24 => 10 case Memory32 => 11 case FixedMemory32 => 12 case StartDependent => 13
    case EndDependent => 14 case GenericRegister => 17 case EndTag => 29
    case _ => 0
  }

  /** An extended interrupt without numbers and string: the byte copied for its empty list
      lies behind its structure and is the first one of the next structure. */
  predicate Crowded(kind: T.Kind, d: Desc) { kind.ExtendedIrq? && d.bytes(4) == 0 && d.size < 4 }

  /** What the type number of the next structure, little endian, leaves of this one. */
  function Followed(kind: T.Kind, d: Desc, n: Native, next: Option<T.Kind>): Native {
    if Crowded(kind, d) && next.Some? then n.(bytes := Put(n.bytes, 24, ToByte(NativeType(next.value)))) else n
  }

  /** The native form as it is in memory, without a next one as long as that has no type
      yet; in a complete template there is one behind every descriptor but the end tag. */
  function Stored(kind: T.Kind, d: Desc, next: Option<T.Kind>): Native {
    Followed(kind, d, Overlaid(kind, Decode(kind, d)), next)
  }

  // The size of the AML form, from the native one

  /** `size_for_aml_resource_source`: a string counts as having an index. */
  function SourceLength(source: Source): nat {
    |source.text| + if source.present || source.text != [] then 1 else 0
  }

  /** What the size function leaves in the structure: an index wherever there is a string. */
  function Corrected(kind: T.Kind, n: Native): Native {
    if HasSource(kind) && n.source.text != [] then n.(source := n.source.(present := true)) else n
  }

  /** The length kind, the first native byte, is "do not care" or "one less". */
  predicate MayShrink(n: Native) { ToNat(n.bytes(0)) == LENGTH_ANY || ToNat(n.bytes(0)) == LENGTH_ONE_LESS }

  function AmlLength(kind: T.Kind, n: Native): (r: nat)
    ensures HeaderOf(kind) <= r
  {
    var full := T.AmlSize(kind) + HeaderOf(kind);
    match kind
    case Irq =>
      if MayShrink(n) && ToNat(n.bytes(1)) == TRIGGERING_EDGE && ToNat(n.bytes(2)) == ACTIVE_HIGH
         && ToNat(n.bytes(3)) == EXCLUSIVE then full - 1
      else full
    case StartDependent =>
      if MayShrink(n) && ToNat(n.bytes(1)) == ACCEPTABLE && ToNat(n.bytes(2)) == ACCEPTABLE then full - 1 else full
    case Address16 => full + SourceLength(n.source)
    case Address32 => full + SourceLength(n.source)
    case Address64 => full + SourceLength(n.source)
    case ExtendedIrq => full + 4 * ToNat(n.bytes(5)) + SourceLength(n.source)
    case _ => full
  }

  function Headed(kind: T.Kind, size: nat, out: Buffer): Buffer {
    (k: nat) => if k < HeaderOf(kind) then ToByte(HeaderNumber(kind, size, k)) else out(k)
  }

  /** One resource into a buffer that starts where the descriptor is to start. */
  function Encode(kind: T.Kind, n: Native, out: Buffer): Buffer {
    var size := AmlLength(kind, n) - HeaderOf(kind);
    ToAml(ToAmlTable(kind), 0, size, T.AmlSize(kind) + HeaderOf(kind), Corrected(kind, n), Headed(kind, size, out))
  }

  // Which descriptors come back, and which of their bits

  /** A descriptor of this kind: its header, and a size that fits the kind. */
  ghost predicate Described(kind: T.Kind, d: Desc) {
    && d.header == HeaderOf(kind) && d.base == T.AmlSize(kind) + HeaderOf(kind) && T.SizeFits(kind, d.size)
    && forall k: nat | k < d.header :: d.bytes(k) == ToByte(HeaderNumber(kind, d.size, k))
  }

  /** How far the variable numbers of an extended interrupt reach behind the fixed part. */
  function Extra(kind: T.Kind, d: Desc): nat { if kind.ExtendedIrq? then 4 * ToNat(d.bytes(4)) else 0 }

  predicate HasSource(kind: T.Kind) {
    kind.Address16? || kind.Address32? || kind.Address64? || kind.ExtendedIrq?
  }

  /** Numbers and source fill the descriptor. */
  predicate Whole(kind: T.Kind, d: Desc) { HasSource(kind) ==> SourceFills(d, Extra(kind, d)) }

  /** An extended interrupt without numbers but with a source string. */
  predicate Smeared(kind: T.Kind, d: Desc) { kind.ExtendedIrq? && d.bytes(4) == 0 && SourceAt(d, 0).text != [] }

  /** An extended interrupt without numbers and string, but with an index. */
  predicate IndexOnly(kind: T.Kind, d: Desc) { kind.ExtendedIrq? && d.bytes(4) == 0 && d.size == 3 }

  /** An empty list does no harm: the first character of the string is the byte copied over
      it, the index, and an index without string is the type number that replaces it. */
  predicate Intact(kind: T.Kind, d: Desc, next: Option<T.Kind>) {
    && (Smeared(kind, d) ==> d.bytes(6) == d.bytes(5))
    && (IndexOnly(kind, d) && next.Some? ==> d.bytes(5) == ToByte(NativeType(next.value)))
  }

  /** An extended interrupt that ends before the byte copied for its empty list. */
  predicate ShortOfNumbers(kind: T.Kind, d: Desc) { kind.ExtendedIrq? && d.bytes(4) == 0 && d.size == 2 }

  /** The bits of byte k that are not reserved. */
  function Kept(kind: T.Kind, d: Desc, k: nat): bv8 {
    match kind
    case Irq => if k == 3 then 0x39 else 0xFF
    case Dma => if k == 2 then 0x67 else 0xFF
    case StartDependent => if k == 1 then 0x0F else 0xFF
    case Io => if k == 1 then 0x01 else 0xFF
    case EndTag => if k == 1 then 0 else 0xFF // the checksum
    case Memory24 => if k == 3 then 0x01 else 0xFF
    case Memory32 => if k == 3 then 0x01 else 0xFF
    case FixedMemory32 => if k == 3 then 0x01 else 0xFF
    case ExtendedIrq => if k == 3 then 0x1F else 0xFF
    case Address16 => AddressKept(d, k)
    case Address32 => AddressKept(d, k)
    case Address64 => AddressKept(d, k)
    case Address64Extended => if k == 7 then 0 else AddressKept(d, k)
    case _ => 0xFF
  }

  function AddressKept(d: Desc, k: nat): bv8 {
    if k == 4 then 0x0F else if k == 5 then TypeMask(ToNat(d.bytes(3))) else 0xFF
  }

  // The native structure tells what the descriptor held

  lemma IrqChecked()
    ensures Checked(IrqToNative(), 0)
  {
    hide Checked, LaterDisjoint, IrqFull, IrqShort;
    IrqShortChecked();
    IrqFullChecked(IrqShort());
    SkipThen(SkipIfSizeLess(3, 6), IrqFull(IrqShort()), 0);
    CheckedThen(PackedArray(1, 6, 5, 2), Then(SkipIfSizeLess(3, 6), IrqFull(IrqShort())), 0);
  }

  lemma IrqShortChecked()
    ensures Checked(IrqShort(), 0) && LaterDisjoint(PackedArray(1, 6, 5, 2), 0, IrqShort(), 0, true)
  {
    hide Checked, LaterDisjoint, Disjoint, CheckedInsn;
    var mask, length, edge := PackedArray(1, 6, 5, 2), SetToImm(0, 0, LENGTH_ONE_LESS), SetToImm(0, 1, TRIGGERING_EDGE);
    var last := Then(End, Stop);
    StopChecked();
    CheckedEnd(Stop, 0);
    ConstantApart(length, edge);
    CheckedThen(edge, last, 0);
    ApartThen(length, 0, edge, last, 0, false);
    CheckedThen(length, Then(edge, last), 0);
    ApartEnd(mask, 0, Stop, 0);
    ArrayApart(mask, edge);
    ArrayApart(mask, length);
    ApartThen(mask, 0, edge, last, 0, true);
    ApartThen(mask, 0, length, Then(edge, last), 0, true);
  }

  lemma ConstantApart(a: Insn, b: Insn)
    requires a.SetToImm? && (b.SetToImm? || b.BitField?) && a.native != b.native
    ensures CheckedInsn(a) && (b.SetToImm? ==> CheckedInsn(b)) && Disjoint(a, 0, b, 0)
  {
  }

  lemma IrqFullChecked(rest: Program)
    requires Checked(rest, 0) && LaterDisjoint(PackedArray(1, 6, 5, 2), 0, rest, 0, true)
    ensures Checked(IrqFull(rest), 0) && LaterDisjoint(PackedArray(1, 6, 5, 2), 0, IrqFull(rest), 0, true)
  {
    hide Checked, LaterDisjoint, SpanEnd;
    var length, mask := SetToImm(0, 0, LENGTH_FULL), PackedArray(1, 6, 5, 2);
    var p := Then(End, rest);
    var q := Then(BitField(3, 3, 1, 4), Then(BitField(3, 4, 1, 5), p));
    CheckedEnd(rest, 0);
    TwoBits(3, 3, 4, 4, 5, p);
    BitsApart(3, 1, 1, 0, 3, 4, 4, 5, p);
    BitsApart(3, 2, 1, 3, 3, 4, 4, 5, p);
    TwoBits(3, 1, 2, 0, 3, q);
    FlagsApart(length, p, false);
    CheckedThen(length, Then(BitField(3, 1, 1, 0), Then(BitField(3, 2, 1, 3), q)), 0);
    ApartEnd(mask, 0, rest, 0);
    FlagsApart(mask, p, true);
    ArrayApart(mask, length);
    ApartThen(mask, 0, length, Then(BitField(3, 1, 1, 0), Then(BitField(3, 2, 1, 3), q)), 0, true);
  }

  lemma ArrayApart(mask: Insn, plain: Insn)
    requires mask == PackedArray(1, 6, 5, 2)
    requires (plain.SetToImm? || plain.BitField?) && plain.native < 5
    ensures Disjoint(mask, 0, plain, 0)
  {
  }

  lemma FlagsApart(insn: Insn, p: Program, skipped: bool)
    requires insn == SetToImm(0, 0, LENGTH_FULL) || insn == PackedArray(1, 6, 5, 2)
    requires LaterDisjoint(insn, 0, p, 0, skipped)
    ensures LaterDisjoint(insn, 0, Then(BitField(3, 1, 1, 0), Then(BitField(3, 2, 1, 3),
                                   Then(BitField(3, 3, 1, 4), Then(BitField(3, 4, 1, 5), p)))), 0, skipped)
  {
    hide LaterDisjoint;
    var q := Then(BitField(3, 3, 1, 4), Then(BitField(3, 4, 1, 5), p));
    ApartThen(insn, 0, BitField(3, 4, 1, 5), p, 0, skipped);
    ApartThen(insn, 0, BitField(3, 3, 1, 4), Then(BitField(3, 4, 1, 5), p), 0, skipped);
    ApartThen(insn, 0, BitField(3, 2, 1, 3), q, 0, skipped);
    ApartThen(insn, 0, BitField(3, 1, 1, 0), Then(BitField(3, 2, 1, 3), q), 0, skipped);
  }

  lemma StartShortChecked()
    ensures Checked(StartShort(), 0)
  {
    hide Checked, LaterDisjoint, Disjoint, CheckedInsn;
    var length := SetToImm(0, 0, LENGTH_ONE_LESS);
    var first, second := SetToImm(0, 1, ACCEPTABLE), SetToImm(0, 2, ACCEPTABLE);
    StopChecked();
    CheckedEnd(Stop, 0);
    ConstantApart(length, first);
    ConstantApart(length, second);
    ConstantApart(first, second);
    ThreeChecked(length, first, second, Then(End, Stop));
  }

  lemma StartFlagsChecked(rest: Program)
    requires Checked(rest, 0)
    ensures Checked(Then(SetToImm(0, 0, LENGTH_FULL),
                         Then(BitField(1, 1, 2, 0), Then(BitField(1, 2, 2, 2), Then(End, rest)))), 0)
  {
    hide Checked, LaterDisjoint;
    var length, first, second := SetToImm(0, 0, LENGTH_FULL), BitField(1, 1, 2, 0), BitField(1, 2, 2, 2);
    CheckedEnd(rest, 0);
    ThreeChecked(length, first, second, Then(End, rest));
  }

  lemma StartChecked()
    ensures Checked(StartToNative(), 0)
  {
    hide Checked, LaterDisjoint, StartShort;
    StartShortChecked();
    StartFlagsChecked(StartShort());
    SkipThen(SkipIfSizeLess(1, 4), StartToNative().rest, 0);
  }

  // The tables of each kind

  lemma SmallTables()
    ensures ToNativeTable(T.Irq) == IrqToNative() && ToAmlTable(T.Irq) == IrqToAml()
    ensures ToNativeTable(T.StartDependent) == StartToNative() && ToAmlTable(T.StartDependent) == StartToAml()
    ensures ToNativeTable(T.Dma) == ToAmlTable(T.Dma) == Dma() && ToNativeTable(T.Io) == ToAmlTable(T.Io) == Io()
    ensures ToNativeTable(T.FixedIo) == ToAmlTable(T.FixedIo) == FixedIo()
    ensures ToNativeTable(T.FixedDma) == ToAmlTable(T.FixedDma) == FixedDma()
  {
    hide Dma, Io, FixedIo, FixedDma, Memory24, Memory32, FixedMemory32, GenericRegister, ExtendedIrq, Address;
    hide Address64Extended, IrqToNative, IrqToAml, StartToNative, StartToAml;
  }

  lemma MemoryTables()
    ensures ToNativeTable(T.Memory24) == ToAmlTable(T.Memory24) == Memory24()
    ensures ToNativeTable(T.Memory32) == ToAmlTable(T.Memory32) == Memory32()
    ensures ToNativeTable(T.FixedMemory32) == ToAmlTable(T.FixedMemory32) == FixedMemory32()
    ensures ToNativeTable(T.GenericRegister) == ToAmlTable(T.GenericRegister) == GenericRegister()
  {
    hide Dma, Io, FixedIo, FixedDma, Memory24, Memory32, FixedMemory32, GenericRegister, ExtendedIrq, Address;
    hide Address64Extended, IrqToNative, IrqToAml, StartToNative, StartToAml;
  }

  lemma AddressTables()
    ensures ToNativeTable(T.Address16) == ToAmlTable(T.Address16) == Address(10, 2)
    ensures ToNativeTable(T.Address32) == ToAmlTable(T.Address32) == Address(12, 4)
    ensures ToNativeTable(T.Address64) == ToAmlTable(T.Address64) == Address(16, 8)
    ensures ToNativeTable(T.Address64Extended) == ToAmlTable(T.Address64Extended) == Address64Extended()
    ensures ToNativeTable(T.ExtendedIrq) == ToAmlTable(T.ExtendedIrq) == ExtendedIrq()
  {
    hide Dma, Io, FixedIo, FixedDma, Memory24, Memory32, FixedMemory32, GenericRegister, ExtendedIrq, Address;
    hide Address64Extended, IrqToNative, IrqToAml, StartToNative, StartToAml;
  }

  lemma SmallChecked(kind: T.Kind)
    requires kind.Irq? || kind.StartDependent? || kind.Dma? || kind.Io? || kind.FixedIo? || kind.FixedDma?
    ensures Checked(ToNativeTable(kind), 0)
  {
    hide Checked, Dma, Io, FixedIo, FixedDma, IrqToNative, StartToNative, ToNativeTable;
    SmallTables();
    match kind
    case Irq => IrqChecked();
    case StartDependent => StartChecked();
    case Dma => DmaChecked();
    case Io => IoChecked();
    case FixedIo => FixedTablesChecked();
    case FixedDma => FixedTablesChecked();
  }

  lemma MemoryChecked(kind: T.Kind)
    requires kind.Memory24? || kind.Memory32? || kind.FixedMemory32? || kind.GenericRegister?
    ensures Checked(ToNativeTable(kind), 0)
  {
    hide Checked, Memory24, Memory32, FixedMemory32, GenericRegister, ToNativeTable;
    MemoryTables();
    match kind
    case Memory24 => MemoryTablesChecked();
    case Memory32 => MemoryTablesChecked();
    case FixedMemory32 => MemoryTablesChecked();
    case GenericRegister => MemoryTablesChecked();
  }

  lemma AddressKindChecked(kind: T.Kind)
    requires kind.Address16? || kind.Address32? || kind.Address64? || kind.Address64Extended? || kind.ExtendedIrq?
    ensures Checked(ToNativeTable(kind), 0)
  {
    hide Checked, ExtendedIrq, Address, Address64Extended, ToNativeTable;
    AddressTables();
    match kind
    case ExtendedIrq => ExtendedIrqChecked();
    case Address16 => AddressChecked(10, 2);
    case Address32 => AddressChecked(12, 4);
    case Address64 => AddressChecked(16, 8);
    case Address64Extended => ExtendedAddressChecked();
  }

  /** No modelled decoding table overwrites what it wrote. */
  lemma TableChecked(kind: T.Kind)
    ensures Checked(ToNativeTable(kind), 0)
  {
    hide Checked, ToNativeTable;
    if kind.Memory24? || kind.Memory32? || kind.FixedMemory32? || kind.GenericRegister? {
      MemoryChecked(kind);
    } else if kind.Address16? || kind.Address32? || kind.Address64? || kind.Address64Extended? || kind.ExtendedIrq? {
      AddressKindChecked(kind);
    } else if kind.Irq? || kind.StartDependent? || kind.Dma? || kind.Io? || kind.FixedIo? || kind.FixedDma? {
      SmallChecked(kind);
    } else {
      NothingDecoded(kind);
      StopChecked();
    }
  }

  lemma Sourceless(kind: T.Kind)
    requires !HasSource(kind)
    ensures !SourceLater(ToNativeTable(kind)) && !SourceLater(ToAmlTable(kind))
  {
    hide SourceLater, ToNativeTable, ToAmlTable;
    hide Dma, Io, FixedIo, FixedDma, Memory24, Memory32, FixedMemory32, GenericRegister, Address64Extended;
    hide IrqToNative, StartToNative, IrqToAml, StartToAml;
    if kind.Memory24? || kind.Memory32? || kind.FixedMemory32? || kind.GenericRegister? {
      MemoryTables();
      LargeSourceless();
    } else if kind.Address64Extended? {
      AddressTables();
      ExtendedSourceless();
    } else if kind.Irq? || kind.StartDependent? {
      SmallTables();
      IrqSourceless();
      StartSourceless();
    } else if kind.Dma? || kind.Io? || kind.FixedIo? || kind.FixedDma? {
      SmallTables();
      SmallSourceless();
    } else {
      NothingDecoded(kind);
      LargeSourceless();
    }
  }

  lemma NothingDecoded(kind: T.Kind)
    requires !(kind.Memory24? || kind.Memory32? || kind.FixedMemory32? || kind.GenericRegister?)
    requires !(kind.Address16? || kind.Address32? || kind.Address64? || kind.Address64Extended? || kind.ExtendedIrq?)
    requires !(kind.Irq? || kind.StartDependent? || kind.Dma? || kind.Io? || kind.FixedIo? || kind.FixedDma?)
    ensures ToNativeTable(kind) == ToAmlTable(kind) == Stop
  {
  }

  lemma StopChecked()
    ensures Checked(Stop, 0) && forall insn: Insn :: LaterDisjoint(insn, 0, Stop, 0, true)
  {
  }

  lemma DecodeIsFaithful(kind: T.Kind, d: Desc)
    ensures Faithful(ToNativeTable(kind), 0, d, Decode(kind, d))
  {
    hide Checked, Faithful, Clean, ToNativeTable, ToNative;
    var p := ToNativeTable(kind);
    TableChecked(kind);
    CheckedHasAll(p, 0);
    CheckedIsClean(p, 0, 0, d);
    NativeIsFaithful(p, 0, d, Blank());
  }

  lemma FaithfulStep(p: Program, acc: nat, d: Desc, n: Native)
    requires Faithful(p, acc, d, n) && !Ends(p)
    ensures Holds(p.insn, acc, d, n)
    ensures !IsSkip(p.insn) ==> Faithful(p.rest, AccAfter(p.insn, acc, d), d, n)
    ensures IsSkip(p.insn) ==> Faithful(Drop(p.rest, Skipped(p, acc, d.size)), acc, d, n)
  {
    hide Holds;
  }

  lemma AddressSource(native: nat, width: nat, d: Desc, n: Native)
    requires Faithful(Address(native, width), 0, d, n)
    ensures n.source == SourceAt(d, 0)
  {
    hide Faithful, TypeFlags;
    var p := Address(native, width);
    FaithfulStep(p, 0, d, n);
    FaithfulStep(p.rest, 0, d, n);
    FaithfulStep(p.rest.rest, 0, d, n);
    FaithfulStep(p.rest.rest.rest, 0, d, n);
    FaithfulStep(p.rest.rest.rest.rest, 0, d, n);
    FaithfulStep(p.rest.rest.rest.rest.rest, 0, d, n);
  }

  lemma NumbersFaithful(d: Desc, n: Native)
    requires Faithful(ExtendedIrq(), 0, d, n)
    ensures Faithful(IrqNumbers(), 0, d, n)
  {
    hide Faithful, ToNat, IrqNumbers;
    var p := IrqFlags(IrqNumbers());
    FaithfulStep(p, 0, d, n);
    FaithfulStep(p.rest, 0, d, n);
    FaithfulStep(p.rest.rest, 0, d, n);
    FaithfulStep(p.rest.rest.rest, 0, d, n);
    FaithfulStep(p.rest.rest.rest.rest, 0, d, n);
  }

  lemma ExtendedIrqSource(d: Desc, n: Native)
    requires Faithful(ExtendedIrq(), 0, d, n)
    ensures n.bytes(5) == d.bytes(4) && n.source == SourceAt(d, 4 * ToNat(d.bytes(4)))
    ensures d.bytes(4) == 0 ==> n.bytes(24) == d.bytes(5)
  {
    hide Faithful, ToNat;
    Zero();
    NumbersFaithful(d, n);
    var p, acc := IrqNumbers(), 4 * ToNat(d.bytes(4));
    FaithfulStep(p, 0, d, n);
    FaithfulStep(p.rest, acc, d, n);
    FaithfulStep(p.rest.rest, acc, d, n);
  }

  // Lengths

  lemma SourceLengthIs(d: Desc, acc: nat)
    ensures d.base + acc + SourceLength(SourceAt(d, acc)) == d.size + d.header <==> SourceFills(d, acc)
  {
    hide TextAt;
  }

  /** An interrupt descriptor with flags is kept at full length; one without has the
      length kind and the default flags that make the size function drop the byte. */
  lemma IrqLength(d: Desc)
    ensures ToNat(Decode(T.Irq, d).bytes(0)) == if d.size < 3 then LENGTH_ONE_LESS else LENGTH_FULL
    ensures d.size < 3 ==> ToNat(Decode(T.Irq, d).bytes(1)) == TRIGGERING_EDGE
    ensures d.size < 3 ==> Decode(T.Irq, d).bytes(2) == 0 && Decode(T.Irq, d).bytes(3) == 0
  {
    var n := Decode(T.Irq, d);
    DecodeIsFaithful(T.Irq, d);
    hide Faithful, ToNat, ToByte, WritesLater, Decode;
    var p := IrqToNative();
    FaithfulStep(p, 0, d, n);
    FaithfulStep(p.rest, 0, d, n);
    SmallNumbers();
    if d.size < 3 {
      SkipsToShort();
      FaithfulStep(IrqShort(), 0, d, n);
      FaithfulStep(IrqShort().rest, 0, d, n);
      ShortLeaves(d, 2);
      ShortLeaves(d, 3);
    } else {
      DropIs(p.rest.rest, 0);
      FaithfulStep(p.rest.rest, 0, d, n);
    }
  }

  lemma SmallNumbers()
    ensures ToNat(ToByte(1)) == 1 && ToNat(ToByte(2)) == 2
  {
    hide ToNat, ToByte;
    ByteIsNumber(1);
    ByteIsNumber(2);
  }

  lemma SkipsToShort()
    ensures Drop(IrqToNative().rest.rest, 6) == IrqShort()
  {
  }

  lemma ShortLeaves(d: Desc, k: nat)
    requires d.size < 3 && 2 <= k < 5
    ensures Decode(T.Irq, d).bytes(k) == 0
  {
    hide AllChecked, Checked, ToNative, BitNumbers, WritesLater, Drop;
    var p, q := IrqToNative(), IrqShort();
    IrqChecked();
    CheckedHasAll(p, 0);
    LeavesRest(p, 0, d, Blank(), k);
    SkipsToShort();
    WritesStep(p, 0, d, k);
    WritesStep(p.rest, 0, d, k);
    WritesStep(q, 0, d, k);
    WritesStep(q.rest, 0, d, k);
    WritesStep(q.rest.rest, 0, d, k);
  }

  lemma WritesStep(p: Program, acc: nat, d: Desc, k: nat)
    requires p.Then?
    ensures Ends(p) ==> !WritesLater(p, acc, d, k)
    ensures !Ends(p) ==> (WritesLater(p, acc, d, k) <==>
                          Writes(p.insn, acc, d, k) ||
                          WritesLater(Drop(p.rest, Skipped(p, acc, d.size)), AccAfter(p.insn, acc, d), d, k))
    ensures !IsSkip(p.insn) ==> Drop(p.rest, Skipped(p, acc, d.size)) == p.rest
  {
    hide Writes;
  }

  lemma StartLength(d: Desc)
    ensures ToNat(Decode(T.StartDependent, d).bytes(0)) == if d.size < 1 then LENGTH_ONE_LESS else LENGTH_FULL
    ensures d.size < 1 ==> ToNat(Decode(T.StartDependent, d).bytes(1)) == ACCEPTABLE
    ensures d.size < 1 ==> ToNat(Decode(T.StartDependent, d).bytes(2)) == ACCEPTABLE
  {
    var n := Decode(T.StartDependent, d);
    DecodeIsFaithful(T.StartDependent, d);
    hide Faithful, ToNat, ToByte, Decode;
    var p := StartToNative();
    FaithfulStep(p, 0, d, n);
    SmallNumbers();
    if d.size < 1 {
      var q := StartShort();
      assert Drop(p.rest, 4) == q;
      FaithfulStep(q, 0, d, n);
      FaithfulStep(q.rest, 0, d, n);
      FaithfulStep(q.rest.rest, 0, d, n);
    } else {
      DropIs(p.rest, 0);
      FaithfulStep(p.rest, 0, d, n);
    }
  }

  lemma IrqLengthReturns(d: Desc)
    requires Described(T.Irq, d)
    ensures AmlLength(T.Irq, Decode(T.Irq, d)) == d.size + d.header
  {
    hide Decode, ToNat;
    IrqLength(d);
    Zero();
  }

  lemma StartLengthReturns(d: Desc)
    requires Described(T.StartDependent, d)
    ensures AmlLength(T.StartDependent, Decode(T.StartDependent, d)) == d.size + d.header
  {
    hide Decode, ToNat;
    StartLength(d);
  }

  lemma AddressSourceOf(kind: T.Kind, native: nat, width: nat, d: Desc)
    requires ToNativeTable(kind) == Address(native, width)
    ensures Decode(kind, d).source == SourceAt(d, 0)
  {
    hide Decode, Faithful, SourceAt, ToNativeTable;
    DecodeIsFaithful(kind, d);
    AddressSource(native, width, d, Decode(kind, d));
  }

  lemma ExtendedIrqSourceOf(d: Desc)
    ensures Decode(T.ExtendedIrq, d).source == SourceAt(d, Extra(T.ExtendedIrq, d))
    ensures Decode(T.ExtendedIrq, d).bytes(5) == d.bytes(4)
    ensures d.bytes(4) == 0 ==> Decode(T.ExtendedIrq, d).bytes(24) == d.bytes(5)
  {
    hide Decode, Faithful, SourceAt, ToNativeTable, ExtendedIrq, ToNat;
    AddressTables();
    DecodeIsFaithful(T.ExtendedIrq, d);
    ExtendedIrqSource(d, Decode(T.ExtendedIrq, d));
  }

  /** The decoded source is what the descriptor has behind its numbers. */
  lemma SourceOf(kind: T.Kind, d: Desc)
    requires HasSource(kind)
    ensures Decode(kind, d).source == SourceAt(d, Extra(kind, d))
    ensures kind.ExtendedIrq? ==> Decode(kind, d).bytes(5) == d.bytes(4)
  {
    hide Decode, SourceAt, ToNativeTable, ExtendedIrq, Address, Address64Extended, ToNat;
    AddressTables();
    if kind.ExtendedIrq? {
      ExtendedIrqSourceOf(d);
    } else if kind.Address16? {
      AddressSourceOf(kind, 10, 2, d);
    } else if kind.Address32? {
      AddressSourceOf(kind, 12, 4, d);
    } else {
      AddressSourceOf(kind, 16, 8, d);
    }
  }

  lemma SourceLengthReturns(kind: T.Kind, d: Desc)
    requires HasSource(kind) && Described(kind, d)
    ensures AmlLength(kind, Decode(kind, d)) == d.size + d.header <==> SourceFills(d, Extra(kind, d))
  {
    hide Decode, SourceFills, SourceLength, SourceAt, ToNat;
    SourceOf(kind, d);
    SourceLengthIs(d, Extra(kind, d));
  }

  lemma FixedLengthReturns(kind: T.Kind, d: Desc)
    requires Modelled(kind) && !HasSource(kind) && !kind.Irq? && !kind.StartDependent? && Described(kind, d)
    ensures AmlLength(kind, Decode(kind, d)) == d.size + d.header
  {
    hide Decode, ToNat;
  }

  lemma StoredLength(kind: T.Kind, d: Desc, next: Option<T.Kind>)
    ensures AmlLength(kind, Stored(kind, d, next)) == AmlLength(kind, Decode(kind, d))
  {
    hide ToNat, Decode;
  }

  /** The size function gives the old length back exactly for the descriptors that their
      numbers and source fill. */
  lemma LengthReturns(kind: T.Kind, d: Desc, next: Option<T.Kind>)
    requires Modelled(kind) && Described(kind, d)
    ensures AmlLength(kind, Stored(kind, d, next)) == d.size + d.header <==> Whole(kind, d)
  {
    hide Decode, SourceFills, AmlLength, Described, Modelled, Stored;
    StoredLength(kind, d, next);
    if HasSource(kind) {
      SourceLengthReturns(kind, d);
    } else if kind.Irq? {
      IrqLengthReturns(d);
    } else if kind.StartDependent? {
      StartLengthReturns(d);
    } else {
      FixedLengthReturns(kind, d);
    }
  }

  /** A byte behind the terminator of the source string does not come back. */
  lemma TrailingByteIsLost() returns (d: Desc)
    ensures Described(T.Address16, d) && d.size == 16
    ensures SourceAt(d, 0) == Source(true, 0, [0]) && !Whole(T.Address16, d)
    ensures AmlLength(T.Address16, Stored(T.Address16, d, None)) == d.size + d.header - 1
  {
    hide ToByte, HeaderNumber, Decode;
    d := Desc((k: nat) => if k < 3 then ToByte(HeaderNumber(T.Address16, 16, k)) else 0, 16, 3, 16);
    assert TextAt(d.bytes, 17, 19) == [0];
    SourceOf(T.Address16, d);
  }

  lemma Zero()
    ensures ToNat(0) == 0
  {
  }

  // Bytes

  lemma FaithfulAhead(p: Program, acc: nat, d: Desc, n: Native)
    requires p.Then? && Holds(p.insn, acc, d, n)
    requires Faithful(Drop(p.rest, Skipped(p, acc, d.size)), AccAfter(p.insn, acc, d), d, n)
    ensures Faithful(p, acc, d, n)
  {
    hide Holds;
  }

  lemma FaithfulEnd(p: Program, acc: nat, d: Desc, n: Native)
    requires Ends(p)
    ensures Faithful(p, acc, d, n)
  {
  }

  /** What the decoding table told is what the encoding table asks for. */
  lemma IrqAmlFaithful(d: Desc, n: Native)
    requires Faithful(IrqToNative(), 0, d, n)
    ensures Faithful(IrqToAml(), 0, d, n)
  {
    hide Faithful, Holds;
    var p, q := IrqToNative(), IrqToAml();
    FaithfulStep(p, 0, d, n);
    FaithfulStep(p.rest, 0, d, n);
    var f := IrqFlagBits();
    FaithfulEnd(f.rest.rest.rest.rest, 0, d, n);
    if d.size < 3 {
      assert Drop(f, 4) == f.rest.rest.rest.rest;
    } else {
      IrqFlagsFaithful(IrqShort(), d, n);
      DropIs(f, 0);
    }
    NothingHolds(q.rest.insn, 0, d, n);
    FaithfulAhead(q.rest, 0, d, n);
    DropIs(q.rest, 0);
    FaithfulAhead(q, 0, d, n);
  }

  lemma NothingHolds(insn: Insn, acc: nat, d: Desc, n: Native)
    requires IsSkip(insn)
    ensures Holds(insn, acc, d, n)
  {
  }

  lemma IrqFlagsFaithful(rest: Program, d: Desc, n: Native)
    requires Faithful(IrqFull(rest), 0, d, n)
    ensures Faithful(IrqFlagBits(), 0, d, n)
  {
    hide Faithful, Holds;
    var p, f := IrqFull(rest).rest, IrqFlagBits();
    FaithfulStep(IrqFull(rest), 0, d, n);
    FaithfulStep(p, 0, d, n);
    FaithfulStep(p.rest, 0, d, n);
    FaithfulStep(p.rest.rest, 0, d, n);
    FaithfulStep(p.rest.rest.rest, 0, d, n);
    FaithfulEnd(f.rest.rest.rest.rest, 0, d, n);
    PlainAhead(f.rest.rest.rest, d, n);
    PlainAhead(f.rest.rest, d, n);
    PlainAhead(f.rest, d, n);
    PlainAhead(f, d, n);
  }

  lemma PlainAhead(p: Program, d: Desc, n: Native)
    requires p.Then? && p.insn.BitField? && Holds(p.insn, 0, d, n) && Faithful(p.rest, 0, d, n)
    ensures Faithful(p, 0, d, n)
  {
    hide Holds;
  }

  lemma StartAmlFaithful(d: Desc, n: Native)
    requires Faithful(StartToNative(), 0, d, n) && d.size >= 1
    ensures Faithful(StartToAml(), 0, d, n)
  {
    hide Faithful, Holds;
    var p, q := StartToNative(), StartToAml();
    FaithfulStep(p, 0, d, n);
    DropIs(p.rest, 0);
    FaithfulStep(p.rest, 0, d, n);
    FaithfulStep(p.rest.rest, 0, d, n);
    FaithfulStep(p.rest.rest.rest, 0, d, n);
    FaithfulEnd(q.rest.rest.rest, 0, d, n);
    PlainAhead(q.rest.rest, d, n);
    PlainAhead(q.rest, d, n);
    DropIs(q.rest, 0);
    NothingHolds(q.insn, 0, d, n);
    FaithfulAhead(q, 0, d, n);
  }

  /** The start-dependent descriptor without its priority byte. */
  predicate NoPriority(kind: T.Kind, d: Desc) { kind.StartDependent? && d.size == 0 }

  lemma AmlFaithful(kind: T.Kind, d: Desc)
    requires !NoPriority(kind, d)
    ensures Faithful(ToAmlTable(kind), 0, d, Decode(kind, d)) && AllChecked(ToAmlTable(kind))
  {
    hide Faithful, Decode, Checked, AllChecked, SameTable, IrqToNative, IrqToAml, StartToNative, StartToAml;
    var n := Decode(kind, d);
    DecodeIsFaithful(kind, d);
    if kind.Irq? {
      IrqAmlFaithful(d, n);
      AmlTablesChecked();
    } else if kind.StartDependent? {
      StartAmlFaithful(d, n);
      AmlTablesChecked();
    } else {
      TableChecked(kind);
      CheckedHasAll(ToNativeTable(kind), 0);
    }
  }

  lemma AmlTablesChecked()
    ensures AllChecked(IrqToAml()) && AllChecked(StartToAml())
  {
  }

  lemma FirstThenNoConstants(p: Program, l: Limits)
    requires p.Then? && p.insn.PackedArray? && Within(p.rest, 0, l) && !l.constants
    ensures NoConstants(p)
  {
    hide Within;
    WithinHasNoConstants(p.rest, 0, l);
  }

  lemma SmallHasNoConstants(kind: T.Kind)
    requires kind.Irq? || kind.StartDependent? || kind.Dma? || kind.Io? || kind.FixedIo? || kind.FixedDma?
    ensures NoConstants(ToAmlTable(kind))
  {
    hide NoConstants, Within, Dma, Io, FixedIo, FixedDma, IrqToAml, StartToAml, ToAmlTable;
    SmallTables();
    match kind
    case Irq => IrqToAmlWithin(); FirstThenNoConstants(IrqToAml(), Limits(6, 4, false));
    case StartDependent => StartToAmlWithin(); WithinHasNoConstants(StartToAml(), 0, Limits(3, 2, false));
    case Dma => DmaWithin(); FirstThenNoConstants(Dma(), DMA_REST);
    case Io => IoWithin(); WithinHasNoConstants(Io(), 0, IO);
    case FixedIo => FixedWithin(); WithinHasNoConstants(FixedIo(), 0, FIXED_IO);
    case FixedDma => FixedWithin(); WithinHasNoConstants(FixedDma(), 0, FIXED_DMA);
  }

  lemma MemoryHasNoConstants(kind: T.Kind)
    requires kind.Memory24? || kind.Memory32? || kind.FixedMemory32? || kind.GenericRegister?
    ensures NoConstants(ToAmlTable(kind))
  {
    hide NoConstants, Within, Memory24, Memory32, FixedMemory32, GenericRegister, ToAmlTable;
    MemoryTables();
    match kind
    case Memory24 => MemoryWithin(); WithinHasNoConstants(Memory24(), 0, MEMORY24);
    case Memory32 => MemoryWithin(); WithinHasNoConstants(Memory32(), 0, MEMORY32);
    case FixedMemory32 => RegisterWithin(); WithinHasNoConstants(FixedMemory32(), 0, FIXED_MEMORY32);
    case GenericRegister => RegisterWithin(); WithinHasNoConstants(GenericRegister(), 0, REGISTER);
  }

  lemma AddressHasNoConstants(kind: T.Kind)
    requires kind.Address16? || kind.Address32? || kind.Address64? || kind.Address64Extended? || kind.ExtendedIrq?
    ensures NoConstants(ToAmlTable(kind))
  {
    hide NoConstants, Within, Address, Address64Extended, ExtendedIrq, ToAmlTable;
    AddressTables();
    match kind
    case Address16 => AddressNoConstants(10, 2);
    case Address32 => AddressNoConstants(12, 4);
    case Address64 => AddressNoConstants(16, 8);
    case Address64Extended => ExtendedAddressWithin(); WithinHasNoConstants(Address64Extended(), 0, EXTENDED_ADDRESS);
    case ExtendedIrq => ExtendedIrqHasNoConstants();
  }

  lemma ExtendedIrqHasNoConstants()
    ensures NoConstants(ExtendedIrq())
  {
    hide NoConstants, IrqFlags, IrqNumbers;
    IrqNumbersHaveNoConstants();
    IrqFlagsHaveNoConstants(IrqNumbers());
  }

  lemma AddressNoConstants(native: nat, width: nat)
    requires width in {2, 4, 8}
    ensures NoConstants(Address(native, width))
  {
    hide NoConstants, Within, Address;
    var l := Limits(native + 5 * width + 9, 6 + 5 * width, false);
    AddressWithin(native, width, l);
    WithinHasNoConstants(Address(native, width), 0, l);
  }

  lemma EncodesNoConstants(kind: T.Kind)
    requires Modelled(kind)
    ensures NoConstants(ToAmlTable(kind))
  {
    hide NoConstants, ToAmlTable;
    if kind.EndDependent? || kind.EndTag? {
      NothingEncoded(kind);
    } else if kind.Memory24? || kind.Memory32? || kind.FixedMemory32? || kind.GenericRegister? {
      MemoryHasNoConstants(kind);
    } else if kind.Address16? || kind.Address32? || kind.Address64? || kind.Address64Extended? || kind.ExtendedIrq? {
      AddressHasNoConstants(kind);
    } else {
      SmallHasNoConstants(kind);
    }
  }

  lemma NothingEncoded(kind: T.Kind)
    requires kind.EndDependent? || kind.EndTag?
    ensures ToAmlTable(kind) == Stop && NoConstants(ToAmlTable(kind))
  {
  }

  lemma CoverSmall(kind: T.Kind, d: Desc, k: nat)
    requires kind.Irq? || kind.StartDependent? || kind.Dma? || kind.Io? || kind.FixedIo? || kind.FixedDma?
    requires !NoPriority(kind, d)
    requires d.header == HeaderOf(kind) && d.base == T.AmlSize(kind) + HeaderOf(kind) && T.SizeFits(kind, d.size)
    ensures Cover(ToAmlTable(kind), 0, d, k, Prior(d.header, k))
         == if k < d.size + d.header then Kept(kind, d, k) else 0
  {
    hide Cover, Dma, Io, FixedIo, FixedDma, IrqToAml, StartToAml, ToAmlTable;
    SmallTables();
    match kind
    case Irq => CoverIrq(d, k);
    case StartDependent => CoverStart(d, k);
    case Dma => CoverDma(d, k);
    case Io => CoverPorts(d, k);
    case FixedIo => CoverFixedIo(d, k);
    case FixedDma => CoverFixedDma(d, k);
  }

  lemma CoverMemoryKind(kind: T.Kind, d: Desc, k: nat)
    requires kind.Memory24? || kind.Memory32? || kind.FixedMemory32? || kind.GenericRegister?
    requires d.header == HeaderOf(kind) && d.base == T.AmlSize(kind) + HeaderOf(kind) && T.SizeFits(kind, d.size)
    ensures Cover(ToAmlTable(kind), 0, d, k, Prior(d.header, k))
         == if k < d.size + d.header then Kept(kind, d, k) else 0
  {
    hide Cover, Memory24, Memory32, FixedMemory32, GenericRegister, ToAmlTable;
    MemoryTables();
    match kind
    case Memory24 => CoverMemory24(d, k);
    case Memory32 => CoverMemory32(d, k);
    case FixedMemory32 => CoverFixedMemory32(d, k);
    case GenericRegister => CoverRegister(d, k);
  }

  lemma CoverAddressOf(kind: T.Kind, native: nat, width: nat, d: Desc, k: nat)
    requires (kind.Address16? && native == 10 && width == 2) || (kind.Address32? && native == 12 && width == 4)
             || (kind.Address64? && native == 16 && width == 8)
    requires Whole(kind, d) && d.header == HeaderOf(kind) && d.base == T.AmlSize(kind) + HeaderOf(kind)
    ensures Cover(ToAmlTable(kind), 0, d, k, Prior(d.header, k))
         == if k < d.size + d.header then Kept(kind, d, k) else 0
  {
    hide Cover, SourceAt, TypeMask, ToNat, ToAmlTable, Address, Address64Extended, ExtendedIrq;
    AddressTables();
    CoverAddress(native, width, d, k);
  }

  lemma CoverExtendedKind(d: Desc, k: nat)
    requires d.header == HeaderOf(T.Address64Extended) && T.SizeFits(T.Address64Extended, d.size)
    ensures Cover(ToAmlTable(T.Address64Extended), 0, d, k, Prior(d.header, k))
         == if k < d.size + d.header then Kept(T.Address64Extended, d, k) else 0
  {
    hide Cover, TypeMask, ToNat, ToAmlTable, Address, Address64Extended, ExtendedIrq;
    AddressTables();
    CoverExtendedAddress(d, k);
  }

  lemma CoverExtendedIrqKind(d: Desc, k: nat)
    requires Whole(T.ExtendedIrq, d) && !(ShortOfNumbers(T.ExtendedIrq, d) && k == d.size + d.header)
    requires d.header == HeaderOf(T.ExtendedIrq) && d.base == T.AmlSize(T.ExtendedIrq) + HeaderOf(T.ExtendedIrq)
    ensures Cover(ToAmlTable(T.ExtendedIrq), 0, d, k, Prior(d.header, k))
         == if k < d.size + d.header then Kept(T.ExtendedIrq, d, k) else 0
  {
    hide Cover, SourceAt, ToNat, ToAmlTable, Address, Address64Extended, ExtendedIrq;
    AddressTables();
    CoverExtendedIrq(d, k);
  }

  lemma CoverAddressKind(kind: T.Kind, d: Desc, k: nat)
    requires kind.Address16? || kind.Address32? || kind.Address64? || kind.Address64Extended? || kind.ExtendedIrq?
    requires Whole(kind, d) && !(ShortOfNumbers(kind, d) && k == d.size + d.header)
    requires d.header == HeaderOf(kind) && d.base == T.AmlSize(kind) + HeaderOf(kind) && T.SizeFits(kind, d.size)
    ensures Cover(ToAmlTable(kind), 0, d, k, Prior(d.header, k))
         == if k < d.size + d.header then Kept(kind, d, k) else 0
  {
    hide Cover, Whole, ShortOfNumbers, Kept, Prior, HeaderOf, ToAmlTable, T.AmlSize, T.SizeFits;
    match kind
    case ExtendedIrq => CoverExtendedIrqKind(d, k);
    case Address16 => CoverAddressOf(kind, 10, 2, d, k);
    case Address32 => CoverAddressOf(kind, 12, 4, d, k);
    case Address64 => CoverAddressOf(kind, 16, 8, d, k);
    case Address64Extended => CoverExtendedKind(d, k);
  }

  lemma CoverNothing(kind: T.Kind, d: Desc, k: nat)
    requires kind.EndDependent? || kind.EndTag?
    requires d.header == HeaderOf(kind) && d.base == T.AmlSize(kind) + HeaderOf(kind) && T.SizeFits(kind, d.size)
    ensures Cover(ToAmlTable(kind), 0, d, k, Prior(d.header, k))
         == if k < d.size + d.header then Kept(kind, d, k) else 0
  {
    hide Cover;
    EndStep(Stop, 0, d, k, Prior(1, k));
  }

  /** The descriptors whose conversion back may write one byte behind them. */
  predicate Spills(kind: T.Kind, d: Desc) { NoPriority(kind, d) || ShortOfNumbers(kind, d) }

  /** An encoding table covers the descriptor but for its reserved bits, and nothing else. */
  lemma CoverOf(kind: T.Kind, d: Desc, k: nat)
    requires Modelled(kind) && Whole(kind, d) && !NoPriority(kind, d)
    requires !(ShortOfNumbers(kind, d) && k == d.size + d.header)
    requires d.header == HeaderOf(kind) && d.base == T.AmlSize(kind) + HeaderOf(kind) && T.SizeFits(kind, d.size)
    ensures Cover(ToAmlTable(kind), 0, d, k, Prior(d.header, k))
         == if k < d.size + d.header then Kept(kind, d, k) else 0
  {
    hide Cover, ToAmlTable, Whole, ShortOfNumbers, Kept, HeaderOf, T.AmlSize, T.SizeFits;
    if kind.EndDependent? || kind.EndTag? {
      CoverNothing(kind, d, k);
    } else if kind.Memory24? || kind.Memory32? || kind.FixedMemory32? || kind.GenericRegister? {
      CoverMemoryKind(kind, d, k);
    } else if kind.Address16? || kind.Address32? || kind.Address64? || kind.Address64Extended? || kind.ExtendedIrq? {
      CoverAddressKind(kind, d, k);
    } else {
      CoverSmall(kind, d, k);
    }
  }

  function HeaderMask(d: Desc): Buffer { (k: nat) => Prior(d.header, k) }

  /** Byte k as it comes back. */
  function Came(kind: T.Kind, d: Desc, next: Option<T.Kind>, k: nat): bv8 {
    if Smeared(kind, d) && k == 6 then d.bytes(5)
    else if IndexOnly(kind, d) && next.Some? && k == 5 then ToByte(NativeType(next.value))
    else d.bytes(k)
  }

  /** A descriptor decoded and encoded again has its length and its bits that are not
      reserved, on a buffer that is zero behind the first byte, but for a byte of the source
      behind an empty list. Nothing else is written; a descriptor without priority byte or
      without a byte for its empty list may leave one byte behind it. */
  lemma BytesReturn(kind: T.Kind, d: Desc, next: Option<T.Kind>, out: Buffer, k: nat)
    requires Modelled(kind) && Described(kind, d) && Whole(kind, d)
    requires forall i: nat | i > 0 :: out(i) == 0
    ensures k < d.size + d.header ==>
              Encode(kind, Stored(kind, d, next), out)(k) == And(Came(kind, d, next, k), Kept(kind, d, k))
    ensures k > d.size + d.header || (k == d.size + d.header && !Spills(kind, d)) ==>
              Encode(kind, Stored(kind, d, next), out)(k) == 0
  {
    hide Decode, Stored, Encode, Cover, Whole, Kept, And, Shows, Faithful, ToAml, Prior, Smeared, NativeType, ToByte;
    hide Headed, ToAmlTable, ToNativeTable, Described, Modelled, IndexOnly, Crowded, ShortOfNumbers;
    EncodeIs(kind, d, next, out);
    HeaderShows(kind, d, out);
    AndZero(d.bytes(k));
    StoredIs(kind, d, next, Headed(kind, d.size, out), k);
    if NoPriority(kind, d) {
      SmallKept(d, k);
      if k != 1 {
        NoPriorityReturns(d, Decode(kind, d), Headed(kind, d.size, out), k);
      }
    } else if !(ShortOfNumbers(kind, d) && k == d.size + d.header) {
      FullReturns(kind, d, Headed(kind, d.size, out), k);
    }
    AndZero(Came(kind, d, next, k));
    EmptyLists(kind, d);
  }

  /** All bits that are not reserved come back exactly if the empty list does no harm. */
  lemma CameIffIntact(kind: T.Kind, d: Desc, next: Option<T.Kind>)
    requires Described(kind, d) && Whole(kind, d)
    ensures (forall k: nat | k < d.size + d.header ::
               And(Came(kind, d, next, k), Kept(kind, d, k)) == And(d.bytes(k), Kept(kind, d, k)))
            <==> Intact(kind, d, next)
  {
    hide Whole, Kept, And, Smeared, IndexOnly, Described, NativeType, ToByte;
    EmptyLists(kind, d);
    AndZero(d.bytes(5));
    AndZero(d.bytes(6));
    AndZero(Came(kind, d, next, 5));
    AndZero(Came(kind, d, next, 6));
  }

  lemma ReturnsIffIntact(kind: T.Kind, d: Desc, next: Option<T.Kind>, out: Buffer)
    requires Modelled(kind) && Described(kind, d) && Whole(kind, d)
    requires forall i: nat | i > 0 :: out(i) == 0
    ensures (forall k: nat | k < d.size + d.header ::
               Encode(kind, Stored(kind, d, next), out)(k) == And(d.bytes(k), Kept(kind, d, k)))
            <==> Intact(kind, d, next)
  {
    hide Stored, Encode, Whole, Kept, And, Came, Intact, Described, Modelled;
    CameIffIntact(kind, d, next);
    forall k: nat | k < d.size + d.header
      ensures Encode(kind, Stored(kind, d, next), out)(k) == And(Came(kind, d, next, k), Kept(kind, d, k))
    {
      BytesReturn(kind, d, next, out, k);
    }
  }

  /** A string "A" behind an empty list comes back without its character. */
  lemma FirstCharacterIsLost(next: Option<T.Kind>) returns (d: Desc)
    ensures Described(T.ExtendedIrq, d) && Whole(T.ExtendedIrq, d) && SourceAt(d, 0) == Source(true, 0, [0x41, 0])
    ensures Encode(T.ExtendedIrq, Stored(T.ExtendedIrq, d, next), Zeros())(6) == 0
  {
    hide ToByte, ToNat, HeaderNumber, Stored, Encode, And, Kept;
    d := Desc((k: nat) => if k < 3 then ToByte(HeaderNumber(T.ExtendedIrq, 5, k)) else if k == 6 then 0x41 else 0,
              5, 3, 5);
    Zero();
    assert TextAt(d.bytes, 7, 8) == [0];
    assert TextAt(d.bytes, 6, 8) == [0x41] + TextAt(d.bytes, 7, 8);
    BytesReturn(T.ExtendedIrq, d, next, Zeros(), 6);
    EmptyLists(T.ExtendedIrq, d);
    AndZero(d.bytes(5));
  }

  lemma EmptyLists(kind: T.Kind, d: Desc)
    ensures Smeared(kind, d) || Crowded(kind, d) ==>
              kind.ExtendedIrq? && Kept(kind, d, 5) == Kept(kind, d, 6) == 0xFF
    ensures IndexOnly(kind, d) ==> Crowded(kind, d) && !ShortOfNumbers(kind, d)
    ensures Described(kind, d) && kind.ExtendedIrq? ==> d.header == 3
    ensures Crowded(kind, d) && Described(kind, d) ==> IndexOnly(kind, d) || ShortOfNumbers(kind, d)
    ensures IndexOnly(kind, d) ==> d.size == 3
    ensures ShortOfNumbers(kind, d) ==> d.size == 2 && Crowded(kind, d)
    ensures Smeared(kind, d) && Described(kind, d) ==> !Crowded(kind, d)
    ensures Smeared(kind, d) && Whole(kind, d) && Described(kind, d) ==> 6 < d.size + d.header
  {
    hide TextAt;
    Zero();
  }

  // The source behind an empty list

  /** What differs from what the table alone gives: the first character of a string, or the
      byte copied for the list. */
  lemma StoredIs(kind: T.Kind, d: Desc, next: Option<T.Kind>, headed: Buffer, k: nat)
    requires Described(kind, d)
    ensures ToAml(ToAmlTable(kind), 0, d.size, d.base, Stored(kind, d, next), headed)(k)
         == if Smeared(kind, d) && k == 6 then d.bytes(5)
            else if Crowded(kind, d) && next.Some? && k == 5 then ToByte(NativeType(next.value))
            else ToAml(ToAmlTable(kind), 0, d.size, d.base, Decode(kind, d), headed)(k)
  {
    hide Decode, ToAml, ToAmlTable, TextAt, ExtendedIrq, ToNat, ToByte, NativeType, StepToAml, CopyTo;
    if kind.ExtendedIrq? {
      ExtendedIrqSourceOf(d);
      if d.bytes(4) == 0 {
        Zero();
        AddressTables();
        var n, m := Decode(kind, d), Stored(kind, d, next);
        var flags := EmptyListToAml(d.size, n, m, headed);
        if Smeared(kind, d) {
          OverString(n, m, flags, k);
        } else if Crowded(kind, d) && next.Some? {
          OverList(n, m, ToByte(NativeType(next.value)), flags, k);
        }
      }
    }
  }

  lemma OverString(n: Native, m: Native, flags: Buffer, k: nat)
    requires n.source.present && n.source.text != []
    requires m == n.(source := n.source.(text := [n.bytes(24)] + n.source.text[1..]))
    ensures CopyTo(StepToAml(ResourceSource, 0, 5, m, flags), 5, m.bytes, 24, 1)(k)
         == if k == 6 then n.bytes(24) else CopyTo(StepToAml(ResourceSource, 0, 5, n, flags), 5, n.bytes, 24, 1)(k)
  {
  }

  lemma OverList(n: Native, m: Native, v: bv8, flags: Buffer, k: nat)
    requires m == n.(bytes := Put(n.bytes, 24, v))
    ensures CopyTo(StepToAml(ResourceSource, 0, 5, m, flags), 5, m.bytes, 24, 1)(k)
         == if k == 5 then v else CopyTo(StepToAml(ResourceSource, 0, 5, n, flags), 5, n.bytes, 24, 1)(k)
  {
  }

  /** With an empty list, source and numbers are written over what the flags leave. */
  lemma EmptyListToAml(size: nat, n: Native, m: Native, out: Buffer) returns (flags: Buffer)
    requires n.bytes(5) == 0 && forall j: nat | j <= 5 :: m.bytes(j) == n.bytes(j)
    ensures ToAml(ExtendedIrq(), 0, size, 5, n, out)
         == CopyTo(StepToAml(ResourceSource, 0, 5, n, flags), 5, n.bytes, 24, 1)
    ensures ToAml(ExtendedIrq(), 0, size, 5, m, out)
         == CopyTo(StepToAml(ResourceSource, 0, 5, m, flags), 5, m.bytes, 24, 1)
  {
    hide ToAml, ToNat, StepToAml, IrqNumbers;
    var p := IrqFlags(IrqNumbers());
    SameFlag(p, size, n, m, out);
    var out1 := StepToAml(p.insn, 0, 5, n, out);
    SameFlag(p.rest, size, n, m, out1);
    var out2 := StepToAml(p.rest.insn, 0, 5, n, out1);
    SameFlag(p.rest.rest, size, n, m, out2);
    var out3 := StepToAml(p.rest.rest.insn, 0, 5, n, out2);
    SameFlag(p.rest.rest.rest, size, n, m, out3);
    var out4 := StepToAml(p.rest.rest.rest.insn, 0, 5, n, out3);
    SameFlag(p.rest.rest.rest.rest, size, n, m, out4);
    var out5 := StepToAml(p.rest.rest.rest.rest.insn, 0, 5, n, out4);
    NumbersToAml(size, n, out5);
    NumbersToAml(size, m, out5);
    flags := Put(out5, 4, 0);
  }

  lemma SameFlag(p: Program, size: nat, n: Native, m: Native, out: Buffer)
    requires p.Then? && p.insn.BitField? && m.bytes(p.insn.native) == n.bytes(p.insn.native)
    ensures ToAml(p, 0, size, 5, n, out) == ToAml(p.rest, 0, size, 5, n, StepToAml(p.insn, 0, 5, n, out))
    ensures ToAml(p, 0, size, 5, m, out) == ToAml(p.rest, 0, size, 5, m, StepToAml(p.insn, 0, 5, n, out))
  {
    hide Or, Shl;
  }

  lemma NumbersToAml(size: nat, n: Native, out: Buffer)
    requires n.bytes(5) == 0
    ensures ToAml(IrqNumbers(), 0, size, 5, n, out)
         == CopyTo(StepToAml(ResourceSource, 0, 5, n, Put(out, 4, 0)), 5, n.bytes, 24, 1)
  {
    hide ToNat;
    Zero();
  }

  lemma SmallKept(d: Desc, k: nat)
    requires Described(T.StartDependent, d) && d.size == 0
    ensures ToAmlTable(T.StartDependent) == StartToAml() && d.size + d.header == 1
    ensures k == 0 ==> Kept(T.StartDependent, d, k) == 0xFF
  {
  }

  lemma EncodeIs(kind: T.Kind, d: Desc, next: Option<T.Kind>, out: Buffer)
    requires Modelled(kind) && Described(kind, d) && Whole(kind, d)
    ensures Encode(kind, Stored(kind, d, next), out)
         == ToAml(ToAmlTable(kind), 0, d.size, d.base, Stored(kind, d, next), Headed(kind, d.size, out))
  {
    hide Stored, Whole, ToAml, ToAmlTable, AmlLength, Headed, Corrected;
    LengthReturns(kind, d, next);
    DecodedIsCorrect(kind, d, next);
  }

  /** A decoded string has an index already. */
  lemma DecodedIsCorrect(kind: T.Kind, d: Desc, next: Option<T.Kind>)
    ensures Corrected(kind, Stored(kind, d, next)) == Stored(kind, d, next)
  {
    hide Decode, TextAt;
    if HasSource(kind) {
      SourceOf(kind, d);
    }
  }

  lemma FullReturns(kind: T.Kind, d: Desc, headed: Buffer, k: nat)
    requires Modelled(kind) && Described(kind, d) && Whole(kind, d) && !NoPriority(kind, d)
    requires !(ShortOfNumbers(kind, d) && k == d.size + d.header)
    requires Shows(headed, d, HeaderMask(d))
    ensures ToAml(ToAmlTable(kind), 0, d.size, d.base, Decode(kind, d), headed)(k)
         == And(d.bytes(k), if k < d.size + d.header then Kept(kind, d, k) else 0)
  {
    hide Decode, Cover, Whole, Kept, And, Shows, ShortOfNumbers, Faithful, AllChecked, NoConstants, ToAml, Restored;
    hide Prior, ToAmlTable;
    var p, n := ToAmlTable(kind), Decode(kind, d);
    AmlFaithful(kind, d);
    EncodesNoConstants(kind);
    AmlShows(p, 0, d, n, headed, HeaderMask(d));
    ShowsAt(ToAml(p, 0, d.size, d.base, n, headed), d, Restored(p, 0, d, HeaderMask(d)), k);
    CoverIs(p, 0, d, HeaderMask(d), k);
    CoverOf(kind, d, k);
  }

  lemma ShowsAt(out: Buffer, d: Desc, m: Buffer, k: nat)
    requires Shows(out, d, m)
    ensures out(k) == And(d.bytes(k), m(k))
  {
    hide And;
  }

  lemma AndZero(v: bv8)
    ensures And(v, 0) == 0 && And(v, 0xFF) == v
  {
  }

  lemma HeaderShows(kind: T.Kind, d: Desc, out: Buffer)
    requires Described(kind, d) && forall i: nat | i > 0 :: out(i) == 0
    ensures Shows(Headed(kind, d.size, out), d, HeaderMask(d))
  {
    hide And, ToByte, HeaderNumber;
    forall k: nat
      ensures Headed(kind, d.size, out)(k) == And(d.bytes(k), HeaderMask(d)(k))
    {
      AndZero(d.bytes(k));
    }
  }

  lemma NoPriorityReturns(d: Desc, n: Native, headed: Buffer, k: nat)
    requires Described(T.StartDependent, d) && d.size == 0 && Shows(headed, d, HeaderMask(d)) && k != 1
    ensures ToAml(StartToAml(), 0, 0, d.base, n, headed)(k) == And(d.bytes(k), if k == 0 then 0xFF else 0)
  {
    hide And, Or, Shl, ToAml;
    var p := StartToAml();
    assert Drop(p.rest, 1) == p.rest.rest;
    AmlStep(p, 0, d.base, n, headed);
    AmlStep(p.rest.rest, 0, d.base, n, headed);
    var out := StepToAml(p.rest.rest.insn, 0, d.base, n, headed);
    AmlStep(p.rest.rest.rest, 0, d.base, n, out);
  }

  lemma AmlStep(p: Program, size: nat, base: nat, n: Native, out: Buffer)
    requires p.Then? && (p.insn.SkipIfSizeLess? || p.insn.BitField? || p.insn.End?)
    ensures p.insn.End? ==> ToAml(p, 0, size, base, n, out) == out
    ensures p.insn.BitField? ==>
              ToAml(p, 0, size, base, n, out) == ToAml(p.rest, 0, size, base, n, StepToAml(p.insn, 0, base, n, out))
    ensures p.insn.SkipIfSizeLess? ==>
              ToAml(p, 0, size, base, n, out)
                == ToAml(if size < p.insn.least then Drop(p.rest, p.insn.skip) else p.rest, 0, size, base, n, out)
  {
  }
}

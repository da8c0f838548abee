/** What the fields of the native structures hold after a conversion, by the structures of
    include/uacpi/resources.h (64-bit pointers) and the descriptors of section 6.4 of ACPI
    6.5: every field is a number or some bits of the descriptor, or a constant. */
module ResourceFields {
  import opened Common
  import opened Bits
  import opened ResourceCodec
  import opened ResourceTables
  import opened ResourceConvert
  import opened ResourceExtents
  import opened ResourceInterpreter
  import T = ResourceTemplate

  /** The value is this many bits of a byte, from this one on. */
  predicate IsBits(value: bv8, b: bv8, from: nat, width: nat)
    requires from + width <= 8
  {
    forall k: nat | k < 8 :: BitOf(value, k) == (k < width && BitOf(b, from + k))
  }

  /** The native field at this offset is the number at that offset of the descriptor. */
  ghost predicate IsNumber(n: Native, at: nat, d: Desc, from: nat, bytes: nat) {
    forall k: nat | at <= k < at + bytes :: n.bytes(k) == d.bytes(from + (k - at))
  }

  predicate MaskBit(d: Desc, at: nat, bytes: nat, i: nat) { i < 8 * bytes && BitOf(d.bytes(at + i / 8), i % 8) }

  ghost predicate Ascending(r: seq<bv8>) { forall j: nat, k: nat | j < k < |r| :: ToNat(r[j]) < ToNat(r[k]) }

  /** The array holds the numbers of the bits that are set in the mask, in ascending order. */
  ghost predicate ListsBits(n: Native, at: nat, count: nat, d: Desc, mask: nat, bytes: nat) {
    var list := Taken(n.bytes, at, count);
    && Ascending(list)
    && (forall j: nat | j < |list| :: MaskBit(d, mask, bytes, ToNat(list[j])))
    && (forall i: nat | MaskBit(d, mask, bytes, i) :: exists j: nat :: j < |list| && ToNat(list[j]) == i)
  }

  // The structures, field by field

  ghost predicate IrqFields(d: Desc, n: Native) {
    && n.bytes(0) == (if d.size < 3 then 1 else 2)                                    // length_kind
    && (if d.size < 3 then n.bytes(1) == 1 else IsBits(n.bytes(1), d.bytes(3), 0, 1)) // triggering
    && (if d.size < 3 then n.bytes(2) == 0 else IsBits(n.bytes(2), d.bytes(3), 3, 1)) // polarity
    && (if d.size < 3 then n.bytes(3) == 0 else IsBits(n.bytes(3), d.bytes(3), 4, 1)) // sharing
    && (if d.size < 3 then n.bytes(4) == 0 else IsBits(n.bytes(4), d.bytes(3), 5, 1)) // wake_capability
    && ListsBits(n, 6, ToNat(n.bytes(5)), d, 1, 2)                                    // num_irqs, irqs
  }

  ghost predicate StartDependentFields(d: Desc, n: Native) {
    && n.bytes(0) == (if d.size < 1 then 1 else 2)                                    // length_kind
    && (if d.size < 1 then n.bytes(1) == 1 else IsBits(n.bytes(1), d.bytes(1), 0, 2)) // compatibility
    && (if d.size < 1 then n.bytes(2) == 1 else IsBits(n.bytes(2), d.bytes(1), 2, 2)) // performance
  }

  ghost predicate DmaFields(d: Desc, n: Native) {
    && IsBits(n.bytes(0), d.bytes(2), 0, 2)        // transfer_type
    && IsBits(n.bytes(1), d.bytes(2), 2, 1)        // bus_master_status
    && IsBits(n.bytes(2), d.bytes(2), 5, 2)        // channel_speed
    && ListsBits(n, 4, ToNat(n.bytes(3)), d, 1, 1) // num_channels, channels
  }

  ghost predicate IoFields(d: Desc, n: Native) {
    && IsBits(n.bytes(0), d.bytes(1), 0, 1) // decode_type
    && IsNumber(n, 2, d, 2, 2)              // minimum
    && IsNumber(n, 4, d, 4, 2)              // maximum
    && IsNumber(n, 6, d, 6, 1)              // alignment
    && IsNumber(n, 7, d, 7, 1)              // length
  }

  ghost predicate FixedIoFields(d: Desc, n: Native) {
    && IsNumber(n, 0, d, 1, 2) // address
    && IsNumber(n, 2, d, 3, 1) // length
  }

  ghost predicate FixedDmaFields(d: Desc, n: Native) {
    && IsNumber(n, 0, d, 1, 2) // request_line
    && IsNumber(n, 2, d, 3, 2) // channel
    && IsNumber(n, 4, d, 5, 1) // transfer_width
  }

  ghost predicate Memory24Fields(d: Desc, n: Native) {
    && IsBits(n.bytes(0), d.bytes(3), 0, 1) // write_status
    && IsNumber(n, 2, d, 4, 2)              // minimum
    && IsNumber(n, 4, d, 6, 2)              // maximum
    && IsNumber(n, 6, d, 8, 2)              // alignment
    && IsNumber(n, 8, d, 10, 2)             // length
  }

  ghost predicate Memory32Fields(d: Desc, n: Native) {
    && IsBits(n.bytes(0), d.bytes(3), 0, 1) // write_status
    && IsNumber(n, 4, d, 4, 4)              // minimum
    && IsNumber(n, 8, d, 8, 4)              // maximum
    && IsNumber(n, 12, d, 12, 4)            // alignment
    && IsNumber(n, 16, d, 16, 4)            // length
  }

  ghost predicate FixedMemory32Fields(d: Desc, n: Native) {
    && IsBits(n.bytes(0), d.bytes(3), 0, 1) // write_status
    && IsNumber(n, 4, d, 4, 4)              // address
    && IsNumber(n, 8, d, 8, 4)              // length
  }

  ghost predicate GenericRegisterFields(d: Desc, n: Native) {
    && IsNumber(n, 0, d, 3, 1) // address_space_id
    && IsNumber(n, 1, d, 4, 1) // bit_width
    && IsNumber(n, 2, d, 5, 1) // bit_offset
    && IsNumber(n, 3, d, 6, 1) // access_size
    && IsNumber(n, 8, d, 7, 8) // address
  }

  /** The attributes that depend on the type of an address range. */
  ghost predicate AttributeFields(d: Desc, n: Native) {
    if d.bytes(3) == 0 then // memory
      && IsBits(n.bytes(0), d.bytes(5), 0, 1) // write_status
      && IsBits(n.bytes(1), d.bytes(5), 1, 2) // caching
      && IsBits(n.bytes(2), d.bytes(5), 3, 2) // range_type
      && IsBits(n.bytes(3), d.bytes(5), 5, 1) // translation
    else if d.bytes(3) == 1 then // io
      && IsBits(n.bytes(0), d.bytes(5), 0, 2) // range_type
      && IsBits(n.bytes(1), d.bytes(5), 5, 1) // translation
      && IsBits(n.bytes(2), d.bytes(5), 4, 1) // translation_type
    else n.bytes(0) == d.bytes(5) // type_specific
  }

  ghost predicate CommonFields(d: Desc, n: Native) {
    && n.bytes(4) == d.bytes(3)             // type
    && IsBits(n.bytes(5), d.bytes(4), 0, 1) // direction
    && IsBits(n.bytes(6), d.bytes(4), 1, 1) // decode_type
    && IsBits(n.bytes(7), d.bytes(4), 2, 1) // fixed_min_address
    && IsBits(n.bytes(8), d.bytes(4), 3, 1) // fixed_max_address
  }

  /** Five numbers behind the common part. */
  ghost predicate AddressFields(at: nat, width: nat, d: Desc, n: Native) {
    && AttributeFields(d, n) && CommonFields(d, n)
    && IsNumber(n, at, d, 6, width)                         // granularity
    && IsNumber(n, at + width, d, 6 + width, width)         // minimum
    && IsNumber(n, at + 2 * width, d, 6 + 2 * width, width) // maximum
    && IsNumber(n, at + 3 * width, d, 6 + 3 * width, width) // translation_offset
    && IsNumber(n, at + 4 * width, d, 6 + 4 * width, width) // address_length
  }

  ghost predicate ExtendedAddressFields(d: Desc, n: Native) {
    && AttributeFields(d, n) && CommonFields(d, n)
    && IsNumber(n, 9, d, 6, 1)   // revision_id
    && IsNumber(n, 16, d, 8, 8)  // granularity
    && IsNumber(n, 24, d, 16, 8) // minimum
    && IsNumber(n, 32, d, 24, 8) // maximum
    && IsNumber(n, 40, d, 32, 8) // translation_offset
    && IsNumber(n, 48, d, 40, 8) // address_length
    && IsNumber(n, 56, d, 48, 8) // attributes
  }

  ghost predicate ExtendedIrqFields(d: Desc, n: Native) {
    && IsBits(n.bytes(0), d.bytes(3), 0, 1)              // direction
    && IsBits(n.bytes(1), d.bytes(3), 1, 1)              // triggering
    && IsBits(n.bytes(2), d.bytes(3), 2, 1)              // polarity
    && IsBits(n.bytes(3), d.bytes(3), 3, 1)              // sharing
    && IsBits(n.bytes(4), d.bytes(3), 4, 1)              // wake_capability
    && n.bytes(5) == d.bytes(4)                          // num_irqs
    && IsNumber(n, 24, d, 5, 4 * ToNat(d.bytes(4)))      // irqs
  }

  /** The native structure of a descriptor of the kind. */
  ghost predicate NativeFields(kind: T.Kind, d: Desc, n: Native) {
    match kind
    case Irq => IrqFields(d, n)
    case StartDependent => StartDependentFields(d, n)
    case Dma => DmaFields(d, n)
    case Io => IoFields(d, n)
    case FixedIo => FixedIoFields(d, n)
    case FixedDma => FixedDmaFields(d, n)
    case Memory24 => Memory24Fields(d, n)
    case Memory32 => Memory32Fields(d, n)
    case FixedMemory32 => FixedMemory32Fields(d, n)
    case GenericRegister => GenericRegisterFields(d, n)
    case Address16 => AddressFields(10, 2, d, n)
    case Address32 => AddressFields(12, 4, d, n)
    case Address64 => AddressFields(16, 8, d, n)
    case Address64Extended => ExtendedAddressFields(d, n)
    case ExtendedIrq => ExtendedIrqFields(d, n)
    case _ => true
  }

  /** The source of a descriptor begins at this offset, if it is inside: an index, and the
      bytes up to and with the first zero, or up to the end of the descriptor. */
  ghost predicate IsSource(source: Source, d: Desc, at: nat) {
    var end := d.size + d.header;
    && (source.present <==> at < end)
    && (!source.present ==> source.text == [])
    && (source.present ==>
          && source.index == d.bytes(at) && at + 1 + |source.text| <= end
          && (forall i: nat | i < |source.text| :: source.text[i] == d.bytes(at + 1 + i))
          && (forall i: nat | i + 1 < |source.text| :: source.text[i] != 0)
          && (at + 1 + |source.text| < end ==> source.text != [] && source.text[|source.text| - 1] == 0))
  }

  // What each instruction says

  lemma BitsTell(insn: Insn, acc: nat, d: Desc, n: Native)
    requires insn.BitField? && insn.index + insn.width <= 8 && Holds(insn, acc, d, n)
    ensures IsBits(n.bytes(insn.native), d.bytes(insn.aml), insn.index, insn.width)
  {
    hide BitOf, And, Shr, LowMask;
    var b := d.bytes(insn.aml);
    forall k: nat | k < 8
      ensures BitOf(n.bytes(insn.native), k) == (k < insn.width && BitOf(b, insn.index + k))
    {
      AndBit(Shr(b, insn.index), LowMask(insn.width), k);
      LowMaskBit(insn.width, k);
      ShiftRightBit(b, insn.index, k);
    }
  }

  lemma NumberTells(insn: Insn, acc: nat, d: Desc, n: Native)
    requires insn.Field? && Holds(insn, acc, d, n)
    ensures IsNumber(n, insn.native, d, insn.aml, FieldCount(insn, acc))
  {
    hide FieldCount;
  }

  /** Part of a run of bytes. */
  lemma NumberIn(n: Native, at: nat, d: Desc, from: nat, bytes: nat, skip: nat, part: nat)
    requires IsNumber(n, at, d, from, bytes) && skip + part <= bytes
    ensures IsNumber(n, at + skip, d, from + skip, part)
  {
  }

  lemma MaskHasBit(low: bv8, high: bv8, i: nat)
    requires i < 16
    ensures HasBit(Word(low, high), i) == if i < 8 then BitOf(low, i) else BitOf(high, i - 8)
  {
    match i {
      case 0 => case 1 => case 2 => case 3 => case 4 => case 5 => case 6 => case 7 =>
      case 8 => case 9 => case 10 => case 11 => case 12 => case 13 => case 14 => case _ =>
    }
  }

  /** Exactly the bits of the mask from number i on. */
  ghost predicate AreBits(r: seq<bv8>, mask: bv16, i: nat) {
    && (forall j: nat | j < |r| :: i <= ToNat(r[j]) < 16 && HasBit(mask, ToNat(r[j])))
    && (forall b: nat | i <= b < 16 && HasBit(mask, b) :: exists j: nat :: j < |r| && ToNat(r[j]) == b)
  }

  lemma OneMore(x: bv8, rest: seq<bv8>, mask: bv16, i: nat)
    requires i < 16 && ToNat(x) == i && HasBit(mask, i) && Ascending(rest) && AreBits(rest, mask, i + 1)
    ensures Ascending([x] + rest) && AreBits([x] + rest, mask, i)
  {
    hide HasBit, ToNat;
    var r := [x] + rest;
    assert forall j: nat | 0 < j < |r| :: r[j] == rest[j - 1];
    forall b: nat | i <= b < 16 && HasBit(mask, b)
      ensures exists j: nat :: j < |r| && ToNat(r[j]) == b
    {
      if b == i {
        assert ToNat(r[0]) == b;
      } else {
        var j: nat :| j < |rest| && ToNat(rest[j]) == b;
        assert r[j + 1] == rest[j];
      }
    }
  }

  lemma {:induction false} NumbersAscend(mask: bv16, i: nat)
    requires i <= 16
    ensures Ascending(BitNumbers(mask, i)) && AreBits(BitNumbers(mask, i), mask, i)
    decreases 16 - i
  {
    hide HasBit, ToByte, ToNat, BitNumbers, Ascending, AreBits;
    if i < 16 {
      NumbersAscend(mask, i + 1);
      BitNumbersStep(mask, i);
      if HasBit(mask, i) {
        ByteIsNumber(i);
        OneMore(ToByte(i), BitNumbers(mask, i + 1), mask, i);
      } else {
        OneLess(BitNumbers(mask, i + 1), mask, i);
      }
    } else {
      NoneLeft(mask);
    }
  }

  lemma NoneLeft(mask: bv16)
    ensures Ascending(BitNumbers(mask, 16)) && AreBits(BitNumbers(mask, 16), mask, 16)
  {
    hide HasBit;
  }

  lemma OneLess(rest: seq<bv8>, mask: bv16, i: nat)
    requires i < 16 && !HasBit(mask, i) && AreBits(rest, mask, i + 1)
    ensures AreBits(rest, mask, i)
  {
    hide HasBit, ToNat;
  }

  lemma MaskBits(d: Desc, at: nat, bytes: nat)
    requires bytes in {1, 2}
    ensures forall i: nat :: MaskBit(d, at, bytes, i) <==> i < 16 && HasBit(MaskAt(d.bytes, at, bytes), i)
  {
    hide HasBit, BitOf, Word;
    forall i: nat | i < 16
      ensures HasBit(MaskAt(d.bytes, at, bytes), i) <==> MaskBit(d, at, bytes, i)
    {
      MaskHasBit(d.bytes(at), if bytes == 2 then d.bytes(at + 1) else 0, i);
      ClearBit(i % 8);
    }
  }

  lemma ArrayTells(insn: Insn, acc: nat, d: Desc, n: Native)
    requires insn.PackedArray? && insn.bytes in {1, 2} && Holds(insn, acc, d, n)
    ensures ListsBits(n, insn.native, ToNat(n.bytes(insn.count)), d, insn.aml, insn.bytes)
  {
    hide HasBit, ToNat, BitNumbers, MaskAt, MaskBit, Ascending;
    var mask := MaskAt(d.bytes, insn.aml, insn.bytes);
    var numbers := BitNumbers(mask, 0);
    assert Taken(n.bytes, insn.native, |numbers|) == numbers;
    NumbersAscend(mask, 0);
    MaskBits(d, insn.aml, insn.bytes);
  }

  lemma ClearBit(k: nat)
    requires k < 8
    ensures !BitOf(0, k)
  {
  }

  lemma {:induction false} TextTells(b: Buffer, from: nat, end: nat)
    ensures var text := TextAt(b, from, end);
            && (forall i: nat | i < |text| :: text[i] == b(from + i))
            && (forall i: nat | i + 1 < |text| :: text[i] != 0)
            && (from + |text| < end ==> text != [] && text[|text| - 1] == 0)
    decreases end - from
  {
    if from < end {
      if b(from) != 0 {
        TextTells(b, from + 1, end);
        var rest := TextAt(b, from + 1, end);
        assert TextAt(b, from, end) == [b(from)] + rest;
      } else {
        assert TextAt(b, from, end) == [b(from)];
      }
    }
  }

  /** What a conversion takes for the source. */
  lemma SourceTells(d: Desc, acc: nat)
    ensures IsSource(SourceAt(d, acc), d, d.base + acc)
  {
    hide TextAt;
    TextTells(d.bytes, d.base + acc + 1, d.size + d.header);
  }

  /** A source is unterminated exactly if there is something behind its index and no zero in
      it. */
  lemma UnterminatedIs(d: Desc, acc: nat)
    ensures var at, end := d.base + acc, d.size + d.header;
            BadText(SourceAt(d, acc).text)
            <==> at + 1 < end && forall k: nat | at < k < end :: d.bytes(k) != 0
  {
    hide TextAt;
    SourceTells(d, acc);
    var at, end, text := d.base + acc, d.size + d.header, SourceAt(d, acc).text;
    if at + 1 < end {
      TextStarts(d.bytes, at + 1, end);
      forall k: nat | at < k < at + 1 + |text|
        ensures text[k - at - 1] == d.bytes(k)
      {
        assert k == at + 1 + (k - at - 1);
      }
    }
  }

  lemma TextStarts(b: Buffer, from: nat, end: nat)
    requires from < end
    ensures TextAt(b, from, end) != []
  {
  }

  // The fields of each structure

  lemma IrqTells(d: Desc)
    ensures IrqFields(d, Decode(T.Irq, d))
  {
    var n := Decode(T.Irq, d);
    DecodeIsFaithful(T.Irq, d);
    hide Faithful, ToNat, ToByte, WritesLater, Decode, Holds, IsBits, ListsBits;
    var p := IrqToNative();
    FaithfulStep(p, 0, d, n);
    FaithfulStep(p.rest, 0, d, n);
    ArrayTells(p.insn, 0, d, n);
    if d.size < 3 {
      SkipsToShort();
      IrqShortTells(d, n);
      ShortLeaves(d, 2);
      ShortLeaves(d, 3);
      ShortLeaves(d, 4);
    } else {
      DropIs(p.rest.rest, 0);
      IrqFullTells(IrqShort(), d, n);
    }
  }

  lemma IrqShortTells(d: Desc, n: Native)
    requires Faithful(IrqShort(), 0, d, n)
    ensures n.bytes(0) == 1 && n.bytes(1) == 1
  {
    hide Faithful;
    FaithfulStep(IrqShort(), 0, d, n);
    FaithfulStep(IrqShort().rest, 0, d, n);
    SmallBytes();
  }

  lemma SmallBytes()
    ensures ToByte(1) == 1 && ToByte(2) == 2
  {
  }

  lemma IrqFullTells(rest: Program, d: Desc, n: Native)
    requires Faithful(IrqFull(rest), 0, d, n)
    ensures n.bytes(0) == 2
    ensures IsBits(n.bytes(1), d.bytes(3), 0, 1) && IsBits(n.bytes(2), d.bytes(3), 3, 1)
    ensures IsBits(n.bytes(3), d.bytes(3), 4, 1) && IsBits(n.bytes(4), d.bytes(3), 5, 1)
  {
    hide Faithful, IsBits, BitOf, And, Shr, LowMask;
    var p := IrqFull(rest);
    FaithfulStep(p, 0, d, n);
    SmallBytes();
    BitsStep(p.rest, 0, d, n);
    BitsStep(p.rest.rest, 0, d, n);
    BitsStep(p.rest.rest.rest, 0, d, n);
    BitsStep(p.rest.rest.rest.rest, 0, d, n);
  }

  lemma BitsStep(p: Program, acc: nat, d: Desc, n: Native)
    requires p.Then? && p.insn.BitField? && p.insn.index + p.insn.width <= 8 && Faithful(p, acc, d, n)
    ensures IsBits(n.bytes(p.insn.native), d.bytes(p.insn.aml), p.insn.index, p.insn.width)
    ensures Faithful(p.rest, acc, d, n)
  {
    hide Faithful, IsBits, Holds;
    FaithfulStep(p, acc, d, n);
    BitsTell(p.insn, acc, d, n);
  }

  lemma NumberStep(p: Program, acc: nat, d: Desc, n: Native)
    requires p.Then? && p.insn.Field? && Faithful(p, acc, d, n)
    ensures IsNumber(n, p.insn.native, d, p.insn.aml, FieldCount(p.insn, acc))
    ensures Faithful(p.rest, 0, d, n)
  {
    hide Faithful, IsNumber, Holds, FieldCount;
    FaithfulStep(p, acc, d, n);
    NumberTells(p.insn, acc, d, n);
  }

  lemma StartTells(d: Desc)
    ensures StartDependentFields(d, Decode(T.StartDependent, d))
  {
    var n := Decode(T.StartDependent, d);
    DecodeIsFaithful(T.StartDependent, d);
    hide Faithful, ToNat, ToByte, Decode, IsBits, BitOf, And, Shr, LowMask;
    var p := StartToNative();
    FaithfulStep(p, 0, d, n);
    SmallBytes();
    if d.size < 1 {
      var q := StartShort();
      assert Drop(p.rest, 4) == q;
      FaithfulStep(q, 0, d, n);
      FaithfulStep(q.rest, 0, d, n);
      FaithfulStep(q.rest.rest, 0, d, n);
    } else {
      DropIs(p.rest, 0);
      FaithfulStep(p.rest, 0, d, n);
      BitsStep(p.rest.rest, 0, d, n);
      BitsStep(p.rest.rest.rest, 0, d, n);
    }
  }

  lemma DmaTells(d: Desc)
    ensures DmaFields(d, Decode(T.Dma, d))
  {
    var p, n := Dma(), Decode(T.Dma, d);
    SmallTables();
    DecodeIsFaithful(T.Dma, d);
    hide Faithful, Decode, ToNativeTable, IsBits, ListsBits, Holds, ToNat;
    FaithfulStep(p, 0, d, n);
    ArrayTells(p.insn, 0, d, n);
    BitsStep(p.rest, 0, d, n);
    BitsStep(p.rest.rest, 0, d, n);
    BitsStep(p.rest.rest.rest, 0, d, n);
  }

  lemma PortsTell(d: Desc)
    ensures IoFields(d, Decode(T.Io, d))
  {
    var p, n := Io(), Decode(T.Io, d);
    SmallTables();
    DecodeIsFaithful(T.Io, d);
    hide Faithful, Decode, ToNativeTable, IsBits, IsNumber;
    BitsStep(p, 0, d, n);
    NumberStep(p.rest, 0, d, n);
    NumberStep(p.rest.rest, 0, d, n);
    NumberStep(IoBytes(), 0, d, n);
    NumberStep(IoBytes().rest, 0, d, n);
  }

  lemma FixedTell(d: Desc)
    ensures FixedIoFields(d, Decode(T.FixedIo, d)) && FixedDmaFields(d, Decode(T.FixedDma, d))
  {
    var p, n := FixedIo(), Decode(T.FixedIo, d);
    var q, m := FixedDma(), Decode(T.FixedDma, d);
    SmallTables();
    DecodeIsFaithful(T.FixedIo, d);
    DecodeIsFaithful(T.FixedDma, d);
    hide Faithful, Decode, ToNativeTable, IsNumber;
    NumberStep(p, 0, d, n);
    NumberStep(p.rest, 0, d, n);
    NumberStep(q, 0, d, m);
    NumberStep(q.rest, 0, d, m);
    NumberStep(q.rest.rest, 0, d, m);
  }

  lemma MemoryTells(d: Desc)
    ensures Memory24Fields(d, Decode(T.Memory24, d)) && Memory32Fields(d, Decode(T.Memory32, d))
  {
    var p, n := Memory24(), Decode(T.Memory24, d);
    var q, m := Memory32(), Decode(T.Memory32, d);
    MemoryTables();
    DecodeIsFaithful(T.Memory24, d);
    DecodeIsFaithful(T.Memory32, d);
    hide Faithful, Decode, ToNativeTable, IsBits;
    BitsStep(p, 0, d, n);
    NumberStep(p.rest, 0, d, n);
    BitsStep(q, 0, d, m);
    NumberStep(q.rest, 0, d, m);
  }

  lemma RegisterTells(d: Desc)
    ensures FixedMemory32Fields(d, Decode(T.FixedMemory32, d))
    ensures GenericRegisterFields(d, Decode(T.GenericRegister, d))
  {
    var p, n := FixedMemory32(), Decode(T.FixedMemory32, d);
    var q, m := GenericRegister(), Decode(T.GenericRegister, d);
    MemoryTables();
    DecodeIsFaithful(T.FixedMemory32, d);
    DecodeIsFaithful(T.GenericRegister, d);
    hide Faithful, Decode, ToNativeTable, IsBits;
    BitsStep(p, 0, d, n);
    NumberStep(p.rest, 0, d, n);
    NumberStep(p.rest.rest, 0, d, n);
    NumberStep(q, 0, d, m);
    NumberStep(q.rest, 0, d, m);
  }

  lemma GeneralFlagsTell(rest: Program, d: Desc, n: Native)
    requires Faithful(GeneralFlags(rest), 0, d, n)
    ensures IsBits(n.bytes(5), d.bytes(4), 0, 1) && IsBits(n.bytes(6), d.bytes(4), 1, 1)
    ensures IsBits(n.bytes(7), d.bytes(4), 2, 1) && IsBits(n.bytes(8), d.bytes(4), 3, 1)
    ensures Faithful(rest, 0, d, n)
  {
    hide Faithful, IsBits;
    var p := GeneralFlags(rest);
    BitsStep(p, 0, d, n);
    BitsStep(p.rest, 0, d, n);
    BitsStep(p.rest.rest, 0, d, n);
    BitsStep(p.rest.rest.rest, 0, d, n);
  }

  lemma TypeFlagsTell(d: Desc, n: Native)
    requires Faithful(TypeFlags(), 0, d, n)
    ensures AttributeFields(d, n) && n.bytes(4) == d.bytes(3)
  {
    hide Faithful, IsBits, ToNat, MemoryFlags;
    var acc := ToNat(d.bytes(3));
    FaithfulStep(TypeFlags(), 0, d, n);
    TypeIs(d.bytes(3));
    if acc == 0 {
      MemoryFlagsTell(d, n);
    } else {
      OtherFlagsTell(acc, d, n);
    }
  }

  lemma TypeIs(b: bv8)
    ensures (ToNat(b) == 0 <==> b == 0) && (ToNat(b) == 1 <==> b == 1)
  {
  }

  lemma MemoryFlagsTell(d: Desc, n: Native)
    requires Faithful(MemoryFlags(), 0, d, n)
    ensures IsBits(n.bytes(0), d.bytes(5), 0, 1) && IsBits(n.bytes(1), d.bytes(5), 1, 2)
    ensures IsBits(n.bytes(2), d.bytes(5), 3, 2) && IsBits(n.bytes(3), d.bytes(5), 5, 1)
  {
    hide Faithful, IsBits, IoFlags;
    var p := MemoryFlagsOr(IoFlags());
    FaithfulStep(p, 0, d, n);
    DropIs(p.rest, 0);
    BitsStep(p.rest, 0, d, n);
    BitsStep(p.rest.rest, 0, d, n);
    BitsStep(p.rest.rest.rest, 0, d, n);
    BitsStep(p.rest.rest.rest.rest, 0, d, n);
  }

  lemma OtherFlagsTell(acc: nat, d: Desc, n: Native)
    requires Faithful(MemoryFlags(), acc, d, n) && acc != 0
    ensures if acc == 1 then IsBits(n.bytes(0), d.bytes(5), 0, 2) && IsBits(n.bytes(1), d.bytes(5), 5, 1)
                             && IsBits(n.bytes(2), d.bytes(5), 4, 1)
            else n.bytes(0) == d.bytes(5)
  {
    hide Faithful, IsBits, OtherFlags;
    var p, q := MemoryFlagsOr(IoFlagsOr(OtherFlags())), IoFlagsOr(OtherFlags());
    FaithfulStep(p, acc, d, n);
    SkipsFive(q);
    FaithfulStep(q, acc, d, n);
    if acc == 1 {
      DropIs(q.rest, 0);
      BitsStep(q.rest, 1, d, n);
      BitsStep(q.rest.rest, 1, d, n);
      BitsStep(q.rest.rest.rest, 1, d, n);
    } else {
      SkipsFour(OtherFlags());
      OtherByte(acc, d, n);
    }
  }

  lemma SkipsFive(other: Program)
    ensures Drop(MemoryFlagsOr(other).rest, 5) == other
  {
    var p := MemoryFlagsOr(other).rest;
    DropIs(p, 5);
    DropIs(p.rest, 4);
    DropIs(p.rest.rest, 3);
    DropIs(p.rest.rest.rest, 2);
    DropIs(p.rest.rest.rest.rest, 1);
    DropIs(other, 0);
  }

  lemma SkipsFour(other: Program)
    ensures Drop(IoFlagsOr(other).rest, 4) == other
  {
    var p := IoFlagsOr(other).rest;
    DropIs(p, 4);
    DropIs(p.rest, 3);
    DropIs(p.rest.rest, 2);
    DropIs(p.rest.rest.rest, 1);
    DropIs(other, 0);
  }

  lemma OtherByte(acc: nat, d: Desc, n: Native)
    requires Faithful(OtherFlags(), acc, d, n)
    ensures n.bytes(0) == d.bytes(5)
  {
    hide Faithful;
    NumberStep(OtherFlags(), acc, d, n);
  }

  lemma AddressTells(kind: T.Kind, native: nat, width: nat, d: Desc)
    requires ToNativeTable(kind) == Address(native, width) && width in {2, 4, 8}
    ensures AddressFields(native, width, d, Decode(kind, d))
  {
    var n := Decode(kind, d);
    DecodeIsFaithful(kind, d);
    hide Faithful, Decode, ToNativeTable, IsBits, IsNumber, TypeFlags, AttributeFields;
    var p := Then(Field(6, native, width, 5), Then(ResourceSource, TypeFlags()));
    GeneralFlagsTell(p, d, n);
    NumberStep(p, 0, d, n);
    FaithfulStep(p.rest, 0, d, n);
    TypeFlagsTell(d, n);
    FiveNumbers(native, width, d, n);
  }

  lemma FiveNumbers(native: nat, width: nat, d: Desc, n: Native)
    requires width in {2, 4, 8} && IsNumber(n, native, d, 6, FieldCount(Field(6, native, width, 5), 0))
    ensures IsNumber(n, native, d, 6, width) && IsNumber(n, native + width, d, 6 + width, width)
    ensures IsNumber(n, native + 2 * width, d, 6 + 2 * width, width)
    ensures IsNumber(n, native + 3 * width, d, 6 + 3 * width, width)
    ensures IsNumber(n, native + 4 * width, d, 6 + 4 * width, width)
  {
  }

  lemma ExtendedAddressTells(d: Desc)
    ensures ExtendedAddressFields(d, Decode(T.Address64Extended, d))
  {
    var n := Decode(T.Address64Extended, d);
    AddressTables();
    DecodeIsFaithful(T.Address64Extended, d);
    hide Faithful, Decode, ToNativeTable, IsBits, TypeFlags, AttributeFields;
    var p := Then(Field(6, 9, 1, 0), Then(Field(8, 16, 8, 6), TypeFlags()));
    GeneralFlagsTell(p, d, n);
    NumberStep(p, 0, d, n);
    NumberStep(p.rest, 0, d, n);
    TypeFlagsTell(d, n);
  }

  lemma ExtendedIrqTells(d: Desc)
    ensures ExtendedIrqFields(d, Decode(T.ExtendedIrq, d))
  {
    var n := Decode(T.ExtendedIrq, d);
    AddressTables();
    DecodeIsFaithful(T.ExtendedIrq, d);
    hide Faithful, Decode, ToNativeTable, IsBits, ToNat, IrqNumbers;
    var p := IrqFlags(IrqNumbers());
    BitsStep(p, 0, d, n);
    BitsStep(p.rest, 0, d, n);
    BitsStep(p.rest.rest, 0, d, n);
    BitsStep(p.rest.rest.rest, 0, d, n);
    BitsStep(p.rest.rest.rest.rest, 0, d, n);
    IrqNumbersTell(d, n);
  }

  lemma IrqNumbersTell(d: Desc, n: Native)
    requires Faithful(IrqNumbers(), 0, d, n)
    ensures n.bytes(5) == d.bytes(4) && IsNumber(n, 24, d, 5, 4 * ToNat(d.bytes(4)))
  {
    hide Faithful, ToNat;
    var p, acc := IrqNumbers(), 4 * ToNat(d.bytes(4));
    FaithfulStep(p, 0, d, n);
    FaithfulStep(p.rest, acc, d, n);
    NumberStep(p.rest.rest, acc, d, n);
  }

  lemma SmallFields(kind: T.Kind, d: Desc)
    requires kind.Irq? || kind.StartDependent? || kind.Dma? || kind.Io? || kind.FixedIo? || kind.FixedDma?
    ensures NativeFields(kind, d, Decode(kind, d))
  {
    hide Decode, IrqFields, StartDependentFields, DmaFields, IoFields, FixedIoFields, FixedDmaFields;
    match kind
    case Irq => IrqTells(d);
    case StartDependent => StartTells(d);
    case Dma => DmaTells(d);
    case Io => PortsTell(d);
    case FixedIo => FixedTell(d);
    case FixedDma => FixedTell(d);
  }

  lemma MemoryFields(kind: T.Kind, d: Desc)
    requires kind.Memory24? || kind.Memory32? || kind.FixedMemory32? || kind.GenericRegister?
    ensures NativeFields(kind, d, Decode(kind, d))
  {
    hide Decode, Memory24Fields, Memory32Fields, FixedMemory32Fields, GenericRegisterFields;
    if kind.Memory24? || kind.Memory32? {
      MemoryTells(d);
    } else {
      RegisterTells(d);
    }
  }

  lemma RangeFields(kind: T.Kind, d: Desc)
    requires kind.Address16? || kind.Address32? || kind.Address64? || kind.Address64Extended? || kind.ExtendedIrq?
    ensures NativeFields(kind, d, Decode(kind, d))
  {
    hide Decode, Address, Address64Extended, ExtendedIrq, ToNativeTable, AddressFields, ExtendedAddressFields;
    hide ExtendedIrqFields;
    AddressTables();
    match kind
    case Address16 => AddressTells(kind, 10, 2, d);
    case Address32 => AddressTells(kind, 12, 4, d);
    case Address64 => AddressTells(kind, 16, 8, d);
    case Address64Extended => ExtendedAddressTells(d);
    case ExtendedIrq => ExtendedIrqTells(d);
  }

  /** Every field of the native structure holds what its name says. */
  lemma DecodedFields(kind: T.Kind, d: Desc)
    ensures NativeFields(kind, d, Decode(kind, d))
  {
    hide Decode, NativeFields;
    if kind.Memory24? || kind.Memory32? || kind.FixedMemory32? || kind.GenericRegister? {
      MemoryFields(kind, d);
    } else if kind.Address16? || kind.Address32? || kind.Address64? || kind.Address64Extended? || kind.ExtendedIrq? {
      RangeFields(kind, d);
    } else if kind.Irq? || kind.StartDependent? || kind.Dma? || kind.Io? || kind.FixedIo? || kind.FixedDma? {
      SmallFields(kind, d);
    } else {
      NoFields(kind, d, Decode(kind, d));
    }
  }

  lemma NoFields(kind: T.Kind, d: Desc, n: Native)
    requires !(kind.Memory24? || kind.Memory32? || kind.FixedMemory32? || kind.GenericRegister?)
    requires !(kind.Address16? || kind.Address32? || kind.Address64? || kind.Address64Extended? || kind.ExtendedIrq?)
    requires !(kind.Irq? || kind.StartDependent? || kind.Dma? || kind.Io? || kind.FixedIo? || kind.FixedDma?)
    ensures NativeFields(kind, d, n)
  {
  }

  /** The same in memory, whatever comes next: an empty list overwrites no field. */
  lemma StoredFields(kind: T.Kind, d: Desc, next: Option<T.Kind>)
    ensures NativeFields(kind, d, Stored(kind, d, next))
    ensures HasSource(kind) && !Smeared(kind, d) ==>
              IsSource(Stored(kind, d, next).source, d, d.base + Extra(kind, d))
  {
    hide Decode, IsBits, ToNat, SourceAt, IsSource;
    DecodedFields(kind, d);
    if HasSource(kind) {
      SourceOf(kind, d);
      SourceTells(d, Extra(kind, d));
    }
    if kind.ExtendedIrq? {
      Zero();
    }
  }

  // The short forms

  /** An interrupt is written without its flags exactly if the length kind lets it be and
      triggering, polarity and sharing are those that such a descriptor is read with. */
  lemma ShortIrq(n: Native, d: Desc)
    requires d.size < 3
    ensures AmlLength(T.Irq, n) in {3, 4}
    ensures AmlLength(T.Irq, n) == 3
            <==> (n.bytes(0) == 0 || n.bytes(0) == 1)
                 && forall k: nat | 1 <= k <= 3 :: n.bytes(k) == Decode(T.Irq, d).bytes(k)
  {
    hide Decode, ToNat, ListsBits;
    IrqTells(d);
    TypeIs(n.bytes(0));
    TypeIs(n.bytes(1));
    TypeIs(n.bytes(2));
    TypeIs(n.bytes(3));
  }

  /** A start of dependent functions is written without its priorities exactly if the length
      kind lets it be and the priorities are those that such a descriptor is read with. */
  lemma ShortStart(n: Native, d: Desc)
    requires d.size < 1
    ensures AmlLength(T.StartDependent, n) in {1, 2}
    ensures AmlLength(T.StartDependent, n) == 1
            <==> (n.bytes(0) == 0 || n.bytes(0) == 1)
                 && forall k: nat | 1 <= k <= 2 :: n.bytes(k) == Decode(T.StartDependent, d).bytes(k)
  {
    hide Decode, ToNat;
    StartTells(d);
    TypeIs(n.bytes(0));
    TypeIs(n.bytes(1));
    TypeIs(n.bytes(2));
  }

  /** The wake capability is not looked at: the short form of a capable interrupt is read as
      that of one that is not. */
  lemma WakeIsLost() returns (n: Native)
    ensures n.bytes(4) == 1 && AmlLength(T.Irq, n) == 3
    ensures forall d: Desc | d.size < 3 :: Decode(T.Irq, d).bytes(4) == 0
  {
    hide Decode, ToNat, ListsBits;
    n := Native((k: nat) => if k == 1 || k == 4 then 1 else 0, Source(false, 0, []));
    TypeIs(0);
    TypeIs(1);
    forall d: Desc | d.size < 3
      ensures Decode(T.Irq, d).bytes(4) == 0
    {
      IrqTells(d);
    }
  }

  // The source on the way back, whatever structure it stands in

  lemma ToAmlStep(p: Program, acc: nat, size: nat, base: nat, n: Native, out: Buffer)
    requires p.Then? && !p.insn.End? && !IsSkip(p.insn)
    ensures ToAml(p, acc, size, base, n, out)
         == ToAml(p.rest, NativeAcc(p.insn, acc, n), size, base, n, StepToAml(p.insn, acc, base, n, out))
  {
    hide StepToAml;
  }

  /** The source, which a structure has if there is a string or an index is said to be there. */
  predicate HasAny(source: Source) { source.present || source.text != [] }

  /** Where the source of a native structure goes. */
  function SourceStart(kind: T.Kind, n: Native): nat {
    T.AmlSize(kind) + HeaderOf(kind) + if kind.ExtendedIrq? then 4 * ToNat(n.bytes(5)) else 0
  }

  lemma SourceWritten(acc: nat, base: nat, n: Native, out: Buffer)
    requires n.source.present
    ensures var r := StepToAml(ResourceSource, acc, base, n, out);
            && r(base + acc) == n.source.index
            && forall i: nat | i < |n.source.text| :: r(base + acc + 1 + i) == n.source.text[i]
  {
    var r := StepToAml(ResourceSource, acc, base, n, out);
    forall i: nat | i < |n.source.text|
      ensures r(base + acc + 1 + i) == n.source.text[i]
    {
      assert n.source.text[i] == n.source.text[base + acc + 1 + i - (base + acc + 1)];
    }
  }

  lemma AddressToAml(native: nat, width: nat, size: nat, base: nat, n: Native, out: Buffer, k: nat)
      returns (before: Buffer)
    requires width in {2, 4, 8} && k >= 6
    ensures ToAml(Address(native, width), 0, size, base, n, out)(k) == StepToAml(ResourceSource, 0, base, n, before)(k)
  {
    hide ToAml, StepToAml, TypeFlags, AmlWritesLater, Within, SourceLater;
    var p := Address(native, width);
    var insns := [p.insn, p.rest.insn, p.rest.rest.insn, p.rest.rest.rest.insn, p.rest.rest.rest.rest.insn];
    before := out;
    ToAmlStep(p, 0, size, base, n, before);
    before := StepToAml(insns[0], 0, base, n, before);
    ToAmlStep(p.rest, 0, size, base, n, before);
    before := StepToAml(insns[1], 0, base, n, before);
    ToAmlStep(p.rest.rest, 0, size, base, n, before);
    before := StepToAml(insns[2], 0, base, n, before);
    ToAmlStep(p.rest.rest.rest, 0, size, base, n, before);
    before := StepToAml(insns[3], 0, base, n, before);
    ToAmlStep(p.rest.rest.rest.rest, 0, size, base, n, before);
    before := StepToAml(insns[4], 0, base, n, before);
    ToAmlStep(p.rest.rest.rest.rest.rest, 0, size, base, n, before);
    var after := StepToAml(ResourceSource, 0, base, n, before);
    TypeFlagsLeave(size, base, n, after, k);
  }

  lemma TypeFlagsLeave(size: nat, base: nat, n: Native, out: Buffer, k: nat)
    requires k >= 6
    ensures ToAml(TypeFlags(), 0, size, base, n, out)(k) == out(k)
  {
    hide ToAml, TypeFlags, AmlWritesLater, Within, SourceLater;
    var l := Limits(9, 6, false);
    TypeFlagsWithin(l);
    TypeFlagsSourceless();
    if AmlWritesLater(TypeFlags(), 0, size, base, n, k) {
      AmlWritesWithin(TypeFlags(), 0, 0, l, size, base, n, k);
    }
    AmlLeavesRest(TypeFlags(), 0, size, base, n, out, k);
  }

  lemma ExtendedIrqToAml(size: nat, n: Native, out: Buffer, k: nat) returns (before: Buffer)
    requires k >= 5 + 4 * ToNat(n.bytes(5)) && k >= 6
    ensures ToAml(ExtendedIrq(), 0, size, 5, n, out)(k)
         == StepToAml(ResourceSource, 4 * ToNat(n.bytes(5)), 5, n, before)(k)
  {
    hide ToAml, StepToAml, IrqNumbers, ToNat;
    var p := IrqFlags(IrqNumbers());
    ToAmlStep(p, 0, size, 5, n, out);
    before := StepToAml(p.insn, 0, 5, n, out);
    ToAmlStep(p.rest, 0, size, 5, n, before);
    before := StepToAml(p.rest.insn, 0, 5, n, before);
    ToAmlStep(p.rest.rest, 0, size, 5, n, before);
    before := StepToAml(p.rest.rest.insn, 0, 5, n, before);
    ToAmlStep(p.rest.rest.rest, 0, size, 5, n, before);
    before := StepToAml(p.rest.rest.rest.insn, 0, 5, n, before);
    ToAmlStep(p.rest.rest.rest.rest, 0, size, 5, n, before);
    before := StepToAml(p.rest.rest.rest.rest.insn, 0, 5, n, before);
    before := IrqNumbersToAml(size, n, before, k);
  }

  lemma IrqNumbersToAml(size: nat, n: Native, out: Buffer, k: nat) returns (before: Buffer)
    requires k >= 5 + 4 * ToNat(n.bytes(5)) && k >= 6
    ensures ToAml(IrqNumbers(), 0, size, 5, n, out)(k)
         == StepToAml(ResourceSource, 4 * ToNat(n.bytes(5)), 5, n, before)(k)
  {
    hide ToAml, ToNat;
    var p, acc := IrqNumbers(), 4 * ToNat(n.bytes(5));
    ToAmlStep(p, 0, size, 5, n, out);
    before := StepToAml(p.insn, 0, 5, n, out);
    ToAmlStep(p.rest, acc, size, 5, n, before);
    var after := StepToAml(ResourceSource, acc, 5, n, before);
    ToAmlStep(p.rest.rest, acc, size, 5, n, after);
    EndsHere(p.rest.rest.rest, size, n, StepToAml(p.rest.rest.insn, acc, 5, n, after));
  }

  lemma EndsHere(p: Program, size: nat, n: Native, out: Buffer)
    requires Ends(p)
    ensures ToAml(p, 0, size, 5, n, out) == out
  {
  }

  /** A string is always written behind an index, and both count in the length; only the
      index behind an empty list is overwritten. */
  lemma EncodedSource(kind: T.Kind, n: Native, out: Buffer, i: nat)
    requires HasSource(kind)
    ensures AmlLength(kind, n) == SourceStart(kind, n) + |n.source.text| + if HasAny(n.source) then 1 else 0
    ensures HasAny(n.source) && !(kind.ExtendedIrq? && n.bytes(5) == 0) ==>
              Encode(kind, n, out)(SourceStart(kind, n)) == n.source.index
    ensures i < |n.source.text| ==> Encode(kind, n, out)(SourceStart(kind, n) + 1 + i) == n.source.text[i]
  {
    hide Encode, ToNat;
    TypeIs(n.bytes(5));
    var at := SourceStart(kind, n);
    if HasAny(n.source) {
      if !(kind.ExtendedIrq? && n.bytes(5) == 0) {
        SourceByte(kind, n, out, at, 0);
      }
      SourceByte(kind, n, out, at + 1 + i, i);
    }
  }

  lemma SourceByte(kind: T.Kind, n: Native, out: Buffer, k: nat, i: nat)
    requires HasSource(kind) && HasAny(n.source) && SourceStart(kind, n) <= k && k >= 6
    ensures k == SourceStart(kind, n) ==> Encode(kind, n, out)(k) == n.source.index
    ensures k == SourceStart(kind, n) + 1 + i && i < |n.source.text| ==> Encode(kind, n, out)(k) == n.source.text[i]
  {
    hide ToAml, ToNat, ToAmlTable, Address, Address64Extended, ExtendedIrq, StepToAml, HeaderNumber, AmlLength;
    AddressTables();
    var size, m := AmlLength(kind, n) - HeaderOf(kind), Corrected(kind, n);
    var headed := Headed(kind, size, out);
    if kind.ExtendedIrq? {
      var before := ExtendedIrqToAml(size, m, headed, k);
      SourceWritten(4 * ToNat(n.bytes(5)), 5, m, before);
    } else {
      var width := if kind.Address16? then 2 else if kind.Address32? then 4 else 8;
      var native := if kind.Address16? then 10 else if kind.Address32? then 12 else 16;
      var before := AddressToAml(native, width, size, 6 + 5 * width, m, headed, k);
      SourceWritten(0, 6 + 5 * width, m, before);
    }
  }
}

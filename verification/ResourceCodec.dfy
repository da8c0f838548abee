/** The resource converter of src/kern/acpi/resources.c: one interpreter runs a table of
    instructions from AML bytes to a native structure, another runs a table back. Both
    buffers are modelled as functions from offsets to bytes; the string of a resource
    source is kept as a value next to the native bytes instead of behind a pointer. */
module ResourceCodec {
  import opened Bits

  type Buffer = nat -> bv8

  datatype Insn =
    | End
    | PackedArray(aml: nat, native: nat, count: nat, bytes: nat) // mask <-> list of bit numbers
    | BitField(aml: nat, native: nat, width: nat, index: nat)
    | Field(aml: nat, native: nat, bytes: nat, imm: nat)
    | SkipIfSizeLess(least: nat, skip: nat)
    | SkipIfNotEquals(value: nat, skip: nat)
    | SetToImm(aml: nat, native: nat, imm: nat) // stores to whatever is the destination
    | Load8Store(aml: nat, native: nat, imm: nat)
    | ResourceSource

  /** A table from the current instruction on. */
  datatype Program = Stop | Then(insn: Insn, rest: Program)

  predicate Ends(p: Program) { p.Stop? || p.insn.End? }

  function Drop(p: Program, count: nat): (r: Program)
    ensures r == p || r < p
  {
    if count == 0 || p.Stop? then p else Drop(p.rest, count - 1)
  }

  datatype Source = Source(present: bool, index: bv8, text: seq<bv8>)

  datatype Native = Native(bytes: Buffer, source: Source)

  /** An AML descriptor: its bytes, the size its header claims, the header size, and the
      size of its fixed part with header. */
  datatype Desc = Desc(bytes: Buffer, size: nat, header: nat, base: nat)

  function Zeros(): Buffer { (k: nat) => 0 }

  function Put(b: Buffer, at: nat, v: bv8): Buffer { (k: nat) => if k == at then v else b(k) }

  function CopyTo(dst: Buffer, to: nat, src: Buffer, from: nat, count: nat): Buffer {
    (k: nat) => if to <= k < to + count then src(from + (k - to)) else dst(k)
  }

  function PutAll(dst: Buffer, to: nat, values: seq<bv8>): Buffer {
    (k: nat) => if to <= k < to + |values| then values[k - to] else dst(k)
  }

  // Control, the same in both directions

  /** Field instructions exist for one, two, four and eight bytes. */
  function Scaled(bytes: nat, count: nat): nat {
    if bytes == 1 then count else if bytes == 2 then 2 * count else if bytes == 4 then 4 * count else 8 * count
  }

  function FieldCount(insn: Insn, acc: nat): nat
    requires insn.Field?
  {
    var repeat := if insn.imm == 0xFF then 0 else acc + insn.imm;
    Scaled(insn.bytes, if repeat == 0 then 1 else repeat)
  }

  /** What comes next, and the accumulator; `loaded` is the byte a load reads. */
  function After(p: Program, acc: nat, size: nat, loaded: nat): (r: (Program, nat))
    requires p.Then?
    ensures r.0 < p
  {
    match p.insn
    case SkipIfSizeLess(least, skip) => (if size < least then Drop(p.rest, skip) else p.rest, acc)
    case SkipIfNotEquals(value, skip) => (if value != acc then Drop(p.rest, skip) else p.rest, acc)
    case Field(_, _, _, _) => (p.rest, 0)
    case Load8Store(_, _, imm) => (p.rest, if imm == 0 then loaded else loaded * imm)
    case _ => (p.rest, acc)
  }

  function Loaded(insn: Insn, b: Buffer, native: bool): nat {
    if insn.Load8Store? then ToNat(b(if native then insn.native else insn.aml)) else 0
  }

  // Packed arrays

  /** The numbers, from i on, of the bits that are set in the mask. */
  function BitNumbers(mask: bv16, i: nat): (r: seq<bv8>)
    requires i <= 16
    ensures |r| <= 16 - i
    decreases 16 - i
  {
    if i == 16 then [] else (if HasBit(mask, i) then [ToByte(i)] else []) + BitNumbers(mask, i + 1)
  }

  /** The mask with the bits of these numbers. */
  function Rebuilt(numbers: seq<bv8>): bv16 {
    if numbers == [] then 0 else OneBit(ToNat(numbers[0])) | Rebuilt(numbers[1..])
  }

  predicate HasBit(mask: bv16, i: nat) { i < 16 && (mask >> i) & 1 == 1 }

  function OneBit(i: nat): bv16 { if i < 16 then 1 << i else 0 }

  function MaskAt(b: Buffer, at: nat, bytes: nat): bv16 {
    Word(b(at), if bytes == 2 then b(at + 1) else 0)
  }

  function Word(low: bv8, high: bv8): bv16 { (low as bv16) | ((high as bv16) << 8) }

  function LowByte(mask: bv16): bv8 { (mask & 0xFF) as bv8 }

  function HighByte(mask: bv16): bv8 { (mask >> 8) as bv8 }

  function Taken(b: Buffer, at: nat, count: nat): (r: seq<bv8>)
    ensures |r| == count
  {
    seq(count, i requires 0 <= i < count => b(at + i))
  }

  // Resource sources

  /** The string at `from`, up to and with its terminator or the end of the descriptor. */
  function TextAt(b: Buffer, from: nat, end: nat): (r: seq<bv8>)
    ensures |r| <= if from < end then end - from else 0
    decreases end - from
  {
    if from >= end then [] else [b(from)] + if b(from) == 0 then [] else TextAt(b, from + 1, end)
  }

  function SourceAt(d: Desc, acc: nat): Source {
    var at, end := d.base + acc, d.size + d.header;
    if at >= end then Source(false, 0, []) else Source(true, d.bytes(at), TextAt(d.bytes, at + 1, end))
  }

  // AML to native

  function StepToNative(insn: Insn, acc: nat, d: Desc, n: Native): Native {
    match insn
    case PackedArray(aml, native, count, bytes) =>
      var numbers := BitNumbers(MaskAt(d.bytes, aml, bytes), 0);
      n.(bytes := Put(PutAll(n.bytes, native, numbers), count, ToByte(|numbers|)))
    case BitField(aml, native, width, index) =>
      n.(bytes := Put(n.bytes, native, And(Shr(d.bytes(aml), index), LowMask(width))))
    case Field(aml, native, _, _) => n.(bytes := CopyTo(n.bytes, native, d.bytes, aml, FieldCount(insn, acc)))
    case SetToImm(_, native, imm) => n.(bytes := Put(n.bytes, native, ToByte(imm)))
    case Load8Store(aml, native, _) => n.(bytes := Put(n.bytes, native, d.bytes(aml)))
    case ResourceSource => n.(source := SourceAt(d, acc))
    case _ => n
  }

  function ToNative(p: Program, acc: nat, d: Desc, n: Native): Native
    decreases p
  {
    if Ends(p) then n
    else
      var (next, acc') := After(p, acc, d.size, Loaded(p.insn, d.bytes, false));
      ToNative(next, acc', d, StepToNative(p.insn, acc, d, n))
  }

  // Native to AML; of the descriptor only its sizes are used

  function StepToAml(insn: Insn, acc: nat, base: nat, n: Native, out: Buffer): Buffer {
    match insn
    case PackedArray(aml, native, count, bytes) =>
      var mask := Rebuilt(Taken(n.bytes, native, ToNat(n.bytes(count))));
      var low := Put(out, aml, LowByte(mask));
      if bytes == 2 then Put(low, aml + 1, HighByte(mask)) else low
    case BitField(aml, native, _, index) => Put(out, aml, Or(out(aml), Shl(n.bytes(native), index)))
    case Field(aml, native, _, _) => CopyTo(out, aml, n.bytes, native, FieldCount(insn, acc))
    case SetToImm(aml, _, imm) => Put(out, aml, ToByte(imm))
    case Load8Store(aml, native, _) => Put(out, aml, n.bytes(native))
    case ResourceSource =>
      var at := base + acc;
      if n.source.present then PutAll(Put(out, at, n.source.index), at + 1, n.source.text)
      else PutAll(out, at, n.source.text)
    case _ => out
  }

  function ToAml(p: Program, acc: nat, size: nat, base: nat, n: Native, out: Buffer): Buffer
    decreases p
  {
    if Ends(p) then out
    else
      var (next, acc') := After(p, acc, size, Loaded(p.insn, n.bytes, true));
      ToAml(next, acc', size, base, n, StepToAml(p.insn, acc, base, n, out))
  }

  // What the native structure has to say about the descriptor along a run

  ghost predicate Holds(insn: Insn, acc: nat, d: Desc, n: Native) {
    match insn
    case PackedArray(aml, native, count, bytes) =>
      var numbers := BitNumbers(MaskAt(d.bytes, aml, bytes), 0);
      && ToNat(n.bytes(count)) == |numbers|
      && forall k: nat | native <= k < native + |numbers| :: n.bytes(k) == numbers[k - native]
    case BitField(aml, native, width, index) => n.bytes(native) == And(Shr(d.bytes(aml), index), LowMask(width))
    case Field(aml, native, _, _) =>
      forall k: nat | native <= k < native + FieldCount(insn, acc) :: n.bytes(k) == d.bytes(aml + (k - native))
    case Load8Store(aml, native, _) => n.bytes(native) == d.bytes(aml)
    case SetToImm(_, native, imm) => n.bytes(native) == ToByte(imm)
    case ResourceSource => n.source == SourceAt(d, acc)
    case _ => true
  }

  ghost predicate Faithful(p: Program, acc: nat, d: Desc, n: Native)
    decreases p
  {
    Ends(p) ||
    (Holds(p.insn, acc, d, n) &&
     var (next, acc') := After(p, acc, d.size, Loaded(p.insn, d.bytes, false));
     Faithful(next, acc', d, n))
  }

  // Which native bytes an instruction writes

  predicate Writes(insn: Insn, acc: nat, d: Desc, k: nat) {
    match insn
    case PackedArray(aml, native, count, bytes) =>
      k == count || native <= k < native + |BitNumbers(MaskAt(d.bytes, aml, bytes), 0)|
    case BitField(_, native, _, _) => k == native
    case Field(_, native, _, _) => native <= k < native + FieldCount(insn, acc)
    case SetToImm(_, native, _) => k == native
    case Load8Store(_, native, _) => k == native
    case _ => false
  }

  predicate WritesLater(p: Program, acc: nat, d: Desc, k: nat)
    decreases p
  {
    !Ends(p) &&
    (Writes(p.insn, acc, d, k) ||
     var (next, acc') := After(p, acc, d.size, Loaded(p.insn, d.bytes, false));
     WritesLater(next, acc', d, k))
  }

  predicate SourceLater(p: Program) {
    p.Then? && (p.insn.ResourceSource? || SourceLater(p.rest))
  }

  lemma {:induction false} DropsSource(p: Program, count: nat)
    ensures SourceLater(Drop(p, count)) ==> SourceLater(p)
  {
    if count > 0 && p.Then? {
      DropsSource(p.rest, count - 1);
    }
  }

  /** No later instruction of the run writes what an earlier one wrote. */
  ghost predicate Clean(p: Program, acc: nat, d: Desc)
    decreases p
  {
    Ends(p) ||
    var (next, acc') := After(p, acc, d.size, Loaded(p.insn, d.bytes, false));
    (forall k: nat | Writes(p.insn, acc, d, k) :: !WritesLater(next, acc', d, k)) &&
    (p.insn.ResourceSource? ==> !SourceLater(next)) &&
    Clean(next, acc', d)
  }

  lemma StepHolds(insn: Insn, acc: nat, d: Desc, n: Native)
    ensures Holds(insn, acc, d, StepToNative(insn, acc, d, n))
    requires CheckedInsn(insn)
    ensures forall k: nat | !Writes(insn, acc, d, k) :: StepToNative(insn, acc, d, n).bytes(k) == n.bytes(k)
  {
    hide BitNumbers, TextAt, ToNat, ToByte;
    if insn.PackedArray? {
      ByteIsNumber(|BitNumbers(MaskAt(d.bytes, insn.aml, insn.bytes), 0)|);
    }
  }

  lemma HoldsKept(insn: Insn, acc: nat, d: Desc, n: Native, n': Native)
    requires Holds(insn, acc, d, n) && forall k: nat | Writes(insn, acc, d, k) :: n'.bytes(k) == n.bytes(k)
    requires insn.ResourceSource? ==> n'.source == n.source
    ensures Holds(insn, acc, d, n')
  {
    hide BitNumbers, TextAt;
    match insn
    case PackedArray(aml, native, count, bytes) =>
      assert Writes(insn, acc, d, count);
    case BitField(_, native, _, _) => assert Writes(insn, acc, d, native);
    case Load8Store(_, native, _) => assert Writes(insn, acc, d, native);
    case SetToImm(_, native, _) => assert Writes(insn, acc, d, native);
    case _ =>
  }

  predicate CheckedInsn(insn: Insn) {
    && (insn.BitField? ==> insn.index + insn.width <= 8)
    && (insn.PackedArray? ==> insn.bytes in {1, 2} && !(insn.native <= insn.count < insn.native + 16))
    && (insn.Load8Store? ==> insn.imm <= 4)
  }

  predicate AllChecked(p: Program) {
    p.Stop? || (CheckedInsn(p.insn) && AllChecked(p.rest))
  }

  lemma {:induction false} DropsChecked(p: Program, count: nat)
    requires AllChecked(p)
    ensures AllChecked(Drop(p, count))
  {
    if count > 0 && p.Then? {
      DropsChecked(p.rest, count - 1);
    }
  }

  /** No instruction of the table stores a constant. */
  predicate NoConstants(p: Program) {
    p.Stop? || (!p.insn.SetToImm? && NoConstants(p.rest))
  }

  lemma {:induction false} DropsNoConstants(p: Program, count: nat)
    requires NoConstants(p)
    ensures NoConstants(Drop(p, count))
  {
    if count > 0 && p.Then? {
      DropsNoConstants(p.rest, count - 1);
    }
  }

  /** What holds of all instructions holds of those after the current one. */
  lemma NextChecked(p: Program, acc: nat, size: nat, loaded: nat)
    requires p.Then? && AllChecked(p)
    ensures CheckedInsn(p.insn) && AllChecked(After(p, acc, size, loaded).0)
    ensures SourceLater(After(p, acc, size, loaded).0) ==> SourceLater(p.rest)
    ensures NoConstants(p) ==> NoConstants(After(p, acc, size, loaded).0)
  {
    hide CheckedInsn;
    if IsSkip(p.insn) {
      if NoConstants(p) {
        DropsNoConstants(p.rest, p.insn.skip);
      }
      DropsChecked(p.rest, p.insn.skip);
      DropsSource(p.rest, p.insn.skip);
    }
  }

  predicate IsSkip(insn: Insn) { insn.SkipIfSizeLess? || insn.SkipIfNotEquals? }

  lemma {:induction false} LeavesRest(p: Program, acc: nat, d: Desc, n: Native, k: nat)
    requires AllChecked(p)
    ensures !WritesLater(p, acc, d, k) ==> ToNative(p, acc, d, n).bytes(k) == n.bytes(k)
    ensures !SourceLater(p) ==> ToNative(p, acc, d, n).source == n.source
    decreases p
  {
    hide Writes, StepToNative;
    if !Ends(p) {
      var (next, acc') := After(p, acc, d.size, Loaded(p.insn, d.bytes, false));
      var n1 := StepToNative(p.insn, acc, d, n);
      NextChecked(p, acc, d.size, Loaded(p.insn, d.bytes, false));
      StepHolds(p.insn, acc, d, n);
      StepSource(p.insn, acc, d, n);
      LeavesRest(next, acc', d, n1, k);
    }
  }

  lemma StepSource(insn: Insn, acc: nat, d: Desc, n: Native)
    ensures !insn.ResourceSource? ==> StepToNative(insn, acc, d, n).source == n.source
  {
  }

  /** A run without overlaps leaves a native structure that tells everything it read. */
  lemma {:induction false} NativeIsFaithful(p: Program, acc: nat, d: Desc, n: Native)
    requires AllChecked(p) && Clean(p, acc, d)
    ensures Faithful(p, acc, d, ToNative(p, acc, d, n))
    decreases p
  {
    hide Writes, StepToNative, Holds;
    if !Ends(p) {
      var (next, acc') := After(p, acc, d.size, Loaded(p.insn, d.bytes, false));
      var n1 := StepToNative(p.insn, acc, d, n);
      var n2 := ToNative(next, acc', d, n1);
      NextChecked(p, acc, d.size, Loaded(p.insn, d.bytes, false));
      StepHolds(p.insn, acc, d, n);
      NativeIsFaithful(next, acc', d, n1);
      forall k: nat | Writes(p.insn, acc, d, k)
        ensures n2.bytes(k) == n1.bytes(k)
      {
        LeavesRest(next, acc', d, n1, k);
      }
      LeavesRest(next, acc', d, n1, 0);
      HoldsKept(p.insn, acc, d, n1, n2);
    }
  }

  // Which AML bits come back

  /** The bits an instruction restores, added to those restored before it. */
  function Restore(insn: Insn, acc: nat, d: Desc, m: Buffer): Buffer {
    match insn
    case PackedArray(aml, _, _, bytes) =>
      if bytes == 2 then Put(Put(m, aml, 0xFF), aml + 1, 0xFF) else Put(m, aml, 0xFF)
    case BitField(aml, _, width, index) => Put(m, aml, Or(m(aml), Shl(LowMask(width), index)))
    case Field(aml, _, _, _) => (k: nat) => if aml <= k < aml + FieldCount(insn, acc) then 0xFF else m(k)
    case Load8Store(aml, _, _) => Put(m, aml, 0xFF)
    case ResourceSource =>
      var at, source := d.base + acc, SourceAt(d, acc);
      (k: nat) => if source.present && at <= k <= at + |source.text| then 0xFF else m(k)
    case _ => m
  }

  function Restored(p: Program, acc: nat, d: Desc, m: Buffer): Buffer
    decreases p
  {
    if Ends(p) then m
    else
      var (next, acc') := After(p, acc, d.size, Loaded(p.insn, d.bytes, false));
      Restored(next, acc', d, Restore(p.insn, acc, d, m))
  }

  /** The output has the bits of the descriptor that are in the mask, and no others. */
  ghost predicate Shows(out: Buffer, d: Desc, m: Buffer) {
    forall k: nat :: out(k) == And(d.bytes(k), m(k))
  }

  lemma FieldRoundTrip(v: bv8, width: nat, index: nat)
    requires index + width <= 8
    ensures Shl(And(Shr(v, index), LowMask(width)), index) == And(v, Shl(LowMask(width), index))
  {
    hide And, Shl, Shr, LowMask, BitOf;
    var field, mask := And(Shr(v, index), LowMask(width)), Shl(LowMask(width), index);
    forall k: nat | k < 8
      ensures BitOf(Shl(field, index), k) == BitOf(And(v, mask), k)
    {
      ShiftLeftBit(field, index, k);
      ShiftLeftBit(LowMask(width), index, k);
      AndBit(v, mask, k);
      if index <= k {
        LowMaskBit(width, k - index);
        AndBit(Shr(v, index), LowMask(width), k - index);
        ShiftRightBit(v, index, k - index);
      }
    }
    ByteExtensional(Shl(field, index), And(v, mask));
  }

  lemma MaskOr(v: bv8, a: bv8, b: bv8)
    ensures Or(And(v, a), And(v, b)) == And(v, Or(a, b))
  {
  }

  lemma AllBits(v: bv8)
    ensures And(v, 0xFF) == v
  {
  }

  /** The bits of the mask from i on. */
  function TopBits(mask: bv16, i: nat): bv16 { if i < 16 then (mask >> i) << i else 0 }

  lemma TopBitsSplit(mask: bv16, i: nat)
    requires i < 16
    ensures TopBits(mask, i) == (if HasBit(mask, i) then OneBit(i) else 0) | TopBits(mask, i + 1)
  {
    match i {
      case 0 => case 1 => case 2 => case 3 => case 4 => case 5 => case 6 => case 7 =>
      case 8 => case 9 => case 10 => case 11 => case 12 => case 13 => case 14 => case 15 =>
    }
  }

  lemma AllTopBits(mask: bv16)
    ensures TopBits(mask, 0) == mask
  {
  }

  lemma {:induction false} RebuiltFrom(mask: bv16, i: nat)
    requires i <= 16
    ensures Rebuilt(BitNumbers(mask, i)) == TopBits(mask, i)
    decreases 16 - i
  {
    hide HasBit, OneBit, ToByte, ToNat;
    if i == 16 {
      assert TopBits(mask, 16) == 0;
    } else {
      hide TopBits;
      RebuiltFrom(mask, i + 1);
      TopBitsSplit(mask, i);
      ByteIsNumber(i);
      var rest := BitNumbers(mask, i + 1);
      if HasBit(mask, i) {
        assert BitNumbers(mask, i)[0] == ToByte(i) && BitNumbers(mask, i)[1..] == rest;
      } else {
        assert BitNumbers(mask, i) == rest;
        OrZero(TopBits(mask, i + 1));
      }
    }
  }

  lemma OrZero(v: bv16)
    ensures 0 | v == v
  {
  }

  lemma WordBytes(low: bv8, high: bv8)
    ensures LowByte(Word(low, high)) == low && HighByte(Word(low, high)) == high
  {
  }

  lemma {:induction false} TextIs(b: Buffer, from: nat, end: nat, i: nat)
    requires i < |TextAt(b, from, end)|
    ensures TextAt(b, from, end)[i] == b(from + i)
    decreases end - from
  {
    if i > 0 {
      TextIs(b, from + 1, end, i - 1);
    }
  }

  lemma ArrayRoundTrip(insn: Insn, acc: nat, d: Desc, n: Native)
    requires insn.PackedArray? && Holds(insn, acc, d, n)
    ensures Rebuilt(Taken(n.bytes, insn.native, ToNat(n.bytes(insn.count)))) == MaskAt(d.bytes, insn.aml, insn.bytes)
  {
    hide ToNat, MaskAt, BitNumbers, Rebuilt;
    var mask := MaskAt(d.bytes, insn.aml, insn.bytes);
    var numbers := BitNumbers(mask, 0);
    assert Taken(n.bytes, insn.native, |numbers|) == numbers;
    RebuiltFrom(mask, 0);
    AllTopBits(mask);
  }

  /** One instruction back to AML restores exactly its bits. */
  lemma StepShows(insn: Insn, acc: nat, d: Desc, n: Native, out: Buffer, m: Buffer)
    requires CheckedInsn(insn) && !insn.SetToImm? && Holds(insn, acc, d, n) && Shows(out, d, m)
    ensures Shows(StepToAml(insn, acc, d.base, n, out), d, Restore(insn, acc, d, m))
  {
    hide And, Or, Shl, Shr, LowMask, ToNat, ToByte, BitNumbers, Rebuilt, Taken, Word, LowByte, HighByte;
    match insn
    case PackedArray(aml, _, _, bytes) =>
      ArrayRoundTrip(insn, acc, d, n);
      WordBytes(d.bytes(aml), if bytes == 2 then d.bytes(aml + 1) else 0);
      AllBits(d.bytes(aml));
      AllBits(d.bytes(aml + 1));
    case BitField(aml, _, width, index) =>
      FieldRoundTrip(d.bytes(aml), width, index);
      MaskOr(d.bytes(aml), m(aml), Shl(LowMask(width), index));
    case Load8Store(aml, _, _) => AllBits(d.bytes(aml));
    case Field(_, _, _, _) => FieldShows(insn, acc, d, n, out, m);
    case ResourceSource => SourceShows(acc, d, n, out, m);
    case _ =>
  }

  lemma FieldShows(insn: Insn, acc: nat, d: Desc, n: Native, out: Buffer, m: Buffer)
    requires insn.Field? && Holds(insn, acc, d, n) && Shows(out, d, m)
    ensures Shows(StepToAml(insn, acc, d.base, n, out), d, Restore(insn, acc, d, m))
  {
    hide And, FieldCount;
    forall k: nat
      ensures StepToAml(insn, acc, d.base, n, out)(k) == And(d.bytes(k), Restore(insn, acc, d, m)(k))
    {
      AllBits(d.bytes(k));
      if insn.aml <= k < insn.aml + FieldCount(insn, acc) {
        var j := insn.native + (k - insn.aml);
        assert n.bytes(j) == d.bytes(insn.aml + (j - insn.native));
      }
    }
  }

  lemma SourceShows(acc: nat, d: Desc, n: Native, out: Buffer, m: Buffer)
    requires Holds(ResourceSource, acc, d, n) && Shows(out, d, m)
    ensures Shows(StepToAml(ResourceSource, acc, d.base, n, out), d, Restore(ResourceSource, acc, d, m))
  {
    hide And, TextAt;
    var at, source := d.base + acc, SourceAt(d, acc);
    var out' := StepToAml(ResourceSource, acc, d.base, n, out);
    forall k: nat
      ensures out'(k) == And(d.bytes(k), Restore(ResourceSource, acc, d, m)(k))
    {
      AllBits(d.bytes(k));
      if source.present && at < k <= at + |source.text| {
        TextIs(d.bytes, at + 1, d.size + d.header, k - (at + 1));
      }
    }
  }

  /** From a faithful native structure the program restores exactly its bits. */
  lemma {:induction false} AmlShows(p: Program, acc: nat, d: Desc, n: Native, out: Buffer, m: Buffer)
    requires AllChecked(p) && NoConstants(p) && Faithful(p, acc, d, n) && Shows(out, d, m)
    ensures Shows(ToAml(p, acc, d.size, d.base, n, out), d, Restored(p, acc, d, m))
    decreases p
  {
    hide Shows, StepToAml, Restore;
    if !Ends(p) {
      NextChecked(p, acc, d.size, Loaded(p.insn, d.bytes, false));
      StepShows(p.insn, acc, d, n, out, m);
      LoadsAgree(p.insn, acc, d, n);
      var (next, acc') := After(p, acc, d.size, Loaded(p.insn, d.bytes, false));
      AmlShows(next, acc', d, n, StepToAml(p.insn, acc, d.base, n, out), Restore(p.insn, acc, d, m));
    }
  }

  lemma LoadsAgree(insn: Insn, acc: nat, d: Desc, n: Native)
    requires Holds(insn, acc, d, n)
    ensures Loaded(insn, n.bytes, true) == Loaded(insn, d.bytes, false)
  {
  }

  // A check on the table alone that makes every run clean

  /** No accumulator gets larger: a byte scaled by at most 4. */
  const MAX_LOAD: nat := 1020

  /** A bound for the accumulator after an instruction, from one before it. */
  function Bump(insn: Insn, bound: nat): nat {
    if insn.Load8Store? && bound < MAX_LOAD then MAX_LOAD else bound
  }

  /** All native bytes an instruction can write: one span, and the count of an array. */
  function SpanEnd(insn: Insn, maxAcc: nat): nat {
    match insn
    case PackedArray(_, native, _, _) => native + 16
    case BitField(_, native, _, _) => native + 1
    case Field(_, native, bytes, imm) =>
      native + Scaled(bytes, if imm == 0xFF then 1 else if maxAcc + imm == 0 then 1 else maxAcc + imm)
    case SetToImm(_, native, _) => native + 1
    case Load8Store(_, native, _) => native + 1
    case _ => 0
  }

  predicate HasSpan(insn: Insn) {
    insn.PackedArray? || insn.BitField? || insn.Field? || insn.SetToImm? || insn.Load8Store?
  }

  predicate InSpan(insn: Insn, maxAcc: nat, k: nat) {
    HasSpan(insn) && (insn.native <= k < SpanEnd(insn, maxAcc) || (insn.PackedArray? && k == insn.count))
  }

  predicate Disjoint(a: Insn, accA: nat, b: Insn, accB: nat) {
    (HasSpan(a) && HasSpan(b)) ==>
      && (SpanEnd(a, accA) <= b.native || SpanEnd(b, accB) <= a.native)
      && (a.PackedArray? ==> !InSpan(b, accB, a.count))
      && (b.PackedArray? ==> !InSpan(a, accA, b.count))
  }

  /** Nothing a run can still reach writes what `insn` writes. A run that meets no skip
      does not get past the next end. */
  predicate LaterDisjoint(insn: Insn, bound: nat, p: Program, later: nat, skipped: bool)
    decreases p
  {
    p.Stop? || (p.insn.End? && !skipped) ||
    (Disjoint(insn, bound, p.insn, later) && !(insn.ResourceSource? && p.insn.ResourceSource?)
     && LaterDisjoint(insn, bound, p.rest, Bump(p.insn, later), skipped || IsSkip(p.insn)))
  }

  predicate Checked(p: Program, bound: nat)
    decreases p
  {
    p.Stop? ||
    (CheckedInsn(p.insn)
     && (HasSpan(p.insn) || p.insn.ResourceSource? ==>
           LaterDisjoint(p.insn, bound, p.rest, Bump(p.insn, bound), p.insn.ResourceSource?))
     && Checked(p.rest, Bump(p.insn, bound)))
  }

  /** The bound after some more instructions. */
  function BoundAfter(p: Program, bound: nat, count: nat): (r: nat)
    ensures bound <= r
  {
    if count == 0 || p.Stop? then bound else BoundAfter(p.rest, Bump(p.insn, bound), count - 1)
  }

  lemma {:induction false} CheckedOn(p: Program, bound: nat, count: nat)
    requires Checked(p, bound)
    ensures Checked(Drop(p, count), BoundAfter(p, bound, count))
  {
    hide CheckedInsn, LaterDisjoint;
    if count > 0 && p.Then? {
      CheckedOn(p.rest, Bump(p.insn, bound), count - 1);
    }
  }

  lemma {:induction false} CheckedHasAll(p: Program, bound: nat)
    requires Checked(p, bound)
    ensures AllChecked(p)
  {
    hide CheckedInsn, LaterDisjoint;
    if p.Then? {
      CheckedHasAll(p.rest, Bump(p.insn, bound));
    }
  }

  lemma ScaledAtMost(a: nat, b: nat, c: nat)
    requires a <= b
    ensures a * c <= b * c && c * a <= c * b
  {
  }

  lemma AccBumps(p: Program, acc: nat, bound: nat, d: Desc)
    requires p.Then? && acc <= bound && CheckedInsn(p.insn)
    ensures After(p, acc, d.size, Loaded(p.insn, d.bytes, false)).1 <= Bump(p.insn, bound)
  {
    if p.insn.Load8Store? {
      ScaledAtMost(Loaded(p.insn, d.bytes, false), 255, p.insn.imm);
      ScaledAtMost(p.insn.imm, 4, 255);
    }
  }

  lemma WritesInSpan(insn: Insn, acc: nat, maxAcc: nat, d: Desc, k: nat)
    requires acc <= maxAcc && Writes(insn, acc, d, k)
    ensures InSpan(insn, maxAcc, k)
  {
    hide BitNumbers;
  }

  lemma DisjointSpans(a: Insn, accA: nat, b: Insn, accB: nat, k: nat)
    requires Disjoint(a, accA, b, accB) && InSpan(a, accA, k)
    ensures !InSpan(b, accB, k)
  {
    hide SpanEnd;
  }

  lemma {:induction false} LaterDisjointOn(insn: Insn, bound: nat, p: Program, later: nat, count: nat)
    requires LaterDisjoint(insn, bound, p, later, true)
    ensures LaterDisjoint(insn, bound, Drop(p, count), BoundAfter(p, later, count), true)
    decreases count
  {
    hide Disjoint;
    if count > 0 && p.Then? {
      LaterDisjointOn(insn, bound, p.rest, Bump(p.insn, later), count - 1);
    }
  }

  /** How many instructions the current one skips. */
  function Skipped(p: Program, acc: nat, size: nat): nat
    requires p.Then?
  {
    match p.insn
    case SkipIfSizeLess(least, skip) => if size < least then skip else 0
    case SkipIfNotEquals(value, skip) => if value != acc then skip else 0
    case _ => 0
  }

  lemma AfterDrops(p: Program, acc: nat, size: nat, loaded: nat)
    requires p.Then?
    ensures After(p, acc, size, loaded).0 == Drop(p.rest, Skipped(p, acc, size))
    ensures !IsSkip(p.insn) ==> Skipped(p, acc, size) == 0
  {
  }

  lemma {:induction false} NotWrittenLater(insn: Insn, bound: nat, k: nat, p: Program, acc: nat, later: nat,
                                           skipped: bool, d: Desc)
    requires InSpan(insn, bound, k) && LaterDisjoint(insn, bound, p, later, skipped) && acc <= later && AllChecked(p)
    ensures !WritesLater(p, acc, d, k)
    decreases p
  {
    hide Disjoint, InSpan, Writes, CheckedInsn, After, Skipped;
    if !Ends(p) {
      DisjointSpans(insn, bound, p.insn, later, k);
      if Writes(p.insn, acc, d, k) {
        WritesInSpan(p.insn, acc, later, d, k);
      }
      var loaded := Loaded(p.insn, d.bytes, false);
      AccBumps(p, acc, later, d);
      NextChecked(p, acc, d.size, loaded);
      AfterDrops(p, acc, d.size, loaded);
      var (next, acc') := After(p, acc, d.size, loaded);
      var count := Skipped(p, acc, d.size);
      if IsSkip(p.insn) {
        LaterDisjointOn(insn, bound, p.rest, Bump(p.insn, later), count);
        NotWrittenLater(insn, bound, k, next, acc', BoundAfter(p.rest, Bump(p.insn, later), count), true, d);
      } else {
        NotWrittenLater(insn, bound, k, next, acc', Bump(p.insn, later), skipped, d);
      }
    }
  }

  lemma {:induction false} NoSecondSource(insn: Insn, bound: nat, p: Program, later: nat)
    requires insn.ResourceSource? && LaterDisjoint(insn, bound, p, later, true)
    ensures !SourceLater(p)
    decreases p
  {
    hide Disjoint;
    if p.Then? {
      NoSecondSource(insn, bound, p.rest, Bump(p.insn, later));
    }
  }

  /** A checked table runs without overlaps on every descriptor. */
  lemma {:induction false} CheckedIsClean(p: Program, acc: nat, bound: nat, d: Desc)
    requires Checked(p, bound) && acc <= bound && AllChecked(p)
    ensures Clean(p, acc, d)
    decreases p
  {
    hide Writes, InSpan, Disjoint, CheckedInsn, After, Skipped;
    if !Ends(p) {
      var loaded := Loaded(p.insn, d.bytes, false);
      AccBumps(p, acc, bound, d);
      NextChecked(p, acc, d.size, loaded);
      AfterDrops(p, acc, d.size, loaded);
      var (next, acc') := After(p, acc, d.size, loaded);
      var count := Skipped(p, acc, d.size);
      CheckedOn(p.rest, Bump(p.insn, bound), count);
      CheckedIsClean(next, acc', BoundAfter(p.rest, Bump(p.insn, bound), count), d);
      forall k: nat | Writes(p.insn, acc, d, k)
        ensures !WritesLater(next, acc', d, k)
      {
        WritesInSpan(p.insn, acc, bound, d, k);
        SkipsWriteNothing(p.insn, acc, d, k);
        NotWrittenLater(p.insn, bound, k, next, acc', Bump(p.insn, bound), p.insn.ResourceSource?, d);
      }
      if p.insn.ResourceSource? {
        NoSecondSource(p.insn, bound, p.rest, Bump(p.insn, bound));
      }
    }
  }

  lemma SkipsWriteNothing(insn: Insn, acc: nat, d: Desc, k: nat)
    requires Writes(insn, acc, d, k)
    ensures !IsSkip(insn) && HasSpan(insn)
  {
  }

  /** A checked table without constants, used in both directions: decoding any descriptor
      and encoding the result again gives back the bits the table covers. */
  lemma ProgramRoundTrip(p: Program, d: Desc, blank: Native, out: Buffer, m: Buffer)
    requires Checked(p, 0) && NoConstants(p) && Shows(out, d, m)
    ensures Shows(ToAml(p, 0, d.size, d.base, ToNative(p, 0, d, blank), out), d, Restored(p, 0, d, m))
  {
    hide Shows, Clean, Faithful, Checked;
    CheckedHasAll(p, 0);
    CheckedIsClean(p, 0, 0, d);
    NativeIsFaithful(p, 0, d, blank);
    AmlShows(p, 0, d, ToNative(p, 0, d, blank), out, m);
  }

  /** What an instruction adds to the restored bits of byte k. */
  function RestoreAt(insn: Insn, acc: nat, d: Desc, k: nat, prior: bv8): bv8 {
    Restore(insn, acc, d, (i: nat) => prior)(k)
  }

  function AccAfter(insn: Insn, acc: nat, d: Desc): nat {
    match insn
    case Field(_, _, _, _) => 0
    case Load8Store(aml, _, imm) => ToNat(d.bytes(aml)) * if imm == 0 then 1 else imm
    case _ => acc
  }

  /** The restored bits of byte k after a run. */
  function Cover(p: Program, acc: nat, d: Desc, k: nat, prior: bv8): bv8
    decreases p
  {
    if Ends(p) then prior
    else if IsSkip(p.insn) then Cover(Drop(p.rest, Skipped(p, acc, d.size)), acc, d, k, prior)
    else Cover(p.rest, AccAfter(p.insn, acc, d), d, k, RestoreAt(p.insn, acc, d, k, prior))
  }

  lemma RestoreIs(insn: Insn, acc: nat, d: Desc, m: Buffer, k: nat)
    ensures Restore(insn, acc, d, m)(k) == RestoreAt(insn, acc, d, k, m(k))
  {
    hide Or, Shl, LowMask, SourceAt, FieldCount;
  }

  lemma {:induction false} CoverIs(p: Program, acc: nat, d: Desc, m: Buffer, k: nat)
    ensures Restored(p, acc, d, m)(k) == Cover(p, acc, d, k, m(k))
    decreases p
  {
    hide Restore, RestoreAt, ToNat;
    if !Ends(p) {
      var (next, acc') := After(p, acc, d.size, Loaded(p.insn, d.bytes, false));
      CoverIs(next, acc', d, Restore(p.insn, acc, d, m), k);
      RestoreIs(p.insn, acc, d, m, k);
      AfterDrops(p, acc, d.size, Loaded(p.insn, d.bytes, false));
      SkipsRestoreNothing(p.insn, acc, d, k, m(k));
    }
  }

  lemma SkipsRestoreNothing(insn: Insn, acc: nat, d: Desc, k: nat, prior: bv8)
    ensures IsSkip(insn) || insn.SetToImm? ==> RestoreAt(insn, acc, d, k, prior) == prior
  {
  }
}

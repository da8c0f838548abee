/** The two interpreter loops of src/kern/acpi/resources.c, with their program counter and
    accumulator, against the recursive meaning of a table. */
module ResourceInterpreter {
  import opened Bits
  import opened ResourceCodec

  /** What a table does from instruction pc on. */
  function Listed(table: seq<Insn>, pc: nat): Program
    decreases |table| - pc
  {
    if pc >= |table| then Stop else Then(table[pc], Listed(table, pc + 1))
  }

  lemma {:induction false} DropListed(table: seq<Insn>, pc: nat, count: nat)
    ensures Drop(Listed(table, pc), count) == Listed(table, pc + count)
    decreases count
  {
    if count > 0 && pc < |table| {
      DropListed(table, pc + 1, count - 1);
    }
  }

  /** The instructions of a table, in order. */
  function Instructions(p: Program): seq<Insn> {
    if p.Stop? then [] else [p.insn] + Instructions(p.rest)
  }

  lemma {:induction false} ListedInstructions(p: Program, before: seq<Insn>)
    ensures Listed(before + Instructions(p), |before|) == p
    decreases p
  {
    if p.Then? {
      ListedInstructions(p.rest, before + [p.insn]);
      assert before + Instructions(p) == (before + [p.insn]) + Instructions(p.rest);
    }
  }

  lemma {:induction false} InstructionsChecked(p: Program)
    requires AllChecked(p)
    ensures forall i | 0 <= i < |Instructions(p)| :: CheckedInsn(Instructions(p)[i])
  {
    hide CheckedInsn;
    if p.Then? {
      InstructionsChecked(p.rest);
    }
  }

  // Packed arrays

  method CollectBits(mask: bv16, bits: nat) returns (numbers: seq<bv8>)
    requires bits == 16 || (bits == 8 && mask < 0x100)
    ensures numbers == BitNumbers(mask, 0)
  {
    hide HasBit, ToByte, BitNumbers;
    numbers := [];
    for i := 0 to bits
      invariant numbers + BitNumbers(mask, i) == BitNumbers(mask, 0)
    {
      BitNumbersStep(mask, i);
      ghost var rest := BitNumbers(mask, i + 1);
      if HasBit(mask, i) {
        assert numbers + ([ToByte(i)] + rest) == (numbers + [ToByte(i)]) + rest;
        numbers := numbers + [ToByte(i)];
      }
    }
    NoMoreBits(mask, bits);
  }

  lemma BitNumbersStep(mask: bv16, i: nat)
    requires i < 16
    ensures BitNumbers(mask, i)
         == if HasBit(mask, i) then [ToByte(i)] + BitNumbers(mask, i + 1) else BitNumbers(mask, i + 1)
  {
    hide HasBit, ToByte;
  }

  lemma {:induction false} NoMoreBits(mask: bv16, i: nat)
    requires i == 16 || (8 <= i < 16 && mask < 0x100)
    ensures BitNumbers(mask, i) == []
    decreases 16 - i
  {
    hide HasBit;
    if i < 16 {
      HighBitClear(mask, i);
      NoMoreBits(mask, i + 1);
    }
  }

  lemma HighBitClear(mask: bv16, i: nat)
    requires 8 <= i < 16 && mask < 0x100
    ensures !HasBit(mask, i)
  {
    match i {
      case 8 => case 9 => case 10 => case 11 => case 12 => case 13 => case 14 => case 15 =>
    }
  }

  method GatherBits(numbers: seq<bv8>) returns (mask: bv16)
    ensures mask == Rebuilt(numbers)
  {
    hide OneBit, ToNat, Rebuilt, Join;
    mask := 0;
    JoinLaws(0, 0, Rebuilt(numbers));
    assert numbers[0..] == numbers;
    for i := 0 to |numbers|
      invariant Join(mask, Rebuilt(numbers[i..])) == Rebuilt(numbers)
    {
      RebuiltStep(numbers, i);
      JoinLaws(mask, OneBit(ToNat(numbers[i])), Rebuilt(numbers[i + 1..]));
      mask := Join(mask, OneBit(ToNat(numbers[i])));
    }
    RebuiltNone(numbers[|numbers|..]);
    JoinLaws(mask, 0, 0);
  }

  function Join(a: bv16, b: bv16): bv16 { a | b }

  lemma JoinLaws(a: bv16, b: bv16, c: bv16)
    ensures Join(Join(a, b), c) == Join(a, Join(b, c)) && Join(a, 0) == a && Join(0, c) == c
  {
  }

  lemma RebuiltStep(numbers: seq<bv8>, i: nat)
    requires i < |numbers|
    ensures Rebuilt(numbers[i..]) == Join(OneBit(ToNat(numbers[i])), Rebuilt(numbers[i + 1..]))
  {
    hide OneBit, ToNat;
    assert numbers[i..][1..] == numbers[i + 1..];
  }

  lemma RebuiltNone(numbers: seq<bv8>)
    requires numbers == []
    ensures Rebuilt(numbers) == 0
  {
  }

  lemma ByteMask(low: bv8)
    ensures Word(low, 0) < 0x100
  {
  }

  // Resource sources

  method ReadText(b: Buffer, from: nat, end: nat) returns (text: seq<bv8>)
    ensures text == TextAt(b, from, end)
  {
    hide TextAt;
    text := [];
    var at := from;
    while at < end
      invariant text + TextAt(b, at, end) == TextAt(b, from, end)
      decreases end - at
    {
      TextStep(b, at, end);
      assert text + ([b(at)] + TextAt(b, at + 1, end)) == (text + [b(at)]) + TextAt(b, at + 1, end);
      text := text + [b(at)];
      at := at + 1;
      if b(at - 1) == 0 {
        return;
      }
    }
    TextStep(b, at, end);
  }

  lemma TextStep(b: Buffer, at: nat, end: nat)
    ensures at >= end ==> TextAt(b, at, end) == []
    ensures at < end ==> TextAt(b, at, end) == if b(at) == 0 then [b(at)] else [b(at)] + TextAt(b, at + 1, end)
  {
  }

  /** A source string that does not end in a zero. */
  predicate BadText(text: seq<bv8>) { text != [] && text[|text| - 1] != 0 }

  /** Some source string the run reads is not terminated. */
  predicate Unterminated(p: Program, acc: nat, d: Desc)
    decreases p
  {
    !Ends(p) &&
    ((p.insn.ResourceSource? && BadText(SourceAt(d, acc).text)) ||
     var (next, acc') := After(p, acc, d.size, Loaded(p.insn, d.bytes, false));
     Unterminated(next, acc', d))
  }

  method ReadSource(d: Desc, acc: nat) returns (source: Source)
    ensures source == SourceAt(d, acc)
  {
    hide TextAt;
    var offset, bound := d.base + acc, d.size + d.header;
    if offset >= bound {
      return Source(false, 0, []);
    }
    var index := d.bytes(offset);
    offset := offset + 1;
    if offset == bound {
      EmptyText(d.bytes, offset);
      return Source(true, index, []);
    }
    var text := ReadText(d.bytes, offset, bound);
    return Source(true, index, text);
  }

  lemma EmptyText(b: Buffer, at: nat)
    ensures TextAt(b, at, at) == []
  {
  }

  // The loops

  /** `do_aml_resource_to_native`: fails only on a source string without terminator. */
  method AmlToNative(table: seq<Insn>, d: Desc, blank: Native) returns (ok: bool, n: Native)
    requires forall i | 0 <= i < |table| && table[i].PackedArray? :: table[i].bytes in {1, 2}
    ensures ok <==> !Unterminated(Listed(table, 0), 0, d)
    ensures ok ==> n == ToNative(Listed(table, 0), 0, d, blank)
  {
    hide BadText, SourceAt, ToNat, ToByte, MaskAt, BitNumbers, Word, And, Shr, LowMask;
    var pc: nat, accumulator: nat := 0, 0;
    n := blank;
    while pc < |table| && !table[pc].End?
      invariant ToNative(Listed(table, pc), accumulator, d, n) == ToNative(Listed(table, 0), 0, d, blank)
      invariant Unterminated(Listed(table, pc), accumulator, d) == Unterminated(Listed(table, 0), 0, d)
      decreases |table| - pc
    {
      var insn := table[pc];
      DropListed(table, pc + 1, if IsSkip(insn) then insn.skip else 0);
      pc := pc + 1;
      match insn {
        case PackedArray(aml, native, count, bytes) =>
          var value := MaskAt(d.bytes, aml, bytes);
          if bytes == 1 {
            OneByteMask(d.bytes, aml);
          }
          var numbers := CollectBits(value, if bytes == 2 then 16 else 8);
          n := n.(bytes := Put(PutAll(n.bytes, native, numbers), count, ToByte(|numbers|)));
        case BitField(aml, native, width, index) =>
          n := n.(bytes := Put(n.bytes, native, And(Shr(d.bytes(aml), index), LowMask(width))));
        case Field(aml, native, bytes, imm) =>
          accumulator := if imm == 0xFF then 0 else accumulator + imm;
          n := n.(bytes := CopyTo(n.bytes, native, d.bytes, aml,
                                  Scaled(bytes, if accumulator == 0 then 1 else accumulator)));
          accumulator := 0;
        case SkipIfSizeLess(least, skip) =>
          if d.size < least {
            pc := pc + skip;
          }
        case SkipIfNotEquals(value, skip) =>
          if value != accumulator {
            pc := pc + skip;
          }
        case SetToImm(_, native, imm) => n := n.(bytes := Put(n.bytes, native, ToByte(imm)));
        case Load8Store(aml, native, imm) =>
          accumulator := ToNat(d.bytes(aml));
          n := n.(bytes := Put(n.bytes, native, d.bytes(aml)));
          if imm != 0 {
            accumulator := accumulator * imm;
          }
        case ResourceSource =>
          var source := ReadSource(d, accumulator);
          if BadText(source.text) {
            return false, n;
          }
          n := n.(source := source);
      }
    }
    return true, n;
  }

  lemma OneByteMask(b: Buffer, at: nat)
    ensures MaskAt(b, at, 1) < 0x100
  {
    hide Word;
    ByteMask(b(at));
  }

  /** `do_native_resource_to_aml` behind the header. */
  method NativeToAml(table: seq<Insn>, size: nat, base: nat, n: Native, headed: Buffer) returns (out: Buffer)
    ensures out == ToAml(Listed(table, 0), 0, size, base, n, headed)
  {
    hide ToNat, ToByte, Rebuilt, Taken, LowByte, HighByte, Or, Shl;
    var pc: nat, accumulator: nat := 0, 0;
    out := headed;
    while pc < |table| && !table[pc].End?
      invariant ToAml(Listed(table, pc), accumulator, size, base, n, out)
                == ToAml(Listed(table, 0), 0, size, base, n, headed)
      decreases |table| - pc
    {
      var insn := table[pc];
      DropListed(table, pc + 1, if IsSkip(insn) then insn.skip else 0);
      pc := pc + 1;
      match insn {
        case PackedArray(aml, native, count, bytes) =>
          var mask := GatherBits(Taken(n.bytes, native, ToNat(n.bytes(count))));
          out := Put(out, aml, LowByte(mask));
          if bytes == 2 {
            out := Put(out, aml + 1, HighByte(mask));
          }
        case BitField(aml, native, _, index) => out := Put(out, aml, Or(out(aml), Shl(n.bytes(native), index)));
        case Field(aml, native, bytes, imm) =>
          accumulator := if imm == 0xFF then 0 else accumulator + imm;
          out := CopyTo(out, aml, n.bytes, native, Scaled(bytes, if accumulator == 0 then 1 else accumulator));
          accumulator := 0;
        case SkipIfSizeLess(least, skip) =>
          if size < least {
            pc := pc + skip;
          }
        case SkipIfNotEquals(value, skip) =>
          if value != accumulator {
            pc := pc + skip;
          }
        case SetToImm(aml, _, imm) => out := Put(out, aml, ToByte(imm));
        case Load8Store(aml, native, imm) =>
          accumulator := ToNat(n.bytes(native));
          out := Put(out, aml, n.bytes(native));
          if imm != 0 {
            accumulator := accumulator * imm;
          }
        case ResourceSource =>
          var at := base + accumulator;
          if n.source.present {
            out := Put(out, at, n.source.index);
            at := at + 1;
          }
          out := PutAll(out, at, n.source.text);
      }
    }
  }
}

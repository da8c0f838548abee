/** Resource templates (ACPI 6.5 section 6.4): the descriptor iterator of
    src/kern/acpi/resources.c and the ConcatenateResTemplate opcode of
    src/kern/acpi/interpreter.c. */
module ResourceTemplate {
  import opened Common

  type Byte = b: int | 0 <= b < 256

  datatype Kind =
    | Irq | Dma | StartDependent | EndDependent | Io | FixedIo | FixedDma | VendorType0 | EndTag
    | Memory24 | GenericRegister | VendorType1 | Memory32 | FixedMemory32 | Address32 | Address16
    | ExtendedIrq | Address64 | Address64Extended | GpioConnection | PinFunction | SerialConnection
    | PinConfiguration | PinGroup | PinGroupFunction | PinGroupConfiguration | ClockInput

  datatype SizeKind = Fixed | FixedOrOneLess | Variable

  predicate IsLarge(raw: Byte) { raw >= 128 }

  /** `get_aml_resource_type`: bits 6 to 3 of a small item, bits 6 to 0 of a large one. */
  function KindOf(raw: Byte): Option<Kind> {
    if IsLarge(raw) then
      match raw % 128
      case 0x01 => Some(Memory24)
      case 0x02 => Some(GenericRegister)
      case 0x04 => Some(VendorType1)
      case 0x05 => Some(Memory32)
      case 0x06 => Some(FixedMemory32)
      case 0x07 => Some(Address32)
      case 0x08 => Some(Address16)
      case 0x09 => Some(ExtendedIrq)
      case 0x0A => Some(Address64)
      case 0x0B => Some(Address64Extended)
      case 0x0C => Some(GpioConnection)
      case 0x0D => Some(PinFunction)
      case 0x0E => Some(SerialConnection)
      case 0x0F => Some(PinConfiguration)
      case 0x10 => Some(PinGroup)
      case 0x11 => Some(PinGroupFunction)
      case 0x12 => Some(PinGroupConfiguration)
      case 0x13 => Some(ClockInput)
      case _ => None
    else
      match raw / 8 % 16
      case 0x04 => Some(Irq)
      case 0x05 => Some(Dma)
      case 0x06 => Some(StartDependent)
      case 0x07 => Some(EndDependent)
      case 0x08 => Some(Io)
      case 0x09 => Some(FixedIo)
      case 0x0A => Some(FixedDma)
      case 0x0E => Some(VendorType0)
      case 0x0F => Some(EndTag)
      case _ => None
  }

  /** The descriptor size without header, which variable descriptors may exceed. */
  function AmlSize(kind: Kind): nat {
    match kind
    case Irq => 3 case Dma => 2 case StartDependent => 1 case EndDependent => 0 case Io => 7
    case FixedIo => 3 case FixedDma => 5 case VendorType0 => 0 case EndTag => 1
    case Memory24 => 9 case GenericRegister => 12 case VendorType1 => 0 case Memory32 => 17
    case FixedMemory32 => 9 case Address32 => 23 case Address16 => 13 case ExtendedIrq => 2
    case Address64 => 43 case Address64Extended => 53 case GpioConnection => 20 case PinFunction => 15
    case SerialConnection => 9 case PinConfiguration => 17 case PinGroup => 11
    case PinGroupFunction => 14 case PinGroupConfiguration => 17 case ClockInput => 10
  }

  function SizeKindOf(kind: Kind): SizeKind {
    match kind
    case Irq => FixedOrOneLess
    case StartDependent => FixedOrOneLess
    case VendorType0 => Variable case VendorType1 => Variable
    case Address16 => Variable case Address32 => Variable case Address64 => Variable
    case ExtendedIrq => Variable case GpioConnection => Variable case PinFunction => Variable
    case SerialConnection => Variable case PinConfiguration => Variable case PinGroup => Variable
    case PinGroupFunction => Variable case PinGroupConfiguration => Variable case ClockInput => Variable
    case _ => Fixed
  }

  predicate SizeFits(kind: Kind, size: nat) {
    match SizeKindOf(kind)
    case Fixed => size == AmlSize(kind)
    case Variable => size >= AmlSize(kind)
    case FixedOrOneLess => size == AmlSize(kind) || size == AmlSize(kind) - 1
  }

  /** One descriptor: where it is and how long its header and body are. */
  datatype Item = Item(at: nat, kind: Kind, header: nat, size: nat) {
    function End(): nat { at + header + size }

    function Moved(to: nat): Item { Item(to, kind, header, size) }
  }

  function HeaderSize(raw: Byte): nat { if IsLarge(raw) then 3 else 1 }

  /** The length the header claims: two bytes, little endian, or the low three bits. */
  function ClaimedSize(b: seq<Byte>, i: nat): nat
    requires i < |b| && (IsLarge(b[i]) ==> i + 3 <= |b|)
  {
    if IsLarge(b[i]) then (b[i + 1] as int) + (b[i + 2] as int) * 256 else b[i] % 8
  }

  /** The valid descriptor at i: known kind, inside the buffer, right size, and for serial
      connections a bus type from I2C (1) to CSI-2 (4). */
  function ItemAt(b: seq<Byte>, i: nat): (r: Option<Item>)
    ensures r.Some? ==> r.value.at == i < r.value.End() <= |b|
  {
    if i >= |b| || KindOf(b[i]).None? || (IsLarge(b[i]) && i + 3 > |b|) then None
    else
      var kind, size := KindOf(b[i]).value, ClaimedSize(b, i);
      var item := Item(i, kind, HeaderSize(b[i]), size);
      if item.End() > |b| || !SizeFits(kind, size) then None
      else if kind.SerialConnection? && !(1 <= b[i + 5] <= 4) then None
      else Some(item)
  }

  /** The first bytes and sizes of section 6.4 of ACPI 6.5: small items carry their size in
      the byte, the large ones need exactly or at least so many bytes. */
  lemma FirstBytes(raw: Byte, size: nat)
    ensures !IsLarge(raw) ==>
              (KindOf(raw).Some? && SizeFits(KindOf(raw).value, raw % 8)
               <==> raw in {0x22, 0x23, 0x2A, 0x30, 0x31, 0x38, 0x47, 0x4B, 0x55, 0x79} || 0x70 <= raw < 0x78)
    ensures IsLarge(raw) ==> (KindOf(raw).Some? && SizeFits(KindOf(raw).value, size) <==> ValidLarge(raw, size))
    ensures KindOf(raw) == Some(SerialConnection) <==> raw == 0x8E
    ensures KindOf(raw) == Some(EndTag) <==> 0x78 <= raw < 0x80
  {
    hide AmlSize, SizeKindOf;
    SmallBytes(raw);
    LargeBytes(raw, size);
  }

  predicate ValidLarge(raw: Byte, size: nat) {
    || (raw == 0x81 && size == 9) || (raw == 0x82 && size == 12) || raw == 0x84 || (raw == 0x85 && size == 17)
    || (raw == 0x86 && size == 9) || (raw == 0x87 && size >= 23) || (raw == 0x88 && size >= 13)
    || (raw == 0x89 && size >= 2) || (raw == 0x8A && size >= 43) || (raw == 0x8B && size == 53)
    || (raw == 0x8C && size >= 20) || (raw == 0x8D && size >= 15) || (raw == 0x8E && size >= 9)
    || (raw == 0x8F && size >= 17) || (raw == 0x90 && size >= 11) || (raw == 0x91 && size >= 14)
    || (raw == 0x92 && size >= 17) || (raw == 0x93 && size >= 10)
  }

  lemma SmallBytes(raw: Byte)
    ensures !IsLarge(raw) ==>
              (KindOf(raw).Some? && SizeFits(KindOf(raw).value, raw % 8)
               <==> raw in {0x22, 0x23, 0x2A, 0x30, 0x31, 0x38, 0x47, 0x4B, 0x55, 0x79} || 0x70 <= raw < 0x78)
  {
  }

  lemma LargeBytes(raw: Byte, size: nat)
    ensures IsLarge(raw) ==> (KindOf(raw).Some? && SizeFits(KindOf(raw).value, size) <==> ValidLarge(raw, size))
  {
    hide KindOf, SizeFits, ValidLarge;
    if raw >= 0x90 {
      LastLargeBytes(raw, size);
    } else if raw >= 0x8C {
      LaterLargeBytes(raw, size);
    } else if IsLarge(raw) {
      EarlierLargeBytes(raw, size);
    }
  }

  lemma EarlierLargeBytes(raw: Byte, size: nat)
    requires 0x80 <= raw < 0x8C
    ensures KindOf(raw).Some? && SizeFits(KindOf(raw).value, size) <==> ValidLarge(raw, size)
  {
  }

  lemma LaterLargeBytes(raw: Byte, size: nat)
    requires 0x8C <= raw < 0x90
    ensures KindOf(raw).Some? && SizeFits(KindOf(raw).value, size) <==> ValidLarge(raw, size)
  {
  }

  lemma LastLargeBytes(raw: Byte, size: nat)
    requires 0x90 <= raw
    ensures KindOf(raw).Some? && SizeFits(KindOf(raw).value, size) <==> ValidLarge(raw, size)
  {
  }

  /** A serial connection has a bus type from I2C to CSI-2 in its sixth byte. */
  lemma SerialTypes(b: seq<Byte>, i: nat)
    requires i < |b| && b[i] == 0x8E && i + 12 <= |b| && b[i + 1] == 9 && b[i + 2] == 0
    ensures ItemAt(b, i).Some? <==> b[i + 5] in {1, 2, 3, 4}
  {
  }

  /** Whether there is a descriptor depends on its header and the room for it alone. */
  lemma HeaderDecides(b: seq<Byte>, c: seq<Byte>, i: nat)
    requires ItemAt(b, i).Some? && !ItemAt(b, i).value.kind.SerialConnection? && ItemAt(b, i).value.End() <= |c|
    requires forall p: nat | i <= p < i + ItemAt(b, i).value.header :: c[p] == b[p]
    ensures ItemAt(c, i) == ItemAt(b, i)
  {
    hide KindOf, SizeFits;
  }

  datatype Status = Ok | InvalidResource | NoEndTag | InternalError

  /** All descriptors from i up to the first end tag. */
  function Parse(b: seq<Byte>, i: nat): (r: (seq<Item>, Status))
    requires i <= |b|
    decreases |b| - i
  {
    if i == |b| then ([], NoEndTag)
    else match ItemAt(b, i)
      case None => ([], InvalidResource)
      case Some(item) =>
        if item.kind.EndTag? then ([item], Ok)
        else
          var (rest, status) := Parse(b, item.End());
          ([item] + rest, status)
  }

  // The iterator

  datatype Decision = Continue | Break | Other

  /** What the callback may decide from the descriptors seen so far, the last included. */
  type Callback = seq<Item> -> Decision

  function Iterate(b: seq<Byte>, i: nat, seen: seq<Item>, cb: Callback): (seq<Item>, Status)
    requires i <= |b|
    decreases |b| - i
  {
    if i == |b| then (seen, NoEndTag)
    else match ItemAt(b, i)
      case None => (seen, InvalidResource)
      case Some(item) =>
        var now := seen + [item];
        match cb(now)
        case Break => (now, Ok)
        case Other => (now, InternalError)
        case Continue => if item.kind.EndTag? then (now, Ok) else Iterate(b, item.End(), now, cb)
  }

  /** `get_aml_resource_size`. */
  method ResourceSize(b: seq<Byte>, data: nat, bytesLeft: nat) returns (size: Option<nat>)
    requires data < |b| && bytesLeft == |b| - data
    ensures size == if (IsLarge(b[data]) && bytesLeft < 3) || ClaimedSize(b, data) > bytesLeft - HeaderSize(b[data])
                    then None else Some(ClaimedSize(b, data))
  {
    var left := bytesLeft;
    var claimed: nat;
    if b[data] >= 128 {
      if bytesLeft < 3 {
        return None;
      }
      claimed := (b[data + 1] as int) + (b[data + 2] as int) * 256;
      left := left - 3;
    } else {
      claimed := b[data] % 8;
      left := left - 1;
    }
    if claimed > left {
      return None;
    }
    return Some(claimed);
  }

  /** The checks on one descriptor before the callback sees it. */
  method CheckItem(b: seq<Byte>, data: nat, bytesLeft: nat) returns (r: Option<Item>)
    requires data < |b| && bytesLeft == |b| - data
    ensures r == ItemAt(b, data)
  {
    hide KindOf;
    var kind := KindOf(b[data]);
    if kind.None? {
      return None;
    }
    var size := ResourceSize(b, data, bytesLeft);
    if size.None? {
      return None;
    }
    var expected := AmlSize(kind.value);
    match SizeKindOf(kind.value) {
      case Fixed =>
        if size.value != expected {
          return None;
        }
      case Variable =>
        if size.value < expected {
          return None;
        }
      case FixedOrOneLess =>
        if size.value != expected && size.value != expected - 1 {
          return None;
        }
    }
    if kind.value.SerialConnection? {
      SerialIsLarge(b[data]);
      if b[data + 5] < 1 || b[data + 5] > 4 {
        return None;
      }
    }
    return Some(Item(data, kind.value, HeaderSize(b[data]), size.value));
  }

  lemma SerialIsLarge(raw: Byte)
    requires KindOf(raw) == Some(SerialConnection)
    ensures IsLarge(raw)
  {
  }

  /** `uacpi_for_each_aml_resource` reads only inside the buffer and ends. */
  method ForEachResource(b: seq<Byte>, cb: Callback) returns (items: seq<Item>, status: Status)
    ensures (items, status) == Iterate(b, 0, [], cb)
  {
    hide ItemAt;
    items := [];
    var bytesLeft, data := |b|, 0;
    while bytesLeft != 0
      invariant 0 <= data <= |b| && bytesLeft == |b| - data
      invariant Iterate(b, 0, [], cb) == Iterate(b, data, items, cb)
      decreases bytesLeft
    {
      var item := CheckItem(b, data, bytesLeft);
      if item.None? {
        return items, InvalidResource;
      }
      items := items + [item.value];
      match cb(items) {
        case Break => return items, Ok;
        case Other => return items, InternalError;
        case Continue =>
          var total := item.value.size + item.value.header;
          data := data + total;
          bytesLeft := bytesLeft - total;
      }
      if item.value.kind.EndTag? {
        return items, Ok;
      }
    }
    return items, NoEndTag;
  }

  /** A callback that never stops sees exactly the parsed descriptors. */
  lemma {:induction false} IterateParses(b: seq<Byte>, i: nat, seen: seq<Item>, cb: Callback)
    requires i <= |b| && forall items :: cb(items) == Continue
    ensures Iterate(b, i, seen, cb) == (seen + Parse(b, i).0, Parse(b, i).1)
    decreases |b| - i
  {
    if i < |b| && ItemAt(b, i).Some? && !ItemAt(b, i).value.kind.EndTag? {
      var item := ItemAt(b, i).value;
      IterateParses(b, item.End(), seen + [item], cb);
      assert seen + [item] + Parse(b, item.End()).0 == seen + ([item] + Parse(b, item.End()).0);
    } else {
      assert seen + [] == seen;
    }
  }

  /** Descriptors one after the other without gaps, only the last maybe an end tag. */
  ghost predicate Contiguous(b: seq<Byte>, items: seq<Item>, i: nat) {
    items != [] ==>
      && items[0].at == i && ItemAt(b, i) == Some(items[0]) && items[0].End() <= |b|
      && (|items| > 1 ==> !items[0].kind.EndTag?)
      && Contiguous(b, items[1..], items[0].End())
  }

  /** Parsing stays inside the buffer; a complete template ends with its only end tag. */
  lemma {:induction false} ItemsAreContiguous(b: seq<Byte>, i: nat)
    requires i <= |b|
    ensures Contiguous(b, Parse(b, i).0, i)
    ensures Parse(b, i).1 == Ok <==> Parse(b, i).0 != [] && Parse(b, i).0[|Parse(b, i).0| - 1].kind.EndTag?
    decreases |b| - i
  {
    hide ItemAt;
    if i < |b| && ItemAt(b, i).Some? && !ItemAt(b, i).value.kind.EndTag? {
      var item := ItemAt(b, i).value;
      ItemsAreContiguous(b, item.End());
      assert ([item] + Parse(b, item.End()).0)[1..] == Parse(b, item.End()).0;
    }
  }

  // The end tag

  function EndAt(b: seq<Byte>, i: nat): (e: nat)
    requires i <= |b| && Parse(b, i).1 == Ok
    ensures i <= e < |b| && ItemAt(b, e).Some? && ItemAt(b, e).value.kind.EndTag?
    decreases |b| - i
  {
    if ItemAt(b, i).value.kind.EndTag? then i else EndAt(b, ItemAt(b, i).value.End())
  }

  /** `find_end`. */
  function FindEnd(items: seq<Item>): Decision {
    if items != [] && items[|items| - 1].kind.EndTag? then Break else Continue
  }

  lemma {:induction false} FindEndFinds(b: seq<Byte>, i: nat, seen: seq<Item>)
    requires i <= |b|
    ensures var (items, status) := Iterate(b, i, seen, FindEnd);
            && status == Parse(b, i).1
            && (status == Ok ==> items != [] && items[|items| - 1].at == EndAt(b, i))
    decreases |b| - i
  {
    if i < |b| && ItemAt(b, i).Some? && !ItemAt(b, i).value.kind.EndTag? {
      FindEndFinds(b, ItemAt(b, i).value.End(), seen + [ItemAt(b, i).value]);
    }
  }

  /** Where the template's end tag is; an empty buffer counts as an empty template. */
  function EndOffset(b: seq<Byte>): (e: Option<nat>)
    ensures e.Some? ==> e.value <= |b|
  {
    if b == [] then Some(0) else if Parse(b, 0).1 == Ok then Some(EndAt(b, 0)) else None
  }

  method FindEndTag(b: seq<Byte>) returns (offset: Option<nat>)
    ensures offset == EndOffset(b)
  {
    if |b| == 0 {
      return Some(0);
    }
    var items, status := ForEachResource(b, FindEnd);
    FindEndFinds(b, 0, []);
    if status != Ok {
      return None;
    }
    return Some(items[|items| - 1].at);
  }

  // Concatenation

  /** Small item, name 0x0F, length 1; and a checksum left as 0. */
  const END_TAG: seq<Byte> := [0x79, 0]

  function Joined(a: seq<Byte>, b: seq<Byte>): (r: Option<seq<Byte>>) {
    if EndOffset(a).None? || EndOffset(b).None? then None
    else Some(a[..EndOffset(a).value] + b[..EndOffset(b).value] + END_TAG)
  }

  /** `handle_concatenate_res`. */
  method ConcatenateRes(a: seq<Byte>, b: seq<Byte>) returns (dst: Option<array<Byte>>)
    ensures dst.Some? <==> Joined(a, b).Some?
    ensures dst.Some? ==> dst.value[..] == Joined(a, b).value
  {
    hide EndOffset;
    var size0 := FindEndTag(a);
    if size0.None? {
      return None;
    }
    var size1 := FindEndTag(b);
    if size1.None? {
      return None;
    }
    var n0, n1 := size0.value, size1.value;
    var size := n0 + n1 + 2;
    var buffer := new Byte[size];
    forall i | 0 <= i < n0 {
      buffer[i] := a[i];
    }
    assert buffer[..n0] == a[..n0];
    forall i | 0 <= i < n1 {
      buffer[n0 + i] := b[i];
    }
    assert buffer[..n0 + n1] == a[..n0] + b[..n1];
    buffer[size - 2] := 0x0F * 8 + 1;
    buffer[size - 1] := 0;
    return Some(buffer);
  }

  /** The bytes of the descriptors from i up to and with the first end tag. */
  function Descriptors(b: seq<Byte>, i: nat): (r: seq<seq<Byte>>)
    requires i <= |b|
    ensures Parse(b, i).1 == Ok ==> r != []
    decreases |b| - i
  {
    match ItemAt(b, i)
    case None => []
    case Some(item) => [b[i..item.End()]] + if item.kind.EndTag? then [] else Descriptors(b, item.End())
  }

  function WithoutLast(s: seq<seq<Byte>>): seq<seq<Byte>> {
    if s == [] then [] else s[..|s| - 1]
  }

  /** A template's descriptors; an empty buffer has none. */
  function AllDescriptors(b: seq<Byte>): seq<seq<Byte>> {
    if b == [] then [] else Descriptors(b, 0)
  }

  /** The n bytes of r from j on are those of b from i on. */
  ghost predicate Copied(b: seq<Byte>, i: nat, r: seq<Byte>, j: nat, n: nat) {
    i + n <= |b| && j + n <= |r| && r[j..j + n] == b[i..i + n]
  }

  lemma CopiedByte(b: seq<Byte>, i: nat, r: seq<Byte>, j: nat, n: nat, k: nat)
    requires Copied(b, i, r, j, n) && k < n
    ensures i + k < |b| && j + k < |r| && r[j + k] == b[i + k]
  {
    assert r[j..j + n][k] == b[i..i + n][k];
  }

  lemma CopiedSplits(b: seq<Byte>, i: nat, r: seq<Byte>, j: nat, n: nat, m: nat)
    requires Copied(b, i, r, j, n) && m <= n
    ensures Copied(b, i, r, j, m) && Copied(b, i + m, r, j + m, n - m)
  {
    SubSlice(r, j, n, m);
    SubSlice(b, i, n, m);
  }

  lemma SubSlice(s: seq<Byte>, i: nat, n: nat, m: nat)
    requires i + n <= |s| && m <= n
    ensures s[i..i + m] == s[i..i + n][..m] && s[i + m..i + m + (n - m)] == s[i..i + n][m..]
  {
  }

  /** A descriptor is recognised by its own bytes alone. */
  lemma ItemMoves(b: seq<Byte>, i: nat, r: seq<Byte>, j: nat)
    requires ItemAt(b, i).Some? && Copied(b, i, r, j, ItemAt(b, i).value.End() - i)
    ensures ItemAt(r, j) == Some(ItemAt(b, i).value.Moved(j))
  {
    var n := ItemAt(b, i).value.End() - i;
    CopiedByte(b, i, r, j, n, 0);
    if IsLarge(b[i]) {
      CopiedByte(b, i, r, j, n, 1);
      CopiedByte(b, i, r, j, n, 2);
    }
    if KindOf(b[i]).value.SerialConnection? {
      SerialIsLarge(b[i]);
      CopiedByte(b, i, r, j, n, 5);
    }
    hide Copied, KindOf;
  }

  lemma DescriptorsStep(b: seq<Byte>, i: nat)
    requires i <= |b| && ItemAt(b, i).Some?
    ensures var item := ItemAt(b, i).value;
            && Descriptors(b, i) == [b[i..item.End()]] + (if item.kind.EndTag? then [] else Descriptors(b, item.End()))
            && (!item.kind.EndTag? ==> Parse(b, i).1 == Parse(b, item.End()).1)
            && (Parse(b, i).1 == Ok ==> EndAt(b, i) == if item.kind.EndTag? then i else EndAt(b, item.End()))
  {
  }

  lemma OkHasItem(b: seq<Byte>, i: nat)
    requires i <= |b| && Parse(b, i).1 == Ok
    ensures ItemAt(b, i).Some?
  {
  }

  lemma WithoutLastOf(first: seq<Byte>, rest: seq<seq<Byte>>, more: seq<seq<Byte>>)
    requires rest != []
    ensures WithoutLast([first] + rest) + more == [first] + (WithoutLast(rest) + more)
  {
  }

  /** A copy of a template without its end tag parses to the same descriptors, and then
      to whatever follows the copy. */
  lemma {:induction false} CopyParses(b: seq<Byte>, i: nat, r: seq<Byte>, j: nat)
    requires i <= |b| && Parse(b, i).1 == Ok && Copied(b, i, r, j, EndAt(b, i) - i)
    ensures var n := EndAt(b, i) - i;
            && j + n <= |r|
            && Parse(r, j).1 == Parse(r, j + n).1
            && Descriptors(r, j) == WithoutLast(Descriptors(b, i)) + Descriptors(r, j + n)
    decreases |b| - i
  {
    hide ItemAt, Parse, Descriptors, EndAt, WithoutLast;
    OkHasItem(b, i);
    DescriptorsStep(b, i);
    var item := ItemAt(b, i).value;
    if item.kind.EndTag? {
      assert WithoutLast([b[i..item.End()]] + []) == [] by { WithoutOnly(b[i..item.End()]); }
    } else {
      var n, m := EndAt(b, i) - i, item.End() - i;
      CopiedSplits(b, i, r, j, n, m);
      ItemMoves(b, i, r, j);
      CopyParses(b, i + m, r, j + m);
      DescriptorsStep(r, j);
      WithoutLastOf(b[i..i + m], Descriptors(b, i + m), Descriptors(r, j + n));
    }
  }

  lemma WithoutOnly(first: seq<Byte>)
    ensures WithoutLast([first] + []) == []
  {
  }

  lemma EndTagParses(r: seq<Byte>, j: nat)
    requires j + 2 == |r| && r[j..] == END_TAG
    ensures Parse(r, j).1 == Ok && Descriptors(r, j) == [END_TAG]
  {
    assert r[j] == r[j..][0] == 0x79;
    assert r[j..j + 2] == r[j..];
  }

  lemma CopyOrEmpty(b: seq<Byte>, r: seq<Byte>, j: nat)
    requires EndOffset(b).Some? && Copied(b, 0, r, j, EndOffset(b).value)
    ensures var n := EndOffset(b).value;
            && j + n <= |r|
            && Parse(r, j).1 == Parse(r, j + n).1
            && Descriptors(r, j) == WithoutLast(AllDescriptors(b)) + Descriptors(r, j + n)
  {
    hide Parse, Descriptors, EndAt;
    if b != [] {
      CopyParses(b, 0, r, j);
    }
  }

  /** Two templates concatenate exactly if both are complete or empty; the result is a
      complete template with the descriptors of the first and then of the second, both
      without end tag, and then one end tag. */
  lemma ConcatenationIsTemplate(a: seq<Byte>, b: seq<Byte>)
    ensures Joined(a, b).Some? <==> (a == [] || Parse(a, 0).1 == Ok) && (b == [] || Parse(b, 0).1 == Ok)
    ensures Joined(a, b).Some? ==>
              var r := Joined(a, b).value;
              && Parse(r, 0).1 == Ok
              && AllDescriptors(r) == WithoutLast(AllDescriptors(a)) + WithoutLast(AllDescriptors(b)) + [END_TAG]
              && |r| >= 2 && r[|r| - 2..] == [0x79, 0]
  {
    if Joined(a, b).Some? {
      ConcatenationParses(a, b, Joined(a, b).value);
    }
  }

  lemma ConcatenationParses(a: seq<Byte>, b: seq<Byte>, r: seq<Byte>)
    requires EndOffset(a).Some? && EndOffset(b).Some?
    requires r == a[..EndOffset(a).value] + b[..EndOffset(b).value] + END_TAG
    ensures Parse(r, 0).1 == Ok
    ensures AllDescriptors(r) == WithoutLast(AllDescriptors(a)) + WithoutLast(AllDescriptors(b)) + [END_TAG]
  {
    hide Parse, Descriptors, AllDescriptors, EndOffset, WithoutLast;
    var n, m := EndOffset(a).value, EndOffset(b).value;
    assert r[0..0 + n] == a[0..0 + n] && r[n..n + m] == b[0..0 + m] && r[n + m..] == END_TAG;
    CopyOrEmpty(a, r, 0);
    CopyOrEmpty(b, r, n);
    EndTagParses(r, n + m);
    Whole(r);
  }

  lemma Whole(r: seq<Byte>)
    requires r != []
    ensures AllDescriptors(r) == Descriptors(r, 0)
  {
  }
}

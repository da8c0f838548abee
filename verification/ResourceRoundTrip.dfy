/** Whole templates: `uacpi_native_resources_from_aml` and then
    `uacpi_native_resources_to_aml` of src/kern/acpi/resources.c. */
module ResourceRoundTrip {
  import opened Common
  import opened Bits
  import opened ResourceCodec
  import opened ResourceTables
  import opened ResourceConvert
  import opened ResourceInterpreter
  import opened ResourceExtents
  import opened ResourceSizes
  import opened ResourceFields
  import T = ResourceTemplate

  datatype Resource = Resource(kind: T.Kind, native: Native)

  /** The descriptor of an item, and the bytes behind it. */
  function DescAt(b: seq<T.Byte>, item: T.Item): Desc {
    Desc((k: nat) => if item.at + k < |b| then ToByte(b[item.at + k]) else 0,
         item.size, item.header, T.AmlSize(item.kind) + item.header)
  }

  /** A source string has to end in a zero; without one the conversion is given up. */
  predicate Terminated(kind: T.Kind, d: Desc) {
    HasSource(kind) ==> !BadText(SourceAt(d, Extra(kind, d)).text)
  }

  /** The kind of the structure that comes after the first one. */
  function Follower(items: seq<T.Item>): Option<T.Kind> { if |items| > 1 then Some(items[1].kind) else None }

  function DecodeAll(b: seq<T.Byte>, items: seq<T.Item>): (r: Option<seq<Resource>>) {
    if items == [] then Some([])
    else
      var kind, d := items[0].kind, DescAt(b, items[0]);
      if !Terminated(kind, d) then None
      else match DecodeAll(b, items[1..])
        case None => None
        case Some(rest) => Some([Resource(kind, Stored(kind, d, Follower(items)))] + rest)
  }

  /** The end tag that ends every template: it has no native part. */
  function EndTag(): Resource { Resource(T.EndTag, Blank()) }

  /** The sizing pass; an end tag is added where there is none. */
  function TotalLength(rs: seq<Resource>): nat {
    if rs == [] then AmlLength(EndTag().kind, EndTag().native)
    else if rs[0].kind.EndTag? then AmlLength(rs[0].kind, rs[0].native)
    else AmlLength(rs[0].kind, rs[0].native) + TotalLength(rs[1..])
  }

  function From(out: Buffer, pos: nat): Buffer { (k: nat) => out(pos + k) }

  function WithTail(out: Buffer, pos: nat, place: Buffer): Buffer {
    (k: nat) => if k < pos then out(k) else place(k - pos)
  }

  function EncodeAt(r: Resource, pos: nat, out: Buffer): Buffer {
    WithTail(out, pos, Encode(r.kind, r.native, From(out, pos)))
  }

  function EncodeAll(rs: seq<Resource>, pos: nat, out: Buffer): Buffer {
    if rs == [] then EncodeAt(EndTag(), pos, out)
    else if rs[0].kind.EndTag? then EncodeAt(rs[0], pos, out)
    else EncodeAll(rs[1..], pos + AmlLength(rs[0].kind, rs[0].native), EncodeAt(rs[0], pos, out))
  }

  /** A descriptor of a modelled kind that its numbers and terminated source fill. */
  predicate Filled(b: seq<T.Byte>, item: T.Item) {
    var d := DescAt(b, item);
    Modelled(item.kind) && Terminated(item.kind, d) && Whole(item.kind, d)
  }

  predicate AllFilled(b: seq<T.Byte>, items: seq<T.Item>) { forall item | item in items :: Filled(b, item) }

  /** The bits of byte k of the template that are not reserved. */
  function KeptAt(b: seq<T.Byte>, items: seq<T.Item>, k: nat): bv8 {
    if items == [] then 0
    else if k < items[0].End() then
      if k < items[0].at then 0 else Kept(items[0].kind, DescAt(b, items[0]), k - items[0].at)
    else KeptAt(b, items[1..], k)
  }

  /** Byte k of the template as it comes back. */
  function CameAt(b: seq<T.Byte>, items: seq<T.Item>, k: nat): bv8 {
    if items == [] then 0
    else if k < items[0].End() then
      if k < items[0].at then 0
      else Came(items[0].kind, DescAt(b, items[0]), Follower(items), k - items[0].at)
    else CameAt(b, items[1..], k)
  }

  /** No empty list does harm. */
  predicate AllIntact(b: seq<T.Byte>, items: seq<T.Item>) {
    items == [] ||
    (Intact(items[0].kind, DescAt(b, items[0]), Follower(items)) && AllIntact(b, items[1..]))
  }

  lemma KindCode(raw: T.Byte, kind: T.Kind)
    requires T.KindOf(raw) == Some(kind)
    ensures T.IsLarge(raw) <==> !IsSmall(kind)
    ensures raw == if IsSmall(kind) then Code(kind) * 8 + raw % 8 else 128 + Code(kind)
  {
    SplitByte(raw);
  }

  lemma SplitByte(raw: T.Byte)
    ensures raw < 128 ==> raw == raw / 8 % 16 * 8 + raw % 8
    ensures raw >= 128 ==> raw == 128 + raw % 128
  {
  }

  lemma ItemIsDescribed(b: seq<T.Byte>, i: nat)
    requires T.ItemAt(b, i).Some?
    ensures Described(T.ItemAt(b, i).value.kind, DescAt(b, T.ItemAt(b, i).value))
  {
    hide T.KindOf, T.SizeFits, T.AmlSize, Code, IsSmall, ToByte;
    var item := T.ItemAt(b, i).value;
    KindCode(b[i], item.kind);
    TwoBytes(item.size, b, i);
    assert item.at == i;
  }

  /** Five bytes the iterator accepts as an extended interrupt of size two that claims two
      numbers; they get the native size of an empty list. */
  lemma ShortListIsAccepted()
    ensures var b: seq<T.Byte> := [0x89, 0x02, 0x00, 0x00, 0x02];
            && T.ItemAt(b, 0) == Some(T.Item(0, T.ExtendedIrq, 3, 2))
            && var d := DescAt(b, T.Item(0, T.ExtendedIrq, 3, 2));
               && NativeSize(T.ExtendedIrq, d) == 32
               && WritesLater(ToNativeTable(T.ExtendedIrq), 0, d, 31)
  {
    hide Described, NativeSize, WritesLater, ToNativeTable;
    var b: seq<T.Byte> := [0x89, 0x02, 0x00, 0x00, 0x02];
    assert T.KindOf(b[0]) == Some(T.ExtendedIrq);
    assert T.ItemAt(b, 0) == Some(T.Item(0, T.ExtendedIrq, 3, 2));
    var d := DescAt(b, T.Item(0, T.ExtendedIrq, 3, 2));
    ItemIsDescribed(b, 0);
    ByteTwo();
    assert d.bytes(4) == ToByte(b[4]);
    RoomMissing(d);
  }

  lemma ByteTwo()
    ensures ToByte(2) == 2
  {
  }

  lemma TwoBytes(size: nat, b: seq<T.Byte>, i: nat)
    requires i < |b|
    ensures i + 3 <= |b| && size == (b[i + 1] as int) + (b[i + 2] as int) * 256 ==>
              size % 256 == b[i + 1] && size / 256 == b[i + 2]
  {
  }

  lemma FaultStep(p: Program, acc: nat, d: Desc)
    requires !Ends(p)
    ensures !IsSkip(p.insn) && !p.insn.ResourceSource? ==>
              Unterminated(p, acc, d) == Unterminated(p.rest, AccAfter(p.insn, acc, d), d)
    ensures p.insn.ResourceSource? ==>
              Unterminated(p, acc, d) == (BadText(SourceAt(d, acc).text) || Unterminated(p.rest, acc, d))
  {
    hide BadText, SourceAt;
  }

  lemma {:induction false} NoSourceNoFault(p: Program, acc: nat, d: Desc)
    requires !SourceLater(p)
    ensures !Unterminated(p, acc, d)
    decreases p
  {
    hide BadText, SourceAt, Skipped;
    if !Ends(p) {
      var (next, acc') := After(p, acc, d.size, Loaded(p.insn, d.bytes, false));
      AfterDrops(p, acc, d.size, Loaded(p.insn, d.bytes, false));
      DropsSource(p.rest, Skipped(p, acc, d.size));
      NoSourceNoFault(next, acc', d);
    }
  }

  lemma AddressFault(native: nat, width: nat, d: Desc)
    ensures Unterminated(Address(native, width), 0, d) <==> BadText(SourceAt(d, 0).text)
  {
    hide Unterminated, TypeFlags, BadText, SourceAt;
    TypeFlagsSourceless();
    NoSourceNoFault(TypeFlags(), 0, d);
    var p := Address(native, width);
    FaultStep(p, 0, d);
    FaultStep(p.rest, 0, d);
    FaultStep(p.rest.rest, 0, d);
    FaultStep(p.rest.rest.rest, 0, d);
    FaultStep(p.rest.rest.rest.rest, 0, d);
    FaultStep(p.rest.rest.rest.rest.rest, 0, d);
  }

  lemma ExtendedIrqFault(d: Desc)
    ensures Unterminated(ExtendedIrq(), 0, d) <==> BadText(SourceAt(d, 4 * ToNat(d.bytes(4))).text)
  {
    hide Unterminated, BadText, SourceAt, ToNat;
    var p, q := IrqFlags(IrqNumbers()), IrqNumbers();
    FaultStep(p, 0, d);
    FaultStep(p.rest, 0, d);
    FaultStep(p.rest.rest, 0, d);
    FaultStep(p.rest.rest.rest, 0, d);
    FaultStep(p.rest.rest.rest.rest, 0, d);
    FaultStep(q, 0, d);
    FaultStep(q.rest, 4 * ToNat(d.bytes(4)), d);
    NoSourceNoFault(q.rest.rest, 4 * ToNat(d.bytes(4)), d);
  }

  /** The interpreter gives up exactly on unterminated source strings. */
  lemma TerminatedIs(kind: T.Kind, d: Desc)
    requires Modelled(kind)
    ensures Terminated(kind, d) <==> !Unterminated(ToNativeTable(kind), 0, d)
  {
    hide Unterminated, BadText, SourceAt, SourceLater, ToNat, ExtendedIrq, Address, Address64Extended, ToNativeTable;
    if !HasSource(kind) {
      Sourceless(kind);
      NoSourceNoFault(ToNativeTable(kind), 0, d);
    } else {
      AddressTables();
      match kind {
        case Address16 => AddressFault(10, 2, d);
        case Address32 => AddressFault(12, 4, d);
        case Address64 => AddressFault(16, 8, d);
        case ExtendedIrq => ExtendedIrqFault(d);
      }
    }
  }

  /** One item in its place: its bytes, zeros from the second byte behind it on, and what
      was there before it. */
  lemma PlaceReturns(b: seq<T.Byte>, i: nat, next: Option<T.Kind>, out: Buffer, k: nat)
    requires T.ItemAt(b, i).Some? && Filled(b, T.ItemAt(b, i).value)
    requires forall j: nat | j > i :: out(j) == 0
    ensures var item := T.ItemAt(b, i).value;
      var d := DescAt(b, item);
      var r := Resource(item.kind, Stored(item.kind, d, next));
      && AmlLength(r.kind, r.native) == item.header + item.size
      && (k < i ==> EncodeAt(r, i, out)(k) == out(k))
      && (i <= k < item.End() ==>
            EncodeAt(r, i, out)(k) == And(Came(item.kind, d, next, k - i), Kept(item.kind, d, k - i)))
      && (k > item.End() || (k == item.End() && item.kind.EndTag?) ==> EncodeAt(r, i, out)(k) == 0)
  {
    hide Stored, Encode, Kept, Came, And, ToByte, Described, Whole, Modelled, Terminated, AmlLength, T.ItemAt;
    var item := T.ItemAt(b, i).value;
    var d := DescAt(b, item);
    ItemIsDescribed(b, i);
    LengthReturns(item.kind, d, next);
    if k >= i {
      BytesReturn(item.kind, d, next, From(out, i), k - i);
    }
  }

  // One descriptor more in front

  lemma ParseStep(b: seq<T.Byte>, i: nat)
    requires i <= |b| && T.Parse(b, i).1 == T.Ok
    ensures T.ItemAt(b, i).Some?
    ensures var item := T.ItemAt(b, i).value;
      if item.kind.EndTag? then T.Parse(b, i).0 == [item] + []
      else T.Parse(b, item.End()).1 == T.Ok && T.Parse(b, i).0 == [item] + T.Parse(b, item.End()).0
           && T.Parse(b, item.End()).0 != []
  {
    hide T.ItemAt;
  }

  lemma DecodeStep(b: seq<T.Byte>, item: T.Item, rest: seq<T.Item>)
    requires Terminated(item.kind, DescAt(b, item)) && DecodeAll(b, rest).Some?
    ensures var native := Stored(item.kind, DescAt(b, item), Follower([item] + rest));
            DecodeAll(b, [item] + rest) == Some([Resource(item.kind, native)] + DecodeAll(b, rest).value)
  {
    hide Terminated, DescAt, Stored, Follower;
    assert ([item] + rest)[1..] == rest;
  }

  lemma EncodeStep(r: Resource, rest: seq<Resource>, pos: nat, out: Buffer)
    ensures EncodeAll([r] + rest, pos, out)
         == if r.kind.EndTag? then EncodeAt(r, pos, out)
            else EncodeAll(rest, pos + AmlLength(r.kind, r.native), EncodeAt(r, pos, out))
    ensures TotalLength([r] + rest) == AmlLength(r.kind, r.native) + if r.kind.EndTag? then 0 else TotalLength(rest)
  {
    hide AmlLength, EncodeAt;
    assert ([r] + rest)[1..] == rest;
  }

  lemma KeptStep(b: seq<T.Byte>, item: T.Item, rest: seq<T.Item>, k: nat)
    requires item.at <= k
    ensures KeptAt(b, [item] + rest, k)
         == if k < item.End() then Kept(item.kind, DescAt(b, item), k - item.at) else KeptAt(b, rest, k)
    ensures CameAt(b, [item] + rest, k)
         == if k < item.End() then Came(item.kind, DescAt(b, item), Follower([item] + rest), k - item.at)
            else CameAt(b, rest, k)
  {
    hide Kept, Came, DescAt, Follower;
    assert ([item] + rest)[1..] == rest;
  }

  lemma IntactStep(b: seq<T.Byte>, item: T.Item, rest: seq<T.Item>)
    ensures AllIntact(b, [item] + rest)
            <==> Intact(item.kind, DescAt(b, item), Follower([item] + rest)) && AllIntact(b, rest)
  {
    hide Intact, DescAt, Follower;
    assert ([item] + rest)[1..] == rest;
  }

  lemma FilledStep(b: seq<T.Byte>, item: T.Item, rest: seq<T.Item>)
    requires AllFilled(b, [item] + rest)
    ensures Filled(b, item) && AllFilled(b, rest)
  {
    hide Filled;
    assert item in [item] + rest;
  }

  lemma DecodeNone(b: seq<T.Byte>)
    ensures DecodeAll(b, []) == Some([]) && AllIntact(b, [])
  {
  }

  /** Decoding a template and encoding the result gives a template of the same length,
      with the same descriptors in the same places and all bits that are not reserved, but
      for what empty lists do; the buffer is not written behind it. The end tag's checksum
      becomes zero. */
  lemma {:induction false} TemplateReturns(b: seq<T.Byte>, i: nat, out: Buffer, k: nat)
    requires i <= |b| && T.Parse(b, i).1 == T.Ok && AllFilled(b, T.Parse(b, i).0)
    requires forall j: nat | j > i :: out(j) == 0
    ensures var items := T.Parse(b, i).0; var rs := DecodeAll(b, items);
      && items != [] && rs.Some? && i + TotalLength(rs.value) == items[|items| - 1].End() <= |b|
      && (k < i ==> EncodeAll(rs.value, i, out)(k) == out(k))
      && (i <= k < i + TotalLength(rs.value) ==>
            EncodeAll(rs.value, i, out)(k) == And(CameAt(b, items, k), KeptAt(b, items, k)))
      && (k >= i + TotalLength(rs.value) ==> EncodeAll(rs.value, i, out)(k) == 0)
    decreases |b| - i
  {
    hide Stored, EncodeAt, Kept, Came, And, ToByte, Filled, AllFilled, AmlLength, T.ItemAt, DescAt, DecodeAll;
    hide KeptAt, CameAt, TotalLength, EncodeAll, T.Parse, Follower;
    ParseStep(b, i);
    var item := T.ItemAt(b, i).value;
    var rest := if item.kind.EndTag? then [] else T.Parse(b, item.End()).0;
    var next := Follower([item] + rest);
    var r := Resource(item.kind, Stored(item.kind, DescAt(b, item), next));
    FilledStep(b, item, rest);
    IsTerminated(b, item);
    PlaceReturns(b, i, next, out, k);
    if i <= k {
      KeptStep(b, item, rest, k);
    }
    if item.kind.EndTag? {
      DecodeNone(b);
      DecodeStep(b, item, []);
      EncodeStep(r, [], i, out);
    } else {
      forall j: nat | j > item.End()
        ensures EncodeAt(r, i, out)(j) == 0
      {
        PlaceReturns(b, i, next, out, j);
      }
      TemplateReturns(b, item.End(), EncodeAt(r, i, out), k);
      DecodeStep(b, item, rest);
      EncodeStep(r, DecodeAll(b, rest).value, i, out);
    }
  }

  lemma IsTerminated(b: seq<T.Byte>, item: T.Item)
    requires Filled(b, item)
    ensures Terminated(item.kind, DescAt(b, item))
  {
    hide Terminated, DescAt, Whole, Modelled;
  }

  /** Byte k comes back in all its bits that are not reserved. */
  ghost predicate SameAt(b: seq<T.Byte>, items: seq<T.Item>, k: nat)
    requires k < |b|
  {
    And(CameAt(b, items, k), KeptAt(b, items, k)) == And(ToByte(b[k]), KeptAt(b, items, k))
  }

  lemma ItemSame(b: seq<T.Byte>, i: nat, rest: seq<T.Item>)
    requires T.ItemAt(b, i).Some? && Filled(b, T.ItemAt(b, i).value)
    ensures var item := T.ItemAt(b, i).value;
            (forall k | i <= k < item.End() :: SameAt(b, [item] + rest, k))
            <==> Intact(item.kind, DescAt(b, item), Follower([item] + rest))
  {
    hide Kept, Came, Intact, And, ToByte, KeptAt, CameAt, Whole, Terminated, Modelled, T.ItemAt, Follower, Described;
    var item := T.ItemAt(b, i).value;
    var d, items := DescAt(b, item), [item] + rest;
    ItemIsDescribed(b, i);
    CameIffIntact(item.kind, d, Follower(items));
    forall k: nat | k < item.header + item.size
      ensures SameAt(b, items, i + k)
              <==> And(Came(item.kind, d, Follower(items), k), Kept(item.kind, d, k))
                   == And(d.bytes(k), Kept(item.kind, d, k))
    {
      KeptStep(b, item, rest, i + k);
    }
    forall k | i <= k < item.End()
      ensures SameAt(b, items, k)
              <==> And(Came(item.kind, d, Follower(items), k - i), Kept(item.kind, d, k - i))
                   == And(d.bytes(k - i), Kept(item.kind, d, k - i))
    {
      assert k == i + (k - i);
    }
  }

  lemma {:induction false} ItemsSame(b: seq<T.Byte>, i: nat)
    requires i <= |b| && T.Parse(b, i).1 == T.Ok && AllFilled(b, T.Parse(b, i).0)
    ensures var items := T.Parse(b, i).0;
      && items != [] && i < items[|items| - 1].End() <= |b|
      && ((forall k | i <= k < items[|items| - 1].End() :: SameAt(b, items, k)) <==> AllIntact(b, items))
    decreases |b| - i
  {
    hide KeptAt, CameAt, Kept, Came, And, ToByte, Filled, AllFilled, T.ItemAt, DescAt, T.Parse, Follower, SameAt;
    hide Intact, AllIntact;
    ParseStep(b, i);
    var item := T.ItemAt(b, i).value;
    var rest := if item.kind.EndTag? then [] else T.Parse(b, item.End()).0;
    var items := [item] + rest;
    FilledStep(b, item, rest);
    ItemSame(b, i, rest);
    IntactStep(b, item, rest);
    DecodeNone(b);
    if !item.kind.EndTag? {
      ItemsSame(b, item.End());
      forall k | item.End() <= k < rest[|rest| - 1].End()
        ensures SameAt(b, items, k) <==> SameAt(b, rest, k)
      {
        SameStep(b, item, rest, k);
      }
    }
  }

  lemma SameStep(b: seq<T.Byte>, item: T.Item, rest: seq<T.Item>, k: nat)
    requires item.at <= item.End() <= k < |b|
    ensures SameAt(b, [item] + rest, k) <==> SameAt(b, rest, k)
  {
    hide KeptAt, CameAt, And, ToByte, Kept, Came, Follower;
    KeptStep(b, item, rest, k);
  }

  /** The template comes back in all bits that are not reserved if and only if no empty
      list of numbers does harm. */
  lemma TemplateReturnsIffIntact(b: seq<T.Byte>)
    requires T.Parse(b, 0).1 == T.Ok && AllFilled(b, T.Parse(b, 0).0)
    ensures var items := T.Parse(b, 0).0; var rs := DecodeAll(b, items);
      && rs.Some? && TotalLength(rs.value) <= |b|
      && ((forall k | 0 <= k < TotalLength(rs.value) ::
             EncodeAll(rs.value, 0, Zeros())(k) == And(ToByte(b[k]), KeptAt(b, items, k)))
          <==> AllIntact(b, items))
  {
    hide DecodeAll, EncodeAll, TotalLength, KeptAt, CameAt, And, ToByte, T.Parse, AllFilled, AllIntact;
    var items := T.Parse(b, 0).0;
    TemplateReturns(b, 0, Zeros(), 0);
    ItemsSame(b, 0);
    var rs := DecodeAll(b, items).value;
    forall k | 0 <= k < TotalLength(rs)
      ensures EncodeAll(rs, 0, Zeros())(k) == And(ToByte(b[k]), KeptAt(b, items, k)) <==> SameAt(b, items, k)
    {
      TemplateReturns(b, 0, Zeros(), k);
    }
  }

  // The descriptors of the output

  lemma HeaderComes(kind: T.Kind, d: Desc, next: Option<T.Kind>, k: nat)
    requires Described(kind, d) && k < d.header
    ensures And(Came(kind, d, next, k), Kept(kind, d, k)) == d.bytes(k)
  {
    hide And, Smeared, IndexOnly, ToByte;
    AndZero(d.bytes(k));
  }

  lemma {:induction false} ItemsParse(b: seq<T.Byte>, c: seq<T.Byte>, i: nat)
    requires i <= |b| && T.Parse(b, i).1 == T.Ok && AllFilled(b, T.Parse(b, i).0)
    requires i < |c| && |c| == T.Parse(b, i).0[|T.Parse(b, i).0| - 1].End()
    requires forall k: nat | i <= k < |c| ::
               ToByte(c[k]) == And(CameAt(b, T.Parse(b, i).0, k), KeptAt(b, T.Parse(b, i).0, k))
    ensures T.Parse(c, i) == T.Parse(b, i)
    decreases |b| - i
  {
    hide KeptAt, CameAt, Kept, Came, And, ToByte, Filled, AllFilled, T.ItemAt, Follower, T.Parse, Described;
    ParseStep(b, i);
    var item := T.ItemAt(b, i).value;
    var rest := if item.kind.EndTag? then [] else T.Parse(b, item.End()).0;
    FilledStep(b, item, rest);
    NotSerial(b, item);
    LastEnd(b, i);
    ItemIsDescribed(b, i);
    forall p: nat | i <= p < i + item.header
      ensures c[p] == b[p]
    {
      KeptStep(b, item, rest, p);
      HeaderComes(item.kind, DescAt(b, item), Follower([item] + rest), p - i);
      ByteIsNumber(c[p]);
      ByteIsNumber(b[p]);
    }
    T.HeaderDecides(b, c, i);
    ParseIs(b, i);
    ParseIs(c, i);
    if !item.kind.EndTag? {
      LastEnd(b, item.End());
      forall k: nat | item.End() <= k < |c|
        ensures ToByte(c[k]) == And(CameAt(b, rest, k), KeptAt(b, rest, k))
      {
        KeptStep(b, item, rest, k);
      }
      ItemsParse(b, c, item.End());
    }
  }

  lemma NotSerial(b: seq<T.Byte>, item: T.Item)
    requires Filled(b, item)
    ensures !item.kind.SerialConnection?
  {
    hide Terminated, DescAt, Whole;
  }

  lemma ParseIs(b: seq<T.Byte>, i: nat)
    requires i < |b| && T.ItemAt(b, i).Some?
    ensures var item := T.ItemAt(b, i).value;
            T.Parse(b, i) == if item.kind.EndTag? then ([item], T.Ok)
                             else ([item] + T.Parse(b, item.End()).0, T.Parse(b, item.End()).1)
  {
    hide T.ItemAt;
  }

  /** The first descriptor ends where the next begins, or with the template. */
  lemma {:induction false} LastEnd(b: seq<T.Byte>, i: nat)
    requires i <= |b| && T.Parse(b, i).1 == T.Ok
    ensures var items := T.Parse(b, i).0;
            items != [] && T.ItemAt(b, i) == Some(items[0]) && items[0].End() <= items[|items| - 1].End() <= |b|
    ensures !T.Parse(b, i).0[0].kind.EndTag? ==> T.Parse(b, i).0[0].End() < T.Parse(b, i).0[|T.Parse(b, i).0| - 1].End()
    decreases |b| - i
  {
    hide T.ItemAt;
    var item := T.ItemAt(b, i).value;
    if !item.kind.EndTag? {
      LastEnd(b, item.End());
    }
  }

  /** The output is a template with the same descriptors in the same places. */
  lemma OutputParses(b: seq<T.Byte>, c: seq<T.Byte>)
    requires T.Parse(b, 0).1 == T.Ok && AllFilled(b, T.Parse(b, 0).0)
    requires DecodeAll(b, T.Parse(b, 0).0).Some? ==>
               var rs := DecodeAll(b, T.Parse(b, 0).0).value;
               && |c| == TotalLength(rs)
               && forall k: nat | k < |c| :: ToByte(c[k]) == EncodeAll(rs, 0, Zeros())(k)
    ensures T.Parse(c, 0) == T.Parse(b, 0)
  {
    hide DecodeAll, EncodeAll, TotalLength, KeptAt, CameAt, And, ToByte, T.Parse, AllFilled, T.ItemAt;
    var items := T.Parse(b, 0).0;
    TemplateReturns(b, 0, Zeros(), 0);
    LastEnd(b, 0);
    forall k: nat | k < |c|
      ensures ToByte(c[k]) == And(CameAt(b, items, k), KeptAt(b, items, k))
    {
      TemplateReturns(b, 0, Zeros(), k);
    }
    ItemsParse(b, c, 0);
  }

  /** An empty list with an index of 5 and no string, and the end tag. */
  function IndexAndEnd(): seq<T.Byte> { [0x89, 0x03, 0x00, 0x00, 0x00, 0x05, 0x79, 0x00] }

  lemma IndexAndEndParses()
    ensures T.Parse(IndexAndEnd(), 0) == ([T.Item(0, T.ExtendedIrq, 3, 3), T.Item(6, T.EndTag, 1, 1)], T.Ok)
    ensures T.ItemAt(IndexAndEnd(), 0) == Some(T.Item(0, T.ExtendedIrq, 3, 3))
  {
    var b := IndexAndEnd();
    assert T.ItemAt(b, 6) == Some(T.Item(6, T.EndTag, 1, 1));
    assert T.ItemAt(b, 0) == Some(T.Item(0, T.ExtendedIrq, 3, 3));
    hide T.Parse, T.ItemAt;
    ParseIs(b, 6);
    ParseIs(b, 0);
    assert [T.Item(0, T.ExtendedIrq, 3, 3)] + [T.Item(6, T.EndTag, 1, 1)]
        == [T.Item(0, T.ExtendedIrq, 3, 3), T.Item(6, T.EndTag, 1, 1)];
  }

  lemma IndexAndEndFilled()
    ensures AllFilled(IndexAndEnd(), [T.Item(0, T.ExtendedIrq, 3, 3), T.Item(6, T.EndTag, 1, 1)])
    ensures IndexOnly(T.ExtendedIrq, DescAt(IndexAndEnd(), T.Item(0, T.ExtendedIrq, 3, 3)))
    ensures !Smeared(T.ExtendedIrq, DescAt(IndexAndEnd(), T.Item(0, T.ExtendedIrq, 3, 3)))
  {
    hide ToNat, ToByte;
    LiteralBytes();
    Zero();
  }

  lemma LiteralBytes()
    ensures ToByte(0) == 0 && ToByte(5) == 5 && ToByte(29) == 29
  {
  }

  /** Its index of 5 comes back as 29, the type number of an end tag. */
  lemma IndexIsReplaced()
    ensures var b := IndexAndEnd();
      && T.Parse(b, 0).1 == T.Ok && AllFilled(b, T.Parse(b, 0).0) && ToByte(b[5]) == 5
      && var rs := DecodeAll(b, T.Parse(b, 0).0);
         rs.Some? && |b| == TotalLength(rs.value) && EncodeAll(rs.value, 0, Zeros())(5) == 29
  {
    hide ToByte, DecodeAll, EncodeAll, TotalLength, AllFilled, IndexOnly, Smeared, And, T.Parse, DescAt, Kept;
    IndexAndEndParses();
    IndexAndEndFilled();
    LiteralBytes();
    var b, first, last := IndexAndEnd(), T.Item(0, T.ExtendedIrq, 3, 3), T.Item(6, T.EndTag, 1, 1);
    TemplateReturns(b, 0, Zeros(), 5);
    KeptStep(b, first, [last], 5);
    IndexIsKept(DescAt(b, first));
    AndZero(29);
  }

  lemma IndexIsKept(d: Desc)
    ensures Kept(T.ExtendedIrq, d, 5) == 0xFF
  {
  }

  // The callbacks and the passes over a template

  /** `do_aml_resource_to_native` on one descriptor. */
  method ConvertToNative(kind: T.Kind, d: Desc) returns (n: Option<Native>)
    requires Modelled(kind)
    ensures n == if Terminated(kind, d) then Some(Stored(kind, d, None)) else None
    ensures n.Some? ==> NativeFields(kind, d, n.value)
  {
    StoredFields(kind, d, None);
    hide NativeFields, IsSource, HasSource, Smeared;
    hide Terminated, Unterminated, ToNativeTable, ToNative, Checked, AllChecked, CheckedInsn, Blank;
    var table := ToNativeTable(kind);
    TableChecked(kind);
    CheckedHasAll(table, 0);
    ChecksArrays(table);
    ListedInstructions(table, []);
    assert [] + Instructions(table) == Instructions(table);
    TerminatedIs(kind, d);
    var ok, native := AmlToNative(Instructions(table), d, Blank());
    return if ok then Some(Overlaid(kind, native)) else None;
  }

  lemma ChecksArrays(p: Program)
    requires AllChecked(p)
    ensures forall i | 0 <= i < |Instructions(p)| && Instructions(p)[i].PackedArray? ::
            Instructions(p)[i].bytes in {1, 2}
  {
    hide AllChecked, Instructions;
    InstructionsChecked(p);
  }

  /** `do_native_resource_to_aml` for one resource, `pos` bytes into the buffer. */
  method ConvertToAml(r: Resource, pos: nat, out: Buffer) returns (next: nat, filled: Buffer)
    requires Modelled(r.kind)
    ensures next == pos + AmlLength(r.kind, r.native)
    ensures filled == EncodeAt(r, pos, out)
  {
    hide ToAmlTable, AmlLength, ToAml, T.AmlSize, Headed, Corrected;
    var table, length := ToAmlTable(r.kind), AmlLength(r.kind, r.native);
    ListedInstructions(table, []);
    assert [] + Instructions(table) == Instructions(table);
    var size, base := length - HeaderOf(r.kind), T.AmlSize(r.kind) + HeaderOf(r.kind);
    var place := NativeToAml(Instructions(table), size, base, Corrected(r.kind, r.native),
                             Headed(r.kind, size, From(out, pos)));
    filled := WithTail(out, pos, place);
    next := pos + length;
  }

  /** The resources converted before the conversion is given up, or all of them. */
  function DecodedPart(b: seq<T.Byte>, items: seq<T.Item>): seq<Resource> {
    if items == [] then []
    else
      var kind, d := items[0].kind, DescAt(b, items[0]);
      if !Terminated(kind, d) then []
      else [Resource(kind, Stored(kind, d, Follower(items)))] + DecodedPart(b, items[1..])
  }

  predicate AllModelled(items: seq<T.Item>) { forall item | item in items :: Modelled(item.kind) }

  /** Nothing is missing exactly if every source string is terminated. */
  lemma {:induction false} PartOrAll(b: seq<T.Byte>, items: seq<T.Item>)
    requires AllModelled(items)
    ensures |DecodedPart(b, items)| <= |items|
    ensures |DecodedPart(b, items)| == |items|
            <==> forall item | item in items :: Terminated(item.kind, DescAt(b, item))
    ensures DecodeAll(b, items) == if |DecodedPart(b, items)| == |items| then Some(DecodedPart(b, items)) else None
  {
    hide Terminated, DescAt, Stored;
    if items != [] {
      PartOrAll(b, items[1..]);
      assert items == [items[0]] + items[1..];
    }
  }

  const MAX_NATIVE: nat := 5 * 1024 * 1024

  /** `accumulate_native_buffer_size` along the descriptors, 64 bits wide; None where a size
      is refused. */
  function Sized(b: seq<T.Byte>, items: seq<T.Item>, total: nat): Option<nat> {
    if items == [] then Some(total)
    else
      var size := NativeSize(items[0].kind, DescAt(b, items[0]));
      if size == 0 || Wrap(total + size) < total then None else Sized(b, items[1..], Wrap(total + size))
  }

  /** The status of the first pass, and of the limit on its result. */
  function SizingStatus(b: seq<T.Byte>): T.Status {
    match Sized(b, T.Parse(b, 0).0, 0)
    case None => T.InvalidResource
    case Some(total) =>
      if T.Parse(b, 0).1 != T.Ok then T.Parse(b, 0).1 else if total > MAX_NATIVE then T.InternalError else T.Ok
  }

  /** No conversion writes into the structure that comes next, but for the one byte of an
      empty list that `Followed` accounts for. */
  ghost predicate NoneOverlaps(b: seq<T.Byte>, items: seq<T.Item>) {
    forall item | item in items :: Extra(item.kind, DescAt(b, item)) <= item.size + 4
  }

  /** `uacpi_native_resources_from_aml`. The status is that of the first pass alone: when a
      conversion is given up in the second, the call still succeeds with what it has. */
  method NativeFromAml(b: seq<T.Byte>) returns (status: T.Status, rs: seq<Resource>)
    requires AllModelled(T.Parse(b, 0).0)
    ensures status == SizingStatus(b)
    ensures status == T.Ok && NoneOverlaps(b, T.Parse(b, 0).0) ==> rs == DecodedPart(b, T.Parse(b, 0).0)
    ensures status == T.Ok && NoneOverlaps(b, T.Parse(b, 0).0) ==> FieldsHold(b, T.Parse(b, 0).0, rs)
    ensures status == T.Ok ==>
              (|rs| < |T.Parse(b, 0).0| <==>
               exists item :: item in T.Parse(b, 0).0 && !Terminated(item.kind, DescAt(b, item)))
  {
    hide Terminated, DecodedPart, DescAt, Sized, NoneOverlaps, FieldsHold, T.Parse;
    var goOn: T.Callback := (seen: seq<T.Item>) => T.Continue;
    var items, first := T.ForEachResource(b, goOn);
    T.IterateParses(b, 0, [], goOn);
    assert items == T.Parse(b, 0).0;
    PartOrAll(b, items);
    var total := AddSizes(b, items);
    if total.None? {
      return T.InvalidResource, [];
    }
    if first != T.Ok {
      return first, [];
    }
    if total.value > MAX_NATIVE {
      return T.InternalError, [];
    }
    rs := ConvertAll(b, items);
    PartHolds(b, items);
    return T.Ok, rs;
  }

  /** Each structure has its kind and the fields of its descriptor. */
  ghost predicate FieldsHold(b: seq<T.Byte>, items: seq<T.Item>, rs: seq<Resource>) {
    && |rs| <= |items|
    && forall i: nat | i < |rs| ::
         rs[i].kind == items[i].kind && NativeFields(items[i].kind, DescAt(b, items[i]), rs[i].native)
  }

  lemma {:induction false} PartHolds(b: seq<T.Byte>, items: seq<T.Item>)
    ensures FieldsHold(b, items, DecodedPart(b, items))
  {
    hide Terminated, DescAt, Stored, NativeFields, Follower, IsSource, HasSource, Smeared;
    if items != [] && Terminated(items[0].kind, DescAt(b, items[0])) {
      PartHolds(b, items[1..]);
      StoredFields(items[0].kind, DescAt(b, items[0]), Follower(items));
      var rest := DecodedPart(b, items[1..]);
      assert forall i: nat | 0 < i <= |rest| ::
          DecodedPart(b, items)[i] == rest[i - 1] && items[i] == items[1..][i - 1];
    }
  }

  /** The first pass. */
  method AddSizes(b: seq<T.Byte>, items: seq<T.Item>) returns (total: Option<nat>)
    ensures total == Sized(b, items, 0)
  {
    hide NativeSize, DescAt, Wrap, Sized;
    var size := 0;
    assert items[0..] == items;
    for i := 0 to |items|
      invariant 0 <= size && Sized(b, items, 0) == Sized(b, items[i..], size)
    {
      SizedStep(b, items[i..], size);
      assert items[i..][1..] == items[i + 1..];
      var sizeForThis := NativeSize(items[i].kind, DescAt(b, items[i]));
      if sizeForThis == 0 || Wrap(size + sizeForThis) < size {
        return None;
      }
      size := Wrap(size + sizeForThis);
    }
    SizedStep(b, [], size);
    return Some(size);
  }

  lemma SizedStep(b: seq<T.Byte>, items: seq<T.Item>, total: nat)
    ensures items == [] ==> Sized(b, items, total) == Some(total)
    ensures items != [] ==>
              var size := NativeSize(items[0].kind, DescAt(b, items[0]));
              Sized(b, items, total)
              == if size == 0 || Wrap(total + size) < total then None else Sized(b, items[1..], Wrap(total + size))
  {
    hide NativeSize, DescAt, Wrap;
  }

  /** The type of the next structure is stored, maybe over the last byte of this one. */
  function Retyped(b: seq<T.Byte>, item: T.Item, r: Resource, next: T.Kind): Resource {
    Resource(r.kind, Followed(item.kind, DescAt(b, item), r.native, Some(next)))
  }

  /** What the conversion of an item leaves, with the structure after it, if any. */
  function Converted(b: seq<T.Byte>, item: T.Item, next: Option<T.Kind>): Resource {
    Resource(item.kind, Stored(item.kind, DescAt(b, item), next))
  }

  lemma ItemSizeBounds(b: seq<T.Byte>, i: nat)
    requires T.ItemAt(b, i).Some? && Modelled(T.ItemAt(b, i).value.kind)
    ensures var item := T.ItemAt(b, i).value; 8 <= NativeSize(item.kind, DescAt(b, item)) <= 0x20000
  {
    hide Modelled, NativeSize, Described;
    ItemIsDescribed(b, i);
    SizeBounds(T.ItemAt(b, i).value.kind, DescAt(b, T.ItemAt(b, i).value));
  }

  /** The first pass refuses no size of a template below 4 GB. */
  lemma {:induction false} NoSizeRefused(b: seq<T.Byte>, i: nat, total: nat)
    requires i <= |b| < 0x1_0000_0000 && AllModelled(T.Parse(b, i).0) && total <= i * 0x20000
    ensures Sized(b, T.Parse(b, i).0, total).Some?
    decreases |b| - i
  {
    hide T.ItemAt, Modelled, NativeSize, DescAt, Wrap;
    if i < |b| && T.ItemAt(b, i).Some? {
      var item := T.ItemAt(b, i).value;
      var rest := if item.kind.EndTag? then [] else T.Parse(b, item.End()).0;
      assert T.Parse(b, i).0 == [item] + rest;
      assert item in [item] + rest;
      ItemSizeBounds(b, i);
      SizedStep(b, [item] + rest, total);
      assert ([item] + rest)[1..] == rest;
      if !item.kind.EndTag? {
        NoSizeRefused(b, item.End(), total + NativeSize(item.kind, DescAt(b, item)));
      }
    }
  }

  /** The first `count` structures, each with the type of the next one. */
  function Settled(b: seq<T.Byte>, items: seq<T.Item>, count: nat): (r: seq<Resource>)
    requires count < |items| || count == 0
    ensures |r| == count
  {
    if count == 0 then []
    else Settled(b, items, count - 1) + [Converted(b, items[count - 1], Some(items[count].kind))]
  }

  /** The second pass. Each structure gets its type before anything is converted. */
  method ConvertAll(b: seq<T.Byte>, items: seq<T.Item>) returns (rs: seq<Resource>)
    requires AllModelled(items)
    ensures |rs| == |DecodedPart(b, items)| && (NoneOverlaps(b, items) ==> rs == DecodedPart(b, items))
  {
    hide Terminated, DecodedPart, Converted, Retyped, Settled, DescAt, Stored;
    rs := [];
    assert items[0..] == items;
    PartNone(b, items);
    for i := 0 to |items|
      invariant if i == 0 then rs == [] else rs == Settled(b, items, i - 1) + [Converted(b, items[i - 1], None)]
      invariant if i == |items| then rs == DecodedPart(b, items)
                else DecodedPart(b, items) == Settled(b, items, i) + DecodedPart(b, items[i..])
    {
      var item := items[i];
      if i > 0 {
        rs := rs[i - 1 := Retyped(b, items[i - 1], rs[i - 1], item.kind)];
        SettledStep(b, items, i);
      }
      assert rs == Settled(b, items, i) by { PartNone(b, items); }
      PartStep(b, items, i);
      var n := ConvertToNative(item.kind, DescAt(b, item));
      if n.None? {
        return;
      }
      ConvertedIs(b, item, None);
      rs := rs + [Resource(item.kind, n.value)];
    }
  }

  lemma SettledStep(b: seq<T.Byte>, items: seq<T.Item>, i: nat)
    requires 0 < i < |items|
    ensures var rs := Settled(b, items, i - 1) + [Converted(b, items[i - 1], None)];
            rs[i - 1 := Retyped(b, items[i - 1], rs[i - 1], items[i].kind)] == Settled(b, items, i)
  {
    hide Converted, Retyped;
    RetypedIs(b, items[i - 1], items[i].kind);
  }

  lemma PartStep(b: seq<T.Byte>, items: seq<T.Item>, i: nat)
    requires i < |items| && DecodedPart(b, items) == Settled(b, items, i) + DecodedPart(b, items[i..])
    ensures !Terminated(items[i].kind, DescAt(b, items[i])) ==> DecodedPart(b, items) == Settled(b, items, i)
    ensures Terminated(items[i].kind, DescAt(b, items[i])) ==>
              if i + 1 == |items| then DecodedPart(b, items) == Settled(b, items, i) + [Converted(b, items[i], None)]
              else DecodedPart(b, items) == Settled(b, items, i + 1) + DecodedPart(b, items[i + 1..])
  {
    hide Converted, Terminated, DescAt, DecodedPart, Follower;
    PartFirst(b, items[i..]);
    PartNone(b, items);
    FollowerIs(items, i);
    assert items[i..][1..] == items[i + 1..];
    if i + 1 < |items| {
      assert Settled(b, items, i + 1) == Settled(b, items, i) + [Converted(b, items[i], Some(items[i + 1].kind))];
    }
  }

  lemma ConvertedIs(b: seq<T.Byte>, item: T.Item, next: Option<T.Kind>)
    ensures Converted(b, item, next) == Resource(item.kind, Stored(item.kind, DescAt(b, item), next))
  {
  }

  lemma RetypedIs(b: seq<T.Byte>, item: T.Item, next: T.Kind)
    ensures Retyped(b, item, Converted(b, item, None), next) == Converted(b, item, Some(next))
  {
    hide DescAt, Decode, NativeType, Overlaid;
  }

  lemma FollowerIs(items: seq<T.Item>, i: nat)
    requires i < |items|
    ensures Follower(items[i..]) == if i + 1 < |items| then Some(items[i + 1].kind) else None
  {
  }

  lemma PartFirst(b: seq<T.Byte>, items: seq<T.Item>)
    requires items != []
    ensures DecodedPart(b, items)
         == if !Terminated(items[0].kind, DescAt(b, items[0])) then []
            else [Converted(b, items[0], Follower(items))] + DecodedPart(b, items[1..])
  {
    hide Terminated, DescAt, Stored, Follower;
  }

  lemma PartNone(b: seq<T.Byte>, items: seq<T.Item>)
    ensures DecodedPart(b, []) == [] && Settled(b, items, 0) == []
  {
  }

  /** `uacpi_native_resources_to_aml`: the size first, then the bytes. */
  method ResourcesToAml(rs: seq<Resource>) returns (status: T.Status, size: nat, out: Buffer)
    requires forall r | r in rs :: Modelled(r.kind)
    ensures size == TotalLength(rs) && status == if size > MAX_NATIVE then T.InternalError else T.Ok
    ensures status == T.Ok ==> out == EncodeAll(rs, 0, Zeros())
  {
    hide AmlLength, EncodeAt, TotalLength, EncodeAll, WithEndTag;
    size := 0;
    out := Zeros();
    var all := WithEndTag(rs);
    UpToEndTag(rs, 0, Zeros());
    EndTagModelled(rs);
    assert all[0..] == all;
    for i := 0 to |all|
      invariant size + LengthOf(all[i..]) == TotalLength(rs)
    {
      assert all[i..][1..] == all[i + 1..];
      size := size + AmlLength(all[i].kind, all[i].native);
    }
    if size > MAX_NATIVE {
      return T.InternalError, size, out;
    }
    status := T.Ok;
    var pos := 0;
    for i := 0 to |all|
      invariant Placed(all[i..], pos, out) == EncodeAll(rs, 0, Zeros())
    {
      assert all[i..][1..] == all[i + 1..];
      pos, out := ConvertToAml(all[i], pos, out);
    }
  }

  /** The resources up to the first end tag, which is added where there is none. */
  function WithEndTag(rs: seq<Resource>): seq<Resource> {
    if rs == [] then [EndTag()] else if rs[0].kind.EndTag? then [rs[0]] else [rs[0]] + WithEndTag(rs[1..])
  }

  lemma {:induction false} EndTagModelled(rs: seq<Resource>)
    requires forall r | r in rs :: Modelled(r.kind)
    ensures forall r | r in WithEndTag(rs) :: Modelled(r.kind)
  {
    if rs != [] && !rs[0].kind.EndTag? {
      EndTagModelled(rs[1..]);
    }
  }

  function LengthOf(rs: seq<Resource>): nat {
    if rs == [] then 0 else AmlLength(rs[0].kind, rs[0].native) + LengthOf(rs[1..])
  }

  function Placed(rs: seq<Resource>, pos: nat, out: Buffer): Buffer {
    if rs == [] then out else Placed(rs[1..], pos + AmlLength(rs[0].kind, rs[0].native), EncodeAt(rs[0], pos, out))
  }

  lemma {:induction false} UpToEndTag(rs: seq<Resource>, pos: nat, out: Buffer)
    ensures LengthOf(WithEndTag(rs)) == TotalLength(rs) && Placed(WithEndTag(rs), pos, out) == EncodeAll(rs, pos, out)
  {
    hide AmlLength, EncodeAt;
    if rs != [] && !rs[0].kind.EndTag? {
      UpToEndTag(rs[1..], pos + AmlLength(rs[0].kind, rs[0].native), EncodeAt(rs[0], pos, out));
      assert WithEndTag(rs)[1..] == WithEndTag(rs[1..]);
    }
  }

  /** Whatever the native structures hold, filling the buffer writes nothing behind the
      size computed for it. */
  lemma {:induction false} NothingBehind(rs: seq<Resource>, pos: nat, out: Buffer, k: nat)
    requires (forall r | r in rs :: Modelled(r.kind)) && k >= pos + TotalLength(rs)
    ensures EncodeAll(rs, pos, out)(k) == out(k)
  {
    hide Modelled, AmlLength, Encode;
    EndTagLength();
    if rs == [] {
      PlaceFits(EndTag(), pos, out, k);
    } else {
      PlaceFits(rs[0], pos, out, k);
      if !rs[0].kind.EndTag? {
        TotalIsPositive(rs[1..]);
        NothingBehind(rs[1..], pos + AmlLength(rs[0].kind, rs[0].native), EncodeAt(rs[0], pos, out), k);
      }
    }
  }

  lemma EndTagLength()
    ensures Modelled(T.EndTag) && forall n :: AmlLength(T.EndTag, n) == 2
  {
  }

  lemma {:induction false} TotalIsPositive(rs: seq<Resource>)
    ensures TotalLength(rs) > 0
  {
    hide AmlLength;
    EndTagLength();
    if rs != [] && !rs[0].kind.EndTag? {
      TotalIsPositive(rs[1..]);
    }
  }

  lemma PlaceFits(r: Resource, pos: nat, out: Buffer, k: nat)
    requires Modelled(r.kind) && k >= pos + AmlLength(r.kind, r.native)
    ensures r.kind.EndTag? || k > pos + AmlLength(r.kind, r.native) ==> EncodeAt(r, pos, out)(k) == out(k)
  {
    hide Modelled, AmlLength, Encode;
    if r.kind.EndTag? || k > pos + AmlLength(r.kind, r.native) {
      EncodeFits(r.kind, r.native, From(out, pos), k - pos);
    }
  }
}

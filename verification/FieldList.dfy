/** The field list of `handle_create_field` in src/kern/acpi/interpreter.c, and what
    its units mean for one another once they are read and written. */
module FieldList {
  import opened Bits
  import opened BitCopy
  import opened BufferField
  import opened FieldUnit

  datatype Element =
    | Named(length: nat)
    | Reserved(length: nat)
    | Access(accessType: nat)

  /** Access width in bytes for an AccessType nibble; 0 for a bad encoding. */
  function AccessWidth(accessType: nat): nat {
    match accessType
    case 0 => 1
    case 1 => 1
    case 5 => 1
    case 2 => 2
    case 3 => 4
    case 4 => 8
    case _ => 0
  }

  /** The access types of ACPI 6.5 section 19.6.48: any, byte, word, doubleword, quadword and
      buffer access; all else has no width. */
  lemma AccessWidths(accessType: nat)
    ensures AccessWidth(accessType) != 0 <==> accessType <= 5
    ensures accessType in {0, 1, 5} ==> AccessWidth(accessType) == 1
    ensures accessType == 2 ==> AccessWidth(accessType) == 2
    ensures accessType == 3 ==> AccessWidth(accessType) == 4
    ensures accessType == 4 ==> AccessWidth(accessType) == 8
  {
  }

  /** Units laid out in order, each in the bits after those before it. */
  ghost predicate Ordered(fields: seq<FieldUnit>, end: nat) {
    && (forall a: nat | a < |fields| :: fields[a].Valid() && fields[a].Span().index + fields[a].bitLength <= end)
    && forall a: nat, b: nat | a < b < |fields| ::
         fields[a].Span().index + fields[a].bitLength <= fields[b].Span().index
  }

  ghost function TotalBits(list: seq<Element>): nat {
    if list == [] then 0
    else
      TotalBits(list[..|list| - 1]) +
      match list[|list| - 1]
      case Named(n) => n
      case Reserved(n) => n
      case Access(_) => 0
  }

  /** The access type in force after a list prefix. */
  ghost function CurrentAccess(list: seq<Element>, accessType: nat): nat {
    if list == [] then accessType
    else match list[|list| - 1] case Access(a) => a case _ => CurrentAccess(list[..|list| - 1], accessType)
  }

  /** What the list asks for: the bits and the access type of each named element. */
  ghost function Wanted(list: seq<Element>, accessType: nat): seq<(BitSpan, nat)> {
    if list == [] then []
    else
      var init := list[..|list| - 1];
      Wanted(init, accessType) +
      match list[|list| - 1]
      case Named(n) => [(BitSpan(TotalBits(init), n), CurrentAccess(init, accessType))]
      case _ => []
  }

  ghost predicate Matches(fields: seq<FieldUnit>, wanted: seq<(BitSpan, nat)>, rule: UpdateRule) {
    && |fields| == |wanted|
    && forall a: nat | a < |fields| ::
         fields[a].Span() == wanted[a].0 && fields[a].width == AccessWidth(wanted[a].1) && fields[a].rule == rule
  }

  /** Walks the list, giving each named element the bits that follow the elements
      before it. Fails when a named element has no usable access type. */
  method CreateFields(list: seq<Element>, accessType: nat, rule: UpdateRule) returns (ok: bool, fields: seq<FieldUnit>)
    ensures ok <==> forall w | w in Wanted(list, accessType) :: AccessWidth(w.1) != 0
    ensures ok ==> Matches(fields, Wanted(list, accessType), rule)
    ensures Ordered(fields, TotalBits(list))
  {
    hide Ordered, Matches, Wanted;
    var current, bitOffset: nat := accessType, 0;
    fields := [];
    assert list[..0] == [];
    Empty(accessType, rule);
    for i := 0 to |list|
      invariant bitOffset == TotalBits(list[..i]) <= TotalBits(list)
      invariant current == CurrentAccess(list[..i], accessType)
      invariant Ordered(fields, bitOffset)
      invariant Matches(fields, Wanted(list[..i], accessType), rule)
      invariant forall w | w in Wanted(list[..i], accessType) :: AccessWidth(w.1) != 0
    {
      assert list[..i + 1][..i] == list[..i];
      WantedStep(list[..i + 1], accessType);
      PrefixWanted(list, i + 1, accessType);
      match list[i]
      case Named(length) =>
        var width := AccessWidth(current);
        if width == 0 {
          assert (BitSpan(bitOffset, length), current) in Wanted(list[..i + 1], accessType);
          Widen(fields, bitOffset, TotalBits(list));
          return false, fields;
        }
        Append(fields, bitOffset, Wanted(list[..i], accessType), Layout(bitOffset, length, width, rule), current);
        fields := fields + [Layout(bitOffset, length, width, rule)];
        bitOffset := bitOffset + length;
      case Reserved(length) =>
        Widen(fields, bitOffset, bitOffset + length);
        bitOffset := bitOffset + length;
      case Access(a) =>
        current := a;
    }
    assert list[..|list|] == list;
    return true, fields;
  }

  lemma Empty(accessType: nat, rule: UpdateRule)
    ensures Wanted([], accessType) == [] && Matches([], [], rule) && Ordered([], 0)
  {
  }

  lemma Widen(fields: seq<FieldUnit>, end: nat, more: nat)
    requires Ordered(fields, end) && end <= more
    ensures Ordered(fields, more)
  {
  }

  lemma Append(fields: seq<FieldUnit>, end: nat, wanted: seq<(BitSpan, nat)>, field: FieldUnit, accessType: nat)
    requires Ordered(fields, end) && Matches(fields, wanted, field.rule)
    requires field.Valid() && field.Span().index == end && field.width == AccessWidth(accessType)
    ensures Ordered(fields + [field], end + field.bitLength)
    ensures Matches(fields + [field], wanted + [(field.Span(), accessType)], field.rule)
  {
    var more := fields + [field];
    assert forall a: nat | a < |fields| :: more[a] == fields[a];
  }

  lemma WantedStep(list: seq<Element>, accessType: nat)
    requires list != []
    ensures var init := list[..|list| - 1];
            Wanted(list, accessType) ==
              match list[|list| - 1]
              case Named(n) =>
                Wanted(init, accessType) + [(BitSpan(TotalBits(init), n), CurrentAccess(init, accessType))]
              case _ => Wanted(init, accessType)
  {
  }

  lemma PrefixWanted(list: seq<Element>, n: nat, accessType: nat)
    requires n <= |list|
    ensures TotalBits(list[..n]) <= TotalBits(list)
    ensures Wanted(list[..n], accessType) <= Wanted(list, accessType)
  {
    if n == |list| {
      assert list[..n] == list;
    } else {
      PrefixWanted(list[..|list| - 1], n, accessType);
      assert list[..|list| - 1][..n] == list[..n];
    }
  }

  /** A field reads back what was written to it, cut or zero-extended to its
      length, under every update rule. */
  lemma ReadAfterFieldWrite(before: seq<bv8>, after: seq<bv8>, field: FieldUnit, value: seq<bv8>, size: nat,
                            dst: seq<bv8>, result: seq<bv8>, n: nat)
    requires field.Valid() && field.AccessEnd() <= |before| && size <= |value| && n <= |dst|
    requires Written(before, after, field, value, size, 8 * field.AccessEnd())
    requires Copied(dst, result, BitSpan(0, 8 * n), after, field.Span())
    ensures Copied(dst, result, BitSpan(0, 8 * n), value, BitSpan(0, Min(field.bitLength, 8 * size)))
  {
    hide BitAt;
    forall i: nat | i < 8 * |dst|
      ensures BitAt(result, i) == if i < 8 * n then SpanBit(value, BitSpan(0, Min(field.bitLength, 8 * size)), i)
                                  else BitAt(dst, i)
    {
      assert i < field.bitLength ==> field.Span().Contains(field.Span().index + i);
    }
  }

  /** Under Preserve a write changes no bit outside the field. */
  lemma PreserveFrame(before: seq<bv8>, after: seq<bv8>, field: FieldUnit, value: seq<bv8>, size: nat, limit: nat,
                      i: nat)
    requires size <= |value| && field.rule.Preserve? && Written(before, after, field, value, size, limit)
    requires i < 8 * |before| && !field.Span().Contains(i)
    ensures BitAt(after, i) == BitAt(before, i)
  {
    hide BitAt;
  }

  /** Under the other rules exactly the rest of the stored words is filled. */
  lemma FillFrame(before: seq<bv8>, after: seq<bv8>, field: FieldUnit, value: seq<bv8>, size: nat, limit: nat, i: nat)
    requires size <= |value| && (field.rule.WriteAsOnes? || field.rule.WriteAsZeroes?)
    requires Written(before, after, field, value, size, limit)
    requires i < 8 * |before| && !field.Span().Contains(i)
    ensures BitAt(after, i) == if 8 * field.byteOffset <= i < limit then field.rule.WriteAsOnes? else BitAt(before, i)
  {
    hide BitAt;
  }

  /** Two fields of one list never disturb each other under Preserve: whatever is
      written to one, and however far the write got, the other reads the same. */
  lemma ListFieldsIndependent(fields: seq<FieldUnit>, end: nat, a: nat, b: nat,
                              before: seq<bv8>, after: seq<bv8>, value: seq<bv8>, size: nat, limit: nat,
                              dst: seq<bv8>, n: nat, r0: seq<bv8>, r1: seq<bv8>)
    requires Ordered(fields, end) && a < |fields| && b < |fields| && a != b
    requires fields[a].rule.Preserve? && fields[b].Span().FitsIn(|before|)
    requires size <= |value| && Written(before, after, fields[a], value, size, limit)
    requires n <= |dst|
    requires Copied(dst, r0, BitSpan(0, 8 * n), before, fields[b].Span())
    requires Copied(dst, r1, BitSpan(0, 8 * n), after, fields[b].Span())
    ensures r0 == r1
  {
    var fa, fb := fields[a], fields[b];
    assert a < b || b < a;
    forall i: nat | i < 8 * |dst|
      ensures BitAt(r0, i) == BitAt(r1, i)
    {
      hide BitAt;
      if i < 8 * n && i < fb.bitLength {
        assert !fa.Span().Contains(fb.Span().index + i);
        PreserveFrame(before, after, fa, value, size, limit, fb.Span().index + i);
      }
    }
    BytesExtensional(r0, r1);
  }
}

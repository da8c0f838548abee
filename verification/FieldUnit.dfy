/** Field units of src/kern/acpi/io.c: bits of an operation region, reached through
    accesses of a fixed width. The region is plain memory of `Length` bytes. */
module FieldUnit {
  import opened Bits
  import opened BitCopy
  import opened BufferField

  datatype Status = Ok | OutOfBounds | InvalidArgument

  datatype UpdateRule = Preserve | WriteAsOnes | WriteAsZeroes | ReservedRule

  datatype FieldUnit = FieldUnit(byteOffset: nat, bitOffset: nat, bitLength: nat, width: nat, rule: UpdateRule)
  {
    predicate Valid() {
      width in {1, 2, 4, 8} && bitOffset < 8 * width && byteOffset % width == 0
    }

    /** The bits of the region that are the field. */
    function Span(): BitSpan {
      BitSpan(8 * byteOffset + bitOffset, bitLength)
    }

    /** The byte after the last access word that holds a bit of the field. */
    function AccessEnd(): (end: nat)
      requires Valid()
      ensures byteOffset <= end
      ensures 8 * end - 8 * width < 8 * byteOffset + bitOffset + bitLength <= 8 * end
    {
      WordsMultiple();
      byteOffset + Words() * width
    }

    function Words(): nat
      requires Valid()
    {
      (bitOffset + bitLength + (8 * width - 1)) / (8 * width)
    }

    /** The byte after the last word that a read accesses: one word at least, even
        for a field of no bits. */
    function ReadEnd(): nat
      requires Valid()
    {
      if bitOffset + bitLength == 0 then byteOffset + width else AccessEnd()
    }

    lemma WordsMultiple()
      requires Valid()
      ensures 8 * (Words() * width) - 8 * width < bitOffset + bitLength <= 8 * (Words() * width)
    {
      assert width == 1 || width == 2 || width == 4 || width == 8;
    }
  }

  lemma AlignedBits(bits: nat, width: nat)
    requires width in {1, 2, 4, 8}
    ensures var byte := bits / 8;
            && 0 <= byte - byte % width && (byte - byte % width) % width == 0
            && 8 * (byte - byte % width) + bits % (8 * width) == bits
  {
    var byte := bits / 8;
    var q, r := byte / width, byte % width;
    assert bits == 8 * width * q + (8 * r + bits % 8) by { assert byte == width * q + r; }
    RemainderUnique(bits, 8 * width, q, 8 * r + bits % 8);
    RemainderUnique(byte - r, width, q, 0);
  }

  lemma RemainderUnique(x: int, m: nat, q: int, r: nat)
    requires r < m && x == m * q + r
    ensures x % m == r
  {
    var d := x / m - q;
    assert m * d == r - x % m;
  }

  /** `handle_create_field`: the unit laid out for the next `length` bits of a
      field list that stands at `bitOffset`. */
  function Layout(bitOffset: nat, length: nat, width: nat, rule: UpdateRule): (field: FieldUnit)
    requires width in {1, 2, 4, 8}
    ensures field.Valid() && field.Span() == BitSpan(bitOffset, length)
  {
    var byte := bitOffset / 8;
    AlignedBits(bitOffset, width);
    FieldUnit(byte - byte % width, bitOffset % (8 * width), length, width, rule)
  }

  /** `word` is the little-endian integer read at `offset`. */
  ghost predicate IsWord(region: seq<bv8>, offset: nat, width: nat, word: seq<bv8>) {
    && |word| == 8 && width <= 8 && offset + width <= |region|
    && forall p: nat | p < 8 :: word[p] == if p < width then region[offset + p] else 0
  }

  /** One read access: `width` bytes, zero-extended to a 64-bit integer. */
  method ReadWord(region: array<bv8>, offset: nat, width: nat, word: array<bv8>) returns (st: Status)
    requires region != word && word.Length == 8 && width <= 8
    modifies word
    ensures st == if offset + width <= region.Length then Ok else OutOfBounds
    ensures st.Ok? ==> IsWord(region[..], offset, width, word[..])
    ensures !st.Ok? ==> word[..] == old(word[..])
  {
    if region.Length < offset + width {
      return OutOfBounds;
    }
    forall p | 0 <= p < 8 {
      word[p] := if p < width then region[offset + p] else 0;
    }
    return Ok;
  }

  /** One write access: the low `width` bytes of the integer. */
  method WriteWord(region: array<bv8>, offset: nat, width: nat, word: array<bv8>) returns (st: Status)
    requires region != word && word.Length == 8 && width <= 8
    modifies region
    ensures st == if offset + width <= region.Length then Ok else OutOfBounds
    ensures forall p: nat | p < region.Length ::
              region[p] == if st.Ok? && offset <= p < offset + width then word[p - offset] else old(region[p])
  {
    if region.Length < offset + width {
      return OutOfBounds;
    }
    forall p | 0 <= p < width {
      region[offset + p] := word[p];
    }
    return Ok;
  }

  // Reading

  lemma WordBits(region: seq<bv8>, offset: nat, width: nat, word: seq<bv8>, j: nat)
    requires IsWord(region, offset, width, word) && j < 8 * width
    ensures BitAt(word, j) == BitAt(region, 8 * offset + j)
  {
    hide BitOf;
    BitAtByte(word, j / 8, j % 8);
    BitAtByte(region, offset + j / 8, j % 8);
  }

  lemma WordSpanIsRegionSpan(s: seq<bv8>, t: seq<bv8>, dst: BitSpan,
                             region: seq<bv8>, offset: nat, width: nat, word: seq<bv8>, share: BitSpan)
    requires IsWord(region, offset, width, word) && share.index + share.length <= 8 * width
    requires Copied(s, t, dst, word, share)
    ensures Copied(s, t, dst, region, BitSpan(8 * offset + share.index, share.length))
  {
    hide BitAt;
    forall i: nat | i < 8 * |s|
      ensures BitAt(t, i) == if dst.Contains(i)
                             then SpanBit(region, BitSpan(8 * offset + share.index, share.length), i - dst.index)
                             else BitAt(s, i)
    {
      if dst.Contains(i) && i - dst.index < share.length {
        WordBits(region, offset, width, word, share.index + (i - dst.index));
      }
    }
  }

  /** One turn of the read loop: a word is fetched and its share of the field copied. */
  method ReadShare(region: array<bv8>, offset: nat, width: nat, word: array<bv8>, share: BitSpan,
                   dst: array<bv8>, dstSpan: BitSpan) returns (st: Status)
    requires region != word && region != dst && word != dst && word.Length == 8 && width <= 8
    requires share.index + share.length <= 8 * width && dstSpan.FitsIn(dst.Length)
    modifies word, dst
    ensures st == if offset + width <= region.Length then Ok else OutOfBounds
    ensures st.Ok? ==> Copied(old(dst[..]), dst[..], dstSpan, region[..],
                              BitSpan(8 * offset + share.index, share.length))
  {
    hide Copied, IsWord;
    st := ReadWord(region, offset, width, word);
    if st.Ok? {
      var _ := Copy(dst, dstSpan, word, share);
      WordSpanIsRegionSpan(old(dst[..]), dst[..], dstSpan, region[..], offset, width, word[..], share);
    }
  }

  /** Copying the bits after the first `done`, zero-extended, extends what was read. */
  lemma ReadStep(before: seq<bv8>, s: seq<bv8>, t: seq<bv8>, size: nat, region: seq<bv8>, start: nat, done: nat,
                 more: nat)
    requires size <= |before| && start + done + more <= 8 * |region|
    requires if done == 0 then
               |s| == |before| && forall i: nat | 8 * size <= i < 8 * |s| :: BitAt(s, i) == BitAt(before, i)
             else Copied(before, s, BitSpan(0, 8 * size), region, BitSpan(start, done))
    requires Copied(s, t, BitSpan(Min(done, 8 * size), 8 * size - Min(done, 8 * size)), region,
                    BitSpan(start + done, more))
    ensures Copied(before, t, BitSpan(0, 8 * size), region, BitSpan(start, done + more))
  {
    hide BitAt;
  }

  /** Word `n` is the last one exactly when the field ends in it. */
  lemma WordBounds(field: FieldUnit, n: nat)
    requires field.Valid()
    ensures var end, next := field.Span().index + field.bitLength, field.byteOffset + (n + 1) * field.width;
            && (n + 1) * field.width == n * field.width + field.width
            && (8 * next < end ==> next < field.AccessEnd() && n + 1 < field.Words())
            && (8 * next - 8 * field.width < end <= 8 * next ==> next == field.AccessEnd() && n + 1 == field.Words())
            && (end <= 8 * next - 8 * field.width ==> field.Words() <= n)
  {
    field.WordsMultiple();
    var words, end := field.Words(), field.bitOffset + field.bitLength;
    hide FieldUnit.Words;
    if n + 1 < words {
      MulMonotonic(field.width, n + 2, words);
    } else if words < n + 1 {
      MulMonotonic(field.width, words, n);
    }
  }

  lemma MulMonotonic(m: nat, a: int, b: int)
    requires a <= b
    ensures m * a <= m * b
  {
    var d: nat := b - a;
    assert m * b == m * a + m * d;
  }

  method ReadMisaligned(field: FieldUnit, region: array<bv8>, dst: array<bv8>, size: nat) returns (st: Status)
    requires field.Valid() && 0 < field.bitOffset + field.bitLength
    requires dst != region && size <= dst.Length
    modifies dst
    ensures st == if field.AccessEnd() <= region.Length then Ok else OutOfBounds
    ensures st.Ok? ==> Copied(old(dst[..]), dst[..], BitSpan(0, 8 * size), region[..], field.Span())
  {
    hide Copied, BitAt, FieldUnit.Words;
    var word := new bv8[8];
    var readsToDo := field.Words();
    var byteOffset: nat, bitsLeft: nat := field.byteOffset, field.bitLength;
    var srcIndex: nat, dstSpan := field.bitOffset, BitSpan(0, 8 * size);
    ghost var before, done: nat, n: nat, start := dst[..], 0, 0, field.Span().index;
    WordBounds(field, 0);
    while readsToDo > 0
      invariant readsToDo + n == field.Words() && byteOffset == field.byteOffset + n * field.width
      invariant bitsLeft == field.bitLength - done
      invariant dstSpan.index == Min(done, 8 * size) && dstSpan.length == 8 * size - dstSpan.index
      invariant n == 0 ==> readsToDo > 0 && done == 0 && srcIndex == field.bitOffset && dst[..] == before
      invariant n > 0 ==>
        && srcIndex == 0 && byteOffset <= region.Length
        && (if readsToDo > 0 then start + done == 8 * byteOffset && done > 0 && bitsLeft > 0
            else bitsLeft == 0 && byteOffset == field.AccessEnd())
        && start + done <= 8 * byteOffset
        && Copied(before, dst[..], BitSpan(0, 8 * size), region[..], BitSpan(start, done))
      invariant readsToDo > 0 ==> byteOffset < field.AccessEnd()
      invariant fresh(word) && word.Length == 8
    {
      WordBounds(field, n);
      var share := BitSpan(srcIndex, Min(bitsLeft, 8 * field.width - srcIndex));
      ghost var s := dst[..];
      st := ReadShare(region, byteOffset, field.width, word, share, dst, dstSpan);
      if !st.Ok? {
        return;
      }
      ReadStep(before, s, dst[..], size, region[..], start, done, share.length);
      bitsLeft := bitsLeft - share.length;
      srcIndex := 0;
      dstSpan := dstSpan.Offset(share.length);
      byteOffset := byteOffset + field.width;
      readsToDo := readsToDo - 1;
      done, n := done + share.length, n + 1;
    }
    return Ok;
  }

  /** `uacpi_read_field_unit`: one access when the field starts its access word
      and fits in it, the general loop otherwise. Both give the field's bits,
      cut or zero-extended to the `size` bytes of the destination. */
  method Read(field: FieldUnit, region: array<bv8>, dst: array<bv8>, size: nat) returns (st: Status)
    requires field.Valid()
    requires dst != region && size <= dst.Length
    modifies dst
    ensures st == if field.ReadEnd() <= region.Length then Ok else OutOfBounds
    ensures st.Ok? ==> Copied(old(dst[..]), dst[..], BitSpan(0, 8 * size), region[..], field.Span())
  {
    var bytes := RoundUpBitsToBytes(field.bitLength);
    if field.bitOffset == 0 && bytes <= field.width {
      OneWord(field);
      var word := new bv8[8];
      st := ReadWord(region, field.byteOffset, field.width, word);
      if !st.Ok? {
        return;
      }
      CopyZeroExtended(dst, 0, word, size, bytes);
      if size >= bytes && field.bitLength % 8 != 0 {
        dst[bytes - 1] := CutTail(dst[bytes - 1], field.bitLength);
      }
      FastReadIsSpan(old(dst[..]), dst[..], size, region[..], field);
      return;
    }
    st := ReadMisaligned(field, region, dst, size);
  }

  lemma OneWord(field: FieldUnit)
    requires field.Valid() && field.bitOffset == 0 && field.bitLength <= 8 * field.width
    ensures field.ReadEnd() == field.byteOffset + field.width
  {
    assert 0 < field.bitLength ==> field.Words() == 1 by {
      assert field.width == 1 || field.width == 2 || field.width == 4 || field.width == 8;
    }
  }

  lemma FastReadIsSpan(before: seq<bv8>, after: seq<bv8>, size: nat, region: seq<bv8>, field: FieldUnit)
    requires field.Valid() && field.bitOffset == 0 && field.Span().FitsIn(|region|)
    requires |after| == |before| && size <= |before|
    requires var bytes := RoundUpBitsToBytes(field.bitLength);
             forall p: nat | p < |before| :: after[p] ==
               if p >= size then before[p] else if p >= bytes then 0
               else if p == bytes - 1 then CutTail(region[field.byteOffset + p], field.bitLength)
               else region[field.byteOffset + p]
    ensures Copied(before, after, BitSpan(0, 8 * size), region, field.Span())
  {
    hide Copied, And;
    BytesAreSpan(before, after, size, region, field.Span());
  }

  // Writing

  /** What an access word is filled with around the bits of the field. */
  predicate FillBit(rule: UpdateRule, prior: bool) {
    match rule
    case Preserve => prior
    case WriteAsOnes => true
    case _ => false
  }

  /** `after` is `before` with every access word below bit `limit` rewritten:
      field bits from `value`, zero-extended, and the others by the update rule. */
  ghost predicate Written(before: seq<bv8>, after: seq<bv8>, field: FieldUnit, value: seq<bv8>, size: nat, limit: nat)
    requires size <= |value|
  {
    && |after| == |before|
    && forall i: nat | i < 8 * |before| ::
         BitAt(after, i) ==
           if i < 8 * field.byteOffset || limit <= i then BitAt(before, i)
           else if field.Span().Contains(i) then SpanBit(value, BitSpan(0, 8 * size), i - field.Span().index)
           else FillBit(field.rule, BitAt(before, i))
  }

  /** The word that is about to be stored, before the field's bits go in. */
  ghost predicate IsBase(region: seq<bv8>, offset: nat, width: nat, base: seq<bv8>, rule: UpdateRule, partial: bool) {
    && |base| == 8 && width <= 8
    && (partial ==> forall j: nat | j < 8 * width ::
          match rule
          case Preserve => offset + width <= |region| && BitAt(base, j) == BitAt(region, 8 * offset + j)
          case WriteAsOnes => BitAt(base, j)
          case _ => !BitAt(base, j))
  }

  lemma FilledWord(base: seq<bv8>, b: bv8)
    requires |base| == 8 && (b == 0 || b == 0xFF) && forall p: nat | p < 8 :: base[p] == b
    ensures forall j: nat | j < 64 :: BitAt(base, j) == (b == 0xFF)
  {
    forall j: nat | j < 64
      ensures BitAt(base, j) == (b == 0xFF)
    {
      ConstantBit(j % 8);
      assert base[j / 8] == b;
    }
  }

  /** Fetch or make up the bits around the field in a partly covered word. */
  method PrepareWord(field: FieldUnit, region: array<bv8>, offset: nat, word: array<bv8>, partial: bool)
    returns (st: Status)
    requires field.Valid() && region != word && word.Length == 8
    modifies word
    ensures st == if !partial then Ok else if field.rule.ReservedRule? then InvalidArgument
                  else if field.rule.Preserve? && offset + field.width > region.Length then OutOfBounds else Ok
    ensures st.Ok? ==> IsBase(region[..], offset, field.width, word[..], field.rule, partial)
  {
    hide BitAt;
    forall p | 0 <= p < 8 { word[p] := 0; }
    if partial {
      match field.rule
      case Preserve =>
        st := ReadWord(region, offset, field.width, word);
        if !st.Ok? { return; }
        forall j: nat | j < 8 * field.width
          ensures BitAt(word[..], j) == BitAt(region[..], 8 * offset + j)
        {
          WordBits(region[..], offset, field.width, word[..], j);
        }
      case WriteAsOnes =>
        forall p | 0 <= p < 8 { word[p] := Not(word[p]); }
        assert forall p | 0 <= p < 8 :: word[p] == 0xFF;
        FilledWord(word[..], 0xFF);
      case WriteAsZeroes =>
        FilledWord(word[..], 0);
      case ReservedRule =>
        return InvalidArgument;
    }
    return Ok;
  }

  /** `share` is the part of the access word at `offset` taken by the field, of
      which `done` bits lie in earlier words. */
  ghost predicate IsShare(field: FieldUnit, offset: nat, done: nat, share: BitSpan) {
    && 8 * offset + share.index == field.Span().index + done
    && share.index + share.length <= 8 * field.width && done + share.length <= field.bitLength
    && (share.index == 0 || (offset == field.byteOffset && done == 0))
    && (done == 0 ==> offset == field.byteOffset)
    && (share.index + share.length == 8 * field.width || done + share.length == field.bitLength)
  }

  /** One stored word: what it held, with the field's share replaced. */
  lemma WriteStep(before: seq<bv8>, s: seq<bv8>, t: seq<bv8>, field: FieldUnit, value: seq<bv8>, size: nat, done: nat,
                  offset: nat, base: seq<bv8>, word: seq<bv8>, share: BitSpan)
    requires size <= |value| && |s| == |t| == |before| == |t| && field.width <= 8
    requires field.byteOffset <= offset && offset + field.width <= |before|
    requires IsShare(field, offset, done, share)
    requires Written(before, s, field, value, size, 8 * offset)
    requires IsBase(s, offset, field.width, base, field.rule, share.index != 0 || share.length < 8 * field.width)
    requires Copied(base, word, share, value, BitSpan(0, 8 * size).Offset(done))
    requires forall p: nat | p < |s| :: t[p] == if offset <= p < offset + field.width then word[p - offset] else s[p]
    ensures Written(before, t, field, value, size, 8 * (offset + field.width))
  {
    hide BitAt;
    forall i: nat | i < 8 * |before|
      ensures BitAt(t, i) ==
                if i < 8 * field.byteOffset || 8 * (offset + field.width) <= i then BitAt(before, i)
                else if field.Span().Contains(i) then SpanBit(value, BitSpan(0, 8 * size), i - field.Span().index)
                else FillBit(field.rule, BitAt(before, i))
    {
      var p, k := i / 8, i % 8;
      BitAtByte(s, p, k);
      BitAtByte(t, p, k);
      if 8 * offset <= i < 8 * (offset + field.width) {
        var j := i - 8 * offset;
        BitAtByte(word, p - offset, k);
        assert BitAt(t, i) == BitAt(word, j);
        assert field.Span().Contains(i) == share.Contains(j);
      }
    }
  }

  method WriteShare(field: FieldUnit, region: array<bv8>, offset: nat, word: array<bv8>, share: BitSpan,
                    src: array<bv8>, srcSpan: BitSpan, ghost before: seq<bv8>, ghost size: nat, ghost done: nat)
    returns (st: Status)
    requires field.Valid() && region != word && region != src && word != src && word.Length == 8 && size <= src.Length
    requires srcSpan == BitSpan(0, 8 * size).Offset(done)
    requires |before| == region.Length && field.byteOffset <= offset
    requires IsShare(field, offset, done, share)
    requires Written(before, region[..], field, src[..], size, 8 * offset)
    modifies word, region
    ensures st == if field.rule.ReservedRule? && share != BitSpan(0, 8 * field.width) then InvalidArgument
                  else if offset + field.width > region.Length then OutOfBounds else Ok
    ensures Written(before, region[..], field, src[..], size, 8 * (if st.Ok? then offset + field.width else offset))
  {
    hide Written, Copied, IsBase, IsWord;
    var partial := share.index != 0 || share.length < 8 * field.width;
    st := PrepareWord(field, region, offset, word, partial);
    if !st.Ok? { return; }
    ghost var base, s := word[..], region[..];
    var _ := Copy(word, share, src, srcSpan);
    st := WriteWord(region, offset, field.width, word);
    if st.Ok? {
      WriteStep(before, s, region[..], field, src[..], size, done, offset, base, word[..], share);
    } else {
      assert region[..] == s;
    }
  }

  lemma WrittenNothing(s: seq<bv8>, field: FieldUnit, value: seq<bv8>, size: nat)
    requires size <= |value|
    ensures Written(s, s, field, value, size, 8 * field.byteOffset)
  {
  }

  /** `write_generic_field_unit`. `limit` is the byte after the last of `words` words
      stored: on an error the words below it have been written and no others. */
  method Write(field: FieldUnit, region: array<bv8>, src: array<bv8>, size: nat)
    returns (st: Status, ghost limit: nat, ghost words: nat)
    requires field.Valid() && region != src && size <= src.Length
    modifies region
    ensures Written(old(region[..]), region[..], field, src[..], size, 8 * limit)
    ensures st.Ok? ==> limit == if field.bitLength == 0 then field.byteOffset else field.AccessEnd()
    ensures limit == field.byteOffset + words * field.width
    ensures !st.Ok? ==> limit < field.AccessEnd()
    ensures st.OutOfBounds? ==> limit + field.width > region.Length
    ensures !field.rule.ReservedRule? ==>
              st == if field.bitLength == 0 || field.AccessEnd() <= region.Length then Ok else OutOfBounds
    ensures field.rule.ReservedRule? && st.Ok? && field.bitLength > 0 ==>
              field.Span() == BitSpan(8 * field.byteOffset, 8 * (field.AccessEnd() - field.byteOffset))
  {
    hide Written, FieldUnit.Words;
    var word := new bv8[8];
    var byteOffset: nat, bitsLeft: nat := field.byteOffset, field.bitLength;
    var dstIndex: nat, srcSpan := field.bitOffset, BitSpan(0, 8 * size);
    ghost var before, done: nat, n: nat := region[..], 0, 0;
    WrittenNothing(before, field, src[..], size);
    while bitsLeft > 0
      invariant bitsLeft == field.bitLength - done
      invariant srcSpan.index == Min(done, 8 * size) && srcSpan.length == 8 * size - srcSpan.index
      invariant byteOffset == field.byteOffset ==> done == 0 && dstIndex == field.bitOffset
      invariant byteOffset > field.byteOffset ==>
        && dstIndex == 0 && done > 0 && byteOffset <= region.Length
        && if bitsLeft > 0 then field.Span().index + done == 8 * byteOffset else byteOffset == field.AccessEnd()
      invariant bitsLeft > 0 ==> byteOffset < field.AccessEnd()
      invariant byteOffset == field.byteOffset + n * field.width
      invariant field.rule.ReservedRule? && done > 0 ==>
                  field.bitOffset == 0 && field.Span().index + done == 8 * byteOffset
      invariant Written(before, region[..], field, src[..], size, 8 * byteOffset)
      invariant fresh(word) && word.Length == 8
    {
      WordBounds(field, n);
      var share := BitSpan(dstIndex, Min(8 * field.width - dstIndex, bitsLeft));
      st := WriteShare(field, region, byteOffset, word, share, src, srcSpan, before, size, done);
      if !st.Ok? {
        limit, words := byteOffset, n;
        return;
      }
      srcSpan := srcSpan.Offset(share.length);
      bitsLeft := bitsLeft - share.length;
      dstIndex := 0;
      byteOffset := byteOffset + field.width;
      done, n := done + share.length, n + 1;
    }
    return Ok, byteOffset, n;
  }
}

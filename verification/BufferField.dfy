/** Buffer fields of src/kern/acpi/io.c: a span of bits inside an AML buffer, with a
    byte-copying path for spans that start on a byte boundary. */
module BufferField {
  import opened Bits
  import opened BitCopy

  function RoundUpBitsToBytes(bits: nat): (bytes: nat)
    ensures 8 * bytes - 8 < bits <= 8 * bytes
  {
    (bits + 7) / 8
  }

  /** `uacpi_memcpy_zerout`, writing at byte `at` of `dst`. */
  method CopyZeroExtended(dst: array<bv8>, at: nat, src: array<bv8>, dstSize: nat, srcSize: nat)
    requires dst != src
    requires at + dstSize <= dst.Length && Min(dstSize, srcSize) <= src.Length
    modifies dst
    ensures forall p: nat | p < dst.Length ::
              dst[p] == if at <= p < at + dstSize then (if p - at < srcSize then src[p - at] else 0) else old(dst[p])
  {
    forall p | at <= p < at + dstSize {
      dst[p] := if p - at < srcSize then src[p - at] else 0;
    }
  }

  /** The last byte of a field keeps only the bits that belong to it. */
  function CutTail(last: bv8, bitLength: nat): bv8 {
    if bitLength % 8 == 0 then last else And(last, LowMask(bitLength % 8))
  }

  lemma CutTailBits(last: bv8, bitLength: nat, k: nat)
    requires k < 8
    ensures BitOf(CutTail(last, bitLength), k) == ((bitLength % 8 == 0 || k < bitLength % 8) && BitOf(last, k))
  {
    hide BitOf, And, LowMask;
    AndBit(last, LowMask(bitLength % 8), k);
    LowMaskBit(bitLength % 8, k);
  }

  /** Whole bytes, the last one cut: the same bits as a copy of the span. */
  lemma BytesAreSpan(before: seq<bv8>, after: seq<bv8>, size: nat, data: seq<bv8>, span: BitSpan)
    requires span.index % 8 == 0 && span.FitsIn(|data|)
    requires |after| == |before| && size <= |before|
    requires forall p: nat | p < |before| :: after[p] ==
               if p >= size then before[p]
               else if 8 * p >= span.length then 0
               else if 8 * p + 8 > span.length then CutTail(data[span.index / 8 + p], span.length)
               else data[span.index / 8 + p]
    ensures Copied(before, after, BitSpan(0, 8 * size), data, span)
  {
    hide BitOf, BitAt, CutTail;
    forall i: nat | i < 8 * |before|
      ensures BitAt(after, i) == if i < 8 * size then SpanBit(data, span, i) else BitAt(before, i)
    {
      var p, k := i / 8, i % 8;
      BitAtByte(before, p, k);
      BitAtByte(after, p, k);
      ConstantBit(k);
      if p < size && 8 * p < span.length {
        BitAtByte(data, span.index / 8 + p, k);
        CutTailBits(data[span.index / 8 + p], span.length, k);
      }
    }
  }

  method Read(backing: array<bv8>, field: BitSpan, dst: array<bv8>)
    requires dst != backing && field.FitsIn(backing.Length)
    requires RoundUpBitsToBytes(field.length) <= dst.Length
    modifies dst
    ensures Copied(old(dst[..]), dst[..], BitSpan(0, 8 * RoundUpBitsToBytes(field.length)), backing[..], field)
  {
    hide Copied, CutTail;
    var count := RoundUpBitsToBytes(field.length);
    if field.index % 8 == 0 {
      var first := field.index / 8;
      forall p | 0 <= p < count {
        dst[p] := backing[first + p];
      }
      if field.length % 8 != 0 {
        dst[count - 1] := CutTail(dst[count - 1], field.length);
      }
      BytesAreSpan(old(dst[..]), dst[..], count, backing[..], field);
      return;
    }
    var _ := Copy(dst, BitSpan(0, 8 * count), backing, field);
  }

  /** The last byte of a byte-aligned write: its low `tail` bits are new, the
      others are those that were there. */
  function RestoreTail(updated: bv8, prior: bv8, tail: nat): bv8
    requires tail < 8
  {
    if tail == 0 then updated else Or(Shr(Shl(updated, 8 - tail), 8 - tail), Shl(Shr(prior, tail), tail))
  }

  lemma RestoreTailBits(updated: bv8, prior: bv8, tail: nat, k: nat)
    requires tail < 8 && k < 8
    ensures BitOf(RestoreTail(updated, prior, tail), k)
         == if tail == 0 || k < tail then BitOf(updated, k) else BitOf(prior, k)
  {
    hide BitOf, Shl, Shr, Or;
    if tail != 0 {
      OrBit(Shr(Shl(updated, 8 - tail), 8 - tail), Shl(Shr(prior, tail), tail), k);
      ShiftRightBit(Shl(updated, 8 - tail), 8 - tail, k);
      if k < tail { ShiftLeftBit(updated, 8 - tail, k + 8 - tail); }
      ShiftLeftBit(Shr(prior, tail), tail, k);
      if tail <= k { ShiftRightBit(prior, tail, k - tail); }
    }
  }

  /** A byte-aligned store of a zero-extended value: the same bits as a copy. */
  lemma BytesIntoSpan(before: seq<bv8>, after: seq<bv8>, field: BitSpan, data: seq<bv8>, size: nat)
    requires field.index % 8 == 0 && field.FitsIn(|before|) && size <= |data|
    requires |after| == |before|
    requires forall p: nat | p < |before| :: after[p] ==
               var q := p - field.index / 8;
               if q < 0 || 8 * q >= field.length then before[p]
               else var updated := if q < size then data[q] else 0;
                    if 8 * q + 8 > field.length then RestoreTail(updated, before[p], field.length % 8) else updated
    ensures Copied(before, after, field, data, BitSpan(0, 8 * size))
  {
    hide BitOf, BitAt, RestoreTail;
    forall i: nat | i < 8 * |before|
      ensures BitAt(after, i) == if field.Contains(i) then SpanBit(data, BitSpan(0, 8 * size), i - field.index)
              else BitAt(before, i)
    {
      var p, k := i / 8, i % 8;
      var q := p - field.index / 8;
      BitAtByte(before, p, k);
      BitAtByte(after, p, k);
      ConstantBit(k);
      if 0 <= q && 8 * q < field.length {
        if q < size { BitAtByte(data, q, k); }
        RestoreTailBits(if q < size then data[q] else 0, before[p], field.length % 8, k);
      }
    }
  }

  /** The aligned path reads the last byte of the field before it stores anything.
      For a field of no bits that is the byte before it, so there has to be one. */
  method Write(backing: array<bv8>, field: BitSpan, src: array<bv8>, size: nat)
    requires backing != src && 0 < field.index + field.length <= 8 * backing.Length && size <= src.Length
    modifies backing
    ensures Copied(old(backing[..]), backing[..], field, src[..], BitSpan(0, 8 * size))
  {
    hide Copied, RestoreTail;
    if field.index % 8 == 0 {
      var first, count := field.index / 8, RoundUpBitsToBytes(field.length);
      var lastByte, tailShift := backing[first + count - 1], field.length % 8;
      CopyZeroExtended(backing, first, src, count, size);
      if tailShift != 0 {
        backing[first + count - 1] := RestoreTail(backing[first + count - 1], lastByte, tailShift);
      }
      BytesIntoSpan(old(backing[..]), backing[..], field, src[..], size);
      return;
    }
    var _ := Copy(backing, field, src, BitSpan(0, 8 * size));
  }

  /** A buffer field reads back what was written to it, cut or zero-extended to
      its length, whichever paths the two calls took. */
  lemma ReadAfterWrite(before: seq<bv8>, written: seq<bv8>, field: BitSpan, value: seq<bv8>, size: nat,
                       dst: seq<bv8>, result: seq<bv8>)
    requires field.FitsIn(|before|) && size <= |value| && RoundUpBitsToBytes(field.length) <= |dst|
    requires Copied(before, written, field, value, BitSpan(0, 8 * size))
    requires Copied(dst, result, BitSpan(0, 8 * RoundUpBitsToBytes(field.length)), written, field)
    ensures Copied(dst, result, BitSpan(0, 8 * RoundUpBitsToBytes(field.length)), value,
                   BitSpan(0, Min(field.length, 8 * size)))
  {
    forall i: nat | i < 8 * |dst|
      ensures BitAt(result, i) == if i < 8 * RoundUpBitsToBytes(field.length)
                                  then SpanBit(value, BitSpan(0, Min(field.length, 8 * size)), i) else BitAt(dst, i)
    {
      hide BitAt;
      assert i < field.length ==> field.Contains(field.index + i);
    }
  }
}

/** `bit_copy` of src/kern/acpi/io.c: moving a span of bits between byte buffers. */
module BitCopy {
  import opened Bits

  datatype BitSpan = BitSpan(index: nat, length: nat)
  {
    /** The span lies inside `size` bytes; an empty span lies anywhere. */
    predicate FitsIn(size: nat) {
      length == 0 || index + length <= 8 * size
    }

    predicate Contains(i: nat) {
      index <= i < index + length
    }

    /** Drop up to `bits` bits from the front. */
    function Offset(bits: nat): (r: BitSpan)
      ensures r.index + r.length == index + length
      ensures forall i: nat :: r.Contains(i) <==> Contains(i) && index + bits <= i
    {
      var delta := if length < bits then length else bits;
      BitSpan(index + delta, length - delta)
    }
  }

  /** Bit `i` of a span, and zero past its end. */
  predicate SpanBit(data: seq<bv8>, span: BitSpan, i: nat)
    requires span.FitsIn(|data|)
  {
    i < span.length && BitAt(data, span.index + i)
  }

  /** `after` is `before` with the bits of `dst` replaced by those of `src`,
      zero-extended, and no other bit changed. */
  ghost predicate Copied(before: seq<bv8>, after: seq<bv8>, dst: BitSpan, data: seq<bv8>, src: BitSpan)
    requires src.FitsIn(|data|)
  {
    && |after| == |before|
    && forall i: nat | i < 8 * |before| ::
         BitAt(after, i) == if dst.Contains(i) then SpanBit(data, src, i - dst.index) else BitAt(before, i)
  }

  lemma CopiedUnique(before: seq<bv8>, a: seq<bv8>, b: seq<bv8>, dst: BitSpan, data: seq<bv8>, src: BitSpan)
    requires src.FitsIn(|data|)
    requires Copied(before, a, dst, data, src) && Copied(before, b, dst, data, src)
    ensures a == b
  {
    BytesExtensional(a, b);
  }

  /** Up to eight source bits, starting `shift` bits into byte `p`. */
  function LoadChunk(data: seq<bv8>, p: nat, shift: nat, count: nat): (bits: bv8)
    requires shift < 8
    requires count > 0 ==> 8 * p + shift + count <= 8 * |data|
  {
    if count == 0 then 0 else
      var low := Shr(data[p], shift);
      var both := if shift != 0 && count > 8 - shift then Or(low, Shl(data[p + 1], 8 - shift)) else low;
      if count < 8 then And(both, LowMask(count)) else both
  }

  lemma LoadChunkBits(data: seq<bv8>, p: nat, shift: nat, count: nat, k: nat)
    requires shift < 8 && k < 8
    requires count > 0 ==> 8 * p + shift + count <= 8 * |data|
    ensures BitOf(LoadChunk(data, p, shift, count), k) == (k < count && BitAt(data, 8 * p + shift + k))
  {
    hide BitOf, BitAt, Shl, Shr, LowMask, And, Or;
    ConstantBit(k);
    if count > 0 {
      var low := Shr(data[p], shift);
      var both := if shift != 0 && count > 8 - shift then Or(low, Shl(data[p + 1], 8 - shift)) else low;
      ShiftRightBit(data[p], shift, k);
      if shift != 0 && count > 8 - shift {
        ShiftLeftBit(data[p + 1], 8 - shift, k);
        OrBit(low, Shl(data[p + 1], 8 - shift), k);
      }
      LowMaskBit(count, k);
      AndBit(both, LowMask(count), k);
      if shift + k < 8 {
        BitAtByte(data, p, shift + k);
      } else if k < count {
        BitAtByte(data, p + 1, shift + k - 8);
      }
    }
  }

  // The destination mask is 16 bits wide in C. Its low byte selects the bits of
  // the current byte and its high byte those that spill into the next one.

  function StoreLow(prior: bv8, bits: bv8, count: nat, shift: nat): (b: bv8) {
    Merge(prior, Shl(bits, shift), Shl(LowMask(count), shift))
  }

  function StoreHigh(prior: bv8, bits: bv8, count: nat, shift: nat): (b: bv8)
    requires shift <= 8
  {
    Merge(prior, Shr(bits, 8 - shift), Shr(LowMask(count), 8 - shift))
  }

  lemma StoreLowBits(prior: bv8, bits: bv8, count: nat, shift: nat, k: nat)
    requires shift < 8 && k < 8
    ensures BitOf(StoreLow(prior, bits, count, shift), k) ==
            if shift <= k < shift + count then BitOf(bits, k - shift) else BitOf(prior, k)
  {
    hide BitOf, Shl, Shr, LowMask, Merge;
    MergeBit(prior, Shl(bits, shift), Shl(LowMask(count), shift), k);
    ShiftLeftBit(LowMask(count), shift, k);
    ShiftLeftBit(bits, shift, k);
    if shift <= k { LowMaskBit(count, k - shift); }
  }

  lemma StoreHighBits(prior: bv8, bits: bv8, count: nat, shift: nat, k: nat)
    requires 0 < shift < 8 && k < 8
    ensures BitOf(StoreHigh(prior, bits, count, shift), k) ==
            if k < shift && 8 + k < shift + count then BitOf(bits, 8 + k - shift) else BitOf(prior, k)
  {
    hide BitOf, Shl, Shr, LowMask, Merge;
    MergeBit(prior, Shr(bits, 8 - shift), Shr(LowMask(count), 8 - shift), k);
    ShiftRightBit(LowMask(count), 8 - shift, k);
    ShiftRightBit(bits, 8 - shift, k);
    if k < shift { LowMaskBit(count, 8 + k - shift); }
  }

  /** The buffer after one chunk has been stored, `shift` bits into byte `p`. */
  function StoreChunk(s: seq<bv8>, p: nat, shift: nat, count: nat, bits: bv8): (t: seq<bv8>)
    requires shift < 8 && count > 0 && 8 * p + shift + count <= 8 * |s|
    ensures |t| == |s|
  {
    var low := s[p := StoreLow(s[p], bits, count, shift)];
    if shift != 0 && count > 8 - shift then low[p + 1 := StoreHigh(s[p + 1], bits, count, shift)] else low
  }

  lemma StoreChunkBits(s: seq<bv8>, p: nat, shift: nat, count: nat, bits: bv8, i: nat)
    requires shift < 8 && count > 0 && 8 * p + shift + count <= 8 * |s| && i < 8 * |s|
    ensures BitAt(StoreChunk(s, p, shift, count, bits), i) ==
            var k := i - (8 * p + shift);
            if 0 <= k < 8 && k < count then BitOf(bits, k) else BitAt(s, i)
  {
    hide BitOf, BitAt, StoreLow, StoreHigh;
    var t := StoreChunk(s, p, shift, count, bits);
    var q, k := i / 8, i % 8;
    BitAtByte(s, q, k);
    BitAtByte(t, q, k);
    if q == p {
      StoreLowBits(s[p], bits, count, shift, k);
    } else if q == p + 1 && shift != 0 {
      StoreHighBits(s[q], bits, count, shift, k);
    }
  }

  /** The loop of `bit_copy`. Progress is measured in bits already moved, a
      multiple of eight until the last chunk. `stored` are the bytes it stores to. */
  method Copy(dst: array<bv8>, dstSpan: BitSpan, src: array<bv8>, srcSpan: BitSpan) returns (ghost stored: set<nat>)
    requires dst != src
    requires dstSpan.FitsIn(dst.Length) && srcSpan.FitsIn(src.Length)
    modifies dst
    ensures Copied(old(dst[..]), dst[..], dstSpan, src[..], srcSpan)
    ensures forall p | p in stored :: dstSpan.index < 8 * p + 8 && 8 * p < dstSpan.index + dstSpan.length
  {
    hide Copied, LoadChunk, StoreLow, StoreHigh;
    var dstByte, dstShift, dstCount := dstSpan.index / 8, dstSpan.index % 8, dstSpan.length;
    var srcByte, srcShift, srcCount := srcSpan.index / 8, srcSpan.index % 8, srcSpan.length;
    ghost var before, data, done := dst[..], src[..], 0;
    stored := {};
    CopiedNothing(before, dstSpan.index, data, srcSpan);
    while dstCount > 0
      invariant 0 <= done && 0 <= srcByte && 0 <= srcCount && 0 <= dstByte && 0 <= dstCount
      invariant dstCount > 0 ==> dstCount == dstSpan.length - done && 8 * dstByte + dstShift == dstSpan.index + done
      invariant dstCount == 0 ==> dstSpan.length <= done
      invariant srcCount > 0 ==> srcCount == srcSpan.length - done && 8 * srcByte + srcShift == srcSpan.index + done
      invariant srcCount == 0 ==> srcSpan.length <= done
      invariant src[..] == data
      invariant forall p | p in stored :: dstSpan.index < 8 * p + 8 && 8 * p < dstSpan.index + dstSpan.length
      invariant Copied(before, dst[..], BitSpan(dstSpan.index, Min(done, dstSpan.length)), data, srcSpan)
    {
      var bits := LoadChunk(src[..], srcByte, srcShift, srcCount);
      ghost var s := dst[..];
      CopyStep(before, s, dstSpan, data, srcSpan, done, dstByte, dstShift, srcByte, srcShift, srcCount);
      if srcCount < 8 {
        srcCount := 0;
      } else {
        srcCount, srcByte := srcCount - 8, srcByte + 1;
      }
      dst[dstByte] := StoreLow(dst[dstByte], bits, dstCount, dstShift);
      stored := stored + {dstByte};
      if dstShift != 0 && dstCount > 8 - dstShift {
        dst[dstByte + 1] := StoreHigh(dst[dstByte + 1], bits, dstCount, dstShift);
        stored := stored + {dstByte + 1};
      }
      assert dst[..] == StoreChunk(s, dstByte, dstShift, dstCount, bits);
      dstCount := if dstCount > 8 then dstCount - 8 else 0;
      dstByte := dstByte + 1;
      done := done + 8;
    }
  }

  lemma CopiedNothing(s: seq<bv8>, index: nat, data: seq<bv8>, src: BitSpan)
    requires src.FitsIn(|data|)
    ensures Copied(s, s, BitSpan(index, 0), data, src)
  {
  }

  function Min(a: nat, b: nat): nat {
    if a < b then a else b
  }

  /** One turn of the loop moves the next eight bits. */
  lemma CopyStep(before: seq<bv8>, s: seq<bv8>, dst: BitSpan, data: seq<bv8>, src: BitSpan, done: nat,
                 dstByte: nat, dstShift: nat, srcByte: nat, srcShift: nat, srcCount: nat)
    requires dst.FitsIn(|before|) && src.FitsIn(|data|) && done < dst.length
    requires dstShift < 8 && 8 * dstByte + dstShift == dst.index + done
    requires srcShift < 8 &&
             if srcCount > 0 then srcCount == src.length - done && 8 * srcByte + srcShift == src.index + done
             else src.length <= done
    requires Copied(before, s, BitSpan(dst.index, done), data, src)
    ensures var bits := LoadChunk(data, srcByte, srcShift, srcCount);
            Copied(before, StoreChunk(s, dstByte, dstShift, dst.length - done, bits),
                   BitSpan(dst.index, Min(done + 8, dst.length)), data, src)
  {
    hide BitAt, BitOf, StoreChunk, LoadChunk;
    var bits := LoadChunk(data, srcByte, srcShift, srcCount);
    var t := StoreChunk(s, dstByte, dstShift, dst.length - done, bits);
    forall i: nat | i < 8 * |before|
      ensures BitAt(t, i) == if BitSpan(dst.index, Min(done + 8, dst.length)).Contains(i)
                             then SpanBit(data, src, i - dst.index) else BitAt(before, i)
    {
      StoreChunkBits(s, dstByte, dstShift, dst.length - done, bits, i);
      var k := i - (dst.index + done);
      if 0 <= k < 8 { LoadChunkBits(data, srcByte, srcShift, srcCount, k); }
    }
  }
}

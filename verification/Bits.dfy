/** Bytes seen as eight bits, and byte sequences seen as one bit string in which
    bit `i` is bit `i % 8` of byte `i / 8`: the numbering used by AML fields. */
module Bits {

  predicate BitOf(b: bv8, k: nat)
    requires k < 8
  {
    match k
    case 0 => b & 0x01 != 0
    case 1 => b & 0x02 != 0
    case 2 => b & 0x04 != 0
    case 3 => b & 0x08 != 0
    case 4 => b & 0x10 != 0
    case 5 => b & 0x20 != 0
    case 6 => b & 0x40 != 0
    case _ => b & 0x80 != 0
  }

  // The byte operators, named so that proofs can use their bit-by-bit rules
  // instead of bit-vector arithmetic. Shifts are written out per distance, so
  // that the verifier only meets constant ones.

  function Shl(b: bv8, n: nat): bv8 {
    match n
    case 0 => b
    case 1 => b << 1
    case 2 => b << 2
    case 3 => b << 3
    case 4 => b << 4
    case 5 => b << 5
    case 6 => b << 6
    case 7 => b << 7
    case _ => 0
  }

  function Shr(b: bv8, n: nat): bv8 {
    match n
    case 0 => b
    case 1 => b >> 1
    case 2 => b >> 2
    case 3 => b >> 3
    case 4 => b >> 4
    case 5 => b >> 5
    case 6 => b >> 6
    case 7 => b >> 7
    case _ => 0
  }

  function And(a: bv8, b: bv8): bv8 { a & b }

  function Or(a: bv8, b: bv8): bv8 { a | b }

  function Not(a: bv8): bv8 { !a }

  /** `(1 << n) - 1`, or all ones from eight bits on. */
  function LowMask(n: nat): bv8 {
    if n < 8 then Shl(1, n) - 1 else 0xFF
  }

  /** `value` where the mask is set, `prior` elsewhere. */
  function Merge(prior: bv8, value: bv8, mask: bv8): bv8 {
    Or(And(prior, Not(mask)), And(value, mask))
  }

  lemma ShiftLeftBit(b: bv8, shift: nat, k: nat)
    requires k < 8
    ensures BitOf(Shl(b, shift), k) == (shift <= k && BitOf(b, k - shift))
  {
    match shift
    case 0 => case 1 => case 2 => case 3 => case 4 => case 5 => case 6 => case 7 => case _ =>
  }

  lemma ShiftRightBit(b: bv8, shift: nat, k: nat)
    requires k < 8
    ensures BitOf(Shr(b, shift), k) == (shift + k < 8 && BitOf(b, shift + k))
  {
    match shift
    case 0 => case 1 => case 2 => case 3 => case 4 => case 5 => case 6 => case 7 => case _ =>
  }

  lemma ConstantBit(k: nat)
    requires k < 8
    ensures !BitOf(0, k) && BitOf(0xFF, k)
  {
  }

  lemma LowMaskBit(n: nat, k: nat)
    requires k < 8
    ensures BitOf(LowMask(n), k) == (k < n)
  {
  }

  lemma OrBit(a: bv8, b: bv8, k: nat)
    requires k < 8
    ensures BitOf(Or(a, b), k) == (BitOf(a, k) || BitOf(b, k))
  {
    match k
    case 0 => case 1 => case 2 => case 3 => case 4 => case 5 => case 6 => case _ =>
  }

  lemma AndBit(a: bv8, b: bv8, k: nat)
    requires k < 8
    ensures BitOf(And(a, b), k) == (BitOf(a, k) && BitOf(b, k))
  {
    match k
    case 0 => case 1 => case 2 => case 3 => case 4 => case 5 => case 6 => case _ =>
  }

  lemma NotBit(a: bv8, k: nat)
    requires k < 8
    ensures BitOf(Not(a), k) == !BitOf(a, k)
  {
    match k
    case 0 => case 1 => case 2 => case 3 => case 4 => case 5 => case 6 => case _ =>
  }

  lemma MergeBit(prior: bv8, value: bv8, mask: bv8, k: nat)
    requires k < 8
    ensures BitOf(Merge(prior, value, mask), k) == if BitOf(mask, k) then BitOf(value, k) else BitOf(prior, k)
  {
    hide BitOf, And, Or, Not;
    NotBit(mask, k);
    AndBit(prior, Not(mask), k);
    AndBit(value, mask, k);
    OrBit(And(prior, Not(mask)), And(value, mask), k);
  }

  /** Two bytes with the same bits are the same byte. */
  lemma ByteExtensional(a: bv8, b: bv8)
    requires forall k: nat | k < 8 :: BitOf(a, k) == BitOf(b, k)
    ensures a == b
  {
    assert BitOf(a, 0) == BitOf(b, 0) && BitOf(a, 1) == BitOf(b, 1);
    assert BitOf(a, 2) == BitOf(b, 2) && BitOf(a, 3) == BitOf(b, 3);
    assert BitOf(a, 4) == BitOf(b, 4) && BitOf(a, 5) == BitOf(b, 5);
    assert BitOf(a, 6) == BitOf(b, 6) && BitOf(a, 7) == BitOf(b, 7);
  }

  predicate BitAt(s: seq<bv8>, i: nat)
    requires i < 8 * |s|
  {
    BitOf(s[i / 8], i % 8)
  }

  lemma BitAtByte(s: seq<bv8>, p: nat, k: nat)
    requires p < |s| && k < 8
    ensures (8 * p + k) / 8 == p && (8 * p + k) % 8 == k
    ensures BitAt(s, 8 * p + k) == BitOf(s[p], k)
  {
  }

  /** Byte strings of one length with the same bits are equal. */
  lemma BytesExtensional(s: seq<bv8>, t: seq<bv8>)
    requires |s| == |t|
    requires forall i: nat | i < 8 * |s| :: BitAt(s, i) == BitAt(t, i)
    ensures s == t
  {
    forall p: nat | p < |s|
      ensures s[p] == t[p]
    {
      forall k: nat | k < 8
        ensures BitOf(s[p], k) == BitOf(t[p], k)
      {
        BitAtByte(s, p, k);
        BitAtByte(t, p, k);
        assert BitAt(s, 8 * p + k) == BitAt(t, 8 * p + k);
      }
      ByteExtensional(s[p], t[p]);
    }
  }

  // Bytes as numbers

  function ToByte(i: nat): bv8 { (i % 256) as bv8 }

  function ToNat(b: bv8): (n: nat)
    ensures n < 256
  {
    b as nat
  }

  lemma ByteIsNumber(i: nat)
    requires i < 256
    ensures ToNat(ToByte(i)) == i
  {
  }
}

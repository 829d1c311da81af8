/** The byte bitmap of kernel/include/util/bitmap.h, proved to be a sequence of booleans. */
module Bitmap {

  /** The byte `1 << offset`. */
  function Mask(offset: nat): bv8
    requires offset < 8
  {
    if offset == 0 then 0x01 else if offset == 1 then 0x02
    else if offset == 2 then 0x04 else if offset == 3 then 0x08
    else if offset == 4 then 0x10 else if offset == 5 then 0x20
    else if offset == 6 then 0x40 else 0x80
  }

  /** `(b >> offset) & 1`, which is nonzero exactly when `b & Mask(offset)` is. */
  function BitOf(b: bv8, offset: nat): bool
    requires offset < 8
  {
    b & Mask(offset) != 0
  }

  /** The boolean sequence a byte buffer stands for. */
  function Bits(buffer: seq<bv8>): (r: seq<bool>)
    ensures |r| == 8 * |buffer|
  {
    seq(8 * |buffer|, i requires 0 <= i < 8 * |buffer| => BitOf(buffer[i / 8], i % 8))
  }

  lemma MasksDisjoint(offset: nat, other: nat)
    requires offset < 8 && other < 8 && offset != other
    ensures Mask(offset) & Mask(other) == 0
  {
  }

  lemma MaskOps(b: bv8, m: bv8, n: bv8)
    requires m & n == 0
    ensures (b ^ m) & n == b & n && (b | m) & n == b & n && (b & !m) & n == b & n
  {
  }

  lemma FlipByte(b: bv8, offset: nat, other: nat)
    requires offset < 8 && other < 8
    ensures BitOf(b ^ Mask(offset), other) == (BitOf(b, other) != (offset == other))
  {
    if offset != other {
      MasksDisjoint(offset, other);
      MaskOps(b, Mask(offset), Mask(other));
    }
  }

  lemma SetByte(b: bv8, offset: nat, other: nat)
    requires offset < 8 && other < 8
    ensures BitOf(b | Mask(offset), other) == (BitOf(b, other) || offset == other)
  {
    if offset != other {
      MasksDisjoint(offset, other);
      MaskOps(b, Mask(offset), Mask(other));
    }
  }

  lemma ResetByte(b: bv8, offset: nat, other: nat)
    requires offset < 8 && other < 8
    ensures BitOf(b & !Mask(offset), other) == (BitOf(b, other) && offset != other)
  {
    if offset != other {
      MasksDisjoint(offset, other);
      MaskOps(b, Mask(offset), Mask(other));
    }
  }

  lemma BitsUpdate(s: seq<bv8>, bit: nat, b: bv8, v: bool)
    requires bit < 8 * |s|
    requires forall k: nat | k < 8 :: BitOf(b, k) == if k == bit % 8 then v else BitOf(s[bit / 8], k)
    ensures Bits(s[bit / 8 := b]) == Bits(s)[bit := v]
  {
    var t := s[bit / 8 := b];
    forall i | 0 <= i < 8 * |s|
      ensures Bits(t)[i] == Bits(s)[bit := v][i]
    {
      assert i == 8 * (i / 8) + i % 8;
      if i / 8 == bit / 8 { assert BitOf(b, i % 8) == if i % 8 == bit % 8 then v else BitOf(s[i / 8], i % 8); }
    }
  }

  method FlipBit(buffer: array<bv8>, bit: nat)
    requires bit < 8 * buffer.Length
    modifies buffer
    ensures Bits(buffer[..]) == old(Bits(buffer[..]))[bit := !old(Bits(buffer[..]))[bit]]
  {
    var index, offset := bit / 8, bit % 8;
    var b := buffer[index] ^ Mask(offset);
    forall k: nat | k < 8 { FlipByte(buffer[index], offset, k); }
    BitsUpdate(buffer[..], bit, b, !BitOf(buffer[index], offset));
    buffer[index] := b;
    assert buffer[..] == old(buffer[..])[index := b];
  }

  method SetBit(buffer: array<bv8>, bit: nat)
    requires bit < 8 * buffer.Length
    modifies buffer
    ensures Bits(buffer[..]) == old(Bits(buffer[..]))[bit := true]
  {
    var index, offset := bit / 8, bit % 8;
    var b := buffer[index] | Mask(offset);
    forall k: nat | k < 8 { SetByte(buffer[index], offset, k); }
    BitsUpdate(buffer[..], bit, b, true);
    buffer[index] := b;
    assert buffer[..] == old(buffer[..])[index := b];
  }

  method ResetBit(buffer: array<bv8>, bit: nat)
    requires bit < 8 * buffer.Length
    modifies buffer
    ensures Bits(buffer[..]) == old(Bits(buffer[..]))[bit := false]
  {
    var index, offset := bit / 8, bit % 8;
    var b := buffer[index] & !Mask(offset);
    forall k: nat | k < 8 { ResetByte(buffer[index], offset, k); }
    BitsUpdate(buffer[..], bit, b, false);
    buffer[index] := b;
    assert buffer[..] == old(buffer[..])[index := b];
  }

  method GetBit(buffer: array<bv8>, bit: nat) returns (b: bool)
    requires bit < 8 * buffer.Length
    ensures b == Bits(buffer[..])[bit]
  {
    var index, offset := bit / 8, bit % 8;
    b := BitOf(buffer[index], offset);
  }
}

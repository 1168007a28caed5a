/** The revocation bitmap of internal/revocation/revocation.go. */
module Revocation {
  import opened BitArith

  /** 1 << j for a bit position of a byte. */
  function Mask(j: nat): bv8
    requires j < 8
  {
    if j == 0 then 1 else if j == 1 then 2 else if j == 2 then 4 else if j == 3 then 8
    else if j == 4 then 16 else if j == 5 then 32 else if j == 6 then 64 else 128
  }

  /** Bit i of the bitmap, most significant bit first. */
  predicate BitAt(bitmap: seq<bv8>, i: nat)
    requires i < 8 * |bitmap|
  {
    bitmap[i / 8] & Mask(7 - i % 8) != 0
  }

  /** The bit by arithmetic on the value of the byte. */
  lemma {:induction false} BitOfByte(b: bv8, j: nat)
    requires j < 8
    ensures b & Mask(j) != 0 <==> (b as nat / Pow2(j)) % 2 == 1
  {
    if j == 0 {
      LowBit(b);
    } else {
      ShiftedMask(b, j);
      BitOfByte(b >> 1, j - 1);
      HalfByte(b);
      Halved(b as nat, Pow2(j - 1));
    }
  }

  lemma ShiftedMask(b: bv8, j: nat)
    requires 0 < j < 8
    ensures b & Mask(j) != 0 <==> (b >> 1) & Mask(j - 1) != 0
  {
  }

  lemma HalfByte(b: bv8)
    ensures (b >> 1) as nat == b as nat / 2
  {
  }

  lemma LowBit(b: bv8)
    ensures b & 1 != 0 <==> b as nat % 2 == 1
  {
  }

  lemma Halved(x: nat, p: nat)
    requires p > 0
    ensures x / 2 / p == x / (2 * p)
  {
    var q, r := x / (2 * p), x % (2 * p);
    assert x == q * (2 * p) + r;
    assert x / 2 == q * p + r / 2 by {
      assert x == 2 * (q * p) + r;
    }
    DivModUnique(x / 2, p, q, r / 2);
  }

  lemma SetBit(b: bv8, j: nat, k: nat)
    requires j < 8 && k < 8
    ensures (b | Mask(j)) & Mask(k) != 0 <==> j == k || b & Mask(k) != 0
  {
  }

  lemma ZeroByte(k: nat)
    requires k < 8
    ensures (0 as bv8) & Mask(k) == 0
  {
  }

  /** One index marked: its bit and no other. */
  lemma Marked(bitmap: seq<bv8>, idx: nat, i: nat)
    requires idx < 8 * |bitmap| && i < 8 * |bitmap|
    ensures var at := idx / 8;
            BitAt(bitmap[at := bitmap[at] | Mask(7 - idx % 8)], i) <==> i == idx || BitAt(bitmap, i)
  {
    hide Mask;
    var at := idx / 8;
    var now := bitmap[at := bitmap[at] | Mask(7 - idx % 8)];
    SamePosition(i, idx);
    if i / 8 == at {
      SetBit(bitmap[at], 7 - idx % 8, 7 - i % 8);
      assert now[i / 8] == bitmap[at] | Mask(7 - idx % 8);
    } else {
      assert now[i / 8] == bitmap[i / 8];
    }
  }

  lemma SamePosition(i: nat, idx: nat)
    ensures i == idx <==> i / 8 == idx / 8 && 7 - i % 8 == 7 - idx % 8
  {
  }

  /** Bit i is set exactly when entry i is in the tree and revoked; the bits
      that fill up the last byte are zero. */
  method BuildRevocationBitmap(indices: seq<nat>, treeSize: nat) returns (bitmap: array<bv8>)
    ensures bitmap.Length == (treeSize + 7) / 8
    ensures forall i: nat :: i < 8 * bitmap.Length ==> (BitAt(bitmap[..], i) <==> i < treeSize && i in indices)
    ensures forall i: nat :: i < 8 * bitmap.Length ==>
              ((bitmap[i / 8] as nat / Pow2(7 - i % 8)) % 2 == 1 <==> i < treeSize && i in indices)
  {
    hide Mask, BitAt;
    var bitmapLen := (treeSize + 7) / 8;
    bitmap := new bv8[bitmapLen](_ => 0);
    forall i: nat | i < 8 * bitmapLen
      ensures !BitAt(bitmap[..], i)
    {
      ClearBit(bitmap[..], i);
    }
    for n := 0 to |indices|
      invariant forall i: nat :: i < 8 * bitmapLen ==> (BitAt(bitmap[..], i) <==> i < treeSize && i in indices[..n])
    {
      var idx := indices[n];
      assert indices[..n + 1] == indices[..n] + [idx];
      if idx >= treeSize {
        continue;
      }
      ghost var before := bitmap[..];
      var byteIdx := idx / 8;
      bitmap[byteIdx] := bitmap[byteIdx] | Mask(7 - idx % 8);
      assert bitmap[..] == before[byteIdx := before[byteIdx] | Mask(7 - idx % 8)];
      forall i: nat | i < 8 * bitmapLen
        ensures BitAt(bitmap[..], i) <==> i == idx || BitAt(before, i)
      {
        Marked(before, idx, i);
      }
    }
    assert indices[..|indices|] == indices;
    forall i: nat | i < 8 * bitmapLen
      ensures BitAt(bitmap[..], i) <==> (bitmap[i / 8] as nat / Pow2(7 - i % 8)) % 2 == 1
    {
      BitAtByArithmetic(bitmap[..], i);
    }
  }

  lemma BitAtByArithmetic(bitmap: seq<bv8>, i: nat)
    requires i < 8 * |bitmap|
    ensures BitAt(bitmap, i) <==> (bitmap[i / 8] as nat / Pow2(7 - i % 8)) % 2 == 1
  {
    hide Mask;
    BitOfByte(bitmap[i / 8], 7 - i % 8);
  }

  lemma ClearBit(bitmap: seq<bv8>, i: nat)
    requires i < 8 * |bitmap| && bitmap[i / 8] == 0
    ensures !BitAt(bitmap, i)
  {
    hide Mask;
    ZeroByte(7 - i % 8);
  }
}

/**
 The Bloom filter of uthash.h: one bit per masked hash value, in a vector of bytes.
 */
module Bloom {
  import opened Bits

  function BitMask(k: nat): bv8
    requires k < 8
  {
    [1, 2, 4, 8, 16, 32, 64, 128][k]
  }

  function BloomByteLen(nbits: nat): nat {
    Pow2(nbits) / 8 + (if Pow2(nbits) % 8 != 0 then 1 else 0)
  }

  /** The filter bit of a hash value. */
  function BloomBit(hashv: nat, nbits: nat): (r: nat)
    ensures r == hashv % Pow2(nbits) && r / 8 < BloomByteLen(nbits)
  {
    AndMask(hashv, nbits);
    Division(hashv, Pow2(nbits));
    And(hashv, Pow2(nbits) - 1)
  }

  predicate BitTest(bv: seq<bv8>, idx: nat)
    requires idx / 8 < |bv|
  {
    bv[idx / 8] & BitMask(idx % 8) != 0
  }

  lemma OneBit(x: bv8, k: nat, m: nat)
    requires k < 8 && m < 8
    ensures (x | BitMask(k)) & BitMask(m) != 0 <==> k == m || x & BitMask(m) != 0
  {}

  /** Setting a bit sets that bit and no other. */
  lemma BitSetThenTest(bv: seq<bv8>, idx: nat, i: nat)
    requires idx / 8 < |bv| && i / 8 < |bv|
    ensures BitTest(bv[idx / 8 := bv[idx / 8] | BitMask(idx % 8)], i) <==> i == idx || BitTest(bv, i)
  {
    OneBit(bv[idx / 8], idx % 8, i % 8);
    hide BitMask;
  }

  /** Every item has its bit set: a lookup that the filter rejects cannot succeed. */
  ghost predicate Covers<T>(hash: T -> nat, items: seq<T>, bv: seq<bv8>, nbits: nat) {
    && |bv| == BloomByteLen(nbits)
    && forall x :: x in items ==> BitTest(bv, BloomBit(hash(x), nbits))
  }

  lemma CoversLength<T>(hash: T -> nat, items: seq<T>, bv: seq<bv8>, nbits: nat)
    requires Covers(hash, items, bv, nbits)
    ensures |bv| == BloomByteLen(nbits)
  {}

  /** Setting the bit of x, an item more, loses no item. */
  lemma CoversMore<T>(hash: T -> nat, items: seq<T>, x: T, bv: seq<bv8>, nbits: nat)
    requires Covers(hash, items, bv, nbits)
    ensures var i := BloomBit(hash(x), nbits);
      Covers(hash, items + [x], bv[i / 8 := bv[i / 8] | BitMask(i % 8)], nbits)
  {
    hide BloomBit, BloomByteLen, BitTest, BitMask;
    var i := BloomBit(hash(x), nbits);
    forall y | y in items + [x]
      ensures BitTest(bv[i / 8 := bv[i / 8] | BitMask(i % 8)], BloomBit(hash(y), nbits))
    {
      BitSetThenTest(bv, i, BloomBit(hash(y), nbits));
    }
  }
}

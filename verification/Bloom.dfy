/** The Bloom filter's bit vector (HASH_BLOOM_BITSET, HASH_BLOOM_BITTEST). */
module Bloom {
  import opened Bits

  /** 1U << k, as a byte. */
  function OneShl(k: nat): bv8
    requires k < 8
  {
    if k == 0 then 1 else if k == 1 then 2 else if k == 2 then 4 else if k == 3 then 8
    else if k == 4 then 16 else if k == 5 then 32 else if k == 6 then 64 else 128
  }

  function ByteLength(nbits: nat): nat {
    Pow2(nbits) / 8 + if Pow2(nbits) % 8 != 0 then 1 else 0
  }

  /** The vector has just enough bytes for its bits. */
  lemma ByteLengthIsLeast(nbits: nat)
    ensures 8 * (ByteLength(nbits) - 1) < Pow2(nbits) <= 8 * ByteLength(nbits)
  {
  }

  predicate TestBit(b: bv8, k: nat)
    requires k < 8
  {
    b & OneShl(k) != 0
  }

  lemma SetTest(b: bv8, i: nat, k: nat)
    requires i < 8 && k < 8
    ensures TestBit(b | OneShl(i), k) <==> k == i || TestBit(b, k)
  {
    if i == 0 {
    } else if i == 1 {
    } else if i == 2 {
    } else if i == 3 {
    } else if i == 4 {
    } else if i == 5 {
    } else if i == 6 {
    }
  }

  predicate InRange(i: nat, bytes: nat) {
    i / 8 < bytes
  }

  lemma IndexInRange(i: nat, nbits: nat)
    requires i < Pow2(nbits)
    ensures InRange(i, ByteLength(nbits))
  {
  }

  /** bv holds exactly the bits of s, over the whole filter. */
  ghost predicate Holds(bv: array<bv8>, s: set<nat>)
    reads bv
  {
    forall i: nat :: InRange(i, bv.Length) ==> (TestBit(bv[i / 8], i % 8) <==> i in s)
  }

  method BitSet(bv: array<bv8>, idx: nat, ghost s: set<nat>)
    requires Holds(bv, s) && InRange(idx, bv.Length)
    modifies bv
    ensures Holds(bv, s + {idx})
  {
    bv[idx / 8] := bv[idx / 8] | OneShl(idx % 8);
    forall i: nat | InRange(i, bv.Length)
      ensures TestBit(bv[i / 8], i % 8) <==> i in s + {idx}
    {
      SetTest(old(bv[idx / 8]), idx % 8, i % 8);
      assert i == 8 * (i / 8) + i % 8 && idx == 8 * (idx / 8) + idx % 8;
    }
  }

  method BitTest(bv: array<bv8>, idx: nat, ghost s: set<nat>) returns (r: bool)
    requires Holds(bv, s) && InRange(idx, bv.Length)
    ensures r <==> idx in s
  {
    r := bv[idx / 8] & OneShl(idx % 8) != 0;
  }
}

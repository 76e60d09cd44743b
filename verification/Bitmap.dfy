/** Bitmaps packed eight bits to a byte, and the first-fit search over them. */
module Bitmap {

  datatype Option<+T> = None | Some(value: T)

  /** Bit i of the bitmap: bit i % 8 of byte i / 8. */
  predicate IsBitSet(bytes: seq<bv8>, i: nat)
    requires i < 8 * |bytes|
  {
    bytes[i / 8] & Mask(i % 8) != 0
  }

  function Mask(k: nat): bv8
    requires k < 8
  {
    (1 as bv8) << k
  }

  /** The indices of the set bits. */
  function Bits(bytes: seq<bv8>): set<nat> {
    set i: nat | i < 8 * |bytes| && IsBitSet(bytes, i)
  }

  function SetBit(bytes: seq<bv8>, i: nat): seq<bv8>
    requires i < 8 * |bytes|
  {
    bytes[i / 8 := bytes[i / 8] | Mask(i % 8)]
  }

  function ClearBit(bytes: seq<bv8>, i: nat): seq<bv8>
    requires i < 8 * |bytes|
  {
    bytes[i / 8 := bytes[i / 8] & !Mask(i % 8)]
  }

  /** Masks are single bits: setting or clearing one leaves the other seven alone. */
  lemma MaskAlgebra(b: bv8, j: nat, k: nat)
    requires j < 8 && k < 8
    ensures (b | Mask(k)) & Mask(j) != 0 <==> j == k || b & Mask(j) != 0
    ensures (b & !Mask(k)) & Mask(j) != 0 <==> j != k && b & Mask(j) != 0
  {
    assert Mask(j) == [1, 2, 4, 8, 16, 32, 64, 128][j];
    assert Mask(k) == [1, 2, 4, 8, 16, 32, 64, 128][k];
  }

  lemma SetBitBits(bytes: seq<bv8>, i: nat)
    requires i < 8 * |bytes|
    ensures Bits(SetBit(bytes, i)) == Bits(bytes) + {i}
  {
    var after := SetBit(bytes, i);
    forall j: nat | j < 8 * |bytes|
      ensures IsBitSet(after, j) <==> j == i || IsBitSet(bytes, j)
    {
      MaskAlgebra(bytes[i / 8], j % 8, i % 8);
    }
  }

  lemma ClearBitBits(bytes: seq<bv8>, i: nat)
    requires i < 8 * |bytes|
    ensures Bits(ClearBit(bytes, i)) == Bits(bytes) - {i}
  {
    var after := ClearBit(bytes, i);
    forall j: nat | j < 8 * |bytes|
      ensures IsBitSet(after, j) <==> j != i && IsBitSet(bytes, j)
    {
      MaskAlgebra(bytes[i / 8], j % 8, i % 8);
    }
  }

  lemma ClearBytesHaveNoBits(bytes: seq<bv8>)
    requires forall k | 0 <= k < |bytes| :: bytes[k] == 0
    ensures Bits(bytes) == {}
  {
    assert forall i: nat | i < 8 * |bytes| :: !IsBitSet(bytes, i);
  }

  /** The least index in [from, n) that is not used, if there is one. */
  function FirstFree(used: set<nat>, from: nat, n: nat): (r: Option<nat>)
    ensures r.Some? ==> from <= r.value < n && r.value !in used
    ensures r.Some? ==> forall j: nat | from <= j < r.value :: j in used
    ensures r.None? ==> forall j: nat | from <= j < n :: j in used
    decreases n - from
  {
    if from >= n then None
    else if from !in used then Some(from)
    else FirstFree(used, from + 1, n)
  }

  /** {0, ..., n-1} */
  function Below(n: nat): (r: set<nat>)
    ensures forall i: nat :: i in r <==> i < n
  {
    if n == 0 then {} else Below(n - 1) + {n - 1}
  }

  lemma {:induction false} BelowSize(n: nat)
    ensures |Below(n)| == n
  {
    if n == 0 {
    } else {
      BelowSize(n - 1);
    }
  }

  lemma SubsetSize(a: set<nat>, b: set<nat>)
    requires a <= b
    ensures |a| <= |b|
  {
    assert b == a + (b - a);
  }

  /** A counter with counter + |used| == n is exactly the number of clear bits below n. */
  lemma CountsClearBits(used: set<nat>, n: nat, counter: nat)
    requires used <= Below(n) && counter + |used| == n
    ensures counter == |Below(n) - used|
  {
    BelowSize(n);
    assert Below(n) == (Below(n) - used) + used;
  }

  /** First fit after a non-zero counter check always finds the least clear bit. */
  lemma NonZeroCounterFinds(used: set<nat>, n: nat, counter: nat)
    requires used <= Below(n) && counter + |used| == n && counter > 0
    ensures FirstFree(used, 0, n).Some?
    ensures var k := FirstFree(used, 0, n).value; k !in used && k < n && Below(k) <= used
  {
    CountsClearBits(used, n, counter);
    var clear :| clear in Below(n) - used;
  }
}

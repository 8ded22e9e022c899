/** Byte-packed bitmaps, as `disk_bitmap` and `pmm_bitmap` use them: bit n lives
    in byte n / 8 under the mask 1 << (n % 8). */
module Bitmap {

  function Mask(j: nat): bv8
    requires j < 8
  {
    (1 as bv8) << j
  }

  predicate BitSet(b: bv8, j: nat)
    requires j < 8
  {
    b & Mask(j) != 0
  }

  lemma SetBit(b: bv8, j: nat, k: nat)
    requires j < 8 && k < 8
    ensures BitSet(b | Mask(j), k) <==> k == j || BitSet(b, k)
  {
  }

  lemma ClearBit(b: bv8, j: nat, k: nat)
    requires j < 8 && k < 8
    ensures BitSet(b & !Mask(j), k) <==> k != j && BitSet(b, k)
  {
  }

  /** `is_full` compares a whole byte with 0xFF. */
  lemma FullByte(b: bv8)
    ensures b == 0xFF <==> forall j: nat :: j < 8 ==> BitSet(b, j)
  {
    if forall j: nat :: j < 8 ==> BitSet(b, j) {
      assert BitSet(b, 0) && BitSet(b, 1) && BitSet(b, 2) && BitSet(b, 3);
      assert BitSet(b, 4) && BitSet(b, 5) && BitSet(b, 6) && BitSet(b, 7);
    }
  }

  /** The bitmap as the sequence of its bits; true means used. */
  function Bits(bytes: seq<bv8>): (bits: seq<bool>)
    ensures |bits| == 8 * |bytes|
  {
    seq(8 * |bytes|, i requires 0 <= i < 8 * |bytes| => BitSet(bytes[i / 8], i % 8))
  }

  lemma SetInByte(bytes: seq<bv8>, n: nat)
    requires n < 8 * |bytes|
    ensures Bits(bytes[n / 8 := bytes[n / 8] | Mask(n % 8)]) == Bits(bytes)[n := true]
  {
    var b := bytes[n / 8] | Mask(n % 8);
    var was, now := Bits(bytes), Bits(bytes[n / 8 := b]);
    forall k | 0 <= k < |now| ensures now[k] == was[n := true][k] {
      if k / 8 == n / 8 {
        SetBit(bytes[n / 8], n % 8, k % 8);
      }
    }
  }

  lemma ClearInByte(bytes: seq<bv8>, n: nat)
    requires n < 8 * |bytes|
    ensures Bits(bytes[n / 8 := bytes[n / 8] & !Mask(n % 8)]) == Bits(bytes)[n := false]
  {
    var b := bytes[n / 8] & !Mask(n % 8);
    var was, now := Bits(bytes), Bits(bytes[n / 8 := b]);
    forall k | 0 <= k < |now| ensures now[k] == was[n := false][k] {
      if k / 8 == n / 8 {
        ClearBit(bytes[n / 8], n % 8, k % 8);
      }
    }
  }

  method MarkUsed(a: array<bv8>, n: nat)
    requires n < 8 * a.Length
    modifies a
    ensures Bits(a[..]) == old(Bits(a[..]))[n := true]
  {
    SetInByte(a[..], n);
    a[n / 8] := a[n / 8] | Mask(n % 8);
    assert a[..] == old(a[..])[n / 8 := a[n / 8]];
  }

  method MarkFree(a: array<bv8>, n: nat)
    requires n < 8 * a.Length
    modifies a
    ensures Bits(a[..]) == old(Bits(a[..]))[n := false]
  {
    ClearInByte(a[..], n);
    a[n / 8] := a[n / 8] & !Mask(n % 8);
    assert a[..] == old(a[..])[n / 8 := a[n / 8]];
  }
}

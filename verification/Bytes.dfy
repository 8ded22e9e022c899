/** Byte-addressed memory and its 32-bit little-endian words. */
module Bytes {

  type Byte = b: int | 0 <= b < 256
  type Word = w: int | 0 <= w < 0x1_0000_0000
  type Memory = seq<Byte>

  function Load32(m: Memory, a: nat): (w: Word)
    requires a + 4 <= |m|
  {
    (m[a] as int) + 0x100 * (m[a + 1] as int) + 0x1_0000 * (m[a + 2] as int) + 0x100_0000 * (m[a + 3] as int)
  }

  /** The two memories agree outside [lo, hi). */
  ghost predicate SameBut(m: Memory, n: Memory, lo: nat, hi: nat)
  {
    |m| == |n| && forall i :: 0 <= i < |m| && !(lo <= i < hi) ==> n[i] == m[i]
  }

  /** The two memories agree outside two ranges. */
  ghost predicate SameButTwo(m: Memory, n: Memory, lo: nat, hi: nat, from: nat, to: nat)
  {
    |m| == |n| && forall i :: 0 <= i < |m| && !(lo <= i < hi) && !(from <= i < to) ==> n[i] == m[i]
  }

  /** The bytes of [lo, hi) are as before. */
  ghost predicate SameRange(m: Memory, n: Memory, lo: nat, hi: nat)
  {
    |m| == |n| && forall i :: lo <= i < hi && i < |m| ==> n[i] == m[i]
  }

  /** A word store, stated by what it leaves behind. */
  ghost predicate Stored(m: Memory, n: Memory, a: nat, w: Word)
  {
    SameBut(m, n, a, a + 4) && a + 4 <= |m| && Load32(n, a) == w
  }

  method Store32(m: Memory, a: nat, w: Word) returns (n: Memory)
    requires a + 4 <= |m|
    ensures Stored(m, n, a, w)
  {
    var x := w / 0x100;
    var y := x / 0x100;
    n := m[a := w % 0x100][a + 1 := x % 0x100][a + 2 := y % 0x100][a + 3 := y / 0x100];
  }

  lemma LoadFrame(m: Memory, n: Memory, lo: nat, hi: nat, b: nat)
    requires SameBut(m, n, lo, hi) && b + 4 <= |m| && (b + 4 <= lo || hi <= b)
    ensures Load32(n, b) == Load32(m, b)
  {
  }
}

/** The swap-slot allocator of drivers/disk.c: a bitmap of slots searched next
    fit for a contiguous run. */
module DiskSlots {
  import opened Bitmap
  import Runs

  const BITMAP_SIZE: nat := 100000
  const SLOTS: nat := 8 * BITMAP_SIZE
  const NO_SLOT: nat := 0xFFFF_FFFF

  datatype Slots = Slots(bits: seq<bool>, cursor: nat)

  ghost predicate SlotsInv(s: Slots)
  {
    |s.bits| == SLOTS && s.cursor <= BITMAP_SIZE
  }

  /** n free slots start at slot p, all in range. */
  ghost predicate FitsAt(bits: seq<bool>, p: nat, n: nat)
  {
    p + n <= |bits| && forall k :: p <= k < p + n ==> !bits[k]
  }

  ghost predicate NoneFits(bits: seq<bool>, lo: nat, hi: nat, n: nat)
  {
    forall p: nat :: lo <= p < hi ==> !FitsAt(bits, p, n)
  }

  /** Bits with [p, p + n) set to value. */
  ghost function Painted(bits: seq<bool>, p: nat, n: nat, value: bool): seq<bool>
  {
    seq(|bits|, k requires 0 <= k < |bits| => if p <= k < p + n then value else bits[k])
  }

  /** p is the cyclically first fitting start, counted from the cursor byte. */
  ghost predicate NextFit(s: Slots, n: nat, p: nat)
  {
    && FitsAt(s.bits, p, n)
    && if 8 * s.cursor <= p then NoneFits(s.bits, 8 * s.cursor, p, n)
       else NoneFits(s.bits, 8 * s.cursor, SLOTS, n) && NoneFits(s.bits, 0, p, n)
  }

  /** One `disk_alloc_slots(n)`. */
  ghost predicate AllocStep(s: Slots, n: nat, t: Slots, r: nat)
  {
    if r == NO_SLOT then t == s && (n == 0 || NoneFits(s.bits, 0, SLOTS, n))
    else n > 0 && NextFit(s, n, r) && t == Slots(Painted(s.bits, r, n, true), (r + n) / 8)
  }

  /** One `disk_free_slots(p, n)`: declined when the run ends at the last slot. */
  ghost predicate FreeStep(s: Slots, p: nat, n: nat, t: Slots)
  {
    t == if p + n >= SLOTS then s else s.(bits := Painted(s.bits, p, n, false))
  }

  class SlotMap {
    const bitmap: array<bv8>
    var lastAllocIndex: nat

    ghost function Abs(): Slots
      reads this, bitmap
    {
      Slots(Bits(bitmap[..]), lastAllocIndex)
    }

    ghost predicate Valid()
      reads this, bitmap
    {
      bitmap.Length == BITMAP_SIZE && SlotsInv(Abs())
    }

    constructor ()
      ensures Valid() && fresh(bitmap)
      ensures Abs() == Slots(seq(SLOTS, _ => false), 1)
    {
      bitmap := new bv8[BITMAP_SIZE](_ => 0);
      lastAllocIndex := 1;
      new;
      assert Bits(bitmap[..]) == seq(SLOTS, _ => false);
    }

    predicate IsSlotFree(slot: nat)
      requires slot < 8 * bitmap.Length
      reads bitmap
      ensures IsSlotFree(slot) <==> !Bits(bitmap[..])[slot]
    {
      bitmap[slot / 8] & Mask(slot % 8) == 0
    }

    method AreSlotsFree(start: nat, count: nat) returns (free: bool)
      requires Valid()
      ensures free <==> FitsAt(Abs().bits, start, count)
    {
      if start + count > BITMAP_SIZE * 8 {
        return false;
      }
      for k := 0 to count
        invariant FitsAt(Abs().bits, start, k)
      {
        if !IsSlotFree(start + k) {
          return false;
        }
      }
      free := true;
    }

    method MarkSlotsUsed(start: nat, count: nat)
      requires Valid() && start + count <= SLOTS
      modifies bitmap
      ensures Valid() && Abs() == old(Abs()).(bits := Painted(old(Abs().bits), start, count, true))
    {
      for k := 0 to count
        invariant Abs().bits == Painted(old(Abs().bits), start, k, true)
      {
        MarkUsed(bitmap, start + k);
      }
    }

    /** The sum is taken in 32 bits by the source, so it must not wrap there. */
    method FreeSlots(slot: nat, slotsNum: nat)
      requires Valid() && slotsNum < 256 && slot + slotsNum < 0x1_0000_0000
      modifies bitmap
      ensures Valid() && FreeStep(old(Abs()), slot, slotsNum, Abs())
    {
      if slot + slotsNum < BITMAP_SIZE * 8 {
        for i := 0 to slotsNum
          invariant Abs().bits == Painted(old(Abs().bits), slot, i, false)
        {
          MarkFree(bitmap, slot + i);
        }
      }
    }

    method FreeSlot(slot: nat)
      requires Valid() && slot < SLOTS
      modifies bitmap
      ensures Valid() && Abs() == old(Abs()).(bits := old(Abs().bits)[slot := false])
    {
      MarkFree(bitmap, slot);
    }

    /** The byte and bit loops of `disk_alloc_slots` over bytes [lo, hi). */
    method Search(lo: nat, hi: nat, n: nat) returns (slot: nat)
      requires Valid() && lo <= hi <= BITMAP_SIZE && 0 < n
      ensures slot == NO_SLOT ==> NoneFits(Abs().bits, 8 * lo, 8 * hi, n)
      ensures slot != NO_SLOT ==> 8 * lo <= slot < 8 * hi && FitsAt(Abs().bits, slot, n)
      ensures slot != NO_SLOT ==> NoneFits(Abs().bits, 8 * lo, slot, n)
    {
      for i := lo to hi
        invariant NoneFits(Abs().bits, 8 * lo, 8 * i, n)
      {
        for j := 0 to 8
          invariant NoneFits(Abs().bits, 8 * lo, 8 * i + j, n)
        {
          slot := i * 8 + j;
          if IsSlotFree(slot) {
            var fits := AreSlotsFree(slot, n);
            if fits {
              return;
            }
          }
        }
      }
      slot := NO_SLOT;
    }

    method AllocSlots(slotsNum: nat) returns (slot: nat)
      requires Valid() && slotsNum < 256
      modifies this, bitmap
      ensures Valid() && AllocStep(old(Abs()), slotsNum, Abs(), slot)
      ensures slot != 0xFFFF_FFFF ==> slot + slotsNum <= 800000 && lastAllocIndex == (slot + slotsNum) / 8
      ensures slot != 0xFFFF_FFFF ==> forall k :: slot <= k < slot + slotsNum ==> !old(Abs()).bits[k]
      ensures forall k: nat :: k < 800000 ==>
                (Abs().bits[k] <==> old(Abs()).bits[k] || (slot != 0xFFFF_FFFF && slot <= k < slot + slotsNum))
    {
      slot := NO_SLOT;
      if slotsNum != 0 {
        slot := Search(lastAllocIndex, BITMAP_SIZE, slotsNum);
        if slot == NO_SLOT {
          slot := Search(0, lastAllocIndex, slotsNum);
        }
        if slot != NO_SLOT {
          MarkSlotsUsed(slot, slotsNum);
          lastAllocIndex := (slot + slotsNum) / 8;
        }
      }
    }
  }

  // ---- Whole runs -------------------------------------------------------

  datatype Extent = Extent(start: nat, len: nat) {
    predicate Has(k: nat) { start <= k < start + len }
  }

  /** The allocator, the extents in use, and those whose free was declined. */
  datatype State = State(slots: Slots, live: set<Extent>, stuck: set<Extent>)

  datatype Event = Alloc(n: nat, slot: nat) | Free(extent: Extent)

  ghost predicate Step(s: State, e: Event, t: State)
  {
    match e
    case Alloc(n, r) =>
      && AllocStep(s.slots, n, t.slots, r) && t.stuck == s.stuck
      && t.live == if r == NO_SLOT then s.live else s.live + {Extent(r, n)}
    case Free(x) =>
      && x in s.live && FreeStep(s.slots, x.start, x.len, t.slots) && t.live == s.live - {x}
      && t.stuck == if x.start + x.len >= SLOTS then s.stuck + {x} else s.stuck
  }

  ghost predicate Covered(xs: set<Extent>, k: nat) { exists x :: x in xs && x.Has(k) }

  ghost predicate Apart(x: Extent, y: Extent) { x.start + x.len <= y.start || y.start + y.len <= x.start }

  /** Extents never overlap, the set bits are exactly the live extents plus the
      stuck ones, and only an extent at the very end gets stuck. */
  ghost predicate Accounted(s: State)
  {
    && SlotsInv(s.slots)
    && (forall x :: x in s.live + s.stuck ==> 0 < x.len && x.start + x.len <= SLOTS)
    && (forall x :: x in s.stuck ==> x.start + x.len == SLOTS)
    && s.live !! s.stuck
    && (forall x, y :: x in s.live + s.stuck && y in s.live + s.stuck && x != y ==> Apart(x, y))
    && (forall k: nat :: k < SLOTS ==> (s.slots.bits[k] <==> Covered(s.live + s.stuck, k)))
  }

  lemma AllocAccounted(s: State, n: nat, r: nat, t: State)
    requires Accounted(s) && Step(s, Alloc(n, r), t)
    ensures Accounted(t)
  {
    if r != NO_SLOT {
      var x, before, after := Extent(r, n), s.live + s.stuck, t.live + t.stuck;
      assert after == before + {x};
      forall y | y in before ensures Apart(x, y) {
        if !Apart(x, y) {
          var k := if x.start < y.start then y.start else x.start;
          assert y.Has(k) && Covered(before, k);
        }
      }
      assert x !in before by {
        assert !Apart(x, x);
      }
      forall k: nat | k < SLOTS ensures t.slots.bits[k] <==> Covered(after, k) {
        if x.Has(k) {
          assert Covered(after, k);
        } else if Covered(before, k) {
          var y :| y in before && y.Has(k);
          assert y in after;
        }
      }
    }
  }

  lemma FreeAccounted(s: State, x: Extent, t: State)
    requires Accounted(s) && Step(s, Free(x), t)
    ensures Accounted(t)
  {
    var before, after := s.live + s.stuck, t.live + t.stuck;
    if x.start + x.len >= SLOTS {
      assert after == before;
    } else {
      assert after == before - {x};
      forall k: nat | k < SLOTS ensures t.slots.bits[k] <==> Covered(after, k) {
        if Covered(before, k) {
          var y :| y in before && y.Has(k);
          assert x.Has(k) ==> x == y || !Apart(x, y);
          assert y != x ==> y in after;
        }
        forall z | z in after ensures !x.Has(k) || !z.Has(k) {
          assert Apart(x, z);
        }
      }
    }
  }

  /** Over every run of allocations and matching frees, live extents are
      pairwise disjoint and the bitmap shows exactly them and the stuck one. */
  lemma RunIsAccounted(states: seq<State>, events: seq<Event>)
    requires Runs.Run((s: State, e: Event, t: State) => Step(s, e, t), states, events) && Accounted(states[0])
    ensures forall k :: 0 <= k < |states| ==> Accounted(states[k])
  {
    var inv := (s: State) => Accounted(s);
    var step := (s: State, e: Event, t: State) => Step(s, e, t);
    forall s, e, t | inv(s) && step(s, e, t) ensures inv(t) {
      match e
      case Alloc(n, r) => AllocAccounted(s, n, r, t);
      case Free(x) => FreeAccounted(s, x, t);
    }
    Runs.Invariant(inv, step, states, events, |events|);
    forall k | 0 <= k < |states| ensures Accounted(states[k]) {
      assert inv(states[k]);
    }
  }

  /** A free gives its slots back exactly when the extent does not end at the
      last slot. */
  lemma FreeWorksExactlyBelowTheEnd(s: State, x: Extent, t: State)
    requires Accounted(s) && Step(s, Free(x), t)
    ensures (forall k: nat :: x.Has(k) ==> !t.slots.bits[k]) <==> x.start + x.len < 800000
  {
    if x.start + x.len == SLOTS {
      assert x.Has(x.start) && x in s.live + s.stuck;
      assert Covered(s.live + s.stuck, x.start);
    }
  }

  /** At most one extent is ever stuck. */
  lemma OneStuckExtent(s: State, x: Extent, y: Extent)
    requires Accounted(s) && x in s.stuck && y in s.stuck
    ensures x == y
  {
    assert x in s.live + s.stuck && y in s.live + s.stuck;
    assert x == y || Apart(x, y);
  }
}

/** The physical frame allocator of memory/pmm.c: a bitmap, a next-fit cursor
    and a one-entry cache of the frame freed last. Frame f is the block at
    physical address f * 4096; address 0 doubles as "no frame". */
module FrameAllocator {
  import opened Bitmap
  import Runs

  const BLOCK_SIZE: nat := 4096
  const BITMAP_SIZE: nat := 131072
  const FRAME_COUNT: nat := 8 * BITMAP_SIZE
  const ADDRESS_SPACE: nat := 0x1_0000_0000
  const NO_FRAME: nat := 0
  const KERNEL_HEAP_SIZE: nat := BLOCK_SIZE * 108
  const VGA_ADDRESS: nat := 0xB8000

  type FrameNo = f: nat | f < 0x10_0000

  datatype Option<+T> = None | Some(value: T)

  /** What the allocator's three static variables mean. */
  datatype Frames = Frames(bits: seq<bool>, cached: Option<nat>, cursor: nat)

  /** What every call keeps: the cursor is in range and a cached frame is free. */
  ghost predicate Shape(s: Frames)
  {
    && |s.bits| == FRAME_COUNT
    && 1 <= s.cursor < BITMAP_SIZE
    && (s.cached.Some? ==> s.cached.value < FRAME_COUNT && !s.bits[s.cached.value])
  }

  /** What holds as long as frame 0 is never freed. */
  ghost predicate FramesInv(s: Frames) { Shape(s) && s.cached != Some(0) }

  ghost function UsedOf(bits: seq<bool>): set<FrameNo>
    requires |bits| == FRAME_COUNT
  {
    set f: FrameNo | f < FRAME_COUNT && bits[f]
  }

  lemma UsedUpdate(bits: seq<bool>, f: FrameNo)
    requires |bits| == FRAME_COUNT
    ensures UsedOf(bits[f := true]) == UsedOf(bits) + {f}
    ensures UsedOf(bits[f := false]) == UsedOf(bits) - {f}
  {
  }

  /** The frames the search could still find. */
  ghost function FreeFrames(used: set<FrameNo>): set<FrameNo> {
    set f: FrameNo | 8 <= f < FRAME_COUNT && f !in used
  }

  ghost predicate Exhausted(used: set<FrameNo>) { forall f: FrameNo :: 8 <= f ==> f in used }

  /** Every frame of [lo, hi) is used. */
  ghost predicate AllUsed(bits: seq<bool>, lo: int, hi: int)
    requires 0 <= lo && hi <= |bits|
  {
    forall g :: lo <= g < hi ==> bits[g]
  }

  /** f is the first free frame met when the bytes are visited from the cursor
      to the end and then from byte 1 up to the cursor. */
  ghost predicate NextFit(s: Frames, f: nat)
    requires Shape(s)
  {
    && 8 <= f < FRAME_COUNT
    && !s.bits[f]
    && if 8 * s.cursor <= f then AllUsed(s.bits, 8 * s.cursor, f)
       else AllUsed(s.bits, 8 * s.cursor, FRAME_COUNT) && AllUsed(s.bits, 8, f)
  }

  /** One `pmm_alloc_frame` from s to t that returned address r. */
  ghost predicate AllocStep(s: Frames, t: Frames, r: nat)
    requires Shape(s)
  {
    match s.cached
    case Some(f) => r == f * BLOCK_SIZE && t == Frames(s.bits[f := true], None, s.cursor)
    case None =>
      if AllUsed(s.bits, 8, FRAME_COUNT) then r == NO_FRAME && t == s
      else r % BLOCK_SIZE == 0 && NextFit(s, r / BLOCK_SIZE)
           && t == Frames(s.bits[r / BLOCK_SIZE := true], None, r / BLOCK_SIZE / 8)
  }

  /** One `pmm_free_frame` of frame f. */
  ghost predicate FreeStep(s: Frames, t: Frames, f: nat)
    requires Shape(s) && f < FRAME_COUNT
  {
    t == Frames(s.bits[f := false], Some(f), s.cursor)
  }

  /** Where the linker and the boot code put the kernel image and its stack. */
  datatype Layout = Layout(kernelStart: nat, kernelEnd: nat, stackTop: nat, stackPages: nat)
  {
    ghost predicate Valid() {
      && kernelStart <= kernelEnd < ADDRESS_SPACE
      && stackTop < ADDRESS_SPACE && stackPages * BLOCK_SIZE <= stackTop + BLOCK_SIZE
    }

    /** The image starts at a block boundary, as linker.ld puts it, and there is
        room for the heap. */
    predicate Aligned() { kernelStart % 4096 == 0 && stackTop + 4096 + 0x6C000 <= ADDRESS_SPACE }

    function KernelFrames(): nat
      requires kernelStart <= kernelEnd
    {
      (kernelEnd - kernelStart + BLOCK_SIZE - 1) / BLOCK_SIZE
    }

    /** KERNEL_BASE_HEAP_ADDR: the stack top rounded up to a block, in 32 bits. */
    function HeapBase(): nat {
      (stackTop + BLOCK_SIZE - 1) % ADDRESS_SPACE / BLOCK_SIZE * BLOCK_SIZE
    }

    /** The frames `pmm_init` sets aside. */
    ghost predicate Reserved(f: nat)
      requires kernelStart <= kernelEnd
    {
      || InRun(f, kernelStart, true, KernelFrames())
      || InRun(f, stackTop, false, stackPages)
      || InRun(f, HeapBase(), true, KERNEL_HEAP_SIZE / BLOCK_SIZE)
      || f == VGA_ADDRESS / BLOCK_SIZE
    }
  }

  /** The frame i blocks above or below an address, in 32-bit arithmetic. */
  function RunFrame(start: nat, up: bool, i: nat): nat {
    (if up then start + i * BLOCK_SIZE else start - i * BLOCK_SIZE) % ADDRESS_SPACE / BLOCK_SIZE
  }

  ghost predicate InRun(f: nat, start: nat, up: bool, n: nat) {
    exists i: nat :: i < n && f == RunFrame(start, up, i)
  }

  lemma InRunNext(f: nat, start: nat, up: bool, n: nat)
    ensures InRun(f, start, up, n + 1) <==> InRun(f, start, up, n) || f == RunFrame(start, up, n)
  {
    if f == RunFrame(start, up, n) {
      assert InRun(f, start, up, n + 1);
    }
    if InRun(f, start, up, n) {
      var i: nat :| i < n && f == RunFrame(start, up, i);
      assert i < n + 1 && f == RunFrame(start, up, i);
    }
  }

  /** The block an address lies in. */
  function BlockOf(a: nat): nat { a / 4096 }

  /** Block f holds an address of [lo, hi). */
  ghost predicate Meets(f: nat, lo: nat, hi: nat) {
    exists a: nat :: lo <= a < hi && BlockOf(a) == f
  }

  /** Block f is what its addresses say: part of the image, of the pages the stack
      grows down through, of the 108 blocks of the heap, or the VGA text buffer. */
  ghost predicate Taken(p: Layout, heapBase: nat, f: nat) {
    || Meets(f, p.kernelStart, p.kernelEnd)
    || BlockOf(p.stackTop) - p.stackPages < f <= BlockOf(p.stackTop)
    || Meets(f, heapBase, heapBase + 0x6C000)
    || f == 0xB8
  }

  /** Marking upward from an aligned address marks every block of the range, a
      last partial one included, and no other. */
  lemma RunIsRange(f: nat, lo: nat, hi: nat)
    requires lo % 4096 == 0 && lo <= hi <= ADDRESS_SPACE
    ensures InRun(f, lo, true, (hi - lo + BLOCK_SIZE - 1) / BLOCK_SIZE) <==> Meets(f, lo, hi)
  {
    var n := (hi - lo + BLOCK_SIZE - 1) / BLOCK_SIZE;
    if InRun(f, lo, true, n) {
      var i: nat :| i < n && f == RunFrame(lo, true, i);
      assert BlockOf(lo + i * BLOCK_SIZE) == f;
    }
    if Meets(f, lo, hi) {
      var a: nat :| lo <= a < hi && BlockOf(a) == f;
      assert f == RunFrame(lo, true, f - lo / BLOCK_SIZE);
    }
  }

  /** Marking downward marks as many blocks, the one of the start first. */
  lemma RunDown(f: nat, start: nat, n: nat)
    requires start < ADDRESS_SPACE && n * BLOCK_SIZE <= start + BLOCK_SIZE
    ensures InRun(f, start, false, n) <==> BlockOf(start) - n < f <= BlockOf(start)
  {
    if InRun(f, start, false, n) {
      var i: nat :| i < n && f == RunFrame(start, false, i);
      assert 0 <= start - i * BLOCK_SIZE;
    }
    if BlockOf(start) - n < f <= BlockOf(start) {
      assert f == RunFrame(start, false, BlockOf(start) - f);
    }
  }

  /** The heap starts at the first block boundary from the stack top on. */
  lemma HeapBaseAligned(p: Layout)
    requires p.stackTop + 4095 < ADDRESS_SPACE
    ensures p.HeapBase() % 4096 == 0 && p.stackTop <= p.HeapBase() < p.stackTop + 4096
  {
  }

  /** For an image linked at a block boundary and a heap below 4 GB the frames set
      aside are those of the addresses in use. */
  lemma ReservedIsTaken(p: Layout, f: nat)
    requires p.Valid() && p.Aligned()
    ensures p.Reserved(f) <==> Taken(p, p.HeapBase(), f)
  {
    HeapBaseAligned(p);
    RunIsRange(f, p.kernelStart, p.kernelEnd);
    RunIsRange(f, p.HeapBase(), p.HeapBase() + 0x6C000);
    RunDown(f, p.stackTop, p.stackPages);
  }

  /** What the reserved bits say of addresses. */
  lemma Meaning(p: Layout, bits: seq<bool>)
    requires p.Valid() && |bits| == FRAME_COUNT
    requires forall f: nat :: f < FRAME_COUNT ==> (bits[f] <==> p.Reserved(f))
    ensures p.kernelStart % 4096 == 0 ==> forall a: nat :: p.kernelStart <= a < p.kernelEnd ==> bits[BlockOf(a)]
    ensures p.Aligned() ==> p.HeapBase() % 4096 == 0 && p.stackTop <= p.HeapBase() < p.stackTop + 4096
    ensures p.Aligned() ==> forall f: nat :: f < FRAME_COUNT ==> (bits[f] <==> Taken(p, p.HeapBase(), f))
  {
    if p.kernelStart % 4096 == 0 {
      forall a: nat | p.kernelStart <= a < p.kernelEnd ensures bits[BlockOf(a)] {
        assert Meets(BlockOf(a), p.kernelStart, p.kernelEnd);
        RunIsRange(BlockOf(a), p.kernelStart, p.kernelEnd);
      }
    }
    if p.Aligned() {
      HeapBaseAligned(p);
      forall f: nat | f < FRAME_COUNT ensures bits[f] <==> Taken(p, p.HeapBase(), f) {
        ReservedIsTaken(p, f);
      }
    }
  }

  class Pmm {
    const bitmap: array<bv8>
    var lastFreeIndex: int
    var lastFreeOffset: int
    var lastAllocIndex: nat

    ghost function Abs(): Frames
      reads this, bitmap
    {
      Frames(Bits(bitmap[..]),
             if lastFreeIndex != -1 && lastFreeOffset != -1
             then Some(Index(lastFreeIndex, lastFreeOffset)) else None,
             lastAllocIndex)
    }

    ghost function Index(index: int, offset: int): nat {
      if index < 0 || offset < 0 then 0 else 8 * index + offset
    }

    ghost function Used(): set<FrameNo>
      requires bitmap.Length == BITMAP_SIZE
      reads this, bitmap
    {
      UsedOf(Abs().bits)
    }

    ghost predicate Shaped()
      reads this, bitmap
    {
      && bitmap.Length == BITMAP_SIZE
      && ((lastFreeIndex == -1 && lastFreeOffset == -1) || (0 <= lastFreeIndex && 0 <= lastFreeOffset < 8))
      && Shape(Abs())
    }

    ghost predicate Valid()
      reads this, bitmap
    {
      Shaped() && FramesInv(Abs())
    }

    constructor ()
      ensures Valid() && fresh(bitmap)
      ensures Abs() == Frames(seq(FRAME_COUNT, _ => false), None, 1)
    {
      bitmap := new bv8[BITMAP_SIZE](_ => 0);
      lastFreeIndex, lastFreeOffset, lastAllocIndex := -1, -1, 1;
      new;
      assert Bits(bitmap[..]) == seq(FRAME_COUNT, _ => false);
    }

    function CalcFrameAddr(index: nat, offset: nat): nat {
      index * 8 * BLOCK_SIZE + offset * BLOCK_SIZE
    }

    method MarkUsedAddr(addr: nat)
      requires bitmap.Length == BITMAP_SIZE && addr < ADDRESS_SPACE
      modifies bitmap
      ensures Bits(bitmap[..]) == old(Bits(bitmap[..]))[addr / BLOCK_SIZE := true]
    {
      MarkUsed(bitmap, addr / BLOCK_SIZE);
    }

    /** The first free frame of byte i; the inner search loop. */
    method ScanByte(i: nat) returns (j: nat)
      requires bitmap.Length == BITMAP_SIZE && i < BITMAP_SIZE && bitmap[i] != 0xFF
      ensures j < 8 && !Bits(bitmap[..])[8 * i + j]
      ensures AllUsed(Bits(bitmap[..]), 8 * i, 8 * i + j)
    {
      FullByte(bitmap[i]);
      j := 0;
      while bitmap[i] & Mask(j) != 0
        invariant j < 8
        invariant forall k: nat :: k < j ==> BitSet(bitmap[i], k)
        decreases 8 - j
      {
        assert BitSet(bitmap[i], j);
        j := j + 1;
      }
      assert forall g :: 8 * i <= g <= 8 * i + j ==> Bits(bitmap[..])[g] == BitSet(bitmap[i], g - 8 * i);
    }

    /** The two nested search loops of `pmm_alloc_frame`, over bytes [lo, hi). */
    method Scan(lo: nat, hi: nat) returns (found: Option<nat>)
      requires bitmap.Length == BITMAP_SIZE && lo <= hi <= BITMAP_SIZE
      ensures found.None? ==> AllUsed(Bits(bitmap[..]), 8 * lo, 8 * hi)
      ensures found.Some? ==> 8 * lo <= found.value < 8 * hi
                              && !Bits(bitmap[..])[found.value]
                              && AllUsed(Bits(bitmap[..]), 8 * lo, found.value)
    {
      for i := lo to hi
        invariant AllUsed(Bits(bitmap[..]), 8 * lo, 8 * i)
      {
        if bitmap[i] != 0xFF {
          var j := ScanByte(i);
          return Some(8 * i + j);
        }
        FullByte(bitmap[i]);
        assert forall g :: 8 * i <= g < 8 * i + 8 ==> Bits(bitmap[..])[g] == BitSet(bitmap[i], g % 8);
      }
      found := None;
    }

    /** `pmm_alloc_frame`. A cached frame 0 is marked used and reported as no
        frame. */
    method AllocFrame() returns (r: nat)
      requires Shaped()
      modifies this, bitmap
      ensures Valid()
      ensures AllocStep(old(Abs()), Abs(), r)
      ensures r == NO_FRAME && old(Abs()).cached != Some(0) ==> Used() == old(Used()) && Exhausted(Used())
      ensures r != NO_FRAME ==> r % BLOCK_SIZE == 0 && r < ADDRESS_SPACE
                                && r / BLOCK_SIZE !in old(Used()) && Used() == old(Used()) + {r / BLOCK_SIZE}
    {
      if lastFreeIndex != -1 && lastFreeOffset != -1 {
        r := CalcFrameAddr(lastFreeIndex, lastFreeOffset);
        UsedUpdate(Abs().bits, r / BLOCK_SIZE);
        MarkUsedAddr(r);
        lastFreeIndex, lastFreeOffset := -1, -1;
      } else {
        r := Search();
      }
    }

    /** The next-fit part of `pmm_alloc_frame`. */
    method Search() returns (r: nat)
      requires Valid() && Abs().cached.None?
      modifies this, bitmap
      ensures Valid()
      ensures AllocStep(old(Abs()), Abs(), r)
      ensures r == NO_FRAME ==> Used() == old(Used()) && Exhausted(Used())
      ensures r != NO_FRAME ==> r % BLOCK_SIZE == 0 && r < ADDRESS_SPACE
                                && r / BLOCK_SIZE !in old(Used()) && Used() == old(Used()) + {r / BLOCK_SIZE}
    {
      var found := Scan(lastAllocIndex, BITMAP_SIZE);
      if found.None? {
        found := Scan(1, lastAllocIndex);
      }
      if found.None? {
        return NO_FRAME;
      }
      r := CalcFrameAddr(found.value / 8, found.value % 8);
      UsedUpdate(Abs().bits, found.value);
      MarkUsedAddr(r);
      lastAllocIndex := found.value / 8;
    }

    /** `pmm_free_frame`, of any frame its assertion accepts. */
    method FreeFrame(addr: nat)
      requires Shaped() && addr < ADDRESS_SPACE && addr % BLOCK_SIZE == 0
      modifies this, bitmap
      ensures Shaped() && (Valid() <==> addr != 0)
      ensures FreeStep(old(Abs()), Abs(), addr / BLOCK_SIZE)
      ensures Used() == old(Used()) - {addr / BLOCK_SIZE}
    {
      UsedUpdate(Abs().bits, addr / BLOCK_SIZE);
      MarkFree(bitmap, addr / BLOCK_SIZE);
      lastFreeIndex := addr / BLOCK_SIZE / 8;
      lastFreeOffset := addr / BLOCK_SIZE % 8;
    }

    method IsFrameFree(addr: nat) returns (free: bool)
      requires Shaped() && addr < ADDRESS_SPACE && addr % BLOCK_SIZE == 0
      ensures free <==> !Abs().bits[addr / BLOCK_SIZE]
    {
      free := bitmap[addr / BLOCK_SIZE / 8] & Mask(addr / BLOCK_SIZE % 8) == 0;
    }

    /** The marking loops of `pmm_init`: upward for the image and the heap,
        downward for the stack. */
    method MarkRun(start: nat, up: bool, n: nat)
      requires bitmap.Length == BITMAP_SIZE
      modifies bitmap
      ensures forall f: nat :: f < FRAME_COUNT ==>
                (Bits(bitmap[..])[f] <==> old(Bits(bitmap[..]))[f] || InRun(f, start, up, n))
    {
      for i := 0 to n
        invariant forall f: nat :: f < FRAME_COUNT ==>
                    (Bits(bitmap[..])[f] <==> old(Bits(bitmap[..]))[f] || InRun(f, start, up, i))
      {
        MarkUsedAddr((if up then start + i * BLOCK_SIZE else start - i * BLOCK_SIZE) % ADDRESS_SPACE);
        forall f: nat ensures InRun(f, start, up, i + 1) <==> InRun(f, start, up, i) || f == RunFrame(start, up, i) {
          InRunNext(f, start, up, i);
        }
      }
    }

    /** `pmm_init` clears the bitmap and marks the reserved frames; it does not
        touch the cursor or the cached frame, so it belongs before any free. No
        address of the image is left in a free frame, and with room for the heap
        the used frames are exactly those that hold something. */
    method Init(p: Layout) returns (heapBase: nat)
      requires Valid() && p.Valid() && Abs().cached.None?
      modifies bitmap
      ensures Valid() && heapBase == p.HeapBase()
      ensures forall f: nat :: f < FRAME_COUNT ==> (Abs().bits[f] <==> p.Reserved(f))
      ensures p.kernelStart % 4096 == 0 ==>
                forall a: nat :: p.kernelStart <= a < p.kernelEnd ==> Abs().bits[BlockOf(a)]
      ensures p.Aligned() ==>
                && heapBase % 4096 == 0 && p.stackTop <= heapBase < p.stackTop + 4096
                && forall f: nat :: f < FRAME_COUNT ==> (Abs().bits[f] <==> Taken(p, heapBase, f))
      ensures Abs().cursor == old(Abs().cursor) && Abs().cached.None?
    {
      for i := 0 to BITMAP_SIZE
        invariant forall k :: 0 <= k < i ==> bitmap[k] == 0
      {
        bitmap[i] := 0;
      }
      MarkRun(p.kernelStart, true, p.KernelFrames());
      MarkRun(p.stackTop, false, p.stackPages);
      heapBase := p.HeapBase();
      MarkRun(heapBase, true, KERNEL_HEAP_SIZE / BLOCK_SIZE);
      MarkUsedAddr(VGA_ADDRESS);
      assert forall f: nat :: f < FRAME_COUNT ==> (Bits(bitmap[..])[f] <==> p.Reserved(f));
      Meaning(p, Bits(bitmap[..]));
    }
  }

  // ---- Whole runs -------------------------------------------------------

  datatype Event = Alloc(addr: nat) | Free(frame: nat)

  /** A run's state: the allocator, the frames handed out and not yet freed, and
      the frames marked used although nobody was given them. */
  datatype State = State(frames: Frames, owned: set<nat>, lost: set<nat>)

  /** One event of a run in which no reserved frame is freed. */
  ghost predicate Step(reserved: set<nat>, s: State, e: Event, t: State)
  {
    && Shape(s.frames)
    && match e
       case Alloc(r) =>
         && AllocStep(s.frames, t.frames, r)
         && t.owned == (if r == NO_FRAME then s.owned else s.owned + {r / BLOCK_SIZE})
         && t.lost == if s.frames.cached == Some(0) then s.lost + {0} else s.lost
       case Free(f) =>
         && f < FRAME_COUNT && f !in reserved
         && FreeStep(s.frames, t.frames, f)
         && t.owned == s.owned - {f} && t.lost == s.lost - {f}
  }

  ghost predicate Run(reserved: set<nat>, states: seq<State>, events: seq<Event>)
  {
    Runs.Run((s: State, e: Event, t: State) => Step(reserved, s, e, t), states, events)
  }

  /** The bitmap shows exactly the reserved, the owned and the lost frames, and
      no frame but frame 0 is ever lost. */
  ghost predicate Accounted(reserved: set<nat>, s: State)
  {
    && Shape(s.frames)
    && reserved !! s.owned && s.lost <= {0}
    && forall f: nat :: f < FRAME_COUNT ==> (s.frames.bits[f] <==> f in reserved + s.owned + s.lost)
  }

  /** What an allocation may return: a frame nobody held, or nothing, and nothing
      exactly when frame 0 is cached or every frame from byte 1 upward is used. */
  ghost predicate GoodResult(reserved: set<nat>, s: State, r: nat)
  {
    && Shape(s.frames)
    && (r == NO_FRAME <==> ReportsNone(s.frames))
    && (r != NO_FRAME ==> r % BLOCK_SIZE == 0 && r / BLOCK_SIZE < FRAME_COUNT
                          && r / BLOCK_SIZE !in reserved + s.owned + s.lost)
  }

  ghost predicate OutOfFrames(s: Frames) { |s.bits| == FRAME_COUNT && AllUsed(s.bits, 8, FRAME_COUNT) }

  ghost predicate ReportsNone(s: Frames)
    requires Shape(s)
  {
    s.cached == Some(0) || (s.cached.None? && AllUsed(s.bits, 8, FRAME_COUNT))
  }

  lemma StepKeepsAccount(reserved: set<nat>, s: State, e: Event, t: State)
    requires Accounted(reserved, s) && Step(reserved, s, e, t)
    ensures Accounted(reserved, t)
    ensures e.Alloc? ==> GoodResult(reserved, s, e.addr)
  {
  }

  /** Over every run from the state `Init` leaves, the used bits are the
      reserved frames plus those handed out and lost, each result is a frame that
      was none of these, and "no frame" has its two causes. */
  lemma RunIsAccounted(reserved: set<nat>, states: seq<State>, events: seq<Event>)
    requires Run(reserved, states, events) && Accounted(reserved, states[0])
    ensures forall k :: 0 <= k < |states| ==> Accounted(reserved, states[k])
    ensures forall k :: 0 <= k < |events| && events[k].Alloc? ==> GoodResult(reserved, states[k], events[k].addr)
  {
    var inv := (s: State) => Accounted(reserved, s);
    var step := (s: State, e: Event, t: State) => Step(reserved, s, e, t);
    forall s, e, t | inv(s) && step(s, e, t) ensures inv(t) {
      StepKeepsAccount(reserved, s, e, t);
    }
    Runs.Invariant(inv, step, states, events, |events|);
    forall k | 0 <= k < |states|
      ensures Accounted(reserved, states[k])
      ensures k < |events| && events[k].Alloc? ==> GoodResult(reserved, states[k], events[k].addr)
    {
      assert inv(states[k]);
      if k < |events| {
        assert step(states[k], events[k], states[k + 1]);
        StepKeepsAccount(reserved, states[k], events[k], states[k + 1]);
      }
    }
  }

  /** If frame 0 is never freed, none is ever lost, and failure is exhaustion. */
  lemma NothingLost(reserved: set<nat>, states: seq<State>, events: seq<Event>)
    requires Run(reserved, states, events) && Accounted(reserved, states[0])
    requires states[0].lost == {} && FramesInv(states[0].frames) && Free(0) !in events
    ensures forall k :: 0 <= k < |states| ==> FramesInv(states[k].frames) && states[k].lost == {}
    ensures forall k :: 0 <= k < |events| && events[k] == Alloc(NO_FRAME) ==> OutOfFrames(states[k].frames)
  {
    var inv := (s: State) => FramesInv(s.frames) && s.lost == {};
    var step := (s: State, e: Event, t: State) => Step(reserved, s, e, t) && e != Free(0);
    forall k | 0 <= k < |events| ensures step(states[k], events[k], states[k + 1]) {
      assert events[k] in events;
    }
    Runs.Invariant(inv, step, states, events, |events|);
    forall k | 0 <= k < |states|
      ensures FramesInv(states[k].frames) && states[k].lost == {}
      ensures k < |events| && events[k] == Alloc(NO_FRAME) ==> OutOfFrames(states[k].frames)
    {
      assert inv(states[k]);
      if k < |events| {
        assert step(states[k], events[k], states[k + 1]);
      }
    }
  }

  /** When an allocation reports no frame, for every state, and when such a
      report leaves the bitmap alone: exactly when frame 0 is not the cached one. */
  lemma NoFrameExactly(s: Frames, t: Frames, r: nat)
    requires Shape(s) && AllocStep(s, t, r)
    ensures r == NO_FRAME <==> ReportsNone(s)
    ensures (r == NO_FRAME ==> t.bits == s.bits) <==> s.cached != Some(0)
    ensures FramesInv(t)
  {
    if s.cached == Some(0) {
      assert t.bits[0] && !s.bits[0];
    }
  }

  /** So freeing frame 0 makes the next allocation report no frame, however many
      are free, and take frame 0 all the same. */
  lemma FreeingFrameZeroBreaksAlloc(s: Frames, t: Frames, u: Frames, r: nat)
    requires Shape(s) && FreeStep(s, t, 0) && AllocStep(t, u, r)
    ensures !FramesInv(t) && r == NO_FRAME && u.bits == s.bits[0 := true] && u.bits != t.bits
  {
    NoFrameExactly(t, u, r);
    assert s.bits[0 := false][0 := true] == s.bits[0 := true];
  }
}

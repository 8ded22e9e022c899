/** The heap from the start: `pmm_init`, the mapping of the heap's range in
    `vmm_init`, and `init_kmalloc`. */
module Boot {
  import opened Bytes
  import opened Seqs
  import opened SlabCaches
  import opened LargeRecords
  import opened HeapFrames
  import F = FrameAllocator
  import P = PageTables
  import L = LargePages
  import K = Kmalloc

  /** The image, the stack, the VGA buffer and the directory lie outside the heap's
      range and the frame after it. */
  ghost predicate Clear(p: F.Layout, dir: F.FrameNo)
    requires p.kernelStart <= p.kernelEnd
  {
    forall f: nat {:trigger Apart(p, dir, f)} ::
      p.HeapBase() / F.BLOCK_SIZE <= f <= (p.HeapBase() + HEAP_SIZE) / F.BLOCK_SIZE ==> Apart(p, dir, f)
  }

  ghost predicate Apart(p: F.Layout, dir: F.FrameNo, f: nat)
    requires p.kernelStart <= p.kernelEnd
  {
    && !F.InRun(f, p.kernelStart, true, p.KernelFrames()) && !F.InRun(f, p.stackTop, false, p.stackPages)
    && f != F.VGA_ADDRESS / F.BLOCK_SIZE && f != dir
  }

  /** The frames marked for the heap are those of its range. */
  lemma HeapRun(base: nat, f: nat)
    requires BaseOk(base)
    ensures F.InRun(f, base, true, F.KERNEL_HEAP_SIZE / F.BLOCK_SIZE)
            <==> base / F.BLOCK_SIZE <= f < (base + HEAP_SIZE) / F.BLOCK_SIZE
  {
    AlignedSum(base, HEAP_SIZE);
    var start, n := base / F.BLOCK_SIZE, F.KERNEL_HEAP_SIZE / F.BLOCK_SIZE;
    forall i: nat | i < n ensures F.RunFrame(base, true, i) == start + i {
    }
    if start <= f < start + n {
      assert f == F.RunFrame(base, true, f - start);
    }
  }

  /** So what `pmm_init` reserves backs the heap. */
  lemma StartsBacked(p: F.Layout, dir: F.FrameNo, data: set<F.FrameNo>)
    requires p.Valid() && BaseOk(p.HeapBase()) && Clear(p, dir)
    requires forall f: F.FrameNo :: f in data <==> p.Reserved(f) && f != dir
    ensures FramesBacked(p.HeapBase(), data, [])
  {
    var base := p.HeapBase();
    forall f: F.FrameNo | base / F.BLOCK_SIZE <= f <= (base + HEAP_SIZE) / F.BLOCK_SIZE
      ensures Held(f, data, []) <==> f < (base + HEAP_SIZE) / F.BLOCK_SIZE
    {
      assert Apart(p, dir, f);
      HeapRun(base, f);
    }
  }

  /** The pages of the heap's range, each mapped to the frame of its own number. */
  ghost function OwnFrames(start: nat, n: nat): seq<F.FrameNo>
    requires start + n <= L.LIMIT
  {
    seq(n, i requires 0 <= i < n => start + i)
  }

  /** The loop of `vmm_init` over the heap's range. */
  method MapHeap(sp: P.AddressSpace, base: nat) returns (ok: bool)
    requires sp.Valid() && BaseOk(base)
    modifies sp, sp.pmm, sp.pmm.bitmap
    ensures sp.Valid() && sp.Data() == old(sp.Data())
    ensures ok ==> L.SameOutside(old(sp.mem), sp.mem, sp.dir, base / F.BLOCK_SIZE, F.KERNEL_HEAP_SIZE / F.BLOCK_SIZE)
    ensures ok ==> PagesBacked(sp.mem, sp.dir, base, map[])
  {
    ghost var mem0, start := sp.mem, base / F.BLOCK_SIZE;
    var n := F.KERNEL_HEAP_SIZE / F.BLOCK_SIZE;
    AlignedSum(base, HEAP_SIZE);
    var i := 0;
    ok := true;
    while i < n && ok
      invariant 0 <= i <= n && sp.Valid() && sp.Data() == old(sp.Data())
      invariant ok ==> L.MapsTo(sp.mem, sp.dir, start, OwnFrames(start, i))
      invariant ok ==> L.SameOutside(mem0, sp.mem, sp.dir, start, i)
      decreases n - i, ok
    {
      ok := MapOwn(sp, start + i, base + i * F.BLOCK_SIZE, mem0, start, i);
      i := i + 1;
    }
    if ok {
      forall p | start <= p < start + n ensures OwnPage(sp.mem, sp.dir, p) {
        assert L.HasFrame(sp.mem, sp.dir, start + (p - start), OwnFrames(start, n)[p - start]);
      }
    }
  }

  /** One turn of it. */
  method MapOwn(sp: P.AddressSpace, ghost page: nat, a: nat, ghost mem0: P.Memory, ghost start: nat, ghost i: nat)
      returns (ok: bool)
    requires sp.Valid() && page == start + i < L.LIMIT && a == page * F.BLOCK_SIZE
    requires L.MapsTo(sp.mem, sp.dir, start, OwnFrames(start, i)) && L.SameOutside(mem0, sp.mem, sp.dir, start, i)
    modifies sp, sp.pmm, sp.pmm.bitmap
    ensures sp.Valid() && sp.Data() == old(sp.Data())
    ensures ok ==> L.MapsTo(sp.mem, sp.dir, start, OwnFrames(start, i + 1))
    ensures ok ==> P.PageAt(sp.mem, sp.dir, page) == F.Some(P.Filled(old(sp.Slot(a)), a, 0x103))
    ensures ok ==> L.SameOutside(mem0, sp.mem, sp.dir, start, i + 1)
  {
    ghost var before := sp.mem;
    ok := L.MapAt(sp, a / F.BLOCK_SIZE, a, P.KERNEL_PAGE_FLAGS);
    if ok {
      L.Extend(mem0, before, sp.mem, sp.dir, start, OwnFrames(start, i), page);
      assert OwnFrames(start, i + 1) == OwnFrames(start, i) + [page];
    }
  }

  /** From a directory with no table but itself to a working heap: what the laws of
      the heap assume of the frames is what `pmm_init` and `vmm_init` set up. */
  method Start(p: F.Layout, pmm: F.Pmm, pages: P.Memory, dir: F.FrameNo, paging: bool, bytes: Memory)
      returns (ok: bool, heap: K.Heap)
    requires pmm.Valid() && pmm.Abs().cached.None? && p.Valid() && p.Reserved(dir) && Clear(p, dir)
    requires BaseOk(p.HeapBase())
    requires P.Complete(pages) && |bytes| == MEMORY_SIZE && P.Uses(pages, dir, P.RECURSIVE, dir)
    requires forall i: nat :: i < P.RECURSIVE ==> !P.IsPresent(pages[dir][i]) && !P.IsSwapped(pages[dir][i])
    modifies pmm, pmm.bitmap
    ensures ok ==> heap.Valid() && heap.GrantsOk() && heap.granted == map[] && heap.base == p.HeapBase()
  {
    var base, space := Prepare(p, pmm, pages, dir, paging);
    ok := MapHeap(space, base);
    heap := new K.Heap(bytes, base, space);
    if ok {
      StillEmpty(pages, space.mem, dir, base);
      ok := heap.Init();
    }
  }

  /** `pmm_init`, and the directory as the address space it is. */
  method Prepare(p: F.Layout, pmm: F.Pmm, pages: P.Memory, dir: F.FrameNo, paging: bool)
      returns (base: nat, space: P.AddressSpace)
    requires pmm.Valid() && pmm.Abs().cached.None? && p.Valid() && p.Reserved(dir) && Clear(p, dir)
    requires BaseOk(p.HeapBase())
    requires P.Complete(pages) && P.Uses(pages, dir, P.RECURSIVE, dir)
    requires forall i: nat :: i < P.RECURSIVE ==> !P.IsPresent(pages[dir][i]) && !P.IsSwapped(pages[dir][i])
    modifies pmm.bitmap
    ensures fresh(space) && space.Valid() && space.mem == pages && space.dir == dir && space.pmm == pmm
    ensures base == p.HeapBase() && FramesBacked(base, space.Data(), [])
  {
    base := pmm.Init(p);
    space := new P.AddressSpace(pages, dir, paging, pmm);
    FirstSpace(p, space);
  }

  lemma FirstSpace(p: F.Layout, space: P.AddressSpace)
    requires space.pmm.Valid() && p.Valid() && p.Reserved(space.dir) && Clear(p, space.dir) && BaseOk(p.HeapBase())
    requires P.Complete(space.mem) && P.Uses(space.mem, space.dir, P.RECURSIVE, space.dir)
    requires forall i: nat :: i < P.RECURSIVE ==>
               !P.IsPresent(space.mem[space.dir][i]) && !P.IsSwapped(space.mem[space.dir][i])
    requires forall f: nat :: f < F.FRAME_COUNT ==> (space.pmm.Abs().bits[f] <==> p.Reserved(f))
    ensures space.Valid() && FramesBacked(p.HeapBase(), space.Data(), [])
  {
    assert forall f: F.FrameNo :: P.IsTable(space.mem, space.dir, f) <==> f == space.dir;
    StartsBacked(p, space.dir, space.Data());
  }

  /** Nothing is mapped past the heap's range yet. */
  lemma StillEmpty(pages: P.Memory, after: P.Memory, dir: F.FrameNo, base: nat)
    requires P.Complete(pages) && BaseOk(base)
    requires forall i: nat :: i < P.RECURSIVE ==> !P.IsPresent(pages[dir][i])
    requires L.SameOutside(pages, after, dir, base / F.BLOCK_SIZE, F.KERNEL_HEAP_SIZE / F.BLOCK_SIZE)
    ensures var lo := (base + HEAP_SIZE) / F.BLOCK_SIZE; L.Unmapped(after, dir, lo, 2 * base / F.BLOCK_SIZE - lo)
  {
    AlignedSum(base, HEAP_SIZE);
    var lo, end := (base + HEAP_SIZE) / F.BLOCK_SIZE, 2 * base / F.BLOCK_SIZE;
    forall q | lo <= q < end ensures P.PageAt(after, dir, q) == F.None {
      assert L.Outside(q, base / F.BLOCK_SIZE, F.KERNEL_HEAP_SIZE / F.BLOCK_SIZE);
      assert P.PageAt(pages, dir, q) == F.None;
    }
  }
}

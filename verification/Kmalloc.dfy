/** The kernel heap of memory/kmalloc.c: eight slab caches for small objects
    and page-granular large allocations. */
module Kmalloc {
  import opened Bytes
  import opened Seqs
  import opened Slab
  import opened SlabCaches
  import opened LargeRecords
  import opened HeapContents
  import opened HeapFrames
  import F = FrameAllocator
  import P = PageTables
  import L = LargePages

  class Heap {
    var mem: Memory
    const base: nat
    var currentHeap: nat
    var currentLarge: nat
    var caches: seq<nat>
    var largeList: nat
    const space: P.AddressSpace
    ghost var slabs: map<nat, View>
    ghost var lists: seq<seq<nat>>
    ghost var blocks: seq<Block>
    /** The live results of `kmalloc`, each with the size asked for. */
    ghost var granted: map<nat, nat>

    ghost predicate SmallOk()
      reads this
    {
      BaseOk(base) && Small(base, mem, currentHeap, slabs) && CachesOk(mem, slabs, caches, lists)
    }

    /** The static state before `init_kmalloc`, with the two bump addresses it
        sets first; every cache is still empty. */
    constructor (mem: Memory, base: nat, space: P.AddressSpace)
      requires |mem| == MEMORY_SIZE
      requires BaseOk(base)
      ensures SmallOk() && slabs == map[] && currentHeap == base && currentLarge == base + HEAP_SIZE
      ensures this.mem == mem && this.base == base && this.space == space
      ensures largeList == 0 && blocks == [] && granted == map[]
    {
      this.mem, this.base, this.space := mem, base, space;
      currentHeap, currentLarge, largeList := base, base + HEAP_SIZE, 0;
      caches := [0, 0, 0, 0, 0, 0, 0, 0];
      slabs, lists := map[], [[], [], [], [], [], [], [], []];
      blocks, granted := [], map[];
    }

    method Poke(a: nat, w: Word)
      requires a + 4 <= |mem|
      modifies this`mem
      ensures Stored(old(mem), mem, a, w)
    {
      mem := Store32(mem, a, w);
    }

    /** Both operations end by writing the list head and the count. */
    method SetHeader(s: nat, first: Word, count: Word)
      requires s + PAGE <= |mem|
      modifies this`mem
      ensures HeaderSet(old(mem), mem, s, first, count)
    {
      SetListWords(s, first, count);
    }

    method SetListWords(s: nat, first: Word, count: Word)
      requires s + PAGE <= |mem|
      modifies this`mem
      ensures HeaderSet(old(mem), mem, s, first, count) && Load32(mem, s + OFFSET) == Load32(old(mem), s + OFFSET)
    {
      Poke(s + FREE_LIST, first);
      LoadFrame(old(mem), mem, s + FREE_LIST, s + FREE_LIST + 4, s + OBJECT_SIZE);
      LoadFrame(old(mem), mem, s + FREE_LIST, s + FREE_LIST + 4, s + OFFSET);
      LoadFrame(old(mem), mem, s + FREE_LIST, s + FREE_LIST + 4, s + NEXT);
      ghost var mid := mem;
      Poke(s + FREE_COUNT, count);
      LoadFrame(mid, mem, s + FREE_COUNT, s + FREE_COUNT + 4, s + OBJECT_SIZE);
      LoadFrame(mid, mem, s + FREE_COUNT, s + FREE_COUNT + 4, s + OFFSET);
      LoadFrame(mid, mem, s + FREE_COUNT, s + FREE_COUNT + 4, s + NEXT);
      LoadFrame(mid, mem, s + FREE_COUNT, s + FREE_COUNT + 4, s + FREE_LIST);
    }

    /** `alloc_from_slab`; 0 is NULL. */
    method AllocFromSlab(s: nat) returns (o: nat)
      requires HeapInv(mem, slabs) && s in slabs
      modifies this`mem, this`slabs
      ensures Step(Slab.Heap(old(mem), old(slabs)), Alloc(s), Slab.Heap(mem, slabs))
      ensures HeapInv(mem, slabs)
      ensures if old(slabs)[s].free == [] then o == 0 && mem == old(mem) && slabs == old(slabs)
              else o == old(slabs)[s].free[0] && slabs == old(slabs)[s := Allocated(old(slabs)[s])]
                   && AllocWrites(old(mem), mem, s)
    {
      assert Rep(mem, s, slabs[s]);
      var count := Load32(mem, s + FREE_COUNT);
      if count == 0 {
        return 0;
      }
      o := Load32(mem, s + FREE_LIST);
      var next := Load32(mem, o);
      SetHeader(s, next, count - 1);
      AllocKeepsHeap(old(mem), mem, slabs, s);
      slabs := slabs[s := Allocated(slabs[s])];
    }

    method SlabFree(s: nat, o: nat)
      requires HeapInv(mem, slabs) && s in slabs && o in slabs[s].live
      modifies this`mem, this`slabs
      ensures Step(Slab.Heap(old(mem), old(slabs)), Free(s, o), Slab.Heap(mem, slabs))
      ensures HeapInv(mem, slabs) && slabs == old(slabs)[s := Freed(old(slabs)[s], o)]
      ensures FreeWrites(old(mem), mem, s, o)
    {
      assert Rep(mem, s, slabs[s]) && o in Objects(s, slabs[s].size);
      ObjectInPage(s, slabs[s].size, o);
      CountsAddUp(mem, s, slabs[s]);
      Poke(o, Load32(mem, s + FREE_LIST));
      LoadFrame(old(mem), mem, o, o + 4, s + FREE_COUNT);
      assert FreeLink(old(mem), mem, s, o);
      SetHeader(s, o, Load32(mem, s + FREE_COUNT) + 1);
      FreeKeepsHeap(old(mem), mem, slabs, s, o);
      slabs := slabs[s := Freed(slabs[s], o)];
    }

    /** `init_slab`: thread the free list through the objects of the page. */
    method InitSlab(s: nat, size: nat)
      requires s + PAGE <= |mem| == MEMORY_SIZE && 4 <= size <= DATA
      modifies this`mem
      ensures SameBut(old(mem), mem, s, s + PAGE)
      ensures forall w :: w == s + OBJECT_SIZE || w == s + OFFSET || w == s + NEXT ==>
                Load32(mem, w) == Load32(old(mem), w)
      ensures Word32(mem, s + FREE_LIST, ObjectAt(s, size, 0)) && Word32(mem, s + FREE_COUNT, Capacity(size))
      ensures ChainTo(mem, s, size, Capacity(size) - 1)
      ensures Word32(mem, ObjectAt(s, size, Capacity(size) - 1), 0)
    {
      var n := Capacity(size);
      CapacityPositive(size);
      CapacityFits(size);
      ObjectIndexInPage(s, size, 0);
      SetListWords(s, s + HEADER, n);
      ghost var header := mem;
      var current := s + HEADER;
      for i := 1 to n
        invariant current == ObjectAt(s, size, i - 1) && ChainTo(mem, s, size, i - 1)
        invariant SameBut(header, mem, s + HEADER, s + PAGE)
      {
        var next := s + HEADER + i * size;
        ObjectIndexInPage(s, size, i - 1);
        ObjectIndexInPage(s, size, i);
        ghost var before := mem;
        Poke(current, next);
        ChainPoke(before, mem, s, size, i - 1, next);
        current := next;
      }
      ObjectIndexInPage(s, size, n - 1);
      ghost var before := mem;
      Poke(current, 0);
      ChainPoke(before, mem, s, size, n - 1, 0);
      forall w | s <= w && w + 4 <= s + HEADER ensures Load32(mem, w) == Load32(header, w) {
        LoadFrame(header, mem, s + HEADER, s + PAGE, w);
      }
    }

    /** The stores of `create_slab` into its new page. */
    method FormatSlab(s: nat, size: nat)
      requires 0 < s && s % PAGE == 0 && s + PAGE <= |mem| == MEMORY_SIZE && 4 <= size <= DATA
      modifies this`mem
      ensures SameBut(old(mem), mem, s, s + PAGE)
      ensures Rep(mem, s, FreshView(s, size)) && Word32(mem, s + NEXT, 0) && Word32(mem, s + OFFSET, 0)
    {
      Poke(s + OBJECT_SIZE, size);
      ghost var a := mem;
      Poke(s + OFFSET, 0);
      LoadFrame(a, mem, s + OFFSET, s + OFFSET + 4, s + OBJECT_SIZE);
      ghost var b := mem;
      Poke(s + NEXT, 0);
      LoadFrame(b, mem, s + NEXT, s + NEXT + 4, s + OBJECT_SIZE);
      LoadFrame(b, mem, s + NEXT, s + NEXT + 4, s + OFFSET);
      InitSlab(s, size);
      forall i: nat | i < Capacity(size) ensures Word32(mem, ObjectAt(s, size, i), NextObject(s, size, i)) {
      }
      FreshRep(mem, s, size);
    }

    /** When a call may end otherwise than by returning: a page table is missing
        and may not be had, or the heap's range is used up. */
    ghost predicate MayGive(r: Result)
      reads this, space
    {
      && (r.Halt? ==> !P.FullDirectory(space.mem, space.dir))
      && (r.Spill? ==> currentHeap == base + HEAP_SIZE)
    }

    /** `create_slab`. The bound check passes at exactly base + HEAP_SIZE, so one
        page more than the heap's length can be taken: it is mapped to the frame
        after the heap's range, whoever has that frame. */
    method CreateSlab(size: nat) returns (r: Result)
      requires SmallOk() && space.Valid() && 4 <= size <= DATA
      modifies this`mem, this`currentHeap, this`slabs, space, space.pmm, space.pmm.bitmap
      ensures space.Valid() && space.Data() == old(space.Data())
      ensures !r.Null? && old(MayGive(r)) && (r.Ptr? ==> old(currentHeap) < base + HEAP_SIZE)
      ensures r.Ptr? ==> SmallOk() && r.addr == base + old(currentHeap) && r.addr !in old(slabs)
      ensures r.Ptr? ==> r.addr in slabs && slabs == old(slabs)[r.addr := slabs[r.addr]] && AllFree(slabs[r.addr], size)
      ensures r.Ptr? ==> SameBut(old(mem), mem, r.addr, r.addr + PAGE)
      ensures r.Ptr? ==> Extends(old(space.mem), space.mem, space.dir, base, old(slabs), slabs)
      ensures r.Ptr? || r.Spill? ==> L.HasFrame(space.mem, space.dir, r.addr / PAGE, old(currentHeap) / PAGE)
      ensures r.Spill? ==> r.addr == 2 * base + HEAP_SIZE && mem == old(mem) && slabs == old(slabs)
      ensures r.Spill? ==> ExtraSlab(space.mem, space.dir, base)
      ensures r.Spill? ==> L.SameOutside(old(space.mem), space.mem, space.dir, r.addr / PAGE, 1)
    {
      r := Halt;
      if currentHeap <= base + HEAP_SIZE {
        var ok, s := MapNextPage();
        if ok {
          r := UseSlabPage(s, size, old(space.mem));
        }
      }
    }

    /** The page base above the bump address is mapped to the bump frame. */
    method MapNextPage() returns (ok: bool, s: nat)
      requires SmallOk() && space.Valid() && currentHeap <= base + HEAP_SIZE
      modifies space, space.pmm, space.pmm.bitmap
      ensures SmallOk() && space.Valid() && space.Data() == old(space.Data())
      ensures s == base + currentHeap && s % PAGE == 0
      ensures ok ==> SlabMapped(space.mem, space.dir, base, s)
      ensures ok ==> L.SameOutside(old(space.mem), space.mem, space.dir, s / PAGE, 1)
      ensures P.FullDirectory(old(space.mem), space.dir) ==> ok
    {
      var phys := currentHeap;
      SlabRoom(phys);
      s := phys + base;
      ok := MapSlabPage(space, s, phys);
    }

    /** The page is mapped: within the heap's range it becomes a slab. */
    method UseSlabPage(s: nat, size: nat, ghost pm: P.Memory) returns (r: Result)
      requires SmallOk() && space.Valid() && 4 <= size <= DATA && currentHeap <= base + HEAP_SIZE
      requires s == base + currentHeap && s % PAGE == 0 && SlabMapped(space.mem, space.dir, base, s)
      requires L.SameOutside(pm, space.mem, space.dir, s / PAGE, 1)
      modifies this`mem, this`currentHeap, this`slabs
      ensures if old(currentHeap) < base + HEAP_SIZE then r == Ptr(s) else r == Spill(s)
      ensures r.Ptr? ==> SmallOk() && s !in old(slabs) && s in slabs && slabs == old(slabs)[s := slabs[s]]
      ensures r.Ptr? ==> AllFree(slabs[s], size) && SameBut(old(mem), mem, s, s + PAGE)
      ensures r.Ptr? ==> Extends(pm, space.mem, space.dir, base, old(slabs), slabs)
      ensures r.Spill? ==> mem == old(mem) && slabs == old(slabs) && ExtraSlab(space.mem, space.dir, base)
    {
      r := Spill(s);
      if currentHeap < base + HEAP_SIZE {
        AddSlab(s, size);
        ExtendsByOne(pm, space.mem, space.dir, old(mem), base, old(slabs), s, slabs[s]);
        r := Ptr(s);
      }
    }

    lemma SlabRoom(phys: nat)
      requires BaseOk(base) && phys % PAGE == 0 && phys <= base + HEAP_SIZE
      ensures (phys + base) % PAGE == 0 && (phys + base) / PAGE < L.LIMIT
      ensures base <= phys ==> 2 * base / PAGE <= (phys + base) / PAGE
      ensures phys + base + PAGE <= MEMORY_SIZE
    {
      AlignedSum(phys, base);
    }

    /** The bump, and the new page as a slab. */
    method AddSlab(s: nat, size: nat)
      requires SmallOk() && currentHeap < base + HEAP_SIZE && 4 <= size <= DATA
      requires s == base + currentHeap && s % PAGE == 0
      modifies this`mem, this`slabs, this`currentHeap
      ensures SmallOk() && s !in old(slabs) && s in slabs && slabs == old(slabs)[s := slabs[s]]
      ensures AllFree(slabs[s], size)
      ensures SameBut(old(mem), mem, s, s + PAGE) && Word32(mem, s + NEXT, 0) && Word32(mem, s + OFFSET, 0)
    {
      ghost var mem0, slabs0, view := mem, slabs, FreshView(s, size);
      FormatSlab(s, size);
      FreshAllFree(s, size);
      SmallGrows(base, mem0, mem, currentHeap, slabs0, s, view);
      CachesFrame(mem0, slabs0, mem, slabs0[s := view], caches, lists);
      currentHeap := currentHeap + PAGE;
      slabs := slabs[s := view];
    }

    /** `alloc_from_slab`, seen from the whole heap. */
    method TakeFrom(s: nat) returns (o: nat)
      requires SmallOk() && s in slabs
      modifies this`mem, this`slabs
      ensures SmallOk() && s in slabs
      ensures o == 0 ==> old(slabs)[s].free == [] && mem == old(mem) && slabs == old(slabs)
      ensures o != 0 ==> Took(old(slabs), slabs, s, o, old(slabs)[s].size)
      ensures o != 0 ==> Spares(old(mem), mem, old(slabs), 2 * base)
    {
      o := AllocFromSlab(s);
      if old(slabs)[s].free != [] {
        TakeKeepsSmall(base, old(mem), mem, currentHeap, old(slabs), s, caches, lists);
      }
    }

    /** Cache k gets a new slab at the front of its list. */
    method GrowCache(k: nat) returns (r: Result)
      requires SmallOk() && space.Valid() && k < NUM_CACHES
      modifies this`mem, this`currentHeap, this`slabs, this`caches, this`lists, space, space.pmm, space.pmm.bitmap
      ensures space.Valid() && space.Data() == old(space.Data()) && !r.Null?
      ensures r.Ptr? ==> SmallOk() && r.addr !in old(slabs) && r.addr in slabs
      ensures r.Ptr? ==> slabs == old(slabs)[r.addr := slabs[r.addr]] && AllFree(slabs[r.addr], SIZES[k])
      ensures r.Ptr? ==> Spares(old(mem), mem, old(slabs), 2 * base)
      ensures r.Ptr? ==> Extends(old(space.mem), space.mem, space.dir, base, old(slabs), slabs)
      ensures r.Ptr? ==> lists == old(lists)[k := [r.addr] + old(lists)[k]]
      ensures old(MayGive(r))
    {
      r := CreateSlab(SIZES[k]);
      if r.Ptr? {
        LinkSlab(k, r.addr, old(mem), old(slabs));
      }
    }

    /** `new_slab->next = cache->slabs; cache->slabs = new_slab`. */
    method LinkSlab(k: nat, s: nat, ghost mem0: Memory, ghost slabs0: map<nat, View>)
      requires SmallOk() && k < NUM_CACHES && s in slabs && slabs[s].size == SIZES[k]
      requires HeapInv(mem0, slabs0) && s !in slabs0 && CachesOk(mem0, slabs0, caches, lists)
      requires SameBut(mem0, mem, s, s + PAGE)
      modifies this`mem, this`caches, this`lists
      ensures SmallOk() && Spares(mem0, mem, slabs0, 2 * base)
      ensures lists == old(lists)[k := [s] + old(lists)[k]]
    {
      assert Rep(mem, s, slabs[s]);
      forall j | 0 <= j < NUM_CACHES ensures s !in lists[j] {
        assert ListOk(mem0, slabs0, caches[j], lists[j], SIZES[j]);
      }
      assert forall j :: 0 <= j < NUM_CACHES ==> ListOk(mem, slabs, caches[j], lists[j], SIZES[j]);
      var next := caches[k];
      HeadIsWord(mem, slabs, caches, lists, k);
      Poke(s + NEXT, next);
      PushSlab(old(mem), mem, slabs, caches, lists, k, s);
      NextKeepsHeap(old(mem), mem, slabs, s, next);
      PayloadFrame(mem0, mem, slabs0, s, s + PAGE);
      caches := caches[k := s];
      lists := lists[k := [s] + lists[k]];
    }

    /** `get_cache`: the smallest cache that fits. */
    method GetCache(size: nat) returns (k: nat)
      requires size <= MAX_CACHE_SIZE
      ensures Smallest(k, size)
    {
      k := 0;
      while SIZES[k] < size
        invariant k < NUM_CACHES && forall j :: 0 <= j < k ==> SIZES[j] < size
        decreases NUM_CACHES - k
      {
        k := k + 1;
      }
      forall c | c in SIZES && size <= c ensures SIZES[k] <= c {
        var j :| 0 <= j < |SIZES| && SIZES[j] == c;
      }
    }

    /** `alloc_from_cache`: first fit along the list, else a new slab. */
    method AllocFromCache(k: nat) returns (r: Result, ghost s: nat)
      requires SmallOk() && space.Valid() && k < NUM_CACHES
      modifies this`mem, this`currentHeap, this`slabs, this`caches, this`lists, space, space.pmm, space.pmm.bitmap
      ensures space.Valid() && space.Data() == old(space.Data()) && !r.Null?
      ensures r.Ptr? ==> SmallOk() && Took(old(slabs), slabs, s, r.addr, SIZES[k])
      ensures r.Ptr? ==> Spares(old(mem), mem, old(slabs), 2 * base)
      ensures r.Ptr? ==> Extends(old(space.mem), space.mem, space.dir, base, old(slabs), slabs)
      ensures old(MayGive(r))
      ensures !r.Ptr? ==> forall i :: 0 <= i < |old(lists)[k]| ==> FullSlab(old(slabs), old(lists)[k][i])
    {
      var o;
      o, s := FirstFit(k);
      if o != 0 {
        r := Ptr(o);
        StillThere(space.mem, space.dir, base, old(slabs), slabs);
      } else {
        r, s := GrowAndTake(k);
      }
    }

    /** The failure label of `alloc_from_cache`. */
    method GrowAndTake(k: nat) returns (r: Result, ghost s: nat)
      requires SmallOk() && space.Valid() && k < NUM_CACHES
      modifies this`mem, this`currentHeap, this`slabs, this`caches, this`lists, space, space.pmm, space.pmm.bitmap
      ensures space.Valid() && space.Data() == old(space.Data()) && !r.Null?
      ensures r.Ptr? ==> SmallOk() && Took(old(slabs), slabs, s, r.addr, SIZES[k])
      ensures r.Ptr? ==> Spares(old(mem), mem, old(slabs), 2 * base)
      ensures r.Ptr? ==> Extends(old(space.mem), space.mem, space.dir, base, old(slabs), slabs)
      ensures old(MayGive(r))
    {
      s := 0;
      r := GrowCache(k);
      if r.Ptr? {
        s := r.addr;
        ghost var mid, midSlabs := mem, slabs;
        var o := TakeFrom(r.addr);
        TookFromNew(old(slabs), midSlabs, slabs, s, o, SIZES[k]);
        SparesTwice(old(mem), mid, mem, old(slabs), midSlabs, 2 * base);
        ExtendsKeys(old(space.mem), space.mem, space.dir, base, old(slabs), midSlabs, slabs);
        r := Ptr(o);
      }
    }

    /** The loop over the list; a slab is passed only when it is full. */
    method FirstFit(k: nat) returns (o: nat, ghost s: nat)
      requires SmallOk() && k < NUM_CACHES
      modifies this`mem, this`slabs
      ensures SmallOk()
      ensures o == 0 ==> mem == old(mem) && slabs == old(slabs)
                         && forall i :: 0 <= i < |lists[k]| ==> FullSlab(slabs, lists[k][i])
      ensures o != 0 ==> Took(old(slabs), slabs, s, o, SIZES[k]) && Spares(old(mem), mem, old(slabs), 2 * base)
      ensures o != 0 ==> s in old(slabs)
    {
      o, s := 0, 0;
      var current := caches[k];
      ghost var i := 0;
      while current != 0 && o == 0
        invariant SmallOk() && i <= |lists[k]|
        invariant o == 0 ==> mem == old(mem) && slabs == old(slabs) && current == First(lists[k][i..])
                             && forall j :: 0 <= j < i ==> FullSlab(slabs, lists[k][j])
        invariant o != 0 ==> Took(old(slabs), slabs, s, o, SIZES[k]) && Spares(old(mem), mem, old(slabs), 2 * base)
        invariant o != 0 ==> s in old(slabs)
        decreases |lists[k]| - i
      {
        assert ListOk(mem, slabs, caches[k], lists[k], SIZES[k]);
        assert SlabInList(mem, slabs, lists[k][i], First(lists[k][i + 1..]), SIZES[k]);
        s := current;
        o := TakeFrom(current);
        if o == 0 {
          current := Load32(mem, current + NEXT);
        }
        i := i + 1;
      }
      assert ListOk(mem, slabs, caches[k], lists[k], SIZES[k]);
    }

    /** `kmalloc` of at most MAX_CACHE_SIZE bytes: the smallest cache that fits. */
    method SmallAlloc(size: nat) returns (r: Result, ghost s: nat, ghost k: nat)
      requires SmallOk() && space.Valid() && size <= MAX_CACHE_SIZE
      modifies this`mem, this`currentHeap, this`slabs, this`caches, this`lists, space, space.pmm, space.pmm.bitmap
      ensures space.Valid() && space.Data() == old(space.Data()) && !r.Null?
      ensures Smallest(k, size) && (r.Ptr? ==> SmallOk() && Took(old(slabs), slabs, s, r.addr, SIZES[k]))
      ensures r.Ptr? ==> Spares(old(mem), mem, old(slabs), 2 * base)
      ensures r.Ptr? ==> Extends(old(space.mem), space.mem, space.dir, base, old(slabs), slabs)
      ensures old(MayGive(r))
    {
      var cache := GetCache(size);
      k := cache;
      r, s := AllocFromCache(cache);
    }

    /** The kernel's own stores into a live object. */
    method PokeLive(o: nat, ghost size: nat, a: nat, w: Word)
      requires SmallOk() && IsLive(slabs, o, size) && o <= a && a + 4 <= o + size
      modifies this`mem
      ensures SmallOk() && Stored(old(mem), mem, a, w)
    {
      LiveInPage(mem, slabs, SlabOf(o), o);
      Poke(a, w);
      WriteInLive(old(mem), mem, slabs, o, size, a, a + 4);
      CachesFrame(old(mem), slabs, mem, slabs, caches, lists);
    }

    /** The stores of `create_large_alloc`. */
    method FillRecord(node: nat, page: nat, size: Word)
      requires SmallOk() && IsLive(slabs, node, RECORD) && page * PAGE < MEMORY_SIZE
      modifies this`mem
      ensures SmallOk() && SameBut(old(mem), mem, node, node + RECORD)
      ensures RecordWords(mem, Block(node, page, size, []), 0, 0)
    {
      PokeLive(node, RECORD, node + SIZE, size);
      ghost var a := mem;
      PokeLive(node, RECORD, node + PTR, page * PAGE);
      LoadFrame(a, mem, node + PTR, node + PTR + 4, node + SIZE);
      ghost var b := mem;
      PokeLive(node, RECORD, node + NEXT_RECORD, 0);
      LoadFrame(b, mem, node + NEXT_RECORD, node + NEXT_RECORD + 4, node + SIZE);
      LoadFrame(b, mem, node + NEXT_RECORD, node + NEXT_RECORD + 4, node + PTR);
      ghost var c := mem;
      PokeLive(node, RECORD, node + PREV_RECORD, 0);
      LoadFrame(c, mem, node + PREV_RECORD, node + PREV_RECORD + 4, node + SIZE);
      LoadFrame(c, mem, node + PREV_RECORD, node + PREV_RECORD + 4, node + PTR);
      LoadFrame(c, mem, node + PREV_RECORD, node + PREV_RECORD + 4, node + NEXT_RECORD);
    }

    /** `insert_large_alloc`. */
    method InsertLargeAlloc(ghost b: Block, node: nat)
      requires SmallOk() && RecordsOk(mem, slabs, largeList, blocks)
      requires node == b.node && node != 0 && IsLive(slabs, node, RECORD) && RecordWords(mem, b, 0, 0)
      requires forall i :: 0 <= i < |blocks| ==> blocks[i].node != node
      modifies this`mem, this`largeList, this`blocks
      ensures SmallOk() && blocks == [b] + old(blocks) && RecordsOk(mem, slabs, largeList, blocks)
      ensures ClientsKept(old(mem), mem, 2 * base, slabs, blocks)
    {
      LiveInPage(mem, slabs, SlabOf(node), node);
      ghost var all := [b] + blocks;
      assert all[0].node == node;
      if largeList == 0 {
        Inserted(mem, mem, slabs, 0, blocks, b);
        Unchanged(mem, 2 * base, slabs, all);
      } else {
        assert RecordAt(mem, slabs, blocks, 0);
        LiveInPage(mem, slabs, SlabOf(largeList), largeList);
        assert all[1].node == largeList;
        StoreLink(node, NEXT_RECORD, largeList, all);
        SetNext(old(mem), mem, b, 0, 0, largeList);
        RecordsOutside(old(mem), mem, slabs, largeList, blocks, node, RECORD);
        ghost var before := mem;
        StoreLink(largeList, PREV_RECORD, node, all);
        Inserted(before, mem, slabs, largeList, blocks, b);
        KeptTwice(old(mem), before, mem, 2 * base, slabs, all, slabs, all);
      }
      largeList := node;
      blocks := [b] + blocks;
    }

    /** `insert_large_alloc(create_large_alloc(size, ptr))`. */
    method AddRecord(page: nat, size: Word, ghost frames: seq<F.FrameNo>) returns (r: Result)
      requires SmallOk() && space.Valid() && RecordsOk(mem, slabs, largeList, blocks) && page * PAGE < MEMORY_SIZE
      modifies this`mem, this`currentHeap, this`slabs, this`caches, this`lists, this`largeList, this`blocks
      modifies space, space.pmm, space.pmm.bitmap
      ensures space.Valid() && space.Data() == old(space.Data()) && !r.Null?
      ensures r.Ptr? ==> SmallOk() && RecordsOk(mem, slabs, largeList, blocks)
      ensures r.Ptr? ==> blocks == [Block(r.addr, page, size, frames)] + old(blocks) && StillLive(old(slabs), slabs)
      ensures r.Ptr? ==> forall c :: !IsLive(old(slabs), r.addr, c)
      ensures r.Ptr? ==> ClientsKept(old(mem), mem, 2 * base, old(slabs), old(blocks))
      ensures r.Ptr? ==> Extends(old(space.mem), space.mem, space.dir, base, old(slabs), slabs)
      ensures old(MayGive(r))
    {
      ghost var s, k;
      r, s, k := SmallAlloc(RECORD);
      if r.Ptr? {
        assert SIZES[0] in SIZES;
        PlaceRecord(r.addr, s, page, size, frames, old(mem), old(slabs));
      }
    }

    method PlaceRecord(node: nat, ghost s: nat, page: nat, size: Word, ghost frames: seq<F.FrameNo>,
                       ghost mem0: Memory, ghost slabs0: map<nat, View>)
      requires SmallOk() && page * PAGE < MEMORY_SIZE && HeapInv(mem0, slabs0)
      requires RecordsOk(mem0, slabs0, largeList, blocks) && Spares(mem0, mem, slabs0, 2 * base)
      requires Took(slabs0, slabs, s, node, RECORD)
      modifies this`mem, this`largeList, this`blocks
      ensures SmallOk() && RecordsOk(mem, slabs, largeList, blocks) && StillLive(slabs0, slabs)
      ensures blocks == [Block(node, page, size, frames)] + old(blocks)
      ensures forall c :: !IsLive(slabs0, node, c)
      ensures ClientsKept(mem0, mem, 2 * base, slabs0, old(blocks))
    {
      TookKeepsLive(slabs0, slabs, s, node, RECORD);
      TookIsLive(mem0, mem, slabs0, slabs, s, node, RECORD);
      RecordsFrame(mem0, mem, slabs0, slabs, largeList, blocks);
      forall i | 0 <= i < |blocks| ensures blocks[i].node != node {
        assert RecordAt(mem0, slabs0, blocks, i);
      }
      FillRecord(node, page, size);
      RecordsOutside(old(mem), mem, slabs, largeList, blocks, node, RECORD);
      ghost var filled, b := mem, Block(node, page, size, frames);
      InsertLargeAlloc(b, node);
      PlacedClients(mem0, old(mem), filled, mem, slabs0, slabs, old(blocks), b);
    }

    /** The clients' bytes through the allocation, the filling and the linking of a
        record. */
    lemma PlacedClients(m: Memory, a: Memory, b: Memory, n: Memory, slabs0: map<nat, View>, more: map<nat, View>,
                        earlier: seq<Block>, block: Block)
      requires HeapInv(m, slabs0) && HeapInv(a, more) && Spares(m, a, slabs0, 2 * base) && StillLive(slabs0, more)
      requires IsLive(more, block.node, RECORD) && 2 * base <= block.node
      requires forall c :: !IsLive(slabs0, block.node, c)
      requires SameBut(a, b, block.node, block.node + RECORD) && ClientsKept(b, n, 2 * base, more, [block] + earlier)
      ensures ClientsKept(m, n, 2 * base, slabs0, earlier)
    {
      var all := [block] + earlier;
      assert all[0].node == block.node;
      SparedClients(m, a, 2 * base, slabs0, earlier);
      RecordStore(a, b, 2 * base, more, all, block.node, block.node, block.node + RECORD);
      KeptTwice(a, b, n, 2 * base, more, all, more, all);
      forall o | ClientObject(slabs0, earlier, o) ensures ClientObject(more, all, o) {
        RecordJoins(slabs0, more, earlier, block, o);
      }
      KeptTwice(m, a, n, 2 * base, slabs0, earlier, more, all);
    }

    // ---- The whole heap -------------------------------------------------

    ghost function Lo(): nat { (base + HEAP_SIZE) / PAGE }
    ghost function End(): nat { 2 * base / PAGE }

    ghost predicate LargeOk()
      requires space.Valid()
      reads this, space, space.pmm, space.pmm.bitmap
    {
      && currentLarge % PAGE == 0 && RecordsOk(mem, slabs, largeList, blocks)
      && Layout(blocks, Lo(), currentLarge / PAGE)
      && Mapped(blocks, space.mem, space.dir, space.Data(), currentLarge / PAGE, End())
    }

    /** Slabs, blocks and page tables are in order, and the frames behind slabs
        and blocks are their own: no byte has two names but those of the heap's
        range. */
    ghost predicate Valid()
      reads this, space, space.pmm, space.pmm.bitmap
    {
      SmallOk() && space.Valid() && LargeOk() && Backed()
    }

    /** See `HeapFrames`. */
    ghost predicate Backed()
      requires space.Valid()
      reads this, space, space.pmm, space.pmm.bitmap
    {
      BackedBy(space.mem, space.dir, base, slabs, space.Data(), blocks)
    }

    /** The request rounds up without wrapping and leaves the bump address at or
        below the slab region. */
    predicate LargeFits(size: nat)
      reads this
    {
      size + PAGE <= MEMORY_SIZE && currentLarge + Aligned(size) <= 2 * base
    }

    /** `kmalloc_large`. Null means out of frames: nothing has changed but page
        tables. */
    method KmallocLarge(size: nat) returns (r: Result)
      requires Valid() && MAX_CACHE_SIZE < size && LargeFits(size)
      modifies this`mem, this`currentHeap, this`currentLarge, this`slabs, this`caches, this`lists, this`largeList
      modifies this`blocks, space, space.pmm, space.pmm.bitmap
      ensures r.Returns() ==> Valid()
      ensures r.Null? ==> mem == old(mem) && slabs == old(slabs) && blocks == old(blocks)
      ensures r.Null? ==> currentLarge == old(currentLarge)
      ensures r.Null? ==> space.Data() == old(space.Data()) && L.SameOutside(old(space.mem), space.mem, space.dir, 0, 0)
      ensures r.Ptr? ==> r.addr == old(currentLarge) && currentLarge == old(currentLarge) + Aligned(size)
      ensures r.Ptr? ==> blocks != [] && blocks[1..] == old(blocks) && blocks[0].Ptr() == r.addr
      ensures r.Ptr? ==> blocks[0].size == size
      ensures r.Ptr? ==> Elements(blocks[0].frames) !! old(space.pmm.Used())
                         && space.Data() == old(space.Data()) + Elements(blocks[0].frames)
      ensures r.Ptr? ==> StillLive(old(slabs), slabs) && forall c :: !IsLive(old(slabs), blocks[0].node, c)
      ensures r.Ptr? ==> ClientsKept(old(mem), mem, 2 * base, old(slabs), old(blocks))
      ensures r.Null? ==> |F.FreeFrames(space.pmm.Used())| < Aligned(size) / PAGE
      ensures old(MayGive(r))
    {
      var n, page := Aligned(size) / PAGE, currentLarge / PAGE;
      LargeRoom(size);
      ghost var frames;
      var outcome;
      outcome, frames := L.MapFresh(space, page, n);
      if outcome.Mapped? {
        var p := currentLarge;
        Bump(page, n);
        r := RecordBlock(p, page, n, size, frames, old(space.mem), old(space.Data()));
      } else if outcome.NoMemory? {
        NothingMapped(blocks, old(space.mem), space.mem, space.dir, space.Data(), Lo(), page, End());
        NothingJoins(old(space.mem), space.mem, space.dir, base, slabs, base + currentHeap, space.Data(), blocks);
        r := Null;
      } else {
        r := Halt;
      }
    }

    /** The end of `kmalloc_large`, past the bump: insert the record and return p. */
    method RecordBlock(p: nat, page: nat, ghost n: nat, size: Word, ghost frames: seq<F.FrameNo>, ghost pm: P.Memory,
                       ghost data: set<F.FrameNo>)
        returns (r: Result)
      requires SmallOk() && space.Valid() && RecordsOk(mem, slabs, largeList, blocks)
      requires MAX_CACHE_SIZE < size && size + PAGE <= MEMORY_SIZE && n == |frames| && n * PAGE == Aligned(size)
      requires p == page * PAGE < MEMORY_SIZE && currentLarge % PAGE == 0 && currentLarge / PAGE == page + n <= End()
      requires Layout(blocks, Lo(), page)
      requires Mapped(blocks, pm, space.dir, data, page, End()) && L.SameOutside(pm, space.mem, space.dir, page, n)
      requires L.MapsTo(space.mem, space.dir, page, frames) && Distinct(frames) && 0 !in frames
      requires Elements(frames) !! data && space.Data() == data + Elements(frames)
      requires BackedBy(pm, space.dir, base, slabs, data, blocks)
      modifies this`mem, this`currentHeap, this`slabs, this`caches, this`lists, this`largeList, this`blocks
      modifies space, space.pmm, space.pmm.bitmap
      ensures !r.Null? && (r.Ptr? ==> r.addr == p && Valid() && space.Data() == old(space.Data()))
      ensures r.Ptr? ==> blocks != [] && blocks == [Block(blocks[0].node, page, size, frames)] + old(blocks)
      ensures r.Ptr? ==> StillLive(old(slabs), slabs) && forall c :: !IsLive(old(slabs), blocks[0].node, c)
      ensures r.Ptr? ==> ClientsKept(old(mem), mem, 2 * base, old(slabs), old(blocks))
      ensures old(MayGive(r))
    {
      ghost var mapped := space.mem;
      r := AddRecord(page, size, frames);
      if r.Ptr? {
        ghost var b := Block(r.addr, page, size, frames);
        BlockAdded(old(blocks), b, pm, mapped, space.mem, space.dir, base, old(slabs), slabs, base + old(currentHeap),
                   data);
        r := Ptr(p);
      }
    }

    method Bump(ghost page: nat, n: nat)
      requires SmallOk() && space.Valid() && currentLarge == page * PAGE
      modifies this`currentLarge
      ensures SmallOk() && space.Valid() && space.Data() == old(space.Data()) && space.mem == old(space.mem)
      ensures currentLarge == old(currentLarge) + n * PAGE && currentLarge % PAGE == 0
      ensures currentLarge / PAGE == page + n
    {
      currentLarge := currentLarge + n * PAGE;
    }

    /** `kmalloc_large` of a size whose rounding wraps: no page is mapped, the bump
        address stays, and the caller is given it all the same, record and all. */
    method KmallocWrapped(size: nat) returns (r: Result)
      requires Valid() && size < MEMORY_SIZE < size + PAGE
      modifies this`mem, this`currentHeap, this`slabs, this`caches, this`lists, this`largeList, this`blocks
      modifies space, space.pmm, space.pmm.bitmap
      ensures !r.Null? && old(MayGive(r))
      ensures Aligned(size) == 0
      ensures r.Ptr? ==> SmallOk() && r.addr == currentLarge && RecordsOk(mem, slabs, largeList, blocks)
      ensures r.Ptr? ==> blocks != [] && blocks == [Block(blocks[0].node, r.addr / PAGE, size, [])] + old(blocks)
      ensures r.Ptr? ==> space.Valid() && space.Data() == old(space.Data())
      ensures r.Ptr? && r.addr < 2 * base ==> L.Unmapped(space.mem, space.dir, r.addr / PAGE, 1)
    {
      AlignedCovers(size);
      var page := currentLarge / PAGE;
      TopPage(page);
      r := AddRecord(page, size, []);
      if r.Ptr? {
        StillUnmapped(old(space.mem), space.mem, space.dir, page, End());
        r := Ptr(currentLarge);
      }
    }

    lemma TopPage(page: nat)
      requires Valid() && page == currentLarge / PAGE
      ensures page * PAGE == currentLarge < MEMORY_SIZE && page <= End() && (currentLarge < 2 * base <==> page < End())
    {
      AlignedSum(base, base);
    }

    lemma LargeRoom(size: nat)
      requires BaseOk(base) && currentLarge % PAGE == 0 && 0 < size && LargeFits(size)
      ensures Aligned(size) % PAGE == 0 && size <= Aligned(size) && Aligned(size) / PAGE * PAGE == Aligned(size)
      ensures (currentLarge + Aligned(size)) / PAGE == currentLarge / PAGE + Aligned(size) / PAGE <= End()
      ensures currentLarge / PAGE * PAGE == currentLarge < MEMORY_SIZE
    {
      AlignedCovers(size);
      AlignedSum(currentLarge, Aligned(size));
    }

    /** `get_large_alloc_by_ptr`: the first record with this pointer; 0 is NULL. */
    method GetLargeAllocByPtr(ptr: nat) returns (node: nat, ghost i: nat)
      requires RecordsOk(mem, slabs, largeList, blocks)
      ensures node != 0 ==> i < |blocks| && blocks[i].Ptr() == ptr && node == blocks[i].node
      ensures node == 0 ==> forall k :: 0 <= k < |blocks| ==> blocks[k].Ptr() != ptr
    {
      node, i := largeList, 0;
      var found := false;
      while node != 0 && !found
        invariant i <= |blocks| && node == NodeAt(blocks, i)
        invariant found ==> i < |blocks| && blocks[i].Ptr() == ptr
        invariant !found ==> forall k :: 0 <= k < i ==> blocks[k].Ptr() != ptr
        decreases |blocks| - i, !found
      {
        assert RecordAt(mem, slabs, blocks, i);
        if Load32(mem, node + PTR) == ptr {
          found := true;
        } else {
          node := Load32(mem, node + NEXT_RECORD);
          i := i + 1;
        }
      }
      assert i < |blocks| ==> RecordAt(mem, slabs, blocks, i);
    }

    /** `large_alloc_remove` up to the release of the record. */
    method LargeAllocRemove(node: nat, ghost i: nat)
      requires SmallOk() && RecordsOk(mem, slabs, largeList, blocks) && i < |blocks| && node == blocks[i].node
      modifies this`mem, this`largeList, this`blocks
      ensures SmallOk() && blocks == Without(old(blocks), i) && RecordsOk(mem, slabs, largeList, blocks)
      ensures Cleared(mem, node) && ClientsKept(old(mem), mem, 2 * base, slabs, old(blocks))
    {
      ghost var bs := blocks;
      UnlinkRecord(node, i);
      ghost var linked := mem;
      ClearRecord(node, bs);
      KeptTwice(old(mem), linked, mem, 2 * base, slabs, bs, slabs, bs);
    }

    /** Its neighbours, or the head, are linked to each other. */
    method UnlinkRecord(node: nat, ghost i: nat)
      requires SmallOk() && RecordsOk(mem, slabs, largeList, blocks) && i < |blocks| && node == blocks[i].node
      modifies this`mem, this`largeList, this`blocks
      ensures SmallOk() && blocks == Without(old(blocks), i) && RecordsOk(mem, slabs, largeList, blocks)
      ensures IsLive(slabs, node, RECORD) && !ClientObject(slabs, old(blocks), node)
      ensures forall k :: 0 <= k < |blocks| ==> blocks[k].node != node
      ensures ClientsKept(old(mem), mem, 2 * base, slabs, old(blocks))
    {
      Neighbours(mem, slabs, largeList, blocks, i);
      NodesAreNoClients(slabs, blocks, i - 1);
      NodesAreNoClients(slabs, blocks, i + 1);
      var prev, next := Load32(mem, node + PREV_RECORD), Load32(mem, node + NEXT_RECORD);
      ghost var mid;
      mid := StoreLinks(prev, next, blocks);
      Removed(old(mem), mid, mem, slabs, largeList, blocks, i);
      if prev == 0 {
        largeList := next;
      }
      WithoutDistinct(blocks, i);
      blocks := Without(blocks, i);
    }

    /** The neighbours of a removed record are linked to each other. */
    method StoreLinks(prev: nat, next: nat, ghost bs: seq<Block>) returns (ghost mid: Memory)
      requires SmallOk() && prev < MEMORY_SIZE && next < MEMORY_SIZE
      requires prev != 0 ==> IsLive(slabs, prev, RECORD) && !ClientObject(slabs, bs, prev)
      requires next != 0 ==> IsLive(slabs, next, RECORD) && !ClientObject(slabs, bs, next)
      modifies this`mem
      ensures SmallOk() && |mid| == |mem|
      ensures if prev == 0 then mid == old(mem) else Stored(old(mem), mid, prev + NEXT_RECORD, next)
      ensures if next == 0 then mem == mid else Stored(mid, mem, next + PREV_RECORD, prev)
      ensures ClientsKept(old(mem), mem, 2 * base, slabs, bs)
    {
      StoreLink(prev, NEXT_RECORD, next, bs);
      mid := mem;
      StoreLink(next, PREV_RECORD, prev, bs);
      KeptTwice(old(mem), mid, mem, 2 * base, slabs, bs, slabs, bs);
    }

    /** One link, if there is a record to hold it. */
    method StoreLink(node: nat, field: nat, w: Word, ghost bs: seq<Block>)
      requires SmallOk() && field + 4 <= RECORD
      requires node != 0 ==> IsLive(slabs, node, RECORD) && !ClientObject(slabs, bs, node)
      modifies this`mem
      ensures SmallOk() && if node == 0 then mem == old(mem) else Stored(old(mem), mem, node + field, w)
      ensures ClientsKept(old(mem), mem, 2 * base, slabs, bs)
    {
      if node != 0 {
        LiveInPage(mem, slabs, SlabOf(node), node);
        PokeLive(node, RECORD, node + field, w);
        RecordStore(old(mem), mem, 2 * base, slabs, bs, node, node + field, node + field + 4);
      } else {
        Unchanged(mem, 2 * base, slabs, bs);
      }
    }

    /** The record's own next, prev and ptr are cleared. */
    method ClearRecord(node: nat, ghost bs: seq<Block>)
      requires SmallOk() && RecordsOk(mem, slabs, largeList, blocks) && IsLive(slabs, node, RECORD)
      requires forall k :: 0 <= k < |blocks| ==> blocks[k].node != node
      requires !ClientObject(slabs, bs, node)
      modifies this`mem
      ensures SmallOk() && RecordsOk(mem, slabs, largeList, blocks) && Cleared(mem, node)
      ensures ClientsKept(old(mem), mem, 2 * base, slabs, bs)
    {
      PokeLive(node, RECORD, node + NEXT_RECORD, 0);
      ghost var a := mem;
      PokeLive(node, RECORD, node + PREV_RECORD, 0);
      ghost var b := mem;
      PokeLive(node, RECORD, node + PTR, 0);
      ClearedWords(a, b, mem, node);
      RecordsOutside(old(mem), mem, slabs, largeList, blocks, node, RECORD);
      LiveInPage(old(mem), slabs, SlabOf(node), node);
      RecordStore(old(mem), mem, 2 * base, slabs, bs, node, node, node + RECORD);
    }

    /** Where `mem` keeps the byte at address a. `vmm_init` maps the heap's range
        onto itself and `create_slab` maps base + c onto c, so an address of that
        range and the one base above it are the same byte; it is kept under the
        higher name. */
    function Name(a: nat): nat { if base <= a < base + HEAP_SIZE then a + base else a }

    /** A word store by such addresses, byte by byte: at the end of the range the
        names of neighbouring bytes are far apart. */
    method PokeNamed(a: nat, w: Word)
      requires BaseOk(base) && |mem| == MEMORY_SIZE && base <= a <= base + HEAP_SIZE
      modifies this`mem
      ensures SameButTwo(old(mem), mem, Name(a), Name(a) + 4, base + HEAP_SIZE, base + HEAP_SIZE + 4)
      ensures Name(a + 3) == Name(a) + 3 ==> Stored(old(mem), mem, Name(a), w)
    {
      var x := w / 0x100;
      var y := x / 0x100;
      mem := mem[Name(a) := w % 0x100][Name(a + 1) := x % 0x100][Name(a + 2) := y % 0x100][Name(a + 3) := y / 0x100];
    }

    /** `slab_free` on an address `kfree` took for a slab object. */
    method StraySlabFree(o: nat)
      requires BaseOk(base) && |mem| == MEMORY_SIZE && base <= o <= base + HEAP_SIZE
      modifies this`mem
      ensures |mem| == MEMORY_SIZE && Load32(mem, Name(SlabOf(o)) + FREE_LIST) == o
      ensures o < base + HEAP_SIZE ==> Strayed(old(mem), mem, SlabOf(o) + base)
      ensures o == base + HEAP_SIZE ==> FirstWordsGone(old(mem), mem, o)
    {
      var slab := Name(SlabOf(o));
      StrayPage(o);
      PokeNamed(o, Load32(mem, slab + FREE_LIST));
      ghost var mid := mem;
      Poke(slab + FREE_LIST, o);
      ghost var last := mem;
      Poke(slab + FREE_COUNT, (Load32(mem, slab + FREE_COUNT) + 1) % MEMORY_SIZE);
      LoadFrame(last, mem, slab + FREE_COUNT, slab + FREE_COUNT + 4, slab + FREE_LIST);
      if o == base + HEAP_SIZE {
        LoadFrame(old(mem), mid, o, o + 4, o + FREE_COUNT);
        LoadFrame(mid, last, o + FREE_LIST, o + FREE_LIST + 4, o);
        LoadFrame(mid, last, o + FREE_LIST, o + FREE_LIST + 4, o + FREE_COUNT);
        LoadFrame(last, mem, o + FREE_COUNT, o + FREE_COUNT + 4, o);
      }
    }

    /** Only the page at s, and at most a word beyond it or past the heap's range,
        is touched. */
    ghost predicate Strayed(m: Memory, n: Memory, s: nat)
    {
      SameButTwo(m, n, s, s + PAGE + 4, base + HEAP_SIZE, base + HEAP_SIZE + 4)
    }

    lemma StrayPage(o: nat)
      requires BaseOk(base) && base <= o <= base + HEAP_SIZE
      ensures var s := Name(SlabOf(o));
              && s % PAGE == 0 && s <= Name(o) < s + PAGE && s + 2 * PAGE <= MEMORY_SIZE
              && if o < base + HEAP_SIZE then s == SlabOf(o) + base && 2 * base <= s else s == o == base + HEAP_SIZE
    {
      AlignedSum(base, HEAP_SIZE);
      AlignedSum(SlabOf(o), base);
    }

    /** What happens to the page at p, the first after the heap range: its first
        words overwritten as if they were a slab's. */
    ghost predicate FirstWordsGone(m: Memory, n: Memory, p: nat)
    {
      && p + 16 <= |m| && SameBut(m, n, p, p + 16)
      && Load32(n, p) == Load32(m, p + FREE_LIST) && Load32(n, p + FREE_LIST) == p
      && Load32(n, p + FREE_COUNT) == (Load32(m, p + FREE_COUNT) + 1) % MEMORY_SIZE
    }

    /** Address ptr is a byte of a slab, by the identity mapping. */
    ghost predicate HitsSlab(ptr: nat)
      reads this
    {
      base <= ptr < base + HEAP_SIZE && ptr < currentHeap
    }

    /** Such a free leaves a page that is no slab any more. */
    lemma HitSlabIsGone(m: Memory, ptr: nat)
      requires BaseOk(base) && Dense(slabs, 2 * base, base + currentHeap) && HitsSlab(ptr)
      requires |m| == MEMORY_SIZE && Load32(m, Name(SlabOf(ptr)) + FREE_LIST) == ptr
      ensures SlabOf(ptr) + base in slabs && NoSlab(m, SlabOf(ptr) + base)
    {
      StrayPage(ptr);
      assert PageIn(SlabOf(ptr) + base, 2 * base, base + currentHeap);
      ForeignHead(m, SlabOf(ptr) + base, ptr);
    }

    /** Any other stray free touches no slab. */
    lemma StrayElsewhere(m: Memory, n: Memory, ptr: nat)
      requires BaseOk(base) && Small(base, m, currentHeap, slabs) && base <= ptr <= base + HEAP_SIZE && !HitsSlab(ptr)
      requires if ptr < base + HEAP_SIZE then Strayed(m, n, SlabOf(ptr) + base) else FirstWordsGone(m, n, ptr)
      ensures SparesSlabs(m, n, slabs)
    {
      StrayAbove(ptr);
      forall s | s in slabs ensures SamePage(m, n, s) {
        assert 2 * base <= s && s + PAGE <= base + currentHeap;
      }
    }

    lemma StrayAbove(ptr: nat)
      requires BaseOk(base) && currentHeap % PAGE == 0 && base <= ptr <= base + HEAP_SIZE && !HitsSlab(ptr)
      ensures ptr < base + HEAP_SIZE ==> currentHeap <= SlabOf(ptr)
      ensures base + HEAP_SIZE + PAGE <= 2 * base
    {
      AlignedSum(base, HEAP_SIZE);
      if SlabOf(ptr) != currentHeap && ptr < base + HEAP_SIZE {
        PagesApart(SlabOf(ptr), currentHeap);
      }
    }

    /** The block whose pointer `kfree` would release through the large path. */
    ghost predicate IsBlock(bs: seq<Block>, i: nat, ptr: nat) { i < |bs| && bs[i].Ptr() == ptr }

    /** `_kmalloc_large_free`. It releases exactly the frames and pages of the
        block; the block's record goes through `kfree` and stays allocated. */
    method LargeFree(ptr: nat) returns (ok: bool, ghost i: nat)
      requires Valid() && ptr < MEMORY_SIZE
      modifies this`mem, this`largeList, this`blocks, space, space.pmm, space.pmm.bitmap
      ensures Valid() && slabs == old(slabs) && currentLarge == old(currentLarge)
      ensures ok ==> IsBlock(old(blocks), i, ptr) && blocks == Without(old(blocks), i)
      ensures ok ==> space.Data() == old(space.Data()) - Elements(old(blocks)[i].frames)
      ensures ok ==> ClientsKept(old(mem), mem, 2 * base, slabs, old(blocks))
      ensures ok ==> var b := old(blocks)[i];
                     && L.Unmapped(space.mem, space.dir, b.page, |b.frames|)
                     && L.SameOutside(old(space.mem), space.mem, space.dir, b.page, |b.frames|)
      ensures !ok ==> mem == old(mem) && blocks == old(blocks) && space.mem == old(space.mem)
      ensures !ok ==> space.Data() == old(space.Data())
      ensures !ok ==> forall k :: 0 <= k < |blocks| ==> !IsBlock(blocks, k, ptr)
      decreases |blocks|, 0
    {
      ok := false;
      var node := 0;
      i := 0;
      if ptr != 0 {
        node, i := GetLargeAllocByPtr(ptr);
      } else {
        NoNullBlock();
      }
      if node != 0 {
        Release(ptr, node, i);
        SmallIsNoBlock(node, RECORD);
        ghost var none;
        none := Kfree(node);
        ok := true;
      }
    }

    /** Block i goes, pages, frames and record; its record is still allocated. */
    method Release(ptr: nat, node: nat, ghost i: nat)
      requires Valid() && IsBlock(blocks, i, ptr) && node == blocks[i].node
      modifies this`mem, this`largeList, this`blocks, space, space.pmm, space.pmm.bitmap
      ensures Valid() && blocks == Without(old(blocks), i) && IsLive(slabs, node, RECORD)
      ensures space.Data() == old(space.Data()) - Elements(old(blocks)[i].frames)
      ensures ClientsKept(old(mem), mem, 2 * base, slabs, old(blocks))
      ensures var b := old(blocks)[i];
              && L.Unmapped(space.mem, space.dir, b.page, |b.frames|)
              && L.SameOutside(old(space.mem), space.mem, space.dir, b.page, |b.frames|)
    {
      assert RecordAt(mem, slabs, blocks, i);
      ReleasePages(ptr, node, i);
      MappedShrinks(blocks, i, old(space.mem), space.mem, space.dir, old(space.Data()), Lo(), currentLarge / PAGE,
                    End());
      assert BlockPlaced(blocks[i], Lo(), currentLarge / PAGE);
      BlockLeaves(old(space.mem), space.mem, space.dir, base, slabs, base + currentHeap, old(space.Data()), blocks, i);
      LargeAllocRemove(node, i);
    }

    lemma NoNullBlock()
      requires Valid()
      ensures forall k :: 0 <= k < |blocks| ==> !IsBlock(blocks, k, 0)
    {
      forall k | 0 <= k < |blocks| ensures !IsBlock(blocks, k, 0) {
        assert BlockPlaced(blocks[k], Lo(), currentLarge / PAGE);
      }
    }

    /** Slab objects lie above every large block, so the large path never finds
        one; in particular `kfree` of a record finds nothing. */
    lemma SmallIsNoBlock(o: nat, size: nat)
      requires Valid() && IsLive(slabs, o, size)
      ensures base + HEAP_SIZE < o < MEMORY_SIZE
      ensures forall k :: 0 <= k < |blocks| ==> !IsBlock(blocks, k, o)
    {
      LiveInPage(mem, slabs, SlabOf(o), o);
      forall k | 0 <= k < |blocks| ensures !IsBlock(blocks, k, o) {
        assert BlockPlaced(blocks[k], Lo(), currentLarge / PAGE);
      }
    }

    /** The unmapping loop of `_kmalloc_large_free`. */
    method ReleasePages(ptr: nat, node: nat, ghost i: nat)
      requires Valid() && IsBlock(blocks, i, ptr) && node == blocks[i].node
      modifies space, space.pmm, space.pmm.bitmap
      ensures space.Valid() && space.Data() == old(space.Data()) - Elements(blocks[i].frames)
      ensures L.Unmapped(space.mem, space.dir, blocks[i].page, |blocks[i].frames|)
      ensures L.SameOutside(old(space.mem), space.mem, space.dir, blocks[i].page, |blocks[i].frames|)
    {
      assert RecordAt(mem, slabs, blocks, i);
      assert BlockPlaced(blocks[i], Lo(), currentLarge / PAGE);
      assert BlockMapped(blocks[i], space.mem, space.dir, space.Data());
      var size := Load32(mem, node + SIZE);
      var aligned := Aligned(size);
      L.UnmapRange(space, ptr / PAGE, aligned / PAGE, blocks[i].frames);
    }

    /** `kfree`. Because slab addresses carry the base twice, no live small
        object is ever in the range it takes for slabs, and none is a large
        block: `slabs` never changes. The heap survives exactly when the pointer
        does not name a slab by the heap range's identity mapping. */
    method Kfree(ptr: nat) returns (ghost i: nat)
      requires Valid() && ptr < MEMORY_SIZE
      modifies this`mem, this`largeList, this`blocks, space, space.pmm, space.pmm.bitmap
      ensures Valid() <==> !HitsSlab(ptr)
      ensures HitsSlab(ptr) ==> SlabOf(ptr) + base in slabs && NoSlab(mem, SlabOf(ptr) + base)
      ensures Releases(old(blocks), ptr) ==> IsBlock(old(blocks), i, ptr) && blocks == Without(old(blocks), i)
      ensures Releases(old(blocks), ptr) ==> space.Valid()
      ensures Releases(old(blocks), ptr) ==> space.Data() == old(space.Data()) - Elements(old(blocks)[i].frames)
      ensures !Releases(old(blocks), ptr) ==> blocks == old(blocks) && space.mem == old(space.mem)
      ensures !Releases(old(blocks), ptr) ==> space.Valid() && space.Data() == old(space.Data())
      ensures !Releases(old(blocks), ptr) && !(base <= ptr <= base + HEAP_SIZE) ==> mem == old(mem)
      ensures ptr == base + HEAP_SIZE ==> FirstWordsGone(old(mem), mem, ptr)
      decreases |blocks|, 1
    {
      i := 0;
      if ptr != 0 {
        if ptr < base || ptr > base + HEAP_SIZE {
          var ok;
          ok, i := LargeFree(ptr);
        } else {
          KfreeInRange(ptr);
        }
      } else {
        NoNullBlock();
      }
    }

    /** `kfree` of this pointer releases a block. */
    ghost predicate Releases(bs: seq<Block>, ptr: nat)
    {
      !(base <= ptr <= base + HEAP_SIZE) && exists k: nat :: IsBlock(bs, k, ptr)
    }

    method KfreeInRange(ptr: nat)
      requires Valid() && base <= ptr <= base + HEAP_SIZE
      modifies this`mem
      ensures Valid() <==> !HitsSlab(ptr)
      ensures HitsSlab(ptr) ==> SlabOf(ptr) + base in slabs && NoSlab(mem, SlabOf(ptr) + base)
      ensures ptr == base + HEAP_SIZE ==> FirstWordsGone(old(mem), mem, ptr)
    {
      StraySlabFree(ptr);
      if HitsSlab(ptr) {
        HitSlabIsGone(mem, ptr);
        assert !Rep(mem, SlabOf(ptr) + base, slabs[SlabOf(ptr) + base]);
      } else {
        StrayElsewhere(old(mem), mem, ptr);
        Spared(old(mem), mem, slabs);
        CachesFrame(old(mem), slabs, mem, slabs, caches, lists);
        RecordsFrame(old(mem), mem, slabs, slabs, largeList, blocks);
      }
    }

    /** The one pointer `kmalloc` hands out in that range is the first large
        block's: freeing it keeps the block and its frames and overwrites its
        first words. */
    method KfreeFirstBlock(ghost k: nat)
      requires Valid() && IsBlock(blocks, k, base + HEAP_SIZE)
      modifies this`mem, this`largeList, this`blocks, space, space.pmm, space.pmm.bitmap
      ensures Valid() && blocks == old(blocks) && space.mem == old(space.mem) && space.Data() == old(space.Data())
      ensures FirstWordsGone(old(mem), mem, base + HEAP_SIZE)
    {
      ghost var none;
      none := Kfree(base + HEAP_SIZE);
    }

    // ---- Runs of calls: what the callers hold ---------------------------

    /** Every grant is a live slab object or a mapped block, long enough. */
    ghost predicate GrantsOk()
      reads this
    {
      Grants(granted, slabs, blocks) && InMemory(mem, granted)
    }

    /** What the callers see of the heap: their results and the bytes in them. */
    ghost function Held(): map<nat, seq<Byte>>
      requires GrantsOk()
      reads this
    {
      Contents(mem, granted)
    }

    /** The loop of `init_kmalloc`: one slab for each cache. The pages up to the
        slab region must be unmapped. */
    method Init() returns (ok: bool)
      requires SmallOk() && space.Valid() && slabs == map[] && blocks == [] && granted == map[] && largeList == 0
      requires currentLarge == base + HEAP_SIZE && L.Unmapped(space.mem, space.dir, Lo(), End() - Lo()) && Backed()
      modifies this`mem, this`currentHeap, this`slabs, this`caches, this`lists, space, space.pmm, space.pmm.bitmap
      ensures ok ==> Valid() && GrantsOk() && space.Data() == old(space.Data())
      ensures ok ==> NoneLive(slabs, NUM_CACHES)
    {
      ok := FillCaches();
      if ok {
        FirstLayout();
      }
    }

    method FillCaches() returns (ok: bool)
      requires SmallOk() && space.Valid() && slabs == map[]
      modifies this`mem, this`currentHeap, this`slabs, this`caches, this`lists, space, space.pmm, space.pmm.bitmap
      ensures ok ==> SmallOk() && space.Valid() && space.Data() == old(space.Data())
      ensures ok ==> NoneLive(slabs, NUM_CACHES)
      ensures ok ==> Extends(old(space.mem), space.mem, space.dir, base, old(slabs), slabs)
    {
      ok := true;
      var i := 0;
      while ok && i < NUM_CACHES
        invariant i <= NUM_CACHES && space.Valid() && space.Data() == old(space.Data())
        invariant ok ==> SmallOk() && NoneLive(slabs, i)
        invariant ok ==> Extends(old(space.mem), space.mem, space.dir, base, old(slabs), slabs)
        decreases ok, NUM_CACHES - i
      {
        ghost var before, was := space.mem, slabs;
        var r := GrowCache(i);
        ok := r.Ptr?;
        if ok {
          ExtendsTwice(old(space.mem), before, space.mem, space.dir, base, old(slabs), was, slabs);
          OneMore(was, slabs, r.addr, SIZES[i], i);
        }
        i := i + 1;
      }
    }

    lemma FirstLayout()
      requires BaseOk(base)
      ensures Lo() * PAGE == base + HEAP_SIZE && Lo() <= End() && (base + HEAP_SIZE) % PAGE == 0
    {
      AlignedSum(base, HEAP_SIZE);
    }

    method Kmalloc(size: nat) returns (r: Result)
      requires Valid() && GrantsOk() && size < MEMORY_SIZE
      requires size > MAX_CACHE_SIZE ==> LargeFits(size)
      modifies this, space, space.pmm, space.pmm.bitmap
      ensures r.Returns() ==> Valid() && GrantsOk()
      ensures r.Null? ==> granted == old(granted) && Held() == old(Held()) && size > MAX_CACHE_SIZE
      ensures r.Null? ==> |F.FreeFrames(space.pmm.Used())| < Aligned(size) / PAGE
      ensures old(MayGive(r))
      ensures r.Ptr? ==> r.addr !in old(granted) && granted == old(granted)[r.addr := size] && r.addr + size <= |mem|
      ensures r.Ptr? ==> Held() == old(Held())[r.addr := mem[r.addr..r.addr + size]]
    {
      if size > MAX_CACHE_SIZE {
        r := KmallocBig(size);
      } else {
        r := KmallocSmall(size);
      }
    }

    /** The large path, keeping what the callers hold. */
    method KmallocBig(size: nat) returns (r: Result)
      requires Valid() && GrantsOk() && MAX_CACHE_SIZE < size && LargeFits(size)
      modifies this, space, space.pmm, space.pmm.bitmap
      ensures r.Returns() ==> Valid() && GrantsOk()
      ensures r.Null? ==> granted == old(granted) && Held() == old(Held())
      ensures r.Null? ==> |F.FreeFrames(space.pmm.Used())| < Aligned(size) / PAGE
      ensures old(MayGive(r))
      ensures r.Ptr? ==> r.addr !in old(granted) && granted == old(granted)[r.addr := size] && r.addr + size <= |mem|
      ensures r.Ptr? ==> Held() == old(Held())[r.addr := mem[r.addr..r.addr + size]]
    {
      r := NewBlock(size);
      if r.Ptr? {
        Granted(r.addr, size, old(mem));
      }
    }

    /** A block for the large path, the whole heap kept valid. */
    method NewBlock(size: nat) returns (r: Result)
      requires Valid() && GrantsOk() && MAX_CACHE_SIZE < size && LargeFits(size)
      modifies this`mem, this`currentHeap, this`currentLarge, this`slabs, this`caches, this`lists, this`largeList
      modifies this`blocks, space, space.pmm, space.pmm.bitmap
      ensures r.Returns() ==> Valid() && (r.Null? ==> GrantsOk() && mem == old(mem))
      ensures r.Null? ==> |F.FreeFrames(space.pmm.Used())| < Aligned(size) / PAGE
      ensures r.Ptr? ==> r.addr !in granted && Grants(granted[r.addr := size], slabs, blocks)
      ensures r.Ptr? ==> BytesKept(old(mem), mem, granted) && r.addr + size <= |mem|
      ensures old(MayGive(r))
    {
      r := KmallocLarge(size);
      if r.Ptr? {
        ghost var b := blocks[0];
        assert blocks == [b] + old(blocks) && BlockPlaced(b, Lo(), currentLarge / PAGE);
        AlignedCovers(size);
        GrantLarge(granted, old(slabs), slabs, old(blocks), b, Lo(), size, 2 * base, base + old(currentHeap));
        GrantsKept(old(mem), mem, granted, old(slabs), old(blocks), Lo(), old(currentLarge) / PAGE, 2 * base);
      }
    }

    /** The small path. */
    method KmallocSmall(size: nat) returns (r: Result)
      requires Valid() && GrantsOk() && size <= MAX_CACHE_SIZE
      modifies this, space, space.pmm, space.pmm.bitmap
      ensures !r.Null? && (r.Ptr? ==> Valid() && GrantsOk())
      ensures old(MayGive(r))
      ensures r.Ptr? ==> r.addr !in old(granted) && granted == old(granted)[r.addr := size] && r.addr + size <= |mem|
      ensures r.Ptr? ==> Held() == old(Held())[r.addr := mem[r.addr..r.addr + size]]
    {
      r := NewObject(size);
      if r.Ptr? {
        Granted(r.addr, size, old(mem));
      }
    }

    /** An object for the small path, the whole heap kept valid. */
    method NewObject(size: nat) returns (r: Result)
      requires Valid() && GrantsOk() && size <= MAX_CACHE_SIZE
      modifies this`mem, this`currentHeap, this`slabs, this`caches, this`lists, space, space.pmm, space.pmm.bitmap
      ensures !r.Null? && (r.Ptr? ==> Valid() && r.addr !in granted && Grants(granted[r.addr := size], slabs, blocks))
      ensures r.Ptr? ==> BytesKept(old(mem), mem, granted) && r.addr + size <= |mem|
      ensures old(MayGive(r))
    {
      ghost var s, k;
      r, s, k := SmallAlloc(size);
      if r.Ptr? {
        TookKeepsLive(old(slabs), slabs, s, r.addr, SIZES[k]);
        TookIsLive(old(mem), mem, old(slabs), slabs, s, r.addr, SIZES[k]);
        LiveInPage(mem, slabs, s, r.addr);
        RecordsFrame(old(mem), mem, old(slabs), slabs, largeList, blocks);
        MappedFrame(blocks, old(space.mem), space.mem, space.dir, space.Data(), Lo(), currentLarge / PAGE, End());
        GrantSmall(granted, old(mem), old(slabs), slabs, largeList, blocks, Lo(), currentLarge / PAGE, r.addr, size,
                   2 * base);
        SparedClients(old(mem), mem, 2 * base, old(slabs), blocks);
        GrantsKept(old(mem), mem, granted, old(slabs), blocks, Lo(), currentLarge / PAGE, 2 * base);
      }
    }

    /** The result joins what the callers hold. */
    method Granted(p: nat, size: nat, ghost m: Memory)
      requires Valid() && Grants(granted[p := size], slabs, blocks) && p !in granted && p + size <= |mem|
      requires InMemory(m, granted) && BytesKept(m, mem, granted)
      modifies this`granted
      ensures Valid() && GrantsOk() && granted == old(granted)[p := size]
      ensures Held() == Contents(m, old(granted))[p := mem[p..p + size]]
    {
      ContentsGrow(m, mem, granted, p, size);
      granted := granted[p := size];
    }

    /** A result leaves it. */
    method Ungranted(p: nat, ghost m: Memory)
      requires Valid() && Grants(granted - {p}, slabs, blocks)
      requires InMemory(m, granted) && BytesKept(m, mem, granted - {p})
      modifies this`granted
      ensures Valid() && GrantsOk() && granted == old(granted) - {p}
      ensures Held() == Contents(m, old(granted)) - {p}
    {
      ContentsShrink(m, mem, granted, p);
      granted := granted - {p};
    }

    /** `slab_free` of a granted object on the slab its address masks to. */
    method FreeSmall(o: nat)
      requires Valid() && GrantsOk() && o in granted && SmallGrant(slabs, blocks, o, granted[o])
      modifies this`mem, this`slabs, this`granted
      ensures Valid() && GrantsOk() && granted == old(granted) - {o} && blocks == old(blocks)
      ensures Held() == old(Held()) - {o}
    {
      ghost var s := SlabOf(o);
      GiveBack(o);
      GrantsAfterFree(granted, old(slabs), blocks, s, o);
      GrantsKept(old(mem), mem, granted - {o}, slabs, blocks, Lo(), currentLarge / PAGE, 2 * base);
      BackedKeys(space.mem, space.dir, base, old(slabs), slabs);
      Ungranted(o, old(mem));
    }

    /** The object leaves its slab; caches and records stand. */
    method GiveBack(o: nat)
      requires SmallOk() && RecordsOk(mem, slabs, largeList, blocks) && SlabOf(o) in slabs && o in slabs[SlabOf(o)].live
      requires forall i :: 0 <= i < |blocks| ==> blocks[i].node != o
      modifies this`mem, this`slabs
      ensures SmallOk() && RecordsOk(mem, slabs, largeList, blocks) && SlabOf(o) in old(slabs)
      ensures slabs == old(slabs)[SlabOf(o) := Freed(old(slabs)[SlabOf(o)], o)]
      ensures ClientsKept(old(mem), mem, 2 * base, slabs, blocks)
    {
      SlabFree(SlabOf(o), o);
      FreeKeepsSmall(base, old(mem), mem, currentHeap, old(slabs), SlabOf(o), o, caches, lists);
      RecordsAfterFree(old(mem), mem, old(slabs), SlabOf(o), o, largeList, blocks);
      FreedClients(old(mem), mem, 2 * base, old(slabs), blocks, SlabOf(o), o);
    }

    /** `_kmalloc_large_free` of a granted block. */
    method FreeLarge(ptr: nat) returns (ok: bool)
      requires Valid() && GrantsOk() && ptr < MEMORY_SIZE
      modifies this`mem, this`largeList, this`blocks, this`granted, space, space.pmm, space.pmm.bitmap
      ensures Valid() && GrantsOk() && slabs == old(slabs)
      ensures granted == if ok then old(granted) - {ptr} else old(granted)
      ensures ok <==> exists i: nat :: IsBlock(old(blocks), i, ptr)
      ensures Held() == if ok then old(Held()) - {ptr} else old(Held())
    {
      ghost var i;
      ok, i := LargeFree(ptr);
      if ok {
        GrantsAfterRelease(granted, slabs, old(blocks), i);
        GrantsKept(old(mem), mem, granted, slabs, old(blocks), Lo(), currentLarge / PAGE, 2 * base);
        FewerKept(old(mem), mem, granted, ptr);
        Ungranted(ptr, old(mem));
      }
    }

    /** A caller stores any bytes inside an object or a block it holds. */
    method ClientStore(o: nat, at: nat, data: seq<Byte>)
      requires Valid() && GrantsOk() && o in granted && o <= at && at + |data| <= o + granted[o]
      modifies this`mem
      ensures Valid() && GrantsOk()
      ensures Held() == old(Held())[o := Patched(old(Held())[o], at - o, data)]
    {
      GrantInMemory(o);
      var n := mem[..at] + data + mem[at + |data|..];
      Spliced(mem, n, at, data);
      StoreKeepsHeap(n, o, at, |data|);
      StoreShows(n, o, at, data);
      Overwrite(n);
    }

    /** Memory changes where neither slabs nor records are. */
    method Overwrite(n: Memory)
      requires Valid() && Small(base, n, currentHeap, slabs) && CachesOk(n, slabs, caches, lists)
      requires RecordsOk(n, slabs, largeList, blocks) && Grants(granted, slabs, blocks) && InMemory(n, granted)
      modifies this`mem
      ensures Valid() && GrantsOk() && mem == n
    {
      mem := n;
    }

    /** What the store does to what is held. */
    lemma StoreShows(n: Memory, o: nat, at: nat, data: seq<Byte>)
      requires Valid() && GrantsOk() && o in granted && o <= at && at + |data| <= o + granted[o]
      requires n == mem[..at] + data + mem[at + |data|..]
      ensures InMemory(n, granted) && Contents(n, granted) == Held()[o := Patched(Held()[o], at - o, data)]
    {
      Spliced(mem, n, at, data);
      StoreApart(n, o, at, |data|);
      ContentsPatched(mem, n, granted, o, at - o, data);
    }

    /** Why it may be made. */
    lemma StoreKeepsHeap(n: Memory, o: nat, at: nat, len: nat)
      requires Valid() && GrantsOk() && o in granted && o <= at && at + len <= o + granted[o]
      requires SameBut(mem, n, at, at + len)
      ensures Small(base, n, currentHeap, slabs) && CachesOk(n, slabs, caches, lists)
      ensures RecordsOk(n, slabs, largeList, blocks)
    {
      GrantInMemory(o);
      if SmallGrant(slabs, blocks, o, granted[o]) {
        StoreInObject(n, o, at, len);
      } else {
        StoreInBlock(n, o, at, len);
      }
    }

    /** The other grants do not see the store. */
    lemma StoreApart(n: Memory, o: nat, at: nat, len: nat)
      requires Valid() && GrantsOk() && o in granted && o <= at && at + len <= o + granted[o]
      requires SameBut(mem, n, at, at + len)
      ensures BytesKept(mem, n, granted - {o})
    {
      forall p | p in granted - {o} ensures GrantKept(mem, n, granted - {o}, p) {
        LiveResultsDisjoint(o, p);
      }
    }

    /** Nor do slabs and records: the store lies in a live object ... */
    lemma StoreInObject(n: Memory, o: nat, at: nat, len: nat)
      requires SmallOk() && RecordsOk(mem, slabs, largeList, blocks)
      requires o in granted && SmallGrant(slabs, blocks, o, granted[o])
      requires o <= at && at + len <= o + granted[o] && SameBut(mem, n, at, at + len)
      ensures Small(base, n, currentHeap, slabs) && CachesOk(n, slabs, caches, lists)
      ensures RecordsOk(n, slabs, largeList, blocks)
    {
      var size := slabs[SlabOf(o)].size;
      LiveInPage(mem, slabs, SlabOf(o), o);
      WriteInLive(mem, n, slabs, o, size, at, at + len);
      RecordsOutside(mem, n, slabs, largeList, blocks, o, size);
      CachesFrame(mem, slabs, n, slabs, caches, lists);
    }

    /** ... or in a block, below them all. */
    lemma StoreInBlock(n: Memory, o: nat, at: nat, len: nat)
      requires SmallOk() && RecordsOk(mem, slabs, largeList, blocks)
      requires at + len <= 2 * base && SameBut(mem, n, at, at + len)
      ensures Small(base, n, currentHeap, slabs) && CachesOk(n, slabs, caches, lists)
      ensures RecordsOk(n, slabs, largeList, blocks)
    {
      Spared(mem, n, slabs);
      RecordsFrame(mem, n, slabs, slabs, largeList, blocks);
      CachesFrame(mem, slabs, n, slabs, caches, lists);
    }

    /** A block ends below the slab region, and an object inside memory. */
    lemma GrantInMemory(o: nat)
      requires Valid() && GrantsOk() && o in granted
      ensures o + granted[o] <= MEMORY_SIZE
      ensures !SmallGrant(slabs, blocks, o, granted[o]) ==> o + granted[o] <= 2 * base
    {
      assert Grant(slabs, blocks, o, granted[o]);
      if SmallGrant(slabs, blocks, o, granted[o]) {
        LiveInPage(mem, slabs, SlabOf(o), o);
      } else {
        var i :| 0 <= i < |blocks| && blocks[i].Ptr() == o && granted[o] <= |blocks[i].frames| * PAGE;
        assert BlockPlaced(blocks[i], Lo(), currentLarge / PAGE);
      }
    }

    /** What the callers hold is pairwise disjoint. */
    lemma LiveResultsDisjoint(p: nat, q: nat)
      requires Valid() && GrantsOk() && p in granted && q in granted && p != q
      ensures p + granted[p] <= q || q + granted[q] <= p
    {
      GrantsDisjoint(granted, mem, slabs, blocks, Lo(), currentLarge / PAGE, 2 * base, base + currentHeap, p, q);
    }

    /** A small result lies in one page after the slab header, and masking its
        address finds the slab. */
    lemma SmallResultInSlab(o: nat)
      requires Valid() && GrantsOk() && o in granted && SmallGrant(slabs, blocks, o, granted[o])
      ensures SlabOf(o) in slabs && SlabOf(o) + HEADER <= o && o + granted[o] <= SlabOf(o) + PAGE
    {
      LiveInPage(mem, slabs, SlabOf(o), o);
    }

    /** The address in the heap's range and the one base above it are one byte. */
    lemma SameByte(a: nat)
      requires Valid() && HitsSlab(a)
      ensures P.Translate(space.mem, space.dir, a) == P.Translate(space.mem, space.dir, a + base) == F.Some(a)
    {
      Aliased(space.mem, space.dir, base, slabs, currentHeap, a);
    }

    /** No two bytes that callers hold are the same byte of physical memory. */
    lemma LiveBytesApart(p: nat, i: nat, q: nat, j: nat)
      requires Valid() && GrantsOk()
      requires p in granted && q in granted && p != q && i < granted[p] && j < granted[q]
      ensures p + i < MEMORY_SIZE && q + j < MEMORY_SIZE
      ensures P.Translate(space.mem, space.dir, p + i).Some?
      ensures P.Translate(space.mem, space.dir, p + i) != P.Translate(space.mem, space.dir, q + j)
    {
      LiveResultsDisjoint(p, q);
      SlabFramesExactly(base, space.Data(), blocks, slabs, currentHeap);
      GrantBytesApart(space.mem, space.dir, base, mem, slabs, space.Data(), blocks, granted, currentLarge / PAGE,
                      End(), p, i, q, j);
    }

    /** Every byte that a caller holds lies on a page that is present and writeable,
        as long as the caller holds it. */
    lemma LiveBytesWriteable(p: nat, i: nat)
      requires Valid() && GrantsOk() && p in granted && i < granted[p]
      ensures (p + i) / PAGE < L.LIMIT
      ensures var e := P.PageAt(space.mem, space.dir, (p + i) / PAGE); e.Some? && e.value.flags & 0x3 == 0x3
    {
      var f, x, k := GrantFrame(space.mem, space.dir, base, mem, slabs, space.Data(), blocks, granted,
                                currentLarge / PAGE, End(), p, i);
      P.BothFlags(P.PageAt(space.mem, space.dir, (p + i) / PAGE).value);
    }

    /** Who has the frame of the slab past the range: a block or a page table, and
        only then is it in use. */
    lemma ExtraFrameOwner()
      requires Valid()
      ensures Lo() in space.pmm.Used() <==>
              P.IsTable(space.mem, space.dir, Lo()) || exists x :: 0 <= x < |blocks| && Lo() in blocks[x].frames
    {
      assert !HeapFrames.Held(Lo(), space.Data(), blocks);
      forall x | 0 <= x < |blocks| && Lo() in blocks[x].frames ensures Lo() in space.Data() {
        assert BlockMapped(blocks[x], space.mem, space.dir, space.Data()) && Lo() in Elements(blocks[x].frames);
      }
    }

    /** The slab region starts where the blocks end. */
    lemma GrantKind(p: nat)
      requires Valid() && GrantsOk() && p in granted
      ensures if p >= 2 * base then SmallGrant(slabs, blocks, p, granted[p]) else exists i: nat :: IsBlock(blocks, i, p)
    {
      assert Grant(slabs, blocks, p, granted[p]);
      if SmallGrant(slabs, blocks, p, granted[p]) {
        LiveInPage(mem, slabs, SlabOf(p), p);
      } else {
        var i :| 0 <= i < |blocks| && blocks[i].Ptr() == p && granted[p] <= |blocks[i].frames| * PAGE;
        assert BlockPlaced(blocks[i], Lo(), currentLarge / PAGE) && IsBlock(blocks, i, p);
        AlignedCovers(blocks[i].size);
      }
    }

    /** One command of a caller; what does not apply is skipped. */
    method Obey(cmd: Command, live: map<nat, nat>) returns (after: map<nat, nat>, r: Result)
      requires Valid() && GrantsOk() && live == granted
      modifies this, space, space.pmm, space.pmm.bitmap
      ensures r.Returns() ==> Valid() && GrantsOk() && after == granted && Follows(old(Held()), cmd, Held())
      ensures old(MayGive(r))
    {
      after, r := live, Null;
      match cmd
      case Request(size) => after, r := DoRequest(size, live);
      case Release(ptr) => after := DoRelease(ptr, live);
      case Write(ptr, offset, data) => DoWrite(ptr, offset, data, live);
    }

    method DoRequest(size: nat, live: map<nat, nat>) returns (after: map<nat, nat>, r: Result)
      requires Valid() && GrantsOk() && live == granted
      modifies this, space, space.pmm, space.pmm.bitmap
      ensures r.Returns() ==> Valid() && GrantsOk() && after == granted
      ensures r.Returns() ==> Held() == old(Held()) || exists p: nat :: GivesOne(old(Held()), size, Held(), p)
      ensures old(MayGive(r))
    {
      after, r := live, Null;
      if size <= MAX_CACHE_SIZE || (size < MEMORY_SIZE && LargeFits(size)) {
        r := Kmalloc(size);
        if r.Ptr? {
          after := live[r.addr := size];
          assert GivesOne(old(Held()), size, Held(), r.addr);
        }
      }
    }

    method DoRelease(ptr: nat, live: map<nat, nat>) returns (after: map<nat, nat>)
      requires Valid() && GrantsOk() && live == granted
      modifies this, space, space.pmm, space.pmm.bitmap
      ensures Valid() && GrantsOk() && after == granted && Held() == old(Held()) - {ptr}
    {
      after := live;
      if ptr in live {
        GrantKind(ptr);
        GrantInMemory(ptr);
        if ptr >= 2 * base {
          FreeSmall(ptr);
        } else {
          var ok := FreeLarge(ptr);
        }
        after := live - {ptr};
      } else {
        assert Held() == Held() - {ptr};
      }
    }

    method DoWrite(ptr: nat, offset: nat, data: seq<Byte>, live: map<nat, nat>)
      requires Valid() && GrantsOk() && live == granted
      modifies this`mem
      ensures Valid() && GrantsOk() && Follows(old(Held()), Command.Write(ptr, offset, data), Held())
    {
      if ptr in live && offset + |data| <= live[ptr] {
        ClientStore(ptr, ptr + offset, data);
      }
    }

    /** Any sequence of requests, releases and writes, up to a panic or a slab past
        the range: to its callers the heap is a map from results to bytes. A
        request adds a result, a release takes one away, a write changes the bytes
        it names, and nothing else ever changes; and no two results meet. */
    method Drive(cmds: seq<Command>) returns (live: map<nat, nat>, r: Result, ghost held: seq<map<nat, seq<Byte>>>)
      requires Valid() && GrantsOk() && granted == map[]
      modifies this, space, space.pmm, space.pmm.bitmap
      ensures r.Returns() ==> Valid() && GrantsOk() && live == granted
      ensures History(cmds, held) && (r.Returns() ==> |held| == |cmds| + 1 && held[|cmds|] == Held())
    {
      live, r, held := map[], Null, [map[]];
      var i := 0;
      while i < |cmds| && r.Returns()
        invariant 0 <= i <= |cmds| && History(cmds, held) && (r.Returns() ==> Going(live, held, i))
        decreases |cmds| - i, r.Returns()
      {
        live, r, held := Turn(cmds, i, live, held);
        i := i + 1;
      }
    }

    /** After i commands the heap holds what the history says. */
    ghost predicate Going(live: map<nat, nat>, held: seq<map<nat, seq<Byte>>>, i: nat)
      reads this, space, space.pmm, space.pmm.bitmap
    {
      Valid() && GrantsOk() && live == granted && |held| == i + 1 && held[i] == Held()
    }

    /** The next command, and the history with it. */
    method Turn(cmds: seq<Command>, i: nat, live: map<nat, nat>, ghost held: seq<map<nat, seq<Byte>>>)
        returns (after: map<nat, nat>, r: Result, ghost longer: seq<map<nat, seq<Byte>>>)
      requires i < |cmds| && History(cmds, held) && Going(live, held, i)
      modifies this, space, space.pmm, space.pmm.bitmap
      ensures History(cmds, longer) && (r.Returns() ==> Going(after, longer, i + 1))
    {
      longer := held;
      after, r := Obey(cmds[i], live);
      if r.Returns() {
        HeldApart();
        HistoryGrows(cmds, held, Held());
        longer := held + [Held()];
      }
    }

    lemma HeldApart()
      requires Valid() && GrantsOk()
      ensures AllApart(Held())
    {
      var held := Held();
      forall p, q | p in held && q in held && p != q ensures RangesApart(p, |held[p]|, q, |held[q]|) {
        LiveResultsDisjoint(p, q);
      }
    }

    /** `kfree` gives no small object back: it leaves slabs, blocks and frames as
        they were. */
    method KfreeSmall(o: nat)
      requires Valid() && GrantsOk() && o in granted && SmallGrant(slabs, blocks, o, granted[o])
      modifies this`mem, this`largeList, this`blocks, space, space.pmm, space.pmm.bitmap
      ensures Valid() && slabs == old(slabs) && blocks == old(blocks) && space.Data() == old(space.Data())
    {
      SmallIsNoBlock(o, slabs[SlabOf(o)].size);
      ghost var none;
      none := Kfree(o);
    }
  }

  datatype Command = Request(size: nat) | Release(ptr: nat) | Write(ptr: nat, offset: nat, data: seq<Byte>)

  ghost predicate RangesApart(p: nat, m: nat, q: nat, n: nat) { p + m <= q || q + n <= p }

  ghost predicate AllApart(held: map<nat, seq<Byte>>)
  {
    forall p, q :: p in held && q in held && p != q ==> RangesApart(p, |held[p]|, q, |held[q]|)
  }

  /** What was held after each command, from nothing on. */
  ghost predicate History(cmds: seq<Command>, held: seq<map<nat, seq<Byte>>>)
  {
    && 0 < |held| <= |cmds| + 1 && held[0] == map[]
    && (forall k :: 0 <= k < |held| - 1 ==> Follows(held[k], cmds[k], held[k + 1]))
    && (forall k :: 0 <= k < |held| ==> AllApart(held[k]))
  }

  lemma HistoryGrows(cmds: seq<Command>, held: seq<map<nat, seq<Byte>>>, after: map<nat, seq<Byte>>)
    requires History(cmds, held) && |held| <= |cmds| && AllApart(after)
    requires Follows(held[|held| - 1], cmds[|held| - 1], after)
    ensures History(cmds, held + [after])
  {
  }

  /** What a command does to what is held: a new result of the size asked for, or
      none; one result less; or the bytes written. */
  ghost predicate Follows(held: map<nat, seq<Byte>>, cmd: Command, after: map<nat, seq<Byte>>)
  {
    match cmd
    case Request(size) => after == held || exists p: nat :: GivesOne(held, size, after, p)
    case Release(ptr) => after == held - {ptr}
    case Write(ptr, offset, data) =>
      after == if ptr in held && offset + |data| <= |held[ptr]|
               then held[ptr := Patched(held[ptr], offset, data)] else held
  }

  ghost predicate GivesOne(held: map<nat, seq<Byte>>, size: nat, after: map<nat, seq<Byte>>, p: nat)
  {
    p !in held && p in after && |after[p]| == size && after == held[p := after[p]]
  }

  /** A block of fresh pages and its record extend the region. */
  lemma RegionGrows(blocks: seq<Block>, b: Block, pm: P.Memory, mapped: P.Memory, after: P.Memory, dir: F.FrameNo,
                    data: set<F.FrameNo>, lo: nat, end: nat)
    requires Layout(blocks, lo, b.page) && Mapped(blocks, pm, dir, data, b.page, end)
    requires b.page + |b.frames| <= end && L.SameOutside(pm, mapped, dir, b.page, |b.frames|)
    requires L.MapsTo(mapped, dir, b.page, b.frames) && Distinct(b.frames) && 0 !in b.frames
    requires Elements(b.frames) !! data
    requires MAX_CACHE_SIZE < b.size && b.size + PAGE <= MEMORY_SIZE && |b.frames| * PAGE == Aligned(b.size)
    requires SameBelow(mapped, after, dir, end)
    ensures Layout([b] + blocks, lo, b.page + |b.frames|)
    ensures Mapped([b] + blocks, after, dir, data + Elements(b.frames), b.page + |b.frames|, end)
  {
    LayoutGrows(blocks, b, lo, b.page);
    MappedGrows(blocks, b, pm, mapped, dir, data, lo, b.page, end);
    MappedFrame([b] + blocks, mapped, after, dir, data + Elements(b.frames), lo, b.page + |b.frames|, end);
  }

  /** Pages, frames and layout with the new block. */
  lemma BlockAdded(blocks: seq<Block>, b: Block, pm: P.Memory, mapped: P.Memory, after: P.Memory, dir: F.FrameNo,
                   base: nat, slabs: map<nat, View>, more: map<nat, View>, top: nat, data: set<F.FrameNo>)
    requires var lo, end := (base + HEAP_SIZE) / PAGE, 2 * base / PAGE;
             && Layout(blocks, lo, b.page) && Mapped(blocks, pm, dir, data, b.page, end) && b.page + |b.frames| <= end
    requires L.SameOutside(pm, mapped, dir, b.page, |b.frames|) && L.MapsTo(mapped, dir, b.page, b.frames)
    requires Distinct(b.frames) && 0 !in b.frames && Elements(b.frames) !! data
    requires MAX_CACHE_SIZE < b.size && b.size + PAGE <= MEMORY_SIZE && |b.frames| * PAGE == Aligned(b.size)
    requires Extends(mapped, after, dir, base, slabs, more) && Within(slabs, 2 * base, top)
    requires BackedBy(pm, dir, base, slabs, data, blocks)
    ensures var lo, end := (base + HEAP_SIZE) / PAGE, 2 * base / PAGE;
            && Layout([b] + blocks, lo, b.page + |b.frames|)
            && Mapped([b] + blocks, after, dir, data + Elements(b.frames), b.page + |b.frames|, end)
    ensures BackedBy(after, dir, base, more, data + Elements(b.frames), [b] + blocks)
  {
    RegionGrows(blocks, b, pm, mapped, after, dir, data, (base + HEAP_SIZE) / PAGE, 2 * base / PAGE);
    BlockJoins(pm, mapped, after, dir, base, slabs, more, top, data, blocks, b);
  }

  lemma StillUnmapped(pm: P.Memory, after: P.Memory, dir: F.FrameNo, top: nat, end: nat)
    requires top <= end && L.Unmapped(pm, dir, top, end - top) && SameBelow(pm, after, dir, end)
    ensures top < end ==> L.Unmapped(after, dir, top, 1)
  {
  }

  lemma NothingMapped(blocks: seq<Block>, pm: P.Memory, after: P.Memory, dir: F.FrameNo, data: set<F.FrameNo>, lo: nat,
                      top: nat, end: nat)
    requires Mapped(blocks, pm, dir, data, top, end) && Layout(blocks, lo, top) && L.SameOutside(pm, after, dir, 0, 0)
    ensures Mapped(blocks, after, dir, data, top, end)
  {
    assert SameBelow(pm, after, dir, end) by {
      assert forall p :: 0 <= p < end ==> L.Outside(p, 0, 0);
    }
    MappedFrame(blocks, pm, after, dir, data, lo, top, end);
  }

  method MapSlabPage(space: P.AddressSpace, v: nat, phys: nat) returns (ok: bool)
    requires space.Valid() && v % PAGE == 0 && v / PAGE < L.LIMIT && phys % PAGE == 0 && phys < MEMORY_SIZE
    modifies space`mem, space.pmm, space.pmm.bitmap
    ensures space.Valid() && space.Data() == old(space.Data())
    ensures ok ==> L.SameOutside(old(space.mem), space.mem, space.dir, v / PAGE, 1)
    ensures ok ==> L.HasFrame(space.mem, space.dir, v / PAGE, phys / PAGE)
    ensures ok ==> P.PageAt(space.mem, space.dir, v / PAGE) == F.Some(P.Filled(old(space.Slot(v)), phys, 0x2))
    ensures P.FullDirectory(old(space.mem), space.dir) ==> ok
  {
    assert v / PAGE * P.PAGE_SIZE == v;
    ok := L.MapAt(space, v / PAGE, phys, P.PAGE_WRITEABLE);
  }
}

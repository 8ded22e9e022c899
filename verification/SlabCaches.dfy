/** The slab caches of memory/kmalloc.c: per object size, a list of slabs linked
    through their headers. */
module SlabCaches {
  import opened Bytes
  import opened Seqs
  import opened Slab
  import F = FrameAllocator
  import P = PageTables
  import L = LargePages

  const SIZES: seq<nat> := [16, 32, 64, 128, 256, 512, 1024, 2048]
  const NUM_CACHES: nat := 8
  const MAX_CACHE_SIZE: nat := 2048
  const HEAP_SIZE: nat := F.KERNEL_HEAP_SIZE
  const MEMORY_SIZE: nat := 0x1_0000_0000

  /** Halt is a panic or a failed assertion: the kernel stops there. Spill is a
      slab made past the heap's range: the kernel goes on, in memory that is not
      the heap's own, and the model stops. */
  datatype Result = Ptr(addr: nat) | Null | Halt | Spill(addr: nat) {
    predicate Returns() { Ptr? || Null? }
  }

  /** One cache's slab list, linked through the headers' next words. */
  ghost predicate ListOk(m: Memory, slabs: map<nat, View>, head: nat, list: seq<nat>, size: nat)
  {
    && head == First(list)
    && forall i :: 0 <= i < |list| ==> SlabInList(m, slabs, list[i], First(list[i + 1..]), size)
  }

  ghost predicate SlabInList(m: Memory, slabs: map<nat, View>, s: nat, next: nat, size: nat)
  {
    s != 0 && s in slabs && slabs[s].size == size && Word32(m, s + NEXT, next)
  }

  ghost predicate CachesOk(m: Memory, slabs: map<nat, View>, caches: seq<nat>, lists: seq<seq<nat>>)
  {
    && |caches| == |lists| == NUM_CACHES
    && forall k :: 0 <= k < NUM_CACHES ==> ListOk(m, slabs, caches[k], lists[k], SIZES[k])
  }

  /** Slab sizes and list links stay. */
  ghost predicate SameLists(m: Memory, slabs: map<nat, View>, n: Memory, after: map<nat, View>)
  {
    |m| == |n| && forall s :: s in slabs ==> SameSlabInList(m, slabs, n, after, s)
  }

  ghost predicate SameSlabInList(m: Memory, slabs: map<nat, View>, n: Memory, after: map<nat, View>, s: nat)
    requires s in slabs
  {
    && s in after && after[s].size == slabs[s].size && s + PAGE <= |m| == |n|
    && Load32(n, s + NEXT) == Load32(m, s + NEXT)
  }

  lemma CachesFrame(m: Memory, slabs: map<nat, View>, n: Memory, after: map<nat, View>, caches: seq<nat>,
                    lists: seq<seq<nat>>)
    requires CachesOk(m, slabs, caches, lists) && SameLists(m, slabs, n, after)
    ensures CachesOk(n, after, caches, lists)
  {
    forall k, i | 0 <= k < NUM_CACHES && 0 <= i < |lists[k]|
      ensures SlabInList(n, after, lists[k][i], First(lists[k][i + 1..]), SIZES[k])
    {
      assert ListOk(m, slabs, caches[k], lists[k], SIZES[k]);
      assert SlabInList(m, slabs, lists[k][i], First(lists[k][i + 1..]), SIZES[k]);
      assert SameSlabInList(m, slabs, n, after, lists[k][i]);
    }
  }

  ghost predicate AllFree(v: View, size: nat) { v.size == size && v.live == {} && v.free != [] }

  /** n slabs, and no object of them is live. */
  ghost predicate NoneLive(slabs: map<nat, View>, n: nat)
  {
    |slabs| == n && forall s :: s in slabs ==> slabs[s].live == {}
  }

  lemma OneMore(slabs: map<nat, View>, after: map<nat, View>, s: nat, size: nat, n: nat)
    requires NoneLive(slabs, n) && s !in slabs && s in after && after == slabs[s := after[s]] && AllFree(after[s], size)
    ensures NoneLive(after, n + 1)
  {
    assert after.Keys == slabs.Keys + {s} && |after| == |after.Keys|;
  }

  ghost predicate FullSlab(slabs: map<nat, View>, s: nat) { s in slabs && slabs[s].free == [] }

  /** A new page, outside every slab, joins as a slab. */
  lemma NewSlab(m: Memory, n: Memory, slabs: map<nat, View>, s: nat, v: View)
    requires HeapInv(m, slabs) && s !in slabs && s % PAGE == 0 && SameBut(m, n, s, s + PAGE) && Rep(n, s, v)
    ensures HeapInv(n, slabs[s := v]) && SameLists(m, slabs, n, slabs[s := v])
  {
    OtherSlabs(m, n, slabs, s);
    forall t | t in slabs ensures SameSlabInList(m, slabs, n, slabs[s := v], t) {
      assert Rep(m, t, slabs[t]);
      PagesApart(s, t);
      LoadFrame(m, n, s, s + PAGE, t + NEXT);
    }
  }

  lemma FreshAllFree(s: nat, size: nat)
    requires 0 < size <= DATA
    ensures AllFree(FreshView(s, size), size)
  {
    CapacityPositive(size);
  }

  lemma AlignedSum(a: nat, b: nat)
    requires a % PAGE == 0 && b % PAGE == 0
    ensures (a + b) % PAGE == 0 && a / PAGE + b / PAGE == (a + b) / PAGE
  {
  }

  /** The base lies above a heap's length and leaves room for the doubled addresses. */
  ghost predicate BaseOk(base: nat) {
    base % PAGE == 0 && HEAP_SIZE < base && 2 * base + HEAP_SIZE + 2 * PAGE <= L.LIMIT * PAGE
  }

  /** Slab addresses carry the base twice, so they lie from 2 * base upward. */
  ghost predicate Small(base: nat, m: Memory, currentHeap: nat, slabs: map<nat, View>)
  {
    && |m| == MEMORY_SIZE && HeapInv(m, slabs)
    && base <= currentHeap <= base + HEAP_SIZE && currentHeap % PAGE == 0
    && Within(slabs, 2 * base, base + currentHeap) && Dense(slabs, 2 * base, base + currentHeap)
  }

  /** Every page of [lo, hi) is a slab. */
  ghost predicate Dense(slabs: map<nat, View>, lo: nat, hi: nat)
  {
    forall s {:trigger PageIn(s, lo, hi)} :: PageIn(s, lo, hi) ==> s in slabs
  }

  ghost predicate PageIn(s: nat, lo: nat, hi: nat) { lo <= s < hi && s % PAGE == 0 }

  ghost predicate Within(slabs: map<nat, View>, lo: nat, hi: nat)
  {
    forall s :: s in slabs ==> lo <= s && s + PAGE <= hi
  }

  /** The page at the bump address becomes a slab. */
  lemma SmallGrows(base: nat, m: Memory, n: Memory, currentHeap: nat, slabs: map<nat, View>, s: nat, v: View)
    requires BaseOk(base) && Small(base, m, currentHeap, slabs) && currentHeap < base + HEAP_SIZE
    requires s == base + currentHeap && s % PAGE == 0 && Rep(n, s, v) && SameBut(m, n, s, s + PAGE)
    ensures s !in slabs && Small(base, n, currentHeap + PAGE, slabs[s := v]) && SameLists(m, slabs, n, slabs[s := v])
  {
    NextPageFits(base, currentHeap);
    NewSlab(m, n, slabs, s, v);
    WithinGrows(slabs, 2 * base, s, v, base + (currentHeap + PAGE));
  }

  lemma NextPageFits(base: nat, currentHeap: nat)
    requires base % PAGE == 0 && currentHeap % PAGE == 0 && currentHeap < base + HEAP_SIZE
    ensures (currentHeap + PAGE) % PAGE == 0 && currentHeap + PAGE <= base + HEAP_SIZE
  {
    AlignedSum(currentHeap, PAGE);
    AlignedSum(base, HEAP_SIZE);
    PagesApart(currentHeap, base + HEAP_SIZE);
  }

  lemma WithinGrows(slabs: map<nat, View>, lo: nat, s: nat, v: View, hi: nat)
    requires Within(slabs, lo, s) && Dense(slabs, lo, s) && lo <= s && s % PAGE == 0 && hi == s + PAGE
    ensures Within(slabs[s := v], lo, hi) && Dense(slabs[s := v], lo, hi)
  {
    var after := slabs[s := v];
    forall t | PageIn(t, lo, hi) ensures t in after {
      if t != s {
        PagesApart(s, t);
        assert PageIn(t, lo, s);
      }
    }
  }

  /** Every page below hi maps as before. */
  ghost predicate SameBelow(mem: P.Memory, after: P.Memory, dir: F.FrameNo, hi: nat)
  {
    P.Complete(mem) && P.Complete(after) && hi <= L.LIMIT
    && forall p :: 0 <= p < hi ==> P.PageAt(after, dir, p) == P.PageAt(mem, dir, p)
  }

  lemma SameBelowTwice(a: P.Memory, b: P.Memory, c: P.Memory, dir: F.FrameNo, hi: nat)
    requires SameBelow(a, b, dir, hi) && SameBelow(b, c, dir, hi)
    ensures SameBelow(a, c, dir, hi)
  {
  }

  /** The bytes of the slabs' objects, headers apart, are as before. */
  ghost predicate SameObjects(m: Memory, n: Memory, slabs: map<nat, View>)
  {
    |m| == |n| && forall s :: s in slabs ==> SamePayload(m, n, s)
  }

  ghost predicate SamePayload(m: Memory, n: Memory, s: nat)
  {
    |m| == |n| && forall i :: s + HEADER <= i < s + PAGE && i < |m| ==> n[i] == m[i]
  }

  /** One object o moved from free to live in slab s, which may be new. */
  ghost predicate Took(before: map<nat, View>, after: map<nat, View>, s: nat, o: nat, size: nat)
  {
    && s in after && after == before[s := after[s]] && after[s].size == size
    && o in after[s].live && o != 0
    && if s in before then before[s].free != [] && before[s].free[0] == o && after[s] == Allocated(before[s])
       else after[s].live == {o}
  }

  /** A store into a page's header, or a new page, spares all payloads. */
  lemma PayloadFrame(m: Memory, n: Memory, slabs: map<nat, View>, s: nat, hi: nat)
    requires HeapInv(m, slabs) && s % PAGE == 0 && SameBut(m, n, s, hi)
    requires hi <= s + PAGE && (s in slabs ==> hi <= s + HEADER)
    ensures SameObjects(m, n, slabs)
  {
    forall t | t in slabs ensures SamePayload(m, n, t) {
      assert Rep(m, t, slabs[t]);
      if t != s {
        PagesApart(s, t);
      }
    }
  }

  /** Linking a slab that is in no list at the front of cache k. */
  lemma PushSlab(m: Memory, n: Memory, slabs: map<nat, View>, caches: seq<nat>, lists: seq<seq<nat>>, k: nat, s: nat)
    requires CachesOk(m, slabs, caches, lists) && k < NUM_CACHES && HeapInv(m, slabs)
    requires s in slabs && slabs[s].size == SIZES[k] && forall j :: 0 <= j < NUM_CACHES ==> s !in lists[j]
    requires caches[k] < MEMORY_SIZE && Stored(m, n, s + NEXT, caches[k])
    ensures CachesOk(n, slabs, caches[k := s], lists[k := [s] + lists[k]])
  {
    forall j, i | 0 <= j < NUM_CACHES && 0 <= i < |lists[j]|
      ensures SlabInList(n, slabs, lists[j][i], First(lists[j][i + 1..]), SIZES[j])
    {
      var t := lists[j][i];
      assert ListOk(m, slabs, caches[j], lists[j], SIZES[j]);
      assert SlabInList(m, slabs, t, First(lists[j][i + 1..]), SIZES[j]);
      assert Rep(m, t, slabs[t]) && Rep(m, s, slabs[s]) && t != s;
      PagesApart(s, t);
      LoadFrame(m, n, s + NEXT, s + NEXT + 4, t + NEXT);
    }
    var list := [s] + lists[k];
    forall i | 0 <= i < |list| ensures SlabInList(n, slabs, list[i], First(list[i + 1..]), SIZES[k]) {
      assert list[i + 1..] == lists[k][i..];
      assert Rep(m, s, slabs[s]);
      assert ListOk(m, slabs, caches[k], lists[k], SIZES[k]);
      assert i > 0 ==> list[i] == lists[k][i - 1];
    }
  }

  /** The next word is no part of what a slab means. */
  lemma NextKeepsHeap(m: Memory, n: Memory, slabs: map<nat, View>, s: nat, w: Word)
    requires HeapInv(m, slabs) && s in slabs && Stored(m, n, s + NEXT, w)
    ensures HeapInv(n, slabs)
  {
    assert Rep(m, s, slabs[s]);
    OtherSlabs(m, n, slabs, s);
    LoadFrame(m, n, s + NEXT, s + NEXT + 4, s + OBJECT_SIZE);
    LoadFrame(m, n, s + NEXT, s + NEXT + 4, s + FREE_LIST);
    LoadFrame(m, n, s + NEXT, s + NEXT + 4, s + FREE_COUNT);
    LinkedFrame(m, n, s, slabs[s].size, slabs[s].free);
  }

  lemma HeaderKeepsLists(m: Memory, n: Memory, slabs: map<nat, View>, s: nat)
    requires HeapInv(m, slabs) && s in slabs && slabs[s].free != [] && AllocWrites(m, n, s)
    ensures SameLists(m, slabs, n, slabs[s := Allocated(slabs[s])])
  {
    forall t | t in slabs ensures SameSlabInList(m, slabs, n, slabs[s := Allocated(slabs[s])], t) {
      assert Rep(m, t, slabs[t]) && Rep(m, s, slabs[s]);
      if t != s {
        PagesApart(s, t);
        LoadFrame(m, n, s, s + PAGE, t + NEXT);
      }
    }
  }

  /** Neither the slabs' objects nor the bytes below the slabs change. */
  ghost predicate Spares(m: Memory, n: Memory, slabs: map<nat, View>, floor: nat)
  {
    SameObjects(m, n, slabs) && SameRange(m, n, 0, floor)
  }

  lemma AllocTakes(m: Memory, n: Memory, slabs: map<nat, View>, s: nat, floor: nat)
    requires HeapInv(m, slabs) && s in slabs && slabs[s].free != [] && AllocWrites(m, n, s) && floor <= s
    ensures Took(slabs, slabs[s := Allocated(slabs[s])], s, slabs[s].free[0], slabs[s].size)
    ensures Spares(m, n, slabs, floor)
  {
    assert Rep(m, s, slabs[s]);
    assert slabs[s].free[0] in Elements(slabs[s].free);
    ObjectInPage(s, slabs[s].size, slabs[s].free[0]);
    PayloadFrame(m, n, slabs, s, s + HEADER);
  }

  lemma SameKeys(slabs: map<nat, View>, s: nat, v: View, lo: nat, hi: nat)
    requires s in slabs && Within(slabs, lo, hi) && Dense(slabs, lo, hi)
    ensures Within(slabs[s := v], lo, hi) && Dense(slabs[s := v], lo, hi)
  {
  }

  /** `alloc_from_slab`, seen from all slabs and caches. */
  lemma TakeKeepsSmall(base: nat, m: Memory, n: Memory, currentHeap: nat, slabs: map<nat, View>, s: nat,
                       caches: seq<nat>, lists: seq<seq<nat>>)
    requires Small(base, m, currentHeap, slabs) && CachesOk(m, slabs, caches, lists)
    requires s in slabs && slabs[s].free != [] && AllocWrites(m, n, s)
    ensures var after := slabs[s := Allocated(slabs[s])];
            && Small(base, n, currentHeap, after) && CachesOk(n, after, caches, lists)
            && Took(slabs, after, s, slabs[s].free[0], slabs[s].size) && Spares(m, n, slabs, 2 * base)
  {
    AllocKeepsHeap(m, n, slabs, s);
    HeaderKeepsLists(m, n, slabs, s);
    AllocTakes(m, n, slabs, s, 2 * base);
    CachesFrame(m, slabs, n, slabs[s := Allocated(slabs[s])], caches, lists);
    SameKeys(slabs, s, Allocated(slabs[s]), 2 * base, base + currentHeap);
  }

  /** The smallest cache that fits. */
  ghost predicate Smallest(k: nat, size: nat)
  {
    k < NUM_CACHES && size <= SIZES[k] && forall c :: c in SIZES && size <= c ==> SIZES[k] <= c
  }

  /** The cache that serves a request is the next power of two from 16 to 2048, so
      less than half of an object is lost. */
  lemma CacheRoundsUp(k: nat, size: nat)
    requires Smallest(k, size)
    ensures size <= SIZES[k] && (SIZES[k] < 2 * size || SIZES[k] == 16) && 2048 % SIZES[k] == 0 && 16 <= SIZES[k]
  {
    assert k > 0 ==> SIZES[k - 1] in SIZES;
  }

  /** Taking an object from a slab that is itself new. */
  lemma TookFromNew(before: map<nat, View>, mid: map<nat, View>, after: map<nat, View>, s: nat, o: nat, size: nat)
    requires s !in before && s in mid && mid == before[s := mid[s]] && AllFree(mid[s], size)
    requires Took(mid, after, s, o, mid[s].size)
    ensures Took(before, after, s, o, size)
  {
  }

  lemma SparesTwice(a: Memory, b: Memory, c: Memory, slabs: map<nat, View>, more: map<nat, View>, floor: nat)
    requires Spares(a, b, slabs, floor) && Spares(b, c, more, floor) && slabs.Keys <= more.Keys
    ensures Spares(a, c, slabs, floor)
  {
    forall s | s in slabs ensures SamePayload(a, c, s) {
      assert s in more && SamePayload(a, b, s) && SamePayload(b, c, s);
    }
  }

  lemma HeadIsWord(m: Memory, slabs: map<nat, View>, caches: seq<nat>, lists: seq<seq<nat>>, k: nat)
    requires CachesOk(m, slabs, caches, lists) && HeapInv(m, slabs) && k < NUM_CACHES
    ensures caches[k] < MEMORY_SIZE
  {
    assert ListOk(m, slabs, caches[k], lists[k], SIZES[k]);
    if lists[k] != [] {
      assert SlabInList(m, slabs, lists[k][0], First(lists[k][1..]), SIZES[k]);
      assert Rep(m, lists[k][0], slabs[lists[k][0]]);
    }
  }

  /** The pages of the slabs are as before, byte for byte. */
  ghost predicate SparesSlabs(m: Memory, n: Memory, slabs: map<nat, View>)
  {
    |m| == |n| && forall s :: s in slabs ==> SamePage(m, n, s)
  }

  lemma Spared(m: Memory, n: Memory, slabs: map<nat, View>)
    requires HeapInv(m, slabs) && SparesSlabs(m, n, slabs)
    ensures HeapInv(n, slabs) && SameLists(m, slabs, n, slabs) && SameObjects(m, n, slabs)
  {
    forall s | s in slabs ensures Rep(n, s, slabs[s]) && SameSlabInList(m, slabs, n, slabs, s) && SamePayload(m, n, s) {
      assert Rep(m, s, slabs[s]) && SamePage(m, n, s);
      RepSamePage(m, n, s, slabs[s]);
    }
  }
}

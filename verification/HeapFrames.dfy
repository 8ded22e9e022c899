/** The frames behind the heap of memory/kmalloc.c: the range `pmm_init` sets
    aside for slabs, and the frames that large blocks take. */
module HeapFrames {
  import opened Bytes
  import opened Seqs
  import opened Slab
  import opened SlabCaches
  import opened LargeRecords
  import F = FrameAllocator
  import P = PageTables
  import L = LargePages

  // ---- Pages ------------------------------------------------------------

  /** Page p maps to frame p. */
  ghost predicate OwnPage(pm: P.Memory, dir: F.FrameNo, p: nat) { p < L.LIMIT && L.HasFrame(pm, dir, p, p) }

  /** The slab at s maps to the frame base below it. */
  ghost predicate SlabMapped(pm: P.Memory, dir: F.FrameNo, base: nat, s: nat)
  {
    base <= s && (s - base) / PAGE < L.LIMIT && L.HasFrame(pm, dir, s / PAGE, (s - base) / PAGE)
  }

  /** `vmm_init` maps the heap's range onto itself; `create_slab` maps each slab. */
  ghost predicate PagesBacked(pm: P.Memory, dir: F.FrameNo, base: nat, slabs: map<nat, View>)
  {
    && (forall p {:trigger OwnPage(pm, dir, p)} :: base / PAGE <= p < (base + HEAP_SIZE) / PAGE ==> OwnPage(pm, dir, p))
    && (forall s {:trigger SlabMapped(pm, dir, base, s)} :: s in slabs ==> SlabMapped(pm, dir, base, s))
  }

  /** Changes between the heap's range and the slabs do not matter. */
  lemma BackedElsewhere(pm: P.Memory, after: P.Memory, dir: F.FrameNo, base: nat, slabs: map<nat, View>, end: nat,
                        start: nat, n: nat)
    requires PagesBacked(pm, dir, base, slabs) && L.SameOutside(pm, after, dir, start, n)
    requires (base + HEAP_SIZE) / PAGE <= start && start + n <= 2 * base / PAGE && Within(slabs, 2 * base, end)
    ensures PagesBacked(after, dir, base, slabs)
  {
    forall p | base / PAGE <= p < (base + HEAP_SIZE) / PAGE ensures OwnPage(after, dir, p) {
      assert OwnPage(pm, dir, p) && L.Outside(p, start, n);
    }
    forall s | s in slabs ensures SlabMapped(after, dir, base, s) {
      assert SlabMapped(pm, dir, base, s) && 2 * base <= s;
      assert L.Outside(s / PAGE, start, n);
    }
  }

  /** A new slab joins with its page. */
  lemma BackedGrows(pm: P.Memory, after: P.Memory, dir: F.FrameNo, m: Memory, base: nat, slabs: map<nat, View>, s: nat,
                    v: View)
    requires PagesBacked(pm, dir, base, slabs) && L.SameOutside(pm, after, dir, s / PAGE, 1) && HeapInv(m, slabs)
    requires s !in slabs && s % PAGE == 0 && base + HEAP_SIZE <= s && SlabMapped(after, dir, base, s)
    ensures PagesBacked(after, dir, base, slabs[s := v])
  {
    forall p | base / PAGE <= p < (base + HEAP_SIZE) / PAGE ensures OwnPage(after, dir, p) {
      assert OwnPage(pm, dir, p) && L.Outside(p, s / PAGE, 1);
    }
    forall t | t in slabs[s := v] ensures SlabMapped(after, dir, base, t) {
      if t != s {
        assert SlabMapped(pm, dir, base, t) && Rep(m, t, slabs[t]);
        PagesApart(s, t);
        assert L.Outside(t / PAGE, s / PAGE, 1);
      }
    }
  }

  lemma BackedKeys(pm: P.Memory, dir: F.FrameNo, base: nat, slabs: map<nat, View>, after: map<nat, View>)
    requires PagesBacked(pm, dir, base, slabs) && after.Keys <= slabs.Keys
    ensures PagesBacked(pm, dir, base, after)
  {
    forall s | s in after ensures SlabMapped(pm, dir, base, s) {
      assert s in slabs.Keys;
    }
  }

  /** Slabs may have joined, each with its page; below them every page maps as
      before. */
  ghost predicate Extends(pm: P.Memory, after: P.Memory, dir: F.FrameNo, base: nat, slabs: map<nat, View>,
                          more: map<nat, View>)
  {
    && SameBelow(pm, after, dir, 2 * base / PAGE)
    && (PagesBacked(pm, dir, base, slabs) ==> PagesBacked(after, dir, base, more))
  }

  lemma ExtendsByOne(pm: P.Memory, after: P.Memory, dir: F.FrameNo, m: Memory, base: nat, slabs: map<nat, View>,
                     s: nat, v: View)
    requires L.SameOutside(pm, after, dir, s / PAGE, 1) && HeapInv(m, slabs) && SlabMapped(after, dir, base, s)
    requires BaseOk(base) && s !in slabs && s % PAGE == 0 && 2 * base <= s
    ensures Extends(pm, after, dir, base, slabs, slabs[s := v])
  {
    assert forall p :: 0 <= p < 2 * base / PAGE ==> L.Outside(p, s / PAGE, 1);
    if PagesBacked(pm, dir, base, slabs) {
      BackedGrows(pm, after, dir, m, base, slabs, s, v);
    }
  }

  lemma ExtendsKeys(pm: P.Memory, after: P.Memory, dir: F.FrameNo, base: nat,
                    slabs: map<nat, View>, mid: map<nat, View>, more: map<nat, View>)
    requires Extends(pm, after, dir, base, slabs, mid) && more.Keys <= mid.Keys
    ensures Extends(pm, after, dir, base, slabs, more)
  {
    if PagesBacked(after, dir, base, mid) {
      BackedKeys(after, dir, base, mid, more);
    }
  }

  lemma StillThere(pm: P.Memory, dir: F.FrameNo, base: nat, slabs: map<nat, View>, more: map<nat, View>)
    requires P.Complete(pm) && BaseOk(base) && more.Keys <= slabs.Keys
    ensures Extends(pm, pm, dir, base, slabs, more)
  {
    ExtendsKeys(pm, pm, dir, base, slabs, slabs, more);
  }

  lemma ExtendsTwice(a: P.Memory, b: P.Memory, c: P.Memory, dir: F.FrameNo, base: nat,
                     slabs: map<nat, View>, mid: map<nat, View>, more: map<nat, View>)
    requires Extends(a, b, dir, base, slabs, mid) && Extends(b, c, dir, base, mid, more)
    ensures Extends(a, c, dir, base, slabs, more)
  {
    SameBelowTwice(a, b, c, dir, 2 * base / PAGE);
  }

  // ---- Frames -----------------------------------------------------------

  /** Frame f is used, holds no page table and belongs to no block. */
  ghost predicate Held(f: F.FrameNo, data: set<F.FrameNo>, blocks: seq<Block>)
  {
    f in data && forall i :: 0 <= i < |blocks| ==> f !in blocks[i].frames
  }

  /** The frames of the heap's range are held; the one after them, which
      `pmm_init` does not reserve, is in use only if some block took it. */
  ghost predicate FramesBacked(base: nat, data: set<F.FrameNo>, blocks: seq<Block>)
  {
    && (forall f: F.FrameNo {:trigger Held(f, data, blocks)} ::
          base / PAGE <= f < (base + HEAP_SIZE) / PAGE ==> Held(f, data, blocks))
    && (forall f: F.FrameNo {:trigger Held(f, data, blocks)} ::
          f == (base + HEAP_SIZE) / PAGE ==> !Held(f, data, blocks))
  }

  /** A new block of frames that were free changes nothing for any other frame. */
  lemma HeldGrows(base: nat, data: set<F.FrameNo>, blocks: seq<Block>, b: Block)
    requires FramesBacked(base, data, blocks) && Elements(b.frames) !! data
    ensures FramesBacked(base, data + Elements(b.frames), [b] + blocks)
  {
    forall f: F.FrameNo | base / PAGE <= f <= (base + HEAP_SIZE) / PAGE
      ensures Held(f, data + Elements(b.frames), [b] + blocks) <==> Held(f, data, blocks)
    {
      HeldWithMore(f, data, blocks, b);
    }
  }

  lemma HeldWithMore(f: F.FrameNo, data: set<F.FrameNo>, blocks: seq<Block>, b: Block)
    requires Elements(b.frames) !! data
    ensures Held(f, data + Elements(b.frames), [b] + blocks) <==> Held(f, data, blocks)
  {
    var all := [b] + blocks;
    assert f in b.frames <==> f in Elements(b.frames);
    assert all[0] == b && forall i :: 0 <= i < |blocks| ==> all[i + 1] == blocks[i];
    if Held(f, data, blocks) {
      forall i | 0 <= i < |all| ensures f !in all[i].frames {
        assert i > 0 ==> all[i] == blocks[i - 1];
      }
    } else if f in data {
      var i :| 0 <= i < |blocks| && f in blocks[i].frames;
      assert f in all[i + 1].frames;
    }
  }

  /** Nor does a block released with its frames. */
  lemma HeldShrinks(base: nat, data: set<F.FrameNo>, blocks: seq<Block>, i: nat)
    requires FramesBacked(base, data, blocks) && i < |blocks|
    ensures FramesBacked(base, data - Elements(blocks[i].frames), Without(blocks, i))
  {
    forall f: F.FrameNo | base / PAGE <= f <= (base + HEAP_SIZE) / PAGE
      ensures Held(f, data - Elements(blocks[i].frames), Without(blocks, i)) <==> Held(f, data, blocks)
    {
      HeldWithLess(f, data, blocks, i);
    }
  }

  lemma HeldWithLess(f: F.FrameNo, data: set<F.FrameNo>, blocks: seq<Block>, i: nat)
    requires i < |blocks|
    ensures Held(f, data - Elements(blocks[i].frames), Without(blocks, i)) <==> Held(f, data, blocks)
  {
    var rest := Without(blocks, i);
    assert f in blocks[i].frames <==> f in Elements(blocks[i].frames);
    if Held(f, data, blocks) {
      forall k | 0 <= k < |rest| ensures f !in rest[k].frames {
        assert rest[k] == blocks[if k < i then k else k + 1];
      }
    } else if f in data && f !in blocks[i].frames {
      var k :| 0 <= k < |blocks| && f in blocks[k].frames;
      assert rest[if k < i then k else k - 1] == blocks[k];
    }
  }

  /** Pages and frames together. */
  ghost predicate BackedBy(pm: P.Memory, dir: F.FrameNo, base: nat, slabs: map<nat, View>, data: set<F.FrameNo>,
                           blocks: seq<Block>)
  {
    PagesBacked(pm, dir, base, slabs) && FramesBacked(base, data, blocks)
  }

  /** A block is mapped, then its record is placed, perhaps in a new slab. */
  lemma BlockJoins(pm: P.Memory, mapped: P.Memory, after: P.Memory, dir: F.FrameNo, base: nat, slabs: map<nat, View>,
                   more: map<nat, View>, end: nat, data: set<F.FrameNo>, blocks: seq<Block>, b: Block)
    requires BackedBy(pm, dir, base, slabs, data, blocks) && Within(slabs, 2 * base, end)
    requires L.SameOutside(pm, mapped, dir, b.page, |b.frames|) && Elements(b.frames) !! data
    requires (base + HEAP_SIZE) / PAGE <= b.page && b.page + |b.frames| <= 2 * base / PAGE
    requires Extends(mapped, after, dir, base, slabs, more)
    ensures BackedBy(after, dir, base, more, data + Elements(b.frames), [b] + blocks)
  {
    BackedElsewhere(pm, mapped, dir, base, slabs, end, b.page, |b.frames|);
    HeldGrows(base, data, blocks, b);
  }

  /** A block is released. */
  lemma BlockLeaves(pm: P.Memory, after: P.Memory, dir: F.FrameNo, base: nat, slabs: map<nat, View>, end: nat,
                    data: set<F.FrameNo>, blocks: seq<Block>, i: nat)
    requires BackedBy(pm, dir, base, slabs, data, blocks) && Within(slabs, 2 * base, end) && i < |blocks|
    requires L.SameOutside(pm, after, dir, blocks[i].page, |blocks[i].frames|)
    requires (base + HEAP_SIZE) / PAGE <= blocks[i].page && blocks[i].page + |blocks[i].frames| <= 2 * base / PAGE
    ensures BackedBy(after, dir, base, slabs, data - Elements(blocks[i].frames), Without(blocks, i))
  {
    BackedElsewhere(pm, after, dir, base, slabs, end, blocks[i].page, |blocks[i].frames|);
    HeldShrinks(base, data, blocks, i);
  }

  /** Nothing is mapped or taken in the end. */
  lemma NothingJoins(pm: P.Memory, after: P.Memory, dir: F.FrameNo, base: nat, slabs: map<nat, View>, end: nat,
                     data: set<F.FrameNo>, blocks: seq<Block>)
    requires BackedBy(pm, dir, base, slabs, data, blocks) && Within(slabs, 2 * base, end)
    requires BaseOk(base) && L.SameOutside(pm, after, dir, 0, 0)
    ensures BackedBy(after, dir, base, slabs, data, blocks)
  {
    var lo := (base + HEAP_SIZE) / PAGE;
    assert forall p :: 0 <= p && L.Outside(p, lo, 0) ==> L.Outside(p, 0, 0);
    BackedElsewhere(pm, after, dir, base, slabs, end, lo, 0);
  }

  // ---- Bytes ------------------------------------------------------------

  lemma TranslatePage(pm: P.Memory, dir: F.FrameNo, a: P.Addr, f: F.FrameNo)
    requires L.HasFrame(pm, dir, a / PAGE, f)
    ensures P.Translate(pm, dir, a) == F.Some(f * PAGE + a % PAGE)
  {
    assert P.DirIndex(a) == a / PAGE / P.ENTRIES && P.TableIndex(a) == a / PAGE % P.ENTRIES;
  }

  /** Both mappings of a slab's page lead to the same bytes. */
  lemma Aliased(pm: P.Memory, dir: F.FrameNo, base: nat, slabs: map<nat, View>, currentHeap: nat, a: nat)
    requires P.Complete(pm) && BaseOk(base) && PagesBacked(pm, dir, base, slabs)
    requires Dense(slabs, 2 * base, base + currentHeap)
    requires base <= a < base + HEAP_SIZE && a < currentHeap
    ensures P.Translate(pm, dir, a) == P.Translate(pm, dir, a + base) == F.Some(a)
  {
    var s := SlabOf(a) + base;
    AlignedSum(SlabOf(a), base);
    AlignedSum(base, HEAP_SIZE);
    assert PageIn(s, 2 * base, base + currentHeap);
    assert SlabMapped(pm, dir, base, s) && OwnPage(pm, dir, a / PAGE);
    assert (a + base) / PAGE == s / PAGE;
    TranslatePage(pm, dir, a, a / PAGE);
    TranslatePage(pm, dir, a + base, a / PAGE);
  }

  /** Frame f is the one behind address a: of slab page a, or page k of block x. */
  ghost predicate Behind(pm: P.Memory, dir: F.FrameNo, base: nat, slabs: map<nat, View>, blocks: seq<Block>,
                         a: nat, f: F.FrameNo, x: int, k: nat)
  {
    && L.HasFrame(pm, dir, a / PAGE, f)
    && if x < 0 then SlabOf(a) in slabs && base <= SlabOf(a) && f == (SlabOf(a) - base) / PAGE
       else x < |blocks| && k < |blocks[x].frames| && a / PAGE == blocks[x].page + k && f == blocks[x].frames[k]
  }

  /** Every slab's frame is kept for it. */
  ghost predicate SlabHeld(base: nat, data: set<F.FrameNo>, blocks: seq<Block>, s: nat)
  {
    base <= s && (s - base) / PAGE < L.LIMIT && Held((s - base) / PAGE, data, blocks)
  }

  /** Every slab's frame is kept for it if and only if the bump address c has not
      passed the heap's range. */
  lemma SlabFramesExactly(base: nat, data: set<F.FrameNo>, blocks: seq<Block>, slabs: map<nat, View>, c: nat)
    requires BaseOk(base) && FramesBacked(base, data, blocks) && c % PAGE == 0 && base <= c <= base + HEAP_SIZE + PAGE
    requires Within(slabs, 2 * base, base + c) && Dense(slabs, 2 * base, base + c)
    ensures (forall s {:trigger SlabHeld(base, data, blocks, s)} :: s in slabs ==> SlabHeld(base, data, blocks, s))
            <==> c <= base + HEAP_SIZE
  {
    AlignedSum(base, HEAP_SIZE);
    if c <= base + HEAP_SIZE {
      forall s | s in slabs ensures SlabHeld(base, data, blocks, s) {
        assert 2 * base <= s && s + PAGE <= base + c;
        assert Held((s - base) / PAGE, data, blocks);
      }
    } else {
      var s := 2 * base + HEAP_SIZE;
      AlignedSum(base + HEAP_SIZE, base);
      assert PageIn(s, 2 * base, base + c);
      assert (s - base) / PAGE == (base + HEAP_SIZE) / PAGE;
      assert !SlabHeld(base, data, blocks, s);
    }
  }

  /** The slab that the bound check lets through past the range is mapped. */
  ghost predicate ExtraSlab(pm: P.Memory, dir: F.FrameNo, base: nat)
  {
    BaseOk(base) && L.HasFrame(pm, dir, (2 * base + HEAP_SIZE) / PAGE, (base + HEAP_SIZE) / PAGE)
  }

  /** If a block has its frame, every byte of the slab is a byte of the block: what
      a caller stores there overwrites header and free list. */
  lemma ExtraSlabIsBlock(pm: P.Memory, dir: F.FrameNo, base: nat, b: Block, k: nat, i: nat)
    requires ExtraSlab(pm, dir, base) && L.MapsTo(pm, dir, b.page, b.frames) && i < PAGE
    requires k < |b.frames| && b.frames[k] == (base + HEAP_SIZE) / PAGE
    ensures P.Translate(pm, dir, b.Ptr() + k * PAGE + i) == P.Translate(pm, dir, 2 * base + HEAP_SIZE + i)
         == F.Some(base + HEAP_SIZE + i)
  {
    AlignedSum(base, HEAP_SIZE);
    AlignedSum(base, base + HEAP_SIZE);
    var a, f := b.Ptr() + k * PAGE + i, (base + HEAP_SIZE) / PAGE;
    assert a / PAGE == b.page + k && L.HasFrame(pm, dir, b.page + k, b.frames[k]);
    TranslatePage(pm, dir, a, f);
    TranslatePage(pm, dir, 2 * base + HEAP_SIZE + i, f);
  }

  /** If a page table has it, every entry of the table is a word of the slab: its
      formatting rewrites the mappings. */
  lemma ExtraSlabIsTable(pm: P.Memory, dir: F.FrameNo, base: nat, pd: nat, j: nat)
    requires ExtraSlab(pm, dir, base) && pd < P.RECURSIVE && j < P.ENTRIES
    requires P.Uses(pm, dir, pd, (base + HEAP_SIZE) / PAGE)
    requires P.Uses(pm, dir, P.RECURSIVE, dir)
    ensures P.Translate(pm, dir, P.TableVirAddr(pd) + 4 * j) == P.Translate(pm, dir, 2 * base + HEAP_SIZE + 4 * j)
  {
    AlignedSum(base, HEAP_SIZE);
    AlignedSum(base, base + HEAP_SIZE);
    P.RecursiveWindow(pm, dir, pd, j);
    TranslatePage(pm, dir, 2 * base + HEAP_SIZE + 4 * j, (base + HEAP_SIZE) / PAGE);
  }

  /** Two addresses of the heap never share a byte of physical memory. */
  lemma BytesApart(pm: P.Memory, dir: F.FrameNo, base: nat, slabs: map<nat, View>, data: set<F.FrameNo>,
                   blocks: seq<Block>, top: nat, end: nat, a: nat, f: F.FrameNo, x: int, k: nat,
                   b: nat, g: F.FrameNo, y: int, l: nat)
    requires Behind(pm, dir, base, slabs, blocks, a, f, x, k) && Behind(pm, dir, base, slabs, blocks, b, g, y, l)
    requires a != b
    requires base % PAGE == 0 && Mapped(blocks, pm, dir, data, top, end)
    requires forall s {:trigger SlabHeld(base, data, blocks, s)} :: s in slabs ==> SlabHeld(base, data, blocks, s)
    requires a < MEMORY_SIZE && b < MEMORY_SIZE
    ensures P.Translate(pm, dir, a).Some? && P.Translate(pm, dir, a) != P.Translate(pm, dir, b)
  {
    TranslatePage(pm, dir, a, f);
    TranslatePage(pm, dir, b, g);
    if a / PAGE != b / PAGE {
      FramesDiffer(pm, dir, base, slabs, data, blocks, top, end, a, f, x, k, b, g, y, l);
    }
  }

  lemma FramesDiffer(pm: P.Memory, dir: F.FrameNo, base: nat, slabs: map<nat, View>, data: set<F.FrameNo>,
                     blocks: seq<Block>, top: nat, end: nat, a: nat, f: F.FrameNo, x: int, k: nat,
                     b: nat, g: F.FrameNo, y: int, l: nat)
    requires Behind(pm, dir, base, slabs, blocks, a, f, x, k) && Behind(pm, dir, base, slabs, blocks, b, g, y, l)
    requires a / PAGE != b / PAGE && base % PAGE == 0 && Mapped(blocks, pm, dir, data, top, end)
    requires forall s {:trigger SlabHeld(base, data, blocks, s)} :: s in slabs ==> SlabHeld(base, data, blocks, s)
    ensures f != g
  {
    if x >= 0 && y >= 0 {
      assert BlockMapped(blocks[x], pm, dir, data);
      assert f in Elements(blocks[x].frames) && g in Elements(blocks[y].frames);
      assert x < y ==> FramesApart(blocks, x, y);
      assert y < x ==> FramesApart(blocks, y, x);
    } else if x < 0 && y < 0 {
      AlignedDifference(SlabOf(a), base);
      AlignedDifference(SlabOf(b), base);
    } else {
      assert x < 0 ==> SlabHeld(base, data, blocks, SlabOf(a)) && g in blocks[y].frames;
      assert y < 0 ==> SlabHeld(base, data, blocks, SlabOf(b)) && f in blocks[x].frames;
    }
  }

  lemma AlignedDifference(a: nat, b: nat)
    requires a % PAGE == 0 && b % PAGE == 0 && b <= a
    ensures (a - b) / PAGE == a / PAGE - b / PAGE
  {
  }

  /** The frame behind byte i of what a caller holds. */
  lemma GrantFrame(pm: P.Memory, dir: F.FrameNo, base: nat, m: Memory, slabs: map<nat, View>, data: set<F.FrameNo>,
                   blocks: seq<Block>, granted: map<nat, nat>, top: nat, end: nat, p: nat, i: nat)
      returns (f: F.FrameNo, x: int, k: nat)
    requires HeapInv(m, slabs) && PagesBacked(pm, dir, base, slabs) && Mapped(blocks, pm, dir, data, top, end)
    requires Grants(granted, slabs, blocks) && p in granted && i < granted[p]
    ensures Behind(pm, dir, base, slabs, blocks, p + i, f, x, k)
  {
    assert Grant(slabs, blocks, p, granted[p]);
    if SmallGrant(slabs, blocks, p, granted[p]) {
      var s := SlabOf(p);
      LiveInPage(m, slabs, s, p);
      assert Rep(m, s, slabs[s]);
      PageOf(s, p + i);
      assert SlabMapped(pm, dir, base, s) && (p + i) / PAGE == s / PAGE;
      f, x, k := (s - base) / PAGE, -1, 0;
    } else {
      x :| 0 <= x < |blocks| && blocks[x].Ptr() == p && granted[p] <= |blocks[x].frames| * PAGE;
      k := i / PAGE;
      assert BlockMapped(blocks[x], pm, dir, data) && (p + i) / PAGE == blocks[x].page + k;
      f := blocks[x].frames[k];
      assert L.HasFrame(pm, dir, blocks[x].page + k, f);
    }
  }

  /** Bytes of different grants are different bytes of physical memory, as long as
      every slab's frame is held. */
  lemma GrantBytesApart(pm: P.Memory, dir: F.FrameNo, base: nat, m: Memory, slabs: map<nat, View>, data: set<F.FrameNo>,
                        blocks: seq<Block>, granted: map<nat, nat>, top: nat, end: nat, p: nat, i: nat, q: nat, j: nat)
    requires HeapInv(m, slabs) && PagesBacked(pm, dir, base, slabs) && Mapped(blocks, pm, dir, data, top, end)
    requires base % PAGE == 0
    requires Grants(granted, slabs, blocks) && p in granted && i < granted[p] && q in granted && j < granted[q]
    requires forall s {:trigger SlabHeld(base, data, blocks, s)} :: s in slabs ==> SlabHeld(base, data, blocks, s)
    requires p + i != q + j && p + i < MEMORY_SIZE && q + j < MEMORY_SIZE
    ensures P.Translate(pm, dir, p + i).Some? && P.Translate(pm, dir, p + i) != P.Translate(pm, dir, q + j)
  {
    var f, x, k := GrantFrame(pm, dir, base, m, slabs, data, blocks, granted, top, end, p, i);
    var g, y, l := GrantFrame(pm, dir, base, m, slabs, data, blocks, granted, top, end, q, j);
    BytesApart(pm, dir, base, slabs, data, blocks, top, end, p + i, f, x, k, q + j, g, y, l);
  }
}

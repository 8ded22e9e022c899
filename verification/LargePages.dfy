/** The page side of large kernel allocations: the loops of `kmalloc_large`
    and `_kmalloc_large_free` over frames and mappings (memory/kmalloc.c). */
module LargePages {
  import opened Seqs
  import opened FrameAllocator
  import opened PageTables

  datatype Outcome = Mapped | NoMemory | Panic

  const LIMIT: nat := RECURSIVE * ENTRIES

  ghost predicate Outside(p: nat, start: nat, n: nat) { p < LIMIT && !(start <= p < start + n) }

  /** Pages [start, start + |frames|) map to these frames, one each. */
  ghost predicate MapsTo(mem: Memory, dir: FrameNo, start: nat, frames: seq<FrameNo>)
  {
    && Complete(mem) && start + |frames| <= LIMIT
    && forall k :: 0 <= k < |frames| ==> HasFrame(mem, dir, start + k, frames[k])
  }

  /** Page p is mapped to frame f, and writeable. */
  ghost predicate HasFrame(mem: Memory, dir: FrameNo, p: nat, f: FrameNo)
  {
    && Complete(mem) && p < LIMIT && PageAt(mem, dir, p).Some? && PageAt(mem, dir, p).value.frame == f
    && IsWriteable(PageAt(mem, dir, p).value)
  }

  ghost predicate Unmapped(mem: Memory, dir: FrameNo, start: nat, n: nat)
  {
    Complete(mem) && start + n <= LIMIT && forall p :: start <= p < start + n ==> PageAt(mem, dir, p) == None
  }

  ghost predicate SameOutside(mem: Memory, after: Memory, dir: FrameNo, start: nat, n: nat)
  {
    Complete(mem) && Complete(after) &&
    forall p :: 0 <= p && Outside(p, start, n) ==> PageAt(after, dir, p) == PageAt(mem, dir, p)
  }

  lemma OnePage(mem: Memory, after: Memory, dir: FrameNo, page: nat)
    requires Complete(mem) && Complete(after) && page < LIMIT
    requires SameElsewhere(mem, after, dir, DirIndex(page * PAGE_SIZE), TableIndex(page * PAGE_SIZE))
    ensures SameOutside(mem, after, dir, page, 1)
    ensures Lookup(after, dir, DirIndex(page * PAGE_SIZE), TableIndex(page * PAGE_SIZE)) == PageAt(after, dir, page)
    ensures Lookup(mem, dir, DirIndex(page * PAGE_SIZE), TableIndex(page * PAGE_SIZE)) == PageAt(mem, dir, page)
  {
    assert DirIndex(page * PAGE_SIZE) == page / ENTRIES && TableIndex(page * PAGE_SIZE) == page % ENTRIES;
    forall p | 0 <= p && Outside(p, page, 1) ensures PageAt(after, dir, p) == PageAt(mem, dir, p) {
      assert (p / ENTRIES, p % ENTRIES) != (page / ENTRIES, page % ENTRIES);
    }
  }

  /** Mapping the next page extends the run. */
  lemma Extend(mem: Memory, before: Memory, after: Memory, dir: FrameNo, start: nat, frames: seq<FrameNo>, f: FrameNo)
    requires MapsTo(before, dir, start, frames) && SameOutside(mem, before, dir, start, |frames|)
    requires HasFrame(after, dir, start + |frames|, f) && SameOutside(before, after, dir, start + |frames|, 1)
    ensures MapsTo(after, dir, start, frames + [f]) && SameOutside(mem, after, dir, start, |frames| + 1)
  {
    forall k | 0 <= k < |frames| ensures HasFrame(after, dir, start + k, frames[k]) {
      assert HasFrame(before, dir, start + k, frames[k]) && Outside(start + k, start + |frames|, 1);
    }
  }

  /** Unmapping the run brings the old pages back. */
  lemma Undone(mem: Memory, before: Memory, after: Memory, dir: FrameNo, start: nat, n: nat, i: nat)
    requires i <= n && Unmapped(mem, dir, start, n) && SameOutside(mem, before, dir, start, i)
    requires Unmapped(after, dir, start, i) && SameOutside(before, after, dir, start, i)
    ensures SameOutside(mem, after, dir, 0, 0)
  {
  }

  /** Giving some frames back to a full memory leaves no more than those free. */
  lemma FewFree(used: set<FrameNo>, frames: seq<FrameNo>)
    requires Exhausted(used)
    ensures |FreeFrames(used - Elements(frames))| <= |frames|
  {
    ElementCount(frames);
    SubsetSize(FreeFrames(used - Elements(frames)), Elements(frames));
  }

  lemma {:induction false} SubsetSize(a: set<FrameNo>, b: set<FrameNo>)
    requires a <= b
    ensures |a| <= |b|
  {
    if a != {} {
      var x :| x in a;
      SubsetSize(a - {x}, b - {x});
    }
  }

  /** A page mapped by its number, with flags that make it writeable. */
  method MapAt(sp: AddressSpace, page: nat, phys: Addr, flags: bv12) returns (ok: bool)
    requires sp.Valid() && page < LIMIT && phys % PAGE_SIZE == 0 && flags & 0x2 != 0
    modifies sp`mem, sp.pmm, sp.pmm.bitmap
    ensures sp.Valid() && sp.Data() == old(sp.Data()) && old(sp.pmm.Used()) <= sp.pmm.Used()
    ensures ok ==> PageAt(sp.mem, sp.dir, page) == Some(Filled(old(sp.Slot(page * PAGE_SIZE)), phys, flags))
    ensures ok ==> HasFrame(sp.mem, sp.dir, page, phys / PAGE_SIZE)
    ensures ok ==> SameOutside(old(sp.mem), sp.mem, sp.dir, page, 1)
    ensures FullDirectory(old(sp.mem), sp.dir) ==> ok && FullDirectory(sp.mem, sp.dir)
  {
    ok := sp.MapPage(page * PAGE_SIZE, phys, flags);
    if ok {
      OnePage(old(sp.mem), sp.mem, sp.dir, page);
      FilledWriteable(old(sp.Slot(page * PAGE_SIZE)), phys, flags);
    }
  }

  /** One turn of the mapping loop. */
  method MapOne(sp: AddressSpace, page: nat) returns (r: Outcome, ghost f: FrameNo)
    requires sp.Valid() && page < LIMIT
    modifies sp, sp.pmm, sp.pmm.bitmap
    ensures sp.Valid()
    ensures r == NoMemory ==> sp.mem == old(sp.mem) && sp.Data() == old(sp.Data()) && Exhausted(sp.pmm.Used())
    ensures FullDirectory(old(sp.mem), sp.dir) ==> r != Panic && FullDirectory(sp.mem, sp.dir)
    ensures r == Mapped ==> f != 0 && f !in old(sp.pmm.Used())
    ensures r == Mapped ==>
              PageAt(sp.mem, sp.dir, page) == Some(Filled(old(sp.Slot(page * PAGE_SIZE)), f * PAGE_SIZE, 0x2))
    ensures r == Mapped ==> HasFrame(sp.mem, sp.dir, page, f) && SameOutside(old(sp.mem), sp.mem, sp.dir, page, 1)
    ensures r == Mapped ==> sp.Data() == old(sp.Data()) + {f}
    ensures old(sp.pmm.Used()) <= sp.pmm.Used()
  {
    var addr := sp.pmm.AllocFrame();
    f := addr / BLOCK_SIZE;
    if addr == NO_FRAME {
      return NoMemory, f;
    }
    var ok := MapAt(sp, page, addr, PAGE_WRITEABLE);
    r := if ok then Mapped else Panic;
  }

  /** The unmapping loop: pages [start, start + n) go, and exactly their frames
      come back. */
  method UnmapRange(sp: AddressSpace, start: nat, n: nat, ghost frames: seq<FrameNo>)
    requires sp.Valid() && n == |frames| && MapsTo(sp.mem, sp.dir, start, frames) && Distinct(frames)
    requires 0 !in frames && Elements(frames) <= sp.Data()
    modifies sp, sp.pmm, sp.pmm.bitmap
    ensures sp.Valid()
    ensures Unmapped(sp.mem, sp.dir, start, n) && SameOutside(old(sp.mem), sp.mem, sp.dir, start, n)
    ensures sp.Data() == old(sp.Data()) - Elements(frames) && sp.pmm.Used() == old(sp.pmm.Used()) - Elements(frames)
  {
    ghost var mem0, data0, used0 := sp.mem, sp.Data(), sp.pmm.Used();
    for j := 0 to n
      invariant sp.Valid()
      invariant Undoing(mem0, sp.mem, sp.dir, start, frames, j, data0, sp.Data(), used0, sp.pmm.Used())
    {
      ghost var before, data, used := sp.mem, sp.Data(), sp.pmm.Used();
      UndoingNext(mem0, before, sp.dir, start, frames, j, data0, data, used0, used);
      UnmapOne(sp, start + j, frames[j]);
      UndoingStep(mem0, before, sp.mem, sp.dir, start, frames, j, data0, data, sp.Data(), used0, used, sp.pmm.Used());
    }
    assert frames[..n] == frames;
  }

  /** The first j pages are gone, and exactly their frames. */
  ghost predicate Undoing(mem0: Memory, mem: Memory, dir: FrameNo, start: nat, frames: seq<FrameNo>, j: int,
                          data0: set<FrameNo>, data: set<FrameNo>, used0: set<FrameNo>, used: set<FrameNo>)
  {
    && 0 <= j <= |frames| && Unmapped(mem, dir, start, j) && SameOutside(mem0, mem, dir, start, j)
    && data == data0 - Elements(frames[..j]) && used == used0 - Elements(frames[..j])
  }

  lemma UndoingNext(mem0: Memory, mem: Memory, dir: FrameNo, start: nat, frames: seq<FrameNo>, j: nat,
                    data0: set<FrameNo>, data: set<FrameNo>, used0: set<FrameNo>, used: set<FrameNo>)
    requires Undoing(mem0, mem, dir, start, frames, j, data0, data, used0, used) && j < |frames|
    requires MapsTo(mem0, dir, start, frames) && Distinct(frames) && Elements(frames) <= data0
    ensures HasFrame(mem, dir, start + j, frames[j]) && frames[j] in data
  {
    assert HasFrame(mem0, dir, start + j, frames[j]) && frames[j] in Elements(frames);
    assert Outside(start + j, start, j);
  }

  lemma UndoingStep(mem0: Memory, before: Memory, after: Memory, dir: FrameNo, start: nat, frames: seq<FrameNo>, j: nat,
                    data0: set<FrameNo>, data: set<FrameNo>, less: set<FrameNo>,
                    used0: set<FrameNo>, used: set<FrameNo>, kept: set<FrameNo>)
    requires Undoing(mem0, before, dir, start, frames, j, data0, data, used0, used) && j < |frames|
    requires start + |frames| <= LIMIT && SameOutside(before, after, dir, start + j, 1)
    requires PageAt(after, dir, start + j) == None && less == data - {frames[j]} && kept == used - {frames[j]}
    ensures Undoing(mem0, after, dir, start, frames, j + 1, data0, less, used0, kept)
  {
    assert frames[..j + 1] == frames[..j] + [frames[j]];
    assert Elements(frames[..j + 1]) == Elements(frames[..j]) + {frames[j]};
    forall p | 0 <= p && Outside(p, start, j + 1) ensures PageAt(after, dir, p) == PageAt(mem0, dir, p) {
      assert Outside(p, start, j) && Outside(p, start + j, 1);
    }
    forall p | start <= p < start + j ensures PageAt(after, dir, p) == None {
      assert Outside(p, start + j, 1);
    }
  }

  method UnmapOne(sp: AddressSpace, page: nat, ghost f: FrameNo)
    requires sp.Valid() && HasFrame(sp.mem, sp.dir, page, f) && f != 0 && f in sp.Data()
    modifies sp, sp.pmm, sp.pmm.bitmap
    ensures sp.Valid()
    ensures PageAt(sp.mem, sp.dir, page) == None && SameOutside(old(sp.mem), sp.mem, sp.dir, page, 1)
    ensures sp.Data() == old(sp.Data()) - {f} && sp.pmm.Used() == old(sp.pmm.Used()) - {f}
  {
    assert DirIndex(page * PAGE_SIZE) == page / ENTRIES && TableIndex(page * PAGE_SIZE) == page % ENTRIES;
    sp.UnmapPage(page * PAGE_SIZE);
    OnePage(old(sp.mem), sp.mem, sp.dir, page);
  }

  /** What the loop does when the next frame cannot be had. */
  method Rollback(sp: AddressSpace, start: nat, i: nat, ghost n: nat, ghost frames: seq<FrameNo>,
                  ghost mem0: Memory, ghost data0: set<FrameNo>)
    requires sp.Valid() && Exhausted(sp.pmm.Used()) && i == |frames| < n
    requires Distinct(frames) && 0 !in frames && MapsTo(sp.mem, sp.dir, start, frames)
    requires Unmapped(mem0, sp.dir, start, n) && SameOutside(mem0, sp.mem, sp.dir, start, i)
    requires sp.Data() == data0 + Elements(frames) && Elements(frames) !! data0
    modifies sp, sp.pmm, sp.pmm.bitmap
    ensures sp.Valid() && SameOutside(mem0, sp.mem, sp.dir, 0, 0)
    ensures sp.Data() == data0 && |FreeFrames(sp.pmm.Used())| < n
  {
    FewFree(sp.pmm.Used(), frames);
    ghost var before := sp.mem;
    UnmapRange(sp, start, i, frames);
    Undone(mem0, before, sp.mem, sp.dir, start, n, i);
  }

  /** The mapping loop of `kmalloc_large` with its rollback. Success maps n
      frames that were free, each at its own new page; running out of frames
      undoes every mapping and gives every data frame back. Only page tables
      made on the way stay. */
  method MapFresh(sp: AddressSpace, start: nat, n: nat) returns (r: Outcome, ghost frames: seq<FrameNo>)
    requires sp.Valid() && Unmapped(sp.mem, sp.dir, start, n)
    modifies sp, sp.pmm, sp.pmm.bitmap
    ensures sp.Valid()
    ensures r == Mapped ==> |frames| == n && Distinct(frames) && MapsTo(sp.mem, sp.dir, start, frames)
    ensures r == Mapped ==> SameOutside(old(sp.mem), sp.mem, sp.dir, start, n)
    ensures r == Mapped ==> 0 !in frames && Elements(frames) !! old(sp.pmm.Used())
    ensures r == Mapped ==> sp.Data() == old(sp.Data()) + Elements(frames)
    ensures r == NoMemory ==> SameOutside(old(sp.mem), sp.mem, sp.dir, 0, 0)
    ensures r == NoMemory ==> sp.Data() == old(sp.Data()) && |FreeFrames(sp.pmm.Used())| < n
    ensures FullDirectory(old(sp.mem), sp.dir) ==> r != Panic && (r == Mapped ==> FullDirectory(sp.mem, sp.dir))
  {
    frames, r := [], Mapped;
    ghost var mem0, used0, data0 := sp.mem, sp.pmm.Used(), sp.Data();
    var i := 0;
    while i < n && r == Mapped
      invariant 0 <= i <= n && sp.Valid()
      invariant r == Mapped ==> |frames| == i
      invariant r == Mapped ==> Progress(mem0, sp.mem, sp.dir, start, frames, data0, sp.Data(), used0, sp.pmm.Used())
      invariant r == NoMemory ==> GivenUp(mem0, sp.mem, sp.dir, data0, sp.Data(), sp.pmm.Used(), n)
      invariant r == Panic ==> !FullDirectory(mem0, sp.dir)
      decreases n - i, r == Mapped
    {
      ghost var f: FrameNo;
      r, f := MapTurn(sp, start, i, n, frames, mem0, data0, used0);
      if r == Mapped {
        frames := frames + [f];
        i := i + 1;
      }
    }
  }

  /** The body of the loop. */
  method MapTurn(sp: AddressSpace, start: nat, i: nat, ghost n: nat, ghost frames: seq<FrameNo>,
                 ghost mem0: Memory, ghost data0: set<FrameNo>, ghost used0: set<FrameNo>)
      returns (r: Outcome, ghost f: FrameNo)
    requires sp.Valid() && i == |frames| < n && Unmapped(mem0, sp.dir, start, n) && data0 <= used0
    requires Progress(mem0, sp.mem, sp.dir, start, frames, data0, sp.Data(), used0, sp.pmm.Used())
    modifies sp, sp.pmm, sp.pmm.bitmap
    ensures sp.Valid() && (r == Panic ==> !FullDirectory(mem0, sp.dir))
    ensures r == Mapped ==> Progress(mem0, sp.mem, sp.dir, start, frames + [f], data0, sp.Data(), used0, sp.pmm.Used())
    ensures r == NoMemory ==> GivenUp(mem0, sp.mem, sp.dir, data0, sp.Data(), sp.pmm.Used(), n)
  {
    ghost var before, data, used := sp.mem, sp.Data(), sp.pmm.Used();
    r, f := MapOne(sp, start + i);
    if r == Mapped {
      ProgressStep(mem0, before, sp.mem, sp.dir, start, frames, f, data0, data, sp.Data(), used0, used, sp.pmm.Used());
    } else if r == NoMemory {
      Rollback(sp, start, i, n, frames, mem0, data0);
    }
  }

  /** Where the loop stands: the frames taken so far, their pages, and all else
      as it was. */
  ghost predicate Progress(mem0: Memory, mem: Memory, dir: FrameNo, start: nat, frames: seq<FrameNo>,
                           data0: set<FrameNo>, data: set<FrameNo>, used0: set<FrameNo>, used: set<FrameNo>)
  {
    && Distinct(frames) && 0 !in frames && Elements(frames) !! used0
    && MapsTo(mem, dir, start, frames) && SameOutside(mem0, mem, dir, start, |frames|)
    && data == data0 + Elements(frames) && used0 + data <= used
    && (FullDirectory(mem0, dir) ==> FullDirectory(mem, dir))
  }

  ghost predicate GivenUp(mem0: Memory, mem: Memory, dir: FrameNo, data0: set<FrameNo>, data: set<FrameNo>,
                          used: set<FrameNo>, n: nat)
  {
    SameOutside(mem0, mem, dir, 0, 0) && data == data0 && |FreeFrames(used)| < n
  }

  lemma ProgressStep(mem0: Memory, before: Memory, after: Memory, dir: FrameNo, start: nat, frames: seq<FrameNo>,
                     f: FrameNo, data0: set<FrameNo>, data: set<FrameNo>, more: set<FrameNo>,
                     used0: set<FrameNo>, used: set<FrameNo>, taken: set<FrameNo>)
    requires Progress(mem0, before, dir, start, frames, data0, data, used0, used)
    requires f != 0 && f !in used && more == data + {f} && used + more <= taken
    requires HasFrame(after, dir, start + |frames|, f) && SameOutside(before, after, dir, start + |frames|, 1)
    requires FullDirectory(before, dir) ==> FullDirectory(after, dir)
    ensures Progress(mem0, after, dir, start, frames + [f], data0, more, used0, taken)
  {
    Extend(mem0, before, after, dir, start, frames, f);
    assert Elements(frames + [f]) == Elements(frames) + {f};
    assert forall x :: x in frames ==> x in Elements(frames);
  }
}

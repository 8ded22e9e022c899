/** Two-level page tables with a recursive slot, as memory/vmm.c edits them and
    the processor walks them (32-bit paging, section 4.3 of the Intel SDM
    Volume 3A). Physical memory is seen as pages of 1024 entries. */
module PageTables {
  import opened FrameAllocator

  const PAGE_SIZE: nat := 4096
  const ENTRIES: nat := 1024
  const RECURSIVE: nat := 1023
  const PRESENT: bv12 := 0x1
  const PAGE_WRITEABLE: bv12 := 0x2
  const GLOBAL: bv12 := 0x100
  const SWAPPED: bv12 := 0x200
  const KERNEL_PAGE_FLAGS: bv12 := PAGE_WRITEABLE | PRESENT | GLOBAL

  type Addr = a: nat | a < 0x1_0000_0000

  /** A 32-bit entry: its upper 20 bits and its lower 12. */
  datatype Entry = Entry(frame: FrameNo, flags: bv12)

  type Page = p: seq<Entry> | |p| == 1024 witness seq(1024, _ => Entry(0, 0))

  type Memory = seq<Page>

  // ---- Entry and index helpers ------------------------------------------

  function DirIndex(v: Addr): nat { v / 0x40_0000 }

  function TableIndex(v: Addr): nat { v / PAGE_SIZE % ENTRIES }

  predicate IsPresent(e: Entry) { e.flags & PRESENT != 0 }

  predicate IsWriteable(e: Entry) { e.flags & PAGE_WRITEABLE != 0 }

  predicate IsSwapped(e: Entry) { e.flags & SWAPPED != 0 }

  /** `page_entry_set_frame` ORs the whole address in, low bits included. */
  function SetFrame(e: Entry, phys: Addr): Entry {
    Entry(phys / PAGE_SIZE, e.flags | ((phys % PAGE_SIZE) as bv12))
  }

  function AddAttrib(e: Entry, attrib: bv12): Entry { e.(flags := e.flags | attrib) }

  function RemoveAttrib(e: Entry, attrib: bv12): Entry { e.(flags := e.flags & !attrib) }

  /** The frame's number under the old, the asked-for and the PRESENT flags. */
  function Filled(e: Entry, phys: Addr, flags: bv12): Entry { Entry(phys / PAGE_SIZE, e.flags | (flags | PRESENT)) }

  lemma FilledEntry(e: Entry, phys: Addr, flags: bv12)
    requires phys % PAGE_SIZE == 0
    ensures AddAttrib(SetFrame(e, phys), flags | PRESENT) == Filled(e, phys, flags) && IsPresent(Filled(e, phys, flags))
  {
  }

  /** Mapping with the flag 0x2 gives a page that is present and writeable, whatever
      flags the entry had. */
  lemma FilledWriteable(e: Entry, phys: Addr, flags: bv12)
    requires flags & 0x2 != 0
    ensures IsPresent(Filled(e, phys, flags)) && IsWriteable(Filled(e, phys, flags))
    ensures Filled(e, phys, flags).flags & 0x3 == 0x3
  {
  }

  lemma PresentUndone(flags: bv12)
    requires flags & PRESENT == 0
    ensures (flags | PRESENT) & !PRESENT == flags
  {
  }

  lemma BothFlags(e: Entry)
    requires IsPresent(e) && IsWriteable(e)
    ensures e.flags & 0x3 == 0x3
  {
  }

  lemma TableFlags(flags: bv12)
    ensures flags | PRESENT | PAGE_WRITEABLE == flags | 0x3
    ensures (flags | 0x3) & PAGE_WRITEABLE != 0 && (flags | 0x3) & PRESENT != 0
    ensures (flags | 0x3) & SWAPPED == flags & SWAPPED
  {
  }

  /** Taking PRESENT off an entry that was given a frame leaves the memory with
      the old flags under the frame. */
  lemma AllocUndone(before: Memory, f: FrameNo, j: nat, t: FrameNo)
    requires Complete(before) && j < ENTRIES && !IsPresent(before[f][j])
    ensures var e := Entry(t, before[f][j].flags | PRESENT);
            WriteEntry(WriteEntry(before, f, j, e), f, j, RemoveAttrib(e, PRESENT)) == WriteEntry(before, f, j,
                       Entry(t, before[f][j].flags))
  {
    PresentUndone(before[f][j].flags);
    WriteTwice(before, f, j, Entry(t, before[f][j].flags | PRESENT), Entry(t, before[f][j].flags));
  }

  /** `get_page_table_vir_addr`. */
  function TableVirAddr(pd: nat): Addr
    requires pd < ENTRIES
  {
    RECURSIVE * 0x40_0000 + pd * PAGE_SIZE
  }

  const EMPTY_PAGE: Page := seq(1024, _ => Entry(0, 0))

  // ---- The processor's walk ---------------------------------------------

  predicate Complete(mem: Memory) { |mem| == FRAME_COUNT }

  /** The page entry reached through directory slot pd and table slot pt. */
  function Lookup(mem: Memory, dir: FrameNo, pd: nat, pt: nat): Option<Entry>
    requires Complete(mem) && pd < ENTRIES && pt < ENTRIES
  {
    var pde := mem[dir][pd];
    if !IsPresent(pde) then None
    else if !IsPresent(mem[pde.frame][pt]) then None
    else Some(mem[pde.frame][pt])
  }

  function Translate(mem: Memory, dir: FrameNo, v: Addr): Option<nat>
    requires Complete(mem)
  {
    match Lookup(mem, dir, DirIndex(v), TableIndex(v))
    case None => None
    case Some(e) => Some(e.frame * PAGE_SIZE + v % PAGE_SIZE)
  }

  /** Through the recursive slot, the window at TableVirAddr(pd) shows the
      table of directory entry pd, word by word: the paged and unpaged branches
      of `get_page_table_addr` name the same entry. */
  lemma RecursiveWindow(mem: Memory, dir: FrameNo, pd: nat, j: nat)
    requires Complete(mem) && pd < ENTRIES && j < ENTRIES
    requires IsPresent(mem[dir][RECURSIVE]) && mem[dir][RECURSIVE].frame == dir
    requires IsPresent(mem[dir][pd])
    ensures Translate(mem, dir, TableVirAddr(pd) + 4 * j) == Some(mem[dir][pd].frame * PAGE_SIZE + 4 * j)
  {
    var v: Addr := TableVirAddr(pd) + 4 * j;
    assert v / PAGE_SIZE == RECURSIVE * ENTRIES + pd;
    assert DirIndex(v) == RECURSIVE && TableIndex(v) == pd && v % PAGE_SIZE == 4 * j;
  }

  // ---- The effect of writing one table entry ----------------------------

  function WriteEntry(mem: Memory, f: FrameNo, j: nat, e: Entry): Memory
    requires Complete(mem) && j < ENTRIES
  {
    mem[f := mem[f][j := e]]
  }

  lemma WriteTwice(mem: Memory, f: FrameNo, j: nat, a: Entry, b: Entry)
    requires Complete(mem) && j < ENTRIES
    ensures WriteEntry(WriteEntry(mem, f, j, a), f, j, b) == WriteEntry(mem, f, j, b)
    ensures WriteEntry(mem, f, j, mem[f][j]) == mem
  {
    assert mem[f][j := a][j := b] == mem[f][j := b];
    assert mem[f][j := mem[f][j]] == mem[f];
  }

  /** Directory slot pd leads to table frame t. */
  predicate Uses(mem: Memory, dir: FrameNo, pd: nat, t: FrameNo)
    requires Complete(mem) && pd < ENTRIES
  {
    IsPresent(mem[dir][pd]) && mem[dir][pd].frame == t
  }

  /** Exactly which pages see a table write: slot pt of every directory entry
      that leads to the table written. */
  lemma WriteEffect(mem: Memory, dir: FrameNo, t: FrameNo, T: nat, e: Entry, pd: nat, pt: nat)
    requires Complete(mem) && T < ENTRIES && pd < ENTRIES && pt < ENTRIES && t != dir
    ensures var after := WriteEntry(mem, t, T, e);
            Lookup(after, dir, pd, pt) ==
            if Uses(mem, dir, pd, t) && pt == T then (if IsPresent(e) then Some(e) else None)
            else Lookup(mem, dir, pd, pt)
  {
  }

  /** Writing entry e for the page (D, T) changes no other page. */
  ghost predicate LocalWrite(mem: Memory, dir: FrameNo, D: nat, T: nat, e: Entry)
    requires Complete(mem) && D < ENTRIES && T < ENTRIES
  {
    var after := WriteEntry(mem, mem[dir][D].frame, T, e);
    forall pd: nat, pt: nat :: pd < ENTRIES && pt < ENTRIES && (pd, pt) != (D, T)
      ==> Lookup(after, dir, pd, pt) == Lookup(mem, dir, pd, pt)
  }

  /** A write is local exactly when it changes nothing or no other present
      directory entry shares the table. */
  lemma LocalExactlyWhenUnshared(mem: Memory, dir: FrameNo, D: nat, T: nat, e: Entry)
    requires Complete(mem) && D < ENTRIES && T < ENTRIES
    requires IsPresent(mem[dir][D]) && mem[dir][D].frame != dir && IsPresent(e)
    ensures LocalWrite(mem, dir, D, T, e) <==>
            || Lookup(mem, dir, D, T) == Some(e)
            || forall pd: nat :: pd < ENTRIES && pd != D ==> !Uses(mem, dir, pd, mem[dir][D].frame)
  {
    var t := mem[dir][D].frame;
    var after := WriteEntry(mem, t, T, e);
    forall pd: nat, pt: nat | pd < ENTRIES && pt < ENTRIES
      ensures Lookup(after, dir, pd, pt) ==
              if Uses(mem, dir, pd, t) && pt == T then Some(e) else Lookup(mem, dir, pd, pt)
    {
      WriteEffect(mem, dir, t, T, e, pd, pt);
    }
    if LocalWrite(mem, dir, D, T, e) {
      forall pd: nat | pd < ENTRIES && pd != D && Uses(mem, dir, pd, t)
        ensures Lookup(mem, dir, D, T) == Some(e)
      {
        assert Lookup(after, dir, pd, T) == Lookup(mem, dir, pd, T);
      }
    }
  }

  /** The directory `vmm_init` starts from: every entry of a zeroed page gets
      KERNEL_PAGE_FLAGS, PRESENT among them, although its comment says Not Present. */
  const INIT_DIRECTORY: Page := seq(1024, _ => AddAttrib(Entry(0, 0), KERNEL_PAGE_FLAGS))

  /** So all 1024 entries share the table in frame 0, and mapping one page maps
      the same slot of every other directory entry. */
  lemma InitDirectoryShares(mem: Memory, dir: FrameNo, D: nat, T: nat, pd: nat, e: Entry)
    requires Complete(mem) && D < ENTRIES && T < ENTRIES && pd < ENTRIES
    requires dir != 0 && mem[dir] == INIT_DIRECTORY && IsPresent(e)
    ensures var after := WriteEntry(mem, mem[dir][D].frame, T, e);
            Lookup(after, dir, pd, T) == Some(e)
    ensures pd != D && Lookup(mem, dir, D, T) != Some(e) ==> !LocalWrite(mem, dir, D, T, e)
  {
    assert AddAttrib(Entry(0, 0), KERNEL_PAGE_FLAGS) == Entry(0, 0x103);
    WriteEffect(mem, dir, 0, T, e, pd, T);
    if pd != D {
      LocalExactlyWhenUnshared(mem, dir, D, T, e);
      assert Uses(mem, dir, pd, 0);
    }
  }

  // ---- Address spaces ---------------------------------------------------

  /** Distinct present directory entries below the recursive slot have distinct
      tables, none of them the directory itself, and none is swapped out. */
  ghost predicate WellFormed(mem: Memory, dir: FrameNo)
  {
    && Complete(mem)
    && (forall i: nat :: i < RECURSIVE ==> !IsSwapped(mem[dir][i]))
    && (forall i: nat :: i < RECURSIVE ==> !Uses(mem, dir, i, dir))
    && (forall i: nat, j: nat :: i < j < RECURSIVE && IsPresent(mem[dir][i])
          ==> !Uses(mem, dir, j, mem[dir][i].frame))
  }

  /** The frames that hold the directory and its tables. */
  ghost predicate IsTable(mem: Memory, dir: FrameNo, f: FrameNo)
    requires Complete(mem)
  {
    f == dir || exists i: nat :: i < RECURSIVE && Uses(mem, dir, i, f)
  }

  /** The pages of the two memories agree, except page (D, T). */
  ghost predicate SameElsewhere(mem: Memory, after: Memory, dir: FrameNo, D: nat, T: nat)
    requires Complete(mem) && Complete(after)
  {
    forall pd: nat, pt: nat :: pd < RECURSIVE && pt < ENTRIES && (pd, pt) != (D, T)
      ==> Lookup(after, dir, pd, pt) == Lookup(mem, dir, pd, pt)
  }

  /** Page number p, below the recursive window. */
  function PageAt(mem: Memory, dir: FrameNo, p: nat): Option<Entry>
    requires Complete(mem) && p < RECURSIVE * ENTRIES
  {
    Lookup(mem, dir, p / ENTRIES, p % ENTRIES)
  }

  ghost predicate SamePages(mem: Memory, after: Memory, dir: FrameNo)
    requires Complete(mem) && Complete(after)
  {
    forall pd: nat, pt: nat :: pd < RECURSIVE && pt < ENTRIES
      ==> Lookup(after, dir, pd, pt) == Lookup(mem, dir, pd, pt)
  }

  /** Hanging a cleared table from an absent directory entry maps nothing yet. */
  lemma HangTable(mem: Memory, dir: FrameNo, D: nat, t: FrameNo, pde: Entry)
    requires WellFormed(mem, dir) && D < RECURSIVE && !IsPresent(mem[dir][D])
    requires !IsTable(mem, dir, t) && IsPresent(pde) && !IsSwapped(pde) && pde.frame == t
    ensures var after := WriteEntry(mem, dir, D, pde)[t := EMPTY_PAGE];
            && WellFormed(after, dir)
            && SamePages(mem, after, dir)
            && after[dir] == mem[dir][D := pde]
            && forall f: FrameNo :: IsTable(after, dir, f) <==> f == t || IsTable(mem, dir, f)
  {
    var after := WriteEntry(mem, dir, D, pde)[t := EMPTY_PAGE];
    assert after[dir] == mem[dir][D := pde];
    assert forall i: nat, f: FrameNo :: i < RECURSIVE && i != D ==> (Uses(after, dir, i, f) <==> Uses(mem, dir, i, f));
    assert Uses(after, dir, D, t);
    forall i: nat, j: nat | i < j < RECURSIVE && IsPresent(after[dir][i])
      ensures !Uses(after, dir, j, after[dir][i].frame)
    {
      assert Uses(after, dir, i, after[dir][i].frame);
      assert i != D ==> Uses(mem, dir, i, mem[dir][i].frame);
    }
    forall pd: nat, pt: nat | pd < RECURSIVE && pt < ENTRIES
      ensures Lookup(after, dir, pd, pt) == Lookup(mem, dir, pd, pt)
    {
      if pd != D && IsPresent(mem[dir][pd]) {
        assert Uses(mem, dir, pd, mem[dir][pd].frame);
      }
    }
    forall f: FrameNo ensures IsTable(after, dir, f) <==> f == t || IsTable(mem, dir, f) {
      if f == t {
        assert Uses(after, dir, D, f);
      }
    }
  }

  /** A frame that becomes a table is no data. */
  lemma SameData(before: Memory, after: Memory, dir: FrameNo, used: set<FrameNo>, more: set<FrameNo>, t: FrameNo)
    requires Complete(before) && Complete(after) && t !in used && more == used + {t}
    requires forall f: FrameNo :: IsTable(after, dir, f) <==> f == t || IsTable(before, dir, f)
    ensures (set f: FrameNo | f in more && !IsTable(after, dir, f))
         == (set f: FrameNo | f in used && !IsTable(before, dir, f))
  {
  }

  /** The table that a mapping makes: writeable, empty, and unseen by any page. */
  lemma TableMade(mem: Memory, after: Memory, dir: FrameNo, D: nat, t: FrameNo)
    requires WellFormed(mem, dir) && D < RECURSIVE && !IsPresent(mem[dir][D]) && !IsTable(mem, dir, t)
    requires after == WriteEntry(mem, dir, D, Entry(t, mem[dir][D].flags | 0x3))[t := EMPTY_PAGE]
    ensures WellFormed(after, dir) && SamePages(mem, after, dir) && after[t] == EMPTY_PAGE
    ensures after[dir][D] == Entry(t, mem[dir][D].flags | 0x3) && IsPresent(after[dir][D]) && IsWriteable(after[dir][D])
    ensures forall i: nat :: i < ENTRIES && i != D ==> after[dir][i] == mem[dir][i]
    ensures forall f: FrameNo :: IsTable(after, dir, f) <==> f == t || IsTable(mem, dir, f)
  {
    TableFlags(mem[dir][D].flags);
    HangTable(mem, dir, D, t, Entry(t, mem[dir][D].flags | 0x3));
  }

  /** Rewriting an absent directory entry, still absent, changes no page. */
  lemma AbsentEntry(mem: Memory, after: Memory, dir: FrameNo, D: nat)
    requires WellFormed(mem, dir) && D < RECURSIVE && !IsPresent(mem[dir][D])
    requires Complete(after) && after == WriteEntry(mem, dir, D, after[dir][D])
    requires !IsPresent(after[dir][D]) && !IsSwapped(after[dir][D])
    ensures WellFormed(after, dir) && SamePages(mem, after, dir)
    ensures forall i: nat :: i < ENTRIES && i != D ==> after[dir][i] == mem[dir][i]
    ensures forall f: FrameNo :: IsTable(after, dir, f) <==> IsTable(mem, dir, f)
  {
    assert forall i: nat, f: FrameNo :: i < RECURSIVE ==> (Uses(after, dir, i, f) <==> Uses(mem, dir, i, f));
    forall pd: nat, pt: nat | pd < RECURSIVE && pt < ENTRIES
      ensures Lookup(after, dir, pd, pt) == Lookup(mem, dir, pd, pt)
    {
      if IsPresent(mem[dir][pd]) {
        assert Uses(mem, dir, pd, mem[dir][pd].frame);
      }
    }
  }

  /** Rewriting one slot of a table keeps the shape and every other page. */
  lemma RewriteSlot(mem: Memory, dir: FrameNo, D: nat, T: nat, e: Entry)
    requires WellFormed(mem, dir) && D < RECURSIVE && T < ENTRIES && IsPresent(mem[dir][D])
    ensures var after := WriteEntry(mem, mem[dir][D].frame, T, e);
            && WellFormed(after, dir)
            && after[dir] == mem[dir]
            && SameElsewhere(mem, after, dir, D, T)
            && Lookup(after, dir, D, T) == (if IsPresent(e) then Some(e) else None)
            && forall f: FrameNo :: IsTable(after, dir, f) <==> IsTable(mem, dir, f)
  {
    var t := mem[dir][D].frame;
    var after := WriteEntry(mem, t, T, e);
    assert Uses(mem, dir, D, t);
    assert after[dir] == mem[dir];
    assert forall i: nat, f: FrameNo :: i < RECURSIVE ==> (Uses(after, dir, i, f) <==> Uses(mem, dir, i, f));
    forall pd: nat, pt: nat | pd < RECURSIVE && pt < ENTRIES
      ensures Lookup(after, dir, pd, pt) ==
              if (pd, pt) == (D, T) then (if IsPresent(e) then Some(e) else None) else Lookup(mem, dir, pd, pt)
    {
      WriteEffect(mem, dir, t, T, e, pd, pt);
    }
  }

  /** What a mapping means for addresses: the whole target page translates to
      the frame plus the offset, and every address outside it as before. */
  lemma MapTranslates(mem: Memory, after: Memory, dir: FrameNo, v: Addr, phys: Addr, w: Addr)
    requires Complete(mem) && Complete(after) && DirIndex(v) < RECURSIVE && DirIndex(w) < RECURSIVE
    requires phys % PAGE_SIZE == 0 && SameElsewhere(mem, after, dir, DirIndex(v), TableIndex(v))
    requires var e := Lookup(after, dir, DirIndex(v), TableIndex(v)); e.Some? && e.value.frame == phys / PAGE_SIZE
    ensures Translate(after, dir, w) ==
            if w / PAGE_SIZE == v / PAGE_SIZE then Some(phys + w % PAGE_SIZE) else Translate(mem, dir, w)
  {
    assert w / PAGE_SIZE == DirIndex(w) * ENTRIES + TableIndex(w);
    assert v / PAGE_SIZE == DirIndex(v) * ENTRIES + TableIndex(v);
  }

  /** Every directory entry but the recursive one has its table. */
  ghost predicate FullDirectory(mem: Memory, dir: FrameNo)
  {
    Complete(mem) && forall i: nat :: i < RECURSIVE ==> IsPresent(mem[dir][i])
  }

  /** The loaded page directory together with the frame allocator behind it. */
  class AddressSpace {
    var mem: Memory
    const dir: FrameNo
    const paging: bool
    const pmm: Pmm

    constructor (mem: Memory, dir: FrameNo, paging: bool, pmm: Pmm)
      ensures this.mem == mem && this.dir == dir && this.paging == paging && this.pmm == pmm
    {
      this.mem, this.dir, this.paging, this.pmm := mem, dir, paging, pmm;
    }

    ghost predicate Valid()
      reads this, pmm, pmm.bitmap
    {
      && pmm.Valid()
      && WellFormed(mem, dir)
      && (paging ==> Uses(mem, dir, RECURSIVE, dir))
      && forall f: FrameNo :: IsTable(mem, dir, f) ==> f in pmm.Used()
    }

    /** The frames in use for something other than the directory and its tables. */
    ghost function Data(): set<FrameNo>
      requires Valid()
      reads this, pmm, pmm.bitmap
    {
      set f: FrameNo | f in pmm.Used() && !IsTable(mem, dir, f)
    }

    /** What the slot of v's page holds; a table not there yet will be cleared. */
    ghost function Slot(v: Addr): Entry
      requires Complete(mem)
      reads this
    {
      if IsPresent(mem[dir][DirIndex(v)]) then mem[mem[dir][DirIndex(v)].frame][TableIndex(v)] else Entry(0, 0)
    }

    /** `get_page_table_addr`, as the frame the processor reaches: by the walk of
        the recursive window when paging is on, directly when it is off. */
    method TableFrame(pd: nat) returns (t: FrameNo)
      requires Valid() && pd < RECURSIVE && IsPresent(mem[dir][pd])
      ensures t == mem[dir][pd].frame
    {
      if paging {
        RecursiveWindow(mem, dir, pd, 0);
        t := Translate(mem, dir, TableVirAddr(pd)).value / PAGE_SIZE;
      } else {
        t := mem[dir][pd].frame;
      }
    }

    /** `vmm_alloc_permanent_page` on directory entry pd. Swapping a page out
        frees no frame, so running out of frames is failure. */
    method AllocPermanentPage(pd: nat) returns (ok: bool)
      requires pmm.Valid() && Complete(mem) && pd < RECURSIVE
      modifies this`mem, pmm, pmm.bitmap
      ensures pmm.Valid() && Complete(mem)
      ensures !ok ==> mem == old(mem) && pmm.Used() == old(pmm.Used()) && Exhausted(pmm.Used())
      ensures ok ==> var t := mem[dir][pd].frame;
                     && t != 0 && t !in old(pmm.Used()) && pmm.Used() == old(pmm.Used()) + {t}
                     && mem == WriteEntry(old(mem), dir, pd, Entry(t, old(mem)[dir][pd].flags | PRESENT))
    {
      var frame := pmm.AllocFrame();
      if frame == NO_FRAME {
        return false;
      }
      WriteTwice(mem, dir, pd, SetFrame(mem[dir][pd], frame), AddAttrib(SetFrame(mem[dir][pd], frame), PRESENT));
      mem := WriteEntry(mem, dir, pd, SetFrame(mem[dir][pd], frame));
      mem := WriteEntry(mem, dir, pd, AddAttrib(mem[dir][pd], PRESENT));
      ok := true;
    }

    /** The failure branch of `vmm_alloc_page`, after frame t was taken. */
    method ReturnPage(pd: nat, ghost before: Memory, ghost t: FrameNo)
      requires pmm.Valid() && Complete(before) && pd < RECURSIVE && !IsPresent(before[dir][pd]) && t != 0
      requires mem == WriteEntry(before, dir, pd, Entry(t, before[dir][pd].flags | PRESENT))
      modifies this`mem, pmm, pmm.bitmap
      ensures pmm.Valid() && pmm.Used() == old(pmm.Used()) - {t}
      ensures mem == WriteEntry(before, dir, pd, Entry(t, before[dir][pd].flags))
    {
      AllocUndone(before, dir, pd, t);
      pmm.FreeFrame(mem[dir][pd].frame * PAGE_SIZE);
      mem := WriteEntry(mem, dir, pd, RemoveAttrib(mem[dir][pd], PRESENT));
    }

    /** `vmm_alloc_page` on directory entry pd: a table page that also joins the
        swap queue; without a queue node the frame goes back. */
    method AllocPage(pd: nat) returns (ok: bool)
      requires pmm.Valid() && Complete(mem) && pd < RECURSIVE && !IsPresent(mem[dir][pd])
      modifies this`mem, pmm, pmm.bitmap
      ensures pmm.Valid() && Complete(mem)
      ensures !ok ==> mem == WriteEntry(old(mem), dir, pd, mem[dir][pd])
                      && mem[dir][pd].flags == old(mem)[dir][pd].flags
      ensures !ok ==> pmm.Used() == old(pmm.Used())
      ensures ok ==> var t := mem[dir][pd].frame;
                     && t != 0 && t !in old(pmm.Used()) && pmm.Used() == old(pmm.Used()) + {t}
                     && mem == WriteEntry(old(mem), dir, pd, Entry(t, old(mem)[dir][pd].flags | PRESENT))
    {
      ok := AllocPermanentPage(pd);
      if ok {
        ok := JoinQueue(pd, old(mem), mem[dir][pd].frame);
      } else {
        WriteTwice(mem, dir, pd, mem[dir][pd], mem[dir][pd]);
      }
    }

    /** `page_enqueue` after frame t was taken: its node allocation may fail. */
    method JoinQueue(pd: nat, ghost before: Memory, ghost t: FrameNo) returns (ok: bool)
      requires pmm.Valid() && Complete(before) && pd < RECURSIVE && !IsPresent(before[dir][pd]) && t != 0
      requires mem == WriteEntry(before, dir, pd, Entry(t, before[dir][pd].flags | PRESENT))
      modifies this`mem, pmm, pmm.bitmap
      ensures pmm.Valid()
      ensures ok ==> mem == old(mem) && pmm.Used() == old(pmm.Used())
      ensures !ok ==> mem == WriteEntry(before, dir, pd, Entry(t, before[dir][pd].flags))
      ensures !ok ==> pmm.Used() == old(pmm.Used()) - {t}
    {
      ok := *;
      if !ok {
        ReturnPage(pd, before, t);
      }
    }

    /** The branch of `vmm_map_page` that makes a missing table. */
    method MakeTable(pd: nat) returns (ok: bool)
      requires Valid() && pd < RECURSIVE && !IsPresent(mem[dir][pd])
      modifies this`mem, pmm, pmm.bitmap
      ensures Valid() && SamePages(old(mem), mem, dir)
      ensures ok <==> IsPresent(mem[dir][pd])
      ensures ok ==> mem[dir][pd].flags == old(mem)[dir][pd].flags | 0x3 && IsWriteable(mem[dir][pd])
      ensures ok ==> mem[mem[dir][pd].frame] == EMPTY_PAGE
      ensures forall i: nat :: i < ENTRIES && i != pd ==> mem[dir][i] == old(mem)[dir][i]
      ensures !ok && !paging ==> Exhausted(pmm.Used())
      ensures old(pmm.Used()) <= pmm.Used()
      ensures Data() == old(Data())
    {
      ok := TakeTableFrame(pd);
      if ok {
        HangNew(pd, old(mem), old(pmm.Used()));
      } else {
        AbsentEntry(old(mem), mem, dir, pd);
      }
    }

    /** A frame for the table, permanent before paging is on. */
    method TakeTableFrame(pd: nat) returns (ok: bool)
      requires pmm.Valid() && Complete(mem) && pd < RECURSIVE && !IsPresent(mem[dir][pd])
      modifies this`mem, pmm, pmm.bitmap
      ensures pmm.Valid() && Complete(mem)
      ensures !ok ==> mem == WriteEntry(old(mem), dir, pd, mem[dir][pd])
                      && mem[dir][pd].flags == old(mem)[dir][pd].flags
      ensures !ok ==> pmm.Used() == old(pmm.Used()) && (!paging ==> Exhausted(pmm.Used()))
      ensures ok ==> var t := mem[dir][pd].frame;
                     && t != 0 && t !in old(pmm.Used()) && pmm.Used() == old(pmm.Used()) + {t}
                     && mem == WriteEntry(old(mem), dir, pd, Entry(t, old(mem)[dir][pd].flags | PRESENT))
    {
      if !paging {
        ok := AllocPermanentPage(pd);
      } else {
        ok := AllocPage(pd);
      }
      if !ok {
        WriteTwice(old(mem), dir, pd, old(mem)[dir][pd], old(mem)[dir][pd]);
      }
    }

    /** The frame taken becomes an empty table. */
    method HangNew(pd: nat, ghost before: Memory, ghost used: set<FrameNo>)
      requires pmm.Valid() && WellFormed(before, dir) && pd < RECURSIVE && !IsPresent(before[dir][pd])
      requires paging ==> Uses(before, dir, RECURSIVE, dir)
      requires forall f: FrameNo :: IsTable(before, dir, f) ==> f in used
      requires Complete(mem) && mem[dir][pd].frame !in used && pmm.Used() == used + {mem[dir][pd].frame}
      requires mem == WriteEntry(before, dir, pd, Entry(mem[dir][pd].frame, before[dir][pd].flags | PRESENT))
      modifies this`mem
      ensures Valid() && SamePages(before, mem, dir) && mem[mem[dir][pd].frame] == EMPTY_PAGE
      ensures mem[dir][pd].flags == before[dir][pd].flags | 0x3 && IsPresent(mem[dir][pd]) && IsWriteable(mem[dir][pd])
      ensures forall i: nat :: i < ENTRIES && i != pd ==> mem[dir][i] == before[dir][i]
      ensures Data() == set f: FrameNo | f in used && !IsTable(before, dir, f)
    {
      ghost var t := mem[dir][pd].frame;
      ClearTable(pd, before, t);
      TableMade(before, mem, dir, pd, t);
      SameData(before, mem, dir, used, pmm.Used(), t);
    }

    /** The new table's entry is made writeable, and the table cleared. */
    method ClearTable(pd: nat, ghost before: Memory, ghost t: FrameNo)
      requires Complete(before) && pd < RECURSIVE
      requires mem == WriteEntry(before, dir, pd, Entry(t, before[dir][pd].flags | PRESENT))
      modifies this`mem
      ensures mem == WriteEntry(before, dir, pd, Entry(t, before[dir][pd].flags | 0x3))[t := EMPTY_PAGE]
    {
      WriteTwice(before, dir, pd, mem[dir][pd], Entry(t, before[dir][pd].flags | 0x3));
      TableFlags(before[dir][pd].flags);
      mem := WriteEntry(mem, dir, pd, AddAttrib(mem[dir][pd], PAGE_WRITEABLE));
      var table := mem[dir][pd].frame;
      mem := mem[table := EMPTY_PAGE];
    }

    /** The end of `vmm_map_page`: the frame and the flags go into the slot. */
    method FillSlot(v: Addr, phys: Addr, flags: bv12)
      requires Valid() && DirIndex(v) < RECURSIVE && phys % PAGE_SIZE == 0
      requires IsPresent(mem[dir][DirIndex(v)])
      modifies this`mem
      ensures Valid() && mem[dir] == old(mem)[dir]
      ensures SameElsewhere(old(mem), mem, dir, DirIndex(v), TableIndex(v))
      ensures Lookup(mem, dir, DirIndex(v), TableIndex(v)) == Some(Filled(old(Slot(v)), phys, flags))
      ensures Data() == old(Data())
    {
      var table := TableFrame(DirIndex(v));
      var e := AddAttrib(SetFrame(mem[table][TableIndex(v)], phys), flags | PRESENT);
      FilledEntry(mem[table][TableIndex(v)], phys, flags);
      RewriteSlot(mem, dir, DirIndex(v), TableIndex(v), e);
      mem := WriteEntry(mem, table, TableIndex(v), e);
    }

    /** `vmm_map_page` on the loaded directory. False is the kernel's panic: no
        frame or no queue node for a missing table. */
    method MapPage(v: Addr, phys: Addr, flags: bv12) returns (ok: bool)
      requires Valid() && DirIndex(v) < RECURSIVE && phys % PAGE_SIZE == 0
      modifies this`mem, pmm, pmm.bitmap
      ensures Valid()
      ensures ok ==> SameElsewhere(old(mem), mem, dir, DirIndex(v), TableIndex(v))
      ensures ok ==> Lookup(mem, dir, DirIndex(v), TableIndex(v)) == Some(Filled(old(Slot(v)), phys, flags))
      ensures ok ==> forall i: nat :: i < ENTRIES && i != DirIndex(v) ==> mem[dir][i] == old(mem)[dir][i]
      ensures !ok ==> SamePages(old(mem), mem, dir) && !IsPresent(old(mem)[dir][DirIndex(v)])
      ensures !ok && !paging ==> Exhausted(pmm.Used())
      ensures old(pmm.Used()) <= pmm.Used()
      ensures Data() == old(Data())
    {
      if !IsPresent(mem[dir][DirIndex(v)]) {
        ok := MakeTable(DirIndex(v));
        if !ok {
          return;
        }
      }
      FillSlot(v, phys, flags);
      ok := true;
    }

    /** `vmm_get_page_entry` followed by a read; the table must be present. */
    method GetPageEntry(v: Addr) returns (e: Entry)
      requires Valid() && DirIndex(v) < RECURSIVE && IsPresent(mem[dir][DirIndex(v)])
      ensures e == mem[mem[dir][DirIndex(v)].frame][TableIndex(v)]
    {
      var table := TableFrame(DirIndex(v));
      e := mem[table][TableIndex(v)];
    }

    method CalcPhysAddr(v: Addr) returns (phys: nat)
      requires Valid() && DirIndex(v) < RECURSIVE && Translate(mem, dir, v).Some?
      ensures Translate(mem, dir, v) == Some(phys)
    {
      var e := GetPageEntry(v);
      phys := e.frame * PAGE_SIZE + v % PAGE_SIZE;
    }

    /** The last store of `vmm_unmap_page`. */
    method ClearSlot(v: Addr)
      requires Valid() && DirIndex(v) < RECURSIVE && IsPresent(mem[dir][DirIndex(v)])
      modifies this`mem
      ensures Valid() && mem[dir] == old(mem)[dir] && Data() == old(Data())
      ensures Lookup(mem, dir, DirIndex(v), TableIndex(v)) == None
      ensures SameElsewhere(old(mem), mem, dir, DirIndex(v), TableIndex(v))
    {
      var table := TableFrame(DirIndex(v));
      RewriteSlot(mem, dir, DirIndex(v), TableIndex(v), Entry(0, 0));
      mem := WriteEntry(mem, table, TableIndex(v), Entry(0, 0));
    }

    /** A frame that holds no table goes back to the allocator. */
    method DropFrame(f: FrameNo)
      requires Valid() && f != 0 && f in Data()
      modifies pmm, pmm.bitmap
      ensures Valid() && Data() == old(Data()) - {f} && pmm.Used() == old(pmm.Used()) - {f}
    {
      pmm.FreeFrame(f * PAGE_SIZE);
    }

    /** `vmm_unmap_page` of a page that is not swapped out. Its frame must be
        real (frame 0 is never freed) and must not hold a table. */
    method UnmapPage(v: Addr)
      requires Valid() && DirIndex(v) < RECURSIVE && IsPresent(mem[dir][DirIndex(v)])
      requires var e := mem[mem[dir][DirIndex(v)].frame][TableIndex(v)];
               if IsPresent(e) then e.frame != 0 && e.frame in Data() else !IsSwapped(e)
      modifies this`mem, pmm, pmm.bitmap
      ensures Valid() && mem[dir] == old(mem)[dir]
      ensures Lookup(mem, dir, DirIndex(v), TableIndex(v)) == None
      ensures SameElsewhere(old(mem), mem, dir, DirIndex(v), TableIndex(v))
      ensures var e := Lookup(old(mem), dir, DirIndex(v), TableIndex(v));
              var gone := if e.Some? then {e.value.frame} else {};
              Data() == old(Data()) - gone && pmm.Used() == old(pmm.Used()) - gone
    {
      var e := GetPageEntry(v);
      ghost var was := Lookup(mem, dir, DirIndex(v), TableIndex(v));
      assert was == if IsPresent(e) then Some(e) else None;
      if IsPresent(e) {
        DropFrame(e.frame);
        ClearSlot(v);
      }
    }
  }
}

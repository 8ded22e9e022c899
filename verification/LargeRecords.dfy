/** The doubly linked list of large allocations in memory/kmalloc.c. Its records
    are 16-byte heap objects themselves: size, ptr, next, prev. */
module LargeRecords {
  import opened Bytes
  import opened Seqs
  import opened Slab
  import opened SlabCaches
  import F = FrameAllocator
  import P = PageTables
  import L = LargePages

  const RECORD: nat := 16
  const SIZE: nat := 0
  const PTR: nat := 4
  const NEXT_RECORD: nat := 8
  const PREV_RECORD: nat := 12

  /** One large allocation: its record, its first page, and the frames behind
      its pages. */
  datatype Block = Block(node: nat, page: nat, size: nat, frames: seq<F.FrameNo>) {
    function Ptr(): nat { page * PAGE }
  }

  /** `(size + 4095) & ~4095` in 32 bits. */
  function Aligned(size: nat): nat { (size + PAGE - 1) % MEMORY_SIZE / PAGE * PAGE }

  /** Rounding up covers the request exactly when it does not wrap. */
  lemma AlignedCovers(size: nat)
    requires size < MEMORY_SIZE
    ensures Aligned(size) >= size <==> size + PAGE - 1 < MEMORY_SIZE || size == 0
    ensures size + PAGE - 1 < MEMORY_SIZE ==> Aligned(size) % PAGE == 0 && Aligned(size) < size + PAGE
    ensures size + PAGE - 1 >= MEMORY_SIZE ==> Aligned(size) == 0
  {
  }

  /** The pointer and both links of a record are NULL. */
  ghost predicate Cleared(m: Memory, node: nat) {
    Word32(m, node + PTR, 0) && Word32(m, node + NEXT_RECORD, 0) && Word32(m, node + PREV_RECORD, 0)
  }

  lemma ClearedWords(m: Memory, a: Memory, b: Memory, node: nat)
    requires node + RECORD <= |m| && Word32(m, node + NEXT_RECORD, 0)
    requires Stored(m, a, node + PREV_RECORD, 0) && Stored(a, b, node + PTR, 0)
    ensures Cleared(b, node)
  {
    LoadFrame(m, a, node + PREV_RECORD, node + RECORD, node + NEXT_RECORD);
    LoadFrame(a, b, node + PTR, node + PTR + 4, node + NEXT_RECORD);
    LoadFrame(a, b, node + PTR, node + PTR + 4, node + PREV_RECORD);
  }

  // ---- Live objects -----------------------------------------------------

  function SlabOf(o: nat): nat { o / PAGE * PAGE }

  /** o is a live object of its size, in the slab that masking its address finds. */
  ghost predicate IsLive(slabs: map<nat, View>, o: nat, size: nat)
  {
    SlabOf(o) in slabs && slabs[SlabOf(o)].size == size && o in slabs[SlabOf(o)].live
  }

  lemma PageOf(s: nat, o: nat)
    requires s % PAGE == 0 && s <= o < s + PAGE
    ensures SlabOf(o) == s
  {
  }

  /** Masking a live object's address recovers its slab, and the object lies
      wholly in that page, after the header. */
  lemma LiveInPage(m: Memory, slabs: map<nat, View>, s: nat, o: nat)
    requires HeapInv(m, slabs) && s in slabs && o in slabs[s].live
    ensures SlabOf(o) == s && IsLive(slabs, o, slabs[s].size)
    ensures 0 < s && s + HEADER <= o && o + slabs[s].size <= s + PAGE <= |m|
  {
    assert Rep(m, s, slabs[s]);
    assert o in Objects(s, slabs[s].size);
    ObjectInPage(s, slabs[s].size, o);
    PageOf(s, o);
  }

  /** Live objects never overlap. */
  lemma LiveApart(m: Memory, slabs: map<nat, View>, o: nat, a: nat, p: nat, b: nat)
    requires HeapInv(m, slabs) && IsLive(slabs, o, a) && IsLive(slabs, p, b) && o != p
    ensures o + a <= p || p + b <= o
  {
    var s, t := SlabOf(o), SlabOf(p);
    LiveInPage(m, slabs, s, o);
    LiveInPage(m, slabs, t, p);
    assert Rep(m, s, slabs[s]) && Rep(m, t, slabs[t]);
    if s == t {
      assert o in Objects(s, a) && p in Objects(s, a);
      ObjectsApart(s, a, o, p);
    } else {
      PagesApart(s, t);
    }
  }

  /** A write inside a live object disturbs neither slabs nor slab lists. */
  lemma WriteInLive(m: Memory, n: Memory, slabs: map<nat, View>, o: nat, size: nat, lo: nat, hi: nat)
    requires HeapInv(m, slabs) && IsLive(slabs, o, size) && o <= lo <= hi <= o + size && SameBut(m, n, lo, hi)
    ensures HeapInv(n, slabs) && SameLists(m, slabs, n, slabs)
  {
    var s := SlabOf(o);
    LiveInPage(m, slabs, s, o);
    ClientWrite(m, n, slabs, s, o, lo, hi);
    forall t | t in slabs ensures SameSlabInList(m, slabs, n, slabs, t) {
      assert Rep(m, t, slabs[t]);
      if t != s {
        assert Rep(m, s, slabs[s]);
        PagesApart(s, t);
      }
      LoadFrame(m, n, lo, hi, t + NEXT);
    }
  }

  // ---- The list ---------------------------------------------------------

  ghost function NodeAt(blocks: seq<Block>, i: int): nat {
    if 0 <= i < |blocks| then blocks[i].node else 0
  }

  ghost predicate RecordWords(m: Memory, b: Block, next: nat, prev: nat)
  {
    && Word32(m, b.node + SIZE, b.size) && Word32(m, b.node + PTR, b.Ptr())
    && Word32(m, b.node + NEXT_RECORD, next) && Word32(m, b.node + PREV_RECORD, prev)
  }

  ghost predicate RecordOk(m: Memory, slabs: map<nat, View>, b: Block, next: nat, prev: nat)
  {
    IsLive(slabs, b.node, RECORD) && b.node != 0 && RecordWords(m, b, next, prev)
  }

  ghost predicate RecordAt(m: Memory, slabs: map<nat, View>, blocks: seq<Block>, i: int)
    requires 0 <= i < |blocks|
  {
    RecordOk(m, slabs, blocks[i], NodeAt(blocks, i + 1), NodeAt(blocks, i - 1))
  }

  ghost predicate RecordsOk(m: Memory, slabs: map<nat, View>, head: nat, blocks: seq<Block>)
  {
    && head == NodeAt(blocks, 0)
    && (forall i {:trigger RecordAt(m, slabs, blocks, i)} :: 0 <= i < |blocks| ==> RecordAt(m, slabs, blocks, i))
    && (forall i, j :: 0 <= i < j < |blocks| ==> blocks[i].node != blocks[j].node)
  }

  /** Records survive any change that leaves payloads alone and keeps live
      objects live. */
  ghost predicate StillLive(slabs: map<nat, View>, after: map<nat, View>)
  {
    forall s {:trigger s in slabs} {:trigger s in after} :: s in slabs ==>
      s in after && after[s].size == slabs[s].size && slabs[s].live <= after[s].live
  }

  /** An allocation keeps every live object live. */
  lemma TookKeepsLive(slabs: map<nat, View>, after: map<nat, View>, s: nat, o: nat, size: nat)
    requires Took(slabs, after, s, o, size)
    ensures StillLive(slabs, after)
  {
  }

  /** The object just taken is live now, and was not before. */
  lemma TookIsLive(m: Memory, n: Memory, slabs: map<nat, View>, after: map<nat, View>, s: nat, o: nat, size: nat)
    requires HeapInv(m, slabs) && HeapInv(n, after) && Took(slabs, after, s, o, size)
    ensures IsLive(after, o, size) && SlabOf(o) == s
    ensures forall c :: !IsLive(slabs, o, c)
  {
    LiveInPage(n, after, s, o);
    if s in slabs {
      assert Rep(m, s, slabs[s]);
      assert o in Elements(slabs[s].free);
    }
  }

  lemma PayloadLoad(m: Memory, n: Memory, s: nat, a: nat)
    requires SamePayload(m, n, s) && s + HEADER <= a && a + 4 <= s + PAGE && a + 4 <= |m|
    ensures Load32(n, a) == Load32(m, a)
  {
  }

  lemma RecordFrame(m: Memory, n: Memory, slabs: map<nat, View>, after: map<nat, View>, b: Block, next: nat, prev: nat)
    requires RecordOk(m, slabs, b, next, prev) && HeapInv(m, slabs)
    requires SameObjects(m, n, slabs) && StillLive(slabs, after)
    ensures RecordOk(n, after, b, next, prev)
  {
    var s := SlabOf(b.node);
    LiveInPage(m, slabs, s, b.node);
    assert SamePayload(m, n, s);
    PayloadLoad(m, n, s, b.node + SIZE);
    PayloadLoad(m, n, s, b.node + PTR);
    PayloadLoad(m, n, s, b.node + NEXT_RECORD);
    PayloadLoad(m, n, s, b.node + PREV_RECORD);
  }

  lemma RecordsFrame(m: Memory, n: Memory, slabs: map<nat, View>, after: map<nat, View>, head: nat, blocks: seq<Block>)
    requires RecordsOk(m, slabs, head, blocks) && HeapInv(m, slabs)
    requires SameObjects(m, n, slabs) && StillLive(slabs, after)
    ensures RecordsOk(n, after, head, blocks)
  {
    forall i | 0 <= i < |blocks| ensures RecordAt(n, after, blocks, i) {
      assert RecordAt(m, slabs, blocks, i);
      RecordFrame(m, n, slabs, after, blocks[i], NodeAt(blocks, i + 1), NodeAt(blocks, i - 1));
    }
  }

  /** A record's words survive a write elsewhere. */
  lemma WordsFrame(m: Memory, n: Memory, b: Block, next: nat, prev: nat, lo: nat, hi: nat)
    requires RecordWords(m, b, next, prev) && SameBut(m, n, lo, hi)
    requires b.node + RECORD <= lo || hi <= b.node
    ensures RecordWords(n, b, next, prev)
  {
    LoadFrame(m, n, lo, hi, b.node + SIZE);
    LoadFrame(m, n, lo, hi, b.node + PTR);
    LoadFrame(m, n, lo, hi, b.node + NEXT_RECORD);
    LoadFrame(m, n, lo, hi, b.node + PREV_RECORD);
  }

  /** Writing one record's prev word. */
  lemma SetPrev(m: Memory, n: Memory, b: Block, next: nat, prev: nat, w: Word)
    requires RecordWords(m, b, next, prev) && Stored(m, n, b.node + PREV_RECORD, w)
    ensures RecordWords(n, b, next, w)
  {
    LoadFrame(m, n, b.node + PREV_RECORD, b.node + PREV_RECORD + 4, b.node + SIZE);
    LoadFrame(m, n, b.node + PREV_RECORD, b.node + PREV_RECORD + 4, b.node + PTR);
    LoadFrame(m, n, b.node + PREV_RECORD, b.node + PREV_RECORD + 4, b.node + NEXT_RECORD);
  }

  lemma SetNext(m: Memory, n: Memory, b: Block, next: nat, prev: nat, w: Word)
    requires RecordWords(m, b, next, prev) && Stored(m, n, b.node + NEXT_RECORD, w)
    ensures RecordWords(n, b, w, prev)
  {
    LoadFrame(m, n, b.node + NEXT_RECORD, b.node + NEXT_RECORD + 4, b.node + SIZE);
    LoadFrame(m, n, b.node + NEXT_RECORD, b.node + NEXT_RECORD + 4, b.node + PTR);
    LoadFrame(m, n, b.node + NEXT_RECORD, b.node + NEXT_RECORD + 4, b.node + PREV_RECORD);
  }

  /** A write confined to a live object that is no record leaves the list alone. */
  lemma RecordsOutside(m: Memory, n: Memory, slabs: map<nat, View>, head: nat, blocks: seq<Block>, o: nat, size: nat)
    requires RecordsOk(m, slabs, head, blocks) && HeapInv(m, slabs) && IsLive(slabs, o, size)
    requires SameBut(m, n, o, o + size) && forall i :: 0 <= i < |blocks| ==> blocks[i].node != o
    ensures RecordsOk(n, slabs, head, blocks)
  {
    forall i | 0 <= i < |blocks| ensures RecordAt(n, slabs, blocks, i) {
      assert RecordAt(m, slabs, blocks, i);
      var b := blocks[i];
      LiveApart(m, slabs, b.node, RECORD, o, size);
      WordsFrame(m, n, b, NodeAt(blocks, i + 1), NodeAt(blocks, i - 1), o, o + size);
    }
  }

  /** Freeing an object that is no record leaves the list alone too. */
  lemma RecordsAfterFree(m: Memory, n: Memory, slabs: map<nat, View>, s: nat, o: nat, head: nat, blocks: seq<Block>)
    requires RecordsOk(m, slabs, head, blocks) && HeapInv(m, slabs) && s in slabs && o in slabs[s].live
    requires FreeWrites(m, n, s, o) && forall i :: 0 <= i < |blocks| ==> blocks[i].node != o
    ensures RecordsOk(n, slabs[s := Freed(slabs[s], o)], head, blocks)
  {
    var after := slabs[s := Freed(slabs[s], o)];
    var mid :| FreeLink(m, mid, s, o) && HeaderSet(mid, n, s, o, Load32(m, s + FREE_COUNT) + 1);
    forall i | 0 <= i < |blocks| ensures RecordAt(n, after, blocks, i) {
      assert RecordAt(m, slabs, blocks, i);
      RecordAfterFree(m, mid, n, slabs, s, o, blocks[i], NodeAt(blocks, i + 1), NodeAt(blocks, i - 1));
    }
  }

  lemma RecordAfterFree(m: Memory, mid: Memory, n: Memory, slabs: map<nat, View>, s: nat, o: nat, b: Block, next: nat,
                        prev: nat)
    requires RecordOk(m, slabs, b, next, prev) && HeapInv(m, slabs) && s in slabs && o in slabs[s].live && b.node != o
    requires SameBut(m, mid, o, o + 4) && SameBut(mid, n, s, s + HEADER)
    ensures RecordOk(n, slabs[s := Freed(slabs[s], o)], b, next, prev)
  {
    var t := SlabOf(b.node);
    LiveInPage(m, slabs, s, o);
    LiveInPage(m, slabs, t, b.node);
    assert Rep(m, s, slabs[s]) && Rep(m, t, slabs[t]);
    LiveApart(m, slabs, b.node, RECORD, o, slabs[s].size);
    WordsFrame(m, mid, b, next, prev, o, o + 4);
    if t != s {
      PagesApart(t, s);
    }
    WordsFrame(mid, n, b, next, prev, s, s + HEADER);
  }

  lemma FreeKeepsLists(m: Memory, n: Memory, slabs: map<nat, View>, s: nat, o: nat)
    requires HeapInv(m, slabs) && s in slabs && o in slabs[s].live && FreeWrites(m, n, s, o)
    ensures SameLists(m, slabs, n, slabs[s := Freed(slabs[s], o)])
  {
    var mid :| FreeLink(m, mid, s, o) && HeaderSet(mid, n, s, o, Load32(m, s + FREE_COUNT) + 1);
    LiveInPage(m, slabs, s, o);
    assert Rep(m, s, slabs[s]);
    forall t | t in slabs ensures SameSlabInList(m, slabs, n, slabs[s := Freed(slabs[s], o)], t) {
      assert Rep(m, t, slabs[t]);
      if t != s {
        PagesApart(s, t);
        LoadFrame(mid, n, s, s + HEADER, t + NEXT);
      }
      LoadFrame(m, mid, o, o + 4, t + NEXT);
    }
  }

  /** `slab_free`, seen from all slabs and caches. */
  lemma FreeKeepsSmall(base: nat, m: Memory, n: Memory, currentHeap: nat, slabs: map<nat, View>, s: nat, o: nat,
                       caches: seq<nat>, lists: seq<seq<nat>>)
    requires Small(base, m, currentHeap, slabs) && CachesOk(m, slabs, caches, lists)
    requires s in slabs && o in slabs[s].live && FreeWrites(m, n, s, o)
    ensures var after := slabs[s := Freed(slabs[s], o)];
            Small(base, n, currentHeap, after) && CachesOk(n, after, caches, lists)
  {
    FreeKeepsHeap(m, n, slabs, s, o);
    FreeKeepsLists(m, n, slabs, s, o);
    CachesFrame(m, slabs, n, slabs[s := Freed(slabs[s], o)], caches, lists);
    SameKeys(slabs, s, Freed(slabs[s], o), 2 * base, base + currentHeap);
  }

  /** `insert_large_alloc`: the new record, its next word set to the old head,
      and the old head's prev word set to it. */
  lemma Inserted(m: Memory, n: Memory, slabs: map<nat, View>, head: nat, blocks: seq<Block>, b: Block)
    requires RecordsOk(m, slabs, head, blocks) && HeapInv(m, slabs)
    requires IsLive(slabs, b.node, RECORD) && b.node != 0 && RecordWords(m, b, head, 0)
    requires forall i :: 0 <= i < |blocks| ==> blocks[i].node != b.node
    requires if head == 0 then n == m else b.node < MEMORY_SIZE && Stored(m, n, head + PREV_RECORD, b.node)
    ensures RecordsOk(n, slabs, b.node, [b] + blocks)
  {
    var all := [b] + blocks;
    forall i | 0 <= i < |all| ensures RecordAt(n, slabs, all, i) {
      assert i > 0 ==> RecordAt(m, slabs, blocks, i - 1);
      assert blocks != [] ==> RecordAt(m, slabs, blocks, 0);
      if head == 0 {
        assert blocks == [];
      } else if i == 1 {
        assert blocks[0].node == head;
        SetPrev(m, n, all[1], NodeAt(all, 2), 0, b.node);
      } else {
        assert i > 0 ==> all[i] == blocks[i - 1];
        assert blocks[0].node == head;
        LiveApart(m, slabs, all[i].node, RECORD, head, RECORD);
        WordsFrame(m, n, all[i], NodeAt(all, i + 1), if i == 0 then 0 else NodeAt(blocks, i - 2),
                   head + PREV_RECORD, head + PREV_RECORD + 4);
      }
    }
  }

  /** The first store of `large_alloc_remove`: the predecessor skips record i. */
  lemma UnlinkNext(m: Memory, n: Memory, slabs: map<nat, View>, head: nat, blocks: seq<Block>, i: nat, j: nat)
    requires RecordsOk(m, slabs, head, blocks) && HeapInv(m, slabs) && i < |blocks| && j < |blocks|
    requires NodeAt(blocks, i + 1) < MEMORY_SIZE
    requires if i == 0 then n == m else Stored(m, n, blocks[i - 1].node + NEXT_RECORD, NodeAt(blocks, i + 1))
    ensures RecordWords(n, blocks[j], NodeAt(blocks, if j == i - 1 then i + 1 else j + 1), NodeAt(blocks, j - 1))
  {
    assert RecordAt(m, slabs, blocks, j);
    if i > 0 {
      assert RecordAt(m, slabs, blocks, i - 1);
      var p := blocks[i - 1].node;
      if j == i - 1 {
        SetNext(m, n, blocks[j], NodeAt(blocks, j + 1), NodeAt(blocks, j - 1), NodeAt(blocks, i + 1));
      } else {
        LiveApart(m, slabs, blocks[j].node, RECORD, p, RECORD);
        WordsFrame(m, n, blocks[j], NodeAt(blocks, j + 1), NodeAt(blocks, j - 1), p + NEXT_RECORD, p + NEXT_RECORD + 4);
      }
    }
  }

  /** The second store: the successor's prev word skips record i too. */
  lemma UnlinkPrev(m: Memory, mid: Memory, n: Memory, slabs: map<nat, View>, head: nat, blocks: seq<Block>, i: nat,
                   j: nat, next: nat)
    requires RecordsOk(m, slabs, head, blocks) && HeapInv(m, slabs) && i < |blocks| && j < |blocks|
    requires NodeAt(blocks, i - 1) < MEMORY_SIZE
    requires RecordWords(mid, blocks[j], next, NodeAt(blocks, j - 1)) && |mid| == |m|
    requires if i + 1 == |blocks| then n == mid
             else Stored(mid, n, blocks[i + 1].node + PREV_RECORD, NodeAt(blocks, i - 1))
    ensures RecordWords(n, blocks[j], next, NodeAt(blocks, if j == i + 1 then i - 1 else j - 1))
  {
    assert RecordAt(m, slabs, blocks, j);
    if i + 1 < |blocks| {
      assert RecordAt(m, slabs, blocks, i + 1);
      var x := blocks[i + 1].node;
      if j == i + 1 {
        SetPrev(mid, n, blocks[j], next, NodeAt(blocks, j - 1), NodeAt(blocks, i - 1));
      } else {
        LiveApart(m, slabs, blocks[j].node, RECORD, x, RECORD);
        WordsFrame(mid, n, blocks[j], next, NodeAt(blocks, j - 1), x + PREV_RECORD, x + PREV_RECORD + 4);
      }
    }
  }

  /** A record's links lead to its neighbours, which are live records. */
  lemma Neighbours(m: Memory, slabs: map<nat, View>, head: nat, blocks: seq<Block>, i: nat)
    requires RecordsOk(m, slabs, head, blocks) && HeapInv(m, slabs) && i < |blocks| && |m| == MEMORY_SIZE
    ensures var node, prev, next := blocks[i].node, NodeAt(blocks, i - 1), NodeAt(blocks, i + 1);
            && node + RECORD <= |m| && IsLive(slabs, node, RECORD)
            && Load32(m, node + PREV_RECORD) == prev && Load32(m, node + NEXT_RECORD) == next
            && (prev == 0 <==> i == 0) && (next == 0 <==> i + 1 == |blocks|)
            && (prev != 0 ==> IsLive(slabs, prev, RECORD)) && (next != 0 ==> IsLive(slabs, next, RECORD))
  {
    assert RecordAt(m, slabs, blocks, i);
    if i > 0 {
      assert RecordAt(m, slabs, blocks, i - 1);
    }
    if i + 1 < |blocks| {
      assert RecordAt(m, slabs, blocks, i + 1);
    }
  }

  /** Neighbours in the shortened list. */
  lemma WithoutNodes(blocks: seq<Block>, i: nat, k: nat)
    requires i < |blocks| && k < |blocks| - 1
    ensures var rest, j := Without(blocks, i), if k < i then k else k + 1;
            && rest[k] == blocks[j]
            && NodeAt(rest, k + 1) == NodeAt(blocks, if j == i - 1 then i + 1 else j + 1)
            && NodeAt(rest, k - 1) == NodeAt(blocks, if j == i + 1 then i - 1 else j - 1)
  {
  }

  lemma WithoutDistinct(blocks: seq<Block>, i: nat)
    requires i < |blocks| && forall a, b :: 0 <= a < b < |blocks| ==> blocks[a].node != blocks[b].node
    ensures var rest := Without(blocks, i);
            && (forall a, b :: 0 <= a < b < |rest| ==> rest[a].node != rest[b].node)
            && (forall a :: 0 <= a < |rest| ==> rest[a].node != blocks[i].node)
  {
    var rest := Without(blocks, i);
    forall a, b | 0 <= a < b < |rest| ensures rest[a].node != rest[b].node {
      WithoutNodes(blocks, i, a);
      WithoutNodes(blocks, i, b);
    }
    forall a | 0 <= a < |rest| ensures rest[a].node != blocks[i].node {
      WithoutNodes(blocks, i, a);
    }
  }

  lemma RemovedRecord(m: Memory, mid: Memory, n: Memory, slabs: map<nat, View>, head: nat, blocks: seq<Block>, i: nat,
                      k: nat)
    requires RecordsOk(m, slabs, head, blocks) && HeapInv(m, slabs) && i < |blocks| && |mid| == |m| && k < |blocks| - 1
    requires NodeAt(blocks, i - 1) < MEMORY_SIZE && NodeAt(blocks, i + 1) < MEMORY_SIZE
    requires if i == 0 then mid == m else Stored(m, mid, blocks[i - 1].node + NEXT_RECORD, NodeAt(blocks, i + 1))
    requires if i + 1 == |blocks| then n == mid
             else Stored(mid, n, blocks[i + 1].node + PREV_RECORD, NodeAt(blocks, i - 1))
    ensures RecordAt(n, slabs, Without(blocks, i), k)
  {
    var j := if k < i then k else k + 1;
    var next, prev := NodeAt(blocks, if j == i - 1 then i + 1 else j + 1), NodeAt(blocks,
                             if j == i + 1 then i - 1 else j - 1);
    assert IsLive(slabs, blocks[j].node, RECORD) && blocks[j].node != 0 by {
      assert RecordAt(m, slabs, blocks, j);
    }
    assert RecordWords(n, blocks[j], next, prev) by {
      UnlinkNext(m, mid, slabs, head, blocks, i, j);
      UnlinkPrev(m, mid, n, slabs, head, blocks, i, j, next);
    }
    WithoutNodes(blocks, i, k);
  }

  /** Both stores together leave the list without record i, order kept. */
  lemma Removed(m: Memory, mid: Memory, n: Memory, slabs: map<nat, View>, head: nat, blocks: seq<Block>, i: nat)
    requires RecordsOk(m, slabs, head, blocks) && HeapInv(m, slabs) && i < |blocks| && |mid| == |m|
    requires NodeAt(blocks, i - 1) < MEMORY_SIZE && NodeAt(blocks, i + 1) < MEMORY_SIZE
    requires if i == 0 then mid == m else Stored(m, mid, blocks[i - 1].node + NEXT_RECORD, NodeAt(blocks, i + 1))
    requires if i + 1 == |blocks| then n == mid
             else Stored(mid, n, blocks[i + 1].node + PREV_RECORD, NodeAt(blocks, i - 1))
    ensures RecordsOk(n, slabs, if i == 0 then NodeAt(blocks, 1) else head, Without(blocks, i))
  {
    var rest := Without(blocks, i);
    forall k | 0 <= k < |rest| ensures RecordAt(n, slabs, rest, k) {
      RemovedRecord(m, mid, n, slabs, head, blocks, i, k);
    }
    WithoutDistinct(blocks, i);
    if |rest| > 0 {
      WithoutNodes(blocks, i, 0);
    }
  }

  // ---- Pages and frames -------------------------------------------------

  ghost predicate BlockPlaced(b: Block, lo: nat, hi: nat)
  {
    && lo <= b.page && b.page + |b.frames| <= hi
    && MAX_CACHE_SIZE < b.size && b.size + PAGE <= MEMORY_SIZE && |b.frames| * PAGE == Aligned(b.size)
  }

  /** Blocks sit in [lo, hi), newest first, none overlapping another. */
  ghost predicate Layout(blocks: seq<Block>, lo: nat, hi: nat)
  {
    && lo <= hi
    && (forall i {:trigger BlockPlaced(blocks[i], lo, hi)} :: 0 <= i < |blocks| ==> BlockPlaced(blocks[i], lo, hi))
    && (forall i, j {:trigger Below(blocks, i, j)} :: 0 <= i < j < |blocks| ==> Below(blocks, i, j))
  }

  ghost predicate Below(blocks: seq<Block>, i: int, j: int)
    requires 0 <= i < |blocks| && 0 <= j < |blocks|
  {
    blocks[j].page + |blocks[j].frames| <= blocks[i].page
  }

  ghost predicate BlockMapped(b: Block, pm: P.Memory, dir: F.FrameNo, data: set<F.FrameNo>)
  {
    L.MapsTo(pm, dir, b.page, b.frames) && Distinct(b.frames) && 0 !in b.frames && Elements(b.frames) <= data
  }

  ghost predicate FramesApart(blocks: seq<Block>, i: int, j: int)
    requires 0 <= i < |blocks| && 0 <= j < |blocks|
  {
    Elements(blocks[i].frames) !! Elements(blocks[j].frames)
  }

  /** Every block is mapped to its own frames, and nothing is mapped from top
      up to the slab region. */
  ghost predicate Mapped(blocks: seq<Block>, pm: P.Memory, dir: F.FrameNo, data: set<F.FrameNo>, top: nat, end: nat)
  {
    && top <= end && L.Unmapped(pm, dir, top, end - top)
    && (forall i {:trigger BlockMapped(blocks[i], pm, dir, data)} ::
          0 <= i < |blocks| ==> BlockMapped(blocks[i], pm, dir, data))
    && (forall i, j {:trigger FramesApart(blocks, i, j)} :: 0 <= i < j < |blocks| ==> FramesApart(blocks, i, j))
  }

  /** Mappings from end upward do not matter. */
  lemma MappedFrame(blocks: seq<Block>, pm: P.Memory, after: P.Memory, dir: F.FrameNo, data: set<F.FrameNo>, lo: nat,
                    top: nat, end: nat)
    requires Mapped(blocks, pm, dir, data, top, end) && Layout(blocks, lo, top) && SameBelow(pm, after, dir, end)
    ensures Mapped(blocks, after, dir, data, top, end)
  {
    forall i | 0 <= i < |blocks| ensures BlockMapped(blocks[i], after, dir, data) {
      assert BlockMapped(blocks[i], pm, dir, data) && BlockPlaced(blocks[i], lo, top);
      forall k | 0 <= k < |blocks[i].frames| ensures L.HasFrame(after, dir, blocks[i].page + k, blocks[i].frames[k]) {
        assert L.HasFrame(pm, dir, blocks[i].page + k, blocks[i].frames[k]);
      }
    }
    assert forall i, j :: 0 <= i < j < |blocks| ==> FramesApart(blocks, i, j);
  }

  /** A block's pages survive a change to pages outside it. */
  lemma BlockFrame(b: Block, pm: P.Memory, after: P.Memory, dir: F.FrameNo, data: set<F.FrameNo>, more: set<F.FrameNo>,
                   start: nat, n: nat)
    requires BlockMapped(b, pm, dir, data) && L.SameOutside(pm, after, dir, start, n)
    requires b.page + |b.frames| <= start || start + n <= b.page
    requires Elements(b.frames) <= more
    ensures BlockMapped(b, after, dir, more)
  {
    forall k | 0 <= k < |b.frames| ensures L.HasFrame(after, dir, b.page + k, b.frames[k]) {
      assert L.HasFrame(pm, dir, b.page + k, b.frames[k]);
      assert L.Outside(b.page + k, start, n);
    }
  }

  /** A freshly mapped block joins at the top. */
  lemma MappedGrows(blocks: seq<Block>, b: Block, pm: P.Memory, after: P.Memory, dir: F.FrameNo, data: set<F.FrameNo>,
                    lo: nat, top: nat, end: nat)
    requires Mapped(blocks, pm, dir, data, top, end) && Layout(blocks, lo, top)
    requires b.page == top && top + |b.frames| <= end && L.SameOutside(pm, after, dir, top, |b.frames|)
    requires L.MapsTo(after, dir, top, b.frames) && Distinct(b.frames) && 0 !in b.frames
    requires Elements(b.frames) !! data
    ensures Mapped([b] + blocks, after, dir, data + Elements(b.frames), top + |b.frames|, end)
  {
    var all, more := [b] + blocks, data + Elements(b.frames);
    forall i | 0 <= i < |all| ensures BlockMapped(all[i], after, dir, more) {
      if i > 0 {
        assert all[i] == blocks[i - 1];
        assert BlockMapped(blocks[i - 1], pm, dir, data) && BlockPlaced(blocks[i - 1], lo, top);
        BlockFrame(blocks[i - 1], pm, after, dir, data, more, top, |b.frames|);
      }
    }
    forall i, j | 0 <= i < j < |all| ensures FramesApart(all, i, j) {
      assert BlockMapped(blocks[j - 1], pm, dir, data);
      assert i > 0 ==> FramesApart(blocks, i - 1, j - 1);
    }
    assert forall p :: top + |b.frames| <= p < end ==> L.Outside(p, top, |b.frames|);
  }

  lemma LayoutGrows(blocks: seq<Block>, b: Block, lo: nat, top: nat)
    requires Layout(blocks, lo, top) && b.page == top && BlockPlaced(b, lo, top + |b.frames|)
    ensures Layout([b] + blocks, lo, top + |b.frames|)
  {
    var all := [b] + blocks;
    forall i | 0 <= i < |all| ensures BlockPlaced(all[i], lo, top + |b.frames|) {
      assert i > 0 ==> all[i] == blocks[i - 1] && BlockPlaced(blocks[i - 1], lo, top);
    }
    forall i, j | 0 <= i < j < |all| ensures Below(all, i, j) {
      assert BlockPlaced(blocks[j - 1], lo, top);
      assert i > 0 ==> Below(blocks, i - 1, j - 1);
    }
  }

  /** Block i's pages and frames go; the others stay. */
  lemma MappedShrinks(blocks: seq<Block>, i: nat, pm: P.Memory, after: P.Memory, dir: F.FrameNo, data: set<F.FrameNo>,
                      lo: nat, top: nat, end: nat)
    requires Mapped(blocks, pm, dir, data, top, end) && Layout(blocks, lo, top) && i < |blocks|
    requires L.SameOutside(pm, after, dir, blocks[i].page, |blocks[i].frames|)
    ensures Mapped(Without(blocks, i), after, dir, data - Elements(blocks[i].frames), top, end)
    ensures Layout(Without(blocks, i), lo, top)
  {
    var rest, less := Without(blocks, i), data - Elements(blocks[i].frames);
    forall k | 0 <= k < |rest| ensures BlockMapped(rest[k], after, dir, less) && BlockPlaced(rest[k], lo, top) {
      var j := if k < i then k else k + 1;
      assert rest[k] == blocks[j] && BlockMapped(blocks[j], pm, dir, data) && BlockPlaced(blocks[j], lo, top);
      assert if j < i then Below(blocks, j, i) && FramesApart(blocks, j, i)
             else Below(blocks, i, j) && FramesApart(blocks, i, j);
      BlockFrame(blocks[j], pm, after, dir, data, less, blocks[i].page, |blocks[i].frames|);
    }
    forall a, b | 0 <= a < b < |rest| ensures FramesApart(rest, a, b) && Below(rest, a, b) {
      var c, d := if a < i then a else a + 1, if b < i then b else b + 1;
      assert rest[a] == blocks[c] && rest[b] == blocks[d] && FramesApart(blocks, c, d) && Below(blocks, c, d);
    }
    assert BlockPlaced(blocks[i], lo, top);
    assert forall p :: top <= p < end ==> L.Outside(p, blocks[i].page, |blocks[i].frames|);
  }

  // ---- Grants -----------------------------------------------------------

  ghost predicate SmallGrant(slabs: map<nat, View>, blocks: seq<Block>, p: nat, size: nat)
  {
    && SlabOf(p) in slabs && p in slabs[SlabOf(p)].live && size <= slabs[SlabOf(p)].size
    && forall i :: 0 <= i < |blocks| ==> blocks[i].node != p
  }

  ghost predicate LargeGrant(blocks: seq<Block>, p: nat, size: nat)
  {
    exists i :: 0 <= i < |blocks| && blocks[i].Ptr() == p && size <= |blocks[i].frames| * PAGE
  }

  ghost predicate Grant(slabs: map<nat, View>, blocks: seq<Block>, p: nat, size: nat)
  {
    SmallGrant(slabs, blocks, p, size) || LargeGrant(blocks, p, size)
  }

  ghost predicate Grants(granted: map<nat, nat>, slabs: map<nat, View>, blocks: seq<Block>)
  {
    forall p {:trigger Grant(slabs, blocks, p, granted[p])} :: p in granted ==> Grant(slabs, blocks, p, granted[p])
  }

  /** A small allocation adds a grant nobody held. */
  lemma GrantSmall(granted: map<nat, nat>, m: Memory, slabs: map<nat, View>, after: map<nat, View>, head: nat,
                   blocks: seq<Block>, lo: nat, top: nat, p: nat, size: nat, floor: nat)
    requires Grants(granted, slabs, blocks) && StillLive(slabs, after) && RecordsOk(m, slabs, head, blocks)
    requires forall c :: !IsLive(slabs, p, c)
    requires SlabOf(p) in after && p in after[SlabOf(p)].live && size <= after[SlabOf(p)].size
    requires Layout(blocks, lo, top) && top * PAGE <= floor <= p
    ensures p !in granted && Grants(granted[p := size], after, blocks)
  {
    forall i | 0 <= i < |blocks| ensures blocks[i].node != p && blocks[i].Ptr() < p {
      assert RecordAt(m, slabs, blocks, i) && BlockPlaced(blocks[i], lo, top);
    }
    forall q | q in granted ensures q != p {
      assert Grant(slabs, blocks, q, granted[q]);
      assert SmallGrant(slabs, blocks, q, granted[q]) ==> IsLive(slabs, q, slabs[SlabOf(q)].size);
    }
    var more := granted[p := size];
    forall q | q in more ensures Grant(after, blocks, q, more[q]) {
      if q != p {
        assert Grant(slabs, blocks, q, granted[q]);
      }
    }
  }

  /** So does a large one. */
  lemma GrantLarge(granted: map<nat, nat>, slabs: map<nat, View>, after: map<nat, View>, blocks: seq<Block>, b: Block,
                   lo: nat, size: nat, floor: nat, end: nat)
    requires Grants(granted, slabs, blocks) && StillLive(slabs, after) && (forall c :: !IsLive(slabs, b.node, c))
    requires Layout(blocks, lo, b.page) && Within(slabs, floor, end) && b.Ptr() < floor && size <= |b.frames| * PAGE
    requires 0 < |b.frames|
    ensures b.Ptr() !in granted && Grants(granted[b.Ptr() := size], after, [b] + blocks)
  {
    var p, all := b.Ptr(), [b] + blocks;
    forall i | 0 <= i < |blocks| ensures blocks[i].Ptr() != p {
      assert BlockPlaced(blocks[i], lo, b.page);
    }
    forall q | q in granted ensures q != p {
      assert Grant(slabs, blocks, q, granted[q]);
    }
    var more := granted[p := size];
    forall q | q in more ensures Grant(after, all, q, more[q]) {
      if q == p {
        assert all[0].Ptr() == p;
      } else {
        assert Grant(slabs, blocks, q, granted[q]);
        if SmallGrant(slabs, blocks, q, granted[q]) {
          assert IsLive(slabs, q, slabs[SlabOf(q)].size);
          assert forall i :: 0 < i < |all| ==> all[i] == blocks[i - 1];
          assert SmallGrant(after, all, q, granted[q]);
        } else {
          var i :| 0 <= i < |blocks| && blocks[i].Ptr() == q && granted[q] <= |blocks[i].frames| * PAGE;
          assert all[i + 1] == blocks[i];
        }
      }
    }
  }

  /** Dropping one grant keeps the others: a small object freed ... */
  lemma GrantsAfterFree(granted: map<nat, nat>, slabs: map<nat, View>, blocks: seq<Block>, s: nat, o: nat)
    requires Grants(granted, slabs, blocks) && s in slabs && SlabOf(o) == s
    ensures Grants(granted - {o}, slabs[s := Freed(slabs[s], o)], blocks)
  {
    var less, after := granted - {o}, slabs[s := Freed(slabs[s], o)];
    forall q | q in less ensures Grant(after, blocks, q, less[q]) {
      assert Grant(slabs, blocks, q, granted[q]);
      if SmallGrant(slabs, blocks, q, granted[q]) {
        assert SmallGrant(after, blocks, q, granted[q]);
      }
    }
  }

  /** ... or a block released. */
  lemma GrantsAfterRelease(granted: map<nat, nat>, slabs: map<nat, View>, blocks: seq<Block>, i: nat)
    requires Grants(granted, slabs, blocks) && i < |blocks|
    ensures Grants(granted - {blocks[i].Ptr()}, slabs, Without(blocks, i))
  {
    var less, rest := granted - {blocks[i].Ptr()}, Without(blocks, i);
    forall q | q in less ensures Grant(slabs, rest, q, less[q]) {
      assert Grant(slabs, blocks, q, granted[q]);
      if SmallGrant(slabs, blocks, q, granted[q]) {
        assert forall k :: 0 <= k < |rest| ==> rest[k] == blocks[if k < i then k else k + 1];
        assert SmallGrant(slabs, rest, q, granted[q]);
      } else {
        var k :| 0 <= k < |blocks| && blocks[k].Ptr() == q && granted[q] <= |blocks[k].frames| * PAGE;
        assert rest[if k < i then k else k - 1] == blocks[k];
      }
    }
  }

  /** The address ranges of any two grants are disjoint. */
  lemma GrantsDisjoint(granted: map<nat, nat>, m: Memory, slabs: map<nat, View>, blocks: seq<Block>, lo: nat, top: nat,
                       floor: nat, end: nat, p: nat, q: nat)
    requires Grants(granted, slabs, blocks) && HeapInv(m, slabs) && Layout(blocks, lo, top)
    requires Within(slabs, floor, end) && top * PAGE <= floor
    requires p in granted && q in granted && p != q
    ensures p + granted[p] <= q || q + granted[q] <= p
  {
    assert Grant(slabs, blocks, p, granted[p]) && Grant(slabs, blocks, q, granted[q]);
    if SmallGrant(slabs, blocks, p, granted[p]) && SmallGrant(slabs, blocks, q, granted[q]) {
      LiveApart(m, slabs, p, slabs[SlabOf(p)].size, q, slabs[SlabOf(q)].size);
    } else if SmallGrant(slabs, blocks, p, granted[p]) {
      LargeBelowSmall(granted[q], m, slabs, blocks, lo, top, floor, end, q, p);
    } else if SmallGrant(slabs, blocks, q, granted[q]) {
      LargeBelowSmall(granted[p], m, slabs, blocks, lo, top, floor, end, p, q);
    } else {
      var i :| 0 <= i < |blocks| && blocks[i].Ptr() == p && granted[p] <= |blocks[i].frames| * PAGE;
      var j :| 0 <= j < |blocks| && blocks[j].Ptr() == q && granted[q] <= |blocks[j].frames| * PAGE;
      assert if i < j then Below(blocks, i, j) else Below(blocks, j, i);
    }
  }

  lemma LargeBelowSmall(size: nat, m: Memory, slabs: map<nat, View>, blocks: seq<Block>, lo: nat, top: nat, floor: nat,
                        end: nat, p: nat, q: nat)
    requires LargeGrant(blocks, p, size) && HeapInv(m, slabs) && Layout(blocks, lo, top)
    requires Within(slabs, floor, end) && top * PAGE <= floor && SlabOf(q) in slabs && q in slabs[SlabOf(q)].live
    ensures p + size <= q
  {
    var i :| 0 <= i < |blocks| && blocks[i].Ptr() == p && size <= |blocks[i].frames| * PAGE;
    assert BlockPlaced(blocks[i], lo, top);
    LiveInPage(m, slabs, SlabOf(q), q);
  }
}

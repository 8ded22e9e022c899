/** What the heap's callers keep in their memory, through every call. */
module HeapContents {
  import opened Bytes
  import opened Seqs
  import opened Slab
  import opened SlabCaches
  import opened LargeRecords

  /** A live object that is not the record of a block. */
  ghost predicate ClientObject(slabs: map<nat, View>, blocks: seq<Block>, o: nat)
  {
    SlabOf(o) in slabs && o in slabs[SlabOf(o)].live && forall i :: 0 <= i < |blocks| ==> blocks[i].node != o
  }

  ghost predicate ObjectKept(m: Memory, n: Memory, slabs: map<nat, View>, o: nat)
  {
    SlabOf(o) in slabs && SameRange(m, n, o, o + slabs[SlabOf(o)].size)
  }

  /** Every byte that a caller may hold is as before: those below the slabs, where
      the blocks lie, and those of every client's object. */
  ghost predicate ClientsKept(m: Memory, n: Memory, floor: nat, slabs: map<nat, View>, blocks: seq<Block>)
  {
    && SameRange(m, n, 0, floor)
    && forall o {:trigger ClientObject(slabs, blocks, o)} {:trigger ObjectKept(m, n, slabs, o)} ::
         ClientObject(slabs, blocks, o) ==> ObjectKept(m, n, slabs, o)
  }

  /** An allocation from a slab. */
  lemma SparedClients(m: Memory, n: Memory, floor: nat, slabs: map<nat, View>, blocks: seq<Block>)
    requires HeapInv(m, slabs) && Spares(m, n, slabs, floor)
    ensures ClientsKept(m, n, floor, slabs, blocks)
  {
    forall o | ClientObject(slabs, blocks, o) ensures ObjectKept(m, n, slabs, o) {
      LiveInPage(m, slabs, SlabOf(o), o);
      assert SamePayload(m, n, SlabOf(o));
    }
  }

  lemma NodesAreNoClients(slabs: map<nat, View>, blocks: seq<Block>, k: int)
    ensures NodeAt(blocks, k) != 0 ==> !ClientObject(slabs, blocks, NodeAt(blocks, k))
  {
  }

  /** Stores into a record. */
  lemma RecordStore(m: Memory, n: Memory, floor: nat, slabs: map<nat, View>, blocks: seq<Block>, node: nat, lo: nat,
                    hi: nat)
    requires HeapInv(m, slabs) && IsLive(slabs, node, RECORD) && !ClientObject(slabs, blocks, node) && floor <= node
    requires node <= lo <= hi <= node + RECORD && SameBut(m, n, lo, hi)
    ensures ClientsKept(m, n, floor, slabs, blocks)
  {
    forall o | ClientObject(slabs, blocks, o) ensures ObjectKept(m, n, slabs, o) {
      LiveApart(m, slabs, o, slabs[SlabOf(o)].size, node, RECORD);
    }
  }

  /** An object given back: the others are kept. */
  lemma FreedClients(m: Memory, n: Memory, floor: nat, slabs: map<nat, View>, blocks: seq<Block>, s: nat, o: nat)
    requires HeapInv(m, slabs) && s in slabs && o in slabs[s].live && FreeWrites(m, n, s, o) && floor <= s
    ensures ClientsKept(m, n, floor, slabs[s := Freed(slabs[s], o)], blocks)
  {
    var mid :| FreeLink(m, mid, s, o) && HeaderSet(mid, n, s, o, Load32(m, s + FREE_COUNT) + 1);
    var after := slabs[s := Freed(slabs[s], o)];
    LiveInPage(m, slabs, s, o);
    forall p | ClientObject(after, blocks, p) ensures ObjectKept(m, n, after, p) {
      FreedOther(m, mid, n, slabs, s, o, p);
    }
  }

  lemma FreedOther(m: Memory, mid: Memory, n: Memory, slabs: map<nat, View>, s: nat, o: nat, p: nat)
    requires HeapInv(m, slabs) && s in slabs && o in slabs[s].live
    requires SlabOf(p) in slabs && p in slabs[SlabOf(p)].live && p != o
    requires SameBut(m, mid, o, o + 4) && SameBut(mid, n, s, s + HEADER)
    ensures SameRange(m, n, p, p + slabs[SlabOf(p)].size)
  {
    var t := SlabOf(p);
    LiveInPage(m, slabs, s, o);
    LiveInPage(m, slabs, t, p);
    LiveApart(m, slabs, o, slabs[s].size, p, slabs[t].size);
    assert Rep(m, s, slabs[s]) && Rep(m, t, slabs[t]);
    if s != t {
      PagesApart(s, t);
    }
  }

  lemma Unchanged(m: Memory, floor: nat, slabs: map<nat, View>, blocks: seq<Block>)
    ensures ClientsKept(m, m, floor, slabs, blocks)
  {
    forall o | ClientObject(slabs, blocks, o) ensures ObjectKept(m, m, slabs, o) {
    }
  }

  /** One call after another, when the clients of the first are still clients in
      the second. */
  lemma KeptTwice(a: Memory, b: Memory, c: Memory, floor: nat, slabs: map<nat, View>, blocks: seq<Block>,
                  more: map<nat, View>, longer: seq<Block>)
    requires ClientsKept(a, b, floor, slabs, blocks) && ClientsKept(b, c, floor, more, longer) && StillLive(slabs, more)
    requires forall o {:trigger ClientObject(slabs, blocks, o)} ::
               ClientObject(slabs, blocks, o) ==> ClientObject(more, longer, o)
    ensures ClientsKept(a, c, floor, slabs, blocks)
  {
    forall o | ClientObject(slabs, blocks, o) ensures ObjectKept(a, c, slabs, o) {
      assert ObjectKept(a, b, slabs, o) && ClientObject(more, longer, o);
      assert ObjectKept(b, c, more, o);
    }
  }

  /** A new record is no client of before. */
  lemma RecordJoins(slabs: map<nat, View>, more: map<nat, View>, blocks: seq<Block>, b: Block, o: nat)
    requires StillLive(slabs, more) && (forall c :: !IsLive(slabs, b.node, c)) && ClientObject(slabs, blocks, o)
    ensures ClientObject(more, [b] + blocks, o)
  {
    assert IsLive(slabs, o, slabs[SlabOf(o)].size);
    var all := [b] + blocks;
    forall i | 0 <= i < |all| ensures all[i].node != o {
      assert i > 0 ==> all[i] == blocks[i - 1];
    }
  }

  // ---- Grants -----------------------------------------------------------

  /** What is kept of every grant. */
  ghost predicate BytesKept(m: Memory, n: Memory, granted: map<nat, nat>)
  {
    |m| == |n| && forall p {:trigger GrantKept(m, n, granted, p)} :: p in granted ==> GrantKept(m, n, granted, p)
  }

  ghost predicate GrantKept(m: Memory, n: Memory, granted: map<nat, nat>, p: nat)
  {
    p in granted && SameRange(m, n, p, p + granted[p])
  }

  lemma GrantsKept(m: Memory, n: Memory, granted: map<nat, nat>, slabs: map<nat, View>, blocks: seq<Block>,
                   lo: nat, top: nat, floor: nat)
    requires Grants(granted, slabs, blocks) && Layout(blocks, lo, top) && top * PAGE <= floor
    requires ClientsKept(m, n, floor, slabs, blocks)
    ensures BytesKept(m, n, granted)
  {
    forall p | p in granted ensures GrantKept(m, n, granted, p) {
      assert Grant(slabs, blocks, p, granted[p]);
      if SmallGrant(slabs, blocks, p, granted[p]) {
        assert ClientObject(slabs, blocks, p);
        assert ObjectKept(m, n, slabs, p);
      } else {
        var i :| 0 <= i < |blocks| && blocks[i].Ptr() == p && granted[p] <= |blocks[i].frames| * PAGE;
        assert BlockPlaced(blocks[i], lo, top);
      }
    }
  }

  lemma FewerKept(m: Memory, n: Memory, granted: map<nat, nat>, p: nat)
    requires BytesKept(m, n, granted)
    ensures BytesKept(m, n, granted - {p})
  {
    forall q | q in granted - {p} ensures GrantKept(m, n, granted - {p}, q) {
      assert GrantKept(m, n, granted, q);
    }
  }

  ghost predicate InMemory(m: Memory, granted: map<nat, nat>)
  {
    forall p :: p in granted ==> p + granted[p] <= |m|
  }

  /** What the callers see: their results with the bytes in them. */
  ghost function Contents(m: Memory, granted: map<nat, nat>): map<nat, seq<Byte>>
    requires InMemory(m, granted)
  {
    map p | p in granted :: m[p..p + granted[p]]
  }

  lemma ContentsKept(m: Memory, n: Memory, granted: map<nat, nat>)
    requires InMemory(m, granted) && BytesKept(m, n, granted)
    ensures InMemory(n, granted) && Contents(n, granted) == Contents(m, granted)
  {
    forall p | p in granted ensures n[p..p + granted[p]] == m[p..p + granted[p]] {
      assert GrantKept(m, n, granted, p);
    }
  }

  /** A new result comes with whatever bytes are there. */
  lemma ContentsGrow(m: Memory, n: Memory, granted: map<nat, nat>, p: nat, size: nat)
    requires InMemory(m, granted) && BytesKept(m, n, granted) && p !in granted && p + size <= |n|
    ensures InMemory(n, granted[p := size])
    ensures Contents(n, granted[p := size]) == Contents(m, granted)[p := n[p..p + size]]
  {
    ContentsKept(m, n, granted);
  }

  lemma ContentsShrink(m: Memory, n: Memory, granted: map<nat, nat>, p: nat)
    requires InMemory(m, granted) && BytesKept(m, n, granted - {p})
    ensures InMemory(n, granted - {p}) && Contents(n, granted - {p}) == Contents(m, granted) - {p}
  {
    ContentsKept(m, n, granted - {p});
  }

  function Patched(bytes: seq<Byte>, offset: nat, data: seq<Byte>): seq<Byte>
    requires offset + |data| <= |bytes|
  {
    bytes[..offset] + data + bytes[offset + |data|..]
  }

  lemma Spliced(m: Memory, n: Memory, at: nat, data: seq<Byte>)
    requires at + |data| <= |m| && n == m[..at] + data + m[at + |data|..]
    ensures SameBut(m, n, at, at + |data|)
  {
  }

  lemma PatchedSlice(m: Memory, n: Memory, p: nat, len: nat, offset: nat, data: seq<Byte>)
    requires p + len <= |m| && offset + |data| <= len && n == m[..p + offset] + data + m[p + offset + |data|..]
    ensures |n| == |m| && n[p..p + len] == Patched(m[p..p + len], offset, data)
  {
    var a, b := n[p..p + len], Patched(m[p..p + len], offset, data);
    forall i | 0 <= i < len ensures a[i] == b[i] {
      if i < offset {
        assert a[i] == m[p + i];
      } else if i < offset + |data| {
        assert a[i] == data[i - offset];
      } else {
        assert a[i] == m[p + i];
      }
    }
    assert a == b;
  }

  lemma ContentsPatched(m: Memory, n: Memory, granted: map<nat, nat>, p: nat, offset: nat, data: seq<Byte>)
    requires InMemory(m, granted) && p in granted && offset + |data| <= granted[p] && BytesKept(m, n, granted - {p})
    requires n == m[..p + offset] + data + m[p + offset + |data|..]
    ensures InMemory(n, granted)
    ensures Contents(n, granted) == Contents(m, granted)[p := Patched(m[p..p + granted[p]], offset, data)]
  {
    PatchedSlice(m, n, p, granted[p], offset, data);
    forall q | q in granted && q != p ensures n[q..q + granted[q]] == m[q..q + granted[q]] {
      assert GrantKept(m, n, granted - {p}, q);
    }
  }
}

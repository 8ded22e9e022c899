/** One slab of memory/kmalloc.c: a page holding a 20-byte header and equal
    objects, whose free list runs through the free objects themselves. */
module Slab {
  import opened Bytes
  import opened Seqs
  import Runs

  const PAGE: nat := 4096
  const HEADER: nat := 20
  const DATA: nat := 4076

  // Header fields, by offset.
  const OBJECT_SIZE: nat := 0
  const FREE_LIST: nat := 4
  const OFFSET: nat := 8
  const FREE_COUNT: nat := 12
  const NEXT: nat := 16

  function Capacity(size: nat): nat
    requires size > 0
  {
    DATA / size
  }

  function ObjectAt(s: nat, size: nat, i: nat): nat { s + HEADER + i * size }

  ghost function FirstObjects(s: nat, size: nat, n: nat): set<nat> {
    if n == 0 then {} else FirstObjects(s, size, n - 1) + {ObjectAt(s, size, n - 1)}
  }

  /** The addresses of a slab's objects. */
  ghost function Objects(s: nat, size: nat): set<nat>
    requires size > 0
  {
    FirstObjects(s, size, Capacity(size))
  }

  lemma {:induction false} IndexOf(s: nat, size: nat, n: nat, o: nat) returns (i: nat)
    requires o in FirstObjects(s, size, n)
    ensures i < n && o == ObjectAt(s, size, i)
  {
    if o == ObjectAt(s, size, n - 1) {
      i := n - 1;
    } else {
      i := IndexOf(s, size, n - 1, o);
    }
  }

  lemma {:induction false} HasObject(s: nat, size: nat, n: nat, i: nat)
    requires i < n
    ensures ObjectAt(s, size, i) in FirstObjects(s, size, n)
  {
    if i < n - 1 {
      HasObject(s, size, n - 1, i);
    }
  }

  lemma NextMultiple(i: nat, j: nat, size: nat)
    requires i < j
    ensures i * size + size <= j * size
    decreases j
  {
    assert j * size == (j - 1) * size + size;
    if i < j - 1 {
      NextMultiple(i, j - 1, size);
    }
  }

  lemma CapacityFits(size: nat)
    requires size > 0
    ensures Capacity(size) <= Capacity(size) * size <= DATA
  {
    assert DATA == Capacity(size) * size + DATA % size;
  }

  /** As many objects as fit behind the 20 bytes of the header. */
  lemma CapacityMaximal(size: nat)
    requires size > 0
    ensures 20 + Capacity(size) * size <= 4096 < 20 + (Capacity(size) + 1) * size
  {
    CapacityFits(size);
    assert (Capacity(size) + 1) * size == Capacity(size) * size + size;
  }

  lemma ObjectInPage(s: nat, size: nat, o: nat)
    requires size > 0 && o in Objects(s, size)
    ensures s + HEADER <= o && o + size <= s + PAGE
  {
    var i := IndexOf(s, size, Capacity(size), o);
    NextMultiple(i, Capacity(size), size);
    CapacityFits(size);
  }

  lemma ObjectsApart(s: nat, size: nat, o: nat, p: nat)
    requires size > 0 && o in Objects(s, size) && p in Objects(s, size) && o != p
    ensures o + size <= p || p + size <= o
  {
    var i := IndexOf(s, size, Capacity(size), o);
    var j := IndexOf(s, size, Capacity(size), p);
    if i < j {
      NextMultiple(i, j, size);
    } else {
      NextMultiple(j, i, size);
    }
  }

  /** What a slab means: the free objects in list order, and the live ones. */
  datatype View = View(size: nat, free: seq<nat>, live: set<nat>)

  ghost function First(free: seq<nat>): nat { if free == [] then 0 else free[0] }

  /** Each free object's first word points to the next one; the last holds NULL. */
  ghost predicate Linked(m: Memory, free: seq<nat>)
  {
    forall i :: 0 <= i < |free| ==> free[i] + 4 <= |m| && Load32(m, free[i]) == First(free[i + 1..])
  }

  ghost predicate Fits(m: Memory, s: nat, v: View)
  {
    && 0 < s && s % PAGE == 0 && s + PAGE <= |m| <= 0x1_0000_0000
    && 4 <= v.size <= DATA
  }

  /** The page at s represents v: the header is right, the in-band list is an
      acyclic chain through exactly v.free, and free and live objects partition
      the slab's objects. */
  ghost predicate Rep(m: Memory, s: nat, v: View)
  {
    && Fits(m, s, v)
    && Load32(m, s + OBJECT_SIZE) == v.size
    && Load32(m, s + FREE_LIST) == First(v.free)
    && Load32(m, s + FREE_COUNT) == |v.free|
    && Linked(m, v.free) && Distinct(v.free)
    && Elements(v.free) !! v.live
    && Elements(v.free) + v.live == Objects(s, v.size)
  }

  /** A range that touches neither the header words in use nor a free object. */
  ghost predicate Harmless(s: nat, v: View, lo: nat, hi: nat)
  {
    && (hi <= s || s + HEADER <= lo)
    && forall o :: o in v.free ==> o + 4 <= lo || hi <= o
  }

  lemma RepFrame(m: Memory, n: Memory, s: nat, v: View, lo: nat, hi: nat)
    requires Rep(m, s, v) && SameBut(m, n, lo, hi) && Harmless(s, v, lo, hi)
    ensures Rep(n, s, v)
  {
    LoadFrame(m, n, lo, hi, s + OBJECT_SIZE);
    LoadFrame(m, n, lo, hi, s + FREE_LIST);
    LoadFrame(m, n, lo, hi, s + FREE_COUNT);
    forall i | 0 <= i < |v.free| ensures Load32(n, v.free[i]) == First(v.free[i + 1..]) {
      assert v.free[i] in v.free;
      LoadFrame(m, n, lo, hi, v.free[i]);
    }
  }

  /** A write inside a live object is harmless, whatever it writes. */
  lemma LiveIsHarmless(m: Memory, s: nat, v: View, o: nat, lo: nat, hi: nat)
    requires Rep(m, s, v) && o in v.live && o <= lo <= hi <= o + v.size
    ensures Harmless(s, v, lo, hi)
  {
    assert o in Objects(s, v.size);
    ObjectInPage(s, v.size, o);
    forall p | p in v.free ensures p + 4 <= lo || hi <= p {
      assert p in Elements(v.free);
      assert p in Objects(s, v.size) && p != o;
      ObjectsApart(s, v.size, o, p);
    }
  }

  /** So is a write to another page. */
  lemma OtherPageIsHarmless(m: Memory, s: nat, v: View, lo: nat, hi: nat)
    requires Rep(m, s, v) && (hi <= s || s + PAGE <= lo)
    ensures Harmless(s, v, lo, hi)
  {
    forall p | p in v.free ensures p + 4 <= lo || hi <= p {
      assert p in Elements(v.free);
      assert p in Objects(s, v.size);
      ObjectInPage(s, v.size, p);
    }
  }

  /** The bytes of the page at s are as before. */
  ghost predicate SamePage(m: Memory, n: Memory, s: nat)
  {
    |m| == |n| && forall i :: s <= i < s + PAGE && i < |m| ==> n[i] == m[i]
  }

  /** A slab is its page's bytes. */
  lemma RepSamePage(m: Memory, n: Memory, s: nat, v: View)
    requires Rep(m, s, v) && SamePage(m, n, s)
    ensures Rep(n, s, v)
  {
    forall i | 0 <= i < |v.free| ensures Load32(n, v.free[i]) == First(v.free[i + 1..]) {
      assert v.free[i] in Elements(v.free);
      assert v.free[i] in Objects(s, v.size);
      ObjectInPage(s, v.size, v.free[i]);
    }
  }

  /** The page at s represents no slab, whatever free and live objects one takes. */
  ghost predicate NoSlab(m: Memory, s: nat) { forall v :: !Rep(m, s, v) }

  /** A page whose list starts below it is no slab at all. */
  lemma ForeignHead(m: Memory, s: nat, p: nat)
    requires s + PAGE <= |m| && Load32(m, s + FREE_LIST) == p && 0 < p < s
    ensures NoSlab(m, s)
  {
    forall v | Rep(m, s, v) ensures false {
      assert v.free != [] && v.free[0] in Elements(v.free);
      assert v.free[0] in Objects(s, v.size);
      ObjectInPage(s, v.size, v.free[0]);
    }
  }

  /** Nor is a page of zeros. */
  lemma ZeroedPage(m: Memory, s: nat)
    requires s + PAGE <= |m| && forall i :: s <= i < s + PAGE ==> m[i] == 0
    ensures NoSlab(m, s)
  {
    assert Load32(m, s + OBJECT_SIZE) == 0;
  }

  /** The chain is the memory's own: no other sequence of objects reads as the
      free list, so "the free list" is well defined by the bytes. */
  lemma {:induction false} ChainUnique(m: Memory, c: seq<nat>, d: seq<nat>)
    requires Linked(m, c) && Linked(m, d) && First(c) == First(d) && 0 !in c && 0 !in d
    ensures c == d
    decreases |c|
  {
    if c != [] && d != [] {
      assert c[0] == d[0];
      LinkedTail(m, c);
      LinkedTail(m, d);
      ChainUnique(m, c[1..], d[1..]);
      assert c == [c[0]] + c[1..] && d == [d[0]] + d[1..];
    }
  }

  function Allocated(v: View): View
    requires v.free != []
  {
    View(v.size, v.free[1..], v.live + {v.free[0]})
  }

  function Freed(v: View, o: nat): View { View(v.size, [o] + v.free, v.live - {o}) }

  /** New header words, object size untouched. */
  ghost predicate HeaderSet(m: Memory, n: Memory, s: nat, first: nat, count: int)
  {
    && s + PAGE <= |m| && SameBut(m, n, s, s + HEADER)
    && Load32(n, s + OBJECT_SIZE) == Load32(m, s + OBJECT_SIZE) && Load32(n, s + NEXT) == Load32(m, s + NEXT)
    && Load32(n, s + FREE_LIST) == first && Load32(n, s + FREE_COUNT) == count
  }

  lemma LinkedTail(m: Memory, free: seq<nat>)
    requires Linked(m, free) && free != []
    ensures Linked(m, free[1..])
  {
    forall i | 0 <= i < |free| - 1
      ensures free[1..][i] + 4 <= |m| && Load32(m, free[1..][i]) == First(free[1..][i + 1..])
    {
      assert free[1..][i + 1..] == free[i + 2..];
    }
  }

  lemma LinkedPush(m: Memory, o: nat, free: seq<nat>)
    requires Linked(m, free) && o + 4 <= |m| && Load32(m, o) == First(free)
    ensures Linked(m, [o] + free)
  {
    var all := [o] + free;
    forall i | 0 <= i < |all| ensures all[i] + 4 <= |m| && Load32(m, all[i]) == First(all[i + 1..]) {
      assert all[i + 1..] == free[i..];
    }
  }

  /** A list of this slab's objects survives any change to the header. */
  lemma LinkedFrame(m: Memory, n: Memory, s: nat, size: nat, free: seq<nat>)
    requires size > 0 && Linked(m, free) && SameBut(m, n, s, s + HEADER) && Elements(free) <= Objects(s, size)
    ensures Linked(n, free)
  {
    forall i | 0 <= i < |free| ensures Load32(n, free[i]) == First(free[i + 1..]) {
      assert free[i] in Elements(free);
      ObjectInPage(s, size, free[i]);
      LoadFrame(m, n, s, s + HEADER, free[i]);
    }
  }

  lemma AllocKeepsRep(m: Memory, n: Memory, s: nat, v: View)
    requires Rep(m, s, v) && v.free != []
    requires HeaderSet(m, n, s, Load32(m, v.free[0]), |v.free| - 1)
    ensures Rep(n, s, Allocated(v))
  {
    var first, rest := v.free[0], v.free[1..];
    assert Load32(m, first) == First(rest);
    LinkedTail(m, v.free);
    Popped(v.free);
    LinkedFrame(m, n, s, v.size, rest);
  }

  lemma Popped(free: seq<nat>)
    requires Distinct(free) && free != []
    ensures Distinct(free[1..]) && free[0] !in Elements(free[1..]) && Elements(free) == {free[0]} + Elements(free[1..])
  {
    assert free == [free[0]] + free[1..];
  }

  lemma Pushed(o: nat, free: seq<nat>)
    requires Distinct(free) && o !in Elements(free)
    ensures Distinct([o] + free) && Elements([o] + free) == {o} + Elements(free)
  {
    assert forall x :: x in free ==> x in Elements(free);
  }

  lemma FreeKeepsRep(m: Memory, mid: Memory, n: Memory, s: nat, v: View, o: nat)
    requires Rep(m, s, v) && o in v.live
    requires Stored(m, mid, o, First(v.free)) && HeaderSet(mid, n, s, o, |v.free| + 1)
    ensures Rep(n, s, Freed(v, o))
  {
    assert o in Objects(s, v.size);
    ObjectInPage(s, v.size, o);
    LiveIsHarmless(m, s, v, o, o, o + 4);
    RepFrame(m, mid, s, v, o, o + 4);
    LinkedPush(mid, o, v.free);
    Pushed(o, v.free);
    LinkedFrame(mid, n, s, v.size, [o] + v.free);
  }

  /** The view `init_slab` leaves: all objects free, in address order. */
  function FreshView(s: nat, size: nat): View
    requires size > 0
  {
    View(size, seq(Capacity(size), i requires 0 <= i => ObjectAt(s, size, i)), {})
  }

  lemma CapacityPositive(size: nat)
    requires 0 < size <= DATA
    ensures Capacity(size) >= 1
  {
    assert DATA < (DATA / size + 1) * size;
    if DATA / size == 0 {
      assert false;
    }
  }

  lemma FreshDistinct(s: nat, size: nat)
    requires size > 0
    ensures Distinct(FreshView(s, size).free)
    ensures Elements(FreshView(s, size).free) == Objects(s, size)
  {
    var free := FreshView(s, size).free;
    forall i, j | 0 <= i < j < |free| ensures free[i] != free[j] {
      NextMultiple(i, j, size);
      assert free[i] == ObjectAt(s, size, i) && free[j] == ObjectAt(s, size, j);
    }
    forall o ensures o in Elements(free) <==> o in Objects(s, size) {
      if o in Objects(s, size) {
        var i := IndexOf(s, size, Capacity(size), o);
        assert free[i] == o;
      }
      if o in Elements(free) {
        var i :| 0 <= i < |free| && free[i] == o;
        HasObject(s, size, Capacity(size), i);
      }
    }
  }

  ghost function NextObject(s: nat, size: nat, i: nat): nat
    requires size > 0
  {
    if i + 1 < Capacity(size) then ObjectAt(s, size, i + 1) else 0
  }

  lemma FreshRep(m: Memory, s: nat, size: nat)
    requires 0 < size <= DATA && Fits(m, s, FreshView(s, size))
    requires HeaderIs(m, s, size, ObjectAt(s, size, 0), Capacity(size))
    requires forall i: nat :: i < Capacity(size) ==> Word32(m, ObjectAt(s, size, i), NextObject(s, size, i))
    ensures Rep(m, s, FreshView(s, size))
  {
    CapacityPositive(size);
    FreshDistinct(s, size);
    FreshWords(m, s, size);
    PointersLink(m, FreshView(s, size).free);
  }

  ghost function After(free: seq<nat>, i: nat): nat { if i + 1 < |free| then free[i + 1] else 0 }

  lemma FreshWords(m: Memory, s: nat, size: nat)
    requires 0 < size && forall i: nat :: i < Capacity(size) ==> Word32(m, ObjectAt(s, size, i), NextObject(s, size, i))
    ensures var free := FreshView(s, size).free;
            forall i :: 0 <= i < |free| ==> Word32(m, free[i], After(free, i))
  {
    var free := FreshView(s, size).free;
    forall i | 0 <= i < |free| ensures Word32(m, free[i], After(free, i)) {
      assert Word32(m, ObjectAt(s, size, i), NextObject(s, size, i));
    }
  }

  lemma PointersLink(m: Memory, free: seq<nat>)
    requires forall i :: 0 <= i < |free| ==> Word32(m, free[i], After(free, i))
    ensures Linked(m, free)
  {
  }

  ghost predicate Word32(m: Memory, a: nat, w: nat) { a + 4 <= |m| && Load32(m, a) == w }

  ghost predicate HeaderIs(m: Memory, s: nat, size: nat, first: nat, count: nat)
  {
    Word32(m, s + OBJECT_SIZE, size) && Word32(m, s + FREE_LIST, first) && Word32(m, s + FREE_COUNT, count)
  }

  /** The first n objects each point to the next one. */
  ghost predicate ChainTo(m: Memory, s: nat, size: nat, n: nat)
  {
    forall k: nat :: k < n ==> Word32(m, ObjectAt(s, size, k), ObjectAt(s, size, k + 1))
  }

  lemma ChainPoke(m: Memory, n: Memory, s: nat, size: nat, j: nat, w: Word)
    requires size >= 4 && ChainTo(m, s, size, j) && Stored(m, n, ObjectAt(s, size, j), w)
    ensures ChainTo(n, s, size, j)
    ensures w == ObjectAt(s, size, j + 1) ==> ChainTo(n, s, size, j + 1)
  {
    forall k: nat | k < j ensures Word32(n, ObjectAt(s, size, k), ObjectAt(s, size, k + 1)) {
      NextMultiple(k, j, size);
      assert Word32(m, ObjectAt(s, size, k), ObjectAt(s, size, k + 1));
      LoadFrame(m, n, ObjectAt(s, size, j), ObjectAt(s, size, j) + 4, ObjectAt(s, size, k));
    }
  }

  lemma ObjectIndexInPage(s: nat, size: nat, i: nat)
    requires size > 0 && i < Capacity(size)
    ensures s + HEADER <= ObjectAt(s, size, i) && ObjectAt(s, size, i) + size <= s + PAGE
  {
    HasObject(s, size, Capacity(size), i);
    ObjectInPage(s, size, ObjectAt(s, size, i));
  }

  /** `free_count` plus the live objects is the slab's capacity. */
  lemma CountsAddUp(m: Memory, s: nat, v: View)
    requires Rep(m, s, v)
    ensures Load32(m, s + FREE_COUNT) + |v.live| == Capacity(v.size) <= DATA
  {
    FreshDistinct(s, v.size);
    ElementCount(FreshView(s, v.size).free);
    ElementCount(v.free);
    assert |Elements(v.free) + v.live| == |Elements(v.free)| + |v.live|;
    CapacityFits(v.size);
  }

  // ---- Many slabs, whole runs -------------------------------------------

  ghost predicate HeapInv(m: Memory, slabs: map<nat, View>)
  {
    forall s {:trigger Rep(m, s, slabs[s])} :: s in slabs ==> Rep(m, s, slabs[s])
  }

  lemma PagesApart(s: nat, t: nat)
    requires s % PAGE == 0 && t % PAGE == 0 && s != t
    ensures s + PAGE <= t || t + PAGE <= s
  {
  }

  lemma OtherSlab(m: Memory, n: Memory, s: nat, t: nat, v: View)
    requires s % PAGE == 0 && t != s && Rep(m, t, v) && SameBut(m, n, s, s + PAGE)
    ensures Rep(n, t, v)
  {
    PagesApart(s, t);
    OtherPageIsHarmless(m, t, v, s, s + PAGE);
    RepFrame(m, n, t, v, s, s + PAGE);
  }

  /** A change inside the page at s leaves every other slab as it was. */
  lemma OtherSlabs(m: Memory, n: Memory, slabs: map<nat, View>, s: nat)
    requires HeapInv(m, slabs) && s % PAGE == 0 && SameBut(m, n, s, s + PAGE)
    ensures forall t :: t in slabs && t != s ==> Rep(n, t, slabs[t])
  {
    forall t | t in slabs && t != s ensures Rep(n, t, slabs[t]) {
      OtherSlab(m, n, s, t, slabs[t]);
    }
  }

  /** A write inside a live object leaves every slab as it was. */
  lemma ClientWrite(m: Memory, n: Memory, slabs: map<nat, View>, s: nat, o: nat, lo: nat, hi: nat)
    requires HeapInv(m, slabs) && s in slabs && o in slabs[s].live
    requires o <= lo <= hi <= o + slabs[s].size && SameBut(m, n, lo, hi)
    ensures HeapInv(n, slabs)
  {
    var v := slabs[s];
    assert Rep(m, s, v) && o in Objects(s, v.size);
    ObjectInPage(s, v.size, o);
    LiveIsHarmless(m, s, v, o, lo, hi);
    RepFrame(m, n, s, v, lo, hi);
    OtherSlabs(m, n, slabs, s);
  }

  datatype Event =
    | Alloc(slab: nat)
    | Free(slab: nat, object: nat)
    | Write(slab: nat, object: nat, lo: nat, hi: nat)
    | Create(slab: nat, size: nat)

  datatype Heap = Heap(mem: Memory, slabs: map<nat, View>)

  /** The stores of `alloc_from_slab` on a slab with free objects. */
  ghost predicate AllocWrites(m: Memory, n: Memory, s: nat)
  {
    && s + PAGE <= |m|
    && var o := Load32(m, s + FREE_LIST);
       o + 4 <= |m| && HeaderSet(m, n, s, Load32(m, o), Load32(m, s + FREE_COUNT) - 1)
  }

  /** The stores of `slab_free`. */
  ghost predicate FreeWrites(m: Memory, n: Memory, s: nat, o: nat)
  {
    s + PAGE <= |m| &&
    exists mid :: FreeLink(m, mid, s, o) && HeaderSet(mid, n, s, o, Load32(m, s + FREE_COUNT) + 1)
  }

  ghost predicate FreeLink(m: Memory, mid: Memory, s: nat, o: nat)
  {
    s + PAGE <= |m| && Stored(m, mid, o, Load32(m, s + FREE_LIST))
  }

  /** What each event does to the bytes, read off the header and the list in
      memory, and which objects it moves. An allocation from a full slab
      returns NULL and changes nothing. */
  ghost predicate Step(h: Heap, e: Event, k: Heap)
  {
    && (!e.Create? ==> e.slab in h.slabs && e.slab + PAGE <= |h.mem|)
    && match e
       case Alloc(s) =>
         if Load32(h.mem, s + FREE_COUNT) == 0 then k == h
         else AllocWrites(h.mem, k.mem, s) && h.slabs[s].free != [] && k.slabs == h.slabs[s := Allocated(h.slabs[s])]
       case Free(s, o) =>
         && o in h.slabs[s].live
         && FreeWrites(h.mem, k.mem, s, o) && k.slabs == h.slabs[s := Freed(h.slabs[s], o)]
       case Write(s, o, lo, hi) =>
         && o in h.slabs[s].live && o <= lo <= hi <= o + h.slabs[s].size
         && SameBut(h.mem, k.mem, lo, hi) && k.slabs == h.slabs
       case Create(s, size) =>
         && s !in h.slabs && s % PAGE == 0 && size > 0 && SameBut(h.mem, k.mem, s, s + PAGE)
         && Rep(k.mem, s, FreshView(s, size)) && k.slabs == h.slabs[s := FreshView(s, size)]
  }

  lemma AllocKeepsHeap(m: Memory, n: Memory, slabs: map<nat, View>, s: nat)
    requires HeapInv(m, slabs) && s in slabs && slabs[s].free != [] && AllocWrites(m, n, s)
    ensures HeapInv(n, slabs[s := Allocated(slabs[s])])
    ensures Load32(m, s + FREE_LIST) == slabs[s].free[0]
  {
    AllocKeepsRep(m, n, s, slabs[s]);
    OtherSlabs(m, n, slabs, s);
  }

  lemma FreeIsPageLocal(m: Memory, n: Memory, s: nat, v: View, o: nat)
    requires Rep(m, s, v) && o in v.live && FreeWrites(m, n, s, o)
    ensures Rep(n, s, Freed(v, o)) && SameBut(m, n, s, s + PAGE)
  {
    var mid :| FreeLink(m, mid, s, o) && HeaderSet(mid, n, s, o, Load32(m, s + FREE_COUNT) + 1);
    FreeKeepsRep(m, mid, n, s, v, o);
    assert o in Objects(s, v.size);
    ObjectInPage(s, v.size, o);
  }

  lemma FreeKeepsHeap(m: Memory, n: Memory, slabs: map<nat, View>, s: nat, o: nat)
    requires HeapInv(m, slabs) && s in slabs && o in slabs[s].live && FreeWrites(m, n, s, o)
    ensures HeapInv(n, slabs[s := Freed(slabs[s], o)])
  {
    FreeIsPageLocal(m, n, s, slabs[s], o);
    OtherSlabs(m, n, slabs, s);
  }

  lemma StepKeepsHeap(h: Heap, e: Event, k: Heap)
    requires HeapInv(h.mem, h.slabs) && Step(h, e, k)
    ensures HeapInv(k.mem, k.slabs)
  {
    match e
    case Alloc(s) =>
      if Load32(h.mem, s + FREE_COUNT) != 0 {
        AllocKeepsHeap(h.mem, k.mem, h.slabs, s);
      }
    case Free(s, o) => FreeKeepsHeap(h.mem, k.mem, h.slabs, s, o);
    case Write(s, o, lo, hi) => ClientWrite(h.mem, k.mem, h.slabs, s, o, lo, hi);
    case Create(s, size) => OtherSlabs(h.mem, k.mem, h.slabs, s);
  }

  ghost predicate SlabRun(heaps: seq<Heap>, events: seq<Event>)
  {
    Runs.Run((h: Heap, e: Event, k: Heap) => Step(h, e, k), heaps, events)
  }

  /** Over every run of slab creations, allocations, frees of live objects and
      client writes inside live objects, every slab's in-band list stays an
      acyclic chain of exactly `free_count` objects, and free and live objects
      partition the slab. */
  lemma RunKeepsHeap(heaps: seq<Heap>, events: seq<Event>)
    requires SlabRun(heaps, events) && HeapInv(heaps[0].mem, heaps[0].slabs)
    ensures forall i :: 0 <= i < |heaps| ==> HeapInv(heaps[i].mem, heaps[i].slabs)
  {
    var inv := (h: Heap) => HeapInv(h.mem, h.slabs);
    var step := (h: Heap, e: Event, k: Heap) => Step(h, e, k);
    forall h, e, k | inv(h) && step(h, e, k) ensures inv(k) {
      StepKeepsHeap(h, e, k);
    }
    Runs.Invariant(inv, step, heaps, events, |events|);
    forall i | 0 <= i < |heaps| ensures HeapInv(heaps[i].mem, heaps[i].slabs) {
      assert inv(heaps[i]);
    }
  }
}

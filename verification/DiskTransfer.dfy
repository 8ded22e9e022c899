/** `disk_read` and `disk_write` of drivers/disk.c: byte ranges cut into sector
    commands through temporary buffers. */
module DiskTransfer {
  import opened Bytes
  import opened AtaDrive

  /** The allocator behind the temporary buffers: any request may fail. */
  class TempHeap {
    const grants: nat -> bool
    var clock: nat
    var live: nat

    constructor (grants: nat -> bool)
      ensures this.grants == grants && live == 0
    {
      this.grants, clock, live := grants, 0, 0;
    }

    /** No request ever fails. */
    ghost predicate Generous() { forall k :: grants(k) }

    method Alloc() returns (ok: bool)
      modifies this
      ensures ok == grants(old(clock)) && clock == old(clock) + 1
      ensures live == old(live) + if ok then 1 else 0
    {
      ok := grants(clock);
      clock := clock + 1;
      if ok {
        live := live + 1;
      }
    }

    method Free()
      requires live > 0
      modifies this`live
      ensures live == old(live) - 1
    {
      live := live - 1;
    }
  }

  /** Nothing stands in the way of a transfer but its range. */
  ghost predicate Serves(d: Drive, h: TempHeap) {
    d.valid && d.lbaSupported && d.Healthy() && h.Generous()
  }

  // ---- Sector arithmetic ------------------------------------------------

  /** The sector count register for the next command: 0 stands for 256. */
  function ThisCall(totalSectors: nat): Byte {
    if totalSectors >= MAX_SECTORS then 0 else totalSectors
  }

  lemma DivSpan(n: nat, size: nat)
    requires size > 0
    ensures Span(n / size, size) + n % size == n && n % size < size
  {
    SpanIsProduct(n / size, size);
    assert n == n / size * size + n % size;
  }

  /** Rounding up gives the fewest sectors that cover n bytes. */
  lemma CeilSpan(n: nat, size: nat)
    requires size > 0
    ensures var t := (n + size - 1) / size;
            n <= Span(t, size) && (t > 0 ==> Span(t - 1, size) < n)
  {
    var t := (n + size - 1) / size;
    DivSpan(n + size - 1, size);
  }

  /** The sectors that len bytes touch. */
  function Sectors(len: nat, size: nat): nat
    requires size > 0
  {
    len / size + if len % size == 0 then 0 else 1
  }

  lemma CeilIsSectors(len: nat, size: nat)
    requires size > 0
    ensures (len + size - 1) / size == Sectors(len, size)
  {
    var s, t := Sectors(len, size), (len + size - 1) / size;
    CeilSpan(len, size);
    DivSpan(len, size);
    if s < t {
      SpanGrows(s, t - 1, size);
    } else if t < s {
      SpanGrows(t, s - 1, size);
    }
  }

  /** Within one sector of 2^32 the rounding sum wraps to less than a sector. */
  lemma WrapsToNothing(len: Word, size: nat)
    requires 0 < size < 0x1_0000_0000 < len + size
    ensures (len + size - 1) % 0x1_0000_0000 / size == 0
  {
    assert (len + size - 1) % 0x1_0000_0000 == len + size - 1 - 0x1_0000_0000 < size;
  }

  lemma SpanGrows(a: nat, b: nat, size: nat)
    requires a <= b
    ensures Span(a, size) <= Span(b, size)
  {
    SpanAdd(a, b - a, size);
  }

  /** Where a read from lba stands: calls full commands done, r bytes delivered,
      sector addr next, and just enough sectors to go. */
  ghost predicate ReadPlan(lba: nat, len: nat, addr: nat, r: nat, totalSectors: nat, calls: nat, size: nat)
  {
    && r <= len
    && (totalSectors == 0 ==> r == len || r == calls == 0)
    && (totalSectors > 0 ==> Midway(lba, addr, r, calls, size))
    && (totalSectors > 0 ==> r + Span(totalSectors - 1, size) < len <= r + Span(totalSectors, size))
  }

  ghost predicate Midway(lba: nat, addr: nat, r: nat, calls: nat, size: nat)
  {
    r == Span(MAX_SECTORS * calls, size) && addr == lba + MAX_SECTORS * calls && Span(addr, size) == Span(lba, size) + r
  }

  lemma ReadPlanStep(lba: nat, len: nat, addr: nat, r: nat, totalSectors: nat, calls: nat, size: nat, count: nat,
                     n: nat)
    requires totalSectors > 0 && size > 0 && ReadPlan(lba, len, addr, r, totalSectors, calls, size)
    requires count == DecodeCount(ThisCall(totalSectors))
    requires n == if r + Span(count, size) > len then len - r else Span(count, size)
    ensures 0 < count <= totalSectors && n <= Span(count, size)
    ensures ReadPlan(lba, len, addr + count, r + n, totalSectors - count, calls + 1, size)
  {
    SpanAdd(totalSectors - count, count, size);
    if totalSectors > count {
      SpanAdd(totalSectors - count - 1, count, size);
      SpanAdd(MAX_SECTORS * calls, MAX_SECTORS, size);
      SpanAdd(lba, MAX_SECTORS * (calls + 1), size);
    }
  }

  // ---- Reading ----------------------------------------------------------

  method Memcpy(dest: array<Byte>, at: nat, src: array<Byte>, from: nat, n: nat)
    requires dest != src && at + n <= dest.Length && from + n <= src.Length
    modifies dest
    ensures dest[..] == old(dest[..at]) + src[from..from + n] + old(dest[at + n..])
  {
    for k := 0 to n
      invariant forall i :: 0 <= i < dest.Length ==>
                  dest[i] == if at <= i < at + k then src[from + i - at] else old(dest[i])
    {
      dest[at + k] := src[from + k];
    }
  }

  /** The first r bytes of the buffer come from the disk, the rest is as before. */
  ghost predicate Delivered(buf0: seq<Byte>, buf: seq<Byte>, store: seq<Byte>, start: nat, r: nat)
  {
    && |buf| == |buf0| && r <= |buf| && buf[r..] == buf0[r..]
    && (r > 0 ==> start + r <= |store| && buf[..r] == store[start..start + r])
  }

  lemma DeliverMore(buf0: seq<Byte>, before: seq<Byte>, after: seq<Byte>, store: seq<Byte>, start: nat, r: nat, n: nat)
    requires Delivered(buf0, before, store, start, r) && r + n <= |before| && start + r + n <= |store|
    requires after == before[..r] + store[start + r..start + r + n] + before[r + n..]
    ensures Delivered(buf0, after, store, start, r + n)
  {
    assert before[r + n..] == before[r..][n..] && buf0[r + n..] == buf0[r..][n..];
  }

  /** One turn of the read loop: n bytes from sector addr to buffer[at..]. */
  method ReadChunk(d: Drive, h: TempHeap, addr: Word, sectors: Byte, buffer: array<Byte>, at: nat, n: nat)
      returns (ok: bool)
    requires d.Valid() && at + n <= buffer.Length && n <= Span(DecodeCount(sectors), d.sectorSize)
    modifies d, h, buffer
    ensures d.Valid() && d.store == old(d.store) && h.live == old(h.live)
    ensures !ok ==> buffer[..] == old(buffer[..])
    ensures ok ==> addr + DecodeCount(sectors) <= d.totalSectors && Span(addr, d.sectorSize) + n <= |d.store|
    ensures ok ==>
              var a := Span(addr, d.sectorSize);
              buffer[..] == old(buffer[..at]) + d.store[a..a + n] + old(buffer[at + n..])
    ensures Serves(d, h) && addr + DecodeCount(sectors) <= d.totalSectors ==> ok
  {
    ok := h.Alloc();
    if ok {
      var temp := new Byte[Span(DecodeCount(sectors), d.sectorSize)](_ => 0);
      ok := ReadSectors(d, addr, sectors, temp);
      if ok {
        ghost var a := Span(addr, d.sectorSize);
        SlicePrefix(d.store, a, temp.Length, n);
        assert temp[0..0 + n] == temp[..][..n];
        Memcpy(buffer, at, temp, 0, n);
      }
      h.Free();
    }
  }

  /** `disk_read`. Whatever fails, the first r bytes asked for are in the buffer
      and the rest of it is untouched; a short result is a whole number of full
      256-sector commands. A length within one sector of 2^32 reads nothing, and
      where nothing else stands in the way that is the only short read. */
  method DiskRead(d: Drive, h: TempHeap, lba: Word, buffer: array<Byte>, len: Word) returns (r: nat, ghost calls: nat)
    requires d.Valid() && len <= buffer.Length
    modifies d, h, buffer
    ensures d.Valid() && d.store == old(d.store) && h.live == old(h.live)
    ensures r <= len && (r > 0 ==> Span(lba, d.sectorSize) + r <= |d.store|)
    ensures r > 0 ==> buffer[..r] == d.store[Span(lba, d.sectorSize)..Span(lba, d.sectorSize) + r]
    ensures buffer[r..] == old(buffer[r..])
    ensures r < len ==> r == Span(MAX_SECTORS * calls, d.sectorSize)
    ensures !d.valid || len + d.sectorSize > 0x1_0000_0000 ==> r == 0
    ensures Serves(d, h) && 0 < len && lba + Sectors(len, d.sectorSize) <= d.totalSectors
            ==> (r == len <==> len + d.sectorSize <= 0x1_0000_0000)
  {
    var totalSectors := CountSectors(d, lba, len);
    r, calls := ReadLoop(d, h, lba, buffer, len, totalSectors);
    assert buffer[..][r..] == buffer[r..] && old(buffer[..])[r..] == old(buffer[r..]) && buffer[..][..r] == buffer[..r];
  }

  /** The rounded-up number of sectors; the sum wraps. */
  method CountSectors(d: Drive, ghost lba: Word, len: Word) returns (sectors: nat)
    requires d.Valid()
    ensures ReadPlan(lba, len, lba, 0, sectors, 0, d.sectorSize)
    ensures d.valid && len + d.sectorSize <= 0x1_0000_0000 ==> sectors == Sectors(len, d.sectorSize)
    ensures d.valid && len + d.sectorSize <= 0x1_0000_0000 && 0 < len ==> 0 < sectors
    ensures !d.valid || len + d.sectorSize > 0x1_0000_0000 ==> sectors == 0
  {
    sectors := if d.valid then (len + d.sectorSize - 1) % 0x1_0000_0000 / d.sectorSize else 0;
    FirstPlan(lba, len, sectors, d.sectorSize);
    CeilIsSectors(len, d.sectorSize);
    DivSpan(len, d.sectorSize);
    if len + d.sectorSize > 0x1_0000_0000 {
      WrapsToNothing(len, d.sectorSize);
    }
  }

  method ReadLoop(d: Drive, h: TempHeap, lba: Word, buffer: array<Byte>, len: Word, sectors: nat)
      returns (r: nat, ghost calls: nat)
    requires d.Valid() && len <= buffer.Length && ReadPlan(lba, len, lba, 0, sectors, 0, d.sectorSize)
    modifies d, h, buffer
    ensures d.Valid() && d.store == old(d.store) && h.live == old(h.live)
    ensures r <= len && (r < len ==> r == Span(MAX_SECTORS * calls, d.sectorSize))
    ensures Delivered(old(buffer[..]), buffer[..], d.store, Span(lba, d.sectorSize), r)
    ensures Serves(d, h) && 0 < sectors && lba + sectors <= d.totalSectors ==> r == len
    ensures sectors == 0 ==> r == 0
  {
    r, calls := 0, 0;
    var addr: Word, totalSectors: nat, ok := lba, sectors, true;
    ghost var store, buf0 := d.store, buffer[..];
    while totalSectors > 0 && ok
      invariant d.Valid() && d.store == store && h.live == old(h.live)
      invariant Reading(lba, len, sectors, addr, r, totalSectors, calls, d.sectorSize)
      invariant Delivered(buf0, buffer[..], store, Span(lba, d.sectorSize), r)
      invariant Serves(d, h) && lba + sectors <= d.totalSectors ==> ok
      decreases totalSectors, ok
    {
      ok, addr, r, totalSectors, calls := ReadTurn(d, h, lba, buffer, len, sectors, addr, r, totalSectors, calls, buf0);
    }
    ReadingEnds(lba, len, sectors, addr, r, totalSectors, calls, d.sectorSize);
  }

  /** Where the loop stands. */
  ghost predicate Reading(lba: nat, len: nat, sectors: nat, addr: nat, r: nat, totalSectors: nat, calls: nat, size: nat)
  {
    && ReadPlan(lba, len, addr, r, totalSectors, calls, size)
    && addr + totalSectors == lba + sectors && (calls == 0 ==> totalSectors == sectors && r == 0)
    && (sectors == 0 ==> calls == 0)
  }

  lemma ReadingStep(lba: nat, len: nat, sectors: nat, addr: nat, r: nat, totalSectors: nat, calls: nat, size: nat,
                    count: nat, n: nat)
    requires totalSectors > 0 && size > 0 && Reading(lba, len, sectors, addr, r, totalSectors, calls, size)
    requires count == DecodeCount(ThisCall(totalSectors))
    requires n == if r + Span(count, size) > len then len - r else Span(count, size)
    ensures 0 < count <= totalSectors && n <= Span(count, size) && r + n <= len
    ensures Span(addr, size) == Span(lba, size) + r && addr + totalSectors == lba + sectors
    ensures Reading(lba, len, sectors, addr + count, r + n, totalSectors - count, calls + 1, size)
  {
    ReadPlanStep(lba, len, addr, r, totalSectors, calls, size, count, n);
  }

  lemma ReadingEnds(lba: nat, len: nat, sectors: nat, addr: nat, r: nat, totalSectors: nat, calls: nat, size: nat)
    requires Reading(lba, len, sectors, addr, r, totalSectors, calls, size)
    ensures r <= len && (r < len ==> r == Span(MAX_SECTORS * calls, size)) && (sectors == 0 ==> r == 0)
    ensures totalSectors == 0 < sectors ==> r == len
  {
  }

  /** The body of the loop: where it stands afterwards. */
  method ReadTurn(d: Drive, h: TempHeap, ghost lba: nat, buffer: array<Byte>, len: Word, ghost sectors: nat,
                  addr0: Word, r0: nat, totalSectors0: nat, ghost calls0: nat, ghost buf0: seq<Byte>)
      returns (ok: bool, addr: Word, r: nat, totalSectors: nat, ghost calls: nat)
    requires d.Valid() && len <= buffer.Length && totalSectors0 > 0
    requires Reading(lba, len, sectors, addr0, r0, totalSectors0, calls0, d.sectorSize)
    requires Delivered(buf0, buffer[..], d.store, Span(lba, d.sectorSize), r0)
    modifies d, h, buffer
    ensures d.Valid() && d.store == old(d.store) && h.live == old(h.live)
    ensures Reading(lba, len, sectors, addr, r, totalSectors, calls, d.sectorSize)
    ensures Delivered(buf0, buffer[..], d.store, Span(lba, d.sectorSize), r)
    ensures if ok then totalSectors < totalSectors0 else totalSectors == totalSectors0
    ensures Serves(d, h) && lba + sectors <= d.totalSectors ==> ok
  {
    addr, r, totalSectors, calls := addr0, r0, totalSectors0, calls0;
    var call := ThisCall(totalSectors);
    var count := DecodeCount(call);
    var n := if r + Span(count, d.sectorSize) > len then len - r else Span(count, d.sectorSize);
    ReadingStep(lba, len, sectors, addr, r, totalSectors, calls, d.sectorSize, count, n);
    ok := DeliverChunk(d, h, addr, call, buffer, r, n, Span(lba, d.sectorSize), buf0);
    if ok {
      addr, r, totalSectors, calls := addr + count, r + n, totalSectors - count, calls + 1;
    }
  }

  /** One chunk more, seen from the whole buffer. */
  method DeliverChunk(d: Drive, h: TempHeap, addr: Word, call: Byte, buffer: array<Byte>, r: nat, n: nat,
                      ghost start: nat, ghost buf0: seq<Byte>) returns (ok: bool)
    requires d.Valid() && r + n <= buffer.Length && n <= Span(DecodeCount(call), d.sectorSize)
    requires Span(addr, d.sectorSize) == start + r && Delivered(buf0, buffer[..], d.store, start, r)
    modifies d, h, buffer
    ensures d.Valid() && d.store == old(d.store) && h.live == old(h.live)
    ensures Delivered(buf0, buffer[..], d.store, start, if ok then r + n else r)
    ensures ok ==> addr + DecodeCount(call) <= LBA28
    ensures Serves(d, h) && addr + DecodeCount(call) <= d.totalSectors ==> ok
  {
    ok := ReadChunk(d, h, addr, call, buffer, r, n);
    if ok {
      DeliverMore(buf0, old(buffer[..]), buffer[..], d.store, start, r, n);
    }
  }

  lemma FirstPlan(lba: nat, len: Word, totalSectors: nat, size: nat)
    requires 0 < size && 256 * size < 0x1_0000_0000
    requires totalSectors == (len + size - 1) % 0x1_0000_0000 / size || totalSectors == 0
    ensures ReadPlan(lba, len, lba, 0, totalSectors, 0, size)
  {
    if len + size - 1 < 0x1_0000_0000 {
      CeilSpan(len, size);
    } else {
      assert (len + size - 1) % 0x1_0000_0000 == len + size - 1 - 0x1_0000_0000 < size;
    }
  }

  // ---- Writing ----------------------------------------------------------

  lemma SlicePrefix(b: seq<Byte>, at: nat, n: nat, q: nat)
    requires q <= n && at + n <= |b|
    ensures b[at..at + n][..q] == b[at..at + q]
  {
  }

  /** One turn of the write loop: whole sectors from buffer[at..]. The stores
      reach q bytes; q falls short only when the command fails on the way. */
  method WriteChunk(d: Drive, h: TempHeap, lba: Word, sectors: Byte, buffer: array<Byte>, at: nat)
      returns (ok: bool, ghost q: nat)
    requires d.Valid() && at + Span(DecodeCount(sectors), d.sectorSize) <= buffer.Length
    modifies d, h
    ensures d.Valid() && h.live == old(h.live) && q <= Span(DecodeCount(sectors), d.sectorSize)
    ensures d.store == Overlay(old(d.store), Span(lba, d.sectorSize), buffer[at..at + q])
    ensures h.clock == old(h.clock) + 1 && (!ok ==> q < Span(DecodeCount(sectors), d.sectorSize))
    ensures ok ==> q == Span(DecodeCount(sectors), d.sectorSize) && lba + DecodeCount(sectors) <= d.totalSectors
                   && Span(lba, d.sectorSize) + q <= |d.store|
    ensures Serves(d, h) && lba + DecodeCount(sectors) <= d.totalSectors ==> ok
  {
    q := 0;
    OverlayNothing(d.store, Span(lba, d.sectorSize));
    assert buffer[at..at + 0] == [];
    ok := h.Alloc();
    SpanAdd(DecodeCount(sectors) - 1, 1, d.sectorSize);
    assert Span(1, d.sectorSize) == d.sectorSize;
    if ok {
      var n := Span(DecodeCount(sectors), d.sectorSize);
      var temp := new Byte[n](_ => 0);
      Memcpy(temp, 0, buffer, at, n);
      ghost var t := temp[..];
      assert t == buffer[..][at..at + n];
      ok, q := WriteSectors(d, lba, sectors, temp);
      assert temp[..q] == t[..q];
      SlicePrefix(buffer[..], at, n, q);
      assert buffer[at..at + q] == buffer[..][at..at + q];
      h.Free();
    }
  }

  /** The last, partial sector: read, patch, write back. The temporary buffer is
      not freed when either command fails. */
  method WriteTail(d: Drive, h: TempHeap, lba: Word, buffer: array<Byte>, at: nat, rem: nat) returns (ok: bool)
    requires d.Valid() && at + rem <= buffer.Length && 0 < rem < d.sectorSize
    modifies d, h
    ensures d.Valid() && (ok ==> lba < d.totalSectors && Span(lba, d.sectorSize) + rem <= |d.store|)
    ensures d.store == if ok then Overlay(old(d.store), Span(lba, d.sectorSize), buffer[at..at + rem]) else old(d.store)
    ensures h.clock == old(h.clock) + 1 && (ok ==> h.grants(old(h.clock)))
    ensures h.live == old(h.live) + if !ok && h.grants(old(h.clock)) then 1 else 0
    ensures Serves(d, h) && lba < d.totalSectors ==> ok
  {
    ok := h.Alloc();
    if ok {
      var temp := new Byte[d.sectorSize](_ => 0);
      ok := PatchSector(d, lba, temp, buffer, at, rem);
      if ok {
        h.Free();
        d.FlushCache();
      }
    }
  }

  method PatchSector(d: Drive, lba: Word, temp: array<Byte>, buffer: array<Byte>, at: nat, rem: nat) returns (ok: bool)
    requires d.Valid() && at + rem <= buffer.Length && 0 < rem < d.sectorSize && temp.Length == d.sectorSize
    requires temp != buffer
    modifies d, temp
    ensures d.Valid() && (ok ==> lba < d.totalSectors && Span(lba, d.sectorSize) + rem <= |d.store|)
    ensures d.store == if ok then Overlay(old(d.store), Span(lba, d.sectorSize), buffer[at..at + rem]) else old(d.store)
    ensures d.Healthy() && Accepts(d, lba, 1) ==> ok
  {
    ghost var a, data := Span(lba, d.sectorSize), buffer[at..at + rem];
    ok := PrepareSector(d, lba, temp, buffer, at, rem);
    if ok {
      assert Span(1, d.sectorSize) == d.sectorSize;
      ghost var q;
      ok, q := WriteSectors(d, lba, 1, temp);
      if ok {
        assert temp[..q] == temp[..];
        Patch(old(d.store), a, d.sectorSize, data);
      } else {
        assert temp[..q] == [];
        OverlayNothing(old(d.store), a);
      }
    }
  }

  /** The read and the copy: temp is the sector with its first bytes replaced. */
  method PrepareSector(d: Drive, lba: Word, temp: array<Byte>, buffer: array<Byte>, at: nat, rem: nat)
      returns (ok: bool)
    requires d.Valid() && at + rem <= buffer.Length && 0 < rem < d.sectorSize && temp.Length == d.sectorSize
    requires temp != buffer
    modifies d, temp
    ensures d.Valid() && d.store == old(d.store) && (ok ==> Span(lba, d.sectorSize) + d.sectorSize <= |d.store|)
    ensures ok ==> var a := Span(lba, d.sectorSize);
                   temp[..] == buffer[at..at + rem] + d.store[a..a + d.sectorSize][rem..]
    ensures d.Healthy() && Accepts(d, lba, 1) ==> ok
  {
    assert Span(1, d.sectorSize) == d.sectorSize;
    ok := ReadSectors(d, lba, 1, temp);
    if ok {
      assert temp[..0] == [] && temp[rem..] == temp[..][rem..];
      Memcpy(temp, 0, buffer, at, rem);
    }
  }

  /** Writing a sector back with its first bytes replaced replaces just them. */
  lemma Patch(s: seq<Byte>, a: nat, size: nat, x: seq<Byte>)
    requires |x| <= size && a + size <= |s|
    ensures Overlay(s, a, x + s[a..a + size][|x|..]) == Overlay(s, a, x)
  {
  }

  /** Storing the next bytes of the buffer after the first w. */
  lemma StoreMore(s: seq<Byte>, start: nat, buf: seq<Byte>, w: nat, q: nat)
    requires w + q <= |buf|
    ensures Overlay(Overlay(s, start, buf[..w]), start + w, buf[w..w + q]) == Overlay(s, start, buf[..w + q])
  {
    OverlayTwice(s, start, buf[..w], buf[w..w + q]);
    assert buf[..w] + buf[w..w + q] == buf[..w + q];
  }

  /** Where a write stands: w bytes stored in whole sectors, sector addr next. */
  ghost predicate WritePlan(lba: nat, body: nat, addr: nat, w: nat, totalSectors: nat, size: nat)
  {
    w + Span(totalSectors, size) == body && Span(addr, size) == Span(lba, size) + w
  }

  lemma WritePlanStep(lba: nat, body: nat, addr: nat, w: nat, totalSectors: nat, size: nat, count: nat, n: nat)
    requires count <= totalSectors && WritePlan(lba, body, addr, w, totalSectors, size) && n == Span(count, size)
    ensures w + n <= body && WritePlan(lba, body, addr + count, w + n, totalSectors - count, size)
  {
    SpanAdd(totalSectors - count, count, size);
    SpanAdd(addr, count, size);
  }

  /** A command takes all the sectors left or 256 of them. */
  lemma CallTakes(totalSectors: nat, size: nat, count: nat)
    requires totalSectors > 0 && count == DecodeCount(ThisCall(totalSectors))
    ensures 0 < count <= totalSectors && (count == MAX_SECTORS || count == totalSectors)
    ensures size <= Span(count, size) <= Span(MAX_SECTORS, size)
  {
    SpanGrows(1, count, size);
    SpanGrows(count, MAX_SECTORS, size);
    assert Span(1, size) == Span(0, size) + size;
  }

  /** The bytes of the next full command. */
  lemma NextCall(calls: nat, size: nat)
    ensures Span(MAX_SECTORS * (calls + 1), size) == Span(MAX_SECTORS * calls, size) + Span(MAX_SECTORS, size)
  {
    SpanAdd(MAX_SECTORS * calls, MAX_SECTORS, size);
  }

  /** Stopped in the command after `calls` full ones: their bytes are the result,
      and less than one command's bytes are stored beyond it. */
  ghost predicate Stopped(w: nat, q: nat, calls: nat, size: nat)
  {
    w == Span(MAX_SECTORS * calls, size) && w <= q < w + Span(MAX_SECTORS, size)
  }

  /** Where the loop stands after `calls` commands that succeeded: all of w is
      stored, in full commands as long as sectors are left. */
  ghost predicate Advancing(lba: nat, sectors: nat, body: nat, addr: nat, w: nat, totalSectors: nat, calls: nat,
                            size: nat, total: nat)
  {
    && WritePlan(lba, body, addr, w, totalSectors, size) && addr + totalSectors == lba + sectors
    && (totalSectors > 0 ==> w == Span(MAX_SECTORS * calls, size))
    && (totalSectors < sectors ==> addr <= total)
  }

  lemma AdvancingStep(lba: nat, sectors: nat, body: nat, addr: nat, w: nat, totalSectors: nat, calls: nat, size: nat,
                      total: nat, count: nat, n: nat)
    requires totalSectors > 0 && Advancing(lba, sectors, body, addr, w, totalSectors, calls, size, total)
    requires count == DecodeCount(ThisCall(totalSectors)) && n == Span(count, size)
    ensures 0 < count <= totalSectors && w + n <= body && size <= n <= Span(MAX_SECTORS, size)
    ensures addr + count <= total ==>
              Advancing(lba, sectors, body, addr + count, w + n, totalSectors - count, calls + 1, size, total)
  {
    CallTakes(totalSectors, size, count);
    WritePlanStep(lba, body, addr, w, totalSectors, size, count, n);
    NextCall(calls, size);
  }

  /** The body of the loop: where it stands afterwards. */
  method WriteTurn(d: Drive, h: TempHeap, ghost lba: nat, buffer: array<Byte>, ghost body: nat, ghost sectors: nat,
                   addr0: Word, w0: nat, totalSectors0: nat, ghost calls: nat, ghost store0: seq<Byte>)
      returns (ok: bool, addr: Word, w: nat, totalSectors: nat, ghost q: nat)
    requires d.Valid() && body <= buffer.Length && totalSectors0 > 0 && |store0| == |d.store|
    requires Advancing(lba, sectors, body, addr0, w0, totalSectors0, calls, d.sectorSize, d.totalSectors)
    requires d.store == Overlay(store0, Span(lba, d.sectorSize), buffer[..w0])
    modifies d, h
    ensures d.Valid() && h.live == old(h.live) && h.clock == old(h.clock) + 1 && w <= q <= body
    ensures d.store == Overlay(store0, Span(lba, d.sectorSize), buffer[..q])
    ensures ok ==> q == w && totalSectors < totalSectors0 && Span(lba, d.sectorSize) + w <= |d.store|
    ensures ok ==> Advancing(lba, sectors, body, addr, w, totalSectors, calls + 1, d.sectorSize, d.totalSectors)
    ensures !ok ==> w == w0 < body && totalSectors == totalSectors0 && Stopped(w, q, calls, d.sectorSize)
    ensures Serves(d, h) && lba + sectors <= d.totalSectors ==> ok
  {
    addr, w, totalSectors := addr0, w0, totalSectors0;
    var call := ThisCall(totalSectors);
    var count := DecodeCount(call);
    var n := Span(count, d.sectorSize);
    AdvancingStep(lba, sectors, body, addr, w, totalSectors, calls, d.sectorSize, d.totalSectors, count, n);
    ok, q := StoreChunk(d, h, lba, addr, call, buffer, w, store0);
    if ok {
      addr, w, totalSectors := addr + count, w + n, totalSectors - count;
    }
  }

  /** One chunk more, seen from the whole disk. */
  method StoreChunk(d: Drive, h: TempHeap, ghost lba: nat, addr: Word, call: Byte, buffer: array<Byte>, w: nat,
                    ghost store0: seq<Byte>) returns (ok: bool, ghost q: nat)
    requires d.Valid() && w + Span(DecodeCount(call), d.sectorSize) <= buffer.Length
    requires Span(addr, d.sectorSize) == Span(lba, d.sectorSize) + w
    requires d.store == Overlay(store0, Span(lba, d.sectorSize), buffer[..w])
    modifies d, h
    ensures d.Valid() && h.live == old(h.live) && h.clock == old(h.clock) + 1
    ensures w <= q <= w + Span(DecodeCount(call), d.sectorSize)
    ensures d.store == Overlay(store0, Span(lba, d.sectorSize), buffer[..q])
    ensures ok ==> q == w + Span(DecodeCount(call), d.sectorSize) && addr + DecodeCount(call) <= d.totalSectors
    ensures ok ==> Span(lba, d.sectorSize) + q <= |d.store|
    ensures !ok ==> q < w + Span(DecodeCount(call), d.sectorSize)
    ensures Serves(d, h) && addr + DecodeCount(call) <= d.totalSectors ==> ok
  {
    ghost var stored;
    ok, stored := WriteChunk(d, h, addr, call, buffer, w);
    q := w + stored;
    StoreMore(store0, Span(lba, d.sectorSize), buffer[..], w, stored);
    assert buffer[..][w..q] == buffer[w..q] && buffer[..][..w] == buffer[..w] && buffer[..][..q] == buffer[..q];
  }

  /** The loop over whole sectors. */
  method WriteLoop(d: Drive, h: TempHeap, lba: Word, buffer: array<Byte>, body: nat, sectors: nat)
      returns (ok: bool, addr: Word, w: nat, ghost q: nat)
    requires d.Valid() && body <= buffer.Length && body == Span(sectors, d.sectorSize)
    modifies d, h
    ensures d.Valid() && h.live == old(h.live) && w <= q <= body && (ok ==> w == body) && (!ok ==> w < body)
    ensures d.store == Overlay(old(d.store), Span(lba, d.sectorSize), buffer[..q])
    ensures w > 0 ==> Span(lba, d.sectorSize) + w <= |d.store|
    ensures ok ==> q == w && addr == lba + sectors && Span(addr, d.sectorSize) == Span(lba, d.sectorSize) + w
    ensures ok && 0 < sectors ==> lba + sectors <= d.totalSectors
    ensures !ok ==> old(h.clock) < h.clock && Stopped(w, q, h.clock - old(h.clock) - 1, d.sectorSize)
    ensures Serves(d, h) && lba + sectors <= d.totalSectors ==> ok
  {
    ok, addr, w, q := true, lba, 0, 0;
    var totalSectors: nat := sectors;
    ghost var store, clock := d.store, h.clock;
    OverlayNothing(store, Span(lba, d.sectorSize));
    assert buffer[..0] == [];
    ghost var calls := 0;
    while totalSectors > 0 && ok
      invariant d.Valid() && h.live == old(h.live) && w <= q <= body && (!ok ==> w < body)
      invariant d.store == Overlay(store, Span(lba, d.sectorSize), buffer[..q])
      invariant w > 0 ==> Span(lba, d.sectorSize) + w <= |d.store|
      invariant 0 <= calls && h.clock == clock + calls + if ok then 0 else 1
      invariant ok ==> q == w
      invariant ok ==> Advancing(lba, sectors, body, addr, w, totalSectors, calls, d.sectorSize, d.totalSectors)
      invariant !ok ==> Stopped(w, q, calls, d.sectorSize)
      invariant Serves(d, h) && lba + sectors <= d.totalSectors ==> ok
      decreases totalSectors, ok
    {
      ok, addr, w, totalSectors, q := WriteTurn(d, h, lba, buffer, body, sectors, addr, w, totalSectors, calls, store);
      calls := if ok then calls + 1 else calls;
    }
  }

  /** The whole sectors fit, or there are none, and a partial one lies beyond the
      end of the disk. */
  predicate TailOffDisk(lba: nat, sectors: nat, rem: nat, total: nat) {
    rem != 0 && (sectors == 0 || lba + sectors <= total) && total <= lba + sectors
  }

  /** The bytes of the last, partial sector. */
  function Rest(d: Drive, len: nat): nat
    requires d.sectorSize > 0
  {
    len % d.sectorSize
  }

  predicate LosesBuffer(d: Drive, lba: nat, len: nat)
    requires d.sectorSize > 0
  {
    TailOffDisk(lba, len / d.sectorSize, Rest(d, len), d.totalSectors)
  }

  /** `disk_write`. The disk ends up as before with the first q bytes of the
      buffer laid over it from the sector on; q is the whole length exactly when
      the result is. A short result is what the commands before the failing one
      stored, one for each `kmalloc` but the last, or all the whole sectors; less
      than one command's bytes are stored beyond it. One temporary buffer
      is lost exactly when a partial last sector could not be patched; where
      nothing but the range stands in the way, exactly when that sector lies off
      the disk. */
  method DiskWrite(d: Drive, h: TempHeap, lba: Word, buffer: array<Byte>, len: Word) returns (r: nat, ghost q: nat)
    requires d.Valid() && len <= buffer.Length
    modifies d, h
    ensures d.Valid() && r <= q <= len && (r == len ==> q == len)
    ensures d.store == Overlay(old(d.store), Span(lba, d.sectorSize), buffer[..q])
    ensures r > 0 ==> Span(lba, d.sectorSize) + r <= |d.store|
    ensures r < len ==> r <= len - Rest(d, len) && q < r + Span(MAX_SECTORS, d.sectorSize)
    ensures !d.valid ==> r == q == 0
    ensures d.valid && r < len - Rest(d, len) ==> old(h.clock) < h.clock
                                                  && r == Span(MAX_SECTORS * (h.clock - old(h.clock) - 1), d.sectorSize)
    ensures r == len - Rest(d, len) < len && d.valid ==> q == r
    ensures h.live == old(h.live) +
                      if r < len && r == len - Rest(d, len) && d.valid && h.clock > 0 && h.grants(h.clock - 1)
                      then 1 else 0
    ensures Serves(d, h) && lba + Sectors(len, d.sectorSize) <= d.totalSectors ==> r == len
    ensures Rest(d, len) == 0 ==> h.live == old(h.live)
    ensures Serves(d, h) ==> h.live == old(h.live) + if LosesBuffer(d, lba, len) then 1 else 0
  {
    DivSpan(len, d.sectorSize);
    CommandIsLong(d.sectorSize);
    if d.valid {
      r, q := WriteBoth(d, h, lba, buffer, len, len / d.sectorSize, Rest(d, len));
    } else {
      r, q := 0, 0;
      OverlayNothing(d.store, Span(lba, d.sectorSize));
      assert buffer[..0] == [];
    }
  }

  lemma CommandIsLong(size: nat)
    requires size > 0
    ensures Span(MAX_SECTORS, size) >= size
  {
    SpanGrows(1, MAX_SECTORS, size);
    assert Span(1, size) == size;
  }

  /** The least such write: part of one sector, just past the end. */
  method WritePastTheEnd(d: Drive, h: TempHeap, buffer: array<Byte>, len: Word) returns (r: nat)
    requires d.Valid() && Serves(d, h) && 0 < len < d.sectorSize && len <= buffer.Length
    modifies d, h
    ensures r == 0 && d.store == old(d.store) && h.live == old(h.live) + 1
  {
    ghost var q;
    PartLost(d, len);
    r, q := DiskWrite(d, h, d.totalSectors, buffer, len);
    OverlayPast(old(d.store), buffer[..q]);
  }

  lemma PartLost(d: Drive, len: nat)
    requires 0 < len < d.sectorSize
    ensures LosesBuffer(d, d.totalSectors, len)
  {
    assert len / d.sectorSize == 0 && Rest(d, len) == len;
  }

  lemma OverlayPast(s: seq<Byte>, x: seq<Byte>)
    ensures Overlay(s, |s|, x) == s
  {
  }

  /** Whole sectors first, then the partial one. */
  method WriteBoth(d: Drive, h: TempHeap, lba: Word, buffer: array<Byte>, len: Word, sectors: nat, rem: nat)
      returns (r: nat, ghost q: nat)
    requires d.Valid() && len <= buffer.Length && Span(sectors, d.sectorSize) + rem == len && rem < d.sectorSize
    modifies d, h
    ensures d.Valid() && r <= q <= len && (r == len ==> q == len)
    ensures d.store == Overlay(old(d.store), Span(lba, d.sectorSize), buffer[..q])
    ensures r > 0 ==> Span(lba, d.sectorSize) + r <= |d.store|
    ensures r < len ==> r <= len - rem && q < r + Span(MAX_SECTORS, d.sectorSize)
    ensures r < len - rem ==> old(h.clock) < h.clock && Stopped(r, q, h.clock - old(h.clock) - 1, d.sectorSize)
    ensures r == len - rem < len ==> q == r
    ensures h.live == old(h.live) + if r < len && r == len - rem && h.clock > 0 && h.grants(h.clock - 1) then 1 else 0
    ensures Serves(d, h) && lba + sectors + (if rem == 0 then 0 else 1) <= d.totalSectors ==> r == len
    ensures rem == 0 ==> h.live == old(h.live)
    ensures Serves(d, h) ==>
              h.live == old(h.live) + if TailOffDisk(lba, sectors, rem, d.totalSectors) then 1 else 0
  {
    var ok, addr;
    CommandIsLong(d.sectorSize);
    ok, addr, r, q := WriteLoop(d, h, lba, buffer, len - rem, sectors);
    if ok && rem > 0 {
      ok := StoreTail(d, h, lba, addr, buffer, r, rem, old(d.store));
      if ok {
        r, q := len, len;
      }
    }
  }

  /** The partial sector, seen from the whole disk. */
  method StoreTail(d: Drive, h: TempHeap, ghost lba: nat, addr: Word, buffer: array<Byte>, w: nat, rem: nat,
                   ghost store0: seq<Byte>) returns (ok: bool)
    requires d.Valid() && w + rem <= buffer.Length && 0 < rem < d.sectorSize
    requires Span(addr, d.sectorSize) == Span(lba, d.sectorSize) + w
    requires d.store == Overlay(store0, Span(lba, d.sectorSize), buffer[..w])
    modifies d, h
    ensures d.Valid() && (ok ==> addr < d.totalSectors && Span(lba, d.sectorSize) + w + rem <= |d.store|)
    ensures d.store == Overlay(store0, Span(lba, d.sectorSize), buffer[..if ok then w + rem else w])
    ensures h.clock == old(h.clock) + 1 && (ok ==> h.grants(old(h.clock)))
    ensures h.live == old(h.live) + if !ok && h.grants(old(h.clock)) then 1 else 0
    ensures Serves(d, h) && addr < d.totalSectors ==> ok
  {
    ok := WriteTail(d, h, addr, buffer, w, rem);
    StoreMore(store0, Span(lba, d.sectorSize), buffer[..], w, rem);
    assert buffer[..][w..w + rem] == buffer[w..w + rem];
    assert buffer[..][..w] == buffer[..w] && buffer[..][..w + rem] == buffer[..w + rem];
  }

  // ---- Round trips ------------------------------------------------------

  /** A successful read after a successful write of the same range returns what
      was written. */
  method WriteThenRead(d: Drive, h: TempHeap, lba: Word, src: array<Byte>, dst: array<Byte>, len: Word)
      returns (w: nat, r: nat)
    requires d.Valid() && len <= src.Length && len <= dst.Length && src != dst
    modifies d, h, dst
    ensures w == len && r == len ==> dst[..len] == src[..len]
    ensures Serves(d, h) && len + d.sectorSize <= 0x1_0000_0000 && lba + Sectors(len, d.sectorSize) <= d.totalSectors
            ==> w == r == len
  {
    ghost var q, calls;
    w, q := DiskWrite(d, h, lba, src, len);
    ghost var data := src[..q];
    r, calls := DiskRead(d, h, lba, dst, len);
    if w == len && len > 0 {
      ReadBack(old(d.store), [Write(Span(lba, d.sectorSize), data)], 0);
    }
  }

  /** Stores in the order they happened. */
  datatype Write = Write(at: nat, data: seq<Byte>) {
    ghost predicate Covers(i: int) { at <= i < at + |data| }

    /** No byte is stored by both. */
    ghost predicate ClearOf(w: Write) { forall i :: Covers(i) ==> !w.Covers(i) }
  }

  /** The disk after a sequence of writes. */
  function Replay(s: seq<Byte>, log: seq<Write>): (r: seq<Byte>)
    ensures |r| == |s|
  {
    if log == [] then s
    else
      var last := log[|log| - 1];
      Overlay(Replay(s, log[..|log| - 1]), last.at, last.data)
  }

  lemma OverlayAt(s: seq<Byte>, w: Write, i: nat)
    requires i < |s|
    ensures Overlay(s, w.at, w.data)[i] == if w.Covers(i) then w.data[i - w.at] else s[i]
  {
  }

  /** Each byte is that of the last write covering it, or the original one. */
  lemma {:induction false} LastWriteWins(s: seq<Byte>, log: seq<Write>, i: nat, k: int)
    requires i < |s| && -1 <= k < |log|
    requires k >= 0 ==> log[k].Covers(i)
    requires forall j :: k < j < |log| ==> !log[j].Covers(i)
    ensures Replay(s, log)[i] == if k >= 0 then log[k].data[i - log[k].at] else s[i]
  {
    if log != [] {
      var prior, last := log[..|log| - 1], log[|log| - 1];
      OverlayAt(Replay(s, prior), last, i);
      if k < |prior| {
        assert !last.Covers(i) && forall j :: 0 <= j < |prior| ==> prior[j] == log[j];
        LastWriteWins(s, prior, i, k);
      }
    }
  }

  /** Across overlapping writes, a range reads back as written as long as no
      later write reaches into it. */
  lemma ReadBack(s: seq<Byte>, log: seq<Write>, k: nat)
    requires k < |log| && log[k].at + |log[k].data| <= |s|
    requires forall j :: k < j < |log| ==> log[k].ClearOf(log[j])
    ensures Replay(s, log)[log[k].at..log[k].at + |log[k].data|] == log[k].data
  {
    var w, r := log[k], Replay(s, log);
    forall i | 0 <= i < |w.data| ensures r[w.at + i] == w.data[i] {
      assert w.Covers(w.at + i);
      assert forall j :: k < j < |log| ==> w.ClearOf(log[j]) && !log[j].Covers(w.at + i);
      LastWriteWins(s, log, w.at + i, k);
    }
    assert r[w.at..w.at + |w.data|] == w.data;
  }

  // ---- Many writes ------------------------------------------------------

  datatype Request = Request(lba: Word, buffer: array<Byte>, len: Word)

  /** What one write left in the log: a prefix of its buffer, all of it when the
      result was the whole length. */
  ghost predicate Logged(q: Request, result: nat, w: Write, size: nat, room: nat)
    reads q.buffer
  {
    && q.len <= q.buffer.Length && |w.data| <= q.len && w == Write(Span(q.lba, size), q.buffer[..|w.data|])
    && result <= |w.data| && (result == q.len ==> |w.data| == q.len)
    && (result > 0 ==> w.at + result <= room)
  }

  /** A request whose range is on the disk is written whole. */
  ghost predicate Served(q: Request, result: nat, size: nat, total: nat)
    requires size > 0
  {
    q.lba + Sectors(q.len, size) <= total ==> result == q.len
  }

  /** One call and its entry. */
  method WriteOne(d: Drive, h: TempHeap, q: Request) returns (r: nat, ghost w: Write)
    requires d.Valid() && q.len <= q.buffer.Length
    modifies d, h
    ensures d.Valid() && d.store == Overlay(old(d.store), w.at, w.data)
    ensures Logged(q, r, w, d.sectorSize, |d.store|) && (Serves(d, h) ==> Served(q, r, d.sectorSize, d.totalSectors))
  {
    ghost var n;
    r, n := DiskWrite(d, h, q.lba, q.buffer, q.len);
    w := Write(Span(q.lba, d.sectorSize), q.buffer[..n]);
  }

  lemma ReplayOne(s: seq<Byte>, log: seq<Write>, w: Write)
    ensures Replay(s, log + [w]) == Overlay(Replay(s, log), w.at, w.data)
  {
    assert (log + [w])[..|log|] == log;
  }

  /** Any number of `disk_write` calls: the disk is the replay of their log. */
  method WriteAll(d: Drive, h: TempHeap, reqs: seq<Request>) returns (results: seq<nat>, ghost log: seq<Write>)
    requires d.Valid() && forall k :: 0 <= k < |reqs| ==> reqs[k].len <= reqs[k].buffer.Length
    modifies d, h
    ensures d.Valid() && |results| == |log| == |reqs| && d.store == Replay(old(d.store), log)
    ensures forall k :: 0 <= k < |reqs| ==> Logged(reqs[k], results[k], log[k], d.sectorSize, |d.store|)
    ensures Serves(d, h) ==> forall k :: 0 <= k < |reqs| ==> Served(reqs[k], results[k], d.sectorSize, d.totalSectors)
  {
    results, log := [], [];
    ghost var store := d.store;
    for i := 0 to |reqs|
      invariant d.Valid() && |results| == |log| == i && d.store == Replay(store, log)
      invariant forall k :: 0 <= k < i ==> Logged(reqs[k], results[k], log[k], d.sectorSize, |d.store|)
      invariant Serves(d, h) ==> forall k :: 0 <= k < i ==> Served(reqs[k], results[k], d.sectorSize, d.totalSectors)
    {
      ghost var w;
      var r;
      r, w := WriteOne(d, h, reqs[i]);
      ReplayOne(store, log, w);
      results, log := results + [r], log + [w];
    }
  }

  /** The byte ranges asked for do not meet. */
  ghost predicate RequestsApart(p: Request, q: Request, size: nat) {
    Span(p.lba, size) + p.len <= Span(q.lba, size) || Span(q.lba, size) + q.len <= Span(p.lba, size)
  }

  /** After any number of writes, overlapping as they may, a range that no later
      request meets reads back as written. */
  method WriteAllThenRead(d: Drive, h: TempHeap, reqs: seq<Request>, k: nat, dst: array<Byte>)
      returns (results: seq<nat>, r: nat)
    requires d.Valid() && k < |reqs| && reqs[k].len <= dst.Length
    requires forall j :: 0 <= j < |reqs| ==> reqs[j].len <= reqs[j].buffer.Length
    requires forall j :: k < j < |reqs| ==> RequestsApart(reqs[k], reqs[j], d.sectorSize)
    modifies d, h, dst
    ensures |results| == |reqs| && r <= reqs[k].len
    ensures results[k] == r == reqs[k].len ==> dst[..r] == old(reqs[k].buffer[..r])
    ensures Serves(d, h) && reqs[k].len + d.sectorSize <= 0x1_0000_0000 ==>
              (reqs[k].lba + Sectors(reqs[k].len, d.sectorSize) <= d.totalSectors ==> results[k] == r == reqs[k].len)
  {
    ghost var log, calls;
    results, log := WriteAll(d, h, reqs);
    assert Serves(d, h) ==> Served(reqs[k], results[k], d.sectorSize, d.totalSectors);
    assert Logged(reqs[k], results[k], log[k], d.sectorSize, |d.store|);
    if 0 < results[k] == reqs[k].len {
      forall j | k < j < |log| ensures log[k].ClearOf(log[j]) {
        assert Logged(reqs[j], results[j], log[j], d.sectorSize, |d.store|);
        assert RequestsApart(reqs[k], reqs[j], d.sectorSize);
      }
      ReadBack(old(d.store), log, k);
    }
    r, calls := DiskRead(d, h, reqs[k].lba, dst, reqs[k].len);
  }
}

/** One ATA drive in LBA28 PIO mode and the two sector commands of
    drivers/disk.c. The drive follows READ SECTOR(S) and WRITE SECTOR(S) of
    section 8 of ATA/ATAPI-6: it decodes the task-file registers, and then moves
    one sector at a time through the 16-bit data port. */
module AtaDrive {
  import opened Bytes

  const MASTER_DRIVE: Byte := 0xE0
  const SLAVE_DRIVE: Byte := 0xF0
  const MAX_SECTORS: nat := 256
  const LBA28: nat := 0x1000_0000

  // ---- LBA registers ----------------------------------------------------

  function LbaLow(lba: Word): Byte { lba % 0x100 }
  function LbaMid(lba: Word): Byte { lba / 0x100 % 0x100 }
  function LbaHigh(lba: Word): Byte { lba / 0x1_0000 % 0x100 }
  function LbaHighest(lba: Word): Byte { lba / 0x100_0000 % 0x10 }

  /** What the drive reads back from the registers. */
  function DecodeLba(select: Byte, high: Byte, mid: Byte, low: Byte): nat {
    (low as int) + 0x100 * (mid as int) + 0x1_0000 * (high as int) + 0x100_0000 * (select % 0x10)
  }

  /** A count register of 0 asks for 256 sectors. */
  function DecodeCount(count: Byte): nat { if count == 0 then MAX_SECTORS else count }

  /** The four register bytes carry an address exactly when it has 28 bits. */
  lemma LbaRegisters(drive: Byte, lba: Word)
    requires drive == MASTER_DRIVE || drive == SLAVE_DRIVE
    ensures DecodeLba(drive + LbaHighest(lba), LbaHigh(lba), LbaMid(lba), LbaLow(lba)) == lba <==> lba < 0x1000_0000
  {
    var x := lba / 0x100;
    var y := x / 0x100;
    var z := y / 0x100;
    ShiftTwice(lba);
    ShiftTwice(x);
    assert lba == lba % 0x100 + 0x100 * (x % 0x100) + 0x1_0000 * (y % 0x100) + 0x100_0000 * z;
    assert (drive + LbaHighest(lba)) % 0x10 == z % 0x10;
    assert z < 0x100;
  }

  lemma ShiftTwice(n: nat)
    ensures n / 0x100 / 0x100 == n / 0x1_0000 && n / 0x1_0000 / 0x100 == n / 0x100_0000
  {
  }

  // ---- Stored bytes -----------------------------------------------------

  /** The length of n sectors. */
  function Span(n: nat, size: nat): nat { if n == 0 then 0 else Span(n - 1, size) + size }

  lemma {:induction false} SpanIsProduct(n: nat, size: nat)
    ensures Span(n, size) == n * size
  {
    if n > 0 {
      SpanIsProduct(n - 1, size);
      assert n * size == (n - 1) * size + size;
    }
  }

  lemma {:induction false} SpanAdd(a: nat, b: nat, size: nat)
    ensures Span(a + b, size) == Span(a, size) + Span(b, size)
  {
    if b > 0 {
      SpanAdd(a, b - 1, size);
    }
  }


  /** s with the bytes d laid over it from position a. */
  function Overlay(s: seq<Byte>, a: nat, d: seq<Byte>): (r: seq<Byte>)
    ensures |r| == |s|
  {
    seq(|s|, i requires 0 <= i < |s| => if a <= i < a + |d| then d[i - a] else s[i])
  }

  lemma OverlayTwice(s: seq<Byte>, a: nat, d: seq<Byte>, e: seq<Byte>)
    ensures Overlay(Overlay(s, a, d), a + |d|, e) == Overlay(s, a, d + e)
  {
  }

  lemma OverlayNothing(s: seq<Byte>, a: nat)
    ensures Overlay(s, a, []) == s
  {
  }

  // ---- The drive --------------------------------------------------------

  /** What the drive expects next; `at` is the byte position of the current sector. */
  datatype Phase = Idle
                 | Reading(at: nat, left: nat, pos: nat)
                 | Writing(at: nat, left: nat, got: seq<Byte>)

  class Drive {
    const valid: bool
    const lbaSupported: bool
    const slave: bool
    const sectorSize: nat
    const totalSectors: nat
    var store: seq<Byte>
    var select: Byte
    var count: Byte
    var high: Byte
    var mid: Byte
    var low: Byte
    var phase: Phase
    /** The drive was last seen not busy, and ready for what comes next: a command
        or the words of one sector. */
    var settled: bool
    /** Whether the k-th wait for the drive succeeds. */
    const ready: nat -> bool
    var clock: nat

    ghost predicate Valid()
      reads this
    {
      && 0 < sectorSize && sectorSize % 2 == 0 && 256 * sectorSize < 0x1_0000_0000
      && totalSectors <= LBA28 && |store| == Span(totalSectors, sectorSize)
    }

    /** No wait ever fails. */
    ghost predicate Healthy() { forall k :: ready(k) }

    constructor (valid: bool, lbaSupported: bool, slave: bool, sectorSize: nat, totalSectors: nat, store: seq<Byte>,
                 ready: nat -> bool)
      requires 0 < sectorSize && sectorSize % 2 == 0 && 256 * sectorSize < 0x1_0000_0000
      requires totalSectors <= LBA28 && |store| == Span(totalSectors, sectorSize)
      ensures Valid() && this.store == store && this.totalSectors == totalSectors && this.sectorSize == sectorSize
    {
      this.valid, this.lbaSupported, this.slave := valid, lbaSupported, slave;
      this.sectorSize, this.totalSectors := sectorSize, totalSectors;
      this.store, this.ready, clock, phase := store, ready, 0, Idle;
      select, count, high, mid, low, settled := 0, 0, 0, 0, 0, false;
    }

    /** BSY clear and, during a transfer, DRQ set, before the time-out. */
    method Wait() returns (ok: bool)
      modifies this`clock, this`settled
      ensures settled == ok && (Healthy() ==> ok)
    {
      ok := ready(clock);
      settled := ok;
      clock := clock + 1;
    }

    /** The same repeated until it succeeds, which is the only way on. */
    method WaitForever()
      modifies this`settled
      ensures settled
    {
      settled := true;
    }

    /** The device/head register addresses this drive, bit 4 being the number on
        the cable, and asks for LBA addressing with bit 6. */
    predicate Addressed()
      reads this
    {
      select / 0x10 % 2 == (if slave then 1 else 0) && select / 0x40 % 2 == 1
    }

    /** A read or write command: the drive decodes its registers, if it is the one
        addressed. The other drive's transfer is not this one's. */
    method Command(write: bool)
      requires settled
      modifies this`phase, this`settled
      ensures !settled
      ensures var at, n := Span(DecodeLba(select, high, mid, low), sectorSize), DecodeCount(count);
              phase == if !Addressed() then Idle else if write then Writing(at, n, []) else Reading(at, n, 0)
    {
      var at, n := Span(DecodeLba(select, high, mid, low), sectorSize), DecodeCount(count);
      phase := if !Addressed() then Idle else if write then Writing(at, n, []) else Reading(at, n, 0);
      settled := false;
    }

    /** One word from the data port, once the drive has its sector. */
    method In16() returns (lo: Byte, hi: Byte)
      requires settled
      requires phase.Reading? && 0 < phase.left && phase.pos + 2 <= sectorSize && phase.at + sectorSize <= |store|
      modifies this`phase, this`settled
      ensures settled == (old(phase).pos + 2 != sectorSize)
      ensures lo == store[old(phase).at + old(phase).pos] && hi == store[old(phase).at + old(phase).pos + 1]
      ensures phase == if old(phase).pos + 2 == sectorSize
                       then Reading(old(phase).at + sectorSize, old(phase).left - 1, 0)
                       else Reading(old(phase).at, old(phase).left, old(phase).pos + 2)
    {
      lo, hi := store[phase.at + phase.pos], store[phase.at + phase.pos + 1];
      if phase.pos + 2 == sectorSize {
        phase := Reading(phase.at + sectorSize, phase.left - 1, 0);
        settled := false;
      } else {
        phase := Reading(phase.at, phase.left, phase.pos + 2);
      }
    }

    /** One word to the data port; a full sector goes to the medium. */
    method Out16(lo: Byte, hi: Byte)
      requires settled
      requires phase.Writing? && 0 < phase.left && |phase.got| + 2 <= sectorSize
      modifies this`phase, this`store, this`settled
      ensures settled == (|old(phase).got| + 2 != sectorSize)
      ensures var got := old(phase).got + [lo, hi];
              if |got| == sectorSize
              then store == Overlay(old(store), old(phase).at, got)
                   && phase == Writing(old(phase).at + sectorSize, old(phase).left - 1, [])
              else store == old(store) && phase == Writing(old(phase).at, old(phase).left, got)
    {
      var got := phase.got + [lo, hi];
      if |got| == sectorSize {
        store := Overlay(store, phase.at, got);
        phase := Writing(phase.at + sectorSize, phase.left - 1, []);
        settled := false;
      } else {
        phase := Writing(phase.at, phase.left, got);
      }
    }

    /** The FLUSH CACHE command the driver sends after every sector; the stored
        bytes are already where they belong. */
    method FlushCache()
      ensures store == old(store)
    {
    }
  }

  // ---- The sector commands ----------------------------------------------

  lemma InRange(lba: nat, n: nat, total: nat, size: nat)
    requires lba + n <= total
    ensures Span(lba, size) + Span(n, size) <= Span(total, size)
  {
    SpanAdd(lba, n, size);
    SpanAdd(lba + n, total - lba - n, size);
  }

  /** The upper half of the device/head register addresses the drive that is meant. */
  lemma DriveNibble(slave: bool, drive: Byte, top: Byte)
    requires drive == (if slave then SLAVE_DRIVE else MASTER_DRIVE) && top < 0x10
    ensures drive + top < 0x100 && (drive + top) / 0x10 == if slave then 0xF else 0xE
    ensures (drive + top) / 0x10 % 2 == (if slave then 1 else 0) && (drive + top) / 0x40 % 2 == 1
  {
  }

  /** Both commands start alike: the drive, the address and the count go to the
      registers, then the command byte. The command goes to the drive meant. */
  method Issue(d: Drive, lba: Word, sectorCount: Byte, write: bool)
    requires d.Valid() && d.settled && lba < LBA28
    modifies d`select, d`count, d`high, d`mid, d`low, d`phase, d`settled
    ensures d.select / 0x10 == if d.slave then 0xF else 0xE
    ensures d.Addressed() && DecodeLba(d.select, d.high, d.mid, d.low) == lba && d.count == sectorCount
    ensures var at, n := Span(lba, d.sectorSize), if sectorCount == 0 then 256 else sectorCount as int;
            d.phase == if write then Writing(at, n, []) else Reading(at, n, 0)
  {
    var drive: Byte := if d.slave then SLAVE_DRIVE else MASTER_DRIVE;
    LbaRegisters(drive, lba);
    DriveNibble(d.slave, drive, LbaHighest(lba));
    d.select := drive + LbaHighest(lba);
    d.count := sectorCount;
    d.low := LbaLow(lba);
    d.mid := LbaMid(lba);
    d.high := LbaHigh(lba);
    d.Command(write);
  }

  /** The word loop of one sector of a read. */
  method ReadSector(d: Drive, buffer: array<Byte>, p: nat)
    requires d.Valid() && d.settled && d.phase.Reading? && 0 < d.phase.left && d.phase.pos == 0
    requires d.phase.at + d.sectorSize <= |d.store| && p + d.sectorSize <= buffer.Length
    modifies d`phase, d`settled, buffer
    ensures d.phase == Reading(old(d.phase).at + d.sectorSize, old(d.phase).left - 1, 0)
    ensures buffer[..] == old(buffer[..p]) + d.store[old(d.phase).at..old(d.phase).at + d.sectorSize]
                          + old(buffer[p + d.sectorSize..])
  {
    ghost var at, left := d.phase.at, d.phase.left;
    for j := 0 to d.sectorSize / 2
      invariant 2 * j < d.sectorSize ==> d.settled
      invariant d.phase ==
                if 2 * j == d.sectorSize then Reading(at + d.sectorSize, left - 1, 0) else Reading(at, left, 2 * j)
      invariant forall k :: 0 <= k < buffer.Length ==>
                  buffer[k] == if p <= k < p + 2 * j then d.store[at + k - p] else old(buffer[k])
    {
      var lo, hi := d.In16();
      buffer[p + 2 * j], buffer[p + 2 * j + 1] := lo, hi;
    }
  }

  /** One sector more, seen from the start of the command. */
  method FetchSector(d: Drive, buffer: array<Byte>, p: nat, ghost start: nat)
    requires d.Valid() && d.settled
    requires d.phase.Reading? && 0 < d.phase.left && d.phase.pos == 0 && d.phase.at == start + p
    requires d.phase.at + d.sectorSize <= |d.store| && p + d.sectorSize <= buffer.Length
    requires buffer[..p] == d.store[start..start + p]
    modifies d`phase, d`settled, buffer
    ensures d.phase == Reading(start + p + d.sectorSize, old(d.phase).left - 1, 0)
    ensures buffer[..p + d.sectorSize] == d.store[start..start + p + d.sectorSize]
  {
    ghost var size := d.sectorSize;
    ReadSector(d, buffer, p);
    assert buffer[..p + size] == buffer[..][..p + size];
    assert buffer[..][..p + size] == d.store[start..start + p] + d.store[start + p..start + p + size];
    assert d.store[start..start + p] + d.store[start + p..start + p + size] == d.store[start..start + p + size];
  }

  /** The sector loop of a read: any wait may fail. */
  method ReadLoop(d: Drive, count: nat, buffer: array<Byte>) returns (ok: bool)
    requires d.Valid() && buffer.Length == Span(count, d.sectorSize)
    requires d.phase.Reading? && d.phase.left == count && d.phase.pos == 0 && d.phase.at + buffer.Length <= |d.store|
    modifies d`phase, d`clock, d`settled, buffer
    ensures ok ==> buffer[..] == d.store[old(d.phase).at..old(d.phase).at + buffer.Length]
    ensures d.Healthy() ==> ok
  {
    ghost var start := d.phase.at;
    var p := 0;
    ok := true;
    for i := 0 to count
      invariant 0 <= p && p + Span(count - i, d.sectorSize) == buffer.Length
      invariant d.phase == Reading(start + p, count - i, 0)
      invariant buffer[..p] == d.store[start..start + p]
    {
      ok := d.Wait();
      if !ok {
        return;
      }
      FetchSector(d, buffer, p, start);
      p := p + d.sectorSize;
    }
    ok := true;
  }

  /** The range check of both commands. */
  predicate Accepts(d: Drive, lba: Word, sectorCount: Byte)
  {
    d.valid && d.lbaSupported && lba < d.totalSectors && DecodeCount(sectorCount) <= d.totalSectors - lba
  }

  /** In plain terms: a usable drive, and all the sectors on it. */
  lemma AcceptsExactly(d: Drive, lba: Word, sectorCount: Byte)
    ensures Accepts(d, lba, sectorCount) <==>
            d.valid && d.lbaSupported && lba + (if sectorCount == 0 then 256 else sectorCount as int) <= d.totalSectors
  {
  }

  /** `ata_read_sectors` into a buffer of exactly the sectors asked for. */
  method ReadSectors(d: Drive, lba: Word, sectorCount: Byte, buffer: array<Byte>) returns (ok: bool)
    requires d.Valid() && buffer.Length == Span(DecodeCount(sectorCount), d.sectorSize)
    modifies d, buffer
    ensures d.Valid() && d.store == old(d.store)
    ensures ok ==> Accepts(d, lba, sectorCount) && d.lbaSupported && lba + DecodeCount(sectorCount) <= d.totalSectors
    ensures ok ==> Span(lba, d.sectorSize) + buffer.Length <= |d.store|
                   && buffer[..] == d.store[Span(lba, d.sectorSize)..Span(lba, d.sectorSize) + buffer.Length]
    ensures d.Healthy() && Accepts(d, lba, sectorCount) ==> ok
  {
    ok := Accepts(d, lba, sectorCount);
    if ok {
      ok := d.Wait();
    }
    if ok {
      InRange(lba, DecodeCount(sectorCount), d.totalSectors, d.sectorSize);
      Issue(d, lba, sectorCount, false);
      ok := ReadLoop(d, DecodeCount(sectorCount), buffer);
    }
  }

  /** The word loop of one sector of a write, then the flush. */
  method WriteSector(d: Drive, buffer: array<Byte>, p: nat)
    requires d.Valid() && d.settled && p + d.sectorSize <= buffer.Length
    requires d.phase.Writing? && 0 < d.phase.left && d.phase.got == []
    modifies d`phase, d`store, d`settled
    ensures d.Valid() && d.phase == Writing(old(d.phase).at + d.sectorSize, old(d.phase).left - 1, [])
    ensures d.store == Overlay(old(d.store), old(d.phase).at, buffer[p..p + d.sectorSize])
  {
    ghost var at, left := d.phase.at, d.phase.left;
    for j := 0 to d.sectorSize / 2
      invariant 2 * j < d.sectorSize ==> d.settled && d.store == old(d.store)
      invariant 2 * j < d.sectorSize ==> d.phase == Writing(at, left, buffer[p..p + 2 * j])
      invariant 2 * j == d.sectorSize ==> d.store == Overlay(old(d.store), at, buffer[p..p + d.sectorSize])
                                          && d.phase == Writing(at + d.sectorSize, left - 1, [])
    {
      assert buffer[p..p + 2 * j] + [buffer[p + 2 * j], buffer[p + 2 * j + 1]] == buffer[p..p + 2 * (j + 1)];
      d.Out16(buffer[p + 2 * j], buffer[p + 2 * j + 1]);
    }
    d.FlushCache();
  }

  /** One sector more, seen from the start of the command. */
  method StoreSector(d: Drive, buffer: array<Byte>, p: nat, ghost start: nat, ghost store0: seq<Byte>)
    requires d.Valid() && d.settled && p + d.sectorSize <= buffer.Length
    requires d.phase.Writing? && 0 < d.phase.left && d.phase.got == []
    requires d.phase.at == start + p && d.store == Overlay(store0, start, buffer[..p])
    modifies d`phase, d`store, d`settled
    ensures d.Valid() && d.phase == Writing(start + p + d.sectorSize, old(d.phase).left - 1, [])
    ensures d.store == Overlay(store0, start, buffer[..p + d.sectorSize])
  {
    OverlayTwice(store0, start, buffer[..p], buffer[p..p + d.sectorSize]);
    assert buffer[..p] + buffer[p..p + d.sectorSize] == buffer[..p + d.sectorSize];
    WriteSector(d, buffer, p);
  }

  /** The sector loop of a write; q bytes have been stored when it ends. */
  method WriteLoop(d: Drive, count: nat, buffer: array<Byte>) returns (ok: bool, ghost q: nat)
    requires d.Valid() && buffer.Length == Span(count, d.sectorSize)
    requires d.phase.Writing? && d.phase.left == count && d.phase.got == []
    modifies d`phase, d`clock, d`store, d`settled
    ensures d.Valid() && q <= buffer.Length && (ok ==> q == buffer.Length)
    ensures !ok ==> q + d.sectorSize <= buffer.Length
    ensures d.store == Overlay(old(d.store), old(d.phase).at, buffer[..q])
    ensures d.Healthy() ==> ok
  {
    ghost var start := d.phase.at;
    var p := 0;
    q := 0;
    ok := true;
    OverlayNothing(d.store, start);
    assert buffer[..0] == [];
    for i := 0 to count
      invariant d.Valid() && 0 <= p == q && p + Span(count - i, d.sectorSize) == buffer.Length
      invariant d.phase == Writing(start + p, count - i, [])
      invariant d.store == Overlay(old(d.store), start, buffer[..p])
    {
      ok := d.Wait();
      if !ok {
        return;
      }
      StoreSector(d, buffer, p, start, old(d.store));
      p := p + d.sectorSize;
      q := p;
    }
    ok := true;
  }

  /** `ata_write_sectors`. A refused command stores nothing; one that fails at a
      sector has stored the sectors before it. */
  method WriteSectors(d: Drive, lba: Word, sectorCount: Byte, buffer: array<Byte>) returns (ok: bool, ghost q: nat)
    requires d.Valid() && buffer.Length == Span(DecodeCount(sectorCount), d.sectorSize)
    modifies d
    ensures d.Valid() && q <= buffer.Length && d.store == Overlay(old(d.store), Span(lba, d.sectorSize), buffer[..q])
    ensures ok ==> Accepts(d, lba, sectorCount) && d.lbaSupported && lba + DecodeCount(sectorCount) <= d.totalSectors
    ensures ok ==> q == buffer.Length && Span(lba, d.sectorSize) + q <= |d.store|
    ensures !ok ==> q + d.sectorSize <= buffer.Length
    ensures d.Healthy() && Accepts(d, lba, sectorCount) ==> ok
  {
    ok, q := Accepts(d, lba, sectorCount), 0;
    OverlayNothing(d.store, Span(lba, d.sectorSize));
    assert buffer[..0] == [];
    assert d.sectorSize <= buffer.Length;
    if ok {
      InRange(lba, DecodeCount(sectorCount), d.totalSectors, d.sectorSize);
      d.WaitForever();
      Issue(d, lba, sectorCount, true);
      ok, q := WriteLoop(d, DecodeCount(sectorCount), buffer);
    }
  }
}

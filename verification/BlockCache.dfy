/**
 The sector write-through cache and the byte-addressed block device on top of it
 (kernel/src/driver/ext4_x86_64.rs).

 The disk below is a sequence of 512-byte sectors.  Reads and writes of a sector may fail;
 a failed write changes nothing.
 */
module BlockCache {
  import opened Common
  import opened Pmm

  const SECTOR_SIZE: nat := 512
  const BLOCK_SIZE: nat := 4096
  const CACHE_CAPACITY: nat := 2048

  type Sector = s: seq<Byte> | |s| == SECTOR_SIZE witness seq(SECTOR_SIZE, _ => 0)

  /** The disk as one flat byte array. */
  function Flat(disk: seq<Sector>): (bytes: seq<Byte>)
    ensures |bytes| == SECTOR_SIZE * |disk|
    ensures forall i :: 0 <= i < |bytes| ==> bytes[i] == disk[i / SECTOR_SIZE][i % SECTOR_SIZE]
  {
    seq(SECTOR_SIZE * |disk|, i requires 0 <= i < SECTOR_SIZE * |disk| => disk[i / SECTOR_SIZE][i % SECTOR_SIZE])
  }

  /** A stretch within one sector, seen in the flat array. */
  lemma FlatSlice(disk: seq<Sector>, k: nat, from: nat, len: nat)
    requires k < |disk| && from + len <= SECTOR_SIZE
    ensures k * SECTOR_SIZE + from + len <= |Flat(disk)|
    ensures Flat(disk)[k * SECTOR_SIZE + from..k * SECTOR_SIZE + from + len] == disk[k][from..from + len]
  {
  }

  /** Bytes `data` written at `offset`. */
  function Splice(bytes: seq<Byte>, offset: nat, data: seq<Byte>): (r: seq<Byte>)
    requires offset + |data| <= |bytes|
    ensures |r| == |bytes|
  {
    bytes[..offset] + data + bytes[offset + |data|..]
  }

  /** Replacing a sector by itself with `data` spliced in is a splice of the flat array. */
  lemma FlatUpdate(disk: seq<Sector>, k: nat, from: nat, data: seq<Byte>)
    requires k < |disk| && from + |data| <= SECTOR_SIZE
    ensures k * SECTOR_SIZE + from + |data| <= |Flat(disk)|
    ensures Flat(disk[k := Splice(disk[k], from, data)]) == Splice(Flat(disk), k * SECTOR_SIZE + from, data)
  {
  }

  lemma TailKeys(s: seq<nat>)
    requires NoDup(s) && |s| > 0
    ensures forall k :: k in s[1..] <==> k in s && k != s[0]
  {
  }

  /** The FIFO after a new key arrived. */
  function Enqueued(order: seq<nat>, sector: nat): seq<nat>
  {
    if |order| < CACHE_CAPACITY then order + [sector] else order[1..] + [sector]
  }

  class SectorCache {
    var sectors: map<nat, Sector>
    var order: seq<nat>

    /** `order` lists the keys, each once, oldest first, and never more than the capacity. */
    ghost predicate Valid()
      reads this
    {
      && NoDup(order)
      && (forall k :: k in order <==> k in sectors)
      && |order| <= CACHE_CAPACITY
    }

    constructor ()
      ensures Valid() && sectors == map[] && order == []
    {
      sectors, order := map[], [];
    }

    method Get(sector: nat) returns (r: Option<Sector>)
      ensures r == if sector in sectors then Some(sectors[sector]) else None
    {
      r := if sector in sectors then Some(sectors[sector]) else None;
    }

    /** Insert or overwrite; a new key beyond the capacity evicts the oldest key. */
    method Insert(sector: nat, data: Sector)
      requires Valid()
      modifies this
      ensures Valid()
      ensures sector in sectors && sectors[sector] == data
      ensures forall k :: k in sectors && k != sector ==> k in old(sectors) && sectors[k] == old(sectors)[k]
      ensures order == if sector in old(sectors) then old(order) else Enqueued(old(order), sector)
    {
      var fresh_ := sector !in sectors;
      sectors := sectors[sector := data];
      if fresh_ {
        order := order + [sector];
        ghost var full := order;
        assert forall k :: k in full <==> k in old(order) || k == sector;
        TailKeys(full);
        while |order| > CACHE_CAPACITY
          invariant full == old(order) + [sector]
          invariant order == full || order == full[1..]
          invariant order == full ==> sectors == old(sectors)[sector := data]
          invariant order == full[1..] ==> |full| > CACHE_CAPACITY && sectors == old(sectors)[sector := data] - {full[0]}
        {
          var evict := order[0];
          order := order[1..];
          sectors := sectors - {evict};
        }
      }
    }
  }

  /** The disk behind block_read and block_write; either may fail at any time. */
  class Disk {
    var sectors: seq<Sector>
    /** How many accesses have failed. */
    ghost var faults: nat

    constructor (sectors: seq<Sector>)
      ensures this.sectors == sectors
    {
      this.sectors := sectors;
    }

    method Read(sector: nat) returns (r: Option<Sector>)
      modifies this`faults
      ensures r.Some? ==> sector < |sectors| && r.value == sectors[sector]
      ensures faults == old(faults) + if r.Some? then 0 else 1
    {
      var fails: bool := *;
      if fails || sector >= |sectors| {
        faults := faults + 1;
        return None;
      }
      return Some(sectors[sector]);
    }

    method Write(sector: nat, data: Sector) returns (ok: bool)
      modifies this
      ensures ok ==> sector < |old(sectors)| && sectors == old(sectors)[sector := data]
      ensures !ok ==> sectors == old(sectors)
      ensures faults == old(faults) + if ok then 0 else 1
    {
      var fails: bool := *;
      if fails || sector >= |sectors| {
        faults := faults + 1;
        return false;
      }
      sectors := sectors[sector := data];
      return true;
    }
  }

  function Zeros(n: nat): seq<Byte>
  {
    seq(n, _ => 0)
  }

  /** The first `n` bytes of a block are the flat array's at `offset`, the others zero. */
  ghost predicate ReadUpTo(disk: seq<Sector>, offset: nat, buf: seq<Byte>, n: nat)
  {
    var read :=
      && n <= |buf| == BLOCK_SIZE
      && (n > 0 ==> offset + n <= |Flat(disk)| && buf[..n] == Flat(disk)[offset..offset + n])
      && buf[n..] == Zeros(BLOCK_SIZE - n);
    read
  }

  /** `piece` is what the flat array has at `at`. */
  ghost predicate PieceAt(disk: seq<Sector>, at: nat, piece: seq<Byte>)
  {
    var found := piece != [] && at + |piece| <= |Flat(disk)| && piece == Flat(disk)[at..at + |piece|];
    found
  }

  /** Position `pos` of the block lies in sector `idx` of it, at its start unless that is the first. */
  predicate InSector(offset: nat, pos: nat, idx: nat)
  {
    pos < BLOCK_SIZE ==> offset + pos == (offset / SECTOR_SIZE + idx) * SECTOR_SIZE + (if idx == 0 then offset % SECTOR_SIZE else 0)
  }

  lemma ReadMore(disk: seq<Sector>, offset: nat, buf: seq<Byte>, n: nat, more: seq<Byte>)
    requires ReadUpTo(disk, offset, buf, n) && PieceAt(disk, offset + n, more) && n + |more| <= BLOCK_SIZE
    ensures ReadUpTo(disk, offset, Splice(buf, n, more), n + |more|) && |more| > 0
  {
  }

  /** A whole block read is the slice of the flat array. */
  lemma ReadAll(disk: seq<Sector>, offset: nat, buf: seq<Byte>)
    requires ReadUpTo(disk, offset, buf, BLOCK_SIZE)
    ensures offset + BLOCK_SIZE <= |Flat(disk)| && buf == Flat(disk)[offset..offset + BLOCK_SIZE]
  {
  }

  /** `data` went into the flat array at `offset`; nothing changed if there was no data. */
  ghost predicate Written(flat: seq<Byte>, flat': seq<Byte>, offset: nat, data: seq<Byte>)
  {
    var written := if data == [] then flat' == flat else offset + |data| <= |flat| && flat' == Splice(flat, offset, data);
    written
  }

  /** From `before` to `now` the first `pos` bytes of the data went to `offset` of the flat array. */
  ghost predicate Wrote(before: seq<Sector>, now: seq<Sector>, offset: nat, data: seq<Byte>, pos: nat)
  {
    var wrote := pos <= |data| && Written(Flat(before), Flat(now), offset, data[..pos]);
    wrote
  }

  /** From `before` to `now` the chunk went to `current` of the flat array. */
  ghost predicate Landed(before: seq<Sector>, now: seq<Sector>, current: nat, chunk: seq<Byte>)
  {
    var landed := current + |chunk| <= |Flat(before)| && Flat(now) == Splice(Flat(before), current, chunk);
    landed
  }

  /** `chunk` is the next piece of the data after `pos`. */
  ghost predicate NextPiece(data: seq<Byte>, pos: nat, chunk: seq<Byte>)
  {
    var piece := chunk != [] && pos + |chunk| <= |data| && data[..pos] + chunk == data[..pos + |chunk|];
    piece
  }

  lemma WroteNothing(disk: seq<Sector>, offset: nat, data: seq<Byte>)
    ensures Wrote(disk, disk, offset, data, 0)
  {
  }

  lemma WroteMore(before: seq<Sector>, now: seq<Sector>, next: seq<Sector>, offset: nat, data: seq<Byte>, pos: nat, chunk: seq<Byte>)
    requires Wrote(before, now, offset, data, pos) && NextPiece(data, pos, chunk) && Landed(now, next, offset + pos, chunk)
    ensures Wrote(before, next, offset, data, pos + |chunk|) && pos < pos + |chunk| <= |data|
  {
  }

  lemma WroteAll(before: seq<Sector>, now: seq<Sector>, offset: nat, data: seq<Byte>)
    requires Wrote(before, now, offset, data, |data|)
    ensures Written(Flat(before), Flat(now), offset, data)
  {
  }

  /** `offset + len - 1` on usize, of values that fit it. */
  function LastByte(offset: nat, len: nat): nat
  {
    if offset + len == 0 then USIZE - 1
    else if offset + len <= USIZE then offset + len - 1
    else offset + len - 1 - USIZE
  }

  /** A chunk that fills its sector leaves nothing of what was there. */
  lemma WholeSector(from: nat, chunk: seq<Byte>, disk: seq<Sector>, sector: nat)
    requires from + |chunk| <= SECTOR_SIZE
    ensures from == 0 && |chunk| == SECTOR_SIZE && sector < |disk| ==>
              Splice(Zeros(SECTOR_SIZE), from, chunk) == Splice(disk[sector], from, chunk)
  {
  }

  lemma ChunkLands(disk: seq<Sector>, current: nat, chunk: seq<Byte>)
    requires current / SECTOR_SIZE < |disk| && current % SECTOR_SIZE + |chunk| <= SECTOR_SIZE
    ensures current + |chunk| <= |Flat(disk)|
    ensures var sector := current / SECTOR_SIZE;
            Flat(disk[sector := Splice(disk[sector], current % SECTOR_SIZE, chunk)]) == Splice(Flat(disk), current, chunk)
  {
  }

  class BlockDevice {
    const cache: SectorCache
    const disk: Disk
    var maxOffset: nat

    constructor (disk: Disk, maxOffset: nat)
      ensures this.disk == disk && this.maxOffset == maxOffset && fresh(cache)
      ensures Coherent()
    {
      this.disk, this.maxOffset := disk, maxOffset;
      cache := new SectorCache();
    }

    /** The cache is in order and every cached sector equals the disk's. */
    ghost predicate Coherent()
      reads this, cache, disk
    {
      var coherent :=
        && cache.Valid()
        && forall k :: k in cache.sectors ==> k < |disk.sectors| && cache.sectors[k] == disk.sectors[k];
      coherent
    }

    /** is_offset_valid; no limit when the maximum is 0. */
    predicate OffsetValid(offset: nat)
      reads this
    {
      maxOffset == 0 || offset < maxOffset
    }

    /** One sector, from the cache if it is there. */
    method Fetch(sector: nat) returns (r: Option<Sector>)
      requires Coherent()
      modifies disk`faults
      ensures Coherent() && disk.faults == old(disk.faults) + if r.Some? then 0 else 1
      ensures r.Some? ==> sector < |disk.sectors| && r.value == disk.sectors[sector]
    {
      r := cache.Get(sector);
      if r.None? {
        r := disk.Read(sector);
      }
    }

    /**
     read_offset: a block of the flat array at any offset, zeros outside the valid range.  If a
     sector cannot be read (`failed`), the block is right up to there and zero beyond.
     */
    method ReadOffset(offset: nat) returns (buf: seq<Byte>, failed: bool, ghost n: nat)
      requires Coherent()
      modifies disk`faults
      ensures Coherent() && disk.faults == old(disk.faults) + if failed then 1 else 0
      ensures |buf| == BLOCK_SIZE
      ensures !OffsetValid(LastByte(offset, BLOCK_SIZE)) ==> !failed && buf == Zeros(BLOCK_SIZE)
      ensures OffsetValid(LastByte(offset, BLOCK_SIZE)) ==> ReadUpTo(disk.sectors, offset, buf, n)
      ensures OffsetValid(LastByte(offset, BLOCK_SIZE)) ==> if failed then n < BLOCK_SIZE else n == BLOCK_SIZE
    {
      buf, failed, n := Zeros(BLOCK_SIZE), false, 0;
      if !OffsetValid(LastByte(offset, BLOCK_SIZE)) {
        return;
      }
      var pos, idx := 0, 0;
      while pos < BLOCK_SIZE && !failed
        invariant pos <= BLOCK_SIZE && n == pos && (failed ==> pos < BLOCK_SIZE)
        invariant Coherent() && disk.faults == old(disk.faults) + if failed then 1 else 0
        invariant ReadUpTo(disk.sectors, offset, buf, pos) && InSector(offset, pos, idx)
        decreases BLOCK_SIZE - pos, !failed
      {
        var piece := ReadSector(offset, pos, idx);
        failed := piece.None?;
        if piece.Some? {
          ReadMore(disk.sectors, offset, buf, pos, piece.value);
          buf := Splice(buf, pos, piece.value);
          pos, idx := pos + |piece.value|, idx + 1;
          n := pos;
        }
      }
    }

    /** One turn of read_offset's loop: what the sector has of the block. */
    method ReadSector(offset: nat, pos: nat, idx: nat) returns (piece: Option<seq<Byte>>)
      requires Coherent() && pos < BLOCK_SIZE && InSector(offset, pos, idx)
      modifies disk`faults
      ensures Coherent() && disk.faults == old(disk.faults) + if piece.Some? then 0 else 1
      ensures piece.Some? ==> PieceAt(disk.sectors, offset + pos, piece.value) && pos + |piece.value| <= BLOCK_SIZE
      ensures piece.Some? ==> InSector(offset, pos + |piece.value|, idx + 1)
    {
      var sector := offset / SECTOR_SIZE + idx;
      var from := if idx == 0 then offset % SECTOR_SIZE else 0;
      var len := if SECTOR_SIZE - from < BLOCK_SIZE - pos then SECTOR_SIZE - from else BLOCK_SIZE - pos;
      var s := Fetch(sector);
      if s.None? {
        return None;
      }
      FlatSlice(disk.sectors, sector, from, len);
      return Some(s.value[from..from + len]);
    }

    /** As much of the data as the sector of `current` takes. */
    static method NextChunk(current: nat, data: seq<Byte>, pos: nat) returns (chunk: seq<Byte>)
      requires pos < |data|
      ensures NextPiece(data, pos, chunk) && current % SECTOR_SIZE + |chunk| <= SECTOR_SIZE
    {
      var room := SECTOR_SIZE - current % SECTOR_SIZE;
      var len := if room < |data| - pos then room else |data| - pos;
      chunk := data[pos..pos + len];
    }

    /** `chunk` goes to the sector of `current`, read first unless it is whole. */
    method WriteChunk(current: nat, chunk: seq<Byte>) returns (ok: bool)
      requires Coherent()
      requires current % SECTOR_SIZE + |chunk| <= SECTOR_SIZE
      modifies cache, disk
      ensures Coherent()
      ensures ok ==> Landed(old(disk.sectors), disk.sectors, current, chunk)
      ensures !ok ==> disk.sectors == old(disk.sectors)
      ensures disk.faults == old(disk.faults) + if ok then 0 else 1
    {
      var sector, from := current / SECTOR_SIZE, current % SECTOR_SIZE;
      var s: Sector := Zeros(SECTOR_SIZE);
      if from != 0 || |chunk| != SECTOR_SIZE {
        var r := Fetch(sector);
        if r.None? {
          return false;
        }
        s := r.value;
      }
      s := Splice(s, from, chunk);
      WholeSector(from, chunk, disk.sectors, sector);
      ok := disk.Write(sector, s);
      if ok {
        ChunkLands(old(disk.sectors), current, chunk);
        cache.Insert(sector, s);
      }
    }

    /** One turn of write_offset's loop. */
    method WriteSector(current: nat, data: seq<Byte>, pos: nat) returns (chunk: seq<Byte>, ok: bool)
      requires Coherent() && pos < |data|
      modifies cache, disk
      ensures Coherent() && disk.faults == old(disk.faults) + if ok then 0 else 1
      ensures NextPiece(data, pos, chunk)
      ensures ok ==> Landed(old(disk.sectors), disk.sectors, current, chunk)
      ensures !ok ==> disk.sectors == old(disk.sectors)
    {
      chunk := NextChunk(current, data, pos);
      ok := WriteChunk(current, chunk);
    }

    /**
     write_offset: the data lands in the flat array, whole if nothing failed, else a prefix of it.
     The validity test of an empty write at offset 0 wraps to the largest address.
     */
    method WriteOffset(offset: nat, data: seq<Byte>) returns (failed: bool, ghost n: nat)
      requires Coherent()
      modifies cache, disk
      ensures Coherent() && disk.faults == old(disk.faults) + if failed then 1 else 0
      ensures !OffsetValid(LastByte(offset, |data|)) ==> !failed && disk.sectors == old(disk.sectors)
      ensures OffsetValid(LastByte(offset, |data|)) ==> Wrote(old(disk.sectors), disk.sectors, offset, data, n)
      ensures OffsetValid(LastByte(offset, |data|)) ==> if failed then n < |data| else n == |data|
    {
      failed, n := false, 0;
      if !OffsetValid(LastByte(offset, |data|)) {
        return;
      }
      ghost var before := disk.sectors;
      var pos := 0;
      WroteNothing(before, offset, data);
      while pos < |data| && !failed
        invariant pos <= |data| && n == pos
        invariant Coherent() && disk.faults == old(disk.faults) + if failed then 1 else 0
        invariant Wrote(before, disk.sectors, offset, data, pos) && (failed ==> pos < |data|)
        decreases |data| - pos, !failed
      {
        ghost var now := disk.sectors;
        var chunk, ok := WriteSector(offset + pos, data, pos);
        failed := !ok;
        if ok {
          WroteMore(before, now, disk.sectors, offset, data, pos, chunk);
          pos := pos + |chunk|;
          n := pos;
        }
      }
    }
  }

  datatype Op = DoRead(offset: nat) | DoWrite(offset: nat, data: seq<Byte>)

  /** A flat byte array of which only the first `max` bytes are addressable (all of them if max is 0). */
  datatype Flatten = Flatten(bytes: seq<Byte>, outs: seq<seq<Byte>>)

  predicate Addressable(max: nat, offset: nat)
  {
    max == 0 || offset < max
  }

  /** One operation on the plain array. */
  function FlatStep(st: Flatten, max: nat, op: Op): Flatten
  {
    match op
    case DoRead(offset) =>
      if Addressable(max, LastByte(offset, BLOCK_SIZE)) && offset + BLOCK_SIZE <= |st.bytes| then
        st.(outs := st.outs + [st.bytes[offset..offset + BLOCK_SIZE]])
      else
        st.(outs := st.outs + [Zeros(BLOCK_SIZE)])
    case DoWrite(offset, data) =>
      if Addressable(max, LastByte(offset, |data|)) && data != [] && offset + |data| <= |st.bytes| then
        st.(bytes := Splice(st.bytes, offset, data))
      else
        st
  }

  function FlatRun(st: Flatten, max: nat, ops: seq<Op>): Flatten
    decreases |ops|
  {
    if ops == [] then st else FlatStep(FlatRun(st, max, ops[..|ops| - 1]), max, ops[|ops| - 1])
  }

  /** Over every run the cache stays coherent, and until a sector access fails the device is the plain array. */
  method Run(dev: BlockDevice, ops: seq<Op>) returns (outs: seq<seq<Byte>>)
    requires dev.Coherent()
    modifies dev.cache, dev.disk
    ensures dev.Coherent() && dev.disk.faults >= old(dev.disk.faults)
    ensures dev.disk.faults == old(dev.disk.faults) ==>
              Flatten(Flat(dev.disk.sectors), outs) == FlatRun(Flatten(Flat(old(dev.disk.sectors)), []), dev.maxOffset, ops)
  {
    outs := [];
    ghost var start, before := Flatten(Flat(dev.disk.sectors), []), dev.disk.faults;
    for k := 0 to |ops|
      invariant dev.Coherent() && dev.maxOffset == old(dev.maxOffset) && dev.disk.faults >= before
      invariant dev.disk.faults == before ==> Flatten(Flat(dev.disk.sectors), outs) == FlatRun(start, dev.maxOffset, ops[..k])
    {
      assert ops[..k + 1][..k] == ops[..k];
      match ops[k]
      case DoRead(offset) =>
        var buf, failed, n := dev.ReadOffset(offset);
        if Addressable(dev.maxOffset, LastByte(offset, BLOCK_SIZE)) && !failed {
          ReadAll(dev.disk.sectors, offset, buf);
        }
        outs := outs + [buf];
      case DoWrite(offset, data) =>
        ghost var before := dev.disk.sectors;
        var failed, n := dev.WriteOffset(offset, data);
        if Addressable(dev.maxOffset, LastByte(offset, |data|)) && !failed {
          WroteAll(before, dev.disk.sectors, offset, data);
        }
    }
    assert ops[..|ops|] == ops;
  }
}

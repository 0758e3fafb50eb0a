/** The mounted file system: geometry, the disk, the block cache and the fixed buffers of src/fs_ext4.c. */
module Ext4State {
  import opened Bytes

  const FS_ERR_NOENT := -2
  const FS_ERR_IO := -5
  const FS_ERR_NOTDIR := -20
  const FS_ERR_INVAL := -22
  const FS_ERR_NOSPC := -28
  const FS_ERR_NOSYS := -38

  const CACHE_SLOTS: nat := 8

  datatype Geometry = Geometry(
    blockSize: nat,
    blocksCount: nat,
    firstDataBlock: nat,
    blocksPerGroup: nat,
    inodesPerGroup: nat,
    inodeSize: nat,
    groupCount: nat,
    descSize: nat,
    is64Bit: bool)

  /** The size of `n` consecutive items of `size` bytes (or blocks) each. */
  function Area(n: nat, size: nat): nat
  {
    if n == 0 then 0 else Area(n - 1, size) + size
  }

  lemma {:induction false} AreaIsProduct(n: nat, size: nat)
    ensures Area(n, size) == n * size
  {
    if n > 0 {
      AreaIsProduct(n - 1, size);
      assert n * size == (n - 1) * size + size;
    }
  }

  lemma {:induction false} AreaSum(m: nat, n: nat, size: nat)
    ensures Area(m + n, size) == Area(m, size) + Area(n, size)
  {
    if n > 0 {
      AreaSum(m, n - 1, size);
    }
  }

  /** Division by repeated subtraction: item `Quot(x, size)` is the one that holds byte `x`. */
  function Quot(x: nat, size: nat): (q: nat)
    requires size > 0
    ensures q <= x && Area(q, size) <= x < Area(q, size) + size
  {
    if x < size then 0 else Quot(x - size, size) + 1
  }

  function Rem(x: nat, size: nat): (r: nat)
    requires size > 0
    ensures r < size && Area(Quot(x, size), size) + r == x
  {
    x - Area(Quot(x, size), size)
  }

  lemma QuotUnique(x: nat, size: nat, q: nat)
    requires size > 0 && Area(q, size) <= x < Area(q, size) + size
    ensures Quot(x, size) == q
  {
    if q < Quot(x, size) {
      AreaStep(q, Quot(x, size), size);
    } else if Quot(x, size) < q {
      AreaStep(Quot(x, size), q, size);
    }
  }

  /** `Area`, `Quot` and `Rem` are the `*`, `/` and `%` of the source. */
  lemma {:induction false} QuotIsDivision(x: nat, size: nat)
    requires size > 0
    ensures Quot(x, size) == x / size && Rem(x, size) == x % size
  {
    AreaIsProduct(Quot(x, size), size);
    DivModUnique(x, Quot(x, size), Rem(x, size), size);
  }

  lemma {:induction false} AreaStep(i: nat, j: nat, size: nat)
    requires i < j
    ensures Area(i, size) + size <= Area(j, size)
  {
    if i + 1 < j {
      AreaStep(i, j - 1, size);
    }
  }

  /** What a successful probe establishes, and that the 32-bit products of the source do not wrap. */
  ghost predicate ValidGeometry(g: Geometry)
  {
    && (g.blockSize == 1024 || g.blockSize == 2048 || g.blockSize == 4096)
    && 32 <= g.descSize <= 64
    && 128 <= g.inodeSize <= 512
    && g.blocksPerGroup > 0
    && g.inodesPerGroup > 0
    && g.firstDataBlock < g.blocksCount
    && g.groupCount > 0
    && Area(g.groupCount - 1, g.blocksPerGroup) < g.blocksCount - g.firstDataBlock <= Area(g.groupCount, g.blocksPerGroup)
    && Area(g.groupCount, g.descSize) < 0x1_0000_0000
    && Area(g.inodesPerGroup, g.inodeSize) < 0x1_0000_0000
    && g.firstDataBlock + Area(g.groupCount, g.blocksPerGroup) < 0x1_0000_0000
    && 0x800 + g.blocksCount * 8 < 0x1_0000_0000
  }

  type Disk = seq<seq<u8>>

  ghost predicate ValidDisk(g: Geometry, d: Disk)
  {
    |d| == g.blocksCount && forall b :: 0 <= b < |d| ==> |d[b]| == g.blockSize
  }

  datatype CacheSlot = CacheSlot(valid: bool, fsBlock: u32, data: seq<u8>)

  class Ext4 {
    const geo: Geometry
    /** When set, no transfer to an existing block fails; otherwise any transfer may. */
    const reliable: bool
    var disk: Disk
    const cache: array<CacheSlot>
    const ioBlock: array<u8>
    const inodeBuf: array<u8>
    const descBuf: array<u8>

    ghost predicate Valid()
      reads this, cache
    {
      && ValidGeometry(geo)
      && ValidDisk(geo, disk)
      && cache.Length == CACHE_SLOTS
      && ioBlock.Length == 4096 && inodeBuf.Length == 512 && descBuf.Length == 64
      && ioBlock != inodeBuf && ioBlock != descBuf && inodeBuf != descBuf
      && forall s :: 0 <= s < CACHE_SLOTS ==> Coherent(s, cache[s])
    }

    /** A valid slot holds exactly the disk block it names. */
    ghost predicate Coherent(s: nat, e: CacheSlot)
      reads this`disk
    {
      e.valid ==> e.fsBlock < |disk| && e.fsBlock % CACHE_SLOTS == s && e.data == disk[e.fsBlock]
    }

    constructor (geo: Geometry, disk: Disk, reliable: bool)
      requires ValidGeometry(geo) && ValidDisk(geo, disk)
      ensures Valid() && this.geo == geo && this.disk == disk && this.reliable == reliable
      ensures fresh(cache) && fresh(ioBlock) && fresh(inodeBuf) && fresh(descBuf)
    {
      this.geo := geo;
      this.disk := disk;
      this.reliable := reliable;
      cache := new CacheSlot[CACHE_SLOTS](_ => CacheSlot(false, 0, []));
      ioBlock := new u8[4096](_ => 0);
      inodeBuf := new u8[512](_ => 0);
      descBuf := new u8[64](_ => 0);
    }

    /** One block transfer from the medium. */
    method BlkRead(b: u32, dst: array<u8>) returns (ok: bool)
      requires Valid() && dst.Length >= geo.blockSize
      modifies dst
      ensures reliable && b < |old(disk)| ==> ok
      ensures ok ==> b < |disk| && dst[..] == Splice(old(dst[..]), 0, disk[b])
    {
      var fault: bool := *;
      ok := b < |disk| && (reliable || !fault);
      if ok {
        StoreBytes(dst, 0, disk[b], 0, geo.blockSize);
        assert disk[b] == disk[b][0..geo.blockSize];
      }
    }

    /** One block transfer to the medium; a failed transfer leaves the medium as it was. */
    method BlkWrite(b: u32, src: array<u8>) returns (ok: bool)
      requires ValidGeometry(geo) && ValidDisk(geo, disk) && src.Length >= geo.blockSize
      modifies this`disk
      ensures reliable && b < |old(disk)| ==> ok
      ensures ok ==> b < |old(disk)| && disk == old(disk)[b := src[..geo.blockSize]]
      ensures !ok ==> disk == old(disk)
    {
      var fault: bool := *;
      ok := b < |disk| && (reliable || !fault);
      if ok {
        disk := disk[b := src[..geo.blockSize]];
      }
    }

    method CacheReset()
      requires ValidGeometry(geo) && ValidDisk(geo, disk) && cache.Length == CACHE_SLOTS
      requires ioBlock.Length == 4096 && inodeBuf.Length == 512 && descBuf.Length == 64
      requires ioBlock != inodeBuf && ioBlock != descBuf && inodeBuf != descBuf
      modifies cache
      ensures Valid()
      ensures forall s :: 0 <= s < CACHE_SLOTS ==> !cache[s].valid
    {
      for i := 0 to CACHE_SLOTS
        invariant forall s :: 0 <= s < i ==> !cache[s].valid
      {
        cache[i] := CacheSlot(false, 0, []);
      }
    }

    /** Looks a block up in its slot; a hit delivers the disk's own bytes. */
    method CacheRead(b: u32, dst: array<u8>) returns (hit: bool)
      requires Valid() && dst.Length >= geo.blockSize
      modifies dst
      ensures hit ==> b < |disk| && dst[..] == Splice(old(dst[..]), 0, disk[b])
      ensures !hit ==> dst[..] == old(dst[..])
    {
      var e := cache[b % CACHE_SLOTS];
      if !e.valid || e.fsBlock != b {
        return false;
      }
      assert Coherent(b % CACHE_SLOTS, e);
      StoreBytes(dst, 0, e.data, 0, geo.blockSize);
      assert e.data == e.data[0..geo.blockSize];
      hit := true;
    }

    method CacheStore(b: u32, src: array<u8>)
      requires cache.Length == CACHE_SLOTS && src.Length >= geo.blockSize
      modifies cache
      ensures forall s :: 0 <= s < CACHE_SLOTS ==>
        cache[s] == if s == b % CACHE_SLOTS then CacheSlot(true, b, src[..geo.blockSize]) else old(cache[s])
    {
      cache[b % CACHE_SLOTS] := CacheSlot(true, b, src[..geo.blockSize]);
    }

    /** Reads a block through the cache: success delivers exactly what is on disk. */
    method ReadBlock(b: u32, dst: array<u8>) returns (rc: int)
      requires Valid() && dst.Length >= geo.blockSize
      modifies dst, cache
      ensures Valid()
      ensures rc == 0 || rc == FS_ERR_IO
      ensures reliable && b < |old(disk)| ==> rc == 0
      ensures rc == 0 ==> b < |disk| && dst[..] == Splice(old(dst[..]), 0, disk[b]) && dst[..geo.blockSize] == disk[b]
    {
      var hit := CacheRead(b, dst);
      if hit {
        return 0;
      }
      var ok := BlkRead(b, dst);
      if !ok {
        return FS_ERR_IO;
      }
      assert dst[..geo.blockSize] == disk[b];
      CacheStore(b, dst);
      rc := 0;
    }

    /** Writes a block through the cache: success changes that one block and keeps the cache coherent. */
    method WriteBlock(b: u32, src: array<u8>) returns (rc: int)
      requires Valid() && src.Length >= geo.blockSize
      modifies this`disk, cache
      ensures Valid()
      ensures rc == 0 || rc == FS_ERR_IO
      ensures reliable && b < |old(disk)| ==> rc == 0
      ensures rc == 0 ==> b < |old(disk)| && disk == old(disk)[b := src[..geo.blockSize]]
      ensures rc != 0 ==> disk == old(disk)
    {
      var ok := BlkWrite(b, src);
      if !ok {
        return FS_ERR_IO;
      }
      CacheStore(b, src);
      rc := 0;
    }
  }
}

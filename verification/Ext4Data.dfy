/** Reading and writing the bytes of a file. */
module Ext4Data {
  import opened Bytes
  import opened Ext4State
  import opened Ext4Layout
  import opened Ext4Extents
  import opened Ext4Alloc
  import opened Ext4Files
  import opened Ext4Growth

  // ---------- what a finished write means ----------

  /** The disk d is d0 with `src` written into file `ino` at `offset`, and nothing else changed but in-use bits of new blocks. */
  ghost predicate Written(g: Geometry, d0: Disk, d: Disk, ino: nat, offset: nat, src: seq<u8>)
    requires ValidDisk(g, d0) && ValidGeometry(g) && ValidLayout(g, Flat(d0)) && ValidIno(g, ino)
    requires FileOk(g, Flat(d0), Inode(g, Flat(d0), ino))
  {
    var f0, f := Flat(d0), Flat(d);
    var ib0 := Inode(g, f0, ino);
    && ValidDisk(g, d) && ValidLayout(g, f) && SameGdt(g, f0, f)
    && var ib := Inode(g, f, ino);
    && FileOk(g, f, ib)
    && Contents(g, d, ib) == Overwrite(Contents(g, d0, ib0), offset, src)
    && (forall j: nat | ValidIno(g, j) && j != ino :: Inode(g, f, j) == Inode(g, f0, j))
    && ForeignKept(g, d0, RootOf(ib0), BlocksFor(SizeOf(ib0), g.blockSize), d)
    && SameBlocks(RootOf(ib0), RootOf(ib), BlocksFor(SizeOf(ib0), g.blockSize))
    && NewWereFree(g, f0, RootOf(ib), BlocksFor(SizeOf(ib0), g.blockSize), BlocksFor(SizeOf(ib), g.blockSize))
    && UsedGrown(g, f0, f, RootOf(ib), BlocksFor(SizeOf(ib0), g.blockSize), BlocksFor(SizeOf(ib), g.blockSize))
    && MetaUsed(g, f)
  }

  /** The disks agree on descriptors, in-use bits and all blocks that hold no metadata. */
  ghost predicate SameOffTables(g: Geometry, d: Disk, d': Disk)
  {
    && ValidGeometry(g) && ValidDisk(g, d) && ValidDisk(g, d')
    && ValidLayout(g, Flat(d)) && ValidLayout(g, Flat(d')) && SameGdt(g, Flat(d), Flat(d'))
    && (forall b: nat | InData(g, b) :: Used(g, Flat(d), b) <==> Used(g, Flat(d'), b))
    && (forall b: nat | b < |d| && NotMeta(g, Flat(d), b) :: d'[b] == d[b])
  }

  /** Storing an inode changes no descriptor, no in-use bit, no data block and no other inode. */
  lemma InodeWriteKeeps(g: Geometry, d: Disk, d': Disk, ino: nat, data: seq<u8>)
    requires ValidGeometry(g) && ValidDisk(g, d) && ValidDisk(g, d') && ValidLayout(g, Flat(d)) && ValidIno(g, ino)
    requires |data| == g.inodeSize && Flat(d') == Splice(Flat(d), InodeAddr(g, Flat(d), ino), data)
    ensures SameOffTables(g, d, d')
    ensures Inode(g, Flat(d'), ino) == data
    ensures forall j: nat | ValidIno(g, j) && j != ino :: Inode(g, Flat(d'), j) == Inode(g, Flat(d), j)
  {
    hide Flat, Area, Quot, Desc, Used, NotMeta, Splice;
    var f, f', a := Flat(d), Flat(d'), InodeAddr(g, Flat(d), ino);
    PutInodeIsUpdate(g, f, ino, data, ino);
    assert ValidGroup(g, f, GroupOf(g, ino));
    SpliceKeepsLayout(g, f, a, data);
    forall j: nat | ValidIno(g, j) && j != ino
      ensures Inode(g, f', j) == Inode(g, f, j)
    {
      PutInodeIsUpdate(g, f, ino, data, j);
    }
    forall b: nat | InData(g, b)
      ensures Used(g, f, b) <==> Used(g, f', b)
    {
      InodeWriteKeepsBit(g, f, ino, data, b);
    }
    forall b: nat | b < |d| && NotMeta(g, f, b)
      ensures d'[b] == d[b]
    {
      InodeWriteKeepsBlock(g, d, d', ino, data, b);
    }
  }

  lemma InodeWriteKeepsBit(g: Geometry, f: seq<u8>, ino: nat, data: seq<u8>, b: nat)
    requires ValidGeometry(g) && ValidLayout(g, f) && ValidIno(g, ino) && |data| == g.inodeSize && InData(g, b)
    ensures ValidLayout(g, Splice(f, InodeAddr(g, f, ino), data))
    ensures Used(g, f, b) <==> Used(g, Splice(f, InodeAddr(g, f, ino), data), b)
  {
    hide Area, Quot, Desc;
    var a := InodeAddr(g, f, ino);
    var off := InodeOffset(g, ino);
    BlockInGroup(g, b);
    assert ValidGroup(g, f, GroupOf(g, ino)) && ValidGroup(g, f, GroupOfBlock(g, b));
    assert GroupsApart(g, f, GroupOfBlock(g, b), GroupOf(g, ino));
    SpliceKeepsLayout(g, f, a, data);
  }

  lemma InodeWriteKeepsBlock(g: Geometry, d: Disk, d': Disk, ino: nat, data: seq<u8>, b: nat)
    requires ValidGeometry(g) && ValidDisk(g, d) && ValidDisk(g, d') && ValidLayout(g, Flat(d)) && ValidIno(g, ino)
    requires |data| == g.inodeSize && Flat(d') == Splice(Flat(d), InodeAddr(g, Flat(d), ino), data)
    requires b < |d| && NotMeta(g, Flat(d), b)
    ensures d'[b] == d[b]
  {
    hide Flat, Area, Quot, Desc, Splice;
    var off := InodeOffset(g, ino);
    assert NotMetaOf(g, Flat(d), b, GroupOf(g, ino));
    FlatBlock(d, g.blockSize, b);
    FlatBlock(d', g.blockSize, b);
    SliceOfSplice(Flat(d), InodeAddr(g, Flat(d), ino), data, Area(b, g.blockSize), Area(b, g.blockSize) + g.blockSize);
  }

  lemma SameOffTablesRefl(g: Geometry, d: Disk)
    requires ValidGeometry(g) && ValidDisk(g, d) && ValidLayout(g, Flat(d))
    ensures SameOffTables(g, d, d)
  {
    hide Flat, Used, NotMeta;
  }

  /** The file once its inode is stored: in good order, with the expected bytes, and foreign blocks kept. */
  lemma FinishFile(g: Geometry, d0: Disk, r0: Root, n0: nat, d: Disk, n: nat, d': Disk, ib: InodeBytes, c: seq<u8>, offset: nat, src: seq<u8>)
    requires Grown(g, d0, r0, n0, d, RootOf(ib), n) && SameOffTables(g, d, d') && MetaUsed(g, Flat(d0))
    requires n == BlocksFor(SizeOf(ib), g.blockSize) && SizeOf(ib) + g.blockSize < 0x1_0000_0000
    requires HasExtents(ib) && SizeReadable(ib)
    requires SizeOf(ib) == |Overwrite(c, offset, src)|
    requires Holds(g, d, RootOf(ib), SizeOf(ib), c, offset, src, |src|)
    ensures FileOk(g, Flat(d'), ib)
    ensures Contents(g, d', ib) == Overwrite(c, offset, src)
    ensures ForeignKept(g, d0, r0, n0, d') && MetaUsed(g, Flat(d'))
    ensures SameBlocks(r0, RootOf(ib), n0) && NewWereFree(g, Flat(d0), RootOf(ib), n0, n)
    ensures UsedGrown(g, Flat(d0), Flat(d'), RootOf(ib), n0, n)
  {
    hide Flat, Area, Quot, Desc, Used, NotMeta, PBlock, Dense, NewBlock, NewWereFree, InodesSame, ValidLayout, SameBlocks, Overwrite, Rd16, Rd32;
    var r := RootOf(ib);
    GrownFacts(g, d0, r0, n0, d, r, n);
    forall l: nat | l < n
      ensures OwnedBlock(g, Flat(d'), PBlock(r, l)) && d'[PBlock(r, l)] == d[PBlock(r, l)]
    {
      OwnedIsPlain(g, Flat(d), PBlock(r, l));
      NotMetaSame(g, Flat(d), Flat(d'), PBlock(r, l));
    }
    OverwriteBytes(c, offset, src);
    forall k: nat | k < SizeOf(ib)
      ensures PBlock(r, Quot(k, g.blockSize)) < |d'| && FileByte(g, d', r, k) == Overwrite(c, offset, src)[k]
    {
      assert ByteIs(g, d, r, k, Expect(c, offset, src, |src|, k));
      QuotBound(k, n, g.blockSize);
    }
    FinishKept(g, d0, r0, n0, d, r, n, d');
  }

  lemma FinishKept(g: Geometry, d0: Disk, r0: Root, n0: nat, d: Disk, r: Root, n: nat, d': Disk)
    requires Grown(g, d0, r0, n0, d, r, n) && SameOffTables(g, d, d') && MetaUsed(g, Flat(d0))
    ensures Entries(r) <= INLINE_MAX
    ensures ForeignKept(g, d0, r0, n0, d') && MetaUsed(g, Flat(d'))
    ensures UsedGrown(g, Flat(d0), Flat(d'), r, n0, n)
  {
    hide Flat, Area, Quot, Desc, Used, NotMeta, PBlock, Dense, NewBlock, NewWereFree, InodesSame, ValidLayout, SameBlocks, Owns;
    GrownFacts(g, d0, r0, n0, d, r, n);
    InodesSameLayouts(g, Flat(d0), Flat(d));
    forall b: nat | b < |d0| && Foreign(g, Flat(d0), r0, n0, b)
      ensures d'[b] == d0[b]
    {
      NotMetaSame(g, Flat(d0), Flat(d), b);
    }
    forall b: nat | InData(g, b)
      ensures NotMeta(g, Flat(d'), b) || Used(g, Flat(d'), b)
    {
      NotMetaSame(g, Flat(d0), Flat(d), b);
      NotMetaSame(g, Flat(d), Flat(d'), b);
    }
  }

  // ---------- the steps of the write loop ----------

  /** From d to d' no inode changed, no file block among the first n of leaf r was lost, and no block but metadata changed. */
  ghost predicate StepKept(g: Geometry, d0: Disk, d: Disk, r: Root, n: nat, d': Disk)
  {
    && ValidGeometry(g) && ValidDisk(g, d) && ValidDisk(g, d')
    && InodesSame(g, Flat(d0), Flat(d')) && ValidLayout(g, Flat(d0)) && ValidLayout(g, Flat(d')) && Entries(r) <= INLINE_MAX
    && (forall m: nat | m < n :: OwnedBlock(g, Flat(d'), PBlock(r, m)))
    && (forall b: nat | b < |d| && NotMeta(g, Flat(d0), b) :: d'[b] == d[b])
    && UsedKept(g, Flat(d0), Flat(d'))
  }

  lemma StepKeptByNone(g: Geometry, d0: Disk, r0: Root, n0: nat, d: Disk, r: Root, n: nat)
    requires Grown(g, d0, r0, n0, d, r, n)
    ensures StepKept(g, d0, d, r, n, d)
  {
    hide Flat, Area, Quot, Used, Desc, ValidLayout, InodesSame, NotMeta, Dense, PBlock, Grown;
    GrownFacts(g, d0, r0, n0, d, r, n);
    GrownUsed(g, d0, r0, n0, d, r, n);
  }

  lemma StepKeptByClaim(g: Geometry, d0: Disk, r0: Root, n0: nat, d: Disk, r: Root, n: nat, d': Disk, p: u32)
    requires Grown(g, d0, r0, n0, d, r, n) && MetaUsed(g, Flat(d0))
    requires ValidDisk(g, d') && Claimed(g, Flat(d), Flat(d'), p)
    ensures StepKept(g, d0, d, r, n, d')
  {
    hide Flat, Area, Quot, Used, Desc, ValidLayout, InodesSame, NotMeta, Dense, PBlock, Grown, MetaUsed, Claimed, OwnedBlock;
    GrownFacts(g, d0, r0, n0, d, r, n);
    ClaimIsFresh(g, d0, r0, n0, d, r, n, d', p);
    InodesSameLayouts(g, Flat(d0), Flat(d'));
    GrownUsed(g, d0, r0, n0, d, r, n);
  }

  lemma GrownUsed(g: Geometry, d0: Disk, r0: Root, n0: nat, d: Disk, r: Root, n: nat)
    requires Grown(g, d0, r0, n0, d, r, n)
    ensures ValidGeometry(g) && ValidLayout(g, Flat(d0)) && ValidLayout(g, Flat(d)) && UsedKept(g, Flat(d0), Flat(d))
  {
    hide Flat, Area, Quot, Used, Desc, NotMeta, Dense, PBlock, NewBlock, Owns, ForeignKept, NewWereFree, SameBlocks;
    InodesSameLayouts(g, Flat(d0), Flat(d));
  }

  /** No block can be appended to leaf r: none of the disk is free, or the leaf has no entry left. */
  ghost predicate OutOfRoom(g: Geometry, f: seq<u8>, r: Root)
    requires ValidGeometry(g) && ValidLayout(g, f)
  {
    (forall b: nat | InData(g, b) :: Used(g, f, b)) || Entries(r) == MaxEntries(r)
  }

  /** Claims a block and appends it to the extents held in the inode buffer. */
  method AppendBlock(fs: Ext4, ino: u32, l: u32, ghost d0: Disk, ghost r0: Root, ghost n0: nat) returns (rc: int, p: u32)
    requires fs.Valid() && l < 0xFFFF_FFFF
    requires Grown(fs.geo, d0, r0, n0, fs.disk, RootOf(fs.inodeBuf[..]), l) && MetaUsed(fs.geo, Flat(d0))
    modifies fs`disk, fs.ioBlock, fs.descBuf, fs.cache, fs.inodeBuf
    ensures fs.Valid() && rc <= 0
    ensures StepKept(fs.geo, d0, old(fs.disk), old(RootOf(fs.inodeBuf[..])), l, fs.disk)
    ensures rc != 0 ==> fs.inodeBuf[..] == old(fs.inodeBuf[..])
    ensures fs.reliable && rc != 0 ==>
      rc == FS_ERR_NOSPC && ValidLayout(fs.geo, Flat(fs.disk)) && OutOfRoom(fs.geo, Flat(fs.disk), RootOf(fs.inodeBuf[..]))
    ensures rc == 0 ==> Grown(fs.geo, d0, r0, n0, fs.disk, RootOf(fs.inodeBuf[..]), l + 1)
    ensures rc == 0 ==> fs.inodeBuf[..] == Splice(old(fs.inodeBuf[..]), INODE_ROOT, RootOf(fs.inodeBuf[..]))
    ensures rc == 0 ==> Entries(RootOf(fs.inodeBuf[..])) <= INLINE_MAX && Entries(old(RootOf(fs.inodeBuf[..]))) <= INLINE_MAX
    ensures rc == 0 ==> PBlock(RootOf(fs.inodeBuf[..]), l) == p && p < |fs.disk|
    ensures rc == 0 ==> forall m: nat | m < l ::
      PBlock(RootOf(fs.inodeBuf[..]), m) == PBlock(old(RootOf(fs.inodeBuf[..])), m)
    ensures rc == 0 ==> |fs.disk| == |old(fs.disk)| && forall m: nat | m < l ::
      PBlock(old(RootOf(fs.inodeBuf[..])), m) < |fs.disk|
      && fs.disk[PBlock(old(RootOf(fs.inodeBuf[..])), m)] == old(fs.disk)[PBlock(old(RootOf(fs.inodeBuf[..])), m)]
  {
    hide Flat, Area, Quot, Desc, Used, Dense, ValidLayout, InodesSame, Rd16, Rd32, Grown, MetaUsed, Claimed, PBlock, Appended, Splice, StepKept;
    ghost var d, b0 := fs.disk, fs.inodeBuf[..];
    ghost var r := RootOf(b0);
    GrownFacts(fs.geo, d0, r0, n0, d, r, l);
    DenseLeaf(fs.geo, r, l);
    rc, p := AllocBlock(fs, ino);
    if rc != 0 {
      StepKeptByNone(fs.geo, d0, r0, n0, d, r, l);
      return;
    }
    StepKeptByClaim(fs.geo, d0, r0, n0, d, r, l, fs.disk, p);
    ClaimIsFresh(fs.geo, d0, r0, n0, d, r, l, fs.disk, p);
    ClaimedInData(fs.geo, Flat(d), Flat(fs.disk), p);
    assert fs.inodeBuf[..][INODE_ROOT..INODE_ROOT + ROOT_BYTES] == r;
    rc := ExtentAppend(fs.inodeBuf, INODE_ROOT, l, p, fs.geo.blocksCount);
    if rc != 0 {
      return;
    }
    GrowAlloc(fs.geo, d0, r0, n0, d, r, l, fs.disk, p);
    AppendBlocks(fs.geo, r, l, p);
    DenseLeaf(fs.geo, Appended(r, l, p), l + 1);
    SpliceTwice(b0, INODE_ROOT, Appended(r, l, p), Appended(r, l, p));
  }

  lemma DenseLeaf(g: Geometry, r: Root, n: nat)
    requires Dense(g, r, n)
    ensures ValidLeaf(r, g.blocksCount) && End(r) == n && First(r) == 0 && Entries(r) <= MaxEntries(r) <= INLINE_MAX
    ensures Magic(r) == EXTENT_MAGIC && Depth(r) == 0
  {
  }

  /** Builds one block in the transfer buffer and stores it. */
  method PutChunk(fs: Ext4, p: u32, isNew: bool, zlo: nat, zhi: nat, at: nat, src: seq<u8>, from: nat, want: nat) returns (rc: int)
    requires fs.Valid() && zlo <= zhi <= fs.geo.blockSize && at + want <= fs.geo.blockSize && from + want <= |src|
    requires isNew ==> fs.ioBlock[..fs.geo.blockSize] == Zeros(fs.geo.blockSize)
    modifies fs`disk, fs.ioBlock, fs.cache
    ensures fs.Valid()
    ensures rc <= 0 && (fs.reliable && p < |old(fs.disk)| ==> rc == 0)
    ensures rc == 0 ==> p < |old(fs.disk)|
    ensures rc == 0 ==> fs.disk == old(fs.disk)[p :=
      Chunk(if isNew then Zeros(fs.geo.blockSize) else old(fs.disk)[p], zlo, zhi, at, src[from..from + want])]
    ensures rc != 0 ==> fs.disk == old(fs.disk)
  {
    hide Splice;
    if !isNew {
      rc := fs.ReadBlock(p, fs.ioBlock);
      if rc != 0 {
        return;
      }
    }
    ghost var bs, base := fs.geo.blockSize, fs.ioBlock[..fs.geo.blockSize];
    SplicePrefix(fs.ioBlock[..], bs, zlo, Zeros(zhi - zlo));
    ZeroBytes(fs.ioBlock, zlo, zhi);
    SplicePrefix(fs.ioBlock[..], bs, at, src[from..from + want]);
    StoreBytes(fs.ioBlock, at, src, from, want);
    rc := fs.WriteBlock(p, fs.ioBlock);
  }

  /** Zeroing the tail of the last block makes the whole block known. */
  lemma TailStep(g: Geometry, d: Disk, r: Root, n: nat, blk: seq<u8>, c: seq<u8>, offset: nat, src: seq<u8>)
    requires TailReady(g, d, r, n, blk, c, offset, src)
    ensures Holds(g, d[PBlock(r, Quot(|c|, g.blockSize)) := blk], r, Area(n, g.blockSize), c, offset, src, 0)
  {
    hide PBlock, Area, Quot, BlocksFor, Splice;
    var d' := d[PBlock(r, Quot(|c|, g.blockSize)) := blk];
    forall k: nat | k < Area(n, g.blockSize)
      ensures ByteIs(g, d', r, k, Expect(c, offset, src, 0, k))
    {
      TailByte(g, d, r, n, blk, c, offset, src, k);
    }
  }

  ghost predicate TailReady(g: Geometry, d: Disk, r: Root, n: nat, blk: seq<u8>, c: seq<u8>, offset: nat, src: seq<u8>)
  {
    && Holds(g, d, r, |c|, c, offset, src, 0) && n == BlocksFor(|c|, g.blockSize)
    && var l, at := Quot(|c|, g.blockSize), Rem(|c|, g.blockSize);
    && l < n && (forall m: nat | m < n :: PBlock(r, m) < |d|)
    && (forall m: nat | m < n && m != l :: PBlock(r, m) != PBlock(r, l))
    && blk == Splice(d[PBlock(r, l)], at, Zeros(g.blockSize - at))
  }

  lemma TailByte(g: Geometry, d: Disk, r: Root, n: nat, blk: seq<u8>, c: seq<u8>, offset: nat, src: seq<u8>, k: nat)
    requires TailReady(g, d, r, n, blk, c, offset, src) && k < Area(n, g.blockSize)
    ensures ByteIs(g, d[PBlock(r, Quot(|c|, g.blockSize)) := blk], r, k, Expect(c, offset, src, 0, k))
  {
    hide PBlock, Area, Quot, BlocksFor;
    var bs := g.blockSize;
    var l, at := Quot(|c|, bs), Rem(|c|, bs);
    QuotBound(k, n, bs);
    if k < |c| {
      assert ByteIs(g, d, r, k, Expect(c, offset, src, 0, k));
      if Quot(k, bs) == l {
        assert Rem(k, bs) < at;
      }
    } else {
      TailIsLast(|c|, bs, n, k);
    }
  }

  lemma TailIsLast(size: nat, bs: nat, n: nat, k: nat)
    requires bs > 0 && n == BlocksFor(size, bs) && size <= k < Area(n, bs)
    ensures Quot(k, bs) == Quot(size, bs) && Rem(k, bs) >= Rem(size, bs) && n == Quot(size, bs) + 1
  {
    hide Area, Quot, BlocksFor;
    var q := Quot(size, bs);
    AreaNext(q, bs);
    QuotBound(size, n, bs);
    if n > q + 1 {
      AreaStep(q + 1, n, bs);
    }
    QuotUnique(k, bs, q);
  }

  lemma AreaOrder(i: nat, j: nat, size: nat)
    requires i <= j
    ensures Area(i, size) <= Area(j, size)
  {
    if i < j {
      AreaStep(i, j, size);
    }
  }

  /** The blocks a position falls into, next to the blocks the file has. */
  lemma PositionBlocks(cur: nat, bs: nat, n: nat, pos: nat)
    requires bs > 0 && n == BlocksFor(cur, bs)
    ensures Quot(pos, bs) > n ==> Area(n + 1, bs) <= pos && cur < Area(n + 1, bs)
    ensures Quot(pos, bs) >= n ==> Area(n, bs) <= pos && cur <= pos
    ensures Quot(pos, bs) < n ==> pos < Area(n, bs) && cur > Area(Quot(pos, bs), bs)
    ensures BlocksFor(Area(n + 1, bs), bs) == n + 1
    ensures Area(n + 1, bs) == Area(n, bs) + bs
  {
    hide Area, Quot;
    AreaNext(n, bs);
    QuotBound(pos, n, bs);
    QuotBound(pos, n + 1, bs);
    BlocksForUnique(Area(n + 1, bs), bs, n + 1);
    if Quot(pos, bs) < n {
      AreaNext(Quot(pos, bs), bs);
      AreaOrder(Quot(pos, bs) + 1, n, bs);
    }
  }

  /** How many blocks the file has after a chunk that ends in block l went in. */
  lemma BlocksAfterChunk(cur: nat, bs: nat, n: nat, n': nat, pos: nat, want: nat)
    requires bs > 0 && n == BlocksFor(cur, bs) && 0 < want && Rem(pos, bs) + want <= bs
    requires if Quot(pos, bs) < n then n' == n else n' == n + 1 && Quot(pos, bs) == n
    ensures BlocksFor(if pos + want > cur then pos + want else cur, bs) == n'
  {
    hide Area, Quot;
    var l := Quot(pos, bs);
    AreaNext(l, bs);
    PositionBlocks(cur, bs, n, pos);
    if pos + want > cur {
      if l < n {
        AreaOrder(l + 1, n, bs);
        BlocksForUnique(pos + want, bs, n);
      } else {
        BlocksForUnique(pos + want, bs, n + 1);
      }
    }
  }

  // ---------- the write loop ----------

  function Max(a: nat, b: nat): nat { if a > b then a else b }

  /** What the write loop keeps: `cur` is the end of file reached, `done` the number of bytes stored. */
  ghost predicate WriteInv(g: Geometry, d0: Disk, b0: InodeBytes, d: Disk, b: InodeBytes, c: seq<u8>, offset: nat, src: seq<u8>,
      cur: nat, done: nat)
  {
    && ValidGeometry(g) && done <= |src| && |c| <= cur
    && Grown(g, d0, RootOf(b0), BlocksFor(|c|, g.blockSize), d, RootOf(b), BlocksFor(cur, g.blockSize))
    && ValidLayout(g, Flat(d0)) && MetaUsed(g, Flat(d0))
    && |b| == |b0| && b == Splice(b0, INODE_ROOT, RootOf(b))
    && (if done > 0 then cur == Max(|c|, offset + done)
        else cur == |c| || (cur <= offset && Area(BlocksFor(cur, g.blockSize), g.blockSize) == cur))
    && Holds(g, d, RootOf(b), Known(g.blockSize, cur, BlocksFor(cur, g.blockSize), offset, done), c, offset, src, done)
  }

  /** One block has been claimed and appended behind the n blocks of the file. */
  ghost predicate OneMore(g: Geometry, d0: Disk, r0: Root, n0: nat, d: Disk, r: Root, n: nat, d1: Disk, r1: Root)
  {
    && Grown(g, d0, r0, n0, d1, r1, n + 1)
    && Entries(r) <= INLINE_MAX && Entries(r1) <= INLINE_MAX && |d1| == |d|
    && SameBlocks(r, r1, n)
    && forall m: nat | m < n :: PBlock(r, m) < |d| && d1[PBlock(r, m)] == d[PBlock(r, m)]
  }

  /** Filling one gap block keeps the loop invariant. */
  lemma GapKeepsInv(g: Geometry, d0: Disk, b0: InodeBytes, d: Disk, b: InodeBytes, c: seq<u8>, offset: nat, src: seq<u8>, cur: nat,
      d1: Disk, b1: InodeBytes)
    requires WriteInv(g, d0, b0, d, b, c, offset, src, cur, 0)
    requires var n := BlocksFor(cur, g.blockSize);
      && Quot(offset, g.blockSize) > n
      && OneMore(g, d0, RootOf(b0), BlocksFor(|c|, g.blockSize), d, RootOf(b), n, d1, RootOf(b1))
    requires |b1| == |b0| && b1 == Splice(b, INODE_ROOT, RootOf(b1))
    ensures var n := BlocksFor(cur, g.blockSize);
      && Entries(RootOf(b1)) <= INLINE_MAX && PBlock(RootOf(b1), n) < |d1|
      && WriteInv(g, d0, b0, d1[PBlock(RootOf(b1), n) := Zeros(g.blockSize)], b1, c, offset, src, Area(n + 1, g.blockSize), 0)
  {
    hide Flat, Area, Quot, Grown, PBlock, Rd16, Rd32, Splice, BlocksFor, ValidLayout, MetaUsed;
    var bs := g.blockSize;
    var n := BlocksFor(cur, bs);
    var r, r1 := RootOf(b), RootOf(b1);
    PositionBlocks(cur, bs, n, offset);
    GrownFacts(g, d0, RootOf(b0), BlocksFor(|c|, bs), d1, r1, n + 1);
    GrowWrite(g, d0, RootOf(b0), BlocksFor(|c|, bs), d1, r1, n + 1, n, Zeros(bs));
    var d2 := d1[PBlock(r1, n) := Zeros(bs)];
    GapStep(g, d, r, n, d2, r1, cur, c, offset, src);
    SpliceTwice(b0, INODE_ROOT, r, r1);
  }

  /** Where the write loop zeroes a gap inside the block it is about to fill: up to the chunk, from the end of file `cur` on. */
  function GapFrom(cur: nat, pos: nat, bs: nat): nat
    requires bs > 0
  {
    if pos > cur then (if cur > Area(Quot(pos, bs), bs) then cur - Area(Quot(pos, bs), bs) else 0) else 0
  }

  function GapTo(cur: nat, pos: nat, bs: nat): nat
    requires bs > 0
  {
    if pos > cur then Rem(pos, bs) else 0
  }

  lemma GapInBlock(cur: nat, pos: nat, bs: nat)
    requires bs > 0
    ensures GapFrom(cur, pos, bs) <= GapTo(cur, pos, bs) < bs
  {
    hide Area, Quot;
  }

  /** The chunk at file position pos is at most what is left of src and of the block. */
  ghost predicate ChunkFits(bs: nat, pos: nat, src: seq<u8>, done: nat, want: nat)
  {
    bs > 0 && 0 < want && done + want <= |src| && Rem(pos, bs) + want <= bs
  }

  /** The block image the write loop stores for the chunk at offset + done. */
  ghost function ChunkImage(bs: nat, base: seq<u8>, cur: nat, pos: nat, src: seq<u8>, done: nat, want: nat): (r: seq<u8>)
    requires ChunkFits(bs, pos, src, done, want) && |base| == bs
    ensures |r| == bs
  {
    GapInBlock(cur, pos, bs);
    Chunk(base, GapFrom(cur, pos, bs), GapTo(cur, pos, bs), Rem(pos, bs), src[done..done + want])
  }

  /** Disk block `p` is the file's block at position `pos`. */
  ghost predicate OldBlock(g: Geometry, d: Disk, b: InodeBytes, cur: nat, pos: nat, p: nat)
  {
    && ValidGeometry(g) && ValidDisk(g, d) && Quot(pos, g.blockSize) < BlocksFor(cur, g.blockSize)
    && Entries(RootOf(b)) <= INLINE_MAX && p == PBlock(RootOf(b), Quot(pos, g.blockSize)) && p < |d|
  }

  /** Storing a chunk in a block the file already has keeps the loop invariant. */
  lemma OldChunkKeepsInv(g: Geometry, d0: Disk, b0: InodeBytes, d: Disk, b: InodeBytes, c: seq<u8>, offset: nat, src: seq<u8>,
      cur: nat, done: nat, want: nat, p: nat, blk: seq<u8>)
    requires ChunkFits(g.blockSize, offset + done, src, done, want)
    requires OldBlock(g, d, b, cur, offset + done, p)
    requires blk == ChunkImage(g.blockSize, d[p], cur, offset + done, src, done, want)
    requires WriteInv(g, d0, b0, d, b, c, offset, src, cur, done)
    ensures WriteInv(g, d0, b0, d[p := blk], b, c, offset, src, Max(cur, offset + done + want), done + want)
  {
    hide Flat, Area, Quot, Grown, PBlock, Rd16, Rd32, Splice, BlocksFor, ValidLayout, MetaUsed, Chunk;
    var pos, bs := offset + done, g.blockSize;
    var n, l := BlocksFor(cur, bs), Quot(pos, bs);
    var r := RootOf(b);
    PositionBlocks(cur, bs, n, pos);
    GapInBlock(cur, pos, bs);
    GrownFacts(g, d0, RootOf(b0), BlocksFor(|c|, bs), d, r, n);
    GrowWrite(g, d0, RootOf(b0), BlocksFor(|c|, bs), d, r, n, l, blk);
    BlocksAfterChunk(cur, bs, n, n, pos, want);
    ChunkStep(g, d, r, n, d[PBlock(r, l)], blk, GapFrom(cur, pos, bs), GapTo(cur, pos, bs), cur, c, offset, src, done, want, cur);
  }

  /** Block n has been claimed and appended behind the n blocks of the file, and the write position falls into it. */
  ghost predicate NewBlockReady(g: Geometry, d0: Disk, b0: InodeBytes, d: Disk, b: InodeBytes, c: seq<u8>, cur: nat, pos: nat,
      d1: Disk, b1: InodeBytes, p: nat)
  {
    && ValidGeometry(g) && |b1| == |b0| && b1 == Splice(b, INODE_ROOT, RootOf(b1))
    && Entries(RootOf(b1)) <= INLINE_MAX && p == PBlock(RootOf(b1), BlocksFor(cur, g.blockSize)) && p < |d1|
    && Quot(pos, g.blockSize) == BlocksFor(cur, g.blockSize)
    && OneMore(g, d0, RootOf(b0), BlocksFor(|c|, g.blockSize), d, RootOf(b), BlocksFor(cur, g.blockSize), d1, RootOf(b1))
  }

  /** Storing a chunk in a block newly appended to the file keeps the loop invariant. */
  lemma NewChunkKeepsInv(g: Geometry, d0: Disk, b0: InodeBytes, d: Disk, b: InodeBytes, c: seq<u8>, offset: nat, src: seq<u8>,
      cur: nat, done: nat, d1: Disk, b1: InodeBytes, want: nat, p: nat, blk: seq<u8>)
    requires ChunkFits(g.blockSize, offset + done, src, done, want)
    requires blk == ChunkImage(g.blockSize, Zeros(g.blockSize), cur, offset + done, src, done, want)
    requires NewBlockReady(g, d0, b0, d, b, c, cur, offset + done, d1, b1, p)
    requires WriteInv(g, d0, b0, d, b, c, offset, src, cur, done)
    ensures WriteInv(g, d0, b0, d1[p := blk], b1, c, offset, src, Max(cur, offset + done + want), done + want)
  {
    hide Flat, Area, Quot, Grown, PBlock, Rd16, Rd32, Splice, BlocksFor, ValidLayout, MetaUsed, Chunk;
    var pos, bs := offset + done, g.blockSize;
    var n := BlocksFor(cur, bs);
    var r, r1 := RootOf(b), RootOf(b1);
    PositionBlocks(cur, bs, n, pos);
    GapInBlock(cur, pos, bs);
    GrownFacts(g, d0, RootOf(b0), BlocksFor(|c|, bs), d1, r1, n + 1);
    GrowWrite(g, d0, RootOf(b0), BlocksFor(|c|, bs), d1, r1, n + 1, n, blk);
    BlocksAfterChunk(cur, bs, n, n + 1, pos, want);
    SpliceTwice(b0, INODE_ROOT, r, r1);
    KeptHolds(g, d, r, n, d1, r1, c, offset, src, done);
    ChunkStep(g, d1, r1, n + 1, Zeros(bs), blk, GapFrom(cur, pos, bs), GapTo(cur, pos, bs), cur, c, offset, src, done, want, Area(n, bs));
  }

  lemma KeptHolds(g: Geometry, d: Disk, r: Root, n: nat, d1: Disk, r1: Root, c: seq<u8>, offset: nat, src: seq<u8>, done: nat)
    requires done <= |src| && Holds(g, d, r, Area(n, g.blockSize), c, offset, src, done)
    requires ValidDisk(g, d1) && Entries(r1) <= INLINE_MAX && |d1| == |d| && SameBlocks(r, r1, n)
    requires forall m: nat | m < n :: PBlock(r, m) < |d| && d1[PBlock(r, m)] == d[PBlock(r, m)]
    ensures Holds(g, d1, r1, Area(n, g.blockSize), c, offset, src, done)
  {
    hide Area, Quot, PBlock;
    forall k: nat | k < Area(n, g.blockSize)
      ensures ByteIs(g, d1, r1, k, Expect(c, offset, src, done, k))
    {
      QuotBound(k, n, g.blockSize);
      assert ByteIs(g, d, r, k, Expect(c, offset, src, done, k));
    }
  }

  /** What the loop invariant says about the leaf in the inode buffer. */
  lemma WriteInvLeaf(g: Geometry, d0: Disk, b0: InodeBytes, d: Disk, b: InodeBytes, c: seq<u8>, offset: nat, src: seq<u8>,
      cur: nat, done: nat)
    requires WriteInv(g, d0, b0, d, b, c, offset, src, cur, done)
    ensures var r, n := RootOf(b), BlocksFor(cur, g.blockSize);
      && ValidGeometry(g) && ValidDisk(g, d) && |d| == |d0| && done <= |src| && |b| == |b0|
      && Entries(r) <= INLINE_MAX && Depth(r) == 0 && Magic(r) == EXTENT_MAGIC
      && (forall l: u32 :: Map(r, l) == if l < n then Mapped(PBlock(r, l)) else Hole)
      && (forall l: nat | l < n :: PBlock(r, l) < |d|)
    ensures Grown(g, d0, RootOf(b0), BlocksFor(|c|, g.blockSize), d, RootOf(b), BlocksFor(cur, g.blockSize))
    ensures InodesSame(g, Flat(d0), Flat(d)) && ValidLayout(g, Flat(d0)) && ValidLayout(g, Flat(d)) && MetaUsed(g, Flat(d0))
  {
    hide Flat, Area, Quot, Desc, Used, NotMeta, Map, PBlock, Dense, Grown, InodesSame, ValidLayout, MetaUsed, Splice, Rd16, Rd32, BlocksFor, Holds;
    var r, n := RootOf(b), BlocksFor(cur, g.blockSize);
    GrownFacts(g, d0, RootOf(b0), BlocksFor(|c|, g.blockSize), d, r, n);
    DenseLeaf(g, r, n);
    forall l: u32
      ensures Map(r, l) == if l < n then Mapped(PBlock(r, l)) else Hole
    {
      DenseMap(g, r, n, l);
    }
  }

  /** Before the loop: the file as it is, where no tail needs zeroing. */
  lemma InvAtStart(g: Geometry, d0: Disk, b0: InodeBytes, c: seq<u8>, offset: nat, src: seq<u8>)
    requires ValidDisk(g, d0) && FileOk(g, Flat(d0), b0) && MetaUsed(g, Flat(d0)) && c == Contents(g, d0, b0)
    requires Quot(offset, g.blockSize) > Quot(|c|, g.blockSize) ==> Rem(|c|, g.blockSize) == 0
    ensures WriteInv(g, d0, b0, d0, b0, c, offset, src, |c|, 0)
  {
    hide Flat, Area, Quot, Desc, Used, NotMeta, Map, PBlock, Dense, Grown, InodesSame, ValidLayout, MetaUsed, Rd16, Rd32, BlocksFor, Owns;
    GrownStart(g, d0, b0);
    LastBlock(|c|, g.blockSize);
    ContentsHold(g, d0, b0, c, offset, src);
    assert b0 == Splice(b0, INODE_ROOT, RootOf(b0));
  }

  lemma LastBlock(size: nat, bs: nat)
    requires bs > 0
    ensures Rem(size, bs) == 0 ==> BlocksFor(size, bs) == Quot(size, bs) && Area(BlocksFor(size, bs), bs) == size
    ensures Rem(size, bs) != 0 ==> BlocksFor(size, bs) == Quot(size, bs) + 1
  {
    hide Area, Quot;
    AreaNext(Quot(size, bs), bs);
    if Rem(size, bs) == 0 {
      BlocksForUnique(size, bs, Quot(size, bs));
    } else {
      BlocksForUnique(size, bs, Quot(size, bs) + 1);
    }
  }

  lemma ContentsHold(g: Geometry, d0: Disk, b0: InodeBytes, c: seq<u8>, offset: nat, src: seq<u8>)
    requires ValidDisk(g, d0) && FileOk(g, Flat(d0), b0) && c == Contents(g, d0, b0)
    ensures Entries(RootOf(b0)) <= INLINE_MAX && Holds(g, d0, RootOf(b0), |c|, c, offset, src, 0)
  {
    hide Flat, Area, Quot, Desc, Used, NotMeta, Map, PBlock, ValidLayout, Rd16, Rd32, BlocksFor, Owns;
    forall k: nat | k < |c|
      ensures ByteIs(g, d0, RootOf(b0), k, Expect(c, offset, src, 0, k))
    {
    }
  }

  /** Before the loop: the file once the tail of its last block is zeroed. */
  lemma InvAfterTail(g: Geometry, d0: Disk, b0: InodeBytes, c: seq<u8>, offset: nat, src: seq<u8>, blk: seq<u8>, p: nat)
    requires ValidDisk(g, d0) && FileOk(g, Flat(d0), b0) && MetaUsed(g, Flat(d0)) && c == Contents(g, d0, b0)
    requires OldBlock(g, d0, b0, |c|, |c|, p)
    requires blk == Splice(d0[p], Rem(|c|, g.blockSize), Zeros(g.blockSize - Rem(|c|, g.blockSize)))
    requires Quot(offset, g.blockSize) > Quot(|c|, g.blockSize) && Rem(|c|, g.blockSize) != 0
    ensures WriteInv(g, d0, b0, d0[p := blk], b0, c, offset, src, |c|, 0)
  {
    hide Flat, Area, Quot, Desc, Used, NotMeta, Map, PBlock, Dense, Grown, InodesSame, ValidLayout, MetaUsed, Rd16, Rd32, BlocksFor, Owns;
    var bs := g.blockSize;
    var n := BlocksFor(|c|, bs);
    GrownStart(g, d0, b0);
    GrownFacts(g, d0, RootOf(b0), n, d0, RootOf(b0), n);
    LastBlock(|c|, bs);
    ContentsHold(g, d0, b0, c, offset, src);
    GrowWrite(g, d0, RootOf(b0), n, d0, RootOf(b0), n, Quot(|c|, bs), blk);
    TailStep(g, d0, RootOf(b0), n, blk, c, offset, src);
    assert b0 == Splice(b0, INODE_ROOT, RootOf(b0));
  }
}

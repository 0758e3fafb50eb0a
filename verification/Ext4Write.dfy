/** Writing and reading the bytes of a file, as src/fs_ext4.c does it block by block. */
module Ext4Write {
  import opened Bytes
  import opened Ext4State
  import opened Ext4Layout
  import opened Ext4Extents
  import opened Ext4Alloc
  import opened Ext4Files
  import opened Ext4Growth
  import opened Ext4Data
  import opened Ext4Inodes

  /** A file in good order whose contents are `c`, on a disk where all metadata is marked in use. */
  ghost predicate FileAt(g: Geometry, d: Disk, b: InodeBytes, c: seq<u8>)
  {
    ValidDisk(g, d) && FileOk(g, Flat(d), b) && MetaUsed(g, Flat(d)) && c == Contents(g, d, b)
  }

  lemma TailBlock(g: Geometry, d: Disk, b: InodeBytes, c: seq<u8>)
    requires FileAt(g, d, b, c) && Rem(|c|, g.blockSize) != 0
    ensures |c| == SizeOf(b) && ValidGeometry(g)
    ensures var r, l := RootOf(b), Quot(|c|, g.blockSize);
      && Entries(r) <= INLINE_MAX && Depth(r) == 0 && Magic(r) == EXTENT_MAGIC
      && Map(r, l) == Mapped(PBlock(r, l))
      && OldBlock(g, d, b, |c|, |c|, PBlock(r, l))
  {
    hide Flat, Area, Quot, Desc, Used, NotMeta, Map, PBlock, Grown, InodesSame, ValidLayout, MetaUsed, Rd16, Rd32, BlocksFor, Owns, Dense;
    var n, l := BlocksFor(|c|, g.blockSize), Quot(|c|, g.blockSize);
    LastBlock(|c|, g.blockSize);
    GrownStart(g, d, b);
    GrownFacts(g, d, RootOf(b), n, d, RootOf(b), n);
    DenseLeaf(g, RootOf(b), n);
    DenseMap(g, RootOf(b), n, l);
  }

  /** Zeroes the rest of the last block when the write starts behind it. */
  method ZeroTail(fs: Ext4, size: u32, offset: u32, ghost b0: InodeBytes, ghost c: seq<u8>, ghost src: seq<u8>) returns (rc: int)
    requires fs.Valid() && fs.inodeBuf[..] == b0 && FileAt(fs.geo, fs.disk, b0, c) && size == |c|
    modifies fs`disk, fs.ioBlock, fs.cache
    ensures fs.Valid() && rc <= 0
    ensures rc == 0 ==> WriteInv(fs.geo, old(fs.disk), b0, fs.disk, b0, c, offset, src, |c|, 0)
    ensures rc != 0 ==> fs.disk == old(fs.disk)
    ensures fs.reliable ==> rc == 0
  {
    hide Flat, Area, Quot, Desc, Used, NotMeta, PBlock, Dense, Grown, InodesSame, ValidLayout, MetaUsed, Splice, Rd16, Rd32, BlocksFor, Map, FileOk, WriteInv;
    var bs := fs.geo.blockSize;
    if offset > size && Rem(size, bs) != 0 && Quot(offset, bs) > Quot(size, bs) {
      var tail, tailOff := Quot(size, bs), Rem(size, bs);
      TailBlock(fs.geo, fs.disk, b0, c);
      assert fs.inodeBuf[INODE_ROOT..INODE_ROOT + ROOT_BYTES] == RootOf(b0);
      var p;
      rc, p := ExtentMap(fs.inodeBuf, INODE_ROOT, tail);
      if rc == FS_ERR_NOENT {
        rc := FS_ERR_NOSYS;
        return;
      }
      if rc != 0 {
        return;
      }
      rc := fs.ReadBlock(p, fs.ioBlock);
      if rc != 0 {
        return;
      }
      ghost var d0, base := fs.disk, fs.disk[p];
      SplicePrefix(fs.ioBlock[..], bs, tailOff, Zeros(bs - tailOff));
      ZeroBytes(fs.ioBlock, tailOff, bs);
      rc := fs.WriteBlock(p, fs.ioBlock);
      if rc != 0 {
        return;
      }
      InvAfterTail(fs.geo, d0, b0, c, offset, src, Splice(base, tailOff, Zeros(bs - tailOff)), p);
    } else {
      if Quot(offset, bs) > Quot(size, bs) && offset <= size {
        QuotMonotone(offset, size, bs);
      }
      InvAtStart(fs.geo, fs.disk, b0, c, offset, src);
      rc := 0;
    }
  }

  lemma QuotMonotone(x: nat, y: nat, bs: nat)
    requires bs > 0 && x <= y
    ensures Quot(x, bs) <= Quot(y, bs)
  {
    if Quot(y, bs) < Quot(x, bs) {
      AreaStep(Quot(y, bs), Quot(x, bs), bs);
    }
  }

  /** The code of an append that failed for want of room. */
  ghost predicate RanOutOfRoom(g: Geometry, d: Disk, b: InodeBytes, rc: int)
  {
    rc == FS_ERR_NOSPC && ValidGeometry(g) && ValidLayout(g, Flat(d)) && OutOfRoom(g, Flat(d), RootOf(b))
  }

  /** Claims and zeroes the block behind the file's last one. */
  method FillGap(fs: Ext4, ino: u32, eof: u32, ghost d0: Disk, ghost b0: InodeBytes, ghost c: seq<u8>, offset: u32,
      ghost src: seq<u8>, ghost cur: nat) returns (rc: int)
    requires fs.Valid() && eof < 0xFFFF_FFFF
    requires WriteInv(fs.geo, d0, b0, fs.disk, fs.inodeBuf[..], c, offset, src, cur, 0)
    requires eof == BlocksFor(cur, fs.geo.blockSize) && Quot(offset, fs.geo.blockSize) > eof
    modifies fs`disk, fs.ioBlock, fs.descBuf, fs.cache, fs.inodeBuf
    ensures fs.Valid() && rc <= 0
    ensures rc == 0 ==>
      WriteInv(fs.geo, d0, b0, fs.disk, fs.inodeBuf[..], c, offset, src, Area(eof + 1, fs.geo.blockSize), 0)
    ensures rc != 0 ==> StepKept(fs.geo, d0, old(fs.disk), old(RootOf(fs.inodeBuf[..])), eof, fs.disk)
    ensures fs.reliable && rc != 0 ==> RanOutOfRoom(fs.geo, fs.disk, fs.inodeBuf[..], rc)
  {
    hide Flat, Area, Quot, Desc, Used, Dense, ValidLayout, InodesSame, Rd16, Rd32, Grown, MetaUsed, PBlock, Splice, StepKept, WriteInv, BlocksFor, NotMeta;
    ghost var g, d, b := fs.geo, fs.disk, fs.inodeBuf[..];
    ghost var r0, n0 := RootOf(b0), BlocksFor(|c|, g.blockSize);
    WriteInvLeaf(g, d0, b0, d, b, c, offset, src, cur, 0);
    var p;
    rc, p := AppendBlock(fs, ino, eof, d0, r0, n0);
    if rc != 0 {
      return;
    }
    ghost var d1, b1 := fs.disk, fs.inodeBuf[..];
    assert OneMore(g, d0, r0, n0, d, RootOf(b), eof, d1, RootOf(b1));
    SliceOfSplice(fs.ioBlock[..], 0, Zeros(g.blockSize), 0, 0);
    ZeroBytes(fs.ioBlock, 0, fs.geo.blockSize);
    rc := fs.WriteBlock(p, fs.ioBlock);
    if rc != 0 {
      return;
    }
    GapKeepsInv(g, d0, b0, d, b, c, offset, src, cur, d1, b1);
  }

  /** Stores the chunk at file position offset + done in a block the file already has. */
  method StoreInOld(fs: Ext4, p: u32, offset: u32, src: seq<u8>, cur: u32, done: nat, want: nat, ghost d0: Disk,
      ghost b0: InodeBytes, ghost c: seq<u8>) returns (rc: int)
    requires fs.Valid() && ChunkFits(fs.geo.blockSize, offset + done, src, done, want)
    requires OldBlock(fs.geo, fs.disk, fs.inodeBuf[..], cur, offset + done, p)
    requires WriteInv(fs.geo, d0, b0, fs.disk, fs.inodeBuf[..], c, offset, src, cur, done)
    modifies fs`disk, fs.ioBlock, fs.cache
    ensures fs.Valid() && rc <= 0
    ensures rc == 0 ==>
      WriteInv(fs.geo, d0, b0, fs.disk, fs.inodeBuf[..], c, offset, src, Max(cur, offset + done + want), done + want)
    ensures rc != 0 ==> fs.disk == old(fs.disk)
    ensures fs.reliable ==> rc == 0
  {
    hide Flat, Area, Quot, Used, Grown, PBlock, Splice, WriteInv, BlocksFor, Chunk, ValidLayout;
    var pos, bs := offset + done, fs.geo.blockSize;
    var zlo, zhi := GapFrom(cur, pos, bs), GapTo(cur, pos, bs);
    GapInBlock(cur, pos, bs);
    ghost var d := fs.disk;
    rc := PutChunk(fs, p, false, zlo, zhi, Rem(pos, bs), src, done, want);
    if rc == 0 {
      OldChunkKeepsInv(fs.geo, d0, b0, d, fs.inodeBuf[..], c, offset, src, cur, done, want, p,
        ChunkImage(bs, d[p], cur, pos, src, done, want));
    }
  }

  /** Claims the block behind the file's last one and stores the chunk at file position offset + done there. */
  method StoreInNew(fs: Ext4, ino: u32, l: u32, offset: u32, src: seq<u8>, cur: u32, done: nat, want: nat, ghost d0: Disk,
      ghost b0: InodeBytes, ghost c: seq<u8>) returns (rc: int)
    requires fs.Valid() && ChunkFits(fs.geo.blockSize, offset + done, src, done, want)
    requires l < 0xFFFF_FFFF && l == Quot(offset + done, fs.geo.blockSize) == BlocksFor(cur, fs.geo.blockSize)
    requires WriteInv(fs.geo, d0, b0, fs.disk, fs.inodeBuf[..], c, offset, src, cur, done)
    modifies fs`disk, fs.ioBlock, fs.descBuf, fs.cache, fs.inodeBuf
    ensures fs.Valid() && rc <= 0
    ensures rc == 0 ==>
      WriteInv(fs.geo, d0, b0, fs.disk, fs.inodeBuf[..], c, offset, src, Max(cur, offset + done + want), done + want)
    ensures rc != 0 ==> StepKept(fs.geo, d0, old(fs.disk), old(RootOf(fs.inodeBuf[..])), l, fs.disk)
    ensures fs.reliable && rc != 0 ==> RanOutOfRoom(fs.geo, fs.disk, fs.inodeBuf[..], rc)
  {
    hide Flat, Area, Quot, Desc, Used, Dense, ValidLayout, InodesSame, Rd16, Rd32, Grown, MetaUsed, PBlock, Splice, StepKept, WriteInv, BlocksFor, NotMeta, Chunk;
    ghost var g, d, b := fs.geo, fs.disk, fs.inodeBuf[..];
    ghost var r0, n0 := RootOf(b0), BlocksFor(|c|, g.blockSize);
    WriteInvLeaf(g, d0, b0, d, b, c, offset, src, cur, done);
    var p;
    rc, p := AppendBlock(fs, ino, l, d0, r0, n0);
    if rc != 0 {
      return;
    }
    ghost var d1, b1 := fs.disk, fs.inodeBuf[..];
    assert OneMore(g, d0, r0, n0, d, RootOf(b), l, d1, RootOf(b1));
    var pos, bs := offset + done, fs.geo.blockSize;
    SliceOfSplice(fs.ioBlock[..], 0, Zeros(bs), 0, 0);
    ZeroBytes(fs.ioBlock, 0, bs);
    GapInBlock(cur, pos, bs);
    rc := PutChunk(fs, p, true, GapFrom(cur, pos, bs), GapTo(cur, pos, bs), Rem(pos, bs), src, done, want);
    if rc == 0 {
      NewChunkKeepsInv(g, d0, b0, d, b, c, offset, src, cur, done, d1, b1, want, p,
        ChunkImage(bs, Zeros(bs), cur, pos, src, done, want));
    }
  }

  // ---------- the whole write ----------

  /** The inode buffer starts with the inode's own bytes. */
  predicate Buffers(ib: InodeBytes, b: InodeBytes)
  {
    |ib| <= |b| && b[..|ib|] == ib
  }

  lemma SameFields(ib: InodeBytes, b: InodeBytes)
    requires Buffers(ib, b)
    ensures RootOf(b) == RootOf(ib) && SizeOf(b) == SizeOf(ib) && ModeType(b) == ModeType(ib)
    ensures HasExtents(b) == HasExtents(ib) && SizeReadable(b) == SizeReadable(ib)
  {
    SamePlace(ib, b, 0, 2);
    SamePlace(ib, b, INODE_SIZE_LO, 4);
    SamePlace(ib, b, INODE_FLAGS, 4);
    SamePlace(ib, b, INODE_SIZE_HI, 4);
    SamePlace(ib, b, INODE_ROOT, ROOT_BYTES);
  }

  lemma SamePlace(ib: InodeBytes, b: InodeBytes, p: nat, n: nat)
    requires Buffers(ib, b) && p + n <= 128
    ensures b[p..p + n] == ib[p..p + n]
    ensures forall i :: p <= i < p + n ==> b[i] == ib[i]
  {
    SliceOfSlice(b, 0, |ib|, p, p + n);
    assert b[0..|ib|] == ib;
    forall i | p <= i < p + n
      ensures b[i] == ib[i]
    {
      assert b[i] == b[..|ib|][i];
    }
  }

  /** A file is in the same order, and has the same bytes, whether its inode is taken from the disk or from the buffer. */
  lemma SameFile(g: Geometry, d: Disk, ib: InodeBytes, b: InodeBytes)
    requires Buffers(ib, b) && ValidDisk(g, d)
    ensures FileOk(g, Flat(d), ib) <==> FileOk(g, Flat(d), b)
    ensures FileOk(g, Flat(d), ib) ==> Contents(g, d, ib) == Contents(g, d, b)
  {
    hide Flat, Area, Quot, Owns, Dense, Rd16, Rd32, ValidLayout, PBlock, HasExtents, SizeReadable, SizeOf, RootOf;
    SameFields(ib, b);
  }

  /** A write that did not store everything left every inode as it was: the file holds the stored bytes up to its old size. */
  ghost predicate NotFinished(g: Geometry, d0: Disk, d: Disk, ib: InodeBytes, offset: nat, src: seq<u8>, done: nat)
    requires ValidDisk(g, d0) && FileOk(g, Flat(d0), ib)
  {
    && done <= |src| && ValidDisk(g, d) && InodesSame(g, Flat(d0), Flat(d)) && FileOk(g, Flat(d), ib)
    && SizeOf(ib) <= |Overwrite(Contents(g, d0, ib), offset, src[..done])|
    && Contents(g, d, ib) == Overwrite(Contents(g, d0, ib), offset, src[..done])[..SizeOf(ib)]
    && ForeignKept(g, d0, RootOf(ib), BlocksFor(SizeOf(ib), g.blockSize), d)
    && UsedKept(g, Flat(d0), Flat(d))
  }

  lemma StepFacts(g: Geometry, d0: Disk, d: Disk, r: Root, n: nat, d': Disk, l: nat)
    requires StepKept(g, d0, d, r, n, d') && l < n && PBlock(r, l) < |d| && |d| == |d'|
    ensures OwnedBlock(g, Flat(d'), PBlock(r, l)) && d'[PBlock(r, l)] == d[PBlock(r, l)]
  {
    hide Flat, Area, Quot, Desc, Used, NotMeta, ValidLayout, InodesSame, PBlock;
    InodesSameLayouts(g, Flat(d0), Flat(d'));
    assert OwnedBlock(g, Flat(d'), PBlock(r, l));
    NotMetaSame(g, Flat(d0), Flat(d'), PBlock(r, l));
  }

  lemma StepLayouts(g: Geometry, d0: Disk, d: Disk, r: Root, n: nat, d': Disk)
    requires StepKept(g, d0, d, r, n, d')
    ensures ValidGeometry(g) && ValidDisk(g, d) && ValidDisk(g, d') && |d'| == |d| && Entries(r) <= INLINE_MAX
    ensures ValidLayout(g, Flat(d0)) && ValidLayout(g, Flat(d')) && InodesSame(g, Flat(d0), Flat(d'))
    ensures UsedKept(g, Flat(d0), Flat(d'))
  {
  }

  /** A file grown from d0 by d keeps its old blocks where a step that failed left d'. */
  lemma ShortOwns(g: Geometry, d0: Disk, r0: Root, n0: nat, d: Disk, r: Root, n: nat, d': Disk)
    requires Grown(g, d0, r0, n0, d, r, n) && StepKept(g, d0, d, r, n, d')
    ensures ValidGeometry(g) && ValidLayout(g, Flat(d0)) && ValidLayout(g, Flat(d')) && |d'| == |d0|
    ensures Entries(r0) <= INLINE_MAX && Entries(r) <= INLINE_MAX && n0 <= n && SameBlocks(r0, r, n0)
    ensures Owns(g, Flat(d'), r0, n0) && ForeignKept(g, d0, r0, n0, d')
    ensures UsedKept(g, Flat(d0), Flat(d'))
    ensures forall l: nat | l < n :: PBlock(r, l) < |d| == |d'| && d'[PBlock(r, l)] == d[PBlock(r, l)]
  {
    hide Flat, Area, Quot, Desc, Used, NotMeta, Dense, InodesSame, ValidLayout, PBlock, StepKept, OwnedBlock;
    GrownFacts(g, d0, r0, n0, d, r, n);
    StepLayouts(g, d0, d, r, n, d');
    forall l: nat | l < n
      ensures OwnedBlock(g, Flat(d'), PBlock(r, l)) && d'[PBlock(r, l)] == d[PBlock(r, l)]
    {
      StepFacts(g, d0, d, r, n, d', l);
    }
    forall b: nat | b < |d0| && Foreign(g, Flat(d0), r0, n0, b)
      ensures d'[b] == d0[b]
    {
      ForeignStep(g, d0, r0, n0, d, r, n, d', b);
    }
  }

  lemma ForeignStep(g: Geometry, d0: Disk, r0: Root, n0: nat, d: Disk, r: Root, n: nat, d': Disk, b: nat)
    requires Grown(g, d0, r0, n0, d, r, n) && StepKept(g, d0, d, r, n, d')
    requires ValidLayout(g, Flat(d0)) && |d| == |d0| == |d'| && b < |d0| && Foreign(g, Flat(d0), r0, n0, b)
    ensures d'[b] == d0[b]
  {
    hide Flat, Area, Quot, Desc, Used, NotMeta, Dense, InodesSame, ValidLayout, PBlock, OwnedBlock, SameBlocks, Owns, NewWereFree, UsedGrown;
  }

  /** A failed step leaves the write unfinished, in the sense above. */
  lemma ShortKeeps(g: Geometry, d0: Disk, b0: InodeBytes, d: Disk, b: InodeBytes, c: seq<u8>, offset: nat, src: seq<u8>,
      cur: nat, done: nat, d': Disk)
    requires FileAt(g, d0, b0, c)
    requires WriteInv(g, d0, b0, d, b, c, offset, src, cur, done)
    requires StepKept(g, d0, d, RootOf(b), BlocksFor(cur, g.blockSize), d')
    ensures NotFinished(g, d0, d', b0, offset, src, done)
  {
    hide Flat, Area, Quot, Desc, Used, NotMeta, Dense, InodesSame, ValidLayout, PBlock, StepKept, OwnedBlock, Grown, Owns, ForeignKept, Overwrite, MetaUsed, Splice, Foreign, Rd16, Rd32;
    var r0, r, n0, n := RootOf(b0), RootOf(b), BlocksFor(|c|, g.blockSize), BlocksFor(cur, g.blockSize);
    ShortOwns(g, d0, r0, n0, d, r, n, d');
    StepLayouts(g, d0, d, r, n, d');
    var part := src[..done];
    OverwriteBytes(c, offset, part);
    forall k: nat | k < |c|
      ensures PBlock(r0, Quot(k, g.blockSize)) < |d'| && FileByte(g, d', r0, k) == Overwrite(c, offset, part)[k]
    {
      QuotBound(k, n0, g.blockSize);
      assert ByteIs(g, d, r, k, Expect(c, offset, src, done, k));
    }
  }

  /** The inode as the write loop leaves it in the buffer, with the end of file recorded where it moved. */
  function Sized(b: InodeBytes, moved: bool, cur: u32): (r: InodeBytes)
    ensures |r| == |b|
  {
    if moved then Wr32(Wr32(b, INODE_SIZE_LO, cur), INODE_SIZE_HI, 0) else b
  }

  lemma SizedFields(b: InodeBytes, cur: u32)
    ensures var b2 := Sized(b, true, cur);
      && SizeOf(b2) == cur && Rd32(b2, INODE_SIZE_HI) == 0 && SizeReadable(b2)
      && HasExtents(b2) == HasExtents(b) && RootOf(b2) == RootOf(b)
  {
    var b1 := Wr32(b, INODE_SIZE_LO, cur);
    var b2 := Wr32(b1, INODE_SIZE_HI, 0);
    KeptPlace(b, b1, INODE_SIZE_LO, INODE_ROOT);
    KeptPlace(b1, b2, INODE_SIZE_HI, INODE_ROOT);
    KeptWord(b, b1, INODE_SIZE_LO, INODE_FLAGS);
    KeptWord(b1, b2, INODE_SIZE_HI, INODE_FLAGS);
    KeptWord(b1, b2, INODE_SIZE_HI, INODE_SIZE_LO);
  }

  /** A four-byte store at p leaves the leaf at q alone. */
  lemma KeptPlace(b: InodeBytes, b1: InodeBytes, p: nat, q: nat)
    requires |b1| == |b| && p + 4 <= |b| && q + ROOT_BYTES <= |b| && (q + ROOT_BYTES <= p || p + 4 <= q)
    requires b1[..p] == b[..p] && b1[p + 4..] == b[p + 4..]
    ensures b1[q..q + ROOT_BYTES] == b[q..q + ROOT_BYTES]
  {
    if p + 4 <= q {
      forall i | q <= i < q + ROOT_BYTES
        ensures b1[i] == b[i]
      {
        assert b1[p + 4..][i - p - 4] == b[p + 4..][i - p - 4];
      }
    } else {
      forall i | q <= i < q + ROOT_BYTES
        ensures b1[i] == b[i]
      {
        assert b1[..p][i] == b[..p][i];
      }
    }
  }

  lemma KeptWord(b: InodeBytes, b1: InodeBytes, p: nat, q: nat)
    requires |b1| == |b| && p + 4 <= |b| && q + 4 <= |b| && (q + 4 <= p || p + 4 <= q)
    requires b1[..p] == b[..p] && b1[p + 4..] == b[p + 4..]
    ensures Rd32(b1, q) == Rd32(b, q)
  {
    forall i | q <= i < q + 4
      ensures b1[i] == b[i]
    {
      if p + 4 <= q {
        assert b1[p + 4..][i - p - 4] == b[p + 4..][i - p - 4];
      } else {
        assert b1[..p][i] == b[..p][i];
      }
    }
  }

  /** A new leaf in the buffer changes no other field. */
  lemma LeafFields(b0: InodeBytes, b: InodeBytes)
    requires |b| == |b0| && b == Splice(b0, INODE_ROOT, RootOf(b))
    ensures SizeOf(b) == SizeOf(b0) && HasExtents(b) == HasExtents(b0) && SizeReadable(b) == SizeReadable(b0)
  {
  }

  /** The end of file after all of `src` is stored. */
  lemma EndReached(g: Geometry, d0: Disk, b0: InodeBytes, d: Disk, b: InodeBytes, c: seq<u8>, offset: nat, src: seq<u8>,
      cur: nat)
    requires WriteInv(g, d0, b0, d, b, c, offset, src, cur, |src|) && |src| > 0
    ensures cur == Max(|c|, offset + |src|) == |Overwrite(c, offset, src)|
    ensures Holds(g, d, RootOf(b), cur, c, offset, src, |src|)
    ensures |b| == |b0| && b == Splice(b0, INODE_ROOT, RootOf(b))
  {
    hide Flat, Area, Quot, Grown, MetaUsed, ValidLayout, PBlock, Holds, Splice, Overwrite, Rd16, Rd32;
    OverwriteBytes(c, offset, src);
  }

  /** Storing the inode finishes the write. */
  lemma FinishStored(g: Geometry, d0: Disk, ino: nat, b0: InodeBytes, d: Disk, b: InodeBytes, c: seq<u8>, offset: nat,
      src: seq<u8>, cur: u32, ib: InodeBytes, d': Disk)
    requires FileAt(g, d0, b0, c) && ValidIno(g, ino) && Buffers(Inode(g, Flat(d0), ino), b0)
    requires WriteInv(g, d0, b0, d, b, c, offset, src, cur, |src|) && |src| > 0
    requires cur + g.blockSize < 0x1_0000_0000 && g.inodeSize <= |b|
    requires ib == Sized(b, cur > |c|, cur)[..g.inodeSize]
    requires ValidDisk(g, d') && ValidLayout(g, Flat(d)) && Flat(d') == Splice(Flat(d), InodeAddr(g, Flat(d), ino), ib)
    ensures FileOk(g, Flat(d0), Inode(g, Flat(d0), ino)) && Written(g, d0, d', ino, offset, src)
  {
    hide Flat, Area, Quot, Desc, Used, NotMeta, Dense, InodesSame, ValidLayout, PBlock, Grown, Owns, ForeignKept, Overwrite, MetaUsed, Splice, Foreign, Rd16, Rd32, WriteInv, UsedGrown, Holds, Inode, InodeAddr, SizeOf, RootOf, HasExtents, SizeReadable;
    var ib0 := Inode(g, Flat(d0), ino);
    SameFile(g, d0, ib0, b0);
    SameFields(ib0, b0);
    EndReached(g, d0, b0, d, b, c, offset, src, cur);
    WriteInvLeaf(g, d0, b0, d, b, c, offset, src, cur, |src|);
    LeafFields(b0, b);
    SizedFields(b, cur);
    SameFields(ib, Sized(b, cur > |c|, cur));
    InodeWriteKeeps(g, d, d', ino, ib);
    FinishFile(g, d0, RootOf(b0), BlocksFor(|c|, g.blockSize), d, BlocksFor(cur, g.blockSize), d', ib, c, offset, src);
    OthersKept(g, d0, d, d', ino);
  }

  lemma OthersKept(g: Geometry, d0: Disk, d: Disk, d': Disk, ino: nat)
    requires InodesSame(g, Flat(d0), Flat(d)) && SameOffTables(g, d, d')
    requires ValidLayout(g, Flat(d0)) && ValidLayout(g, Flat(d)) && ValidLayout(g, Flat(d'))
    requires forall j: nat | ValidIno(g, j) && j != ino :: Inode(g, Flat(d'), j) == Inode(g, Flat(d), j)
    ensures SameGdt(g, Flat(d0), Flat(d'))
    ensures forall j: nat | ValidIno(g, j) && j != ino :: Inode(g, Flat(d'), j) == Inode(g, Flat(d0), j)
  {
    hide Flat, Area, Quot, Desc, Used, NotMeta, ValidLayout, Inode;
    forall j: nat | ValidIno(g, j) && j != ino
      ensures Inode(g, Flat(d'), j) == Inode(g, Flat(d0), j)
    {
      InodeSame(g, Flat(d0), Flat(d), j);
    }
  }

  /** Where no block was added and the end of file did not move, the inode on the disk is already right. */
  lemma FinishUnstored(g: Geometry, d0: Disk, ino: nat, b0: InodeBytes, d: Disk, c: seq<u8>, offset: nat, src: seq<u8>,
      cur: u32)
    requires FileAt(g, d0, b0, c) && ValidIno(g, ino) && Buffers(Inode(g, Flat(d0), ino), b0)
    requires WriteInv(g, d0, b0, d, b0, c, offset, src, cur, |src|) && |src| > 0 && cur == |c|
    ensures FileOk(g, Flat(d0), Inode(g, Flat(d0), ino)) && Written(g, d0, d, ino, offset, src)
  {
    hide Flat, Area, Quot, Desc, Used, NotMeta, Dense, InodesSame, ValidLayout, PBlock, Grown, Owns, ForeignKept, Overwrite, MetaUsed, Splice, Foreign, Rd16, Rd32, WriteInv, UsedGrown, Holds, Inode, SizeOf, RootOf, HasExtents, SizeReadable;
    var ib0 := Inode(g, Flat(d0), ino);
    SameFile(g, d0, ib0, b0);
    SameFields(ib0, b0);
    EndReached(g, d0, b0, d, b0, c, offset, src, cur);
    WriteInvLeaf(g, d0, b0, d, b0, c, offset, src, cur, |src|);
    SameOffTablesRefl(g, d);
    InodeSame(g, Flat(d0), Flat(d), ino);
    FinishFile(g, d0, RootOf(b0), BlocksFor(|c|, g.blockSize), d, BlocksFor(cur, g.blockSize), d, ib0, c, offset, src);
    OthersKept(g, d0, d, d, ino);
  }

  /** The inode a write accepts: extents in use and a size of 32 bits. */
  ghost predicate Accepts(g: Geometry, f: seq<u8>, ino: nat)
  {
    && ValidLayout(g, f) && ValidIno(g, ino) && g.inodeSize >= 128
    && HasExtents(Inode(g, f, ino)) && SizeReadable(Inode(g, f, ino))
  }

  /** Where a write accepts the inode, the file is in good order and the 32-bit arithmetic of the write cannot wrap. */
  ghost predicate ReadyToWrite(g: Geometry, d: Disk, ino: nat, offset: nat, n: nat)
  {
    Accepts(g, Flat(d), ino) ==>
      && ValidDisk(g, d) && FileOk(g, Flat(d), Inode(g, Flat(d), ino)) && MetaUsed(g, Flat(d))
      && offset + n + g.blockSize < 0x1_0000_0000
  }

  /** The whole write is on disk, and the size reported is the new one. */
  ghost predicate Finished(g: Geometry, d0: Disk, d: Disk, ino: nat, offset: nat, src: seq<u8>, newSize: nat)
  {
    && ValidDisk(g, d0) && Accepts(g, Flat(d0), ino) && FileOk(g, Flat(d0), Inode(g, Flat(d0), ino))
    && Written(g, d0, d, ino, offset, src)
    && newSize == Max(SizeOf(Inode(g, Flat(d0), ino)), offset + |src|)
  }

  /** Not the whole write is on disk, and no inode changed. */
  ghost predicate CutShort(g: Geometry, d0: Disk, d: Disk, ino: nat, offset: nat, src: seq<u8>, rc: int)
  {
    && ValidDisk(g, d0) && Accepts(g, Flat(d0), ino) && FileOk(g, Flat(d0), Inode(g, Flat(d0), ino))
    && NotFinished(g, d0, d, Inode(g, Flat(d0), ino), offset, src, if rc < 0 then 0 else rc)
  }

  lemma CutShortHere(g: Geometry, d0: Disk, ino: nat, b0: InodeBytes, d: Disk, b: InodeBytes, c: seq<u8>, offset: nat,
      src: seq<u8>, cur: nat, done: nat, d': Disk, rc: int)
    requires FileAt(g, d0, b0, c) && Accepts(g, Flat(d0), ino) && Buffers(Inode(g, Flat(d0), ino), b0)
    requires WriteInv(g, d0, b0, d, b, c, offset, src, cur, done)
    requires StepKept(g, d0, d, RootOf(b), BlocksFor(cur, g.blockSize), d')
    requires done == if rc < 0 then 0 else rc
    ensures CutShort(g, d0, d', ino, offset, src, rc)
  {
    hide Flat, Area, Quot, Desc, Used, Dense, Owns, PBlock, ValidLayout, Rd16, Rd32, WriteInv, StepKept, MetaUsed, Inode, Overwrite, InodesSame, SizeOf, RootOf, HasExtents, SizeReadable;
    var ib := Inode(g, Flat(d0), ino);
    ShortKeeps(g, d0, b0, d, b, c, offset, src, cur, done, d');
    SameFile(g, d0, ib, b0);
    SameFile(g, d', ib, b0);
    SameFields(ib, b0);
  }

  /** Positions and the end of file inside the write loop. */
  lemma LoopFacts(g: Geometry, d0: Disk, b0: InodeBytes, d: Disk, b: InodeBytes, c: seq<u8>, offset: nat, src: seq<u8>,
      cur: nat, done: nat)
    requires WriteInv(g, d0, b0, d, b, c, offset, src, cur, done)
    requires |c| + g.blockSize < 0x1_0000_0000 && offset + |src| + g.blockSize < 0x1_0000_0000
    ensures done <= |src| && |c| <= cur && cur + g.blockSize < 0x1_0000_0000 && BlocksFor(cur, g.blockSize) < 0xFFFF_FFFF
    ensures var n, l := BlocksFor(cur, g.blockSize), Quot(offset + done, g.blockSize);
      && (l >= n ==> cur <= offset + done)
      && (l > n ==> done == 0 && cur < Area(n + 1, g.blockSize) <= offset)
  {
    hide Flat, Area, Quot, Grown, MetaUsed, ValidLayout, PBlock, Holds, Splice, Rd16, Rd32;
    PositionBlocks(cur, g.blockSize, BlocksFor(cur, g.blockSize), offset + done);
  }

  /** The block of a 32-bit position, which is all that the write loop ever appends, ends below 2^32 by far. */
  lemma PositionBlockFits(g: Geometry, pos: u32)
    requires ValidGeometry(g)
    ensures Quot(pos, g.blockSize) < 0x40_0000
  {
    hide Area;
    QuotIsDivision(pos, g.blockSize);
  }

  /** So an append made by the write loop always maps its block. */
  lemma LoopAppendIsMapped(g: Geometry, r: Root, pos: u32, p: u32)
    requires ValidGeometry(g) && Appendable(r, g.blocksCount, Quot(pos, g.blockSize), p)
    ensures Quot(pos, g.blockSize) < 0x40_0000
    ensures Entries(Appended(r, Quot(pos, g.blockSize), p)) <= INLINE_MAX
    ensures Map(Appended(r, Quot(pos, g.blockSize), p), Quot(pos, g.blockSize)) == Mapped(p)
  {
    hide Quot, Map, Appended, Rd16, Rd32, Area;
    PositionBlockFits(g, pos);
    AppendMapsIff(r, g.blocksCount, Quot(pos, g.blockSize), p);
  }

  lemma AcceptedFile(g: Geometry, d: Disk, ino: nat, offset: nat, n: nat, b: InodeBytes)
    requires ValidDisk(g, d) && ReadyToWrite(g, d, ino, offset, n) && Accepts(g, Flat(d), ino) && Buffers(Inode(g, Flat(d), ino), b)
    ensures FileOk(g, Flat(d), b) && FileAt(g, d, b, Contents(g, d, b)) && |Contents(g, d, b)| == SizeOf(b)
    ensures SizeOf(b) + g.blockSize < 0x1_0000_0000 && offset + n + g.blockSize < 0x1_0000_0000
  {
    hide Flat, Area, Quot, Desc, Used, Dense, Owns, PBlock, ValidLayout, Rd16, Rd32, MetaUsed, Inode, HasExtents, SizeReadable, RootOf;
    SameFile(g, d, Inode(g, Flat(d), ino), b);
  }

  /** Before the first byte is stored nothing has changed. */
  lemma NothingDone(g: Geometry, d0: Disk, b0: InodeBytes, offset: nat, src: seq<u8>)
    requires ValidDisk(g, d0) && FileOk(g, Flat(d0), b0)
    ensures NotFinished(g, d0, d0, b0, offset, src, 0)
  {
    hide Flat, Area, Quot, Desc, Used, Dense, Owns, PBlock, ValidLayout, Rd16, Rd32, InodesSame, Overwrite, Grown;
    GrownStart(g, d0, b0);
    var n := BlocksFor(SizeOf(b0), g.blockSize);
    GrownFacts(g, d0, RootOf(b0), n, d0, RootOf(b0), n);
    OverwriteBytes(Contents(g, d0, b0), offset, src[..0]);
  }

  lemma CutShortAtStart(g: Geometry, d0: Disk, ino: nat, offset: nat, src: seq<u8>, rc: int)
    requires ReadyToWrite(g, d0, ino, offset, |src|) && Accepts(g, Flat(d0), ino) && rc < 0
    ensures CutShort(g, d0, d0, ino, offset, src, rc)
  {
    hide Flat, Area, Quot, Desc, Used, Dense, Owns, PBlock, ValidLayout, Rd16, Rd32, Inode, Overwrite, InodesSame, SizeOf, RootOf, HasExtents, SizeReadable, NotFinished;
    NothingDone(g, d0, Inode(g, Flat(d0), ino), offset, src);
  }

  lemma BufferStarts(g: Geometry, f: seq<u8>, ino: nat, before: seq<u8>, b: InodeBytes)
    requires ValidLayout(g, f) && ValidIno(g, ino) && 128 <= g.inodeSize <= |before|
    requires b == Splice(before, 0, Inode(g, f, ino))
    ensures Buffers(Inode(g, f, ino), b)
    ensures Accepts(g, f, ino) <==> HasExtents(b) && SizeReadable(b)
  {
    hide Area, Quot, Inode, ValidLayout, HasExtents, SizeReadable;
    SameFields(Inode(g, f, ino), b);
  }

  /** Where everything is stored but the inode, the call counts as cut short. */
  lemma WrittenPart(g: Geometry, d0: Disk, ino: nat, b0: InodeBytes, d: Disk, b: InodeBytes, c: seq<u8>, offset: nat,
      src: seq<u8>, cur: nat)
    requires FileAt(g, d0, b0, c) && Accepts(g, Flat(d0), ino) && Buffers(Inode(g, Flat(d0), ino), b0)
    requires WriteInv(g, d0, b0, d, b, c, offset, src, cur, |src|)
    ensures CutShort(g, d0, d, ino, offset, src, |src|)
  {
    hide Flat, Area, Quot, Desc, Used, Dense, Owns, PBlock, ValidLayout, Rd16, Rd32, WriteInv, StepKept, MetaUsed, Inode, Overwrite, InodesSame, SizeOf, RootOf, HasExtents, SizeReadable, CutShort, Grown, BlocksFor, Map;
    WriteInvLeaf(g, d0, b0, d, b, c, offset, src, cur, |src|);
    StepKeptByNone(g, d0, RootOf(b0), BlocksFor(|c|, g.blockSize), d, RootOf(b), BlocksFor(cur, g.blockSize));
    CutShortHere(g, d0, ino, b0, d, b, c, offset, src, cur, |src|, d, |src|);
  }

  /** Only a write that does not move the end of file can be on disk with the inode as it was. */
  lemma FinishedOrCutShort(g: Geometry, d0: Disk, d: Disk, ino: nat, offset: nat, src: seq<u8>, newSize: nat, rc: int)
    requires Finished(g, d0, d, ino, offset, src, newSize) && CutShort(g, d0, d, ino, offset, src, rc)
    ensures offset + |src| <= SizeOf(Inode(g, Flat(d0), ino))
  {
    hide Flat, Area, Quot, Desc, Used, Dense, Owns, PBlock, ValidLayout, Rd16, Rd32, MetaUsed, Inode, Overwrite, SizeOf, RootOf, HasExtents, SizeReadable, ForeignKept, UsedGrown, SameBlocks, NewWereFree, TablesSame, SameGdt, FileOk;
    InodeSame(g, Flat(d0), Flat(d), ino);
    OverwriteBytes(Contents(g, d0, Inode(g, Flat(d0), ino)), offset, src);
  }

  lemma EofBlock(cur: nat, bs: nat)
    requires bs > 0
    ensures Quot(cur + bs - 1, bs) == BlocksFor(cur, bs)
  {
  }

  /** Records the end of file in the inode buffer. */
  method StoreSize(fs: Ext4, cur: u32)
    requires fs.Valid()
    modifies fs.inodeBuf
    ensures fs.Valid() && fs.inodeBuf[..] == Sized(old(fs.inodeBuf[..]), true, cur)
  {
    hide Wr32;
    StoreLe32(fs.inodeBuf, INODE_SIZE_LO, cur);
    StoreLe32(fs.inodeBuf, INODE_SIZE_HI, 0);
  }

  /** The end of the write: records a moved end of file, and stores the inode if it changed. */
  method RecordInode(fs: Ext4, ino: u32, size: u32, cur: u32, dirty: bool, ghost d0: Disk, ghost b0: InodeBytes, ghost c: seq<u8>,
      ghost offset: u32, src: seq<u8>) returns (rc: int, newSize: u32)
    requires fs.Valid() && src != [] && ValidDisk(fs.geo, d0) && size == |c|
    requires WriteInv(fs.geo, d0, b0, fs.disk, fs.inodeBuf[..], c, offset, src, cur, |src|)
    requires FileAt(fs.geo, d0, b0, c) && Accepts(fs.geo, Flat(d0), ino) && Buffers(Inode(fs.geo, Flat(d0), ino), b0)
    requires cur + fs.geo.blockSize < 0x1_0000_0000 && (!dirty ==> fs.inodeBuf[..] == b0) && (dirty ==> size < cur)
    modifies fs`disk, fs.ioBlock, fs.descBuf, fs.cache, fs.inodeBuf
    ensures fs.Valid() && rc == |src|
    ensures newSize != 0 ==> Finished(fs.geo, d0, fs.disk, ino, offset, src, newSize)
    ensures newSize == 0 ==> !fs.reliable && size < offset + |src|
    ensures newSize == 0 && InOneBlock(fs.geo, ino) ==> CutShort(fs.geo, d0, fs.disk, ino, offset, src, |src|)
  {
    hide Flat, Area, Quot, Desc, Used, Dense, Owns, PBlock, ValidLayout, Rd16, Rd32, MetaUsed, Inode, HasExtents, SizeReadable, SizeOf, FileOk, WriteInv, Grown, InodesSame, Splice, Map, Sized, BlocksFor, InodeAddr, FileAt, Written;
    newSize := 0;
    rc := |src|;
    ghost var g, d, b := fs.geo, fs.disk, fs.inodeBuf[..];
    WriteInvLeaf(g, d0, b0, d, b, c, offset, src, cur, |src|);
    EndReached(g, d0, b0, d, b, c, offset, src, cur);
    SizeOfContents(g, d0, ino, b0, c);
    if cur > size {
      StoreSize(fs, cur);
    }
    if dirty || cur > size {
      ghost var b2 := fs.inodeBuf[..];
      assert b2 == Sized(b, cur > |c|, cur) by { UnmovedSize(b, cur); }
      var wrc := Ext4Inodes.WriteInode(fs, ino, fs.inodeBuf);
      if wrc != 0 {
        WrittenPart(g, d0, ino, b0, d, b, c, offset, src, cur);
        return;
      }
      FinishStored(g, d0, ino, b0, d, b, c, offset, src, cur, b2[..g.inodeSize], fs.disk);
    } else {
      FinishUnstored(g, d0, ino, b0, d, c, offset, src, cur);
    }
    newSize := cur;
  }

  lemma UnmovedSize(b: InodeBytes, cur: u32)
    ensures Sized(b, false, cur) == b
  {
  }

  lemma SizeOfContents(g: Geometry, d: Disk, ino: nat, b: InodeBytes, c: seq<u8>)
    requires ValidDisk(g, d) && FileAt(g, d, b, c) && Accepts(g, Flat(d), ino) && Buffers(Inode(g, Flat(d), ino), b)
    ensures |c| == SizeOf(Inode(g, Flat(d), ino)) && FileOk(g, Flat(d), Inode(g, Flat(d), ino))
  {
    hide Flat, Area, Quot, Desc, Used, Dense, Owns, PBlock, ValidLayout, Rd16, Rd32, MetaUsed, Inode, HasExtents, SizeReadable, RootOf;
    SameFile(g, d, Inode(g, Flat(d), ino), b);
    SameFields(Inode(g, Flat(d), ino), b);
  }

  /** One round of the write loop: fills one gap block, or stores the next chunk of src in an old or a new block. */
  method WriteChunk(fs: Ext4, ino: u32, offset: u32, src: seq<u8>, cur: u32, done: nat, ghost d0: Disk, ghost b0: InodeBytes,
      ghost c: seq<u8>) returns (rc: int, cur1: u32, done1: nat, grew: bool)
    requires fs.Valid() && done < |src|
    requires WriteInv(fs.geo, d0, b0, fs.disk, fs.inodeBuf[..], c, offset, src, cur, done)
    requires |c| + fs.geo.blockSize < 0x1_0000_0000 && offset + |src| + fs.geo.blockSize < 0x1_0000_0000
    modifies fs`disk, fs.ioBlock, fs.descBuf, fs.cache, fs.inodeBuf
    ensures fs.Valid() && rc <= 0
    ensures rc == 0 ==> WriteInv(fs.geo, d0, b0, fs.disk, fs.inodeBuf[..], c, offset, src, cur1, done1)
    ensures rc == 0 ==> done <= done1 <= |src| && cur <= cur1 && (done < done1 || cur < cur1)
    ensures rc == 0 && !grew ==> fs.inodeBuf[..] == old(fs.inodeBuf[..])
    ensures rc != 0 ==>
      StepKept(fs.geo, d0, old(fs.disk), old(RootOf(fs.inodeBuf[..])), BlocksFor(cur, fs.geo.blockSize), fs.disk)
    ensures fs.reliable && rc != 0 ==>
      RanOutOfRoom(fs.geo, fs.disk, fs.inodeBuf[..], rc) && BlocksFor(cur, fs.geo.blockSize) <= Quot(offset + done, fs.geo.blockSize)
    ensures rc == 0 && grew ==> cur < cur1
  {
    hide Flat, Area, Quot, Desc, Used, Dense, Owns, PBlock, ValidLayout, Rd16, Rd32, MetaUsed, WriteInv, StepKept, Grown, InodesSame, Splice, Map, BlocksFor;
    ghost var g, d, b := fs.geo, fs.disk, fs.inodeBuf[..];
    var bs := fs.geo.blockSize;
    cur1, done1, grew := cur, done, false;
    LoopFacts(g, d0, b0, d, b, c, offset, src, cur, done);
    WriteInvLeaf(g, d0, b0, d, b, c, offset, src, cur, done);
    var pos := offset + done;
    var logical, inBlock := Quot(pos, bs), Rem(pos, bs);
    var want := |src| - done;
    if want > bs - inBlock {
      want := bs - inBlock;
    }
    assert fs.inodeBuf[INODE_ROOT..INODE_ROOT + ROOT_BYTES] == RootOf(b);
    var p;
    rc, p := ExtentMap(fs.inodeBuf, INODE_ROOT, logical);
    if rc == FS_ERR_NOENT {
      var eof := Quot(cur + bs - 1, bs);
      EofBlock(cur, bs);
      if pos < cur || logical != eof {
        if pos < cur || logical < eof {
          rc := FS_ERR_NOSYS;
          return;
        }
        rc := FillGap(fs, ino, eof, d0, b0, c, offset, src, cur);
        cur1, grew := Area(eof + 1, bs), true;
        return;
      }
      rc := StoreInNew(fs, ino, logical, offset, src, cur, done, want, d0, b0, c);
      grew := true;
    } else {
      if rc != 0 {
        return;
      }
      rc := StoreInOld(fs, p, offset, src, cur, done, want, d0, b0, c);
      StepKeptByNone(g, d0, RootOf(b0), BlocksFor(|c|, bs), d, RootOf(b), BlocksFor(cur, bs));
    }
    done1 := done + want;
    if offset + done1 > cur1 {
      cur1 := offset + done1;
    }
  }

  /** What a write on a reliable disk that stored fewer bytes than asked for shows: it needed a block, and none could be appended. */
  ghost predicate FellShort(g: Geometry, d0: Disk, d: Disk, b: InodeBytes, ino: nat, offset: nat, n: nat, rc: int)
    requires ValidLayout(g, Flat(d0)) && ValidIno(g, ino) && g.inodeSize >= 128 && g.blockSize > 0
  {
    && ValidGeometry(g) && ValidLayout(g, Flat(d)) && OutOfRoom(g, Flat(d), RootOf(b))
    && Area(BlocksFor(SizeOf(Inode(g, Flat(d0), ino)), g.blockSize), g.blockSize) < offset + n
    && (rc > 0 || rc == FS_ERR_NOSPC)
  }

  /** A position past the blocks the file has now is past the blocks it had. */
  lemma PastOwnBlocks(g: Geometry, d0: Disk, b0: InodeBytes, d: Disk, b: InodeBytes, c: seq<u8>, offset: nat, src: seq<u8>,
      cur: nat, done: nat)
    requires WriteInv(g, d0, b0, d, b, c, offset, src, cur, done) && done < |src|
    requires BlocksFor(cur, g.blockSize) <= Quot(offset + done, g.blockSize)
    ensures Area(BlocksFor(|c|, g.blockSize), g.blockSize) < offset + |src|
  {
    hide Flat, Quot, MetaUsed, ValidLayout, PBlock, Holds, Splice, Rd16, Rd32, BlocksFor, InodesSame, Dense, Owns;
    AreaOrder(BlocksFor(|c|, g.blockSize), Quot(offset + done, g.blockSize), g.blockSize);
  }

  /** Writes `src` into file `ino` at `offset`.
      A call that reports a new size made the contents the old ones, padded with zeros and overwritten; one that
      stored fewer bytes than asked for changed no inode, and on a reliable disk it ran out of room. */
  method WriteData(fs: Ext4, ino: u32, offset: u32, src: seq<u8>) returns (rc: int, newSize: u32)
    requires fs.Valid() && ValidLayout(fs.geo, Flat(fs.disk)) && |src| < 0x8000_0000
    requires ReadyToWrite(fs.geo, fs.disk, ino, offset, |src|)
    modifies fs`disk, fs.ioBlock, fs.descBuf, fs.cache, fs.inodeBuf
    ensures fs.Valid() && rc <= |src|
    ensures src == [] ==> rc == 0 && fs.disk == old(fs.disk)
    ensures src != [] && !Accepts(fs.geo, old(Flat(fs.disk)), ino) ==> rc < 0 && fs.disk == old(fs.disk)
    ensures newSize != 0 ==>
      src != [] && rc == |src| && Finished(fs.geo, old(fs.disk), fs.disk, ino, offset, src, newSize)
    ensures src != [] && Accepts(fs.geo, old(Flat(fs.disk)), ino) && rc != |src| ==>
      CutShort(fs.geo, old(fs.disk), fs.disk, ino, offset, src, rc)
    ensures src != [] && rc == |src| && newSize == 0 ==>
      && !fs.reliable && Accepts(fs.geo, old(Flat(fs.disk)), ino) && SizeOf(Inode(fs.geo, old(Flat(fs.disk)), ino)) < offset + |src|
      && (InOneBlock(fs.geo, ino) ==> CutShort(fs.geo, old(fs.disk), fs.disk, ino, offset, src, rc))
    ensures src != [] && Accepts(fs.geo, old(Flat(fs.disk)), ino) && fs.reliable && rc != |src| ==>
      FellShort(fs.geo, old(fs.disk), fs.disk, fs.inodeBuf[..], ino, offset, |src|, rc)
  {
    hide Flat, Area, Quot, Desc, Used, Dense, Owns, PBlock, ValidLayout, Rd16, Rd32, MetaUsed, Inode, HasExtents, SizeReadable, SizeOf, FileAt, FileOk, ReadyToWrite, Finished, CutShort, WriteInv, StepKept, Grown, InodesSame, Splice, Map, Sized, BlocksFor;
    newSize := 0;
    if |src| == 0 {
      return 0, 0;
    }
    var bs := fs.geo.blockSize;
    ghost var g, d0, before := fs.geo, fs.disk, fs.inodeBuf[..];
    rc := Ext4Inodes.ReadInode(fs, ino, fs.inodeBuf);
    if rc != 0 {
      if Accepts(g, Flat(d0), ino) {
        CutShortAtStart(g, d0, ino, offset, src, FS_ERR_IO);
      }
      return FS_ERR_IO, 0;
    }
    ghost var b0 := fs.inodeBuf[..];
    BufferStarts(g, Flat(d0), ino, before, b0);
    if !HasExtents(fs.inodeBuf[..]) {
      return FS_ERR_NOSYS, 0;
    }
    if !SizeReadable(fs.inodeBuf[..]) {
      return FS_ERR_NOSYS, 0;
    }
    var size := SizeOf(fs.inodeBuf[..]);
    AcceptedFile(g, d0, ino, offset, |src|, b0);
    ghost var c := Contents(g, d0, b0);
    rc := ZeroTail(fs, size, offset, b0, c, src);
    if rc != 0 {
      CutShortAtStart(g, d0, ino, offset, src, rc);
      return;
    }
    SizeOfContents(g, d0, ino, b0, c);
    var cur: u32, done: nat, dirty := size, 0, false;
    while done < |src|
      invariant fs.Valid() && newSize == 0
      invariant WriteInv(g, d0, b0, fs.disk, fs.inodeBuf[..], c, offset, src, cur, done)
      invariant done <= |src|
      invariant size <= cur && (!dirty ==> fs.inodeBuf[..] == b0) && (dirty ==> size < cur)
      decreases |src| - done, 0x1_0000_0000 - cur
    {
      ghost var d, b := fs.disk, fs.inodeBuf[..];
      var err, cur1, done1, grew := WriteChunk(fs, ino, offset, src, cur, done, d0, b0, c);
      if err != 0 {
        rc := if done != 0 then done else err;
        CutShortHere(g, d0, ino, b0, d, b, c, offset, src, cur, done, fs.disk, rc);
        if fs.reliable {
          PastOwnBlocks(g, d0, b0, d, b, c, offset, src, cur, done);
        }
        return;
      }
      cur, done, dirty := cur1, done1, dirty || grew;
    }
    LoopFacts(g, d0, b0, fs.disk, fs.inodeBuf[..], c, offset, src, cur, done);
    rc, newSize := RecordInode(fs, ino, size, cur, dirty, d0, b0, c, offset, src);
  }
}

/** Files: which blocks a file owns, what its bytes are, and how that changes while a write grows it. */
module Ext4Files {
  import opened Bytes
  import opened Ext4State
  import opened Ext4Layout
  import opened Ext4Extents
  import opened Ext4Alloc

  const INODE_SIZE_LO: nat := 0x04
  const INODE_FLAGS: nat := 0x20
  const INODE_ROOT: nat := 0x28
  const INODE_SIZE_HI: nat := 0x6C

  type InodeBytes = s: seq<u8> | |s| >= 128 witness Zeros(128)

  function RootOf(ib: InodeBytes): Root { ib[INODE_ROOT..INODE_ROOT + ROOT_BYTES] }
  function SizeOf(ib: InodeBytes): u32 { Rd32(ib, INODE_SIZE_LO) }
  function ModeType(ib: InodeBytes): nat { Rd16(ib, 0) / 0x1000 }
  /** The extents flag, bit 19 of the inode flags. */
  predicate HasExtents(ib: InodeBytes) { Rd32(ib, INODE_FLAGS) / 0x8_0000 % 2 == 1 }
  /** A regular file whose size needs more than 32 bits is refused. */
  predicate SizeReadable(ib: InodeBytes) { ModeType(ib) == 8 ==> Rd32(ib, INODE_SIZE_HI) == 0 }

  /** The physical block of logical block `l`. */
  function PBlock(r: Root, l: nat): nat
    requires Entries(r) <= INLINE_MAX
  {
    if l < 0x1_0000_0000 && Map(r, l).Mapped? then Map(r, l).pblock else 0
  }

  /** The leaf maps exactly logical blocks 0 to n - 1. */
  ghost predicate Dense(g: Geometry, r: Root, n: nat)
  {
    ValidLeaf(r, g.blocksCount) && First(r) == 0 && End(r) == n
  }

  lemma DenseMap(g: Geometry, r: Root, n: nat, l: u32)
    requires Dense(g, r, n)
    ensures Map(r, l) == if l < n then Mapped(PBlock(r, l)) else Hole
    ensures PBlock(r, l) < g.blocksCount || PBlock(r, l) == 0
  {
    hide Rd16, Rd32;
    MapSpan(r, g.blocksCount, 0, l);
  }

  /** Block `b` overlaps neither the descriptor table nor an inode table nor a block bitmap. */
  ghost predicate NotMeta(g: Geometry, f: seq<u8>, b: nat)
    requires GdtOnDisk(g, f)
  {
    && Disjoint(Area(b, g.blockSize), g.blockSize, GdtAddr(g), GdtLen(g))
    && forall grp: nat | grp < g.groupCount :: NotMetaOf(g, f, b, grp)
  }

  ghost predicate NotMetaOf(g: Geometry, f: seq<u8>, b: nat, grp: nat)
    requires GdtOnDisk(g, f) && grp < g.groupCount
  {
    && Disjoint(Area(b, g.blockSize), g.blockSize, TableAddr(g, f, grp), TableLen(g))
    && Disjoint(Area(b, g.blockSize), g.blockSize, BitmapAddr(g, f, grp), g.blockSize)
  }

  /** Every block that holds metadata is marked in use. */
  ghost predicate MetaUsed(g: Geometry, f: seq<u8>)
    requires ValidGeometry(g) && ValidLayout(g, f)
  {
    forall b: nat | InData(g, b) :: NotMeta(g, f, b) || Used(g, f, b)
  }

  /** The first n blocks of the file are different data blocks marked in use. */
  ghost predicate Owns(g: Geometry, f: seq<u8>, r: Root, n: nat)
    requires ValidGeometry(g) && ValidLayout(g, f) && Entries(r) <= INLINE_MAX
  {
    && (forall l: nat | l < n :: OwnedBlock(g, f, PBlock(r, l)))
    && (forall l1: nat, l2: nat | l1 < l2 < n :: PBlock(r, l1) != PBlock(r, l2))
  }

  ghost predicate OwnedBlock(g: Geometry, f: seq<u8>, p: nat)
    requires ValidGeometry(g) && ValidLayout(g, f)
  {
    InData(g, p) && Used(g, f, p) && NotMeta(g, f, p)
  }

  /** How many blocks `size` bytes take. */
  function BlocksFor(size: nat, bs: nat): (n: nat)
    requires bs > 0
    ensures size <= Area(n, bs) < size + bs
  {
    Quot(size + bs - 1, bs)
  }

  lemma BlocksForUnique(size: nat, bs: nat, n: nat)
    requires bs > 0 && size <= Area(n, bs) < size + bs
    ensures BlocksFor(size, bs) == n
  {
    QuotUnique(size + bs - 1, bs, n);
  }

  /** A file in good order: its inline extents cover exactly the blocks its size needs, all of them its own. */
  ghost predicate FileOk(g: Geometry, f: seq<u8>, ib: InodeBytes)
  {
    && ValidGeometry(g) && ValidLayout(g, f)
    && HasExtents(ib) && SizeReadable(ib)
    && SizeOf(ib) + g.blockSize < 0x1_0000_0000
    && Dense(g, RootOf(ib), BlocksFor(SizeOf(ib), g.blockSize))
    && Owns(g, f, RootOf(ib), BlocksFor(SizeOf(ib), g.blockSize))
  }

  /** Byte `k` of the file whose leaf is `r`. */
  ghost function FileByte(g: Geometry, d: Disk, r: Root, k: nat): u8
    requires ValidGeometry(g) && ValidDisk(g, d) && Entries(r) <= INLINE_MAX
    requires PBlock(r, Quot(k, g.blockSize)) < |d|
  {
    d[PBlock(r, Quot(k, g.blockSize))][Rem(k, g.blockSize)]
  }

  lemma OwnsInDisk(g: Geometry, f: seq<u8>, r: Root, n: nat, k: nat)
    requires ValidGeometry(g) && ValidLayout(g, f) && Entries(r) <= INLINE_MAX && Owns(g, f, r, n)
    requires k < Area(n, g.blockSize)
    ensures Quot(k, g.blockSize) < n && InData(g, PBlock(r, Quot(k, g.blockSize)))
  {
    hide Used, NotMeta, PBlock, ValidLayout;
    if n < Quot(k, g.blockSize) {
      AreaStep(n, Quot(k, g.blockSize), g.blockSize);
    }
    assert OwnedBlock(g, f, PBlock(r, Quot(k, g.blockSize)));
  }

  /** The bytes of a file in good order. */
  ghost function Contents(g: Geometry, d: Disk, ib: InodeBytes): (c: seq<u8>)
    requires ValidDisk(g, d) && FileOk(g, Flat(d), ib)
    ensures |c| == SizeOf(ib)
    ensures forall k :: 0 <= k < |c| ==>
      PBlock(RootOf(ib), Quot(k, g.blockSize)) < |d| && c[k] == FileByte(g, d, RootOf(ib), k)
  {
    ContentsInDisk(g, d, ib);
    seq(SizeOf(ib), k requires 0 <= k < SizeOf(ib) => FileByte(g, d, RootOf(ib), k))
  }

  lemma ContentsInDisk(g: Geometry, d: Disk, ib: InodeBytes)
    requires ValidDisk(g, d) && FileOk(g, Flat(d), ib)
    ensures forall k: nat | k < SizeOf(ib) :: PBlock(RootOf(ib), Quot(k, g.blockSize)) < |d|
  {
    forall k: nat | k < SizeOf(ib)
      ensures PBlock(RootOf(ib), Quot(k, g.blockSize)) < |d|
    {
      OwnsInDisk(g, Flat(d), RootOf(ib), BlocksFor(SizeOf(ib), g.blockSize), k);
    }
  }

  /** Inode tables as they were. */
  ghost predicate TablesSame(g: Geometry, f0: seq<u8>, f: seq<u8>)
    requires GdtOnDisk(g, f0) && |f| == |f0|
  {
    forall grp: nat | grp < g.groupCount :: TableSame(g, f0, f, grp)
  }

  ghost predicate TableSame(g: Geometry, f0: seq<u8>, f: seq<u8>, grp: nat)
    requires GdtOnDisk(g, f0) && |f| == |f0| && grp < g.groupCount
  {
    var t := TableAddr(g, f0, grp);
    t + TableLen(g) <= |f0| && f[t..t + TableLen(g)] == f0[t..t + TableLen(g)]
  }

  /** No descriptor and no inode differs. */
  ghost predicate InodesSame(g: Geometry, f0: seq<u8>, f: seq<u8>)
  {
    && ValidLayout(g, f0) && ValidLayout(g, f)
    && SameGdt(g, f0, f) && TablesSame(g, f0, f)
  }

  lemma InodeSame(g: Geometry, f0: seq<u8>, f: seq<u8>, j: nat)
    requires InodesSame(g, f0, f) && ValidIno(g, j)
    ensures Inode(g, f, j) == Inode(g, f0, j) && InodeAddr(g, f, j) == InodeAddr(g, f0, j)
  {
    hide Quot, Area, ValidLayout;
    SameDescs(g, f0, f);
    var grp := GroupOf(g, j);
    assert TableSame(g, f0, f, grp);
    var t, o := TableAddr(g, f0, grp), InodeOffset(g, j);
    SliceOfSlice(f0, t, t + TableLen(g), o, o + g.inodeSize);
    SliceOfSlice(f, t, t + TableLen(g), o, o + g.inodeSize);
  }

  // ---------- growing ----------

  /** A block in use at the start, of no metadata and not the file's own. */
  ghost predicate Foreign(g: Geometry, f0: seq<u8>, r0: Root, n0: nat, b: nat)
    requires ValidGeometry(g) && ValidLayout(g, f0) && Entries(r0) <= INLINE_MAX
  {
    && (InData(g, b) ==> Used(g, f0, b))
    && NotMeta(g, f0, b)
    && forall l: nat | l < n0 :: PBlock(r0, l) != b
  }

  /** Block `p` is one of the file's blocks n0 to n - 1. */
  ghost predicate NewBlock(r: Root, n0: nat, n: nat, p: nat)
    requires Entries(r) <= INLINE_MAX
  {
    exists l: nat :: n0 <= l < n && PBlock(r, l) == p
  }

  /** Exactly the new blocks are marked in addition. */
  ghost predicate UsedGrown(g: Geometry, f0: seq<u8>, f: seq<u8>, r: Root, n0: nat, n: nat)
    requires ValidGeometry(g) && ValidLayout(g, f0) && ValidLayout(g, f) && Entries(r) <= INLINE_MAX
  {
    forall b: nat | InData(g, b) :: Used(g, f, b) <==> Used(g, f0, b) || NewBlock(r, n0, n, b)
  }

  /** No block in use became free. */
  ghost predicate UsedKept(g: Geometry, f0: seq<u8>, f: seq<u8>)
    requires ValidGeometry(g) && ValidLayout(g, f0) && ValidLayout(g, f)
  {
    forall b: nat | InData(g, b) && Used(g, f0, b) :: Used(g, f, b)
  }

  /** The new blocks were free at the start. */
  ghost predicate NewWereFree(g: Geometry, f0: seq<u8>, r: Root, n0: nat, n: nat)
    requires ValidGeometry(g) && ValidLayout(g, f0) && Entries(r) <= INLINE_MAX
  {
    forall l: nat | n0 <= l < n :: FreeBlock(g, f0, PBlock(r, l))
  }

  ghost predicate FreeBlock(g: Geometry, f: seq<u8>, p: nat)
    requires ValidGeometry(g) && ValidLayout(g, f)
  {
    InData(g, p) && !Used(g, f, p)
  }

  ghost predicate ForeignKept(g: Geometry, d0: Disk, r0: Root, n0: nat, d: Disk)
    requires ValidGeometry(g) && ValidLayout(g, Flat(d0)) && Entries(r0) <= INLINE_MAX && |d| == |d0|
  {
    forall b: nat | b < |d| && Foreign(g, Flat(d0), r0, n0, b) :: d[b] == d0[b]
  }

  ghost predicate SameBlocks(r0: Root, r: Root, n0: nat)
    requires Entries(r0) <= INLINE_MAX && Entries(r) <= INLINE_MAX
  {
    forall l: nat | l < n0 :: PBlock(r, l) == PBlock(r0, l)
  }

  /** Disk d and leaf r of n blocks have grown from d0 and r0 of n0 blocks: only own and formerly free blocks were touched. */
  ghost predicate Grown(g: Geometry, d0: Disk, r0: Root, n0: nat, d: Disk, r: Root, n: nat)
  {
    && ValidGeometry(g) && ValidDisk(g, d0) && ValidDisk(g, d)
    && InodesSame(g, Flat(d0), Flat(d))
    && Entries(r0) <= INLINE_MAX && Dense(g, r, n) && n0 <= n
    && SameBlocks(r0, r, n0)
    && Owns(g, Flat(d), r, n)
    && NewWereFree(g, Flat(d0), r, n0, n)
    && UsedGrown(g, Flat(d0), Flat(d), r, n0, n)
    && ForeignKept(g, d0, r0, n0, d)
  }

  lemma NotMetaSame(g: Geometry, f0: seq<u8>, f: seq<u8>, b: nat)
    requires SameGdt(g, f0, f)
    ensures NotMeta(g, f0, b) <==> NotMeta(g, f, b)
  {
    hide Area, Desc;
    SameDescs(g, f0, f);
    if NotMeta(g, f0, b) {
      forall grp: nat | grp < g.groupCount
        ensures NotMetaOf(g, f, b, grp)
      {
        assert NotMetaOf(g, f0, b, grp);
      }
    }
    if NotMeta(g, f, b) {
      forall grp: nat | grp < g.groupCount
        ensures NotMetaOf(g, f0, b, grp)
      {
        assert NotMetaOf(g, f, b, grp);
      }
    }
  }

  /** Replacing a data block changes no descriptor, no inode and no in-use bit. */
  lemma DataWriteKeepsMeta(g: Geometry, d: Disk, p: nat, blk: seq<u8>)
    requires ValidGeometry(g) && ValidDisk(g, d) && ValidLayout(g, Flat(d))
    requires p < |d| && |blk| == g.blockSize && NotMeta(g, Flat(d), p)
    ensures ValidDisk(g, d[p := blk])
    ensures InodesSame(g, Flat(d), Flat(d[p := blk]))
    ensures forall b: nat | InData(g, b) :: Used(g, Flat(d), b) <==> Used(g, Flat(d[p := blk]), b)
  {
    hide Flat, Area, Quot, Desc;
    var f, f' := Flat(d), Flat(d[p := blk]);
    FlatUpdate(d, g.blockSize, p, blk);
    SpliceKeepsLayout(g, f, Area(p, g.blockSize), blk);
    forall grp: nat | grp < g.groupCount
      ensures TableSame(g, f, f', grp)
    {
      assert NotMetaOf(g, f, p, grp);
      assert ValidGroup(g, f, grp);
      SliceOfSplice(f, Area(p, g.blockSize), blk, TableAddr(g, f, grp), TableAddr(g, f, grp) + TableLen(g));
    }
    forall b: nat | InData(g, b)
      ensures Used(g, f, b) <==> Used(g, f', b)
    {
      BlockInGroup(g, b);
      assert NotMetaOf(g, f, p, GroupOfBlock(g, b));
      assert ValidGroup(g, f, GroupOfBlock(g, b));
    }
  }

  /** Marking a block changes no descriptor and no inode. */
  lemma MarkKeepsInodes(g: Geometry, f: seq<u8>, f': seq<u8>, p: nat)
    requires Claimed(g, f, f', p)
    ensures InodesSame(g, f, f')
  {
    hide Area, Quot, Desc, MarkUsed, Used;
    BlockInGroup(g, p);
    MarkUsedMarksOne(g, f, p, p);
    var gp := GroupOfBlock(g, p);
    forall grp: nat | grp < g.groupCount
      ensures TableSame(g, f, f', grp)
    {
      assert ValidGroup(g, f, grp) && GroupsApart(g, f, gp, grp);
      MarkUsedFrame(g, f, p, TableAddr(g, f, grp), TableAddr(g, f, grp) + TableLen(g));
    }
  }

  /** Marking a block changes no data block. */
  lemma MarkKeepsBlock(g: Geometry, d: Disk, d': Disk, p: nat, b: nat)
    requires ValidGeometry(g) && ValidDisk(g, d) && ValidDisk(g, d') && Claimed(g, Flat(d), Flat(d'), p)
    requires b < |d| && NotMeta(g, Flat(d), b)
    ensures d'[b] == d[b]
  {
    hide Flat, Area, Quot, Desc, MarkUsed, Used;
    BlockInGroup(g, p);
    assert NotMetaOf(g, Flat(d), b, GroupOfBlock(g, p));
    FlatBlock(d, g.blockSize, b);
    FlatBlock(d', g.blockSize, b);
    MarkUsedFrame(g, Flat(d), p, Area(b, g.blockSize), Area(b, g.blockSize) + g.blockSize);
  }

  /** Marking a block changes no descriptor, no inode and no data block. */
  lemma MarkKeepsData(g: Geometry, d: Disk, d': Disk, p: nat)
    requires ValidGeometry(g) && ValidDisk(g, d) && ValidDisk(g, d') && Claimed(g, Flat(d), Flat(d'), p)
    ensures InodesSame(g, Flat(d), Flat(d')) && ValidLayout(g, Flat(d'))
    ensures forall b: nat | InData(g, b) :: Used(g, Flat(d'), b) <==> Used(g, Flat(d), b) || b == p
    ensures forall b: nat | b < |d| && NotMeta(g, Flat(d), b) :: d'[b] == d[b]
  {
    hide Flat, Area, Quot, Desc, MarkUsed, Used, ValidLayout, NotMeta;
    MarkKeepsInodes(g, Flat(d), Flat(d'), p);
    forall b: nat | InData(g, b)
      ensures Used(g, Flat(d'), b) <==> Used(g, Flat(d), b) || b == p
    {
      MarkUsedMarksOne(g, Flat(d), p, b);
    }
    forall b: nat | b < |d| && NotMeta(g, Flat(d), b)
      ensures d'[b] == d[b]
    {
      MarkKeepsBlock(g, d, d', p, b);
    }
  }
}

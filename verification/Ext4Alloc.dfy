/** The block bitmaps: which blocks are in use, and allocation of one more. */
module Ext4Alloc {
  import opened Bytes
  import opened Ext4State
  import opened Ext4Layout
  import Ext4Inodes

  /** Bit `k` of the bitmap block at flat address `a`. */
  ghost predicate BitmapBit(f: seq<u8>, a: nat, k: nat)
    requires a + k / 8 < |f|
  {
    Bit(f[a + k / 8], k % 8)
  }

  ghost predicate InData(g: Geometry, b: nat)
  {
    g.blocksPerGroup > 0 && g.firstDataBlock <= b < g.blocksCount
  }

  ghost function GroupOfBlock(g: Geometry, b: nat): nat
    requires InData(g, b)
  {
    Quot(b - g.firstDataBlock, g.blocksPerGroup)
  }

  ghost function BitOfBlock(g: Geometry, b: nat): nat
    requires InData(g, b)
  {
    Rem(b - g.firstDataBlock, g.blocksPerGroup)
  }

  lemma BlockInGroup(g: Geometry, b: nat)
    requires ValidGeometry(g) && InData(g, b)
    ensures GroupOfBlock(g, b) < g.groupCount
    ensures b == g.firstDataBlock + Area(GroupOfBlock(g, b), g.blocksPerGroup) + BitOfBlock(g, b)
  {
    var q := GroupOfBlock(g, b);
    if g.groupCount < q {
      AreaStep(g.groupCount, q, g.blocksPerGroup);
    }
  }

  /** A block is in use when its bitmap bit is set; blocks past the end of a bitmap block have no bit and are never free. */
  ghost predicate Used(g: Geometry, f: seq<u8>, b: nat)
    requires ValidGeometry(g) && ValidLayout(g, f) && InData(g, b)
  {
    BlockInGroup(g, b);
    assert ValidGroup(g, f, GroupOfBlock(g, b));
    BitOfBlock(g, b) / 8 < g.blockSize ==> BitmapBit(f, BitmapAddr(g, f, GroupOfBlock(g, b)), BitOfBlock(g, b))
  }

  /** The disk after the bitmap bit of block `b` was set. */
  ghost function MarkUsed(g: Geometry, f: seq<u8>, b: nat): (r: seq<u8>)
    requires ValidGeometry(g) && ValidLayout(g, f) && InData(g, b) && BitOfBlock(g, b) / 8 < g.blockSize
    ensures |r| == |f|
  {
    BlockInGroup(g, b);
    assert ValidGroup(g, f, GroupOfBlock(g, b));
    var a, k := BitmapAddr(g, f, GroupOfBlock(g, b)), BitOfBlock(g, b);
    SetBitRange8(f[a + k / 8], k % 8);
    Splice(f, a + k / 8, [SetBit(f[a + k / 8], k % 8)])
  }

  lemma SetBitRange8(x: u8, k: nat)
    requires k < 8
    ensures SetBit(x, k) < 0x100
  {
    assert Pow2(8) == 256 by {
      assert Pow2(1) == 2 && Pow2(2) == 4 && Pow2(3) == 8 && Pow2(4) == 16;
      assert Pow2(5) == 32 && Pow2(6) == 64 && Pow2(7) == 128;
    }
    SetBitRange(x, k, 8);
  }

  /** Marking a block changes the in-use status of that block alone, and no layout. */
  lemma MarkUsedMarksOne(g: Geometry, f: seq<u8>, p: nat, b: nat)
    requires ValidGeometry(g) && ValidLayout(g, f) && InData(g, p) && InData(g, b)
    requires BitOfBlock(g, p) / 8 < g.blockSize
    ensures var f' := MarkUsed(g, f, p);
      && SameGdt(g, f, f') && ValidLayout(g, f')
      && (forall grp: nat | grp < g.groupCount :: Desc(g, f, grp) == Desc(g, f', grp))
      && (Used(g, f', b) <==> Used(g, f, b) || b == p)
  {
    hide Area, Quot, Desc, Bit, SetBit;
    BlockInGroup(g, p);
    BlockInGroup(g, b);
    var gp, gb := GroupOfBlock(g, p), GroupOfBlock(g, b);
    var kp, kb := BitOfBlock(g, p), BitOfBlock(g, b);
    assert ValidGroup(g, f, gp) && ValidGroup(g, f, gb);
    var ap, ab := BitmapAddr(g, f, gp), BitmapAddr(g, f, gb);
    var v := SetBit(f[ap + kp / 8], kp % 8);
    SetBitRange8(f[ap + kp / 8], kp % 8);
    SpliceKeepsLayout(g, f, ap + kp / 8, [v]);
    var f' := MarkUsed(g, f, p);
    assert BitmapAddr(g, f', gb) == ab;
    if kb / 8 < g.blockSize {
      if gp != gb {
        assert GroupsApart(g, f, gp, gb);
      } else {
        assert ap == ab;
        assert Bit(v, kb % 8) <==> kb % 8 == kp % 8 || Bit(f[ap + kp / 8], kb % 8);
        assert p == b <==> kp == kb;
      }
    }
  }

  /** Block `p` was free in `f`, and `f'` is `f` with `p` marked. */
  ghost predicate Claimed(g: Geometry, f: seq<u8>, f': seq<u8>, p: nat)
  {
    && ValidGeometry(g) && ValidLayout(g, f) && InData(g, p)
    && BitOfBlock(g, p) / 8 < g.blockSize && !Used(g, f, p)
    && f' == MarkUsed(g, f, p)
  }

  /** The bitmap range of a group, which marking a block of that group stays inside. */
  lemma MarkUsedFrame(g: Geometry, f: seq<u8>, p: nat, x: nat, y: nat)
    requires ValidGeometry(g) && ValidLayout(g, f) && InData(g, p) && BitOfBlock(g, p) / 8 < g.blockSize
    requires x <= y <= |f|
    requires GroupOfBlock(g, p) < g.groupCount && Disjoint(BitmapAddr(g, f, GroupOfBlock(g, p)), g.blockSize, x, y - x)
    ensures MarkUsed(g, f, p)[x..y] == f[x..y]
  {
    hide Area, Quot, Desc, Bit, SetBit;
    assert ValidGroup(g, f, GroupOfBlock(g, p));
    var a, k := BitmapAddr(g, f, GroupOfBlock(g, p)), BitOfBlock(g, p);
    SetBitRange8(f[a + k / 8], k % 8);
    SliceOfSplice(f, a + k / 8, [SetBit(f[a + k / 8], k % 8)], x, y);
  }

  /** Looks for the first clear bit among the first `n` bits of the block in the transfer buffer. */
  method ScanBitmap(fs: Ext4, n: nat) returns (found: bool, bit: nat)
    requires fs.Valid()
    ensures found ==> bit < n && bit / 8 < fs.geo.blockSize && !Bit(fs.ioBlock[bit / 8], bit % 8)
    ensures !found ==> forall k: nat :: k < n && k / 8 < fs.geo.blockSize ==> Bit(fs.ioBlock[k / 8], k % 8)
  {
    bit := 0;
    while bit < n
      invariant 0 <= bit <= n
      invariant forall k: nat :: k < bit && k / 8 < fs.geo.blockSize ==> Bit(fs.ioBlock[k / 8], k % 8)
    {
      if bit / 8 >= fs.geo.blockSize {
        assert forall k: nat :: bit <= k ==> k / 8 >= fs.geo.blockSize;
        break;
      }
      if !Bit(fs.ioBlock[bit / 8], bit % 8) {
        return true, bit;
      }
      bit := bit + 1;
    }
    found := false;
  }

  /** Every block of the group that has a bitmap bit is in use. */
  ghost predicate GroupFull(g: Geometry, f: seq<u8>, grp: nat)
    requires ValidGeometry(g) && ValidLayout(g, f)
  {
    forall b: nat | InData(g, b) && GroupOfBlock(g, b) == grp :: Used(g, f, b)
  }

  lemma ScanShowsFull(g: Geometry, f: seq<u8>, grp: nat, io: seq<u8>, n: nat)
    requires ValidGeometry(g) && ValidLayout(g, f) && grp < g.groupCount
    requires |io| >= g.blockSize && BitmapAddr(g, f, grp) + g.blockSize <= |f|
    requires io[..g.blockSize] == f[BitmapAddr(g, f, grp)..BitmapAddr(g, f, grp) + g.blockSize]
    requires forall b: nat | InData(g, b) && GroupOfBlock(g, b) == grp :: BitOfBlock(g, b) < n
    requires forall k: nat :: k < n && k / 8 < g.blockSize ==> Bit(io[k / 8], k % 8)
    ensures GroupFull(g, f, grp)
  {
    hide Area, Quot, Desc, Bit;
    forall b: nat | InData(g, b) && GroupOfBlock(g, b) == grp
      ensures Used(g, f, b)
    {
      var k := BitOfBlock(g, b);
      if k / 8 < g.blockSize {
        assert io[k / 8] == io[..g.blockSize][k / 8] == f[BitmapAddr(g, f, grp) + k / 8];
      }
    }
  }

  /** How many blocks of a group exist, as the source computes it. */
  lemma GroupBlocks(g: Geometry, grp: nat)
    requires ValidGeometry(g) && grp < g.groupCount
    ensures var first := g.firstDataBlock + Area(grp, g.blocksPerGroup);
      && first + g.blocksPerGroup < 0x1_0000_0000
      && first < g.blocksCount
      && forall b: nat | InData(g, b) ::
           GroupOfBlock(g, b) == grp <==> first <= b < first + g.blocksPerGroup
  {
    AreaStep(grp, g.groupCount, g.blocksPerGroup);
    if grp < g.groupCount - 1 {
      AreaStep(grp, g.groupCount - 1, g.blocksPerGroup);
    }
    forall b: nat | InData(g, b)
      ensures GroupOfBlock(g, b) == grp <==> g.firstDataBlock + Area(grp, g.blocksPerGroup) <= b < g.firstDataBlock + Area(grp, g.blocksPerGroup) + g.blocksPerGroup
    {
      var x := b - g.firstDataBlock;
      if Area(grp, g.blocksPerGroup) <= x < Area(grp, g.blocksPerGroup) + g.blocksPerGroup {
        QuotUnique(x, g.blocksPerGroup, grp);
      }
    }
  }

  /** Block b belongs to the group. */
  ghost predicate InGroup(g: Geometry, b: nat, grp: nat)
  {
    g.firstDataBlock + Area(grp, g.blocksPerGroup) <= b < g.firstDataBlock + Area(grp, g.blocksPerGroup) + g.blocksPerGroup
  }

  lemma BitInGroup(g: Geometry, grp: nat, bit: nat)
    requires bit < g.blocksPerGroup
    ensures InGroup(g, g.firstDataBlock + Area(grp, g.blocksPerGroup) + bit, grp)
  {
  }

  /** Tries one group: reads its bitmap and claims the first clear bit. */
  method AllocInGroup(fs: Ext4, grp: nat) returns (rc: int, pblock: u32)
    requires fs.Valid() && ValidLayout(fs.geo, Flat(fs.disk)) && grp < fs.geo.groupCount
    modifies fs`disk, fs.ioBlock, fs.descBuf, fs.cache
    ensures fs.Valid() && ValidLayout(fs.geo, Flat(fs.disk))
    ensures rc == 0 || rc == FS_ERR_IO || rc == FS_ERR_NOSPC
    ensures fs.reliable ==> rc != FS_ERR_IO
    ensures rc == FS_ERR_NOSPC && fs.reliable ==> GroupFull(fs.geo, Flat(fs.disk), grp)
    ensures rc != 0 ==> fs.disk == old(fs.disk)
    ensures rc == 0 ==> Claimed(fs.geo, old(Flat(fs.disk)), Flat(fs.disk), pblock) && InGroup(fs.geo, pblock, grp)
  {
    hide Area, Quot, Flat, Bit, SetBit, Desc, DescUsable, Claimed, InGroup;
    pblock := 0;
    var g := fs.geo;
    ghost var d := fs.disk;
    var first := g.firstDataBlock + Area(grp, g.blocksPerGroup);
    GroupBlocks(g, grp);
    if first >= g.blocksCount {
      rc := FS_ERR_NOSPC;
      return;
    }
    var end := first + g.blocksPerGroup;
    if end > g.blocksCount {
      end := g.blocksCount;
    }
    assert ValidGroup(g, Flat(d), grp);
    var drc, bitmapBlock, _, _ := Ext4Inodes.ReadGroupDesc(fs, grp);
    if drc != 0 {
      return FS_ERR_NOSPC, 0;
    }
    BitmapBlockExists(g, d, grp);
    var brc := fs.ReadBlock(bitmapBlock, fs.ioBlock);
    if brc != 0 {
      return FS_ERR_NOSPC, 0;
    }
    var found, bit := ScanBitmap(fs, end - first);
    if !found {
      ScanShowsFull(g, Flat(d), grp, fs.ioBlock[..], end - first);
      return FS_ERR_NOSPC, 0;
    }
    SetBitRange8(fs.ioBlock[bit / 8], bit % 8);
    var v: u8 := SetBit(fs.ioBlock[bit / 8], bit % 8);
    fs.ioBlock[bit / 8] := v;
    assert fs.ioBlock[..g.blockSize] == Splice(d[bitmapBlock], bit / 8, [v]);
    rc := fs.WriteBlock(bitmapBlock, fs.ioBlock);
    if rc != 0 {
      return FS_ERR_IO, 0;
    }
    pblock := first + bit;
    BitInGroup(g, grp, bit);
    ClaimIsMark(g, d, fs.disk, grp, bitmapBlock, bit, v);
  }

  lemma BitmapBlockExists(g: Geometry, d: Disk, grp: nat)
    requires ValidGeometry(g) && ValidDisk(g, d) && ValidLayout(g, Flat(d)) && grp < g.groupCount
    ensures BlockBitmap(g, Flat(d), grp) < |d|
    ensures var a := BitmapAddr(g, Flat(d), grp);
      a + g.blockSize <= |Flat(d)| && Flat(d)[a..a + g.blockSize] == d[BlockBitmap(g, Flat(d), grp)]
  {
    hide Flat, Desc;
    assert ValidGroup(g, Flat(d), grp);
    SpanInDisk(g.blockSize, d, BlockBitmap(g, Flat(d), grp), 0, g.blockSize);
    FlatBlock(d, g.blockSize, BlockBitmap(g, Flat(d), grp));
  }

  /** Storing the bitmap block with one more bit set is marking the block that bit stands for. */
  lemma ClaimIsMark(g: Geometry, d: Disk, d': Disk, grp: nat, bm: nat, bit: nat, v: u8)
    requires ValidGeometry(g) && ValidDisk(g, d) && ValidLayout(g, Flat(d)) && grp < g.groupCount
    requires bm == BlockBitmap(g, Flat(d), grp) && bm < |d| && bit / 8 < g.blockSize && bit < g.blocksPerGroup
    requires InData(g, g.firstDataBlock + Area(grp, g.blocksPerGroup) + bit)
    requires !Bit(d[bm][bit / 8], bit % 8) && v == SetBit(d[bm][bit / 8], bit % 8)
    requires d' == d[bm := Splice(d[bm], bit / 8, [v])]
    ensures Claimed(g, Flat(d), Flat(d'), g.firstDataBlock + Area(grp, g.blocksPerGroup) + bit)
    ensures ValidLayout(g, Flat(d'))
  {
    hide Flat, Area, Bit, SetBit, Desc;
    var p := g.firstDataBlock + Area(grp, g.blocksPerGroup) + bit;
    QuotUnique(p - g.firstDataBlock, g.blocksPerGroup, grp);
    assert GroupOfBlock(g, p) == grp && BitOfBlock(g, p) == bit;
    BitmapBlockExists(g, d, grp);
    var a := BitmapAddr(g, Flat(d), grp);
    assert Flat(d)[a + bit / 8] == Flat(d)[a..a + g.blockSize][bit / 8];
    PatchBlock(d, g.blockSize, bm, bit / 8, [v]);
    MarkUsedMarksOne(g, Flat(d), p, p);
  }

  /** Allocates a block, trying the inode's own group first: it was free, and now exactly it is marked in addition. */
  method AllocBlock(fs: Ext4, ino: u32) returns (rc: int, pblock: u32)
    requires fs.Valid() && ValidLayout(fs.geo, Flat(fs.disk))
    modifies fs`disk, fs.ioBlock, fs.descBuf, fs.cache
    ensures fs.Valid() && ValidLayout(fs.geo, Flat(fs.disk))
    ensures rc == 0 || rc == FS_ERR_IO || rc == FS_ERR_NOSPC
    ensures fs.reliable ==> rc != FS_ERR_IO
    ensures rc == FS_ERR_NOSPC && fs.reliable ==> forall b: nat | InData(fs.geo, b) :: Used(fs.geo, Flat(fs.disk), b)
    ensures rc != 0 ==> fs.disk == old(fs.disk)
    ensures rc == 0 ==> Claimed(fs.geo, old(Flat(fs.disk)), Flat(fs.disk), pblock)
    ensures fs.reliable && ValidIno(fs.geo, ino) && !old(GroupFull(fs.geo, Flat(fs.disk), GroupOf(fs.geo, ino))) ==>
      rc == 0 && InGroup(fs.geo, pblock, GroupOf(fs.geo, ino))
  {
    hide Area, Flat, Claimed, ValidLayout, GroupFull, InGroup;
    pblock := 0;
    var count := fs.geo.groupCount;
    var inodeGroup := if ino > 0 then Quot(ino - 1, fs.geo.inodesPerGroup) else 0;
    if inodeGroup >= count {
      inodeGroup := 0;
    }
    var pass := 0;
    while pass < count
      invariant 0 <= pass <= count
      invariant fs.Valid() && fs.disk == old(fs.disk)
      invariant fs.reliable ==> forall q: nat | q < pass :: TriedFull(fs.geo, Flat(fs.disk), inodeGroup, q)
    {
      var grp := Rem(inodeGroup + pass, count);
      FirstIsOwn(inodeGroup, count);
      assert fs.reliable && pass > 0 ==> TriedFull(fs.geo, Flat(fs.disk), inodeGroup, 0);
      rc, pblock := AllocInGroup(fs, grp);
      if rc != FS_ERR_NOSPC {
        return;
      }
      pass := pass + 1;
    }
    rc := FS_ERR_NOSPC;
    FirstIsOwn(inodeGroup, count);
    if fs.reliable {
      assert TriedFull(fs.geo, Flat(fs.disk), inodeGroup, 0);
      AllGroupsTried(fs.geo, Flat(fs.disk), inodeGroup);
    }
  }

  lemma FirstIsOwn(group: nat, count: nat)
    requires group < count
    ensures Rem(group + 0, count) == group
  {
    QuotUnique(group, count, 0);
  }

  /** The group tried in pass `q` has no free block. */
  ghost predicate TriedFull(g: Geometry, f: seq<u8>, start: nat, q: nat)
    requires ValidGeometry(g) && ValidLayout(g, f)
  {
    GroupFull(g, f, Rem(start + q, g.groupCount))
  }

  /** The passes start at the inode's group and wrap around, so they meet every group. */
  lemma AllGroupsTried(g: Geometry, f: seq<u8>, start: nat)
    requires ValidGeometry(g) && ValidLayout(g, f) && start < g.groupCount
    requires forall q: nat | q < g.groupCount :: TriedFull(g, f, start, q)
    ensures forall b: nat | InData(g, b) :: Used(g, f, b)
  {
    hide Used, ValidLayout;
    forall b: nat | InData(g, b)
      ensures Used(g, f, b)
    {
      BlockInGroup(g, b);
      var grp := GroupOfBlock(g, b);
      var q := if grp >= start then grp - start else grp + g.groupCount - start;
      assert Rem(start + q, g.groupCount) == grp by {
        if grp < start {
          QuotUnique(start + q, g.groupCount, 1);
        }
      }
      assert TriedFull(g, f, start, q);
    }
  }
}

/** The disk as one flat byte string: where descriptors and inodes live in it, and what block updates do to it. */
module Ext4Layout {
  import opened Bytes
  import opened Ext4State

  /** All blocks of the disk, end to end. */
  ghost function Flat(d: Disk): seq<u8>
  {
    if |d| == 0 then [] else Flat(d[..|d| - 1]) + d[|d| - 1]
  }

  ghost predicate Uniform(d: Disk, bs: nat)
  {
    forall b :: 0 <= b < |d| ==> |d[b]| == bs
  }

  /** Block `b` is the slice of the flat disk from `b` block sizes on. */
  lemma {:induction false} FlatBlock(d: Disk, bs: nat, b: nat)
    requires Uniform(d, bs) && b <= |d|
    ensures |Flat(d)| == Area(|d|, bs)
    ensures Area(b, bs) <= |Flat(d)|
    ensures b < |d| ==> Area(b, bs) + bs <= |Flat(d)| && Flat(d)[Area(b, bs)..Area(b, bs) + bs] == d[b]
  {
    if |d| > 0 {
      var p := d[..|d| - 1];
      if b == |d| {
        FlatBlock(p, bs, b - 1);
      } else {
        FlatBlock(p, bs, b);
        if b < |p| {
          assert Flat(d)[Area(b, bs)..Area(b, bs) + bs] == Flat(p)[Area(b, bs)..Area(b, bs) + bs];
        }
      }
    }
  }

  /** Replacing a block splices its bytes into the flat disk. */
  lemma {:induction false} FlatUpdate(d: Disk, bs: nat, b: nat, blk: seq<u8>)
    requires Uniform(d, bs) && b < |d| && |blk| == bs
    ensures |Flat(d)| == Area(|d|, bs) && Area(b, bs) + bs <= |Flat(d)|
    ensures Flat(d[b := blk]) == Splice(Flat(d), Area(b, bs), blk)
  {
    FlatBlock(d, bs, b);
    var p := d[..|d| - 1];
    if b == |d| - 1 {
      assert d[b := blk][..|d| - 1] == p;
      FlatBlock(p, bs, |p|);
    } else {
      FlatUpdate(p, bs, b, blk);
      assert d[b := blk][..|d| - 1] == p[b := blk];
    }
  }

  /** `n` bytes from offset `off` of block `b` on, going on into the next block where needed. */
  function GetSpan(bs: nat, d: Disk, b: nat, off: nat, n: nat): seq<u8>
    requires SpanOk(bs, d, b, off, n)
  {
    if off + n <= bs then d[b][off..off + n] else d[b][off..] + d[b + 1][..off + n - bs]
  }

  /** Overwrites bytes from offset `off` of block `b` on, going on into the next block where needed. */
  function PutSpan(bs: nat, d: Disk, b: nat, off: nat, data: seq<u8>): Disk
    requires SpanOk(bs, d, b, off, |data|)
  {
    if off + |data| <= bs then d[b := Splice(d[b], off, data)]
    else
      var fp := bs - off;
      d[b := Splice(d[b], off, data[..fp])][b + 1 := Splice(d[b + 1], 0, data[fp..])]
  }

  predicate SpanOk(bs: nat, d: Disk, b: nat, off: nat, n: nat)
  {
    && (forall b :: 0 <= b < |d| ==> |d[b]| == bs)
    && off < bs && n <= bs && b < |d| && (off + n <= bs || b + 1 < |d|)
  }

  lemma PartOfBlock(d: Disk, bs: nat, b: nat, lo: nat, hi: nat)
    requires Uniform(d, bs) && b < |d| && lo <= hi <= bs
    ensures Area(b, bs) + bs <= |Flat(d)|
    ensures d[b][lo..hi] == Flat(d)[Area(b, bs) + lo..Area(b, bs) + hi]
  {
    hide Flat;
    FlatBlock(d, bs, b);
    SliceOfSlice(Flat(d), Area(b, bs), Area(b, bs) + bs, lo, hi);
  }

  lemma PartsOfNeighbours(d: Disk, bs: nat, b: nat, off: nat, m: nat)
    requires Uniform(d, bs) && b + 1 < |d| && off <= bs && m <= bs
    ensures Area(b, bs) + bs + m <= |Flat(d)|
    ensures d[b][off..] + d[b + 1][..m] == Flat(d)[Area(b, bs) + off..Area(b, bs) + bs + m]
  {
    hide Flat;
    PartOfBlock(d, bs, b, off, bs);
    PartOfBlock(d, bs, b + 1, 0, m);
    JoinSlices(Flat(d), Area(b, bs) + off, Area(b, bs) + bs, Area(b, bs) + bs + m);
  }

  /** A span is a slice of the flat disk, whether or not it crosses into the next block. */
  lemma SpanIsSlice(bs: nat, d: Disk, b: nat, off: nat, n: nat)
    requires SpanOk(bs, d, b, off, n)
    ensures Area(b, bs) + off + n <= |Flat(d)|
    ensures GetSpan(bs, d, b, off, n) == Flat(d)[Area(b, bs) + off..Area(b, bs) + off + n]
  {
    hide Flat, Area;
    if off + n <= bs {
      PartOfBlock(d, bs, b, off, off + n);
    } else {
      PartsOfNeighbours(d, bs, b, off, off + n - bs);
    }
  }

  lemma PatchSlice(f: seq<u8>, f': seq<u8>, a: nat, blk: seq<u8>, off: nat, data: seq<u8>)
    requires a + |blk| <= |f| && blk == f[a..a + |blk|] && off + |data| <= |blk|
    requires f' == Splice(f, a, Splice(blk, off, data))
    ensures f' == Splice(f, a + off, data)
  {
    SpliceOfSplice(f, a, |blk|, off, data);
  }

  /** One block, partly overwritten. */
  lemma PatchBlock(d: Disk, bs: nat, b: nat, off: nat, data: seq<u8>)
    requires Uniform(d, bs) && b < |d| && off + |data| <= bs
    ensures Area(b, bs) + bs <= |Flat(d)|
    ensures Flat(d[b := Splice(d[b], off, data)]) == Splice(Flat(d), Area(b, bs) + off, data)
  {
    hide Flat, Area;
    FlatBlock(d, bs, b);
    FlatUpdate(d, bs, b, Splice(d[b], off, data));
    PatchSlice(Flat(d), Flat(d[b := Splice(d[b], off, data)]), Area(b, bs), d[b], off, data);
  }

  lemma PutSpanAcross(d: Disk, bs: nat, b: nat, off: nat, data: seq<u8>)
    requires SpanOk(bs, d, b, off, |data|) && off + |data| > bs
    ensures Area(b, bs) + off + |data| <= |Flat(d)|
    ensures Flat(PutSpan(bs, d, b, off, data)) == Splice(Flat(d), Area(b, bs) + off, data)
  {
    hide Flat, Area, Splice;
    var x, y := data[..bs - off], data[bs - off..];
    assert data == x + y;
    var d1 := d[b := Splice(d[b], off, x)];
    PatchBlock(d, bs, b, off, x);
    PatchBlock(d1, bs, b + 1, 0, y);
    AreaNext(b, bs);
    AdjacentSplices(Flat(d), Area(b, bs) + off, x, y);
  }

  lemma AreaNext(b: nat, size: nat)
    ensures Area(b + 1, size) == Area(b, size) + size
  {
  }

  /** Overwriting a span splices the data into the flat disk. */
  lemma PutSpanIsSplice(bs: nat, d: Disk, b: nat, off: nat, data: seq<u8>)
    requires SpanOk(bs, d, b, off, |data|)
    ensures Uniform(PutSpan(bs, d, b, off, data), bs) && |PutSpan(bs, d, b, off, data)| == |d|
    ensures Area(b, bs) + off + |data| <= |Flat(d)|
    ensures Flat(PutSpan(bs, d, b, off, data)) == Splice(Flat(d), Area(b, bs) + off, data)
  {
    hide Flat, Area;
    var a := Area(b, bs);
    FlatBlock(d, bs, b);
    if off + |data| <= bs {
      FlatUpdate(d, bs, b, Splice(d[b], off, data));
      SpliceOfSplice(Flat(d), a, bs, off, data);
    } else {
      PutSpanAcross(d, bs, b, off, data);
    }
  }

  /** A span whose addresses lie on the disk only touches blocks that exist. */
  lemma SpanInDisk(bs: nat, d: Disk, b: nat, off: nat, n: nat)
    requires Uniform(d, bs) && off < bs && 0 < n <= bs
    requires Area(b, bs) + off + n <= |Flat(d)|
    ensures SpanOk(bs, d, b, off, n)
  {
    hide Flat;
    FlatBlock(d, bs, 0);
    if b >= |d| {
      if b > |d| {
        AreaStep(|d|, b, bs);
      }
    }
  }

  ghost predicate Disjoint(a: nat, n: nat, b: nat, m: nat)
  {
    a + n <= b || b + m <= a
  }

  /** The block and offset the source computes for byte `x` of a table that starts at block `b`. */
  lemma TableAddress(b: nat, x: nat, bs: nat)
    requires bs > 0
    ensures Area(b + Quot(x, bs), bs) + Rem(x, bs) == Area(b, bs) + x
  {
    AreaSum(b, Quot(x, bs), bs);
  }

  // ---------- group descriptors ----------

  function GdtFirst(g: Geometry): nat {
    if g.blockSize == 1024 then 2 else 1
  }

  ghost function GdtAddr(g: Geometry): nat {
    Area(GdtFirst(g), g.blockSize)
  }

  ghost function GdtLen(g: Geometry): nat {
    Area(g.groupCount, g.descSize)
  }

  ghost function TableLen(g: Geometry): nat {
    Area(g.inodesPerGroup, g.inodeSize)
  }

  /** The raw descriptor of a group, read from a flat disk. */
  ghost function Desc(g: Geometry, f: seq<u8>, grp: nat): (r: seq<u8>)
    requires GdtAddr(g) + GdtLen(g) <= |f| && grp < g.groupCount
    ensures |r| == g.descSize
  {
    AreaStep(grp, g.groupCount, g.descSize);
    var a := GdtAddr(g) + Area(grp, g.descSize);
    f[a..a + g.descSize]
  }

  /** The high halves of the block numbers are zero where the descriptor has them. */
  predicate DescUsable(g: Geometry, desc: seq<u8>)
    requires |desc| == g.descSize && g.descSize >= 32
  {
    g.is64Bit && g.descSize >= 64 ==> Rd32(desc, 0x20) == 0 && Rd32(desc, 0x28) == 0
  }

  ghost predicate GdtOnDisk(g: Geometry, f: seq<u8>)
  {
    GdtAddr(g) + GdtLen(g) <= |f| && g.descSize >= 32
  }

  ghost function BlockBitmap(g: Geometry, f: seq<u8>, grp: nat): u32
    requires GdtOnDisk(g, f) && grp < g.groupCount
  {
    Rd32(Desc(g, f, grp), 0)
  }

  ghost function InodeTable(g: Geometry, f: seq<u8>, grp: nat): u32
    requires GdtOnDisk(g, f) && grp < g.groupCount
  {
    Rd32(Desc(g, f, grp), 8)
  }

  ghost function TableAddr(g: Geometry, f: seq<u8>, grp: nat): nat
    requires GdtOnDisk(g, f) && grp < g.groupCount
  {
    Area(InodeTable(g, f, grp), g.blockSize)
  }

  ghost function BitmapAddr(g: Geometry, f: seq<u8>, grp: nat): nat
    requires GdtOnDisk(g, f) && grp < g.groupCount
  {
    Area(BlockBitmap(g, f, grp), g.blockSize)
  }

  /** The descriptor table, every inode table and every block bitmap lie on the disk and none meets another. */
  ghost predicate ValidLayout(g: Geometry, f: seq<u8>)
  {
    && GdtOnDisk(g, f)
    && (forall grp: nat | grp < g.groupCount :: ValidGroup(g, f, grp))
    && (forall g1: nat, g2: nat | g1 < g.groupCount && g2 < g.groupCount :: GroupsApart(g, f, g1, g2))
  }

  ghost predicate ValidGroup(g: Geometry, f: seq<u8>, grp: nat)
    requires GdtOnDisk(g, f) && grp < g.groupCount
  {
    && DescUsable(g, Desc(g, f, grp))
    && TableAddr(g, f, grp) + TableLen(g) <= |f|
    && BitmapAddr(g, f, grp) + g.blockSize <= |f|
    && Disjoint(TableAddr(g, f, grp), TableLen(g), GdtAddr(g), GdtLen(g))
    && Disjoint(BitmapAddr(g, f, grp), g.blockSize, GdtAddr(g), GdtLen(g))
  }

  ghost predicate GroupsApart(g: Geometry, f: seq<u8>, g1: nat, g2: nat)
    requires GdtOnDisk(g, f) && g1 < g.groupCount && g2 < g.groupCount
  {
    && (g1 != g2 ==> Disjoint(TableAddr(g, f, g1), TableLen(g), TableAddr(g, f, g2), TableLen(g)))
    && (g1 != g2 ==> Disjoint(BitmapAddr(g, f, g1), g.blockSize, BitmapAddr(g, f, g2), g.blockSize))
    && Disjoint(BitmapAddr(g, f, g1), g.blockSize, TableAddr(g, f, g2), TableLen(g))
  }

  /** Two flat disks that agree on the descriptor table have the same layout. */
  ghost predicate SameGdt(g: Geometry, f1: seq<u8>, f2: seq<u8>)
  {
    |f1| == |f2| && GdtOnDisk(g, f1) &&
    f1[GdtAddr(g)..GdtAddr(g) + GdtLen(g)] == f2[GdtAddr(g)..GdtAddr(g) + GdtLen(g)]
  }

  lemma SameDescs(g: Geometry, f1: seq<u8>, f2: seq<u8>)
    requires SameGdt(g, f1, f2)
    ensures forall grp: nat | grp < g.groupCount :: Desc(g, f1, grp) == Desc(g, f2, grp)
    ensures ValidLayout(g, f1) ==> ValidLayout(g, f2)
  {
    forall grp: nat | grp < g.groupCount
      ensures Desc(g, f1, grp) == Desc(g, f2, grp)
    {
      AreaStep(grp, g.groupCount, g.descSize);
      var a := Area(grp, g.descSize);
      SliceOfSlice(f1, GdtAddr(g), GdtAddr(g) + GdtLen(g), a, a + g.descSize);
      SliceOfSlice(f2, GdtAddr(g), GdtAddr(g) + GdtLen(g), a, a + g.descSize);
    }
    if ValidLayout(g, f1) {
      forall grp: nat | grp < g.groupCount
        ensures ValidGroup(g, f2, grp)
      {
        assert ValidGroup(g, f1, grp);
      }
      forall g1: nat, g2: nat | g1 < g.groupCount && g2 < g.groupCount
        ensures GroupsApart(g, f2, g1, g2)
      {
        assert GroupsApart(g, f1, g1, g2);
      }
    }
  }

  /** A splice off the descriptor table keeps the layout. */
  lemma SpliceKeepsLayout(g: Geometry, f: seq<u8>, a: nat, data: seq<u8>)
    requires ValidLayout(g, f) && a + |data| <= |f|
    requires Disjoint(a, |data|, GdtAddr(g), GdtLen(g))
    ensures SameGdt(g, f, Splice(f, a, data)) && ValidLayout(g, Splice(f, a, data))
    ensures forall grp: nat | grp < g.groupCount :: Desc(g, f, grp) == Desc(g, Splice(f, a, data), grp)
  {
    SameDescs(g, f, Splice(f, a, data));
  }

  // ---------- inodes ----------

  ghost predicate ValidIno(g: Geometry, ino: nat)
  {
    ino > 0 && g.inodesPerGroup > 0 && Quot(ino - 1, g.inodesPerGroup) < g.groupCount
  }

  ghost function GroupOf(g: Geometry, ino: nat): nat
    requires ValidIno(g, ino)
  {
    Quot(ino - 1, g.inodesPerGroup)
  }

  ghost function InodeOffset(g: Geometry, ino: nat): (r: nat)
    requires ValidIno(g, ino)
    ensures r + g.inodeSize <= TableLen(g)
  {
    AreaStep(Rem(ino - 1, g.inodesPerGroup), g.inodesPerGroup, g.inodeSize);
    Area(Rem(ino - 1, g.inodesPerGroup), g.inodeSize)
  }

  ghost function InodeAddr(g: Geometry, f: seq<u8>, ino: nat): (r: nat)
    requires ValidLayout(g, f) && ValidIno(g, ino)
    ensures r + g.inodeSize <= |f|
  {
    assert ValidGroup(g, f, GroupOf(g, ino));
    TableAddr(g, f, GroupOf(g, ino)) + InodeOffset(g, ino)
  }

  /** The raw bytes of inode `ino`. */
  ghost function Inode(g: Geometry, f: seq<u8>, ino: nat): (r: seq<u8>)
    requires ValidLayout(g, f) && ValidIno(g, ino)
    ensures |r| == g.inodeSize
  {
    f[InodeAddr(g, f, ino)..InodeAddr(g, f, ino) + g.inodeSize]
  }

  /** Two different inodes never share a byte. */
  lemma InodesDisjoint(g: Geometry, f: seq<u8>, i: nat, j: nat)
    requires ValidLayout(g, f) && ValidIno(g, i) && ValidIno(g, j) && i != j
    ensures Disjoint(InodeAddr(g, f, i), g.inodeSize, InodeAddr(g, f, j), g.inodeSize)
  {
    if GroupOf(g, i) == GroupOf(g, j) {
      var x, y := Rem(i - 1, g.inodesPerGroup), Rem(j - 1, g.inodesPerGroup);
      if x < y {
        AreaStep(x, y, g.inodeSize);
      } else {
        AreaStep(y, x, g.inodeSize);
      }
    } else {
      assert GroupsApart(g, f, GroupOf(g, i), GroupOf(g, j));
      var oi, oj := InodeOffset(g, i), InodeOffset(g, j);
    }
  }

  /** Splicing an inode's bytes into the disk is one update of the array of inodes. */
  lemma PutInodeIsUpdate(g: Geometry, f: seq<u8>, ino: nat, data: seq<u8>, j: nat)
    requires ValidLayout(g, f) && ValidIno(g, ino) && ValidIno(g, j) && |data| == g.inodeSize
    ensures var f' := Splice(f, InodeAddr(g, f, ino), data);
      ValidLayout(g, f') && InodeAddr(g, f', j) == InodeAddr(g, f, j)
        && Inode(g, f', j) == if j == ino then data else Inode(g, f, j)
  {
    hide Area, Quot, Splice;
    var a := InodeAddr(g, f, ino);
    assert ValidGroup(g, f, GroupOf(g, ino));
    SpliceKeepsLayout(g, f, a, data);
    var f' := Splice(f, a, data);
    assert Desc(g, f, GroupOf(g, j)) == Desc(g, f', GroupOf(g, j));
    assert InodeAddr(g, f', j) == InodeAddr(g, f, j);
    SliceOfSplice(f, a, data, InodeAddr(g, f, j), InodeAddr(g, f, j) + g.inodeSize);
    if j != ino {
      InodesDisjoint(g, f, ino, j);
    }
  }
}

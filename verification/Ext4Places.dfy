/** Where things lie on the disk: descriptors, inodes and in-use bits by plain arithmetic on byte positions. */
module Ext4Places {
  import opened Bytes
  import opened Ext4State
  import opened Ext4Layout
  import opened Ext4Alloc

  /** The descriptor table starts in the block after the one that holds byte 1024, where the superblock lies. */
  lemma TablePlace(g: Geometry)
    requires ValidGeometry(g)
    ensures GdtAddr(g) == (1024 / g.blockSize + 1) * g.blockSize
    ensures GdtAddr(g) >= 2048 && GdtAddr(g) - g.blockSize <= 1024
  {
    AreaIsProduct(GdtFirst(g), g.blockSize);
  }

  /** The bytes of a group's descriptor, and the block numbers it holds. */
  lemma DescPlace(g: Geometry, f: seq<u8>, grp: nat)
    requires GdtOnDisk(g, f) && grp < g.groupCount
    ensures var a := GdtAddr(g) + grp * g.descSize;
      && a + g.descSize <= |f| && Desc(g, f, grp) == f[a..a + g.descSize]
      && BlockBitmap(g, f, grp) == Rd32(f[a..a + g.descSize], 0) && InodeTable(g, f, grp) == Rd32(f[a..a + g.descSize], 8)
  {
    hide GdtAddr, Rd32;
    AreaIsProduct(grp, g.descSize);
    AreaStep(grp, g.groupCount, g.descSize);
  }

  /** Inode `ino` consists of the bytes from `a` on. */
  ghost predicate InodeAt(g: Geometry, f: seq<u8>, ino: int, a: int)
  {
    ValidLayout(g, f) && ino > 0 && ValidIno(g, ino) && 0 <= a && a + g.inodeSize <= |f| && Inode(g, f, ino) == f[a..a + g.inodeSize]
  }

  /** Inode numbers count from 1, group by group, through each group's table. */
  lemma InodePlace(g: Geometry, f: seq<u8>, grp: nat, i: nat)
    requires ValidLayout(g, f) && grp < g.groupCount && i < g.inodesPerGroup
    ensures InodeAt(g, f, grp * g.inodesPerGroup + i + 1, InodeTable(g, f, grp) * g.blockSize + i * g.inodeSize)
  {
    assert GdtOnDisk(g, f);
    hide ValidLayout, InodeTable, GdtOnDisk, InodeAt;
    InodeByAreas(g, f, grp, i);
    AreaIsProduct(grp, g.inodesPerGroup);
    AreaIsProduct(i, g.inodeSize);
    AreaIsProduct(InodeTable(g, f, grp), g.blockSize);
  }

  lemma InodeByAreas(g: Geometry, f: seq<u8>, grp: nat, i: nat)
    requires ValidLayout(g, f) && grp < g.groupCount && i < g.inodesPerGroup
    ensures InodeAt(g, f, Area(grp, g.inodesPerGroup) + i + 1, Area(InodeTable(g, f, grp), g.blockSize) + Area(i, g.inodeSize))
  {
    hide Area, Quot, Desc, InodeTable, GroupsApart;
    var ino := Area(grp, g.inodesPerGroup) + i + 1;
    QuotUnique(ino - 1, g.inodesPerGroup, grp);
    assert ValidIno(g, ino) && GroupOf(g, ino) == grp;
    assert Rem(ino - 1, g.inodesPerGroup) == i;
    assert InodeOffset(g, ino) == Area(i, g.inodeSize);
    assert InodeAddr(g, f, ino) == Area(InodeTable(g, f, grp), g.blockSize) + Area(i, g.inodeSize);
  }

  /** The in-use bit of block `b` is bit `k` of the bitmap at byte `a`; behind the bitmap's block every block counts as in use. */
  ghost predicate BitAt(g: Geometry, f: seq<u8>, b: int, a: int, k: nat)
  {
    && ValidGeometry(g) && ValidLayout(g, f) && 0 <= b && 0 <= a && InData(g, b)
    && if k / 8 < g.blockSize then a + k / 8 < |f| && (Used(g, f, b) <==> Bit(f[a + k / 8], k % 8)) else Used(g, f, b)
  }

  /** Blocks count from the first data block, group by group, through each group's bitmap. */
  lemma BitPlace(g: Geometry, f: seq<u8>, grp: nat, k: nat)
    requires ValidGeometry(g) && ValidLayout(g, f) && grp < g.groupCount && k < g.blocksPerGroup
    requires g.firstDataBlock + grp * g.blocksPerGroup + k < g.blocksCount
    ensures BitAt(g, f, g.firstDataBlock + grp * g.blocksPerGroup + k, BlockBitmap(g, f, grp) * g.blockSize, k)
  {
    assert GdtOnDisk(g, f);
    hide ValidLayout, BlockBitmap, GdtOnDisk, BitAt, ValidGeometry;
    AreaIsProduct(grp, g.blocksPerGroup);
    AreaIsProduct(BlockBitmap(g, f, grp), g.blockSize);
    BitByAreas(g, f, grp, k);
  }

  lemma BitByAreas(g: Geometry, f: seq<u8>, grp: nat, k: nat)
    requires ValidGeometry(g) && ValidLayout(g, f) && grp < g.groupCount && k < g.blocksPerGroup
    requires g.firstDataBlock + Area(grp, g.blocksPerGroup) + k < g.blocksCount
    ensures BitAt(g, f, g.firstDataBlock + Area(grp, g.blocksPerGroup) + k, Area(BlockBitmap(g, f, grp), g.blockSize), k)
  {
    hide Area, Quot, Desc, BlockBitmap, GroupsApart, Bit;
    QuotUnique(Area(grp, g.blocksPerGroup) + k, g.blocksPerGroup, grp);
    assert ValidGroup(g, f, grp);
  }
}

/** Group descriptor and inode access through the block cache, shown to refine a plain array of inodes. */
module Ext4Inodes {
  import opened Bytes
  import opened Ext4State
  import opened Ext4Layout

  /** Copies `n` bytes that start at offset `off` of block `b` and may run into the next block. */
  method LoadSpan(fs: Ext4, b: u32, off: nat, n: nat, dst: array<u8>) returns (rc: int)
    requires fs.Valid() && dst != fs.ioBlock
    requires off < fs.geo.blockSize && n <= fs.geo.blockSize && n <= dst.Length
    modifies dst, fs.ioBlock, fs.cache
    ensures fs.Valid()
    ensures rc == 0 || rc == FS_ERR_IO
    ensures rc == 0 ==> SpanOk(fs.geo.blockSize, fs.disk, b, off, n)
    ensures rc == 0 ==> dst[..] == Splice(old(dst[..]), 0, GetSpan(fs.geo.blockSize, fs.disk, b, off, n))
    ensures fs.reliable && SpanOk(fs.geo.blockSize, fs.disk, b, off, n) ==> rc == 0
  {
    hide Area, Splice;
    var bs := fs.geo.blockSize;
    rc := fs.ReadBlock(b, fs.ioBlock);
    if rc != 0 {
      return FS_ERR_IO;
    }
    if off + n <= bs {
      CopyBytes(dst, 0, fs.ioBlock, off, n);
      assert fs.ioBlock[off..off + n] == fs.disk[b][off..off + n];
      return 0;
    }
    var fp := bs - off;
    CopyBytes(dst, 0, fs.ioBlock, off, fp);
    assert fs.ioBlock[off..off + fp] == fs.disk[b][off..];
    rc := fs.ReadBlock(b + 1, fs.ioBlock);
    if rc != 0 {
      return FS_ERR_IO;
    }
    AdjacentSplices(old(dst[..]), 0, fs.disk[b][off..], fs.disk[b + 1][..n - fp]);
    CopyBytes(dst, fp, fs.ioBlock, 0, n - fp);
    assert fs.ioBlock[0..n - fp] == fs.disk[b + 1][..n - fp];
  }

  /** Overwrites `n` bytes that start at offset `off` of block `b` and may run into the next block. */
  method StoreSpan(fs: Ext4, b: u32, off: nat, src: array<u8>, n: nat) returns (rc: int)
    requires fs.Valid() && src != fs.ioBlock
    requires off < fs.geo.blockSize && n <= fs.geo.blockSize && n <= src.Length
    modifies fs`disk, fs.ioBlock, fs.cache
    ensures fs.Valid()
    ensures rc == 0 || rc == FS_ERR_IO
    ensures rc == 0 ==> SpanOk(fs.geo.blockSize, old(fs.disk), b, off, n)
    ensures rc == 0 ==> fs.disk == PutSpan(fs.geo.blockSize, old(fs.disk), b, off, src[..n])
    ensures rc != 0 && off + n <= fs.geo.blockSize ==> fs.disk == old(fs.disk)
    ensures fs.reliable && SpanOk(fs.geo.blockSize, old(fs.disk), b, off, n) ==> rc == 0
  {
    hide Area, Splice;
    var bs := fs.geo.blockSize;
    ghost var data := src[..n];
    rc := fs.ReadBlock(b, fs.ioBlock);
    if rc != 0 {
      return FS_ERR_IO;
    }
    if off + n <= bs {
      SplicePrefix(fs.ioBlock[..], bs, off, data);
      CopyBytes(fs.ioBlock, off, src, 0, n);
      assert src[0..n] == data;
      rc := fs.WriteBlock(b, fs.ioBlock);
      return;
    }
    var fp := bs - off;
    SplicePrefix(fs.ioBlock[..], bs, off, data[..fp]);
    CopyBytes(fs.ioBlock, off, src, 0, fp);
    assert src[0..fp] == data[..fp];
    rc := fs.WriteBlock(b, fs.ioBlock);
    if rc != 0 {
      return FS_ERR_IO;
    }
    rc := fs.ReadBlock(b + 1, fs.ioBlock);
    if rc != 0 {
      return FS_ERR_IO;
    }
    SplicePrefix(fs.ioBlock[..], bs, 0, data[fp..]);
    CopyBytes(fs.ioBlock, 0, src, fp, n - fp);
    assert src[fp..fp + (n - fp)] == data[fp..];
    rc := fs.WriteBlock(b + 1, fs.ioBlock);
  }

  /** The span the source reads for a descriptor is that descriptor. */
  lemma DescIsSpan(g: Geometry, d: Disk, grp: nat)
    requires ValidGeometry(g) && ValidDisk(g, d) && grp < g.groupCount && GdtOnDisk(g, Flat(d))
    ensures var off, bs := Area(grp, g.descSize), g.blockSize;
      && SpanOk(bs, d, GdtFirst(g) + Quot(off, bs), Rem(off, bs), g.descSize)
      && GetSpan(bs, d, GdtFirst(g) + Quot(off, bs), Rem(off, bs), g.descSize) == Desc(g, Flat(d), grp)
  {
    hide Flat, Quot;
    var off, bs := Area(grp, g.descSize), g.blockSize;
    AreaStep(grp, g.groupCount, g.descSize);
    TableAddress(GdtFirst(g), off, bs);
    SpanInDisk(bs, d, GdtFirst(g) + Quot(off, bs), Rem(off, bs), g.descSize);
    SpanIsSlice(bs, d, GdtFirst(g) + Quot(off, bs), Rem(off, bs), g.descSize);
  }

  lemma DescBlockIsWord(g: Geometry, grp: nat)
    requires ValidGeometry(g) && grp < g.groupCount
    ensures GdtFirst(g) + Quot(Area(grp, g.descSize), g.blockSize) < 0x1_0000_0000
  {
    AreaStep(grp, g.groupCount, g.descSize);
  }

  /** Fetches a group's descriptor into the descriptor buffer. */
  method LoadDesc(fs: Ext4, grp: nat) returns (rc: int)
    requires fs.Valid() && grp < fs.geo.groupCount && GdtOnDisk(fs.geo, Flat(fs.disk))
    modifies fs.ioBlock, fs.descBuf, fs.cache
    ensures fs.Valid()
    ensures rc == 0 || rc == FS_ERR_IO
    ensures rc == 0 ==> fs.descBuf[..fs.geo.descSize] == Desc(fs.geo, Flat(fs.disk), grp)
    ensures fs.reliable ==> rc == 0
  {
    var bs := fs.geo.blockSize;
    var descOff := Area(grp, fs.geo.descSize);
    DescBlockIsWord(fs.geo, grp);
    DescIsSpan(fs.geo, fs.disk, grp);
    rc := LoadSpan(fs, GdtFirst(fs.geo) + Quot(descOff, bs), Rem(descOff, bs), fs.geo.descSize, fs.descBuf);
  }

  /** A group's descriptor: success returns the block numbers stored in the descriptor table. */
  method ReadGroupDesc(fs: Ext4, grp: nat) returns (rc: int, blockBitmap: u32, inodeBitmap: u32, inodeTable: u32)
    requires fs.Valid() && GdtOnDisk(fs.geo, Flat(fs.disk))
    modifies fs.ioBlock, fs.descBuf, fs.cache
    ensures fs.Valid()
    ensures grp >= fs.geo.groupCount ==> rc == FS_ERR_INVAL
    ensures rc == 0 ==> grp < fs.geo.groupCount && DescUsable(fs.geo, Desc(fs.geo, Flat(fs.disk), grp))
    ensures rc == 0 ==> blockBitmap == BlockBitmap(fs.geo, Flat(fs.disk), grp)
    ensures rc == 0 ==> inodeBitmap == Rd32(Desc(fs.geo, Flat(fs.disk), grp), 4)
    ensures rc == 0 ==> inodeTable == InodeTable(fs.geo, Flat(fs.disk), grp)
    ensures fs.reliable && grp < fs.geo.groupCount && DescUsable(fs.geo, Desc(fs.geo, Flat(fs.disk), grp)) ==> rc == 0
  {
    blockBitmap, inodeBitmap, inodeTable := 0, 0, 0;
    if grp >= fs.geo.groupCount {
      return FS_ERR_INVAL, 0, 0, 0;
    }
    rc := LoadDesc(fs, grp);
    if rc != 0 {
      return FS_ERR_IO, 0, 0, 0;
    }
    var desc := fs.descBuf[..fs.geo.descSize];
    if fs.geo.is64Bit && fs.geo.descSize >= 64 {
      if Rd32(desc, 0x20) != 0 || Rd32(desc, 0x28) != 0 {
        return FS_ERR_NOSYS, 0, 0, 0;
      }
    }
    blockBitmap, inodeBitmap, inodeTable := Rd32(desc, 0), Rd32(desc, 4), Rd32(desc, 8);
  }

  /** The span the source reads for an inode is that inode, and overwriting the span splices the inode in. */
  lemma InodeIsSpan(g: Geometry, d: Disk, ino: nat)
    requires ValidGeometry(g) && ValidDisk(g, d) && ValidLayout(g, Flat(d)) && ValidIno(g, ino)
    ensures var off, bs := InodeOffset(g, ino), g.blockSize;
      var b := InodeTable(g, Flat(d), GroupOf(g, ino)) + Quot(off, bs);
      && b < g.blocksCount
      && SpanOk(bs, d, b, Rem(off, bs), g.inodeSize)
      && GetSpan(bs, d, b, Rem(off, bs), g.inodeSize) == Inode(g, Flat(d), ino)
  {
    hide Flat, Area, Quot;
    InodeSpanAddress(g, d, ino);
    var off, bs := InodeOffset(g, ino), g.blockSize;
    SpanIsSlice(bs, d, InodeTable(g, Flat(d), GroupOf(g, ino)) + Quot(off, bs), Rem(off, bs), g.inodeSize);
  }

  lemma PutInodeIsSplice(g: Geometry, d: Disk, ino: nat, data: seq<u8>)
    requires ValidGeometry(g) && ValidDisk(g, d) && ValidLayout(g, Flat(d)) && ValidIno(g, ino)
    requires |data| == g.inodeSize
    ensures var off, bs := InodeOffset(g, ino), g.blockSize;
      var b := InodeTable(g, Flat(d), GroupOf(g, ino)) + Quot(off, bs);
      && SpanOk(bs, d, b, Rem(off, bs), g.inodeSize)
      && Flat(PutSpan(bs, d, b, Rem(off, bs), data)) == Splice(Flat(d), InodeAddr(g, Flat(d), ino), data)
  {
    hide Flat, Area, Quot;
    InodeSpanAddress(g, d, ino);
    var off, bs := InodeOffset(g, ino), g.blockSize;
    PutSpanIsSplice(bs, d, InodeTable(g, Flat(d), GroupOf(g, ino)) + Quot(off, bs), Rem(off, bs), data);
  }

  lemma InodeSpanAddress(g: Geometry, d: Disk, ino: nat)
    requires ValidGeometry(g) && ValidDisk(g, d) && ValidLayout(g, Flat(d)) && ValidIno(g, ino)
    ensures var off, bs := InodeOffset(g, ino), g.blockSize;
      var b := InodeTable(g, Flat(d), GroupOf(g, ino)) + Quot(off, bs);
      && SpanOk(bs, d, b, Rem(off, bs), g.inodeSize)
      && Area(b, bs) + Rem(off, bs) == InodeAddr(g, Flat(d), ino)
  {
    hide Flat, Quot;
    var off, bs := InodeOffset(g, ino), g.blockSize;
    var t := InodeTable(g, Flat(d), GroupOf(g, ino));
    var a := InodeAddr(g, Flat(d), ino);
    TableAddress(t, off, bs);
    assert a == Area(t, bs) + off;
    SpanInDisk(bs, d, t + Quot(off, bs), Rem(off, bs), g.inodeSize);
  }

  /** Reads an inode: on a well laid out disk success delivers exactly that inode's bytes. */
  method ReadInode(fs: Ext4, ino: u32, out: array<u8>) returns (rc: int)
    requires fs.Valid() && ValidLayout(fs.geo, Flat(fs.disk))
    requires out != fs.ioBlock && out != fs.descBuf && out.Length >= fs.geo.inodeSize
    modifies out, fs.ioBlock, fs.descBuf, fs.cache
    ensures fs.Valid()
    ensures rc == 0 ==> ValidIno(fs.geo, ino) && out[..] == Splice(old(out[..]), 0, Inode(fs.geo, Flat(fs.disk), ino))
    ensures ino == 0 ==> rc == FS_ERR_INVAL
    ensures ino > 0 && !ValidIno(fs.geo, ino) ==> rc == FS_ERR_NOENT
    ensures fs.reliable && ValidIno(fs.geo, ino) ==> rc == 0
  {
    hide Flat, Area, Quot, Splice, PutSpan, GetSpan;
    if ino == 0 {
      return FS_ERR_INVAL;
    }
    var grp := Quot(ino - 1, fs.geo.inodesPerGroup);
    var index := Rem(ino - 1, fs.geo.inodesPerGroup);
    if grp >= fs.geo.groupCount {
      return FS_ERR_NOENT;
    }
    assert ValidGroup(fs.geo, Flat(fs.disk), grp);
    var drc, _, _, table := ReadGroupDesc(fs, grp);
    if drc != 0 {
      return FS_ERR_IO;
    }
    var bs := fs.geo.blockSize;
    var off := Area(index, fs.geo.inodeSize);
    InodeIsSpan(fs.geo, fs.disk, ino);
    rc := LoadSpan(fs, table + Quot(off, bs), Rem(off, bs), fs.geo.inodeSize, out);
  }

  /** The inode does not straddle two blocks. */
  ghost predicate InOneBlock(g: Geometry, ino: nat)
    requires ValidIno(g, ino) && g.blockSize > 0
  {
    Rem(InodeOffset(g, ino), g.blockSize) + g.inodeSize <= g.blockSize
  }

  /** Where k inodes fill a block exactly, none straddles. */
  lemma InodesFillBlocks(g: Geometry, ino: nat, k: nat)
    requires ValidIno(g, ino) && g.blockSize > 0 && Area(k, g.inodeSize) == g.blockSize && g.inodeSize > 0
    ensures InOneBlock(g, ino)
  {
    ItemInBlock(Rem(ino - 1, g.inodesPerGroup), k, g.inodeSize, g.blockSize);
  }

  lemma {:induction false} ItemInBlock(i: nat, k: nat, size: nat, bs: nat)
    requires size > 0 && bs > 0 && Area(k, size) == bs
    ensures Rem(Area(i, size), bs) + size <= bs
  {
    if i < k {
      AreaStep(i, k, size);
    } else {
      AreaSum(i - k, k, size);
      ItemInBlock(i - k, k, size, bs);
    }
  }

  /** Writes an inode: success splices its bytes into the disk, which is one update of the array of inodes. */
  method WriteInode(fs: Ext4, ino: u32, data: array<u8>) returns (rc: int)
    requires fs.Valid() && ValidLayout(fs.geo, Flat(fs.disk))
    requires data != fs.ioBlock && data != fs.descBuf && data.Length >= fs.geo.inodeSize
    modifies fs`disk, fs.ioBlock, fs.descBuf, fs.cache
    ensures fs.Valid()
    ensures rc == 0 ==> ValidIno(fs.geo, ino)
    ensures rc == 0 ==>
      Flat(fs.disk) == Splice(old(Flat(fs.disk)), InodeAddr(fs.geo, old(Flat(fs.disk)), ino), data[..fs.geo.inodeSize])
    ensures ino == 0 ==> rc == FS_ERR_INVAL
    ensures ino > 0 && !ValidIno(fs.geo, ino) ==> rc == FS_ERR_NOENT
    ensures rc != 0 && ValidIno(fs.geo, ino) && InOneBlock(fs.geo, ino) ==> fs.disk == old(fs.disk)
    ensures fs.reliable && ValidIno(fs.geo, ino) ==> rc == 0
  {
    hide Flat, Area, Quot, Splice, PutSpan, GetSpan;
    if ino == 0 {
      return FS_ERR_INVAL;
    }
    var grp := Quot(ino - 1, fs.geo.inodesPerGroup);
    var index := Rem(ino - 1, fs.geo.inodesPerGroup);
    if grp >= fs.geo.groupCount {
      return FS_ERR_NOENT;
    }
    assert ValidGroup(fs.geo, Flat(fs.disk), grp);
    var drc, _, _, table := ReadGroupDesc(fs, grp);
    if drc != 0 {
      return FS_ERR_IO;
    }
    var bs := fs.geo.blockSize;
    var off := Area(index, fs.geo.inodeSize);
    InodeIsSpan(fs.geo, fs.disk, ino);
    PutInodeIsSplice(fs.geo, fs.disk, ino, data[..fs.geo.inodeSize]);
    rc := StoreSpan(fs, table + Quot(off, bs), Rem(off, bs), data, fs.geo.inodeSize);
  }

  /** The inodes of the disk as a plain array, inode 1 first. */
  ghost function InodeArray(g: Geometry, f: seq<u8>): seq<seq<u8>>
    requires ValidLayout(g, f) && g.inodesPerGroup > 0
  {
    seq(Area(g.groupCount, g.inodesPerGroup), i requires 0 <= i < Area(g.groupCount, g.inodesPerGroup) =>
      (IndexIsIno(g, i); Inode(g, f, i + 1)))
  }

  lemma IndexIsIno(g: Geometry, i: nat)
    requires g.inodesPerGroup > 0
    ensures i < Area(g.groupCount, g.inodesPerGroup) <==> ValidIno(g, i + 1)
  {
    var q := Quot(i, g.inodesPerGroup);
    if q < g.groupCount {
      AreaStep(q, g.groupCount, g.inodesPerGroup);
    } else if g.groupCount < q {
      AreaStep(g.groupCount, q, g.inodesPerGroup);
    }
  }

  /** Splicing an inode into the disk refines `inodes[ino - 1] := data`, straddling blocks or not. */
  lemma WriteInodeRefinesArray(g: Geometry, f: seq<u8>, ino: nat, data: seq<u8>)
    requires ValidLayout(g, f) && ValidIno(g, ino) && |data| == g.inodeSize
    ensures var f' := Splice(f, InodeAddr(g, f, ino), data);
      && ValidLayout(g, f')
      && ino - 1 < |InodeArray(g, f)|
      && InodeArray(g, f') == InodeArray(g, f)[ino - 1 := data]
  {
    hide Area, Quot, ValidLayout, Inode, Splice;
    IndexIsIno(g, ino - 1);
    PutInodeIsUpdate(g, f, ino, data, ino);
    var f' := Splice(f, InodeAddr(g, f, ino), data);
    forall i | 0 <= i < Area(g.groupCount, g.inodesPerGroup)
      ensures InodeArray(g, f')[i] == InodeArray(g, f)[ino - 1 := data][i]
    {
      IndexIsIno(g, i);
      PutInodeIsUpdate(g, f, ino, data, i + 1);
    }
  }
}

/** Reading the bytes of a file block by block, holes included, and reading back what was written. */
module Ext4Read {
  import opened Bytes
  import opened Ext4State
  import opened Ext4Layout
  import opened Ext4Extents
  import opened Ext4Alloc
  import opened Ext4Files
  import opened Ext4Growth
  import opened Ext4Data
  import opened Ext4Write
  import Ext4Inodes

  /** Byte `k` of a file with an inline leaf: a hole reads as zero. */
  ghost function LeafByte(bs: nat, d: Disk, r: Root, k: u32): u8
    requires bs > 0 && Entries(r) <= INLINE_MAX
  {
    match Map(r, Quot(k, bs))
    case Mapped(p) => if p < |d| && Rem(k, bs) < |d[p]| then d[p][Rem(k, bs)] else 0
    case _ => 0
  }

  /** `n` bytes of the file from `offset` on. */
  ghost function LeafBytes(bs: nat, d: Disk, r: Root, offset: nat, n: nat): (s: seq<u8>)
    requires bs > 0 && Entries(r) <= INLINE_MAX && offset + n < 0x1_0000_0000
    ensures |s| == n && forall i :: 0 <= i < n ==> s[i] == LeafByte(bs, d, r, offset + i)
  {
    seq<u8>(n, i requires 0 <= i < n => LeafByte(bs, d, r, offset + i))
  }

  /** The block that holds byte `k` can be delivered. */
  ghost predicate Deliverable(bs: nat, d: Disk, r: Root, k: u32)
    requires bs > 0 && Entries(r) <= INLINE_MAX
  {
    match Map(r, Quot(k, bs))
    case Mapped(p) => p < |d|
    case Hole => true
    case Unsupported => false
  }

  /** The inode holds an inline leaf, or its size is refused before the leaf is looked at. */
  predicate InlineLeaf(ib: InodeBytes)
  {
    && HasExtents(ib) && Magic(RootOf(ib)) == EXTENT_MAGIC
    && Entries(RootOf(ib)) <= INLINE_MAX && Depth(RootOf(ib)) == 0
  }

  /** How many bytes a read of `len` bytes at `offset` can deliver. */
  function ReadLen(size: nat, offset: nat, len: nat): nat
  {
    if offset >= size then 0 else if len > size - offset then size - offset else len
  }

  /** `want` further bytes, all in one block, go behind the `done` bytes read so far. */
  lemma ReadChunk(bs: nat, d: Disk, r: Root, offset: nat, done: nat, want: nat, before: seq<u8>, data: seq<u8>)
    requires bs > 0 && Entries(r) <= INLINE_MAX && offset + done + want < 0x1_0000_0000 && done + want <= |before|
    requires Rem(offset + done, bs) + want <= bs && |data| == want
    requires match Map(r, Quot(offset + done, bs))
      case Mapped(p) => p < |d| && |d[p]| == bs && data == d[p][Rem(offset + done, bs)..Rem(offset + done, bs) + want]
      case Hole => data == Zeros(want)
      case Unsupported => false
    ensures Splice(Splice(before, 0, LeafBytes(bs, d, r, offset, done)), done, data)
      == Splice(before, 0, LeafBytes(bs, d, r, offset, done + want))
  {
    hide Quot, Area, Map, Splice;
    var l := Quot(offset + done, bs);
    forall i | 0 <= i < want
      ensures data[i] == LeafByte(bs, d, r, offset + done + i)
    {
      QuotUnique(offset + done + i, bs, l);
    }
    AdjacentSplices(before, 0, LeafBytes(bs, d, r, offset, done), data);
    assert LeafBytes(bs, d, r, offset, done) + data == LeafBytes(bs, d, r, offset, done + want);
  }

  ghost predicate Readable(g: Geometry, f: seq<u8>, ino: nat)
  {
    ValidLayout(g, f) && ValidIno(g, ino) && g.inodeSize >= 128 && SizeReadable(Inode(g, f, ino))
  }

  /** What a read of file `ino` at `offset` that returns n > 0 delivers: n of the file's bytes, and all there are if every block can be had. */
  ghost predicate Delivers(g: Geometry, d: Disk, ino: nat, offset: nat, len: nat, reliable: bool, n: int, before: seq<u8>, after: seq<u8>)
    requires Readable(g, Flat(d), ino) && InlineLeaf(Inode(g, Flat(d), ino)) && g.blockSize > 0
  {
    var ib := Inode(g, Flat(d), ino);
    var full := ReadLen(SizeOf(ib), offset, len);
    && n <= full && |after| == |before| && offset + full < 0x1_0000_0000
    && (n <= 0 ==> after == before)
    && (n > 0 ==> n <= |before| && after == Splice(before, 0, LeafBytes(g.blockSize, d, RootOf(ib), offset, n)))
    && (reliable && (forall k: u32 | offset <= k < offset + full :: Deliverable(g.blockSize, d, RootOf(ib), k)) ==> n == full)
  }

  /** What a read of up to `len` bytes at `offset` of a file with contents c returns: the bytes there, never any past the end,
      and if no transfer can fail then `len` bytes or all up to the end. */
  ghost predicate ReadsContents(c: seq<u8>, offset: nat, len: nat, reliable: bool, rc: int, after: seq<u8>)
  {
    && (offset >= |c| ==> rc <= 0)
    && (rc > 0 ==> rc <= len && offset + rc <= |c| && rc <= |after| && after[..rc] == c[offset..offset + rc])
    && (reliable ==> rc >= 0 && (offset > |c| ==> rc == 0) && (offset <= |c| ==> rc == len || offset + rc == |c|))
  }

  /** A read of a file in good order returns its contents at the offset, up to the length asked for or the end of the file. */
  lemma DeliversContents(g: Geometry, d: Disk, ino: nat, offset: nat, len: nat, reliable: bool, rc: int, before: seq<u8>, after: seq<u8>)
    requires ValidDisk(g, d) && Readable(g, Flat(d), ino) && FileOk(g, Flat(d), Inode(g, Flat(d), ino))
    requires InlineLeaf(Inode(g, Flat(d), ino)) && g.blockSize > 0
    requires Delivers(g, d, ino, offset, len, reliable, rc, before, after)
    ensures ReadsContents(Contents(g, d, Inode(g, Flat(d), ino)), offset, len, reliable, rc, after)
  {
    hide Flat, Area, Quot, Desc, Used, ValidLayout, Rd16, Rd32, Map, PBlock, Owns, Dense, NotMeta, HasExtents, BlocksFor, Inode, InlineLeaf, SizeReadable, Splice;
    var ib := Inode(g, Flat(d), ino);
    var n := if rc > 0 then rc else 0;
    if offset + n <= SizeOf(ib) {
      LeafBytesAreContents(g, d, ib, offset, n);
      if rc > 0 {
        SliceOfSplice(before, 0, LeafBytes(g.blockSize, d, RootOf(ib), offset, n), 0, 0);
      }
    }
  }

  /** A read from the start with a length no smaller than the file delivers the whole contents. */
  lemma WholeFileRead(c: seq<u8>, len: nat, rc: int, after: seq<u8>)
    requires ReadsContents(c, 0, len, true, rc, after) && |c| <= len && |c| <= |after|
    ensures rc == |c| && after[..|c|] == c
  {
    if rc > 0 {
      assert c[0..rc] == c[..rc];
    }
  }

  /** The same, for a read that may also concern a file that is not in good order. */
  lemma Delivered(g: Geometry, d: Disk, ino: nat, offset: nat, len: nat, reliable: bool, rc: int, before: seq<u8>, after: seq<u8>)
    requires ValidDisk(g, d) && g.blockSize > 0 && (Readable(g, Flat(d), ino) ==> InlineLeaf(Inode(g, Flat(d), ino)))
    requires Readable(g, Flat(d), ino) ==> Delivers(g, d, ino, offset, len, reliable, rc, before, after)
    ensures Readable(g, Flat(d), ino) && FileOk(g, Flat(d), Inode(g, Flat(d), ino)) ==>
      ReadsContents(Contents(g, d, Inode(g, Flat(d), ino)), offset, len, reliable, rc, after)
  {
    hide Flat, Inode, FileOk, Contents, Delivers, ReadsContents, ValidLayout, InlineLeaf;
    if Readable(g, Flat(d), ino) && FileOk(g, Flat(d), Inode(g, Flat(d), ino)) {
      DeliversContents(g, d, ino, offset, len, reliable, rc, before, after);
    }
  }

  /** A read of nothing returns nothing. */
  lemma NothingAsked(g: Geometry, d: Disk, ino: nat, offset: nat, reliable: bool, after: seq<u8>)
    requires ValidDisk(g, d)
    ensures Readable(g, Flat(d), ino) && FileOk(g, Flat(d), Inode(g, Flat(d), ino)) ==>
      ReadsContents(Contents(g, d, Inode(g, Flat(d), ino)), offset, 0, reliable, 0, after)
  {
    hide Flat, Inode, FileOk, Contents, Readable;
  }

  /** Reads `len` bytes of file `ino` from `offset` on: what arrives are the file's own bytes, as many as there are. */
  method ReadData(fs: Ext4, ino: u32, offset: u32, dst: array<u8>, len: u32) returns (rc: int)
    requires fs.Valid() && ValidLayout(fs.geo, Flat(fs.disk)) && len <= dst.Length
    requires dst != fs.ioBlock && dst != fs.inodeBuf && dst != fs.descBuf
    requires Readable(fs.geo, Flat(fs.disk), ino) ==> InlineLeaf(Inode(fs.geo, Flat(fs.disk), ino))
    modifies dst, fs.ioBlock, fs.inodeBuf, fs.descBuf, fs.cache
    ensures fs.Valid()
    ensures len == 0 ==> rc == 0 && dst[..] == old(dst[..])
    ensures len > 0 && !Readable(fs.geo, Flat(fs.disk), ino) ==> rc < 0 && dst[..] == old(dst[..])
    ensures len > 0 && Readable(fs.geo, Flat(fs.disk), ino) ==>
      Delivers(fs.geo, fs.disk, ino, offset, len, fs.reliable, rc, old(dst[..]), dst[..])
    ensures Readable(fs.geo, Flat(fs.disk), ino) && FileOk(fs.geo, Flat(fs.disk), Inode(fs.geo, Flat(fs.disk), ino)) ==>
      ReadsContents(Contents(fs.geo, fs.disk, Inode(fs.geo, Flat(fs.disk), ino)), offset, len, fs.reliable, rc, dst[..])
  {
    hide Flat, Area, Quot, Desc, Used, ValidLayout, Rd16, Rd32, Inode, HasExtents, SizeReadable, SizeOf, Splice, Map, FileOk, Contents, ReadsContents;
    if len == 0 {
      NothingAsked(fs.geo, fs.disk, ino, offset, fs.reliable, dst[..]);
      return 0;
    }
    ghost var g, buf := fs.geo, fs.inodeBuf[..];
    rc := Ext4Inodes.ReadInode(fs, ino, fs.inodeBuf);
    if rc != 0 {
      Delivered(g, fs.disk, ino, offset, len, fs.reliable, FS_ERR_IO, old(dst[..]), dst[..]);
      return FS_ERR_IO;
    }
    ghost var ib := Inode(g, Flat(fs.disk), ino);
    BufferStarts(g, Flat(fs.disk), ino, buf, fs.inodeBuf[..]);
    SameFields(ib, fs.inodeBuf[..]);
    if !SizeReadable(fs.inodeBuf[..]) {
      return FS_ERR_NOSYS;
    }
    var size := SizeOf(fs.inodeBuf[..]);
    if offset >= size {
      Delivered(g, fs.disk, ino, offset, len, fs.reliable, 0, old(dst[..]), dst[..]);
      return 0;
    }
    var n := len;
    if n > size - offset {
      n := size - offset;
    }
    rc := ReadLoop(fs, offset, dst, n, RootOf(fs.inodeBuf[..]));
    Delivered(g, fs.disk, ino, offset, len, fs.reliable, rc, old(dst[..]), dst[..]);
  }

  /** The read loop. */
  method ReadLoop(fs: Ext4, offset: u32, dst: array<u8>, n: u32, ghost r: Root) returns (rc: int)
    requires fs.Valid() && 0 < n <= dst.Length && offset + n < 0x1_0000_0000 && dst != fs.ioBlock && dst != fs.inodeBuf
    requires fs.inodeBuf[INODE_ROOT..INODE_ROOT + ROOT_BYTES] == r
    requires Magic(r) == EXTENT_MAGIC && Entries(r) <= INLINE_MAX && Depth(r) == 0
    modifies dst, fs.ioBlock, fs.cache
    ensures fs.Valid() && rc <= n && (rc <= 0 ==> dst[..] == old(dst[..]))
    ensures rc > 0 ==> dst[..] == Splice(old(dst[..]), 0, LeafBytes(fs.geo.blockSize, fs.disk, r, offset, rc))
    ensures fs.reliable && (forall k: u32 | offset <= k < offset + n :: Deliverable(fs.geo.blockSize, fs.disk, r, k)) ==> rc == n
  {
    hide Area, Quot, Rd16, Rd32, Splice, Map, Deliverable;
    var bs := fs.geo.blockSize;
    ghost var d, before := fs.disk, dst[..];
    NothingRead(bs, d, r, offset, before);
    var done := 0;
    while done < n
      invariant fs.Valid() && 0 <= done <= n && fs.disk == d
      invariant fs.inodeBuf[INODE_ROOT..INODE_ROOT + ROOT_BYTES] == r
      invariant dst[..] == Splice(before, 0, LeafBytes(bs, d, r, offset, done))
    {
      var pos := offset + done;
      var logical, inBlock := Quot(pos, bs), Rem(pos, bs);
      var want := n - done;
      if want > bs - inBlock {
        want := bs - inBlock;
      }
      BlockedHere(bs, d, r, pos);
      var mrc, p := ExtentMap(fs.inodeBuf, INODE_ROOT, logical);
      if mrc == FS_ERR_NOENT {
        ReadChunk(bs, d, r, offset, done, want, before, Zeros(want));
        ZeroBytes(dst, done, done + want);
      } else {
        if mrc != 0 {
          rc := if done != 0 then done else mrc;
          return;
        }
        var brc := fs.ReadBlock(p, fs.ioBlock);
        if brc != 0 {
          rc := if done != 0 then done else FS_ERR_IO;
          return;
        }
        ReadChunk(bs, d, r, offset, done, want, before, d[p][inBlock..inBlock + want]);
        SliceOfSlice(fs.ioBlock[..], 0, bs, inBlock, inBlock + want);
        assert fs.ioBlock[..][0..bs] == fs.ioBlock[..bs] == d[p];
        CopyBytes(dst, done, fs.ioBlock, inBlock, want);
      }
      done := done + want;
    }
    rc := done;
  }

  lemma NothingRead(bs: nat, d: Disk, r: Root, offset: u32, before: seq<u8>)
    requires bs > 0 && Entries(r) <= INLINE_MAX
    ensures before == Splice(before, 0, LeafBytes(bs, d, r, offset, 0))
  {
  }

  /** Where a block cannot be delivered, its byte is not deliverable. */
  lemma BlockedHere(bs: nat, d: Disk, r: Root, k: u32)
    requires bs > 0 && Entries(r) <= INLINE_MAX
    ensures Map(r, Quot(k, bs)) == Unsupported ==> !Deliverable(bs, d, r, k)
    ensures Map(r, Quot(k, bs)).Mapped? && Map(r, Quot(k, bs)).pblock >= |d| ==> !Deliverable(bs, d, r, k)
  {
    hide Quot, Area, Map;
  }

  /** On a file in good order the leaf's bytes are the contents. */
  lemma LeafBytesAreContents(g: Geometry, d: Disk, ib: InodeBytes, offset: nat, n: nat)
    requires ValidDisk(g, d) && FileOk(g, Flat(d), ib) && offset + n <= SizeOf(ib)
    ensures Entries(RootOf(ib)) <= INLINE_MAX && InlineLeaf(ib)
    ensures LeafBytes(g.blockSize, d, RootOf(ib), offset, n) == Contents(g, d, ib)[offset..offset + n]
    ensures forall k: u32 | k < SizeOf(ib) :: Deliverable(g.blockSize, d, RootOf(ib), k)
  {
    hide Flat, Area, Quot, Desc, Used, ValidLayout, Rd16, Rd32, Map, PBlock, Owns, Dense, NotMeta, HasExtents, BlocksFor;
    var r, n0 := RootOf(ib), BlocksFor(SizeOf(ib), g.blockSize);
    DenseLeaf(g, r, n0);
    forall k: u32 | k < SizeOf(ib)
      ensures Deliverable(g.blockSize, d, r, k) && LeafByte(g.blockSize, d, r, k) == Contents(g, d, ib)[k]
    {
      OwnsInDisk(g, Flat(d), r, n0, k);
      DenseMap(g, r, n0, Quot(k, g.blockSize));
    }
  }

  /** What a finished write stored is what a read of the same range then delivers, all of it or, where a transfer fails, its beginning. */
  lemma ReadsBackWrite(g: Geometry, d0: Disk, d: Disk, ino: nat, offset: nat, src: seq<u8>, newSize: nat, reliable: bool, rc: int,
      before: seq<u8>, after: seq<u8>)
    requires Finished(g, d0, d, ino, offset, src, newSize) && src != []
    ensures Readable(g, Flat(d), ino) && InlineLeaf(Inode(g, Flat(d), ino)) && g.blockSize > 0
    ensures Delivers(g, d, ino, offset, |src|, reliable, rc, before, after) ==>
      (reliable ==> rc == |src|) && rc <= |src| && (rc > 0 ==> rc <= |after| && after[..rc] == src[..rc])
  {
    hide Flat, Area, Quot, Desc, Used, ValidLayout, Rd16, Rd32, Map, PBlock, Owns, Dense, NotMeta, HasExtents, BlocksFor, Inode, InlineLeaf, SizeReadable, Overwrite, ForeignKept, UsedGrown, MetaUsed, SameGdt, Splice;
    var ib0, ib := Inode(g, Flat(d0), ino), Inode(g, Flat(d), ino);
    var c := Contents(g, d0, ib0);
    OverwriteBytes(c, offset, src);
    LeafBytesAreContents(g, d, ib, offset, |src|);
    assert Overwrite(c, offset, src)[offset..offset + |src|] == src;
    if Delivers(g, d, ino, offset, |src|, reliable, rc, before, after) && rc > 0 {
      LeafBytesAreContents(g, d, ib, offset, rc);
      assert Overwrite(c, offset, src)[offset..offset + rc] == src[..rc];
      SliceOfSplice(before, 0, src[..rc], 0, 0);
    }
  }
}

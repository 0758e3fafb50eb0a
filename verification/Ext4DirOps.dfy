/** Adding, removing and finding the entries of a directory spread over the blocks of its file. */
module Ext4DirOps {
  import opened Bytes
  import opened Ext4State
  import opened Ext4Layout
  import opened Ext4Extents
  import opened Ext4Alloc
  import opened Ext4Files
  import opened Ext4Growth
  import opened Ext4Data
  import opened Ext4Write
  import opened Ext4Dir
  import Ext4Inodes

  const DIRECTORY: nat := 4

  ghost predicate TiledBlock(d: Disk, r: Root, l: nat)
    requires Entries(r) <= INLINE_MAX
  {
    PBlock(r, l) < |d| && Tiled(d[PBlock(r, l)], 0)
  }

  ghost predicate TiledBlocks(d: Disk, r: Root, n: nat)
    requires Entries(r) <= INLINE_MAX
  {
    forall l: nat | l < n :: TiledBlock(d, r, l)
  }

  /** A directory in good order: its file is, and every block of it is tiled by records. */
  ghost predicate DirOk(g: Geometry, d: Disk, ib: InodeBytes)
  {
    && ValidDisk(g, d) && FileOk(g, Flat(d), ib) && ModeType(ib) == DIRECTORY
    && TiledBlocks(d, RootOf(ib), BlocksFor(SizeOf(ib), g.blockSize))
  }

  /** The entries in use in block l of the directory. */
  ghost function BlockEntries(d: Disk, r: Root, l: nat): seq<Entry>
    requires Entries(r) <= INLINE_MAX && TiledBlock(d, r, l)
  {
    InUse(d[PBlock(r, l)], 0)
  }

  /** All entries in use in the first n blocks, in order. */
  ghost function Listing(d: Disk, r: Root, n: nat): seq<Entry>
    requires Entries(r) <= INLINE_MAX && TiledBlocks(d, r, n)
  {
    if n == 0 then [] else Listing(d, r, n - 1) + BlockEntries(d, r, n - 1)
  }

  /** The entries of a directory. */
  ghost function EntriesOf(g: Geometry, d: Disk, ib: InodeBytes): seq<Entry>
    requires DirOk(g, d, ib)
  {
    Listing(d, RootOf(ib), BlocksFor(SizeOf(ib), g.blockSize))
  }

  /** Only block p of the disk, a block of the directory, changed, to s. */
  ghost predicate BlockChanged(g: Geometry, d: Disk, d': Disk, ib: InodeBytes, l: nat, s: seq<u8>)
    requires DirOk(g, d, ib)
  {
    && l < BlocksFor(SizeOf(ib), g.blockSize) && TiledBlock(d, RootOf(ib), l)
    && |s| == g.blockSize && Tiled(s, 0) && d' == d[PBlock(RootOf(ib), l) := s]
  }

  lemma ListingChanged(d: Disk, r: Root, n: nat, l: nat, s: seq<u8>, e: Entry)
    requires Entries(r) <= INLINE_MAX && TiledBlocks(d, r, n) && l < n && Tiled(s, 0)
    requires forall m: nat | m < n && m != l :: PBlock(r, m) != PBlock(r, l)
    ensures PBlock(r, l) < |d| && TiledBlock(d, r, l)
    ensures TiledBlocks(d[PBlock(r, l) := s], r, n)
    ensures Inserted(BlockEntries(d, r, l), InUse(s, 0), e) ==> Inserted(Listing(d, r, n), Listing(d[PBlock(r, l) := s], r, n), e)
    ensures Inserted(InUse(s, 0), BlockEntries(d, r, l), e) ==> Inserted(Listing(d[PBlock(r, l) := s], r, n), Listing(d, r, n), e)
  {
    hide PBlock, Tiled, InUse, Inserted;
    assert TiledBlock(d, r, l);
    var d' := d[PBlock(r, l) := s];
    forall m: nat | m < n
      ensures TiledBlock(d', r, m)
    {
      assert TiledBlock(d, r, m);
    }
    if l < n - 1 {
      ListingChanged(d, r, n - 1, l, s, e);
      assert TiledBlock(d, r, n - 1) && PBlock(r, n - 1) != PBlock(r, l);
      var x, x', y := Listing(d, r, n - 1), Listing(d', r, n - 1), BlockEntries(d, r, n - 1);
      if Inserted(x, x', e) {
        InsertedBefore(x, x', y, e);
      }
      if Inserted(x', x, e) {
        InsertedBefore(x', x, y, e);
      }
    } else {
      forall m: nat | m < n - 1
        ensures PBlock(r, m) < |d| && PBlock(r, m) < |d'| && d'[PBlock(r, m)] == d[PBlock(r, m)]
      {
        assert TiledBlock(d, r, m);
      }
      ListingSame(d, d', r, n - 1);
      var x, y, y' := Listing(d, r, n - 1), BlockEntries(d, r, l), InUse(s, 0);
      if Inserted(y, y', e) {
        InsertedBehind(x, y, y', e);
      }
      if Inserted(y', y, e) {
        InsertedBehind(x, y', y, e);
      }
    }
  }

  lemma ListingSame(d: Disk, d': Disk, r: Root, n: nat)
    requires Entries(r) <= INLINE_MAX && TiledBlocks(d, r, n) && TiledBlocks(d', r, n)
    requires forall m: nat | m < n :: PBlock(r, m) < |d| && PBlock(r, m) < |d'| && d'[PBlock(r, m)] == d[PBlock(r, m)]
    ensures Listing(d', r, n) == Listing(d, r, n)
  {
    hide PBlock, Tiled, InUse;
  }

  lemma InsertedBefore(x: seq<Entry>, x': seq<Entry>, y: seq<Entry>, e: Entry)
    requires Inserted(x, x', e)
    ensures Inserted(x + y, x' + y, e)
  {
    var k: nat :| k <= |x| && InsertedAt(x, x', e, k);
    assert x + y == x[..k] + (x[k..] + y);
    assert x' + y == x[..k] + [e] + (x[k..] + y);
    InsertedHere(x[..k], x[k..] + y, e);
  }

  lemma InsertedBehind(x: seq<Entry>, y: seq<Entry>, y': seq<Entry>, e: Entry)
    requires Inserted(y, y', e)
    ensures Inserted(x + y, x + y', e)
  {
    var k: nat :| k <= |y| && InsertedAt(y, y', e, k);
    assert x + y == (x + y[..k]) + y[k..];
    assert x + y' == (x + y[..k]) + [e] + y[k..];
    InsertedHere(x + y[..k], y[k..], e);
  }

  /** A change of one block of a directory keeps the directory in order, every inode, every in-use bit and every other block. */
  lemma BlockChangeKeeps(g: Geometry, d: Disk, d': Disk, ib: InodeBytes, l: nat, s: seq<u8>, e: Entry)
    requires DirOk(g, d, ib) && BlockChanged(g, d, d', ib, l, s)
    ensures DirOk(g, d', ib) && InodesSame(g, Flat(d), Flat(d'))
    ensures forall b: nat | b < |d| && b != PBlock(RootOf(ib), l) :: d'[b] == d[b]
    ensures ValidLayout(g, Flat(d)) && ValidLayout(g, Flat(d'))
      && forall b: nat | InData(g, b) :: Used(g, Flat(d), b) <==> Used(g, Flat(d'), b)
    ensures Inserted(BlockEntries(d, RootOf(ib), l), InUse(s, 0), e) ==> Inserted(EntriesOf(g, d, ib), EntriesOf(g, d', ib), e)
    ensures Inserted(InUse(s, 0), BlockEntries(d, RootOf(ib), l), e) ==> Inserted(EntriesOf(g, d', ib), EntriesOf(g, d, ib), e)
  {
    hide Flat, Area, Quot, Desc, Used, ValidLayout, Rd16, Rd32, PBlock, Dense, NotMeta, Tiled, InUse, Inserted, HasExtents, SizeReadable, BlocksFor, InodesSame;
    var r, n := RootOf(ib), BlocksFor(SizeOf(ib), g.blockSize);
    DenseEntries(g, r, n);
    var p := PBlock(r, l);
    assert OwnedBlock(g, Flat(d), p);
    DataWriteKeepsMeta(g, d, p, s);
    InodesSameLayouts(g, Flat(d), Flat(d'));
    OwnsStill(g, Flat(d), Flat(d'), r, n);
    ListingChanged(d, r, n, l, s, e);
  }

  // ---------- the operations ----------

  ghost predicate IsDir(g: Geometry, f: seq<u8>, ino: nat)
  {
    ValidLayout(g, f) && ValidIno(g, ino) && g.inodeSize >= 128 && ModeType(Inode(g, f, ino)) == DIRECTORY
  }

  /** What all three operations need: a directory, if it is one, is in good order. */
  ghost predicate DirReady(g: Geometry, d: Disk, ino: nat)
  {
    IsDir(g, Flat(d), ino) ==> DirOk(g, d, Inode(g, Flat(d), ino))
  }

  predicate NameOk(name: seq<u8>) { 0 < |name| <= MAX_NAME }

  /** The start of each operation: fetches the directory's inode and tells how many blocks it has. */
  method OpenDir(fs: Ext4, ino: u32) returns (rc: int, blocks: nat)
    requires fs.Valid() && ValidLayout(fs.geo, Flat(fs.disk)) && DirReady(fs.geo, fs.disk, ino)
    modifies fs.ioBlock, fs.descBuf, fs.cache, fs.inodeBuf
    ensures fs.Valid() && (rc == 0 || rc == FS_ERR_IO || rc == FS_ERR_NOTDIR)
    ensures rc == 0 ==> IsDir(fs.geo, Flat(fs.disk), ino) && Buffers(Inode(fs.geo, Flat(fs.disk), ino), fs.inodeBuf[..])
    ensures rc == 0 ==> blocks == BlocksFor(SizeOf(Inode(fs.geo, Flat(fs.disk), ino)), fs.geo.blockSize)
    ensures !ValidIno(fs.geo, ino) ==> rc == FS_ERR_IO
    ensures fs.reliable && ValidIno(fs.geo, ino) ==> rc == if IsDir(fs.geo, Flat(fs.disk), ino) then 0 else FS_ERR_NOTDIR
  {
    hide Flat, Area, Quot, Desc, Used, ValidLayout, Rd16, Rd32, Inode, PBlock, Owns, Dense, HasExtents, BlocksFor, TiledBlocks, RootOf, ModeType, SizeOf, Splice;
    blocks := 0;
    ghost var before := fs.inodeBuf[..];
    var rrc := Ext4Inodes.ReadInode(fs, ino, fs.inodeBuf);
    if rrc != 0 {
      return FS_ERR_IO, 0;
    }
    BufferStarts(fs.geo, Flat(fs.disk), ino, before, fs.inodeBuf[..]);
    SameFields(Inode(fs.geo, Flat(fs.disk), ino), fs.inodeBuf[..]);
    if ModeType(fs.inodeBuf[..]) != DIRECTORY {
      return FS_ERR_NOTDIR, 0;
    }
    var size := SizeOf(fs.inodeBuf[..]);
    EofBlock(size, fs.geo.blockSize);
    blocks := Quot(size + fs.geo.blockSize - 1, fs.geo.blockSize);
    rc := 0;
  }

  /** Where block l of a directory lies, looked up in the inode buffer. */
  lemma DirBlock(g: Geometry, d: Disk, ib: InodeBytes, b: InodeBytes, l: nat)
    requires DirOk(g, d, ib) && Buffers(ib, b) && l < BlocksFor(SizeOf(ib), g.blockSize)
    ensures l < 0x1_0000_0000
    ensures var r := RootOf(b);
      && r == RootOf(ib) && Entries(r) <= INLINE_MAX && Depth(r) == 0 && Magic(r) == EXTENT_MAGIC
      && Map(r, l) == Mapped(PBlock(r, l)) && TiledBlock(d, r, l) && |d[PBlock(r, l)]| == g.blockSize
  {
    hide Flat, Area, Quot, Desc, Used, ValidLayout, Rd16, Rd32, PBlock, Owns, Dense, HasExtents, Map, Tiled, InUse, NotMeta, SizeOf, RootOf;
    var r, n := RootOf(ib), BlocksFor(SizeOf(ib), g.blockSize);
    SameFields(ib, b);
    DenseLeaf(g, r, n);
    DenseMap(g, r, n, l);
    assert TiledBlock(d, r, l);
  }

  /** Fetches block l of the directory into the transfer buffer. */
  method LoadDirBlock(fs: Ext4, l: nat, ghost ib: InodeBytes) returns (rc: int, p: u32)
    requires fs.Valid() && DirOk(fs.geo, fs.disk, ib) && Buffers(ib, fs.inodeBuf[..])
    requires l < BlocksFor(SizeOf(ib), fs.geo.blockSize)
    modifies fs.ioBlock, fs.cache
    ensures fs.Valid() && (rc == 0 || rc == FS_ERR_IO)
    ensures rc == 0 ==> TiledBlock(fs.disk, RootOf(ib), l) && p == PBlock(RootOf(ib), l)
    ensures rc == 0 ==> p < |fs.disk| && fs.ioBlock[..fs.geo.blockSize] == fs.disk[p]
    ensures fs.reliable ==> rc == 0
  {
    hide Flat, Area, Quot, Desc, Used, ValidLayout, Rd16, Rd32, PBlock, Owns, Dense, HasExtents, Map, Tiled, InUse, FileOk, BlocksFor, TiledBlocks, SizeOf, Splice;
    DirBlock(fs.geo, fs.disk, ib, fs.inodeBuf[..], l);
    assert fs.inodeBuf[INODE_ROOT..INODE_ROOT + ROOT_BYTES] == RootOf(fs.inodeBuf[..]);
    rc, p := ExtentMap(fs.inodeBuf, INODE_ROOT, l);
    if rc != 0 {
      rc := FS_ERR_IO;
      return;
    }
    rc := fs.ReadBlock(p, fs.ioBlock);
  }

  /** Exactly one entry was added to directory `ino`; no inode, no in-use bit and no block but one of the directory's own changed. */
  ghost predicate EntryAdded(g: Geometry, d: Disk, d': Disk, ino: nat, e: Entry)
  {
    && IsDir(g, Flat(d), ino)
    && var ib := Inode(g, Flat(d), ino);
    && DirOk(g, d, ib) && DirOk(g, d', ib) && InodesSame(g, Flat(d), Flat(d'))
    && Inserted(EntriesOf(g, d, ib), EntriesOf(g, d', ib), e)
    && OnlyOwnBlocks(g, d, d', ib)
  }

  ghost predicate EntryRemoved(g: Geometry, d: Disk, d': Disk, ino: nat, e: Entry)
  {
    && IsDir(g, Flat(d), ino)
    && var ib := Inode(g, Flat(d), ino);
    && DirOk(g, d, ib) && DirOk(g, d', ib) && InodesSame(g, Flat(d), Flat(d'))
    && Inserted(EntriesOf(g, d', ib), EntriesOf(g, d, ib), e)
    && OnlyOwnBlocks(g, d, d', ib)
  }

  /** In-use bits as they were, and no block but one of the directory's own differs. */
  ghost predicate OnlyOwnBlocks(g: Geometry, d: Disk, d': Disk, ib: InodeBytes)
  {
    && ValidGeometry(g) && ValidLayout(g, Flat(d)) && ValidLayout(g, Flat(d')) && |d'| == |d| && Entries(RootOf(ib)) <= INLINE_MAX
    && (forall b: nat | InData(g, b) :: Used(g, Flat(d), b) <==> Used(g, Flat(d'), b))
    && exists l: nat :: l < BlocksFor(SizeOf(ib), g.blockSize) && OnlyBlock(d, d', PBlock(RootOf(ib), l))
  }

  ghost predicate OnlyBlock(d: Disk, d': Disk, p: nat)
  {
    |d'| == |d| && forall b: nat | b < |d| && b != p :: d'[b] == d[b]
  }

  /** No block of directory `ino` has a record with room for `need` bytes. */
  ghost predicate DirFull(g: Geometry, d: Disk, ino: nat, need: nat)
  {
    && IsDir(g, Flat(d), ino) && DirOk(g, d, Inode(g, Flat(d), ino))
    && var ib := Inode(g, Flat(d), ino);
    forall l: nat | l < BlocksFor(SizeOf(ib), g.blockSize) :: BlockFull(d, RootOf(ib), l, need)
  }

  ghost predicate BlockFull(d: Disk, r: Root, l: nat, need: nat)
    requires Entries(r) <= INLINE_MAX
  {
    TiledBlock(d, r, l) && NoRoom(d[PBlock(r, l)], 0, need)
  }

  lemma DirFacts(g: Geometry, d: Disk, ib: InodeBytes)
    requires DirOk(g, d, ib)
    ensures ValidGeometry(g) && ValidDisk(g, d) && ValidLayout(g, Flat(d)) && Entries(RootOf(ib)) <= INLINE_MAX
  {
    DenseEntries(g, RootOf(ib), BlocksFor(SizeOf(ib), g.blockSize));
  }

  lemma AddedInBlock(g: Geometry, d: Disk, d': Disk, ino: nat, ib: InodeBytes, l: nat, s: seq<u8>, e: Entry)
    requires IsDir(g, Flat(d), ino) && ib == Inode(g, Flat(d), ino) && DirOk(g, d, ib)
    requires BlockChanged(g, d, d', ib, l, s) && Inserted(BlockEntries(d, RootOf(ib), l), InUse(s, 0), e)
    ensures EntryAdded(g, d, d', ino, e) && DirOk(g, d', ib)
  {
    hide Flat, Area, Quot, Desc, Used, ValidLayout, Rd16, Rd32, PBlock, Owns, Dense, HasExtents, Tiled, InUse, NotMeta, SizeOf, BlocksFor, Inserted, InodesSame, FileOk, Inode, EntriesOf, DirOk;
    DirFacts(g, d, ib);
    BlockChangeKeeps(g, d, d', ib, l, s, e);
    assert OnlyBlock(d, d', PBlock(RootOf(ib), l));
  }

  lemma RemovedInBlock(g: Geometry, d: Disk, d': Disk, ino: nat, ib: InodeBytes, l: nat, s: seq<u8>, e: Entry)
    requires IsDir(g, Flat(d), ino) && ib == Inode(g, Flat(d), ino) && DirOk(g, d, ib)
    requires BlockChanged(g, d, d', ib, l, s) && Inserted(InUse(s, 0), BlockEntries(d, RootOf(ib), l), e)
    ensures EntryRemoved(g, d, d', ino, e)
  {
    hide Flat, Area, Quot, Desc, Used, ValidLayout, Rd16, Rd32, PBlock, Owns, Dense, HasExtents, Tiled, InUse, NotMeta, SizeOf, BlocksFor, Inserted, InodesSame, FileOk, Inode, EntriesOf, DirOk;
    DirFacts(g, d, ib);
    BlockChangeKeeps(g, d, d', ib, l, s, e);
    assert OnlyBlock(d, d', PBlock(RootOf(ib), l));
  }

  // ---------- what a lookup finds ----------

  /** The inode number a lookup in the first n blocks returns, 0 if it finds none: the first block that has a match decides. */
  ghost function FindIn(d: Disk, r: Root, n: nat, name: seq<u8>): u32
    requires Entries(r) <= INLINE_MAX && TiledBlocks(d, r, n)
  {
    if n == 0 then 0
    else if FindIn(d, r, n - 1, name) != 0 then FindIn(d, r, n - 1, name)
    else (assert TiledBlock(d, r, n - 1); Find(d[PBlock(r, n - 1)], 0, name))
  }

  ghost function LookupOf(g: Geometry, d: Disk, ib: InodeBytes, name: seq<u8>): u32
    requires DirOk(g, d, ib)
  {
    FindIn(d, RootOf(ib), BlocksFor(SizeOf(ib), g.blockSize), name)
  }

  /** With no match in any other block, block l decides. */
  lemma {:induction false} FindInOne(d: Disk, r: Root, n: nat, l: nat, name: seq<u8>)
    requires Entries(r) <= INLINE_MAX && TiledBlocks(d, r, n) && l < n && TiledBlock(d, r, l)
    requires forall m: nat | m < n && m != l :: BlockLacks(d, r, m, name)
    ensures FindIn(d, r, n, name) == Find(d[PBlock(r, l)], 0, name)
  {
    hide PBlock, Tiled, Find;
    if l < n - 1 {
      FindInOne(d, r, n - 1, l, name);
      assert BlockLacks(d, r, n - 1, name);
    } else {
      FindInNone(d, r, n - 1, name);
    }
  }

  lemma {:induction false} FindInNone(d: Disk, r: Root, n: nat, name: seq<u8>)
    requires Entries(r) <= INLINE_MAX && TiledBlocks(d, r, n)
    requires forall m: nat | m < n :: BlockLacks(d, r, m, name)
    ensures FindIn(d, r, n, name) == 0
  {
    hide PBlock, Tiled, Find;
    if n > 0 {
      FindInNone(d, r, n - 1, name);
      assert BlockLacks(d, r, n - 1, name);
    }
  }

  /** The first block with a match decides, whatever comes behind it. */
  lemma {:induction false} FindInFirst(d: Disk, r: Root, n: nat, l: nat, name: seq<u8>)
    requires Entries(r) <= INLINE_MAX && TiledBlocks(d, r, n) && l < n && TiledBlock(d, r, l)
    requires (forall m: nat | m < l :: BlockLacks(d, r, m, name)) && Find(d[PBlock(r, l)], 0, name) != 0
    ensures FindIn(d, r, n, name) == Find(d[PBlock(r, l)], 0, name)
  {
    hide PBlock, Tiled, Find;
    if l < n - 1 {
      FindInFirst(d, r, n - 1, l, name);
    } else {
      FindInNone(d, r, n - 1, name);
    }
  }

  /** A name that no entry has is in no block, and no lookup finds it. */
  lemma {:induction false} UnlistedInAll(d: Disk, r: Root, n: nat, name: seq<u8>)
    requires Entries(r) <= INLINE_MAX && TiledBlocks(d, r, n) && !Names(Listing(d, r, n), name)
    ensures forall m: nat | m < n :: BlockLacks(d, r, m, name) && !Names(BlockEntries(d, r, m), name)
  {
    hide PBlock, Tiled, InUse, Find;
    if n > 0 {
      var x, y := Listing(d, r, n - 1), BlockEntries(d, r, n - 1);
      NamesJoin(x, y, name);
      UnlistedInAll(d, r, n - 1, name);
      assert TiledBlock(d, r, n - 1);
      UnlistedIsLacking(d[PBlock(r, n - 1)], name);
    }
  }

  lemma NamesJoin(x: seq<Entry>, y: seq<Entry>, name: seq<u8>)
    requires !Names(x + y, name)
    ensures !Names(x, name) && !Names(y, name)
  {
    assert forall k: nat | k < |x| :: (x + y)[k] == x[k];
    assert forall k: nat | k < |y| :: (x + y)[|x| + k] == y[k];
  }

  lemma UnlistedIsLacking(s: seq<u8>, name: seq<u8>)
    requires Tiled(s, 0) && !Names(InUse(s, 0), name)
    ensures Find(s, 0, name) == 0
  {
    if Find(s, 0, name) != 0 {
      FindSound(s, 0, name);
    }
  }

  /** Entry e lies in a record of `room` bytes of some block of the directory. */
  ghost predicate Placed(g: Geometry, d: Disk, ib: InodeBytes, e: Entry, room: nat)
    requires DirOk(g, d, ib)
  {
    exists l: nat :: l < BlocksFor(SizeOf(ib), g.blockSize) && PlacedIn(d, RootOf(ib), l, e, room)
  }

  ghost predicate PlacedIn(d: Disk, r: Root, l: nat, e: Entry, room: nat)
    requires Entries(r) <= INLINE_MAX
  {
    TiledBlock(d, r, l) && LiesIn(d[PBlock(r, l)], e, room)
  }

  /** The added entry lies in a record of at least 8 bytes, and a lookup of its name, if no entry had it before,
      returns its number if and only if the name's length passes the comparison with what is left of the record, cut to eight bits. */
  ghost predicate FoundIffShort(g: Geometry, d: Disk, d': Disk, ino: nat, e: Entry)
  {
    && IsDir(g, Flat(d), ino)
    && var ib := Inode(g, Flat(d), ino);
    && DirOk(g, d, ib) && DirOk(g, d', ib)
    && exists room: nat :: room >= 8 && Placed(g, d', ib, e, room) && FoundIn(g, d, d', ib, e, room)
  }

  ghost predicate FoundIn(g: Geometry, d: Disk, d': Disk, ib: InodeBytes, e: Entry, room: nat)
    requires DirOk(g, d, ib) && DirOk(g, d', ib)
  {
    !Names(EntriesOf(g, d, ib), e.name) ==>
      LookupOf(g, d', ib, e.name) == if |e.name| <= (room - 8) % 0x100 then e.ino else 0
  }

  lemma FoundInDir(g: Geometry, d: Disk, d': Disk, ino: nat, ib: InodeBytes, l: nat, s: seq<u8>, e: Entry, room: nat)
    requires IsDir(g, Flat(d), ino) && ib == Inode(g, Flat(d), ino) && DirOk(g, d, ib) && DirOk(g, d', ib)
    requires BlockChanged(g, d, d', ib, l, s) && LiesIn(s, e, room) && room >= 8
    requires !Names(BlockEntries(d, RootOf(ib), l), e.name) ==> Find(s, 0, e.name) == FoundAs(e, room)
    ensures FoundIffShort(g, d, d', ino, e)
  {
    hide Flat, PBlock, Tiled, InUse, FileOk, Find, Inode, Names, LiesIn, BlocksFor, SizeOf;
    var r, n := RootOf(ib), BlocksFor(SizeOf(ib), g.blockSize);
    OwnBlocksDiffer(g, d, ib, l);
    assert TiledBlock(d, r, l) && PlacedIn(d', r, l, e, room);
    if !Names(EntriesOf(g, d, ib), e.name) {
      UnlistedInAll(d, r, n, e.name);
      forall m: nat | m < n && m != l
        ensures BlockLacks(d', r, m, e.name)
      {
        assert BlockLacks(d, r, m, e.name);
      }
      FindInOne(d', r, n, l, e.name);
    }
    assert FoundIn(g, d, d', ib, e, room);
    assert Placed(g, d', ib, e, room);
  }

  lemma RoomForRecord(s: seq<u8>, e: Entry, room: nat)
    requires LiesIn(s, e, room)
    ensures room >= 8
  {
  }

  lemma OwnBlocksDiffer(g: Geometry, d: Disk, ib: InodeBytes, l: nat)
    requires DirOk(g, d, ib) && l < BlocksFor(SizeOf(ib), g.blockSize)
    ensures Entries(RootOf(ib)) <= INLINE_MAX
    ensures forall m: nat | m < BlocksFor(SizeOf(ib), g.blockSize) && m != l :: PBlock(RootOf(ib), m) != PBlock(RootOf(ib), l)
  {
    hide Flat, PBlock, Tiled, ValidLayout, Dense, OwnedBlock;
    DirFacts(g, d, ib);
  }

  /** Adds an entry to a directory. */
  method AddEntry(fs: Ext4, ino: u32, name: seq<u8>, child: u32, kind: u8) returns (rc: int)
    requires fs.Valid() && ValidLayout(fs.geo, Flat(fs.disk)) && DirReady(fs.geo, fs.disk, ino)
    modifies fs`disk, fs.ioBlock, fs.descBuf, fs.cache, fs.inodeBuf
    ensures fs.Valid()
    ensures !NameOk(name) || child == 0 ==> rc == FS_ERR_INVAL
    ensures rc == 0 ==> EntryAdded(fs.geo, old(fs.disk), fs.disk, ino, Entry(child, name, kind))
    ensures rc == 0 ==> FoundIffShort(fs.geo, old(fs.disk), fs.disk, ino, Entry(child, name, kind))
    ensures rc != 0 ==> fs.disk == old(fs.disk)
    ensures rc == FS_ERR_NOSPC ==> DirFull(fs.geo, old(fs.disk), ino, RecLen(|name|))
    ensures fs.reliable && NameOk(name) && child != 0 && IsDir(fs.geo, old(Flat(fs.disk)), ino) ==> rc == 0 || rc == FS_ERR_NOSPC
  {
    hide Flat, Area, Quot, Desc, Used, ValidLayout, Rd16, Rd32, PBlock, Owns, Dense, HasExtents, Map, Tiled, InUse, FileOk, BlocksFor, SizeOf, Splice, NoRoom, RootOf, Inode, EntryAdded, Inserted, InodesSame, Names, Find, FoundAs, RecLen, Buffers;
    if |name| == 0 || |name| > MAX_NAME || child == 0 {
      return FS_ERR_INVAL;
    }
    ghost var g, d, e := fs.geo, fs.disk, Entry(child, name, kind);
    var blocks;
    rc, blocks := OpenDir(fs, ino);
    if rc != 0 {
      return;
    }
    ghost var ib := Inode(g, Flat(d), ino);
    DirFacts(g, d, ib);
    for l := 0 to blocks
      invariant fs.Valid() && fs.disk == d && Buffers(ib, fs.inodeBuf[..])
      invariant Entries(RootOf(ib)) <= INLINE_MAX && forall m: nat | m < l :: BlockFull(d, RootOf(ib), m, RecLen(|name|))
    {
      var p;
      rc, p := LoadDirBlock(fs, l, ib);
      if rc != 0 {
        return;
      }
      var added, room := AddToBlock(fs.ioBlock, fs.geo.blockSize, name, child, kind);
      if added {
        ghost var s := fs.ioBlock[..g.blockSize];
        rc := fs.WriteBlock(p, fs.ioBlock);
        if rc == 0 {
          AddedInBlock(g, d, fs.disk, ino, ib, l, s, e);
          RoomForRecord(s, e, room);
          FoundInDir(g, d, fs.disk, ino, ib, l, s, e, room);
        }
        return;
      }
    }
    rc := FS_ERR_NOSPC;
  }

  /** Removes the entry with a name from a directory. */
  method RemoveEntry(fs: Ext4, ino: u32, name: seq<u8>) returns (rc: int, child: u32)
    requires fs.Valid() && ValidLayout(fs.geo, Flat(fs.disk)) && DirReady(fs.geo, fs.disk, ino)
    modifies fs`disk, fs.ioBlock, fs.descBuf, fs.cache, fs.inodeBuf
    ensures fs.Valid()
    ensures !NameOk(name) ==> rc == FS_ERR_INVAL
    ensures rc == 0 ==> exists kind: u8 :: EntryRemoved(fs.geo, old(fs.disk), fs.disk, ino, Entry(child, name, kind))
    ensures rc != 0 ==> fs.disk == old(fs.disk)
    ensures rc == FS_ERR_NOENT ==> DirLacks(fs.geo, old(fs.disk), ino, name)
    ensures fs.reliable && NameOk(name) && IsDir(fs.geo, old(Flat(fs.disk)), ino) ==> rc == 0 || rc == FS_ERR_NOENT
  {
    hide Flat, Area, Quot, Desc, Used, ValidLayout, Rd16, Rd32, PBlock, Owns, Dense, HasExtents, Map, Tiled, InUse, FileOk, BlocksFor, SizeOf, Splice, NoRoom, RootOf, Inode, EntryRemoved, Inserted, InodesSame, Names, Find, FoundAs, RecLen, Buffers;
    child := 0;
    if |name| == 0 || |name| > MAX_NAME {
      return FS_ERR_INVAL, 0;
    }
    ghost var g, d := fs.geo, fs.disk;
    var blocks;
    rc, blocks := OpenDir(fs, ino);
    if rc != 0 {
      return;
    }
    ghost var ib := Inode(g, Flat(d), ino);
    DirFacts(g, d, ib);
    for l := 0 to blocks
      invariant fs.Valid() && fs.disk == d && Buffers(ib, fs.inodeBuf[..])
      invariant Entries(RootOf(ib)) <= INLINE_MAX && forall m: nat | m < l :: BlockLacks(d, RootOf(ib), m, name)
    {
      var p, removed;
      rc, p := LoadDirBlock(fs, l, ib);
      if rc != 0 {
        return;
      }
      removed, child := RemoveFromBlock(fs.ioBlock, fs.geo.blockSize, name);
      if removed {
        ghost var s := fs.ioBlock[..g.blockSize];
        ghost var kind: u8 :| RemovedFrom(d[p], s, Entry(child, name, kind));
        rc := fs.WriteBlock(p, fs.ioBlock);
        if rc == 0 {
          RemovedInBlock(g, d, fs.disk, ino, ib, l, s, Entry(child, name, kind));
        }
        return;
      }
    }
    rc := FS_ERR_NOENT;
  }

  /** A lookup of the name finds nothing in any block of the directory. */
  ghost predicate DirLacks(g: Geometry, d: Disk, ino: nat, name: seq<u8>)
  {
    && IsDir(g, Flat(d), ino) && DirOk(g, d, Inode(g, Flat(d), ino))
    && var ib := Inode(g, Flat(d), ino);
    forall l: nat | l < BlocksFor(SizeOf(ib), g.blockSize) :: BlockLacks(d, RootOf(ib), l, name)
  }

  ghost predicate BlockLacks(d: Disk, r: Root, l: nat, name: seq<u8>)
    requires Entries(r) <= INLINE_MAX
  {
    TiledBlock(d, r, l) && Find(d[PBlock(r, l)], 0, name) == 0
  }

  /** Looks a name up in a directory: what it returns is an entry in use with that name. */
  method Lookup(fs: Ext4, ino: u32, name: seq<u8>) returns (rc: int, child: u32)
    requires fs.Valid() && ValidLayout(fs.geo, Flat(fs.disk)) && DirReady(fs.geo, fs.disk, ino)
    modifies fs.ioBlock, fs.descBuf, fs.cache, fs.inodeBuf
    ensures fs.Valid()
    ensures !NameOk(name) ==> rc == FS_ERR_INVAL
    ensures rc == 0 ==> IsDir(fs.geo, Flat(fs.disk), ino) && DirOk(fs.geo, fs.disk, Inode(fs.geo, Flat(fs.disk), ino))
    ensures rc == 0 ==> Lists(EntriesOf(fs.geo, fs.disk, Inode(fs.geo, Flat(fs.disk), ino)), child, name)
    ensures rc == 0 ==> child == LookupOf(fs.geo, fs.disk, Inode(fs.geo, Flat(fs.disk), ino), name) != 0
    ensures rc == FS_ERR_NOENT ==> DirLacks(fs.geo, fs.disk, ino, name)
    ensures rc == FS_ERR_NOENT ==> LookupOf(fs.geo, fs.disk, Inode(fs.geo, Flat(fs.disk), ino), name) == 0
    ensures fs.reliable && NameOk(name) && IsDir(fs.geo, Flat(fs.disk), ino) ==> rc == 0 || rc == FS_ERR_NOENT
  {
    hide Flat, Area, Quot, Desc, Used, ValidLayout, Rd16, Rd32, PBlock, Owns, Dense, HasExtents, Map, Tiled, InUse, FileOk, BlocksFor, SizeOf, Splice, NoRoom, RootOf, Inode, Inserted, InodesSame, Names, Find, FoundAs, RecLen, Buffers, Lists, Listing;
    child := 0;
    if |name| == 0 || |name| > MAX_NAME {
      return FS_ERR_INVAL, 0;
    }
    ghost var g, d := fs.geo, fs.disk;
    var blocks;
    rc, blocks := OpenDir(fs, ino);
    if rc != 0 {
      return;
    }
    ghost var ib := Inode(g, Flat(d), ino);
    DirFacts(g, d, ib);
    for l := 0 to blocks
      invariant fs.Valid() && fs.disk == d && Buffers(ib, fs.inodeBuf[..])
      invariant Entries(RootOf(ib)) <= INLINE_MAX && forall m: nat | m < l :: BlockLacks(d, RootOf(ib), m, name)
    {
      var p, found, at;
      rc, p := LoadDirBlock(fs, l, ib);
      if rc != 0 {
        return;
      }
      found, at, child := FindInBlock(fs.ioBlock, fs.geo.blockSize, name);
      if found {
        FindSound(d[p], 0, name);
        ListedInAll(d, RootOf(ib), blocks, l, child, name);
        FindInFirst(d, RootOf(ib), blocks, l, name);
        return;
      }
    }
    FindInNone(d, RootOf(ib), blocks, name);
    rc := FS_ERR_NOENT;
  }

  lemma {:induction false} ListedInAll(d: Disk, r: Root, n: nat, l: nat, ino: u32, name: seq<u8>)
    requires Entries(r) <= INLINE_MAX && TiledBlocks(d, r, n) && l < n && TiledBlock(d, r, l)
    requires Lists(BlockEntries(d, r, l), ino, name)
    ensures Lists(Listing(d, r, n), ino, name)
  {
    hide PBlock, Tiled, InUse, Lists;
    if l < n - 1 {
      ListedInAll(d, r, n - 1, l, ino, name);
    }
    ListsIn(Listing(d, r, n - 1), BlockEntries(d, r, n - 1), ino, name);
  }
}

/** The whole volume: a map from files to bytes and from directories to entries, which every call changes in one place. */
module Ext4Volume {
  import opened Bytes
  import opened Ext4State
  import opened Ext4Layout
  import opened Ext4Extents
  import opened Ext4Alloc
  import opened Ext4Files
  import opened Ext4Growth
  import opened Ext4Write
  import opened Ext4Dir
  import opened Ext4DirOps

  // ---------- volumes ----------

  ghost predicate Sound(g: Geometry, d: Disk)
  {
    ValidGeometry(g) && ValidDisk(g, d) && ValidLayout(g, Flat(d))
  }

  ghost function InodeOf(g: Geometry, d: Disk, j: nat): InodeBytes
    requires Sound(g, d) && ValidIno(g, j)
  {
    Inode(g, Flat(d), j)
  }

  ghost predicate FileIn(g: Geometry, d: Disk, j: nat)
  {
    Sound(g, d) && ValidIno(g, j) && FileOk(g, Flat(d), InodeOf(g, d, j))
  }

  ghost predicate DirIn(g: Geometry, d: Disk, j: nat)
  {
    FileIn(g, d, j) && DirOk(g, d, InodeOf(g, d, j))
  }

  ghost function LeafOf(g: Geometry, d: Disk, j: nat): (r: Root)
    requires FileIn(g, d, j)
    ensures Entries(r) <= INLINE_MAX
  {
    hide FileOk, RootOf, Dense;
    LeafIsInline(g, d, j);
    RootOf(InodeOf(g, d, j))
  }

  lemma LeafIsInline(g: Geometry, d: Disk, j: nat)
    requires FileIn(g, d, j)
    ensures Entries(RootOf(InodeOf(g, d, j))) <= INLINE_MAX
  {
    hide Flat, Inode, RootOf, Owns, ValidLayout;
  }

  ghost function BlocksOf(g: Geometry, d: Disk, j: nat): nat
    requires FileIn(g, d, j)
  {
    BlocksFor(SizeOf(InodeOf(g, d, j)), g.blockSize)
  }

  /** Files i and j share no block. */
  ghost predicate ApartIn(g: Geometry, d: Disk, i: nat, j: nat)
    requires FileIn(g, d, i) && FileIn(g, d, j)
  {
    forall l1: nat, l2: nat | l1 < BlocksOf(g, d, i) && l2 < BlocksOf(g, d, j) :: PBlock(LeafOf(g, d, i), l1) != PBlock(LeafOf(g, d, j), l2)
  }

  /** Files and directories in good order, no two of which share a block, on a disk whose metadata is marked in use. */
  ghost predicate VolumeOk(g: Geometry, d: Disk, files: set<nat>, dirs: set<nat>)
  {
    && Sound(g, d) && MetaUsed(g, Flat(d)) && files !! dirs
    && (forall j: nat | j in files + dirs :: FileIn(g, d, j))
    && (forall j: nat | j in dirs :: DirIn(g, d, j))
    && (forall i: nat, j: nat | i in files + dirs && j in files + dirs && i != j :: ApartIn(g, d, i, j))
  }

  /** What a volume stores. */
  datatype Store = Store(files: map<nat, seq<u8>>, dirs: map<nat, seq<Entry>>)

  ghost function BytesOf(g: Geometry, d: Disk, j: nat): seq<u8>
    requires FileIn(g, d, j)
  {
    Contents(g, d, InodeOf(g, d, j))
  }

  ghost function NamesOf(g: Geometry, d: Disk, j: nat): seq<Entry>
    requires DirIn(g, d, j)
  {
    EntriesOf(g, d, InodeOf(g, d, j))
  }

  ghost function View(g: Geometry, d: Disk, files: set<nat>, dirs: set<nat>): Store
    requires VolumeOk(g, d, files, dirs)
  {
    Store(map j: nat | j in files :: BytesOf(g, d, j), map j: nat | j in dirs :: NamesOf(g, d, j))
  }

  // ---------- what a call on one file leaves alone ----------

  /** From d0 to d only file `ino` was touched, and blocks were claimed. */
  ghost predicate Spares(g: Geometry, d0: Disk, d: Disk, ino: nat)
    requires FileIn(g, d0, ino)
  {
    && Sound(g, d) && SameGdt(g, Flat(d0), Flat(d)) && UsedKept(g, Flat(d0), Flat(d)) && |d| == |d0|
    && (forall j: nat | ValidIno(g, j) && j != ino :: InodeOf(g, d, j) == InodeOf(g, d0, j))
    && ForeignKept(g, d0, LeafOf(g, d0, ino), BlocksOf(g, d0, ino), d)
  }

  /** Metadata stays marked in use. */
  lemma MetaStaysUsed(g: Geometry, d0: Disk, d: Disk)
    requires Sound(g, d0) && Sound(g, d) && SameGdt(g, Flat(d0), Flat(d)) && UsedKept(g, Flat(d0), Flat(d)) && MetaUsed(g, Flat(d0))
    ensures MetaUsed(g, Flat(d))
  {
    hide Flat, NotMeta, Used, ValidGroup, GroupsApart, SameGdt;
    forall b: nat | InData(g, b)
      ensures NotMeta(g, Flat(d), b) || Used(g, Flat(d), b)
    {
      NotMetaSame(g, Flat(d0), Flat(d), b);
    }
  }

  /** The blocks of another file: still its own, with the bytes they had. */
  lemma OtherBlock(g: Geometry, d0: Disk, d: Disk, ino: nat, j: nat, l: nat)
    requires FileIn(g, d0, ino) && FileIn(g, d0, j) && ino != j && ApartIn(g, d0, j, ino) && Spares(g, d0, d, ino)
    requires l < BlocksOf(g, d0, j)
    ensures var p := PBlock(LeafOf(g, d0, j), l);
      OwnedBlock(g, Flat(d), p) && p < |d| == |d0| && d[p] == d0[p]
  {
    hide Flat, NotMeta, Used, ValidLayout, SameGdt, PBlock, Dense, Inode, RootOf, BlocksFor, HasExtents, SizeReadable, SizeOf;
    var p := PBlock(LeafOf(g, d0, j), l);
    assert OwnedBlock(g, Flat(d0), p);
    OwnedIsPlain(g, Flat(d0), p);
    NotMetaSame(g, Flat(d0), Flat(d), p);
    assert Foreign(g, Flat(d0), LeafOf(g, d0, ino), BlocksOf(g, d0, ino), p);
  }

  /** Another file stays in good order and keeps its bytes. */
  lemma OtherFile(g: Geometry, d0: Disk, d: Disk, ino: nat, j: nat)
    requires FileIn(g, d0, ino) && FileIn(g, d0, j) && ino != j && ApartIn(g, d0, j, ino) && Spares(g, d0, d, ino)
    ensures FileIn(g, d, j) && LeafOf(g, d, j) == LeafOf(g, d0, j) && BlocksOf(g, d, j) == BlocksOf(g, d0, j)
    ensures BytesOf(g, d, j) == BytesOf(g, d0, j)
  {
    hide Flat, NotMeta, Used, ValidLayout, SameGdt, PBlock, Dense, Inode, OwnedBlock, HasExtents, SizeReadable, Quot, ApartIn, ForeignKept;
    var r, n := LeafOf(g, d0, j), BlocksOf(g, d0, j);
    forall l: nat | l < n
      ensures OwnedBlock(g, Flat(d), PBlock(r, l)) && PBlock(r, l) < |d| == |d0| && d[PBlock(r, l)] == d0[PBlock(r, l)]
    {
      OtherBlock(g, d0, d, ino, j, l);
    }
    assert FileIn(g, d, j);
    var c0, c := BytesOf(g, d0, j), BytesOf(g, d, j);
    forall k | 0 <= k < |c|
      ensures c[k] == c0[k]
    {
      OwnsInDisk(g, Flat(d0), r, n, k);
    }
  }

  /** Another directory keeps its entries. */
  lemma OtherDir(g: Geometry, d0: Disk, d: Disk, ino: nat, j: nat)
    requires FileIn(g, d0, ino) && DirIn(g, d0, j) && ino != j && ApartIn(g, d0, j, ino) && Spares(g, d0, d, ino)
    ensures DirIn(g, d, j) && NamesOf(g, d, j) == NamesOf(g, d0, j)
  {
    hide Flat, NotMeta, Used, ValidLayout, SameGdt, PBlock, Inode, OwnedBlock, FileOk, Tiled, ApartIn, ForeignKept;
    OtherFile(g, d0, d, ino, j);
    var r, n := LeafOf(g, d0, j), BlocksOf(g, d0, j);
    forall l: nat | l < n
      ensures PBlock(r, l) < |d0| && PBlock(r, l) < |d| && d[PBlock(r, l)] == d0[PBlock(r, l)] && TiledBlock(d, r, l)
    {
      assert TiledBlock(d0, r, l);
      OtherBlock(g, d0, d, ino, j, l);
    }
    ListingSame(d0, d, r, n);
  }

  // ---------- what the calls do ----------

  /** A call as it went: stored in full, cut short after `done` bytes, or one directory entry put in or taken out. */
  datatype Call =
    | Stored(ino: nat, offset: nat, src: seq<u8>)
    | Cut(ino: nat, offset: nat, src: seq<u8>, done: nat)
    | Added(ino: nat, entry: Entry)
    | Removed(ino: nat, entry: Entry)

  ghost predicate Did(g: Geometry, d0: Disk, d: Disk, c: Call)
  {
    match c
    case Stored(ino, offset, src) => exists newSize: nat :: Finished(g, d0, d, ino, offset, src, newSize)
    case Cut(ino, offset, src, done) => CutShort(g, d0, d, ino, offset, src, done)
    case Added(ino, e) => EntryAdded(g, d0, d, ino, e)
    case Removed(ino, e) => EntryRemoved(g, d0, d, ino, e)
  }

  /** The call is on a file, or on a directory, of the volume. */
  predicate OnVolume(c: Call, files: set<nat>, dirs: set<nat>)
  {
    if c.Stored? || c.Cut? then c.ino in files else c.ino in dirs
  }

  /** What a call does to what the volume stores: one file overwritten, or one entry of one directory put in or taken out. */
  ghost predicate Effect(s: Store, s': Store, c: Call)
  {
    match c
    case Stored(ino, offset, src) =>
      ino in s.files && s' == s.(files := s.files[ino := Overwrite(s.files[ino], offset, src)])
    case Cut(ino, offset, src, done) =>
      && ino in s.files && done <= |src| && |s.files[ino]| <= |Overwrite(s.files[ino], offset, src[..done])|
      && s' == s.(files := s.files[ino := Overwrite(s.files[ino], offset, src[..done])[..|s.files[ino]|]])
    case Added(ino, e) =>
      && ino in s.dirs && ino in s'.dirs && s' == s.(dirs := s.dirs[ino := s'.dirs[ino]])
      && Inserted(s.dirs[ino], s'.dirs[ino], e)
    case Removed(ino, e) =>
      && ino in s.dirs && ino in s'.dirs && s' == s.(dirs := s.dirs[ino := s'.dirs[ino]])
      && Inserted(s'.dirs[ino], s.dirs[ino], e)
  }

  lemma StoredSpares(g: Geometry, d0: Disk, d: Disk, ino: nat, offset: nat, src: seq<u8>, newSize: nat)
    requires FileIn(g, d0, ino) && Finished(g, d0, d, ino, offset, src, newSize)
    ensures Spares(g, d0, d, ino) && FileIn(g, d, ino)
    ensures BytesOf(g, d, ino) == Overwrite(BytesOf(g, d0, ino), offset, src)
  {
    hide Flat, NotMeta, Used, ValidLayout, SameGdt, PBlock, Inode, FileOk, Overwrite, MetaUsed, NewBlock, Foreign, NewWereFree, SameBlocks;
  }

  lemma CutSpares(g: Geometry, d0: Disk, d: Disk, ino: nat, offset: nat, src: seq<u8>, done: nat)
    requires FileIn(g, d0, ino) && CutShort(g, d0, d, ino, offset, src, done)
    ensures Spares(g, d0, d, ino) && FileIn(g, d, ino)
    ensures Sound(g, d0) && Sound(g, d) && ValidIno(g, ino) && InodeOf(g, d, ino) == InodeOf(g, d0, ino)
    ensures done <= |src| && |BytesOf(g, d0, ino)| <= |Overwrite(BytesOf(g, d0, ino), offset, src[..done])|
    ensures BytesOf(g, d, ino) == Overwrite(BytesOf(g, d0, ino), offset, src[..done])[..|BytesOf(g, d0, ino)|]
  {
    hide Flat, NotMeta, Used, ValidLayout, SameGdt, PBlock, Inode, FileOk, Overwrite, MetaUsed, Foreign, TablesSame;
    forall j: nat | ValidIno(g, j)
      ensures Inode(g, Flat(d), j) == Inode(g, Flat(d0), j)
    {
      InodeSame(g, Flat(d0), Flat(d), j);
    }
  }

  lemma EntrySpares(g: Geometry, d0: Disk, d: Disk, ino: nat)
    requires DirIn(g, d0, ino) && DirOk(g, d, InodeOf(g, d0, ino))
    requires InodesSame(g, Flat(d0), Flat(d)) && OnlyOwnBlocks(g, d0, d, InodeOf(g, d0, ino))
    ensures Spares(g, d0, d, ino) && DirIn(g, d, ino) && InodeOf(g, d, ino) == InodeOf(g, d0, ino)
  {
    hide Flat, NotMeta, Used, ValidLayout, SameGdt, PBlock, Inode, FileOk, TablesSame, TiledBlocks;
    forall j: nat | ValidIno(g, j)
      ensures Inode(g, Flat(d), j) == Inode(g, Flat(d0), j)
    {
      InodeSame(g, Flat(d0), Flat(d), j);
    }
  }

  /** A file that grew took blocks that were free, so none of another file's. */
  lemma GrownApart(g: Geometry, d0: Disk, d: Disk, ino: nat, offset: nat, src: seq<u8>, newSize: nat, j: nat)
    requires FileIn(g, d0, ino) && FileIn(g, d0, j) && ino != j && ApartIn(g, d0, j, ino)
    requires Finished(g, d0, d, ino, offset, src, newSize) && FileIn(g, d, ino) && FileIn(g, d, j)
    requires LeafOf(g, d, j) == LeafOf(g, d0, j) && BlocksOf(g, d, j) == BlocksOf(g, d0, j)
    ensures ApartIn(g, d, j, ino)
  {
    hide Flat, NotMeta, Used, ValidLayout, SameGdt, PBlock, Dense, Inode, Overwrite, MetaUsed, NewBlock, Foreign, ForeignKept, UsedGrown, RootOf, BlocksFor, HasExtents, SizeReadable, SizeOf;
    var r0, r, n0, n := LeafOf(g, d0, ino), LeafOf(g, d, ino), BlocksOf(g, d0, ino), BlocksOf(g, d, ino);
    var s, m := LeafOf(g, d0, j), BlocksOf(g, d0, j);
    forall l1: nat, l2: nat | l1 < m && l2 < n
      ensures PBlock(s, l1) != PBlock(r, l2)
    {
      assert OwnedBlock(g, Flat(d0), PBlock(s, l1));
      if l2 >= n0 {
        assert FreeBlock(g, Flat(d0), PBlock(r, l2));
      } else {
        assert PBlock(r, l2) == PBlock(r0, l2);
      }
    }
  }

  lemma ApartBothWays(g: Geometry, d: Disk, i: nat, j: nat)
    requires FileIn(g, d, i) && FileIn(g, d, j) && ApartIn(g, d, i, j)
    ensures ApartIn(g, d, j, i)
  {
    hide PBlock, FileIn;
  }

  /** The file a call was on: still in good order, apart from all others, with the bytes or entries the call gave it. */
  lemma OwnFile(g: Geometry, d0: Disk, d: Disk, files: set<nat>, dirs: set<nat>, c: Call)
    requires VolumeOk(g, d0, files, dirs) && OnVolume(c, files, dirs) && Did(g, d0, d, c)
    ensures Spares(g, d0, d, c.ino) && FileIn(g, d, c.ino)
    ensures c.ino in dirs ==> DirIn(g, d, c.ino)
    ensures forall j: nat | j in files + dirs && j != c.ino :: FileIn(g, d, j) && ApartIn(g, d, j, c.ino)
  {
    hide Flat, ValidLayout, PBlock, FileIn, DirIn, Spares, Finished, CutShort, MetaUsed, SameGdt, DirOk, Inode, InodesSame, OnlyOwnBlocks, Sound, InodeOf, LeafOf, BlocksOf, ApartIn;
    var ino := c.ino;
    assert FileIn(g, d0, ino);
    match c
    case Stored(_, offset, src) =>
      var newSize: nat :| Finished(g, d0, d, ino, offset, src, newSize);
      StoredSpares(g, d0, d, ino, offset, src, newSize);
      forall j: nat | j in files + dirs && j != ino
        ensures FileIn(g, d, j) && ApartIn(g, d, j, ino)
      {
        OtherFile(g, d0, d, ino, j);
        GrownApart(g, d0, d, ino, offset, src, newSize, j);
      }
    case Cut(_, offset, src, done) =>
      CutSpares(g, d0, d, ino, offset, src, done);
      OthersApart(g, d0, d, files, dirs, ino);
    case Added(_, e) =>
      EntryFacts(g, d0, d, ino, e);
      OthersApart(g, d0, d, files, dirs, ino);
    case Removed(_, e) =>
      EntryFacts(g, d0, d, ino, e);
      OthersApart(g, d0, d, files, dirs, ino);
  }

  lemma EntryFacts(g: Geometry, d0: Disk, d: Disk, ino: nat, e: Entry)
    requires DirIn(g, d0, ino) && (EntryAdded(g, d0, d, ino, e) || EntryRemoved(g, d0, d, ino, e))
    ensures Spares(g, d0, d, ino) && DirIn(g, d, ino) && FileIn(g, d0, ino) && FileIn(g, d, ino)
    ensures Sound(g, d0) && Sound(g, d) && ValidIno(g, ino) && InodeOf(g, d, ino) == InodeOf(g, d0, ino)
    ensures EntryAdded(g, d0, d, ino, e) ==> Inserted(NamesOf(g, d0, ino), NamesOf(g, d, ino), e)
    ensures EntryRemoved(g, d0, d, ino, e) ==> Inserted(NamesOf(g, d, ino), NamesOf(g, d0, ino), e)
  {
    hide Flat, ValidLayout, PBlock, FileOk, MetaUsed, SameGdt, DirOk, Inode, InodesSame, OnlyOwnBlocks, Inserted, Spares;
    EntrySpares(g, d0, d, ino);
  }

  lemma OthersApart(g: Geometry, d0: Disk, d: Disk, files: set<nat>, dirs: set<nat>, ino: nat)
    requires VolumeOk(g, d0, files, dirs) && ino in files + dirs && FileIn(g, d0, ino) && Spares(g, d0, d, ino) && FileIn(g, d, ino)
    requires Sound(g, d0) && Sound(g, d) && ValidIno(g, ino) && InodeOf(g, d, ino) == InodeOf(g, d0, ino)
    ensures forall j: nat | j in files + dirs && j != ino :: FileIn(g, d, j) && ApartIn(g, d, j, ino)
  {
    hide Flat, ValidLayout, PBlock, FileOk, MetaUsed, SameGdt, Inode, Spares, DirIn, Sound, RootOf, BlocksFor;
    forall j: nat | j in files + dirs && j != ino
      ensures FileIn(g, d, j) && ApartIn(g, d, j, ino)
    {
      assert ApartIn(g, d0, j, ino);
      OtherFile(g, d0, d, ino, j);
      assert LeafOf(g, d, ino) == LeafOf(g, d0, ino) && BlocksOf(g, d, ino) == BlocksOf(g, d0, ino);
    }
  }

  /** A call keeps the volume in good order, whether it was finished or cut short. */
  lemma CallKeepsVolume(g: Geometry, d0: Disk, d: Disk, files: set<nat>, dirs: set<nat>, c: Call)
    requires VolumeOk(g, d0, files, dirs) && OnVolume(c, files, dirs) && Did(g, d0, d, c)
    ensures VolumeOk(g, d, files, dirs)
  {
    hide Flat, ValidLayout, PBlock, Finished, CutShort, MetaUsed, SameGdt, DirOk, Inode, InodesSame, OnlyOwnBlocks, Did, FileOk, LeafOf, BlocksOf, UsedKept, ForeignKept;
    var ino := c.ino;
    OwnFile(g, d0, d, files, dirs, c);
    MetaStaysUsed(g, d0, d);
    forall j: nat | j in dirs && j != ino
      ensures DirIn(g, d, j)
    {
      OtherDir(g, d0, d, ino, j);
    }
    forall i: nat, j: nat | i in files + dirs && j in files + dirs && i != j
      ensures FileIn(g, d, i) && FileIn(g, d, j) && ApartIn(g, d, i, j)
    {
      if i == ino {
        ApartBothWays(g, d, j, i);
      } else if j != ino {
        OthersStayApart(g, d0, d, ino, i, j);
      }
    }
  }

  lemma OthersStayApart(g: Geometry, d0: Disk, d: Disk, ino: nat, i: nat, j: nat)
    requires FileIn(g, d0, ino) && FileIn(g, d0, i) && FileIn(g, d0, j) && Spares(g, d0, d, ino) && ino != i && ino != j
    requires ApartIn(g, d0, i, ino) && ApartIn(g, d0, j, ino) && ApartIn(g, d0, i, j)
    ensures FileIn(g, d, i) && FileIn(g, d, j) && ApartIn(g, d, i, j)
  {
    hide PBlock, FileIn, Spares, LeafOf, BlocksOf;
    OtherFile(g, d0, d, ino, i);
    OtherFile(g, d0, d, ino, j);
  }

  /** What a call leaves of all files and directories but its own. */
  lemma OthersStored(g: Geometry, d0: Disk, d: Disk, files: set<nat>, dirs: set<nat>, c: Call)
    requires VolumeOk(g, d0, files, dirs) && OnVolume(c, files, dirs) && Did(g, d0, d, c) && VolumeOk(g, d, files, dirs)
    ensures forall j: nat | j in files && j != c.ino :: FileIn(g, d0, j) && FileIn(g, d, j) && BytesOf(g, d, j) == BytesOf(g, d0, j)
    ensures forall j: nat | j in dirs && j != c.ino :: DirIn(g, d0, j) && DirIn(g, d, j) && NamesOf(g, d, j) == NamesOf(g, d0, j)
  {
    hide FileIn, Spares, Did, ApartIn, Sound, InodeOf, DirIn, MetaUsed, BytesOf, NamesOf;
    OwnFile(g, d0, d, files, dirs, c);
    var ino := c.ino;
    forall j: nat | j in files && j != ino
      ensures FileIn(g, d0, j) && FileIn(g, d, j) && BytesOf(g, d, j) == BytesOf(g, d0, j)
    {
      OtherFile(g, d0, d, ino, j);
    }
    forall j: nat | j in dirs && j != ino
      ensures DirIn(g, d0, j) && DirIn(g, d, j) && NamesOf(g, d, j) == NamesOf(g, d0, j)
    {
      OtherDir(g, d0, d, ino, j);
    }
  }

  /** What a call makes of its own file or directory. */
  ghost predicate OwnEffect(g: Geometry, d0: Disk, d: Disk, c: Call)
    requires FileIn(g, d0, c.ino) && FileIn(g, d, c.ino)
  {
    match c
    case Stored(ino, offset, src) => BytesOf(g, d, ino) == Overwrite(BytesOf(g, d0, ino), offset, src)
    case Cut(ino, offset, src, done) =>
      && done <= |src| && |BytesOf(g, d0, ino)| <= |Overwrite(BytesOf(g, d0, ino), offset, src[..done])|
      && BytesOf(g, d, ino) == Overwrite(BytesOf(g, d0, ino), offset, src[..done])[..|BytesOf(g, d0, ino)|]
    case Added(ino, e) => DirIn(g, d0, ino) && DirIn(g, d, ino) && Inserted(NamesOf(g, d0, ino), NamesOf(g, d, ino), e)
    case Removed(ino, e) => DirIn(g, d0, ino) && DirIn(g, d, ino) && Inserted(NamesOf(g, d, ino), NamesOf(g, d0, ino), e)
  }

  lemma OwnStored(g: Geometry, d0: Disk, d: Disk, files: set<nat>, dirs: set<nat>, c: Call)
    requires VolumeOk(g, d0, files, dirs) && OnVolume(c, files, dirs) && Did(g, d0, d, c) && VolumeOk(g, d, files, dirs)
    ensures FileIn(g, d0, c.ino) && FileIn(g, d, c.ino) && OwnEffect(g, d0, d, c)
  {
    hide FileIn, Spares, Finished, CutShort, EntryAdded, EntryRemoved, ApartIn, Sound, InodeOf, DirIn, MetaUsed, BytesOf, NamesOf, Overwrite, Inserted;
    var ino := c.ino;
    match c
    case Stored(_, offset, src) =>
      var newSize: nat :| Finished(g, d0, d, ino, offset, src, newSize);
      StoredSpares(g, d0, d, ino, offset, src, newSize);
    case Cut(_, offset, src, done) => CutSpares(g, d0, d, ino, offset, src, done);
    case Added(_, e) => EntryFacts(g, d0, d, ino, e);
    case Removed(_, e) => EntryFacts(g, d0, d, ino, e);
  }

  /** Every call refines its effect on the map of files and directories: nothing but the one file or directory differs. */
  lemma CallRefines(g: Geometry, d0: Disk, d: Disk, files: set<nat>, dirs: set<nat>, c: Call)
    requires VolumeOk(g, d0, files, dirs) && OnVolume(c, files, dirs) && Did(g, d0, d, c)
    ensures VolumeOk(g, d, files, dirs)
    ensures Effect(View(g, d0, files, dirs), View(g, d, files, dirs), c)
  {
    hide FileIn, DirIn, Did, VolumeOk, Inserted, Overwrite, BytesOf, NamesOf;
    CallKeepsVolume(g, d0, d, files, dirs, c);
    OwnStored(g, d0, d, files, dirs, c);
    OthersStored(g, d0, d, files, dirs, c);
    ViewParts(g, d0, files, dirs);
    ViewParts(g, d, files, dirs);
    var s, s' := View(g, d0, files, dirs), View(g, d, files, dirs);
    if c.Stored? || c.Cut? {
      assert s'.files == s.files[c.ino := s'.files[c.ino]] && s'.dirs == s.dirs;
    } else {
      assert s'.dirs == s.dirs[c.ino := s'.dirs[c.ino]] && s'.files == s.files;
    }
  }

  lemma ViewParts(g: Geometry, d: Disk, files: set<nat>, dirs: set<nat>)
    requires VolumeOk(g, d, files, dirs)
    ensures files !! dirs
    ensures View(g, d, files, dirs).files.Keys == files && View(g, d, files, dirs).dirs.Keys == dirs
    ensures forall j: nat | j in files :: FileIn(g, d, j) && View(g, d, files, dirs).files[j] == BytesOf(g, d, j)
    ensures forall j: nat | j in dirs :: DirIn(g, d, j) && View(g, d, files, dirs).dirs[j] == NamesOf(g, d, j)
  {
    hide FileIn, DirIn, BytesOf, NamesOf, ApartIn, MetaUsed, Sound;
  }

  // ---------- runs ----------

  /** Disk by disk through a list of calls. */
  ghost predicate Ran(g: Geometry, disks: seq<Disk>, calls: seq<Call>, files: set<nat>, dirs: set<nat>)
  {
    && |disks| == |calls| + 1
    && forall i :: 0 <= i < |calls| ==> OnVolume(calls[i], files, dirs) && Did(g, disks[i], disks[i + 1], calls[i])
  }

  /** Along every run of calls, finished or cut short, the volume stays in good order. */
  lemma {:induction false} RunKeepsVolume(g: Geometry, disks: seq<Disk>, calls: seq<Call>, files: set<nat>, dirs: set<nat>, k: nat)
    requires Ran(g, disks, calls, files, dirs) && VolumeOk(g, disks[0], files, dirs) && k <= |calls|
    ensures VolumeOk(g, disks[k], files, dirs)
  {
    hide VolumeOk, OnVolume, Did;
    if k > 0 {
      RunKeepsVolume(g, disks, calls, files, dirs, k - 1);
      CallRefines(g, disks[k - 1], disks[k], files, dirs, calls[k - 1]);
    }
  }

  /** Along every run each call does to files and directories exactly what it says. */
  lemma RunRefines(g: Geometry, disks: seq<Disk>, calls: seq<Call>, files: set<nat>, dirs: set<nat>, k: nat)
    requires Ran(g, disks, calls, files, dirs) && VolumeOk(g, disks[0], files, dirs) && k < |calls|
    ensures VolumeOk(g, disks[k], files, dirs) && VolumeOk(g, disks[k + 1], files, dirs)
    ensures Effect(View(g, disks[k], files, dirs), View(g, disks[k + 1], files, dirs), calls[k])
  {
    hide VolumeOk, OnVolume, Did, Effect, View;
    RunKeepsVolume(g, disks, calls, files, dirs, k);
    CallRefines(g, disks[k], disks[k + 1], files, dirs, calls[k]);
  }

  /** What one call makes of the bytes of file j. */
  function AfterCall(c: seq<u8>, call: Call, j: nat): seq<u8>
  {
    match call
    case Stored(ino, offset, src) => if ino == j then Overwrite(c, offset, src) else c
    case Cut(ino, offset, src, done) =>
      if ino == j && done <= |src| && |c| <= |Overwrite(c, offset, src[..done])| then Overwrite(c, offset, src[..done])[..|c|] else c
    case _ => c
  }

  function AfterCalls(c: seq<u8>, calls: seq<Call>, j: nat): seq<u8>
  {
    if calls == [] then c else AfterCall(AfterCalls(c, calls[..|calls| - 1], j), calls[|calls| - 1], j)
  }

  /** After any run the bytes of a file are its old ones with its own writes laid over them in order, whatever the other calls did. */
  lemma {:induction false} FileIsItsWrites(g: Geometry, disks: seq<Disk>, calls: seq<Call>, files: set<nat>, dirs: set<nat>, j: nat)
    requires Ran(g, disks, calls, files, dirs) && VolumeOk(g, disks[0], files, dirs) && j in files
    ensures FileIn(g, disks[0], j) && FileIn(g, disks[|calls|], j)
    ensures BytesOf(g, disks[|calls|], j) == AfterCalls(BytesOf(g, disks[0], j), calls, j)
    decreases |calls|
  {
    hide VolumeOk, OnVolume, Did, View, FileIn, DirIn, BytesOf, Overwrite, Inserted;
    ViewParts(g, disks[0], files, dirs);
    if calls != [] {
      var n := |calls| - 1;
      FileIsItsWrites(g, disks[..n + 1], calls[..n], files, dirs, j);
      RunRefines(g, disks, calls, files, dirs, n);
      ViewParts(g, disks[n], files, dirs);
      ViewParts(g, disks[n + 1], files, dirs);
    }
  }

  /** On a volume in good order the next call finds what it needs, unless a write would pass 32 bits. */
  lemma CallsStayPossible(g: Geometry, d: Disk, files: set<nat>, dirs: set<nat>, j: nat, offset: nat, n: nat)
    requires VolumeOk(g, d, files, dirs) && offset + n + g.blockSize < 0x1_0000_0000
    ensures j in files ==> Accepts(g, Flat(d), j) && ReadyToWrite(g, d, j, offset, n)
    ensures j in dirs ==> IsDir(g, Flat(d), j) && DirReady(g, d, j)
  {
    hide Flat, ValidLayout, PBlock, Inode, Owns, Dense, HasExtents, SizeReadable, MetaUsed, ApartIn, LeafOf, BlocksOf;
  }
}

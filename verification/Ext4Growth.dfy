/** The steps by which a write grows a file, and what they make of the file's bytes. */
module Ext4Growth {
  import opened Bytes
  import opened Ext4State
  import opened Ext4Layout
  import opened Ext4Extents
  import opened Ext4Alloc
  import opened Ext4Files

  lemma InodesSameTrans(g: Geometry, f0: seq<u8>, f1: seq<u8>, f2: seq<u8>)
    requires InodesSame(g, f0, f1) && InodesSame(g, f1, f2)
    ensures InodesSame(g, f0, f2)
  {
    hide ValidLayout, Area, Desc;
    SameDescs(g, f0, f1);
    forall grp: nat | grp < g.groupCount
      ensures TableSame(g, f0, f2, grp)
    {
      assert TableSame(g, f0, f1, grp) && TableSame(g, f1, f2, grp);
    }
  }

  lemma GrownStart(g: Geometry, d: Disk, ib: InodeBytes)
    requires ValidDisk(g, d) && FileOk(g, Flat(d), ib)
    ensures var n := BlocksFor(SizeOf(ib), g.blockSize);
      Grown(g, d, RootOf(ib), n, d, RootOf(ib), n)
  {
    hide Flat, Area, Quot, Used, Map, Desc;
    forall grp: nat | grp < g.groupCount
      ensures TableSame(g, Flat(d), Flat(d), grp)
    {
      assert ValidGroup(g, Flat(d), grp);
    }
  }

  lemma InodesSameLayouts(g: Geometry, f0: seq<u8>, f: seq<u8>)
    requires InodesSame(g, f0, f)
    ensures ValidLayout(g, f0) && ValidLayout(g, f) && SameGdt(g, f0, f)
  {
  }

  lemma DenseEntries(g: Geometry, r: Root, n: nat)
    requires Dense(g, r, n)
    ensures Entries(r) <= INLINE_MAX
  {
  }

  /** What the blocks of a grown file are. */
  lemma GrownFacts(g: Geometry, d0: Disk, r0: Root, n0: nat, d: Disk, r: Root, n: nat)
    requires Grown(g, d0, r0, n0, d, r, n)
    ensures ValidGeometry(g) && ValidDisk(g, d0) && ValidDisk(g, d) && |d| == |d0|
    ensures InodesSame(g, Flat(d0), Flat(d)) && ValidLayout(g, Flat(d0)) && ValidLayout(g, Flat(d))
    ensures Dense(g, r, n) && Entries(r) <= INLINE_MAX && Entries(r0) <= INLINE_MAX
    ensures forall l: nat | l < n :: OwnedBlock(g, Flat(d), PBlock(r, l)) && PBlock(r, l) < |d|
    ensures forall l1: nat, l2: nat | l1 < n && l2 < n && l1 != l2 :: PBlock(r, l1) != PBlock(r, l2)
  {
    hide Flat, Area, Quot, Used, Map, Desc, NotMeta, Dense, PBlock, NewBlock, UsedGrown, NewWereFree, ForeignKept, SameBlocks;
    InodesSameLayouts(g, Flat(d0), Flat(d));
    DenseEntries(g, r, n);
    forall l: nat | l < n
      ensures OwnedBlock(g, Flat(d), PBlock(r, l)) && PBlock(r, l) < |d|
    {
      assert OwnedBlock(g, Flat(d), PBlock(r, l));
    }
    forall l1: nat, l2: nat | l1 < n && l2 < n && l1 != l2
      ensures PBlock(r, l1) != PBlock(r, l2)
    {
    }
  }

  /** A block of the file is not a foreign one. */
  lemma OwnIsNotForeign(g: Geometry, d0: Disk, r0: Root, n0: nat, d: Disk, r: Root, n: nat, l: nat)
    requires Grown(g, d0, r0, n0, d, r, n) && l < n
    ensures Entries(r) <= INLINE_MAX && ValidLayout(g, Flat(d0)) && !Foreign(g, Flat(d0), r0, n0, PBlock(r, l))
  {
    hide Flat, Area, Quot, Used, Map, Desc, NotMeta, Dense, PBlock, NewBlock, UsedGrown, ForeignKept, Owns;
    InodesSameLayouts(g, Flat(d0), Flat(d));
    DenseEntries(g, r, n);
    if l >= n0 {
      assert FreeBlock(g, Flat(d0), PBlock(r, l));
    } else {
      assert PBlock(r0, l) == PBlock(r, l);
    }
  }

  /** Rewriting a block of the file. */
  lemma GrowWrite(g: Geometry, d0: Disk, r0: Root, n0: nat, d: Disk, r: Root, n: nat, l: nat, blk: seq<u8>)
    requires Grown(g, d0, r0, n0, d, r, n) && l < n && |blk| == g.blockSize
    ensures Entries(r) <= INLINE_MAX && PBlock(r, l) < |d|
    ensures Grown(g, d0, r0, n0, d[PBlock(r, l) := blk], r, n)
  {
    hide Flat, Area, Quot, Used, Map, Desc, ValidLayout, InodesSame, NotMeta, Dense, PBlock, Owns, SameBlocks, NewBlock, NewWereFree, Foreign, OwnedBlock;
    GrownFacts(g, d0, r0, n0, d, r, n);
    var p := PBlock(r, l);
    OwnedIsPlain(g, Flat(d), p);
    DataWriteKeepsMeta(g, d, p, blk);
    var d' := d[p := blk];
    InodesSameLayouts(g, Flat(d), Flat(d'));
    InodesSameTrans(g, Flat(d0), Flat(d), Flat(d'));
    OwnsStill(g, Flat(d), Flat(d'), r, n);
    OwnIsNotForeign(g, d0, r0, n0, d, r, n, l);
  }

  lemma OwnedIsPlain(g: Geometry, f: seq<u8>, p: nat)
    requires ValidGeometry(g) && ValidLayout(g, f) && OwnedBlock(g, f, p)
    ensures InData(g, p) && Used(g, f, p) && NotMeta(g, f, p)
  {
  }

  lemma OwnsStill(g: Geometry, f: seq<u8>, f': seq<u8>, r: Root, n: nat)
    requires ValidGeometry(g) && InodesSame(g, f, f') && Entries(r) <= INLINE_MAX
    requires ValidLayout(g, f) && ValidLayout(g, f')
    requires Owns(g, f, r, n)
    requires forall b: nat | InData(g, b) :: Used(g, f, b) <==> Used(g, f', b)
    ensures Owns(g, f', r, n)
  {
    hide Area, Quot, Used, Map, Desc, ValidLayout, NotMeta, PBlock;
    forall l: nat | l < n
      ensures OwnedBlock(g, f', PBlock(r, l))
    {
      assert OwnedBlock(g, f, PBlock(r, l));
      NotMetaSame(g, f, f', PBlock(r, l));
    }
  }

  /** What an append does to the blocks of a dense leaf. */
  lemma AppendBlocks(g: Geometry, r: Root, n: nat, p: u32)
    requires ValidGeometry(g) && Dense(g, r, n) && n < 0xFFFF_FFFF && Appendable(r, g.blocksCount, n, p)
    ensures var r' := Appended(r, n, p);
      && Dense(g, r', n + 1)
      && PBlock(r', n) == p
      && forall l: nat | l < n :: PBlock(r', l) == PBlock(r, l)
  {
    hide Rd16, Rd32, Appended, ValidEntry;
    var r' := Appended(r, n, p);
    AppendKeepsLeaf(r, g.blocksCount, n, p);
    AppendRefinesMap(r, g.blocksCount, n, p, n);
    DenseMap(g, r', n + 1, n);
    forall l: nat | l < n
      ensures PBlock(r', l) == PBlock(r, l)
    {
      AppendRefinesMap(r, g.blocksCount, n, p, l);
    }
  }

  /** The claimed block was in use in neither state and holds no metadata. */
  lemma ClaimIsFresh(g: Geometry, d0: Disk, r0: Root, n0: nat, d: Disk, r: Root, n: nat, d': Disk, p: u32)
    requires Grown(g, d0, r0, n0, d, r, n) && MetaUsed(g, Flat(d0))
    requires ValidDisk(g, d') && Claimed(g, Flat(d), Flat(d'), p)
    ensures InodesSame(g, Flat(d), Flat(d')) && InodesSame(g, Flat(d0), Flat(d'))
    ensures !Used(g, Flat(d0), p) && OwnedBlock(g, Flat(d'), p)
    ensures forall q: nat | OwnedBlock(g, Flat(d), q) :: OwnedBlock(g, Flat(d'), q) && q != p && q < |d| && d'[q] == d[q]
    ensures forall b: nat | InData(g, b) :: Used(g, Flat(d'), b) <==> Used(g, Flat(d), b) || b == p
    ensures forall b: nat | b < |d| && NotMeta(g, Flat(d0), b) :: d'[b] == d[b]
  {
    hide Flat, Area, Quot, Used, Desc, ValidLayout, InodesSame, NotMeta, Dense, PBlock, MarkUsed, Owns, NewBlock, SameBlocks, NewWereFree, ForeignKept;
    InodesSameLayouts(g, Flat(d0), Flat(d));
    MarkKeepsData(g, d, d', p);
    InodesSameLayouts(g, Flat(d), Flat(d'));
    InodesSameTrans(g, Flat(d0), Flat(d), Flat(d'));
    assert NotMeta(g, Flat(d0), p);
    NotMetaSame(g, Flat(d0), Flat(d'), p);
    forall q: nat | OwnedBlock(g, Flat(d), q)
      ensures OwnedBlock(g, Flat(d'), q) && q != p && q < |d| && d'[q] == d[q]
    {
      NotMetaSame(g, Flat(d), Flat(d'), q);
    }
    forall b: nat | b < |d| && NotMeta(g, Flat(d0), b)
      ensures d'[b] == d[b]
    {
      NotMetaSame(g, Flat(d0), Flat(d), b);
    }
  }

  /** One more block, fresh and claimed, mapped behind the last one. */
  lemma GrowBy(g: Geometry, d0: Disk, r0: Root, n0: nat, d: Disk, r: Root, n: nat, d': Disk, r': Root, p: nat)
    requires Grown(g, d0, r0, n0, d, r, n) && ValidDisk(g, d') && Entries(r) <= INLINE_MAX
    requires InodesSame(g, Flat(d0), Flat(d')) && InData(g, p) && !Used(g, Flat(d0), p) && OwnedBlock(g, Flat(d'), p)
    requires forall q: nat | OwnedBlock(g, Flat(d), q) :: OwnedBlock(g, Flat(d'), q) && q != p
    requires forall b: nat | InData(g, b) :: Used(g, Flat(d'), b) <==> Used(g, Flat(d), b) || b == p
    requires forall b: nat | b < |d| && NotMeta(g, Flat(d0), b) :: d'[b] == d[b]
    requires Dense(g, r', n + 1) && Entries(r') <= INLINE_MAX && PBlock(r', n) == p
    requires SameBlocks(r, r', n)
    ensures Grown(g, d0, r0, n0, d', r', n + 1)
  {
    hide Flat, Area, Quot, Used, Map, Desc, ValidLayout, InodesSame, Dense, PBlock, NewBlock, Owns, OwnedBlock;
    InodesSameLayouts(g, Flat(d0), Flat(d));
    InodesSameLayouts(g, Flat(d0), Flat(d'));
    OwnsOneMore(g, Flat(d), r, Flat(d'), r', n, p);
    UsedOneMore(g, Flat(d0), Flat(d), r, Flat(d'), r', n0, n, p);
    NewOneMore(g, Flat(d0), r, r', n0, n, p);
    assert SameBlocks(r0, r', n0);
    assert ForeignKept(g, d0, r0, n0, d') by {
      hide SameBlocks, UsedGrown, NewWereFree;
    }
  }

  lemma UsedOneMore(g: Geometry, f0: seq<u8>, f: seq<u8>, r: Root, f': seq<u8>, r': Root, n0: nat, n: nat, p: nat)
    requires ValidGeometry(g) && ValidLayout(g, f0) && ValidLayout(g, f) && ValidLayout(g, f')
    requires Entries(r) <= INLINE_MAX && Entries(r') <= INLINE_MAX && n0 <= n
    requires UsedGrown(g, f0, f, r, n0, n) && SameBlocks(r, r', n) && PBlock(r', n) == p
    requires forall b: nat | InData(g, b) :: Used(g, f', b) <==> Used(g, f, b) || b == p
    ensures UsedGrown(g, f0, f', r', n0, n + 1)
  {
    hide Used, Map, ValidLayout, PBlock, NewBlock, SameBlocks;
    forall b: nat | InData(g, b)
      ensures Used(g, f', b) <==> Used(g, f0, b) || NewBlock(r', n0, n + 1, b)
    {
      NewBlockStep(r, r', n0, n, p, b);
    }
  }

  lemma NewOneMore(g: Geometry, f0: seq<u8>, r: Root, r': Root, n0: nat, n: nat, p: nat)
    requires ValidGeometry(g) && ValidLayout(g, f0) && Entries(r) <= INLINE_MAX && Entries(r') <= INLINE_MAX
    requires NewWereFree(g, f0, r, n0, n) && SameBlocks(r, r', n) && PBlock(r', n) == p && FreeBlock(g, f0, p)
    ensures NewWereFree(g, f0, r', n0, n + 1)
  {
    hide Used, Map, ValidLayout, PBlock, FreeBlock;
    forall l: nat | n0 <= l < n + 1
      ensures FreeBlock(g, f0, PBlock(r', l))
    {
      if l < n {
        assert FreeBlock(g, f0, PBlock(r, l));
      }
    }
  }

  /** Claiming a free block and appending it to the leaf. */
  lemma GrowAlloc(g: Geometry, d0: Disk, r0: Root, n0: nat, d: Disk, r: Root, n: nat, d': Disk, p: u32)
    requires Grown(g, d0, r0, n0, d, r, n) && MetaUsed(g, Flat(d0))
    requires ValidDisk(g, d') && Claimed(g, Flat(d), Flat(d'), p)
    requires n < 0xFFFF_FFFF && Appendable(r, g.blocksCount, n, p)
    ensures Grown(g, d0, r0, n0, d', Appended(r, n, p), n + 1)
    ensures PBlock(Appended(r, n, p), n) == p && p < |d|
    ensures forall l: nat | l < n :: PBlock(Appended(r, n, p), l) == PBlock(r, l)
    ensures forall l: nat | l < n :: PBlock(r, l) < |d| && d'[PBlock(r, l)] == d[PBlock(r, l)]
  {
    hide Flat, Area, Quot, Used, Map, Desc, ValidLayout, InodesSame, NotMeta, Dense, PBlock, Claimed, Appendable, Appended, OwnedBlock, Grown, MetaUsed;
    GrownFacts(g, d0, r0, n0, d, r, n);
    ClaimIsFresh(g, d0, r0, n0, d, r, n, d', p);
    AppendableAppends(g, r, n, p);
    AppendBlocks(g, r, n, p);
    DenseEntries(g, Appended(r, n, p), n + 1);
    ClaimedInData(g, Flat(d), Flat(d'), p);
    GrowBy(g, d0, r0, n0, d, r, n, d', Appended(r, n, p), p);
  }

  lemma OwnsOneMore(g: Geometry, f: seq<u8>, r: Root, f': seq<u8>, r': Root, n: nat, p: nat)
    requires ValidGeometry(g) && ValidLayout(g, f) && ValidLayout(g, f') && Entries(r) <= INLINE_MAX && Entries(r') <= INLINE_MAX
    requires Owns(g, f, r, n) && OwnedBlock(g, f', p) && PBlock(r', n) == p
    requires SameBlocks(r, r', n)
    requires forall q: nat | OwnedBlock(g, f, q) :: OwnedBlock(g, f', q) && q != p
    ensures Owns(g, f', r', n + 1)
  {
    hide PBlock, OwnedBlock, ValidLayout;
    forall l: nat | l < n
      ensures PBlock(r', l) != p
    {
      assert OwnedBlock(g, f, PBlock(r, l));
    }
  }

  lemma ClaimedInData(g: Geometry, f: seq<u8>, f': seq<u8>, p: nat)
    requires Claimed(g, f, f', p)
    ensures InData(g, p)
  {
  }

  lemma AppendableAppends(g: Geometry, r: Root, n: nat, p: u32)
    requires n < 0x1_0000_0000 && Appendable(r, g.blocksCount, n, p)
    ensures Entries(r) <= INLINE_MAX && (Entries(r) == INLINE_MAX ==> CanMerge(r, p))
  {
  }

  lemma NewBlockStep(r: Root, r': Root, n0: nat, n: nat, p: nat, b: nat)
    requires Entries(r) <= INLINE_MAX && Entries(r') <= INLINE_MAX && n0 <= n
    requires PBlock(r', n) == p && SameBlocks(r, r', n)
    ensures NewBlock(r', n0, n + 1, b) <==> NewBlock(r, n0, n, b) || b == p
  {
    hide PBlock;
    if NewBlock(r', n0, n + 1, b) {
      var l: nat :| n0 <= l < n + 1 && PBlock(r', l) == b;
      assert l < n ==> PBlock(r, l) == b;
    }
    if NewBlock(r, n0, n, b) {
      var l: nat :| n0 <= l < n && PBlock(r, l) == b;
      assert PBlock(r', l) == b;
    }
  }

  // ---------- the bytes of the file ----------

  /** The old bytes, zero-padded to `offset`, with `src` laid over them from `offset` on. */
  function Overwrite(c: seq<u8>, offset: nat, src: seq<u8>): seq<u8>
  {
    var padded := c + Zeros(if offset > |c| then offset - |c| else 0);
    padded[..offset] + src + (if offset + |src| < |padded| then padded[offset + |src|..] else [])
  }

  /** Byte `k` once the first `done` bytes of `src` are in place. */
  function Expect(c: seq<u8>, offset: nat, src: seq<u8>, done: nat, k: nat): u8
    requires done <= |src|
  {
    if offset <= k < offset + done then src[k - offset] else if k < |c| then c[k] else 0
  }

  lemma OverwriteBytes(c: seq<u8>, offset: nat, src: seq<u8>)
    ensures |Overwrite(c, offset, src)| == if offset + |src| > |c| then offset + |src| else |c|
    ensures forall k :: 0 <= k < |Overwrite(c, offset, src)| ==> Overwrite(c, offset, src)[k] == Expect(c, offset, src, |src|, k)
  {
  }

  /** The first `upto` bytes of the file are as expected. */
  ghost predicate Holds(g: Geometry, d: Disk, r: Root, upto: nat, c: seq<u8>, offset: nat, src: seq<u8>, done: nat)
    requires done <= |src|
  {
    && ValidGeometry(g) && ValidDisk(g, d) && Entries(r) <= INLINE_MAX
    && forall k: nat | k < upto :: ByteIs(g, d, r, k, Expect(c, offset, src, done, k))
  }

  ghost predicate ByteIs(g: Geometry, d: Disk, r: Root, k: nat, v: u8)
    requires ValidGeometry(g) && ValidDisk(g, d) && Entries(r) <= INLINE_MAX
  {
    PBlock(r, Quot(k, g.blockSize)) < |d| && FileByte(g, d, r, k) == v
  }

  /** How far the file's bytes are known before the first byte is written: to the end of its last block if the write lies behind it. */
  function Known(bs: nat, cur: nat, n: nat, offset: nat, done: nat): nat
    requires bs > 0
  {
    if done == 0 && Quot(offset, bs) >= n then Area(n, bs) else cur
  }

  lemma QuotBound(k: nat, n: nat, bs: nat)
    requires bs > 0
    ensures Quot(k, bs) < n <==> k < Area(n, bs)
  {
    if Quot(k, bs) < n {
      AreaStep(Quot(k, bs), n, bs);
    } else if n < Quot(k, bs) {
      AreaStep(n, Quot(k, bs), bs);
    }
  }

  /** A gap block of zeros, appended behind the last block, extends the known bytes. */
  lemma GapStep(g: Geometry, d: Disk, r: Root, n: nat, d': Disk, r': Root, cur: nat, c: seq<u8>, offset: nat, src: seq<u8>)
    requires Holds(g, d, r, Area(n, g.blockSize), c, offset, src, 0)
    requires ValidDisk(g, d') && Entries(r') <= INLINE_MAX
    requires forall l: nat | l < n :: PBlock(r', l) == PBlock(r, l) && PBlock(r, l) < |d| && d'[PBlock(r, l)] == d[PBlock(r, l)]
    requires PBlock(r', n) < |d'| && d'[PBlock(r', n)] == Zeros(g.blockSize)
    requires |c| <= Area(n, g.blockSize) && Area(n + 1, g.blockSize) <= offset
    ensures Holds(g, d', r', Area(n + 1, g.blockSize), c, offset, src, 0)
  {
    hide PBlock, Area, Quot;
    var bs := g.blockSize;
    forall k: nat | k < Area(n + 1, bs)
      ensures ByteIs(g, d', r', k, Expect(c, offset, src, 0, k))
    {
      QuotBound(k, n, bs);
      QuotBound(k, n + 1, bs);
      if k < Area(n, bs) {
        assert ByteIs(g, d, r, k, Expect(c, offset, src, 0, k));
      }
    }
  }

  /** The block image that the write loop stores for one chunk. */
  ghost function Chunk(base: seq<u8>, zlo: nat, zhi: nat, at: nat, data: seq<u8>): (r: seq<u8>)
    requires zlo <= zhi <= |base| && at + |data| <= |base|
    ensures |r| == |base|
  {
    Splice(Splice(base, zlo, Zeros(zhi - zlo)), at, data)
  }

  /** What the write loop has arranged when it stores a chunk of `want` bytes in block image `blk`. */
  ghost predicate ChunkReady(g: Geometry, d: Disk, r: Root, n: nat, base: seq<u8>, blk: seq<u8>, zlo: nat, zhi: nat,
      cur: nat, c: seq<u8>, offset: nat, src: seq<u8>, done: nat, want: nat, known: nat)
  {
    && done + want <= |src| && want > 0
    && Holds(g, d, r, known, c, offset, src, done)
    && var pos, bs := offset + done, g.blockSize;
    var l, at := Quot(pos, bs), Rem(pos, bs);
    && l < n && at + want <= bs && |base| == bs && zlo <= zhi <= bs
    && blk == Chunk(base, zlo, zhi, at, src[done..done + want])
    && (forall m: nat | m < n :: PBlock(r, m) < |d|)
    && (forall m: nat | m < n && m != l :: PBlock(r, m) != PBlock(r, l))
    && |c| <= cur <= Area(n, bs)
    // the block is new and all zeros, or it is an old one whose bytes are known up to the end of the file
    && (if known <= Area(l, bs) then base == Zeros(bs) && known == Area(l, bs) && cur <= known && cur <= pos && (pos == cur ==> cur == known)
        else base == d[PBlock(r, l)] && known == cur)
    // the zeroed part is the gap between the end of the file and the chunk
    && (if pos > cur then done == 0 && zhi == at && zlo == (if cur > Area(l, bs) then cur - Area(l, bs) else 0) else zlo == zhi)
  }

  /** Storing one chunk of the write brings the next `want` bytes, and the gap before them, to their expected values. */
  lemma ChunkStep(g: Geometry, d: Disk, r: Root, n: nat, base: seq<u8>, blk: seq<u8>, zlo: nat, zhi: nat,
      cur: nat, c: seq<u8>, offset: nat, src: seq<u8>, done: nat, want: nat, known: nat)
    requires ChunkReady(g, d, r, n, base, blk, zlo, zhi, cur, c, offset, src, done, want, known)
    ensures var p := PBlock(r, Quot(offset + done, g.blockSize));
      p < |d| && Holds(g, d[p := blk], r, if offset + done + want > cur then offset + done + want else cur, c, offset, src, done + want)
  {
    hide PBlock, Area, Quot, Chunk;
    var p := PBlock(r, Quot(offset + done, g.blockSize));
    var d' := d[p := blk];
    var upto := if offset + done + want > cur then offset + done + want else cur;
    var reached := done + want;
    forall k: nat | k < upto
      ensures ByteIs(g, d', r, k, Expect(c, offset, src, reached, k))
    {
      ChunkByte(g, d, r, n, base, blk, zlo, zhi, cur, c, offset, src, done, want, known, k);
    }
  }

  lemma ChunkByte(g: Geometry, d: Disk, r: Root, n: nat, base: seq<u8>, blk: seq<u8>, zlo: nat, zhi: nat,
      cur: nat, c: seq<u8>, offset: nat, src: seq<u8>, done: nat, want: nat, known: nat, k: nat)
    requires ChunkReady(g, d, r, n, base, blk, zlo, zhi, cur, c, offset, src, done, want, known)
    requires k < if offset + done + want > cur then offset + done + want else cur
    ensures var p := PBlock(r, Quot(offset + done, g.blockSize));
      p < |d| && |blk| == g.blockSize && ByteIs(g, d[p := blk], r, k, Expect(c, offset, src, done + want, k))
  {
    hide PBlock, Area, Quot;
    var pos, bs := offset + done, g.blockSize;
    var l, at := Quot(pos, bs), Rem(pos, bs);
    AreaNext(l, bs);
    QuotBound(k, l, bs);
    QuotBound(k, l + 1, bs);
    QuotBound(k, n, bs);
    if l + 1 < n {
      AreaStep(l + 1, n, bs);
    }
    if Quot(k, bs) == l {
      var o := Rem(k, bs);
      if at <= o < at + want {
      } else if zlo <= o < zhi {
      } else {
        assert blk[o] == base[o];
        if known > Area(l, bs) {
          assert ByteIs(g, d, r, k, Expect(c, offset, src, done, k));
        }
      }
    } else {
      assert k < known;
      assert ByteIs(g, d, r, k, Expect(c, offset, src, done, k));
    }
  }
}

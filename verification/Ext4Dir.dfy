/** Directory blocks: chains of records that tile the block, and how entries are found, added and removed. */
module Ext4Dir {
  import opened Bytes

  const MAX_NAME: nat := 255

  /** `8 + n` rounded up to a multiple of four. */
  function RecLen(n: nat): (r: nat)
    ensures 8 + n <= r < 8 + n + 4 && r % 4 == 0
  {
    (8 + n + 3) / 4 * 4
  }

  datatype Entry = Entry(ino: u32, name: seq<u8>, kind: u8)

  /** The fields of the record at p. */
  predicate Fits(s: seq<u8>, p: nat) { p + 8 <= |s| }
  function RecIno(s: seq<u8>, p: nat): u32 requires Fits(s, p) { Rd32(s, p) }
  function RecSize(s: seq<u8>, p: nat): nat requires Fits(s, p) { Rd16(s, p + 4) }
  function NameLen(s: seq<u8>, p: nat): u8 requires Fits(s, p) { s[p + 6] }
  function Kind(s: seq<u8>, p: nat): u8 requires Fits(s, p) { s[p + 7] }

  /** A record lies at p: 4-aligned length, inside the block, with room for its name where it is in use. */
  predicate Record(s: seq<u8>, p: nat)
  {
    && Fits(s, p) && 8 <= RecSize(s, p) && RecSize(s, p) % 4 == 0 && p + RecSize(s, p) <= |s|
    && (RecIno(s, p) != 0 ==> RecLen(NameLen(s, p)) <= RecSize(s, p))
  }

  /** From p on, records follow each other exactly up to the end of the block. */
  predicate Tiled(s: seq<u8>, p: nat)
    decreases |s| - p
  {
    p == |s| || (p < |s| && Record(s, p) && Tiled(s, p + RecSize(s, p)))
  }

  function NameAt(s: seq<u8>, p: nat): seq<u8>
    requires Record(s, p) && RecIno(s, p) != 0
  {
    s[p + 8..p + 8 + NameLen(s, p)]
  }

  /** The entry at p, or none if the record is free. */
  function EntryAt(s: seq<u8>, p: nat): seq<Entry>
    requires Record(s, p)
  {
    if RecIno(s, p) == 0 then [] else [Entry(RecIno(s, p), NameAt(s, p), Kind(s, p))]
  }

  /** The entries in use from p on, in order. */
  function InUse(s: seq<u8>, p: nat): seq<Entry>
    requires Tiled(s, p)
    decreases |s| - p
  {
    if p == |s| then [] else EntryAt(s, p) + InUse(s, p + RecSize(s, p))
  }

  /** A record starts at q, walking from p. */
  predicate Reaches(s: seq<u8>, p: nat, q: nat)
    decreases |s| - p
  {
    p == q || (p < |s| && Record(s, p) && Reaches(s, p + RecSize(s, p), q))
  }

  /** The entries in use from p up to q. */
  function Between(s: seq<u8>, p: nat, q: nat): seq<Entry>
    requires Reaches(s, p, q)
    decreases |s| - p
  {
    if p == q then [] else EntryAt(s, p) + Between(s, p + RecSize(s, p), q)
  }

  lemma {:induction false} ReachesStep(s: seq<u8>, p: nat, q: nat)
    requires Reaches(s, p, q) && q < |s| && Record(s, q)
    ensures p <= q && Reaches(s, p, q + RecSize(s, q))
    decreases |s| - p
  {
    if p != q {
      ReachesStep(s, p + RecSize(s, p), q);
    }
  }

  lemma EntriesStep(s: seq<u8>, p: nat)
    requires p < |s| && (Tiled(s, p) || (Record(s, p) && Tiled(s, p + RecSize(s, p))))
    ensures Fits(s, p) && Record(s, p) && Tiled(s, p) && Tiled(s, p + RecSize(s, p))
    ensures InUse(s, p) == EntryAt(s, p) + InUse(s, p + RecSize(s, p))
  {
  }

  lemma EntriesEnd(s: seq<u8>)
    ensures Tiled(s, |s|) && InUse(s, |s|) == []
  {
  }

  /** The first step of a walk that has further to go. */
  lemma ReachesUnfold(s: seq<u8>, p: nat, q: nat)
    requires p != q
    ensures Reaches(s, p, q) <==> p < |s| && Record(s, p) && Reaches(s, p + RecSize(s, p), q)
    ensures Reaches(s, p, q) ==> Fits(s, p) && Between(s, p, q) == EntryAt(s, p) + Between(s, p + RecSize(s, p), q)
  {
  }

  lemma ReachesSelf(s: seq<u8>, p: nat)
    ensures Reaches(s, p, p) && Between(s, p, p) == []
  {
  }

  lemma RecordFits(s: seq<u8>, p: nat)
    requires Record(s, p)
    ensures p + 8 <= p + RecSize(s, p) <= |s|
  {
  }

  /** A record depends only on its own bytes. */
  lemma SameRecord(s: seq<u8>, s': seq<u8>, p: nat, hi: nat)
    requires |s| == |s'| && p + 8 <= hi <= |s| && s[p..hi] == s'[p..hi]
    ensures RecIno(s', p) == RecIno(s, p) && RecSize(s', p) == RecSize(s, p)
    ensures NameLen(s', p) == NameLen(s, p) && Kind(s', p) == Kind(s, p)
    ensures Record(s, p) && p + RecSize(s, p) <= hi ==> Record(s', p) && EntryAt(s', p) == EntryAt(s, p)
  {
    forall i | p <= i < hi
      ensures s'[i] == s[i]
    {
      assert s'[p..hi][i - p] == s[p..hi][i - p];
    }
    if Record(s, p) && p + RecSize(s, p) <= hi && RecIno(s, p) != 0 {
      assert NameAt(s', p) == NameAt(s, p);
    }
  }

  /** A block that differs only from q on has the same records before q. */
  lemma {:induction false} SamePrefix(s: seq<u8>, s': seq<u8>, p: nat, q: nat)
    requires |s| == |s'| && Reaches(s, p, q) && q <= |s| && s[..q] == s'[..q]
    ensures p <= q && Reaches(s', p, q) && Between(s', p, q) == Between(s, p, q)
    ensures Tiled(s', q) ==> Tiled(s', p) && InUse(s', p) == Between(s, p, q) + InUse(s', q)
    decreases |s| - p
  {
    hide Rd16, Rd32, EntryAt, Record, Tiled, InUse, Reaches, Between;
    if p == q {
      ReachesSelf(s, p);
      ReachesSelf(s', p);
    } else {
      ReachesUnfold(s, p, q);
      RecordFits(s, p);
      var n := p + RecSize(s, p);
      ReachBound(s, n, q);
      SameCut(s, s', p, n, q);
      SameRecord(s, s', p, n);
      SamePrefix(s, s', n, q);
      ReachesUnfold(s', p, q);
      if Tiled(s', q) {
        EntriesStep(s', p);
        assert EntryAt(s, p) + (Between(s, n, q) + InUse(s', q)) == (EntryAt(s, p) + Between(s, n, q)) + InUse(s', q);
      }
    }
  }

  lemma SameCut(s: seq<u8>, s': seq<u8>, p: nat, n: nat, q: nat)
    requires p <= n <= q <= |s| == |s'| && s[..q] == s'[..q]
    ensures s[p..n] == s'[p..n]
  {
    SliceOfSlice(s, 0, q, p, n);
    SliceOfSlice(s', 0, q, p, n);
    assert s[0..q] == s[..q] && s'[0..q] == s'[..q];
  }

  lemma {:induction false} ReachBound(s: seq<u8>, p: nat, q: nat)
    requires Reaches(s, p, q)
    ensures p <= q
    decreases |s| - p
  {
    if p != q {
      ReachBound(s, p + RecSize(s, p), q);
    }
  }

  /** A block that differs only before p has the same records from p on. */
  lemma {:induction false} SameSuffix(s: seq<u8>, s': seq<u8>, p: nat)
    requires |s| == |s'| && p <= |s| && Tiled(s, p) && s[p..] == s'[p..]
    ensures Tiled(s', p) && InUse(s', p) == InUse(s, p)
    decreases |s| - p
  {
    hide Rd16, Rd32, EntryAt, Record, Tiled, InUse;
    if p == |s| {
      EntriesEnd(s);
      EntriesEnd(s');
    } else {
      EntriesStep(s, p);
      RecordFits(s, p);
      var n := p + RecSize(s, p);
      assert s[p..] == s[p..|s|] && s'[p..] == s'[p..|s|];
      SameRecord(s, s', p, |s|);
      TailOf(s, s', p, n);
      SameSuffix(s, s', n);
      EntriesStep(s', p);
    }
  }

  // ---------- storing a record ----------

  function Le16(v: u16): (r: seq<u8>)
    ensures |r| == 2 && r[0] as int + 0x100 * r[1] as int == v
  {
    [v % 0x100, v / 0x100]
  }

  /** The bytes of a record in use, up to the end of its name. */
  function RecordBytes(ino: u32, size: u16, name: seq<u8>, kind: u8): (r: seq<u8>)
    requires |name| <= MAX_NAME
    ensures |r| == 8 + |name|
  {
    Le32(ino) + Le16(size) + [|name|, kind] + name
  }

  /** A stored record reads back, and nothing outside its bytes changes. */
  lemma StoredRecord(s: seq<u8>, p: nat, ino: u32, size: u16, name: seq<u8>, kind: u8)
    requires ino != 0 && |name| <= MAX_NAME && RecLen(|name|) <= size && size % 4 == 0 && p + size <= |s|
    ensures var s' := Splice(s, p, RecordBytes(ino, size, name, kind));
      && Record(s', p) && RecSize(s', p) == size && EntryAt(s', p) == [Entry(ino, name, kind)]
      && s'[..p] == s[..p] && s'[p + size..] == s[p + size..]
  {
    var s' := Splice(s, p, RecordBytes(ino, size, name, kind));
    var b := RecordBytes(ino, size, name, kind);
    assert b[8..] == name;
    forall i | 0 <= i < |b|
      ensures s'[p + i] == b[i]
    {
    }
    assert NameLen(s', p) == |name|;
    assert NameAt(s', p) == name by {
      forall i | 0 <= i < |name|
        ensures s'[p + 8 + i] == name[i]
      {
        assert s'[p + (8 + i)] == b[8 + i] == b[8..][i];
      }
    }
  }

  method WriteRecord(buf: array<u8>, p: nat, ino: u32, size: u16, name: seq<u8>, kind: u8)
    requires |name| <= MAX_NAME && p + 8 + |name| <= buf.Length
    modifies buf
    ensures buf[..] == Splice(old(buf[..]), p, RecordBytes(ino, size, name, kind))
  {
    hide Rd32, Rd16, Splice, Wr32, Wr16;
    ghost var s := buf[..];
    StoreLe32(buf, p, ino);
    WrIsSplice(s, p, ino);
    AdjacentSplices(s, p, Le32(ino), Le16(size));
    StoreLe16(buf, p + 4, size);
    Wr16IsSplice(Splice(s, p, Le32(ino)), p + 4, size);
    AdjacentSplices(s, p, Le32(ino) + Le16(size), [|name|, kind]);
    StoreBytes(buf, p + 6, [|name|, kind], 0, 2);
    assert [|name|, kind][0..2] == [|name|, kind];
    AdjacentSplices(s, p, Le32(ino) + Le16(size) + [|name|, kind], name);
    StoreBytes(buf, p + 8, name, 0, |name|);
    assert name[0..|name|] == name;
  }

  lemma WrIsSplice(s: seq<u8>, p: nat, v: u32)
    requires p + 4 <= |s|
    ensures Wr32(s, p, v) == Splice(s, p, Le32(v))
  {
  }

  lemma Wr16IsSplice(s: seq<u8>, p: nat, v: u16)
    requires p + 2 <= |s|
    ensures Wr16(s, p, v) == Splice(s, p, Le16(v))
  {
  }

  // ---------- adding ----------

  /** List b is list a with e put in at one place. */
  ghost predicate Inserted(a: seq<Entry>, b: seq<Entry>, e: Entry)
  {
    exists k: nat :: k <= |a| && InsertedAt(a, b, e, k)
  }

  predicate InsertedAt(a: seq<Entry>, b: seq<Entry>, e: Entry, k: nat)
    requires k <= |a|
  {
    b == a[..k] + [e] + a[k..]
  }

  lemma InsertedHere(x: seq<Entry>, y: seq<Entry>, e: Entry)
    ensures Inserted(x + y, x + [e] + y, e)
  {
    assert (x + y)[..|x|] == x && (x + y)[|x|..] == y;
    assert InsertedAt(x + y, x + [e] + y, e, |x|);
  }

  /** Record p can take an entry that needs `need` bytes. */
  predicate HasRoom(s: seq<u8>, p: nat, need: nat)
    requires Record(s, p)
  {
    if RecIno(s, p) == 0 then RecSize(s, p) >= need else RecSize(s, p) - RecLen(NameLen(s, p)) >= need
  }

  /** No record from p on can take an entry that needs `need` bytes. */
  predicate NoRoom(s: seq<u8>, p: nat, need: nat)
    requires Tiled(s, p)
    decreases |s| - p
  {
    p == |s| || (!HasRoom(s, p, need) && NoRoom(s, p + RecSize(s, p), need))
  }

  /** What an added entry does to a block: tiling kept, one more entry in use, all others as they were and in order. */
  ghost predicate AddedTo(s: seq<u8>, s': seq<u8>, e: Entry)
  {
    |s'| == |s| && Tiled(s, 0) && Tiled(s', 0) && Inserted(InUse(s, 0), InUse(s', 0), e)
  }

  /** Entry e is in use in the record at q, which is `room` bytes long. */
  predicate LiesAt(s: seq<u8>, q: nat, e: Entry, room: nat)
  {
    Reaches(s, 0, q) && q < |s| && Record(s, q) && EntryAt(s, q) == [e] && RecSize(s, q) == room
  }

  ghost predicate LiesIn(s: seq<u8>, e: Entry, room: nat)
  {
    exists q: nat :: LiesAt(s, q, e, room)
  }

  /** Reusing the free record at q. */
  lemma ReuseRecord(s: seq<u8>, q: nat, e: Entry)
    requires Tiled(s, 0) && Reaches(s, 0, q) && q < |s| && Tiled(s, q) && RecIno(s, q) == 0
    requires e.ino != 0 && |e.name| <= MAX_NAME && RecLen(|e.name|) <= RecSize(s, q)
    ensures AddedTo(s, Splice(s, q, RecordBytes(e.ino, RecSize(s, q), e.name, e.kind)), e)
    ensures LiesAt(Splice(s, q, RecordBytes(e.ino, RecSize(s, q), e.name, e.kind)), q, e, RecSize(s, q))
  {
    hide Rd16, Rd32, Splice, RecordBytes, EntryAt, Record, Tiled, InUse, Reaches, Between, Inserted;
    EntriesStep(s, q);
    RecordFits(s, q);
    var n := q + RecSize(s, q);
    var s' := Splice(s, q, RecordBytes(e.ino, RecSize(s, q), e.name, e.kind));
    StoredRecord(s, q, e.ino, RecSize(s, q), e.name, e.kind);
    SameSuffix(s, s', n);
    EntriesStep(s', q);
    SamePrefix(s, s, 0, q);
    SamePrefix(s, s', 0, q);
    var x, y := Between(s, 0, q), InUse(s, n);
    FreeEntry(s, q);
    assert [] + y == y;
    assert x + ([e] + y) == x + [e] + y;
    InsertedHere(x, y, e);
  }

  lemma FreeEntry(s: seq<u8>, q: nat)
    requires Record(s, q) && RecIno(s, q) == 0
    ensures EntryAt(s, q) == []
  {
  }

  lemma UsedEntry(s: seq<u8>, q: nat)
    requires Record(s, q) && RecIno(s, q) != 0
    ensures EntryAt(s, q) == [Entry(RecIno(s, q), NameAt(s, q), Kind(s, q))]
  {
  }

  /** What the split of record q leaves behind. */
  function SplitBytes(s: seq<u8>, q: nat, e: Entry): (r: seq<u8>)
    requires Record(s, q) && RecIno(s, q) != 0 && |e.name| <= MAX_NAME
    requires RecSize(s, q) - RecLen(NameLen(s, q)) >= RecLen(|e.name|)
    ensures |r| == |s|
  {
    var actual := RecLen(NameLen(s, q));
    Splice(Splice(s, q + 4, Le16(actual)), q + actual, RecordBytes(e.ino, RecSize(s, q) - actual, e.name, e.kind))
  }

  lemma ShrunkRecord(s: seq<u8>, q: nat)
    requires Record(s, q) && RecIno(s, q) != 0
    ensures var actual := RecLen(NameLen(s, q));
      var s1 := Splice(s, q + 4, Le16(actual));
      && actual < 0x1_0000 && Record(s1, q) && RecSize(s1, q) == actual && EntryAt(s1, q) == EntryAt(s, q)
      && s1[..q] == s[..q] && s1[q + actual..] == s[q + actual..]
  {
    var actual := RecLen(NameLen(s, q));
    var s1 := Splice(s, q + 4, Le16(actual));
    assert RecIno(s1, q) == RecIno(s, q) && NameLen(s1, q) == NameLen(s, q);
    assert NameAt(s1, q) == NameAt(s, q);
  }

  /** Splitting the record in use at q. */
  lemma SplitRecord(s: seq<u8>, q: nat, e: Entry)
    requires Tiled(s, 0) && Reaches(s, 0, q) && q < |s| && Tiled(s, q) && RecIno(s, q) != 0
    requires e.ino != 0 && |e.name| <= MAX_NAME && RecSize(s, q) - RecLen(NameLen(s, q)) >= RecLen(|e.name|)
    ensures AddedTo(s, SplitBytes(s, q, e), e)
    ensures LiesAt(SplitBytes(s, q, e), q + RecLen(NameLen(s, q)), e, RecSize(s, q) - RecLen(NameLen(s, q)))
  {
    hide Rd16, Rd32, Splice, RecordBytes, EntryAt, RecLen;
    var actual := RecLen(NameLen(s, q));
    var m, n := q + actual, q + RecSize(s, q);
    var s1, s' := Splice(s, q + 4, Le16(actual)), SplitBytes(s, q, e);
    ShrunkRecord(s, q);
    StoredRecord(s1, m, e.ino, n - m, e.name, e.kind);
    TailOf(s1, s, m, n);
    SameCut(s1, s', q, m, m);
    SameRecord(s1, s', q, m);
    SameCut(s1, s', 0, q, m);
    assert s'[0..q] == s'[..q] && s1[0..q] == s1[..q];
    SplitJoins(s, s', q, m, e);
  }

  lemma SplitJoins(s: seq<u8>, s': seq<u8>, q: nat, m: nat, e: Entry)
    requires |s'| == |s| && Tiled(s, 0) && Reaches(s, 0, q) && q < |s| && Tiled(s, q) && s'[..q] == s[..q]
    requires Record(s', q) && q + RecSize(s', q) == m && EntryAt(s', q) == EntryAt(s, q)
    requires q < m < |s| && Record(s', m) && EntryAt(s', m) == [e] && m + RecSize(s', m) == q + RecSize(s, q)
    requires s'[q + RecSize(s, q)..] == s[q + RecSize(s, q)..]
    ensures AddedTo(s, s', e) && LiesAt(s', m, e, RecSize(s', m))
  {
    hide Rd16, Rd32, EntryAt, RecLen, Tiled, InUse, Reaches, Between, Record, Inserted;
    EntriesStep(s, q);
    var n := q + RecSize(s, q);
    SameSuffix(s, s', n);
    var x, o, y := Between(s, 0, q), EntryAt(s, q), InUse(s, n);
    EntriesStep(s', m);
    EntriesStep(s', q);
    SamePrefix(s, s, 0, q);
    SamePrefix(s, s', 0, q);
    ReachesStep(s', 0, q);
    assert x + (o + ([e] + y)) == (x + o) + [e] + y;
    assert x + (o + y) == (x + o) + y;
    InsertedHere(x + o, y, e);
  }

  lemma TailOf(a: seq<u8>, b: seq<u8>, m: nat, n: nat)
    requires |a| == |b| && m <= n <= |a| && a[m..] == b[m..]
    ensures a[n..] == b[n..]
  {
    assert a[n..] == a[m..][n - m..] && b[n..] == b[m..][n - m..];
  }

  /** The two ways a walk over the records of a block ends. */
  lemma {:induction false} ReachesTiled(s: seq<u8>, p: nat, q: nat)
    requires Tiled(s, p) && Reaches(s, p, q)
    ensures q <= |s| && Tiled(s, q) && (q < |s| ==> Record(s, q))
    decreases |s| - p
  {
    if p != q {
      ReachesTiled(s, p + RecSize(s, p), q);
    }
  }

  lemma WalkStart(s: seq<u8>, need: nat)
    ensures Reaches(s, 0, 0)
  {
  }

  /** One step of a walk over the records of a tiled block. */
  lemma WalkStep(s: seq<u8>, q: nat)
    requires Tiled(s, 0) && Reaches(s, 0, q) && q + 8 <= |s|
    ensures Record(s, q) && Tiled(s, q + RecSize(s, q)) && Reaches(s, 0, q + RecSize(s, q))
  {
    ReachesTiled(s, 0, q);
    ReachesStep(s, 0, q);
  }

  lemma WalkEnd(s: seq<u8>, q: nat)
    requires Tiled(s, 0) && Reaches(s, 0, q) && |s| < q + 8
    ensures q == |s|
  {
    ReachesTiled(s, 0, q);
  }

  lemma NoRoomStep(s: seq<u8>, q: nat, need: nat)
    requires Tiled(s, q) && q < |s|
    ensures HasRoom(s, q, need) ==> !NoRoom(s, q, need)
    ensures !HasRoom(s, q, need) ==> (NoRoom(s, q, need) <==> NoRoom(s, q + RecSize(s, q), need))
  {
  }

  lemma NoRoomEnd(s: seq<u8>, need: nat)
    ensures Tiled(s, |s|) && NoRoom(s, |s|, need)
  {
  }

  // ---------- finding and removing ----------

  /** The test the source applies to the record at p: the room for the name is compared after truncation to eight bits. */
  predicate Matches(s: seq<u8>, p: nat, name: seq<u8>)
    requires Record(s, p)
  {
    RecIno(s, p) != 0 && NameLen(s, p) == |name| && NameLen(s, p) <= (RecSize(s, p) - 8) % 0x100 && NameAt(s, p) == name
  }

  /** The inode number a lookup from p on returns, 0 if it finds none. */
  function Find(s: seq<u8>, p: nat, name: seq<u8>): u32
    requires Tiled(s, p)
    decreases |s| - p
  {
    if p == |s| then 0 else if Matches(s, p, name) then RecIno(s, p) else Find(s, p + RecSize(s, p), name)
  }

  lemma FindStep(s: seq<u8>, q: nat, name: seq<u8>)
    requires Tiled(s, q) && q < |s|
    ensures Matches(s, q, name) ==> Find(s, q, name) == RecIno(s, q) != 0
    ensures !Matches(s, q, name) ==> Find(s, q, name) == Find(s, q + RecSize(s, q), name)
  {
  }

  /** Compares `n` bytes of the buffer with a name. */
  method SameName(buf: array<u8>, p: nat, name: seq<u8>) returns (same: bool)
    requires p + |name| <= buf.Length
    ensures same <==> buf[p..p + |name|] == name
  {
    for i := 0 to |name|
      invariant buf[p..p + i] == name[..i]
    {
      if buf[p + i] != name[i] {
        assert buf[p..p + |name|][i] != name[i];
        return false;
      }
    }
    same := true;
  }

  /** Walks a block for the first record that matches the name. */
  method FindInBlock(buf: array<u8>, bs: nat, name: seq<u8>) returns (found: bool, at: nat, ino: u32)
    requires bs <= buf.Length && 0 < |name| <= MAX_NAME
    ensures found ==> at + 8 <= bs && RecIno(buf[..bs], at) == ino != 0
    ensures Tiled(buf[..bs], 0) ==> (if found then ino else 0) == Find(buf[..bs], 0, name)
    ensures Tiled(buf[..bs], 0) && found ==> Reaches(buf[..bs], 0, at) && Record(buf[..bs], at) && Matches(buf[..bs], at, name)
  {
    hide Rd16, Rd32, Splice, EntryAt, RecLen, Reaches, Tiled, Find, Matches;
    var block := buf[..bs];
    var pos := 0;
    at, ino := 0, 0;
    WalkStart(block, 0);
    while pos + 8 <= bs
      invariant pos <= bs
      invariant Tiled(block, 0) ==> Reaches(block, 0, pos) && Tiled(block, pos) && Find(block, pos, name) == Find(block, 0, name)
      decreases bs - pos
    {
      var size, nlen := RecSize(block, pos), NameLen(block, pos);
      ino := RecIno(block, pos);
      if Tiled(block, 0) {
        WalkStep(block, pos);
        FindStep(block, pos, name);
        MatchTest(buf[..], bs, pos, name);
      }
      if size < 8 || pos + size > bs {
        break;
      }
      if ino != 0 && nlen == |name| && nlen <= (size - 8) % 0x100 {
        var same := SameName(buf, pos + 8, name);
        if same {
          return true, pos, ino;
        }
      }
      pos := pos + size;
    }
    if Tiled(block, 0) {
      WalkEnd(block, pos);
      FindEnd(block, name);
    }
    found := false;
  }

  /** The test as it is made on the buffer. */
  lemma MatchTest(b: seq<u8>, bs: nat, p: nat, name: seq<u8>)
    requires bs <= |b| && Record(b[..bs], p)
    ensures Matches(b[..bs], p, name) <==>
      && RecIno(b[..bs], p) != 0 && NameLen(b[..bs], p) == |name| <= (RecSize(b[..bs], p) - 8) % 0x100
      && b[p + 8..p + 8 + |name|] == name
  {
    hide Rd16, Rd32;
    if RecIno(b[..bs], p) != 0 && NameLen(b[..bs], p) == |name| <= (RecSize(b[..bs], p) - 8) % 0x100 {
      assert b[..bs][p + 8..p + 8 + |name|] == b[p + 8..p + 8 + |name|];
    }
  }

  lemma FindEnd(s: seq<u8>, name: seq<u8>)
    ensures Tiled(s, |s|) && Find(s, |s|, name) == 0
  {
  }

  /** What a removed entry does to a block: tiling kept, one entry less, all others as they were and in order. */
  ghost predicate RemovedFrom(s: seq<u8>, s': seq<u8>, e: Entry)
  {
    |s'| == |s| && Tiled(s, 0) && Tiled(s', 0) && Inserted(InUse(s', 0), InUse(s, 0), e)
  }

  /** Freeing the record in use at q. */
  lemma FreeRecord(s: seq<u8>, q: nat)
    requires Tiled(s, 0) && Reaches(s, 0, q) && q < |s| && Tiled(s, q) && RecIno(s, q) != 0
    ensures RemovedFrom(s, Wr32(s, q, 0), Entry(RecIno(s, q), NameAt(s, q), Kind(s, q)))
  {
    hide Rd16, Rd32, Wr32, Splice, RecLen, EntryAt, NameAt, Record, Tiled, InUse, Reaches, Between, Inserted;
    EntriesStep(s, q);
    RecordFits(s, q);
    var s', n := Wr32(s, q, 0), q + RecSize(s, q);
    ZeroedRecord(s, q);
    TailOf(s', s, q + 4, n);
    SameSuffix(s, s', n);
    EntriesStep(s', q);
    SamePrefix(s, s, 0, q);
    SamePrefix(s, s', 0, q);
    var x, y := Between(s, 0, q), InUse(s, n);
    var e := Entry(RecIno(s, q), NameAt(s, q), Kind(s, q));
    FreeEntry(s', q);
    UsedEntry(s, q);
    assert [] + y == y;
    assert x + ([e] + y) == x + [e] + y;
    InsertedHere(x, y, e);
  }

  lemma ZeroedRecord(s: seq<u8>, q: nat)
    requires Record(s, q)
    ensures Record(Wr32(s, q, 0), q) && RecIno(Wr32(s, q, 0), q) == 0 && RecSize(Wr32(s, q, 0), q) == RecSize(s, q)
  {
    var s' := Wr32(s, q, 0);
    assert s'[q + 4..][0] == s[q + 4..][0] && s'[q + 4..][1] == s[q + 4..][1];
  }

  /** Removes the first record that matches the name. */
  method RemoveFromBlock(buf: array<u8>, bs: nat, name: seq<u8>) returns (removed: bool, ino: u32)
    requires bs <= buf.Length && 0 < |name| <= MAX_NAME
    modifies buf
    ensures !removed ==> buf[..] == old(buf[..])
    ensures Tiled(old(buf[..bs]), 0) ==> (removed <==> Find(old(buf[..bs]), 0, name) != 0)
    ensures Tiled(old(buf[..bs]), 0) && removed ==>
      && ino == Find(old(buf[..bs]), 0, name)
      && exists kind: u8 :: RemovedFrom(old(buf[..bs]), buf[..bs], Entry(ino, name, kind))
  {
    hide Rd16, Rd32, Splice, EntryAt, RecLen, Reaches, Tiled, Find, RemovedFrom;
    ghost var block := buf[..bs];
    var at;
    removed, at, ino := FindInBlock(buf, bs, name);
    if removed {
      SplicePrefix(buf[..], bs, at, Le32(0));
      WrIsSplice(buf[..], at, 0);
      WrIsSplice(block, at, 0);
      StoreLe32(buf, at, 0);
      if Tiled(block, 0) {
        ReachesTiled(block, 0, at);
        FreeRecord(block, at);
      }
    }
  }

  // ---------- which entries a lookup finds ----------

  predicate Lists(es: seq<Entry>, ino: u32, name: seq<u8>)
  {
    exists k: nat :: k < |es| && es[k].ino == ino && es[k].name == name
  }

  lemma ListsIn(x: seq<Entry>, y: seq<Entry>, ino: u32, name: seq<u8>)
    requires Lists(x, ino, name) || Lists(y, ino, name)
    ensures Lists(x + y, ino, name)
  {
    if Lists(x, ino, name) {
      var k: nat :| k < |x| && x[k].ino == ino && x[k].name == name;
      assert (x + y)[k] == x[k];
    } else {
      var k: nat :| k < |y| && y[k].ino == ino && y[k].name == name;
      assert (x + y)[|x| + k] == y[k];
    }
  }

  lemma MatchListed(s: seq<u8>, p: nat, name: seq<u8>)
    requires Record(s, p) && Matches(s, p, name)
    ensures Lists(EntryAt(s, p), RecIno(s, p), name)
  {
    assert EntryAt(s, p)[0].name == name;
  }

  /** Whatever a lookup finds is an entry in use with that name. */
  lemma {:induction false} FindSound(s: seq<u8>, p: nat, name: seq<u8>)
    requires Tiled(s, p) && p <= |s| && Find(s, p, name) != 0
    ensures Lists(InUse(s, p), Find(s, p, name), name)
    decreases |s| - p
  {
    hide Rd16, Rd32, EntryAt, Record, Tiled, Find, Matches, InUse, Lists;
    if p == |s| {
      FindEnd(s, name);
    } else {
      EntriesStep(s, p);
      RecordFits(s, p);
      FindStep(s, p, name);
      var n := p + RecSize(s, p);
      if Matches(s, p, name) {
        MatchListed(s, p, name);
      } else {
        FindSound(s, n, name);
      }
      ListsIn(EntryAt(s, p), InUse(s, n), Find(s, p, name), name);
    }
  }

  /** A lookup passes the record it looks for exactly when the truncated comparison fails; no record of up to 263 bytes is passed. */
  lemma MatchesIff(s: seq<u8>, q: nat)
    requires Record(s, q) && RecIno(s, q) != 0
    ensures Matches(s, q, NameAt(s, q)) <==> NameLen(s, q) <= (RecSize(s, q) - 8) % 0x100
    ensures RecSize(s, q) <= 263 ==> Matches(s, q, NameAt(s, q))
  {
  }

  /** No record in use from p on is longer than 263 bytes. */
  predicate AllShort(s: seq<u8>, p: nat)
    requires Tiled(s, p)
    decreases |s| - p
  {
    p == |s| || ((RecIno(s, p) == 0 || RecSize(s, p) <= 263) && AllShort(s, p + RecSize(s, p)))
  }

  predicate Names(es: seq<Entry>, name: seq<u8>)
  {
    exists k: nat :: k < |es| && es[k].name == name
  }

  /** With short records a lookup finds exactly the names in use. */
  lemma {:induction false} FindComplete(s: seq<u8>, p: nat, name: seq<u8>)
    requires Tiled(s, p) && p <= |s| && AllShort(s, p)
    ensures Find(s, p, name) != 0 <==> Names(InUse(s, p), name)
    decreases |s| - p
  {
    hide Rd16, Rd32, EntryAt, Record, Tiled, Find, Matches, InUse;
    if Find(s, p, name) != 0 {
      FindSound(s, p, name);
    } else if p == |s| {
      EntriesEnd(s);
    } else {
      EntriesStep(s, p);
      RecordFits(s, p);
      FindStep(s, p, name);
      FindComplete(s, p + RecSize(s, p), name);
      UnmatchedShort(s, p, name);
      NamesApart(EntryAt(s, p), InUse(s, p + RecSize(s, p)), name);
    }
  }

  lemma UnmatchedShort(s: seq<u8>, p: nat, name: seq<u8>)
    requires Record(s, p) && !Matches(s, p, name) && (RecIno(s, p) == 0 || RecSize(s, p) <= 263)
    ensures !Names(EntryAt(s, p), name)
  {
    hide Rd16, Rd32;
    if RecIno(s, p) != 0 {
      MatchesIff(s, p);
    }
  }

  lemma NamesApart(x: seq<Entry>, y: seq<Entry>, name: seq<u8>)
    requires !Names(x, name) && !Names(y, name)
    ensures !Names(x + y, name)
  {
    forall k: nat | k < |x + y|
      ensures (x + y)[k].name != name
    {
      assert (x + y)[k] == if k < |x| then x[k] else y[k - |x|];
    }
  }

  lemma {:induction false} FindSuffix(s: seq<u8>, s': seq<u8>, p: nat, name: seq<u8>)
    requires |s| == |s'| && p <= |s| && Tiled(s, p) && s[p..] == s'[p..]
    ensures Tiled(s', p) && Find(s', p, name) == Find(s, p, name)
    decreases |s| - p
  {
    hide Rd16, Rd32, EntryAt, Record, Tiled, Find, Matches;
    SameSuffix(s, s', p);
    if p == |s| {
      FindEnd(s, name);
      FindEnd(s', name);
    } else {
      EntriesStep(s, p);
      RecordFits(s, p);
      var n := p + RecSize(s, p);
      assert s[p..] == s[p..|s|] && s'[p..] == s'[p..|s|];
      SameMatch(s, s', p, |s|, name);
      TailOf(s, s', p, n);
      FindSuffix(s, s', n, name);
      FindStep(s, p, name);
      FindStep(s', p, name);
    }
  }

  lemma SameMatch(s: seq<u8>, s': seq<u8>, p: nat, hi: nat, name: seq<u8>)
    requires |s| == |s'| && p < hi <= |s| && Record(s, p) && p + RecSize(s, p) <= hi && s[p..hi] == s'[p..hi]
    ensures Record(s', p) && RecIno(s', p) == RecIno(s, p) && RecSize(s', p) == RecSize(s, p)
    ensures Matches(s', p, name) <==> Matches(s, p, name)
  {
    hide Rd16, Rd32;
    SameRecord(s, s', p, hi);
  }

  /** A lookup that found nothing in s walks through to q in every block that agrees with s before q. */
  lemma {:induction false} FindThrough(s: seq<u8>, s': seq<u8>, p: nat, q: nat, name: seq<u8>)
    requires |s| == |s'| && q <= |s| && Tiled(s, p) && Reaches(s, p, q) && s[..q] == s'[..q] && Tiled(s', q)
    requires Find(s, p, name) == 0
    ensures Tiled(s', p) && Tiled(s, q) && Find(s', p, name) == Find(s', q, name) && Find(s, q, name) == 0
    decreases |s| - p
  {
    hide Rd16, Rd32, EntryAt, Record, Tiled, Find, Matches, Reaches;
    SamePrefix(s, s', p, q);
    if p != q {
      ReachesUnfold(s, p, q);
      RecordFits(s, p);
      var n := p + RecSize(s, p);
      ReachBound(s, n, q);
      SameCut(s, s', p, n, q);
      EntriesStep(s, p);
      SameMatch(s, s', p, n, name);
      FindStep(s, p, name);
      FindThrough(s, s', n, q, name);
      EntriesStep2(s', p);
      FindStep(s', p, name);
    }
  }

  lemma EntriesStep2(s: seq<u8>, p: nat)
    requires Record(s, p) && Tiled(s, p + RecSize(s, p))
    ensures Tiled(s, p) && p < |s|
  {
  }

  /** What a lookup of the added name returns when the entry's record is `room` bytes long and the name was not found before. */
  function FoundAs(e: Entry, room: nat): u32
    requires room >= 8
  {
    if |e.name| <= (room - 8) % 0x100 then e.ino else 0
  }

  /** The new record at m decides what a lookup of its name returns. */
  lemma FindNewRecord(s': seq<u8>, m: nat, e: Entry)
    requires m < |s'| && Tiled(s', m) && EntryAt(s', m) == [e] && e.ino != 0 && Find(s', m + RecSize(s', m), e.name) == 0
    ensures Find(s', m, e.name) == FoundAs(e, RecSize(s', m))
  {
    hide Rd16, Rd32;
  }

  /** After reuse of a free record the name is found if and only if it passes the truncated comparison. */
  lemma FindAfterReuse(s: seq<u8>, q: nat, e: Entry)
    requires Tiled(s, 0) && Reaches(s, 0, q) && q < |s| && Tiled(s, q) && RecIno(s, q) == 0 && Find(s, 0, e.name) == 0
    requires e.ino != 0 && |e.name| <= MAX_NAME && RecLen(|e.name|) <= RecSize(s, q)
    ensures var s' := Splice(s, q, RecordBytes(e.ino, RecSize(s, q), e.name, e.kind));
      Tiled(s', 0) && Find(s', 0, e.name) == FoundAs(e, RecSize(s, q))
  {
    hide Rd16, Rd32, Splice, RecordBytes, EntryAt, Record, Tiled, InUse, Reaches, Find, Matches;
    EntriesStep(s, q);
    RecordFits(s, q);
    var n := q + RecSize(s, q);
    var s' := Splice(s, q, RecordBytes(e.ino, RecSize(s, q), e.name, e.kind));
    StoredRecord(s, q, e.ino, RecSize(s, q), e.name, e.kind);
    FindThrough(s, s, 0, q, e.name);
    FreeStep(s, q, e.name);
    FindSuffix(s, s', n, e.name);
    EntriesStep(s', q);
    FindNewRecord(s', q, e);
    FindThrough(s, s', 0, q, e.name);
  }

  lemma FreeStep(s: seq<u8>, q: nat, name: seq<u8>)
    requires Tiled(s, q) && q < |s| && Find(s, q, name) == 0
    ensures Tiled(s, q + RecSize(s, q)) && Find(s, q + RecSize(s, q), name) == 0
  {
  }

  /** After a split the name is found if and only if it passes the truncated comparison in the rest of the record. */
  lemma FindAfterSplit(s: seq<u8>, q: nat, e: Entry)
    requires Tiled(s, 0) && Reaches(s, 0, q) && q < |s| && Tiled(s, q) && RecIno(s, q) != 0 && Find(s, 0, e.name) == 0
    requires e.ino != 0 && |e.name| <= MAX_NAME && RecSize(s, q) - RecLen(NameLen(s, q)) >= RecLen(|e.name|)
    requires NameAt(s, q) != e.name
    ensures var s' := SplitBytes(s, q, e);
      Tiled(s', 0) && Find(s', 0, e.name) == FoundAs(e, RecSize(s, q) - RecLen(NameLen(s, q)))
  {
    hide Rd16, Rd32, Splice, RecordBytes, EntryAt, RecLen, Record, Tiled, InUse, Reaches, Find, Matches;
    EntriesStep(s, q);
    RecordFits(s, q);
    var actual := RecLen(NameLen(s, q));
    var m, n := q + actual, q + RecSize(s, q);
    var s1, s' := Splice(s, q + 4, Le16(actual)), SplitBytes(s, q, e);
    ShrunkRecord(s, q);
    StoredRecord(s1, m, e.ino, n - m, e.name, e.kind);
    TailOf(s1, s, m, n);
    SameCut(s1, s', q, m, m);
    SameRecord(s1, s', q, m);
    SameCut(s1, s', 0, q, m);
    assert s'[0..q] == s'[..q] && s1[0..q] == s1[..q];
    FindThrough(s, s, 0, q, e.name);
    FreeStep(s, q, e.name);
    FindSuffix(s, s', n, e.name);
    EntriesStep2(s', m);
    FindNewRecord(s', m, e);
    EntriesStep2(s', q);
    OtherName(s, s', q, e.name);
    FindStep(s', q, e.name);
    FindThrough(s, s', 0, q, e.name);
  }

  lemma OtherName(s: seq<u8>, s': seq<u8>, q: nat, name: seq<u8>)
    requires Record(s, q) && Record(s', q) && RecIno(s, q) != 0 && EntryAt(s', q) == EntryAt(s, q) && NameAt(s, q) != name
    ensures !Matches(s', q, name)
  {
    hide Rd16, Rd32;
  }

  /** A name that no entry has is found nowhere. */
  lemma UnlistedName(s: seq<u8>, q: nat, name: seq<u8>)
    requires Tiled(s, 0) && Reaches(s, 0, q) && q < |s| && Tiled(s, q) && !Names(InUse(s, 0), name)
    ensures Find(s, 0, name) == 0
    ensures Record(s, q) && (RecIno(s, q) != 0 ==> NameAt(s, q) != name)
  {
    hide Rd16, Rd32, EntryAt, Record, Tiled, Reaches, Find, InUse, Between;
    if Find(s, 0, name) != 0 {
      FindSound(s, 0, name);
    }
    EntriesStep(s, q);
    SamePrefix(s, s, 0, q);
    if RecIno(s, q) != 0 {
      UsedEntry(s, q);
      var x, y := Between(s, 0, q), EntryAt(s, q) + InUse(s, q + RecSize(s, q));
      assert (x + y)[|x|] == EntryAt(s, q)[0];
    }
  }

  /** The shortest record whose name no lookup finds: the name of `e`, added into a free record of 264 bytes. */
  lemma AddedNameIsHidden(s: seq<u8>, e: Entry)
    requires Tiled(s, 0) && 264 <= |s| && RecIno(s, 0) == 0 && RecSize(s, 0) == 264
    requires e.ino != 0 && 0 < |e.name| <= MAX_NAME && !Names(InUse(s, 0), e.name)
    ensures var s' := Splice(s, 0, RecordBytes(e.ino, 264, e.name, e.kind));
      AddedTo(s, s', e) && Find(s', 0, e.name) == 0
  {
    hide Rd16, Rd32, Splice, RecordBytes, EntryAt, Tiled, InUse, Find, AddedTo, Names;
    WalkStart(s, 0);
    UnlistedName(s, 0, e.name);
    ReuseRecord(s, 0, e);
    FindAfterReuse(s, 0, e);
  }

  /** Puts an entry into the first record of a block that can take it, and tells how long the entry's record is. */
  method AddToBlock(buf: array<u8>, bs: nat, name: seq<u8>, child: u32, kind: u8) returns (added: bool, room: nat)
    requires bs <= buf.Length && bs < 0x1_0000 && 0 < |name| <= MAX_NAME && child != 0
    modifies buf
    ensures !added ==> buf[..] == old(buf[..])
    ensures added && Tiled(old(buf[..bs]), 0) ==> AddedTo(old(buf[..bs]), buf[..bs], Entry(child, name, kind))
    ensures Tiled(old(buf[..bs]), 0) ==> (added <==> !NoRoom(old(buf[..bs]), 0, RecLen(|name|)))
    ensures added && Tiled(old(buf[..bs]), 0) ==> LiesIn(buf[..bs], Entry(child, name, kind), room)
    ensures added && Tiled(old(buf[..bs]), 0) && !Names(InUse(old(buf[..bs]), 0), name) ==>
      && RecLen(|name|) <= room && Tiled(buf[..bs], 0)
      && Find(buf[..bs], 0, name) == FoundAs(Entry(child, name, kind), room)
  {
    hide Rd16, Rd32, Splice, RecordBytes, EntryAt, RecLen, Reaches, Tiled, NoRoom, AddedTo, Names, Find, InUse, FoundAs, LiesAt;
    var block := buf[..bs];
    ghost var e := Entry(child, name, kind);
    var need := RecLen(|name|);
    var pos := 0;
    added, room := false, 8;
    WalkStart(block, need);
    while pos + 8 <= bs
      invariant pos <= bs && buf[..] == old(buf[..])
      invariant Tiled(block, 0) ==> Reaches(block, 0, pos) && Tiled(block, pos)
      invariant Tiled(block, 0) ==> (NoRoom(block, pos, need) <==> NoRoom(block, 0, need))
      decreases bs - pos
    {
      var ino, size, nlen := RecIno(block, pos), RecSize(block, pos), NameLen(block, pos);
      var actual := RecLen(nlen);
      if Tiled(block, 0) {
        WalkStep(block, pos);
        NoRoomStep(block, pos, need);
      }
      if size < 8 || pos + size > bs {
        break;
      }
      if ino == 0 && size >= need {
        SplicePrefix(buf[..], bs, pos, RecordBytes(child, size, name, kind));
        WriteRecord(buf, pos, child, size, name, kind);
        if Tiled(block, 0) {
          ReuseRecord(block, pos, e);
          assert LiesAt(buf[..bs], pos, e, size);
          if !Names(InUse(block, 0), name) {
            UnlistedName(block, pos, name);
            FindAfterReuse(block, pos, e);
          }
        }
        return true, size;
      }
      if ino != 0 && actual <= size && size - actual >= need {
        SplicePrefix(buf[..], bs, pos + 4, Le16(actual));
        Wr16IsSplice(buf[..], pos + 4, actual);
        StoreLe16(buf, pos + 4, actual);
        SplicePrefix(buf[..], bs, pos + actual, RecordBytes(child, size - actual, name, kind));
        WriteRecord(buf, pos + actual, child, size - actual, name, kind);
        if Tiled(block, 0) {
          SplitRecord(block, pos, e);
          assert LiesAt(buf[..bs], pos + actual, e, size - actual);
          if !Names(InUse(block, 0), name) {
            UnlistedName(block, pos, name);
            FindAfterSplit(block, pos, e);
          }
        }
        return true, size - actual;
      }
      pos := pos + size;
    }
    if Tiled(block, 0) {
      WalkEnd(block, pos);
      NoRoomEnd(block, need);
    }
  }
}

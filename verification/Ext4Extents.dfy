/** The inline extent leaf of an inode: lookup and append on its little-endian bytes. */
module Ext4Extents {
  import opened Bytes
  import opened Ext4State

  const EXTENT_MAGIC: nat := 0xF30A
  /** The inode's inline root: a 12-byte header and room for four 12-byte entries. */
  const ROOT_BYTES: nat := 60
  const INLINE_MAX: nat := 4

  type Root = r: seq<u8> | |r| == ROOT_BYTES witness Zeros(ROOT_BYTES)

  function Magic(r: Root): u16 { Rd16(r, 0) }
  function Entries(r: Root): u16 { Rd16(r, 2) }
  function MaxEntries(r: Root): u16 { Rd16(r, 4) }
  function Depth(r: Root): u16 { Rd16(r, 6) }

  function ExtBlock(r: Root, i: nat): u32 requires i < INLINE_MAX { Rd32(r, 12 + 12 * i) }
  function ExtLenRaw(r: Root, i: nat): u16 requires i < INLINE_MAX { Rd16(r, 12 + 12 * i + 4) }
  function ExtStartHi(r: Root, i: nat): u16 requires i < INLINE_MAX { Rd16(r, 12 + 12 * i + 6) }
  function ExtStartLo(r: Root, i: nat): u32 requires i < INLINE_MAX { Rd32(r, 12 + 12 * i + 8) }
  function ExtLen(r: Root, i: nat): nat requires i < INLINE_MAX { ExtLenRaw(r, i) % 0x8000 }

  datatype Mapping = Mapped(pblock: u32) | Hole | Unsupported

  predicate Covers(r: Root, i: nat, l: u32)
    requires i < INLINE_MAX
  {
    ExtLen(r, i) != 0 && ExtBlock(r, i) <= l < (ExtBlock(r, i) + ExtLen(r, i)) % 0x1_0000_0000
  }

  /** Where logical block `l` lies according to entry `i` and those after it: the first entry that covers it decides. */
  function MapFrom(r: Root, i: nat, l: u32): Mapping
    requires i <= Entries(r) <= INLINE_MAX
    decreases Entries(r) - i
  {
    if i == Entries(r) then Hole
    else if !Covers(r, i, l) then MapFrom(r, i + 1, l)
    else if ExtStartHi(r, i) != 0 then Unsupported
    else Mapped((ExtStartLo(r, i) + (l - ExtBlock(r, i))) % 0x1_0000_0000)
  }

  /** The function from logical to physical blocks that a leaf stands for. */
  function Map(r: Root, l: u32): Mapping
    requires Entries(r) <= INLINE_MAX
  {
    MapFrom(r, 0, l)
  }

  function MapCode(m: Mapping): int
  {
    match m
    case Mapped(_) => 0
    case Hole => FS_ERR_NOENT
    case Unsupported => FS_ERR_NOSYS
  }

  /** Looks a logical block up in the inline leaf. */
  method ExtentMap(buf: array<u8>, root: nat, l: u32) returns (rc: int, pblock: u32)
    requires root + ROOT_BYTES <= buf.Length
    requires Entries(buf[root..root + ROOT_BYTES]) <= INLINE_MAX
    requires Depth(buf[root..root + ROOT_BYTES]) == 0
    ensures var r := buf[root..root + ROOT_BYTES];
      if Magic(r) != EXTENT_MAGIC then rc == FS_ERR_IO
      else rc == MapCode(Map(r, l)) && (rc == 0 ==> Map(r, l) == Mapped(pblock))
  {
    pblock := 0;
    var r := buf[root..root + ROOT_BYTES];
    if Magic(r) != EXTENT_MAGIC {
      return FS_ERR_IO, 0;
    }
    var i := 0;
    while i < Entries(r)
      invariant 0 <= i <= Entries(r)
      invariant Map(r, l) == MapFrom(r, i, l)
    {
      if ExtLen(r, i) != 0 && l >= ExtBlock(r, i) && l < (ExtBlock(r, i) + ExtLen(r, i)) % 0x1_0000_0000 {
        if ExtStartHi(r, i) != 0 {
          return FS_ERR_NOSYS, 0;
        }
        return 0, (ExtStartLo(r, i) + (l - ExtBlock(r, i))) % 0x1_0000_0000;
      }
      i := i + 1;
    }
    rc := FS_ERR_NOENT;
  }

  // ---------- well-formed leaves ----------

  predicate ValidEntry(r: Root, i: nat, limit: nat)
    requires i < INLINE_MAX
  {
    && 0 < ExtLenRaw(r, i) < 0x8000
    && ExtStartHi(r, i) == 0
    && ExtStartLo(r, i) + ExtLenRaw(r, i) <= limit
    && ExtBlock(r, i) + ExtLenRaw(r, i) < 0x1_0000_0000
  }

  /** An inline leaf of contiguous, initialised extents on a disk of `limit` blocks. */
  ghost predicate ValidLeaf(r: Root, limit: nat)
  {
    && Magic(r) == EXTENT_MAGIC && Depth(r) == 0
    && Entries(r) <= MaxEntries(r) <= INLINE_MAX && 0 < MaxEntries(r)
    && limit < 0x1_0000_0000
    && (forall i :: 0 <= i < Entries(r) ==> ValidEntry(r, i, limit))
    && (forall i :: 0 < i < Entries(r) ==> ExtBlock(r, i) == ExtBlock(r, i - 1) + ExtLenRaw(r, i - 1))
  }

  function First(r: Root): nat
  {
    if Entries(r) == 0 then 0 else ExtBlock(r, 0)
  }

  /** One past the last logical block the leaf maps. */
  function End(r: Root): nat
    requires Entries(r) <= INLINE_MAX
  {
    if Entries(r) == 0 then 0 else ExtBlock(r, Entries(r) - 1) + ExtLenRaw(r, Entries(r) - 1)
  }

  /** Entry `i` of a well-formed leaf starts inside the leaf's span. */
  lemma {:induction false} EntryBounds(r: Root, limit: nat, i: nat)
    requires ValidLeaf(r, limit) && i < Entries(r)
    ensures First(r) <= ExtBlock(r, i) && ExtBlock(r, i) + ExtLenRaw(r, i) <= End(r)
    ensures i + 1 < Entries(r) ==> ExtBlock(r, i) + ExtLenRaw(r, i) <= ExtBlock(r, i + 1)
    decreases Entries(r) - i
  {
    EntryFloor(r, limit, i);
    if i + 1 < Entries(r) {
      EntryBounds(r, limit, i + 1);
    }
  }

  lemma {:induction false} EntryFloor(r: Root, limit: nat, i: nat)
    requires ValidLeaf(r, limit) && i < Entries(r)
    ensures First(r) <= ExtBlock(r, i)
  {
    if i > 0 {
      EntryFloor(r, limit, i - 1);
    }
  }

  lemma CoversValid(r: Root, limit: nat, i: nat, l: u32)
    requires i < INLINE_MAX && ValidEntry(r, i, limit) && limit < 0x1_0000_0000
    ensures ExtLen(r, i) == ExtLenRaw(r, i)
    ensures Covers(r, i, l) <==> ExtBlock(r, i) <= l < ExtBlock(r, i) + ExtLenRaw(r, i)
    ensures Covers(r, i, l) ==> ExtStartLo(r, i) + (l - ExtBlock(r, i)) < limit
  {
    hide Rd16, Rd32;
  }

  /** A well-formed leaf maps exactly the logical blocks of its span, each to a block of the disk. */
  lemma {:induction false} MapSpan(r: Root, limit: nat, i: nat, l: u32)
    requires ValidLeaf(r, limit) && i <= Entries(r)
    ensures MapFrom(r, i, l).Mapped? <==> i < Entries(r) && ExtBlock(r, i) <= l < End(r)
    ensures !MapFrom(r, i, l).Mapped? ==> MapFrom(r, i, l) == Hole
    ensures MapFrom(r, i, l).Mapped? ==> MapFrom(r, i, l).pblock < limit
    decreases Entries(r) - i
  {
    hide Rd16, Rd32, Covers;
    if i < Entries(r) {
      EntryBounds(r, limit, i);
      CoversValid(r, limit, i, l);
      MapSpan(r, limit, i + 1, l);
      if i + 1 < Entries(r) {
        assert ExtBlock(r, i + 1) == ExtBlock(r, i) + ExtLenRaw(r, i);
      }
    }
  }

  // ---------- append ----------

  /** The entry bytes a successful append leaves behind. */
  predicate CanMerge(r: Root, p: u32)
    requires 0 < Entries(r) <= INLINE_MAX
  {
    var i := Entries(r) - 1;
    p == (ExtStartLo(r, i) + ExtLen(r, i)) % 0x1_0000_0000 && ExtLen(r, i) < 0x7FFF
  }

  function NewEntry(r: Root, i: nat, l: u32, p: u32): Root
    requires i < INLINE_MAX
  {
    var b := 12 + 12 * i;
    Wr16(Wr32(Wr16(Wr16(Wr32(r, b, l), b + 4, 1), b + 6, 0), b + 8, p), 2, i + 1)
  }

  function Appended(r: Root, l: u32, p: u32): Root
    requires Entries(r) <= INLINE_MAX && (Entries(r) == INLINE_MAX ==> CanMerge(r, p))
  {
    if Entries(r) > 0 && CanMerge(r, p) then
      Wr16(r, 12 + 12 * (Entries(r) - 1) + 4, ExtLen(r, Entries(r) - 1) + 1)
    else NewEntry(r, Entries(r), l, p)
  }

  /** Appends one block to the leaf; a failed append changes no byte. */
  method ExtentAppend(buf: array<u8>, root: nat, l: u32, p: u32, blocksCount: nat) returns (rc: int)
    requires root + ROOT_BYTES <= buf.Length
    requires MaxEntries(buf[root..root + ROOT_BYTES]) <= INLINE_MAX
    modifies buf
    ensures rc <= 0 && (rc != 0 ==> buf[..] == old(buf[..]))
    ensures var r: Root := old(buf[root..root + ROOT_BYTES]);
      ValidLeaf(r, blocksCount) ==>
        (rc == 0 <==> p < blocksCount && (Entries(r) > 0 ==> l == End(r) && (CanMerge(r, p) || Entries(r) < MaxEntries(r))))
    ensures var r: Root := old(buf[root..root + ROOT_BYTES]);
      ValidLeaf(r, blocksCount) && p < blocksCount && (Entries(r) > 0 ==> l == End(r)) && rc != 0 ==>
        rc == FS_ERR_NOSPC && Entries(r) == MaxEntries(r) && !CanMerge(r, p)
    ensures var r: Root := old(buf[root..root + ROOT_BYTES]);
      rc == 0 ==> p < blocksCount && Entries(r) <= MaxEntries(r) && (Entries(r) == INLINE_MAX ==> CanMerge(r, p))
    ensures var r: Root := old(buf[root..root + ROOT_BYTES]);
      rc == 0 ==> buf[..] == Splice(old(buf[..]), root, Appended(r, l, p))
  {
    hide Rd16, Rd32, Wr16, NewEntry, Splice;
    var r: Root := buf[root..root + ROOT_BYTES];
    if Entries(r) > 0 && ValidLeaf(r, blocksCount) {
      assert ValidEntry(r, Entries(r) - 1, blocksCount);
    }
    if p >= blocksCount {
      return FS_ERR_INVAL;
    }
    if Magic(r) != EXTENT_MAGIC {
      return FS_ERR_IO;
    }
    if Depth(r) != 0 {
      return FS_ERR_NOSYS;
    }
    var n, max := Entries(r), MaxEntries(r);
    if n > max || max == 0 {
      return FS_ERR_IO;
    }
    if n == 0 {
      WriteEntry(buf, root, 0, l, p);
      return 0;
    }
    var last := n - 1;
    if ExtLenRaw(r, last) >= 0x8000 || ExtLen(r, last) == 0 || ExtStartHi(r, last) != 0 {
      return FS_ERR_NOSYS;
    }
    if l != (ExtBlock(r, last) + ExtLen(r, last)) % 0x1_0000_0000 {
      return FS_ERR_NOSYS;
    }
    if p == (ExtStartLo(r, last) + ExtLen(r, last)) % 0x1_0000_0000 && ExtLen(r, last) < 0x7FFF {
      StoreRoot16(buf, root, 12 + 12 * last + 4, ExtLen(r, last) + 1);
      return 0;
    }
    if n >= max {
      return FS_ERR_NOSPC;
    }
    WriteEntry(buf, root, n, l, p);
    rc := 0;
  }

  method StoreRoot16(buf: array<u8>, root: nat, b: nat, v: u16)
    requires root + ROOT_BYTES <= buf.Length && b + 2 <= ROOT_BYTES
    modifies buf
    ensures buf[..] == Splice(old(buf[..]), root, Wr16(old(buf[root..root + ROOT_BYTES]), b, v))
  {
    SpliceOfSplice(buf[..], root, ROOT_BYTES, b, [v % 0x100, v / 0x100]);
    StoreLe16(buf, root + b, v);
  }

  method StoreRoot32(buf: array<u8>, root: nat, b: nat, v: u32)
    requires root + ROOT_BYTES <= buf.Length && b + 4 <= ROOT_BYTES
    modifies buf
    ensures buf[..] == Splice(old(buf[..]), root, Wr32(old(buf[root..root + ROOT_BYTES]), b, v))
  {
    SpliceOfSplice(buf[..], root, ROOT_BYTES, b, Le32(v));
    StoreLe32(buf, root + b, v);
  }

  /** Stores a one-block extent as entry `i` and makes it the last one. */
  method WriteEntry(buf: array<u8>, root: nat, i: nat, l: u32, p: u32)
    requires root + ROOT_BYTES <= buf.Length && i < INLINE_MAX
    modifies buf
    ensures buf[..] == Splice(old(buf[..]), root, NewEntry(old(buf[root..root + ROOT_BYTES]), i, l, p))
  {
    hide Wr16, Wr32, Splice, Rd16, Rd32;
    var b := 12 + 12 * i;
    ghost var s, r := buf[..], buf[root..root + ROOT_BYTES];
    StoreRoot32(buf, root, b, l);
    ghost var r1 := Wr32(r, b, l);
    SpliceTwice(s, root, r1, Wr16(r1, b + 4, 1));
    StoreRoot16(buf, root, b + 4, 1);
    ghost var r2 := Wr16(r1, b + 4, 1);
    SpliceTwice(s, root, r2, Wr16(r2, b + 6, 0));
    StoreRoot16(buf, root, b + 6, 0);
    ghost var r3 := Wr16(r2, b + 6, 0);
    SpliceTwice(s, root, r3, Wr32(r3, b + 8, p));
    StoreRoot32(buf, root, b + 8, p);
    ghost var r4 := Wr32(r3, b + 8, p);
    SpliceTwice(s, root, r4, Wr16(r4, 2, i + 1));
    StoreRoot16(buf, root, 2, i + 1);
  }

  // ---------- what an append means ----------

  /** The condition under which `ExtentAppend` succeeds on a well-formed leaf. */
  ghost predicate Appendable(r: Root, limit: nat, l: u32, p: u32)
  {
    && ValidLeaf(r, limit) && p < limit
    && (Entries(r) > 0 ==> l == End(r) && (CanMerge(r, p) || Entries(r) < MaxEntries(r)))
  }

  lemma ReadsAfterWrite16(r: Root, b: nat, v: u16, q: nat)
    requires b + 2 <= ROOT_BYTES
    ensures q + 2 <= ROOT_BYTES && (q + 2 <= b || b + 2 <= q) ==> Rd16(Wr16(r, b, v), q) == Rd16(r, q)
    ensures q + 4 <= ROOT_BYTES && (q + 4 <= b || b + 2 <= q) ==> Rd32(Wr16(r, b, v), q) == Rd32(r, q)
  {
    hide Rd16, Rd32;
    if q + 2 <= ROOT_BYTES && (q + 2 <= b || b + 2 <= q) {
      SameRead(r, Wr16(r, b, v), q, 2);
    }
    if q + 4 <= ROOT_BYTES && (q + 4 <= b || b + 2 <= q) {
      SameRead(r, Wr16(r, b, v), q, 4);
    }
  }

  lemma ReadsAfterWrite32(r: Root, b: nat, v: u32, q: nat)
    requires b + 4 <= ROOT_BYTES
    ensures q + 2 <= ROOT_BYTES && (q + 2 <= b || b + 4 <= q) ==> Rd16(Wr32(r, b, v), q) == Rd16(r, q)
    ensures q + 4 <= ROOT_BYTES && (q + 4 <= b || b + 4 <= q) ==> Rd32(Wr32(r, b, v), q) == Rd32(r, q)
  {
    hide Rd16, Rd32;
    if q + 2 <= ROOT_BYTES && (q + 2 <= b || b + 4 <= q) {
      SameRead(r, Wr32(r, b, v), q, 2);
    }
    if q + 4 <= ROOT_BYTES && (q + 4 <= b || b + 4 <= q) {
      SameRead(r, Wr32(r, b, v), q, 4);
    }
  }

  lemma SameRead(r: Root, r': Root, q: nat, n: nat)
    requires q + n <= ROOT_BYTES && forall i :: q <= i < q + n ==> r[i] == r'[i]
    ensures n >= 2 ==> Rd16(r, q) == Rd16(r', q)
    ensures n >= 4 ==> Rd32(r, q) == Rd32(r', q)
  {
  }

  /** The header fields and entry `i` are the same in both leaves. */
  ghost predicate SameEntry(r: Root, r': Root, i: nat)
    requires i < INLINE_MAX
  {
    && ExtBlock(r, i) == ExtBlock(r', i) && ExtLenRaw(r, i) == ExtLenRaw(r', i)
    && ExtStartHi(r, i) == ExtStartHi(r', i) && ExtStartLo(r, i) == ExtStartLo(r', i)
  }

  ghost predicate SameHeader(r: Root, r': Root)
  {
    Magic(r) == Magic(r') && MaxEntries(r) == MaxEntries(r') && Depth(r) == Depth(r')
  }

  lemma MergedFields(r: Root, v: u16, last: nat)
    requires last < INLINE_MAX
    ensures var r' := Wr16(r, 12 + 12 * last + 4, v);
      && SameHeader(r, r') && Entries(r') == Entries(r)
      && ExtLenRaw(r', last) == v && ExtBlock(r', last) == ExtBlock(r, last)
      && ExtStartHi(r', last) == ExtStartHi(r, last) && ExtStartLo(r', last) == ExtStartLo(r, last)
      && forall i | 0 <= i < INLINE_MAX && i != last :: SameEntry(r, r', i)
  {
    hide Wr16, Rd16, Rd32;
    var b := 12 + 12 * last + 4;
    forall q: nat
      ensures q + 2 <= ROOT_BYTES && (q + 2 <= b || b + 2 <= q) ==> Rd16(Wr16(r, b, v), q) == Rd16(r, q)
      ensures q + 4 <= ROOT_BYTES && (q + 4 <= b || b + 2 <= q) ==> Rd32(Wr16(r, b, v), q) == Rd32(r, q)
    {
      ReadsAfterWrite16(r, b, v, q);
    }
  }

  lemma NewEntryReads(r: Root, i: nat, l: u32, p: u32, q: nat)
    requires i < INLINE_MAX
    ensures var b := 12 + 12 * i;
      && (q + 2 <= ROOT_BYTES && (q + 2 <= b || b + 12 <= q) && (q + 2 <= 2 || 4 <= q) ==> Rd16(NewEntry(r, i, l, p), q) == Rd16(r, q))
      && (q + 4 <= ROOT_BYTES && (q + 4 <= b || b + 12 <= q) && 4 <= q ==> Rd32(NewEntry(r, i, l, p), q) == Rd32(r, q))
  {
    hide Rd16, Rd32, Wr16, Wr32, Splice;
    var b := 12 + 12 * i;
    ReadsAfterWrite32(r, b, l, q);
    var r1 := Wr32(r, b, l);
    ReadsAfterWrite16(r1, b + 4, 1, q);
    var r2 := Wr16(r1, b + 4, 1);
    ReadsAfterWrite16(r2, b + 6, 0, q);
    var r3 := Wr16(r2, b + 6, 0);
    ReadsAfterWrite32(r3, b + 8, p, q);
    var r4 := Wr32(r3, b + 8, p);
    ReadsAfterWrite16(r4, 2, i + 1, q);
  }

  lemma NewEntryStores(r: Root, i: nat, l: u32, p: u32)
    requires i < INLINE_MAX
    ensures var r' := NewEntry(r, i, l, p);
      ExtBlock(r', i) == l && ExtLenRaw(r', i) == 1 && ExtStartHi(r', i) == 0 && ExtStartLo(r', i) == p && Entries(r') == i + 1
  {
    hide Rd16, Rd32, Wr16, Wr32, Splice;
    var b := 12 + 12 * i;
    var r1 := Wr32(r, b, l);
    var r2 := Wr16(r1, b + 4, 1);
    ReadsAfterWrite16(r1, b + 4, 1, b);
    var r3 := Wr16(r2, b + 6, 0);
    ReadsAfterWrite16(r2, b + 6, 0, b);
    ReadsAfterWrite16(r2, b + 6, 0, b + 4);
    var r4 := Wr32(r3, b + 8, p);
    ReadsAfterWrite32(r3, b + 8, p, b);
    ReadsAfterWrite32(r3, b + 8, p, b + 4);
    ReadsAfterWrite32(r3, b + 8, p, b + 6);
    ReadsAfterWrite16(r4, 2, i + 1, b);
    ReadsAfterWrite16(r4, 2, i + 1, b + 4);
    ReadsAfterWrite16(r4, 2, i + 1, b + 6);
    ReadsAfterWrite16(r4, 2, i + 1, b + 8);
  }

  lemma NewEntryFields(r: Root, n: nat, l: u32, p: u32)
    requires n < INLINE_MAX
    ensures var r' := NewEntry(r, n, l, p);
      && SameHeader(r, r')
      && forall i | 0 <= i < n :: SameEntry(r, r', i)
  {
    hide NewEntry, Rd16, Rd32;
    forall q: nat
      ensures var b := 12 + 12 * n;
        && (q + 2 <= ROOT_BYTES && (q + 2 <= b || b + 12 <= q) && (q + 2 <= 2 || 4 <= q) ==> Rd16(NewEntry(r, n, l, p), q) == Rd16(r, q))
        && (q + 4 <= ROOT_BYTES && (q + 4 <= b || b + 12 <= q) && 4 <= q ==> Rd32(NewEntry(r, n, l, p), q) == Rd32(r, q))
    {
      NewEntryReads(r, n, l, p, q);
    }
  }

  /** `r'` is `r` with its last extent one block longer. */
  ghost predicate Merged(r: Root, r': Root)
  {
    var n := Entries(r);
    && 0 < n <= INLINE_MAX && SameHeader(r, r') && Entries(r') == n
    && ExtLenRaw(r, n - 1) < 0x7FFF && ExtLenRaw(r', n - 1) == ExtLenRaw(r, n - 1) + 1
    && ExtBlock(r', n - 1) == ExtBlock(r, n - 1) && ExtStartHi(r', n - 1) == ExtStartHi(r, n - 1)
    && ExtStartLo(r', n - 1) == ExtStartLo(r, n - 1)
    && forall i | 0 <= i < n - 1 :: SameEntry(r, r', i)
  }

  /** `r'` is `r` with one more extent, of the single block `p` at `l`. */
  ghost predicate Extended(r: Root, r': Root, l: u32, p: u32)
  {
    var n := Entries(r);
    && n < INLINE_MAX && n < MaxEntries(r) && SameHeader(r, r') && Entries(r') == n + 1
    && ExtBlock(r', n) == l && ExtLenRaw(r', n) == 1 && ExtStartHi(r', n) == 0 && ExtStartLo(r', n) == p
    && forall i | 0 <= i < n :: SameEntry(r, r', i)
  }

  /** A successful append either lengthens the last extent, onto which `p` joins, or adds an extent. */
  lemma AppendShape(r: Root, limit: nat, l: u32, p: u32)
    requires Appendable(r, limit, l, p)
    ensures var r' := Appended(r, l, p);
      if Entries(r) > 0 && CanMerge(r, p) then Merged(r, r') && p == ExtStartLo(r, Entries(r) - 1) + ExtLenRaw(r, Entries(r) - 1)
      else Extended(r, r', l, p)
  {
    hide Rd16, Rd32, Wr16, NewEntry;
    var n := Entries(r);
    if n > 0 && CanMerge(r, p) {
      CoversValid(r, limit, n - 1, l);
      MergedFields(r, ExtLen(r, n - 1) + 1, n - 1);
    } else {
      NewEntryFields(r, n, l, p);
      NewEntryStores(r, n, l, p);
    }
  }

  lemma MergedKeepsLeaf(r: Root, r': Root, limit: nat)
    requires ValidLeaf(r, limit) && Merged(r, r') && End(r) < 0xFFFF_FFFF
    requires ExtStartLo(r, Entries(r) - 1) + ExtLenRaw(r, Entries(r) - 1) < limit
    ensures ValidLeaf(r', limit) && End(r') == End(r) + 1 && First(r') == First(r)
  {
    hide Rd16, Rd32;
    var n := Entries(r);
    forall i | 0 <= i < n
      ensures ValidEntry(r', i, limit)
    {
      assert ValidEntry(r, i, limit);
      if i < n - 1 { assert SameEntry(r, r', i); }
    }
    forall i | 0 < i < n
      ensures ExtBlock(r', i) == ExtBlock(r', i - 1) + ExtLenRaw(r', i - 1)
    {
      assert SameEntry(r, r', i - 1);
      if i < n - 1 { assert SameEntry(r, r', i); }
    }
    if n > 1 { assert SameEntry(r, r', 0); }
  }

  lemma ExtendedKeepsLeaf(r: Root, r': Root, limit: nat, l: u32, p: u32)
    requires ValidLeaf(r, limit) && Extended(r, r', l, p) && p < limit && l < 0xFFFF_FFFF
    requires Entries(r) > 0 ==> l == End(r)
    ensures ValidLeaf(r', limit) && End(r') == l + 1 && First(r') == if Entries(r) == 0 then l else First(r)
  {
    hide Rd16, Rd32;
    var n := Entries(r);
    if n > 0 { assert SameEntry(r, r', 0); }
    forall i | 0 <= i < n + 1
      ensures ValidEntry(r', i, limit)
    {
      if i < n {
        assert ValidEntry(r, i, limit);
        assert SameEntry(r, r', i);
      }
    }
    forall i | 0 < i < n + 1
      ensures ExtBlock(r', i) == ExtBlock(r', i - 1) + ExtLenRaw(r', i - 1)
    {
      assert SameEntry(r, r', i - 1);
      if i < n { assert SameEntry(r, r', i); }
    }
  }

  /** Appending keeps the leaf well-formed and moves its end up by one. */
  lemma AppendKeepsLeaf(r: Root, limit: nat, l: u32, p: u32)
    requires Appendable(r, limit, l, p) && l < 0xFFFF_FFFF
    ensures var r' := Appended(r, l, p);
      && ValidLeaf(r', limit) && End(r') == l + 1
      && First(r') == if Entries(r) == 0 then l else First(r)
  {
    hide Rd16, Rd32, Appended;
    AppendShape(r, limit, l, p);
    if Entries(r) > 0 && CanMerge(r, p) {
      MergedKeepsLeaf(r, Appended(r, l, p), limit);
    } else {
      ExtendedKeepsLeaf(r, Appended(r, l, p), limit, l, p);
    }
  }

  lemma {:induction false} MergedMapFrom(r: Root, r': Root, limit: nat, p: u32, i: nat, x: u32)
    requires ValidLeaf(r, limit) && Merged(r, r') && ValidLeaf(r', limit) && i < Entries(r)
    requires p == ExtStartLo(r, Entries(r) - 1) + ExtLenRaw(r, Entries(r) - 1)
    ensures MapFrom(r', i, x) == if x == End(r) then Mapped(p) else MapFrom(r, i, x)
    decreases Entries(r) - i
  {
    hide Rd16, Rd32, Covers;
    CoversValid(r, limit, i, x);
    CoversValid(r', limit, i, x);
    EntryBounds(r, limit, i);
    if i < Entries(r) - 1 {
      assert SameEntry(r, r', i);
      MergedMapFrom(r, r', limit, p, i + 1, x);
    } else {
      assert MapFrom(r, i + 1, x) == MapFrom(r', i + 1, x) == Hole;
    }
  }

  lemma {:induction false} ExtendedMapFrom(r: Root, r': Root, limit: nat, l: u32, p: u32, i: nat, x: u32)
    requires ValidLeaf(r, limit) && Extended(r, r', l, p) && ValidLeaf(r', limit) && i <= Entries(r)
    requires Entries(r) > 0 ==> l == End(r)
    ensures MapFrom(r', i, x) == if x == l then Mapped(p) else MapFrom(r, i, x)
    decreases Entries(r) - i
  {
    hide Rd16, Rd32, Covers;
    CoversValid(r', limit, i, x);
    if i < Entries(r) {
      CoversValid(r, limit, i, x);
      EntryBounds(r, limit, i);
      assert SameEntry(r, r', i);
      ExtendedMapFrom(r, r', limit, l, p, i + 1, x);
    }
  }

  /** A successful append turns the leaf's map m into m[l := p], for every logical block. */
  lemma AppendRefinesMap(r: Root, limit: nat, l: u32, p: u32, x: u32)
    requires Appendable(r, limit, l, p) && l < 0xFFFF_FFFF
    ensures var r' := Appended(r, l, p);
      && ValidLeaf(r', limit)
      && Map(r', x) == if x == l then Mapped(p) else Map(r, x)
  {
    hide Rd16, Rd32, Appended;
    AppendShape(r, limit, l, p);
    AppendKeepsLeaf(r, limit, l, p);
    if Entries(r) > 0 && CanMerge(r, p) {
      MergedMapFrom(r, Appended(r, l, p), limit, p, 0, x);
    } else {
      ExtendedMapFrom(r, Appended(r, l, p), limit, l, p, 0, x);
    }
  }

  /** An append at the very last logical block succeeds, but the entry's end wraps to zero and the block is not mapped. */
  lemma AppendAtLastBlockIsLost(r: Root, limit: nat, p: u32)
    requires Appendable(r, limit, 0xFFFF_FFFF, p)
    ensures Entries(Appended(r, 0xFFFF_FFFF, p)) <= INLINE_MAX
    ensures Map(Appended(r, 0xFFFF_FFFF, p), 0xFFFF_FFFF) == Hole
  {
    hide Rd16, Rd32, Appended;
    var n, l := Entries(r), 0xFFFF_FFFF;
    var r' := Appended(r, l, p);
    AppendShape(r, limit, l, p);
    forall i | 0 <= i < Entries(r')
      ensures !Covers(r', i, l)
    {
      if i < n {
        EntryBounds(r, limit, i);
        CoversValid(r, limit, i, l);
        if i < n - 1 || !CanMerge(r, p) { assert SameEntry(r, r', i); }
      }
    }
    NothingCovers(r', 0, l);
  }

  lemma {:induction false} NothingCovers(r: Root, i: nat, l: u32)
    requires i <= Entries(r) <= INLINE_MAX && forall j :: i <= j < Entries(r) ==> !Covers(r, j, l)
    ensures MapFrom(r, i, l) == Hole
    decreases Entries(r) - i
  {
    hide Rd16, Rd32, Covers;
    if i < Entries(r) {
      NothingCovers(r, i + 1, l);
    }
  }

  /** Whatever the leaf, a successful append maps its logical block if and only if that block's end fits 32 bits. */
  lemma AppendMapsIff(r: Root, limit: nat, l: u32, p: u32)
    requires Appendable(r, limit, l, p)
    ensures Entries(Appended(r, l, p)) <= INLINE_MAX
    ensures Map(Appended(r, l, p), l) == Mapped(p) <==> l < 0xFFFF_FFFF
  {
    if l < 0xFFFF_FFFF {
      AppendRefinesMap(r, limit, l, p, l);
    } else {
      AppendAtLastBlockIsLost(r, limit, p);
    }
  }
}

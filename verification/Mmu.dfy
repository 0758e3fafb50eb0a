/** Identity paging: page tables that map every page to itself, with directory flags derived from the pages below. */
module Mmu {
  const PAGE: nat := 4096
  const ENTRIES: nat := 1024
  const KERNEL_MEM: nat := 0x0400_0000
  const FB_SIZE: nat := 640 * 480 * 4
  const MAP_LIMIT: nat := KERNEL_MEM + FB_SIZE
  const SPAN: nat := 0x0040_0000
  const TABLES: nat := (MAP_LIMIT + SPAN - 1) / SPAN
  /** Pages below the limit. */
  const PAGES: nat := MAP_LIMIT / PAGE

  /** The write, user and execute bits of an entry. */
  datatype Flags = Flags(w: bool, u: bool, x: bool)

  const NONE := Flags(false, false, false)

  function Union(a: Flags, b: Flags): Flags { Flags(a.w || b.w, a.u || b.u, a.x || b.x) }
  function Both(a: Flags, b: Flags): Flags { Flags(a.w && b.w, a.u && b.u, a.x && b.x) }

  function Bits(f: Flags): nat { (if f.w then 2 else 0) + (if f.u then 4 else 0) + (if f.x then 8 else 0) }

  /** A present entry for the page or table at `pa`. */
  function Entry(pa: nat, f: Flags): nat { pa + 1 + Bits(f) }

  predicate Present(e: nat) { e % 2 == 1 }
  function FlagsOf(e: nat): Flags { Flags(e / 2 % 2 == 1, e / 4 % 2 == 1, e / 8 % 2 == 1) }
  function Address(e: nat): nat { e / 4096 * 4096 }

  lemma EntryDigits(n: nat, k: nat)
    requires k < 8
    ensures var e := n * 4096 + 1 + 2 * k;
      e % 2 == 1 && e / 2 == 2048 * n + k && e / 4 == 1024 * n + k / 2 && e / 8 == 512 * n + k / 4 && e / 4096 == n
  {
  }

  lemma LastBit(m: nat, j: nat)
    ensures (2 * m + j) % 2 == j % 2
  {
  }

  lemma BitsDigits(f: Flags)
    ensures var k := Bits(f) / 2;
      k < 8 && Bits(f) == 2 * k && (k % 2 == 1 <==> f.w) && (k / 2 % 2 == 1 <==> f.u) && (k / 4 % 2 == 1 <==> f.x)
  {
  }

  lemma EntryParts(n: nat, f: Flags)
    ensures var e := Entry(n * 4096, f);
      Present(e) && FlagsOf(e) == f && Address(e) == n * 4096
  {
    hide Bits;
    var k := Bits(f) / 2;
    BitsDigits(f);
    EntryDigits(n, k);
    LastBit(1024 * n, k);
    LastBit(512 * n, k / 2);
    LastBit(256 * n, k / 4);
  }

  function AlignDown(v: nat): nat { v / 4096 * 4096 }
  function AlignUp(v: nat): nat { (v + 4095) / 4096 * 4096 }

  /** Requested protection: MMU_PROT bits write 2, execute 4, user 8. */
  function ProtFlags(prot: nat): Flags { Flags(prot / 2 % 2 == 1, prot / 8 % 2 == 1, prot / 4 % 2 == 1) }

  /** Each protection asked for is granted by itself: read 1, write 2, execute 4, user 8. */
  lemma ProtMeans(r: bool, w: bool, x: bool, u: bool)
    ensures ProtFlags((if r then 1 else 0) + (if w then 2 else 0) + (if x then 4 else 0) + if u then 8 else 0) == Flags(w, u, x)
  {
  }

  /** The word the processor reads: present 1, write 2, user 4, execute 8, and the page's address above. */
  lemma WordMeans(n: nat, w: bool, u: bool, x: bool)
    ensures var e := n * 4096 + 1 + (if w then 2 else 0) + (if u then 4 else 0) + if x then 8 else 0;
      Present(e) && FlagsOf(e) == Flags(w, u, x) && Address(e) == n * 4096 && e == Entry(n * 4096, Flags(w, u, x))
  {
    EntryParts(n, Flags(w, u, x));
  }

  /** Page p holds a byte of lo to hi - 1. */
  predicate Touches(p: nat, lo: nat, hi: nat) { p * 4096 < hi && lo < p * 4096 + 4096 }

  lemma AlignedTouches(p: nat, lo: nat, hi: nat)
    requires lo < hi
    ensures AlignDown(lo) <= p * 4096 < AlignUp(hi) <==> Touches(p, lo, hi)
  {
  }

  /** The union of the flags of the present entries among the first n. */
  function UnionOf(row: seq<nat>, n: nat): Flags
    requires n <= |row|
  {
    if n == 0 then NONE else if Present(row[n - 1]) then Union(UnionOf(row, n - 1), FlagsOf(row[n - 1])) else UnionOf(row, n - 1)
  }

  predicate Leq(a: Flags, b: Flags) { (a.w ==> b.w) && (a.u ==> b.u) && (a.x ==> b.x) }

  /** The union is the least set of flags that covers every present entry. */
  lemma {:induction false} UnionCovers(row: seq<nat>, n: nat, i: nat)
    requires i < n <= |row| && Present(row[i])
    ensures Leq(FlagsOf(row[i]), UnionOf(row, n))
  {
    hide FlagsOf;
    if i < n - 1 {
      UnionCovers(row, n - 1, i);
    }
  }

  lemma {:induction false} UnionIsLeast(row: seq<nat>, n: nat, b: Flags)
    requires n <= |row| && forall i: nat | i < n && Present(row[i]) :: Leq(FlagsOf(row[i]), b)
    ensures Leq(UnionOf(row, n), b)
  {
    hide FlagsOf;
    if n > 0 {
      UnionIsLeast(row, n - 1, b);
    }
  }

  // ---------- the tables as values ----------

  datatype Tables = Tables(l1: seq<nat>, l2: seq<seq<nat>>)

  predicate Shape(t: Tables)
  {
    |t.l1| == ENTRIES && |t.l2| == TABLES && forall pde :: 0 <= pde < TABLES ==> |t.l2[pde]| == ENTRIES
  }

  /** An entry is absent or maps its own page, and pages from the limit on are absent. */
  predicate PageOk(e: nat, page: nat)
  {
    Present(e) ==> Address(e) == page * 4096 && page < PAGES
  }

  /** A directory entry points to its table with the union of the flags of the present pages. */
  ghost predicate TableOk(t: Tables, table: nat, pde: nat)
    requires Shape(t) && pde < TABLES
  {
    && t.l1[pde] == Entry((table + pde) * 4096, UnionOf(t.l2[pde], ENTRIES))
    && forall i: nat | i < ENTRIES :: PageOk(t.l2[pde][i], pde * 1024 + i)
  }

  /** Tables that map identically, with their second level from physical page `table` on. */
  ghost predicate Identity(t: Tables, table: nat)
  {
    && Shape(t)
    && (forall pde: nat | pde < TABLES :: TableOk(t, table, pde))
    && (forall pde: nat | TABLES <= pde < ENTRIES :: t.l1[pde] == 0)
  }

  function Pte(t: Tables, p: nat): nat
    requires Shape(t) && p < PAGES
  {
    t.l2[p / 1024][p % 1024]
  }

  predicate Mapped(t: Tables, p: nat)
    requires Shape(t) && p < PAGES
  {
    Present(t.l1[p / 1024]) && Present(Pte(t, p))
  }

  /** The flags with which the processor reaches page p: those that both levels grant. */
  function Effective(t: Tables, p: nat): Flags
    requires Shape(t) && p < PAGES
  {
    Both(FlagsOf(t.l1[p / 1024]), FlagsOf(Pte(t, p)))
  }

  /** A mapped page is reached at its own address, with exactly the flags of its own entry. */
  lemma IdentityMeans(t: Tables, table: nat, p: nat)
    requires Identity(t, table) && p < PAGES
    ensures Mapped(t, p) <==> Present(Pte(t, p))
    ensures Mapped(t, p) ==> Address(Pte(t, p)) == p * 4096 && Effective(t, p) == FlagsOf(Pte(t, p))
  {
    hide FlagsOf, Present, UnionOf, Address;
    assert TableOk(t, table, p / 1024);
    var row := t.l2[p / 1024];
    EntryParts(table + p / 1024, UnionOf(row, ENTRIES));
    assert PageOk(row[p % 1024], p / 1024 * 1024 + p % 1024);
    if Present(row[p % 1024]) {
      UnionCovers(row, ENTRIES, p % 1024);
    }
  }

  /** Page p mapped with flags f, and its directory entry derived again. */
  function SetPage(t: Tables, table: nat, p: nat, f: Flags): Tables
    requires Shape(t) && p < PAGES
  {
    var row: seq<nat> := t.l2[p / 1024][p % 1024 := Entry(p * 4096, f)];
    Tables(t.l1[p / 1024 := Entry((table + p / 1024) * 4096, UnionOf(row, ENTRIES))], t.l2[p / 1024 := row])
  }

  /** Mapping a page keeps the map an identity, gives the page its flags, and changes no other page. */
  lemma SetPageWorks(t: Tables, table: nat, p: nat, f: Flags)
    requires Identity(t, table) && p < PAGES
    ensures Identity(SetPage(t, table, p, f), table)
    ensures Mapped(SetPage(t, table, p, f), p) && Effective(SetPage(t, table, p, f), p) == f
    ensures forall q: nat | q < PAGES && q != p :: SameAccess(t, SetPage(t, table, p, f), q)
  {
    hide FlagsOf, Present, UnionOf, Address, Entry;
    var t' := SetPage(t, table, p, f);
    EntryParts(p, f);
    forall pde: nat | pde < TABLES
      ensures TableOk(t', table, pde)
    {
      assert TableOk(t, table, pde);
    }
    IdentityMeans(t', table, p);
    forall q: nat | q < PAGES && q != p
      ensures SameAccess(t, t', q)
    {
      IdentityMeans(t, table, q);
      IdentityMeans(t', table, q);
    }
  }

  /** Page q is mapped in t2 as in t1, with the same effective flags. */
  predicate SameAccess(t1: Tables, t2: Tables, q: nat)
    requires Shape(t1) && Shape(t2) && q < PAGES
  {
    Mapped(t1, q) == Mapped(t2, q) && (Mapped(t1, q) ==> Effective(t1, q) == Effective(t2, q))
  }

  /** Pages lo to hi - 1 have flags f in t2, all others are as in t1. */
  ghost predicate RangeSet(t1: Tables, t2: Tables, lo: nat, hi: nat, f: Flags)
    requires Shape(t1) && Shape(t2)
  {
    forall q: nat | q < PAGES :: if lo <= q < hi then Mapped(t2, q) && Effective(t2, q) == f else SameAccess(t1, t2, q)
  }

  /** A successful request: pages lo to hi - 1 with flags f. */
  datatype Request = Request(lo: nat, hi: nat, f: Flags)

  /** The flags last requested for page p, or those it had at the start. */
  function LastWanted(start: Flags, reqs: seq<Request>, p: nat): Flags
  {
    if reqs == [] then start
    else
      var last := reqs[|reqs| - 1];
      if last.lo <= p < last.hi then last.f else LastWanted(start, reqs[..|reqs| - 1], p)
  }

  /** States that a run of requests leads through. */
  ghost predicate IsRun(states: seq<Tables>, reqs: seq<Request>)
  {
    && |states| == |reqs| + 1
    && (forall i :: 0 <= i < |states| ==> Shape(states[i]))
    && forall i :: 0 <= i < |reqs| ==> RangeSet(states[i], states[i + 1], reqs[i].lo, reqs[i].hi, reqs[i].f)
  }

  /** After any run of requests every page mapped at the start has the flags last requested for it. */
  lemma {:induction false} LastRequestHolds(states: seq<Tables>, reqs: seq<Request>, p: nat)
    requires IsRun(states, reqs) && p < PAGES && Mapped(states[0], p)
    ensures Mapped(states[|reqs|], p)
    ensures Effective(states[|reqs|], p) == LastWanted(Effective(states[0], p), reqs, p)
    decreases |reqs|
  {
    hide Mapped, Effective;
    if reqs != [] {
      var n := |reqs| - 1;
      LastRequestHolds(states[..n + 1], reqs[..n], p);
      assert RangeSet(states[n], states[n + 1], reqs[n].lo, reqs[n].hi, reqs[n].f);
      if !(reqs[n].lo <= p < reqs[n].hi) {
        assert SameAccess(states[n], states[n + 1], p);
      }
    }
  }

  class PageTables {
    const l1: array<nat>
    const l2: array2<nat>
    /** Number of the physical page at which the first second-level table lies. */
    const table: nat
    /** Where the linker put kernel text and read-only data. */
    const textStart: nat
    const textEnd: nat
    const roStart: nat
    const roEnd: nat

    ghost predicate Shaped() { l1.Length == ENTRIES && l2.Length0 == TABLES && l2.Length1 == ENTRIES }

    ghost function Row(pde: nat): (r: seq<nat>)
      requires Shaped() && pde < TABLES
      reads l2
      ensures |r| == ENTRIES && forall i :: 0 <= i < ENTRIES ==> r[i] == l2[pde, i]
    {
      seq(ENTRIES, i requires 0 <= i < ENTRIES reads l2 => l2[pde, i])
    }

    ghost function Abs(): (t: Tables)
      requires Shaped()
      reads l1, l2
      ensures Shape(t) && forall pde: nat | pde < TABLES :: t.l2[pde] == Row(pde)
    {
      Tables(l1[..], seq(TABLES, pde requires 0 <= pde < TABLES reads l2 => Row(pde)))
    }

    ghost predicate Valid()
      reads l1, l2
    {
      Shaped() && Identity(Abs(), table)
    }

    constructor (table: nat, textStart: nat, textEnd: nat, roStart: nat, roEnd: nat)
      ensures Shaped() && fresh(l1) && fresh(l2)
      ensures this.table == table && this.textStart == textStart && this.textEnd == textEnd
      ensures this.roStart == roStart && this.roEnd == roEnd
    {
      l1 := new nat[ENTRIES](_ => 0);
      l2 := new nat[TABLES, ENTRIES]((_, _) => 0);
      this.table, this.textStart, this.textEnd, this.roStart, this.roEnd := table, textStart, textEnd, roStart, roEnd;
    }

    /** Kernel text is executable, read-only data neither writable nor executable, all else writable. */
    function KernelFlags(pa: nat): Flags
    {
      if AlignDown(textStart) <= pa < AlignUp(textEnd) then Flags(false, false, true)
      else if AlignDown(roStart) <= pa < AlignUp(roEnd) then NONE
      else Flags(true, false, false)
    }

    /** The user reaches no page of the kernel, no page is both writable and executable, exactly the pages with kernel text are
        executable, and exactly the pages with neither text nor read-only data are writable. */
    predicate KernelPage(p: nat, f: Flags)
    {
      && !f.u && !(f.w && f.x)
      && (textStart < textEnd ==> (f.x <==> Touches(p, textStart, textEnd)))
      && (textStart < textEnd && roStart < roEnd ==> (f.w <==> !Touches(p, textStart, textEnd) && !Touches(p, roStart, roEnd)))
    }

    lemma KernelProtection(p: nat)
      ensures KernelPage(p, KernelFlags(p * 4096))
    {
      hide Touches, AlignDown, AlignUp;
      if textStart < textEnd {
        AlignedTouches(p, textStart, textEnd);
      }
      if roStart < roEnd {
        AlignedTouches(p, roStart, roEnd);
      }
    }

    /** Collects the flags of the present pages of a table. */
    method CollectFlags(pde: nat) returns (f: Flags)
      requires Shaped() && pde < TABLES
      ensures f == UnionOf(Row(pde), ENTRIES)
    {
      hide FlagsOf, Present;
      f := NONE;
      for i := 0 to ENTRIES
        invariant f == UnionOf(Row(pde), i)
      {
        if Present(l2[pde, i]) {
          f := Union(f, FlagsOf(l2[pde, i]));
        }
      }
    }

    /** Maps one page to itself with the given protection, and derives its directory entry again. */
    method MapIdentityPage(va: nat, prot: nat) returns (rc: int)
      requires Valid()
      modifies l1, l2
      ensures Valid()
      ensures rc == if va < MAP_LIMIT then 0 else -1
      ensures rc != 0 ==> Abs() == old(Abs())
      ensures rc == 0 ==> va / 4096 < PAGES && Abs() == SetPage(old(Abs()), table, va / 4096, ProtFlags(prot))
    {
      hide Identity, UnionOf, Entry, ProtFlags;
      if va >= MAP_LIMIT {
        return -1;
      }
      ghost var t := Abs();
      var page := va / 4096;
      SetPageWorks(t, table, page, ProtFlags(prot));
      var pde, pte := page / 1024, page % 1024;
      l2[pde, pte] := Entry(page * 4096, ProtFlags(prot));
      assert Row(pde) == t.l2[pde][pte := Entry(page * 4096, ProtFlags(prot))];
      var f := CollectFlags(pde);
      l1[pde] := Entry((table + pde) * 4096, f);
      assert forall k: nat | k < TABLES && k != pde :: Row(k) == t.l2[k];
      assert Row(pde) == SetPage(t, table, page, ProtFlags(prot)).l2[pde];
      assert Abs().l2 == SetPage(t, table, page, ProtFlags(prot)).l2;
      rc := 0;
    }

    /** Maps `len` bytes from `va` on, page by page. A range that does not fit changes nothing. */
    method MapIdentity(va: nat, len: nat, prot: nat) returns (rc: int)
      requires Valid() && va < 0x1_0000_0000 && len < 0x1_0000_0000
      modifies l1, l2
      ensures Valid()
      ensures rc == if len == 0 || va + len <= MAP_LIMIT then 0 else -1
      ensures rc != 0 || len == 0 ==> Abs() == old(Abs())
      ensures rc == 0 && len > 0 ==>
        Shape(old(Abs())) && RangeSet(old(Abs()), Abs(), va / 4096, (va + len + 4095) / 4096, ProtFlags(prot))
    {
      hide Identity, UnionOf, Entry, ProtFlags, FlagsOf, Present, SetPage;
      if len == 0 {
        return 0;
      }
      if va >= MAP_LIMIT || len > MAP_LIMIT - va {
        return -1;
      }
      ghost var t := Abs();
      var start, end := AlignDown(va), AlignUp(va + len);
      PageBounds(va, len);
      var page := start;
      ghost var n := va / 4096;
      while page < end
        invariant Valid() && page == n * 4096 && start <= page <= end
        invariant RangeSet(t, Abs(), va / 4096, n, ProtFlags(prot))
        decreases end - page
      {
        ghost var t1 := Abs();
        SetPageWorks(t1, table, n, ProtFlags(prot));
        rc := MapIdentityPage(page, prot);
        RangeNext(t, t1, Abs(), va / 4096, n, ProtFlags(prot));
        page := page + 4096;
        n := n + 1;
      }
      rc := 0;
    }

    /** Builds the map the kernel starts with: every page below the limit, to itself, with the kernel's own protection. */
    method BuildKernelMap()
      requires Shaped()
      modifies l1, l2
      ensures Valid()
      ensures forall p: nat | p < PAGES :: Mapped(Abs(), p) && Effective(Abs(), p) == KernelFlags(p * 4096)
      ensures forall p: nat | p < PAGES :: KernelPage(p, Effective(Abs(), p))
    {
      hide UnionOf, Entry, FlagsOf, Present, Address, KernelFlags, KernelPage;
      for i := 0 to ENTRIES
        invariant forall k: nat | k < i :: l1[k] == 0
      {
        l1[i] := 0;
      }
      for pde := 0 to TABLES
        invariant forall k: nat | k < pde :: Built(k)
        invariant forall k: nat | pde <= k < ENTRIES :: l1[k] == 0
      {
        label L:
        BuildTable(pde);
        forall k: nat | k < pde
          ensures Built(k)
        {
          assert old@L(Built(k));
          assert Row(k) == old@L(Row(k));
        }
      }
      KernelMapDone();
      forall p: nat | p < PAGES
        ensures KernelPage(p, Effective(Abs(), p))
      {
        KernelProtection(p);
      }
    }

    /** Table pde maps its pages below the limit with the kernel's protection, and its directory entry is right. */
    ghost predicate Built(pde: nat)
      requires Shaped() && pde < TABLES
      reads l1, l2
    {
      && l1[pde] == Entry((table + pde) * 4096, UnionOf(Row(pde), ENTRIES))
      && forall i: nat | i < ENTRIES :: l2[pde, i] == KernelPte(pde * 1024 + i)
    }

    function KernelPte(p: nat): nat
    {
      if p * 4096 >= MAP_LIMIT then 0 else Entry(p * 4096, KernelFlags(p * 4096))
    }

    method BuildTable(pde: nat)
      requires Shaped() && pde < TABLES
      modifies l1, l2
      ensures Built(pde)
      ensures forall k: nat | k < ENTRIES && k != pde :: l1[k] == old(l1[k])
      ensures forall k: nat, i: nat | k < TABLES && k != pde && i < ENTRIES :: l2[k, i] == old(l2[k, i])
    {
      hide UnionOf, Entry, FlagsOf, Present, Address;
      var f := NONE;
      UnionNone(Row(pde));
      for pte := 0 to ENTRIES
        invariant forall i: nat | i < pte :: l2[pde, i] == KernelPte(pde * 1024 + i)
        invariant forall k: nat, i: nat | k < TABLES && k != pde && i < ENTRIES :: l2[k, i] == old(l2[k, i])
        invariant l1[..] == old(l1[..])
        invariant f == UnionOf(Row(pde), pte)
      {
        var pa := (pde * 1024 + pte) * 4096;
        ghost var row := Row(pde);
        if pa >= MAP_LIMIT {
          l2[pde, pte] := 0;
          UnionNext(row, Row(pde), pte);
          AbsentEntry();
          continue;
        }
        l2[pde, pte] := Entry(pa, KernelFlags(pa));
        UnionNext(row, Row(pde), pte);
        EntryParts(pde * 1024 + pte, KernelFlags(pa));
        f := Union(f, KernelFlags(pa));
      }
      l1[pde] := Entry((table + pde) * 4096, f);
    }

    lemma KernelMapDone()
      requires Shaped() && (forall k: nat | k < TABLES :: Built(k)) && forall k: nat | TABLES <= k < ENTRIES :: l1[k] == 0
      ensures Valid()
      ensures forall p: nat | p < PAGES :: Mapped(Abs(), p) && Effective(Abs(), p) == KernelFlags(p * 4096)
    {
      hide UnionOf, Entry, FlagsOf, Present, Address;
      var t := Abs();
      forall pde: nat | pde < TABLES
        ensures TableOk(t, table, pde)
      {
        assert Built(pde);
        forall i: nat | i < ENTRIES
          ensures PageOk(t.l2[pde][i], pde * 1024 + i)
        {
          AbsentEntry();
          EntryParts(pde * 1024 + i, KernelFlags((pde * 1024 + i) * 4096));
        }
      }
      forall p: nat | p < PAGES
        ensures Mapped(t, p) && Effective(t, p) == KernelFlags(p * 4096)
      {
        assert Built(p / 1024);
        EntryParts(p, KernelFlags(p * 4096));
        IdentityMeans(t, table, p);
      }
    }
  }

  lemma UnionNone(row: seq<nat>)
    ensures UnionOf(row, 0) == NONE
  {
  }

  lemma AbsentEntry()
    ensures !Present(0)
  {
  }

  /** Only the first n entries of a row decide their union. */
  lemma {:induction false} UnionSame(a: seq<nat>, b: seq<nat>, n: nat)
    requires n <= |a| && n <= |b| && forall i: nat | i < n :: a[i] == b[i]
    ensures UnionOf(a, n) == UnionOf(b, n)
  {
    if n > 0 {
      UnionSame(a, b, n - 1);
    }
  }

  lemma UnionNext(a: seq<nat>, b: seq<nat>, n: nat)
    requires n < |a| && n < |b| && forall i: nat | i < n :: a[i] == b[i]
    ensures UnionOf(b, n + 1) == if Present(b[n]) then Union(UnionOf(a, n), FlagsOf(b[n])) else UnionOf(a, n)
  {
    UnionSame(a, b, n);
  }

  lemma PageBounds(va: nat, len: nat)
    requires len > 0 && va + len <= MAP_LIMIT
    ensures va / 4096 <= (va + len + 4095) / 4096 <= PAGES
  {
  }

  lemma RangeNext(t: Tables, t1: Tables, t2: Tables, lo: nat, n: nat, f: Flags)
    requires Shape(t) && Shape(t1) && Shape(t2) && RangeSet(t, t1, lo, n, f) && lo <= n < PAGES
    requires Mapped(t2, n) && Effective(t2, n) == f && forall q: nat | q < PAGES && q != n :: SameAccess(t1, t2, q)
    ensures RangeSet(t, t2, lo, n + 1, f)
  {
    hide Mapped, Effective;
    forall q: nat | q < PAGES
      ensures if lo <= q < n + 1 then Mapped(t2, q) && Effective(t2, q) == f else SameAccess(t, t2, q)
    {
      if q != n {
        assert SameAccess(t1, t2, q);
        if !(lo <= q < n) {
          assert SameAccess(t, t1, q);
        } else {
          assert Mapped(t1, q) && Effective(t1, q) == f;
        }
      }
    }
  }
}

/** The allocator of the PCI memory window: power-of-two regions, naturally aligned, first fit on a page bitmap. */
module Pci {
  import opened Bytes

  const BASE: nat := 0x00A0_0000
  const LIMIT: nat := 0x0100_0000
  const PAGES: nat := 1536
  const WORDS: nat := 48

  // ---------- the bit tricks ----------

  /** Bitwise and. */
  function And(a: nat, b: nat): nat
  {
    if a == 0 || b == 0 then 0 else (a % 2) * (b % 2) + 2 * And(a / 2, b / 2)
  }

  ghost predicate IsPow2(n: nat) { exists k: nat :: n == Pow2(k) }

  lemma {:induction false} AndSame(a: nat)
    ensures And(a, a) == a
  {
    if a > 0 {
      AndSame(a / 2);
    }
  }

  lemma AndStep(a: nat, b: nat)
    ensures And(a, b) == (a % 2) * (b % 2) + 2 * And(a / 2, b / 2)
  {
  }

  /** Masking with 2^k - 1 leaves the remainder of the division by 2^k. */
  lemma {:induction false} AndMask(x: nat, k: nat)
    ensures And(x, Pow2(k) - 1) == x % Pow2(k)
  {
    if k > 0 {
      var p: nat := Pow2(k - 1);
      AndMask(x / 2, k - 1);
      assert (2 * p - 1) / 2 == p - 1 && (2 * p - 1) % 2 == 1;
      AndStep(x, 2 * p - 1);
      RemTwice(x, p);
    }
  }

  lemma RemTwice(x: nat, p: nat)
    requires p > 0
    ensures x % (2 * p) == x % 2 + 2 * (x / 2 % p)
  {
    var q, r := x / 2 / p, x / 2 % p;
    assert x / 2 == q * p + r;
    assert x == q * (2 * p) + (x % 2 + 2 * r);
    DivModUnique(x, q, x % 2 + 2 * r, 2 * p);
  }

  /** The test `size & (size - 1)` recognises exactly the powers of two. */
  lemma {:induction false} PowerTest(n: nat)
    requires n > 0
    ensures And(n, n - 1) == 0 <==> IsPow2(n)
  {
    if n == 1 {
      assert n == Pow2(0);
    } else if n % 2 == 0 {
      var m := n / 2;
      PowerTest(m);
      AndStep(n, n - 1);
      if IsPow2(m) {
        var k: nat :| m == Pow2(k);
        assert n == Pow2(k + 1);
      }
      if IsPow2(n) {
        var k: nat :| n == Pow2(k);
        assert m == Pow2(k - 1);
      }
    } else {
      AndStep(n, n - 1);
      AndSame(n / 2);
      forall k: nat
        ensures n != Pow2(k)
      {
      }
    }
  }

  // ---------- regions ----------

  datatype Region = Region(base: nat, size: nat)

  /** A region owns whole pages. */
  predicate Owns(r: Region, p: nat)
  {
    (r.base - BASE) / 4096 <= p < (r.base - BASE) / 4096 + (r.size + 4095) / 4096
  }

  /** A place where a region of this size may lie: in the window, aligned to its size and to a page. */
  predicate Place(b: nat, size: nat)
    requires size > 0
  {
    BASE <= b && b + size <= LIMIT && b % size == 0 && b % 4096 == 0
  }

  ghost predicate Taken(rs: seq<Region>, p: nat)
  {
    exists i :: 0 <= i < |rs| && Owns(rs[i], p)
  }

  ghost predicate Vacant(rs: seq<Region>, b: nat, size: nat)
  {
    forall p: nat | Owns(Region(b, size), p) :: !Taken(rs, p)
  }

  ghost predicate AllPlaced(rs: seq<Region>)
  {
    forall i :: 0 <= i < |rs| ==> rs[i].size > 0 && Place(rs[i].base, rs[i].size)
  }

  predicate Apart(r: Region, s: Region) { r.base + r.size <= s.base || s.base + s.size <= r.base }

  ghost predicate NoSharedPage(r: Region, s: Region)
  {
    forall p: nat :: !(Owns(r, p) && Owns(s, p))
  }

  /** Regions given out: each in its place, and no page given out twice. */
  ghost predicate Good(rs: seq<Region>)
  {
    AllPlaced(rs) && forall i, j :: 0 <= i < j < |rs| ==> NoSharedPage(rs[i], rs[j])
  }

  /** A region owns the page of each of its bytes. */
  lemma OwnsByte(r: Region, x: nat)
    requires r.base >= BASE && r.base % 4096 == 0 && r.base <= x < r.base + r.size
    ensures Owns(r, (x - BASE) / 4096)
  {
  }

  /** The pages a region owns are those with a byte of it, each from its first byte on. */
  lemma OwnsExactly(r: Region, p: nat)
    requires r.base >= BASE && r.base % 4096 == 0
    ensures Owns(r, p) <==> r.base <= BASE + p * 4096 < r.base + r.size
  {
  }

  /** Regions without a shared page do not overlap. */
  lemma PagesTellApart(r: Region, s: Region)
    requires r.size > 0 && s.size > 0 && Place(r.base, r.size) && Place(s.base, s.size) && NoSharedPage(r, s)
    ensures Apart(r, s)
  {
    assert r.base >= BASE && s.base >= BASE && r.base % 4096 == 0 && s.base % 4096 == 0;
    hide Place, Owns;
    if !Apart(r, s) {
      var x := if r.base < s.base then s.base else r.base;
      OwnsByte(r, x);
      OwnsByte(s, x);
    }
  }

  /** All regions given out are pairwise disjoint, inside the window and naturally aligned. */
  lemma RegionsAreDisjoint(rs: seq<Region>, i: nat, j: nat)
    requires Good(rs) && i < j < |rs|
    ensures Apart(rs[i], rs[j])
    ensures BASE <= rs[i].base && rs[i].base + rs[i].size <= LIMIT && rs[i].base % rs[i].size == 0
  {
    PagesTellApart(rs[i], rs[j]);
  }

  /** Giving out a vacant place keeps the regions good and takes its pages alone. */
  lemma GrantKeeps(rs: seq<Region>, b: nat, size: nat)
    requires Good(rs) && size > 0 && Place(b, size) && Vacant(rs, b, size)
    ensures Good(rs + [Region(b, size)])
    ensures forall p: nat :: Taken(rs + [Region(b, size)], p) <==> Taken(rs, p) || Owns(Region(b, size), p)
  {
    hide Owns, Place;
    var r := Region(b, size);
    var rs' := rs + [r];
    forall i | 0 <= i < |rs|
      ensures NoSharedPage(rs[i], r)
    {
      forall p: nat
        ensures !(Owns(rs[i], p) && Owns(r, p))
      {
        assert Owns(rs[i], p) ==> Taken(rs, p);
      }
    }
    forall p: nat
      ensures Taken(rs', p) <==> Taken(rs, p) || Owns(r, p)
    {
      if Taken(rs, p) {
        var i :| 0 <= i < |rs| && Owns(rs[i], p);
        assert Owns(rs'[i], p);
      }
      assert Owns(r, p) ==> Owns(rs'[|rs|], p);
    }
  }

  // ---------- multiples of the alignment ----------

  /** Different multiples lie a whole alignment apart. */
  lemma MultiplesApart(b: nat, c: nat, a: nat)
    requires a > 0 && b % a == 0 && c % a == 0 && b < c
    ensures b + a <= c
  {
    var q, t := b / a, c / a;
    assert b == q * a && c == t * a;
    if t <= q {
      MulMono(t, q, a);
    } else {
      MulMono(q + 1, t, a);
      assert (q + 1) * a == q * a + a;
    }
  }

  lemma MulMono(q: nat, t: nat, a: nat)
    requires q <= t
    ensures q * a <= t * a
  {
  }

  lemma NextMultiple(b: nat, a: nat)
    requires a > 0 && b % a == 0
    ensures (b + a) % a == 0
  {
    assert b + a == (b / a + 1) * a + 0;
    DivModUnique(b + a, b / a + 1, 0, a);
  }

  lemma {:induction false} PowerParts(k: nat)
    ensures Pow2(k) >= 4096 ==> Pow2(k) % 4096 == 0
    ensures Pow2(k) <= 4096 ==> 4096 % Pow2(k) == 0
  {
    if k <= 12 {
      SmallPower(k);
    } else {
      PowerParts(k - 1);
      SmallPower(12);
      if k - 1 > 12 {
        Pow2Grows(12, k - 1);
      }
    }
  }

  lemma SmallPower(k: nat)
    requires k <= 12
    ensures Pow2(k) == [1, 2, 4, 8, 16, 32, 64, 128, 256, 512, 1024, 2048, 4096][k]
  {
    if k > 0 {
      SmallPower(k - 1);
    }
  }

  function Alignment(size: nat): nat { if size > 4096 then size else 4096 }

  lemma MultipleOfMultiple(b: nat, a: nat, d: nat)
    requires a > 0 && d > 0 && a % d == 0 && b % a == 0
    ensures b % d == 0
  {
    var q, m := b / a, a / d;
    assert b == q * a && a == m * d;
    assert b == q * m * d + 0;
    MulNat(q, m);
    DivModUnique(b, q * m, 0, d);
  }

  lemma MulNat(q: nat, m: nat)
    ensures q * m >= 0
  {
  }

  /** For a power of two, the multiples of the alignment are the multiples both of the size and of the page size. */
  lemma AlignmentMeans(b: nat, size: nat)
    requires size > 0 && IsPow2(size)
    ensures b % Alignment(size) == 0 <==> b % size == 0 && b % 4096 == 0
  {
    var k: nat :| size == Pow2(k);
    PowerParts(k);
    if b % Alignment(size) == 0 {
      if size > 4096 {
        MultipleOfMultiple(b, size, 4096);
      } else {
        MultipleOfMultiple(b, 4096, size);
      }
    }
  }

  lemma PlaceHere(b: nat, size: nat)
    requires size > 0 && IsPow2(size) && b % Alignment(size) == 0 && BASE <= b && b + size <= LIMIT
    ensures Place(b, size)
  {
    AlignmentMeans(b, size);
  }

  /** `(BASE + a - 1) & ~(a - 1)` is the least multiple of the alignment in the window. */
  lemma StartIsLeast(size: nat)
    requires 0 < size <= LIMIT - BASE && IsPow2(size)
    ensures var a := Alignment(size);
      var start := BASE + a - 1 - And(BASE + a - 1, a - 1);
      start % a == 0 && BASE <= start < BASE + a
  {
    var a := Alignment(size);
    var k: nat :| size == Pow2(k);
    SmallPower(12);
    var j := if size > 4096 then k else 12;
    assert a == Pow2(j);
    AndMask(BASE + a - 1, j);
    MaskedIsMultiple(BASE + a - 1, a);
  }

  lemma MaskedIsMultiple(x: nat, a: nat)
    requires a > 0
    ensures (x - x % a) % a == 0
  {
    assert x - x % a == (x / a) * a + 0;
    DivModUnique(x - x % a, x / a, 0, a);
  }

  /** Every place below the candidate is refused. */
  ghost predicate NoneBelow(rs: seq<Region>, base: nat, size: nat)
    requires size > 0
  {
    forall b: nat | b < base && Place(b, size) :: !Vacant(rs, b, size)
  }

  /** Nothing lies below the first multiple of the alignment. */
  lemma NoneBelowStart(rs: seq<Region>, start: nat, size: nat)
    requires size > 0 && IsPow2(size)
    requires start % Alignment(size) == 0 && start < BASE + Alignment(size)
    ensures NoneBelow(rs, start, size)
  {
    hide Vacant;
    forall b: nat
      ensures !(b < start && Place(b, size))
    {
      AlignmentMeans(b, size);
      if b < start && b % Alignment(size) == 0 {
        MultiplesApart(b, start, Alignment(size));
      }
    }
  }

  /** Passing over a candidate that does not fit passes over nothing else. */
  lemma NoneBelowNext(rs: seq<Region>, base: nat, size: nat)
    requires size > 0 && IsPow2(size) && base % Alignment(size) == 0
    requires NoneBelow(rs, base, size) && (Place(base, size) ==> !Vacant(rs, base, size))
    ensures NoneBelow(rs, base + Alignment(size), size)
  {
    hide Vacant;
    forall b: nat | b < base + Alignment(size) && Place(b, size)
      ensures !Vacant(rs, b, size)
    {
      AlignmentMeans(b, size);
      if base < b {
        MultiplesApart(base, b, Alignment(size));
      }
    }
  }

  /** There is room for a request somewhere. */
  ghost predicate HasRoom(rs: seq<Region>, size: nat)
    requires size > 0
  {
    exists b: nat :: Place(b, size) && Vacant(rs, b, size)
  }

  /** Where a request is refused, every naturally aligned place in the window holds a page of a region given out. */
  lemma RefusedEverywhere(rs: seq<Region>, size: nat, b: nat)
    requires Good(rs) && size > 0 && !HasRoom(rs, size)
    requires BASE <= b && b + size <= LIMIT && b % size == 0 && b % 4096 == 0
    ensures exists i: nat, x: nat :: i < |rs| && BothHold(rs[i], Region(b, size), x)
  {
    assert Place(b, size) && !Vacant(rs, b, size);
    var p: nat :| Owns(Region(b, size), p) && Taken(rs, p);
    var i: nat :| i < |rs| && Owns(rs[i], p);
    assert Place(rs[i].base, rs[i].size);
    OwnsExactly(Region(b, size), p);
    OwnsExactly(rs[i], p);
    assert BothHold(rs[i], Region(b, size), BASE + p * 4096);
  }

  predicate BothHold(r: Region, s: Region, x: nat) { r.base <= x < r.base + r.size && s.base <= x < s.base + s.size }

  lemma TooBig(rs: seq<Region>, size: nat)
    requires size > LIMIT - BASE
    ensures !HasRoom(rs, size)
  {
  }

  lemma RoomFound(rs: seq<Region>, b: nat, size: nat)
    requires size > 0 && Place(b, size) && Vacant(rs, b, size)
    ensures HasRoom(rs, size) && b > 0
  {
  }

  /** When no place below the end of the window is vacant there is no room. */
  lemma RoomNowhere(rs: seq<Region>, base: nat, size: nat)
    requires size > 0 && NoneBelow(rs, base, size) && base + size > LIMIT
    ensures !HasRoom(rs, size)
  {
    hide Vacant;
  }

  lemma {:induction false} ZeroHasNoBits(k: nat)
    ensures !Bit(0, k)
  {
    if k > 0 {
      ZeroHasNoBits(k - 1);
    }
  }

  /** Setting one of the 32 bits of a word keeps it a word. */
  lemma SetBitInWord(w: u32, k: nat)
    requires k < 32
    ensures SetBit(w, k) < 0x1_0000_0000
  {
    SmallPower(12);
    assert Pow2(16) == 0x1_0000 by {
      assert Pow2(13) == 0x2000 && Pow2(14) == 0x4000 && Pow2(15) == 0x8000;
    }
    assert Pow2(24) == 0x100_0000 by {
      assert Pow2(17) == 0x2_0000 && Pow2(18) == 0x4_0000 && Pow2(19) == 0x8_0000 && Pow2(20) == 0x10_0000;
      assert Pow2(21) == 0x20_0000 && Pow2(22) == 0x40_0000 && Pow2(23) == 0x80_0000;
    }
    assert Pow2(32) == 0x1_0000_0000 by {
      assert Pow2(25) == 0x200_0000 && Pow2(26) == 0x400_0000 && Pow2(27) == 0x800_0000 && Pow2(28) == 0x1000_0000;
      assert Pow2(29) == 0x2000_0000 && Pow2(30) == 0x4000_0000 && Pow2(31) == 0x8000_0000;
    }
    SetBitRange(w, k, 32);
  }

  class Window {
    /** One bit for each page of the window, thirty-two to a word. */
    const words: array<u32>
    /** The regions given out so far, in order. */
    ghost var regions: seq<Region>

    predicate PageBit(p: nat)
      requires words.Length == WORDS && p < PAGES
      reads words
    {
      Bit(words[p / 32], p % 32)
    }

    /** The bitmap is exact: a bit is set just when a region given out owns the page. */
    ghost predicate Valid()
      reads this, words
    {
      && words.Length == WORDS
      && Good(regions)
      && forall p: nat | p < PAGES :: PageBit(p) <==> Taken(regions, p)
    }

    constructor ()
      ensures Valid() && regions == [] && fresh(words)
    {
      words := new u32[WORDS](_ => 0);
      regions := [];
      new;
      forall k: nat
        ensures !Bit(0, k)
      {
        ZeroHasNoBits(k);
      }
    }

    method RangeFree(first: nat, count: nat) returns (free: bool)
      requires words.Length == WORDS && first + count <= PAGES
      ensures free <==> forall p: nat | first <= p < first + count :: !PageBit(p)
    {
      for page := first to first + count
        invariant forall p: nat | first <= p < page :: !PageBit(p)
      {
        if PageBit(page) {
          return false;
        }
      }
      return true;
    }

    method MarkRange(first: nat, count: nat)
      requires words.Length == WORDS && first + count <= PAGES
      modifies words
      ensures forall p: nat | p < PAGES :: PageBit(p) <==> old(PageBit(p)) || first <= p < first + count
    {
      for page := first to first + count
        invariant forall p: nat | p < PAGES :: PageBit(p) <==> old(PageBit(p)) || first <= p < page
      {
        SetBitInWord(words[page / 32], page % 32);
        words[page / 32] := SetBit(words[page / 32], page % 32);
        assert forall p: nat | p < PAGES :: p / 32 == page / 32 && p % 32 == page % 32 ==> p == page;
      }
    }

    /** First fit. A request succeeds just when it is a power of two that fits somewhere, and then gets the lowest place. */
    method Allocate(size: u32) returns (base: u32)
      requires Valid()
      modifies this, words
      ensures Valid()
      ensures base != 0 <==> size > 0 && IsPow2(size) && HasRoom(old(regions), size)
      ensures base == 0 ==> regions == old(regions)
      ensures base != 0 ==> regions == old(regions) + [Region(base, size)]
      ensures base != 0 ==> size > 0 && Place(base, size) && Vacant(old(regions), base, size)
      ensures base != 0 ==> NoneBelow(old(regions), base, size)
    {
      hide Vacant, Owns, Place, Taken, Good, IsPow2, And, HasRoom, NoneBelow, PageBit;
      ghost var rs := regions;
      if size > 0 { PowerTest(size); }
      if size == 0 || And(size, size - 1) != 0 || size > LIMIT - BASE {
        if size > LIMIT - BASE { TooBig(rs, size); }
        return 0;
      }
      var alignment := Alignment(size);
      var count := (size + 4095) / 4096;
      StartIsLeast(size);
      base := BASE + alignment - 1 - And(BASE + alignment - 1, alignment - 1);
      NoneBelowStart(rs, base, size);
      while base < LIMIT && size <= LIMIT - base
        invariant Valid() && regions == rs && BASE <= base && base % alignment == 0
        invariant NoneBelow(rs, base, size)
        decreases LIMIT - base
      {
        PlaceHere(base, size);
        var first := (base - BASE) / 4096;
        FreeMeansVacant(base, size, first, count);
        if first + count <= PAGES {
          var free := RangeFree(first, count);
          if free {
            MarkRange(first, count);
            GrantKeeps(rs, base, size);
            regions := regions + [Region(base, size)];
            RoomFound(rs, base, size);
            return;
          }
        }
        NoneBelowNext(rs, base, size);
        NextMultiple(base, alignment);
        base := base + alignment;
      }
      RoomNowhere(rs, base, size);
      base := 0;
    }

    /** The run of pages tested and marked is that of the region to be given out. */
    lemma FreeMeansVacant(base: nat, size: nat, first: nat, count: nat)
      requires Valid() && size > 0 && Place(base, size)
      requires first == (base - BASE) / 4096 && count == (size + 4095) / 4096
      ensures first + count <= PAGES
      ensures (forall p: nat | first <= p < first + count :: !PageBit(p)) <==> Vacant(regions, base, size)
      ensures forall p: nat :: Owns(Region(base, size), p) <==> first <= p < first + count
    {
      hide Taken, Good;
      assert forall p: nat :: Owns(Region(base, size), p) <==> first <= p < first + count;
    }
  }
}

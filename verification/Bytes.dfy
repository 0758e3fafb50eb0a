/** Little-endian byte access and the bit operations on bytes that the ext4 code uses. */
module Bytes {

  type u8 = x: int | 0 <= x < 0x100
  type u16 = x: int | 0 <= x < 0x1_0000
  type u32 = x: int | 0 <= x < 0x1_0000_0000

  function Rd16(s: seq<u8>, p: nat): u16
    requires p + 2 <= |s|
  {
    s[p] as int + 0x100 * s[p + 1] as int
  }

  function Rd32(s: seq<u8>, p: nat): u32
    requires p + 4 <= |s|
  {
    s[p] as int + 0x100 * s[p + 1] as int + 0x1_0000 * s[p + 2] as int + 0x100_0000 * s[p + 3] as int
  }

  /** What a two-byte store does to a buffer: the stored value reads back and no other byte moves. */
  function Wr16(s: seq<u8>, p: nat, v: u16): (r: seq<u8>)
    requires p + 2 <= |s|
    ensures |r| == |s|
    ensures Rd16(r, p) == v
    ensures r[..p] == s[..p] && r[p + 2..] == s[p + 2..]
  {
    Splice(s, p, [v % 0x100, v / 0x100])
  }

  /** The four base-256 digits of a 32-bit value. */
  function Le32(v: u32): (r: seq<u8>)
    ensures |r| == 4 && r[0] as int + 0x100 * r[1] as int + 0x1_0000 * r[2] as int + 0x100_0000 * r[3] as int == v
  {
    [v % 0x100, v / 0x100 % 0x100, v / 0x1_0000 % 0x100, v / 0x100_0000]
  }

  /** What a four-byte store does to a buffer: the stored value reads back and no other byte moves. */
  function Wr32(s: seq<u8>, p: nat, v: u32): (r: seq<u8>)
    requires p + 4 <= |s|
    ensures |r| == |s|
    ensures Rd32(r, p) == v
    ensures r[..p] == s[..p] && r[p + 4..] == s[p + 4..]
  {
    Splice(s, p, Le32(v))
  }

  /** Overwrites the bytes of `s` from `p` on with `d`. */
  function Splice(s: seq<u8>, p: nat, d: seq<u8>): (r: seq<u8>)
    requires p + |d| <= |s|
    ensures |r| == |s|
  {
    seq(|s|, i requires 0 <= i < |s| => if p <= i < p + |d| then d[i - p] else s[i])
  }

  lemma SliceOfSlice(s: seq<u8>, a: nat, b: nat, c: nat, d: nat)
    requires a <= b <= |s| && c <= d <= b - a
    ensures s[a..b][c..d] == s[a + c..a + d]
  {
    forall i | 0 <= i < d - c
      ensures s[a..b][c..d][i] == s[a + c..a + d][i]
    {
      assert s[a..b][c + i] == s[a + c + i];
    }
  }

  lemma JoinSlices(s: seq<u8>, a: nat, b: nat, c: nat)
    requires a <= b <= c <= |s|
    ensures s[a..b] + s[b..c] == s[a..c]
  {
  }

  /** Splicing a spliced part back in is splicing the data itself. */
  lemma SpliceOfSplice(s: seq<u8>, a: nat, n: nat, off: nat, data: seq<u8>)
    requires a + n <= |s| && off + |data| <= n
    ensures Splice(s, a, Splice(s[a..a + n], off, data)) == Splice(s, a + off, data)
  {
  }

  /** A splice stores its data and leaves every slice it does not meet alone. */
  lemma SliceOfSplice(s: seq<u8>, a: nat, data: seq<u8>, x: nat, y: nat)
    requires a + |data| <= |s| && x <= y <= |s|
    ensures Splice(s, a, data)[a..a + |data|] == data
    ensures y <= a || a + |data| <= x ==> Splice(s, a, data)[x..y] == s[x..y]
  {
  }

  /** Of two splices of the same range the second decides. */
  lemma SpliceTwice(s: seq<u8>, a: nat, d1: seq<u8>, d2: seq<u8>)
    requires a + |d1| <= |s| && |d1| == |d2|
    ensures Splice(Splice(s, a, d1), a, d2) == Splice(s, a, d2)
    ensures Splice(s, a, d1)[a..a + |d1|] == d1
  {
  }

  /** Splicing into the used part of a buffer is splicing into what that part holds. */
  lemma SplicePrefix(s: seq<u8>, n: nat, off: nat, data: seq<u8>)
    requires n <= |s| && off + |data| <= n
    ensures Splice(s, off, data)[..n] == Splice(s[..n], off, data)
  {
  }

  /** Two adjacent splices are one. */
  lemma AdjacentSplices(s: seq<u8>, a: nat, d1: seq<u8>, d2: seq<u8>)
    requires a + |d1| + |d2| <= |s|
    ensures Splice(Splice(s, a, d1), a + |d1|, d2) == Splice(s, a, d1 + d2)
  {
  }

  method StoreLe16(a: array<u8>, p: nat, v: u16)
    requires p + 2 <= a.Length
    modifies a
    ensures a[..] == Wr16(old(a[..]), p, v)
  {
    a[p] := v % 0x100;
    a[p + 1] := v / 0x100 % 0x100;
  }

  method StoreLe32(a: array<u8>, p: nat, v: u32)
    requires p + 4 <= a.Length
    modifies a
    ensures a[..] == Wr32(old(a[..]), p, v)
  {
    var b := Le32(v);
    a[p] := b[0];
    a[p + 1] := b[1];
    a[p + 2] := b[2];
    a[p + 3] := b[3];
  }

  /** Byte loop `dst[dp + i] = src[sp + i]` between two buffers. */
  method CopyBytes(dst: array<u8>, dp: nat, src: array<u8>, sp: nat, n: nat)
    requires dst != src
    requires dp + n <= dst.Length && sp + n <= src.Length
    modifies dst
    ensures dst[..] == Splice(old(dst[..]), dp, src[sp..sp + n])
  {
    for i := 0 to n
      invariant forall k :: 0 <= k < dst.Length ==> dst[k] == if dp <= k < dp + i then src[sp + k - dp] else old(dst[k])
    {
      dst[dp + i] := src[sp + i];
    }
  }

  /** Byte loop `dst[dp + i] = src[sp + i]` from a constant byte string. */
  method StoreBytes(dst: array<u8>, dp: nat, src: seq<u8>, sp: nat, n: nat)
    requires dp + n <= dst.Length && sp + n <= |src|
    modifies dst
    ensures dst[..] == Splice(old(dst[..]), dp, src[sp..sp + n])
  {
    for i := 0 to n
      invariant forall k :: 0 <= k < dst.Length ==> dst[k] == if dp <= k < dp + i then src[sp + k - dp] else old(dst[k])
    {
      dst[dp + i] := src[sp + i];
    }
  }

  function Zeros(n: nat): (r: seq<u8>)
    ensures |r| == n && forall i :: 0 <= i < n ==> r[i] == 0
  {
    seq(n, _ => 0)
  }

  /** Byte loop `dst[i] = 0` for `lo <= i < hi`. */
  method ZeroBytes(dst: array<u8>, lo: nat, hi: nat)
    requires lo <= hi <= dst.Length
    modifies dst
    ensures dst[..] == Splice(old(dst[..]), lo, Zeros(hi - lo))
  {
    for i := lo to hi
      invariant forall k :: 0 <= k < dst.Length ==> dst[k] == if lo <= k < i then 0 else old(dst[k])
    {
      dst[i] := 0;
    }
  }

  /** Bit `k` of a number, bit 0 being the least significant. */
  predicate Bit(x: nat, k: nat)
  {
    if k == 0 then x % 2 == 1 else Bit(x / 2, k - 1)
  }

  /** `x | (1 << k)`: sets bit `k` of a number and leaves every other bit alone. */
  function SetBit(x: nat, k: nat): (r: nat)
    ensures forall j: nat :: Bit(r, j) <==> j == k || Bit(x, j)
  {
    if k == 0 then x / 2 * 2 + 1 else x % 2 + 2 * SetBit(x / 2, k - 1)
  }

  /** Setting a bit below the bound keeps a number below two to the bound. */
  lemma SetBitRange(x: nat, k: nat, bound: nat)
    requires k < bound && x < Pow2(bound)
    ensures SetBit(x, k) < Pow2(bound)
  {
    if k > 0 {
      SetBitRange(x / 2, k - 1, bound - 1);
    }
  }

  function Pow2(k: nat): (r: nat)
    ensures r > 0
  {
    if k == 0 then 1 else 2 * Pow2(k - 1)
  }

  lemma {:induction false} Pow2Grows(m: nat, n: nat)
    requires m <= n
    ensures Pow2(m) <= Pow2(n)
  {
    if m < n {
      Pow2Grows(m, n - 1);
    }
  }

  lemma MulPositive(a: int, d: int)
    requires a > 0 && d > 0
    ensures a * d >= d
  {
  }

  /** `d` goes into `q * d + r` exactly `q` times when `r` is a remainder. */
  lemma DivModUnique(x: int, q: int, r: int, d: int)
    requires 0 <= r < d && x == q * d + r
    ensures x / d == q && x % d == r
  {
    var q1, r1 := x / d, x % d;
    assert x == q1 * d + r1 && 0 <= r1 < d;
    assert (q1 - q) * d == q1 * d - q * d;
    if q1 > q {
      MulPositive(q1 - q, d);
    } else if q1 < q {
      MulPositive(q - q1, d);
    }
  }
}

/** 64-bit division in software: shift-and-subtract on unsigned words, and the signed wrappers. */
module DivMod {
  import opened Bytes

  const TWO64: nat := 0x1_0000_0000_0000_0000
  const TWO63: nat := 0x8000_0000_0000_0000

  type du_int = x: int | 0 <= x < 0x1_0000_0000_0000_0000
  type di_int = x: int | -0x8000_0000_0000_0000 <= x < 0x8000_0000_0000_0000

  lemma Pow2Plus8(n: nat)
    ensures Pow2(n + 8) == 0x100 * Pow2(n)
  {
    assert Pow2(n + 8) == 2 * Pow2(n + 7) && Pow2(n + 7) == 2 * Pow2(n + 6) && Pow2(n + 6) == 2 * Pow2(n + 5);
    assert Pow2(n + 5) == 2 * Pow2(n + 4) && Pow2(n + 4) == 2 * Pow2(n + 3) && Pow2(n + 3) == 2 * Pow2(n + 2);
    assert Pow2(n + 2) == 2 * Pow2(n + 1) && Pow2(n + 1) == 2 * Pow2(n);
  }

  lemma Pow2Is64()
    ensures Pow2(64) == TWO64
  {
    Pow2Plus8(0);
    Pow2Plus8(8);
    Pow2Plus8(16);
    Pow2Plus8(24);
    Pow2Plus8(32);
    Pow2Plus8(40);
    Pow2Plus8(48);
    Pow2Plus8(56);
  }

  lemma MulStep(b: nat, p: nat)
    ensures b * (2 * p) == 2 * (b * p)
  {
  }

  lemma MulAtLeast(b: nat, p: nat)
    requires b > 0
    ensures b * p >= p
  {
  }

  /** A quotient that fits below a 64-bit dividend fits 64 bits itself. */
  lemma QuotientFits(a: nat, q: nat, d: nat, r: nat)
    requires d > 0 && a == q * d + r && a < TWO64
    ensures q < TWO64
  {
    MulAtLeast(d, q);
  }

  /** One binary digit of the quotient. */
  lemma DigitStep(a: nat, q: nat, d: nat, r: nat)
    requires a == q * (2 * d) + r
    ensures a == (2 * q) * d + r && (r >= d ==> a == (2 * q + 1) * d + (r - d))
  {
    assert q * (2 * d) == (2 * q) * d;
    assert (2 * q + 1) * d == (2 * q) * d + d;
  }

  /** The shift count of a 64-bit divisor stays below 64. */
  lemma ShiftBelow64(b: nat, shift: nat, div: nat)
    requires b > 0 && div == b * Pow2(shift) && div < TWO64
    ensures shift < 64
  {
    MulAtLeast(b, Pow2(shift));
    Pow2Is64();
    if shift >= 64 {
      Pow2Grows(64, shift);
    }
  }

  /** Doubling the divisor while it is at most half the dividend. */
  method Align(a: du_int, b: du_int) returns (div: du_int, shift: nat)
    requires 0 < b <= a
    ensures div == b * Pow2(shift) && 0 < div <= a < 2 * div && shift < 64
  {
    div, shift := b, 0;
    while div / 0x8000_0000_0000_0000 == 0 && div <= a / 2
      invariant div == b * Pow2(shift) && 0 < div <= a
      decreases a - div
    {
      MulStep(b, Pow2(shift));
      div := div * 2 % 0x1_0000_0000_0000_0000;
      shift := shift + 1;
    }
    ShiftBelow64(b, shift, div);
  }

  /** Shift-and-subtract division; no intermediate value leaves 64 bits. */
  method UDivMod(a: du_int, b: du_int) returns (quot: du_int, rem: du_int)
    ensures b == 0 ==> quot == 0 && rem == 0
    ensures b != 0 ==> a == quot * b + rem && 0 <= rem < b
  {
    hide Pow2;
    if b == 0 {
      return 0, 0;
    }
    if a < b {
      return 0, a;
    }
    var div, shift := Align(a, b);
    quot, rem := 0, a;
    while true
      invariant div == b * Pow2(shift) && 0 < div && shift < 64
      invariant a == quot * (2 * div as int) + rem && rem < 2 * div as int
      decreases shift
    {
      DigitStep(a, quot, div, rem);
      QuotientFits(a, 2 * quot, div, rem);
      quot := quot * 2 % 0x1_0000_0000_0000_0000;
      if rem >= div {
        QuotientFits(a, quot + 1, div, rem - div);
        rem := rem - div;
        quot := quot + 1;
      }
      if shift == 0 {
        FirstPower(b);
        break;
      }
      Halve(b, shift);
      div := div / 2;
      shift := shift - 1;
    }
  }

  lemma FirstPower(b: nat)
    ensures b * Pow2(0) == b
  {
  }

  lemma Halve(b: nat, shift: nat)
    requires shift > 0
    ensures b * Pow2(shift) == 2 * (b * Pow2(shift - 1))
  {
    MulStep(b, Pow2(shift - 1));
  }

  // ---------- signed ----------

  /** A value cut to 64 bits, as a two's-complement word. */
  function Wrap(x: int): di_int
  {
    var w := x % 0x1_0000_0000_0000_0000;
    if w < TWO63 then w else w - TWO64
  }

  /** Cutting changes a number by a multiple of two to the power 64. */
  lemma WrapIsCongruent(x: int)
    ensures (x - Wrap(x)) % 0x1_0000_0000_0000_0000 == 0
  {
    var k := x / 0x1_0000_0000_0000_0000;
    assert x - Wrap(x) == k * 0x1_0000_0000_0000_0000 || x - Wrap(x) == (k + 1) * 0x1_0000_0000_0000_0000;
  }

  /** Quotient and remainder as section 6.5.5 of C11 defines them: truncated toward zero, the remainder with the dividend's sign. */
  function TruncQuot(a: int, b: int): int
    requires b != 0
  {
    var q := UQuot(Abs(a), Abs(b));
    if (a < 0) != (b < 0) then -q else q
  }

  function UQuot(a: nat, b: nat): int
    requires b > 0
  {
    a / b
  }

  function TruncRem(a: int, b: int): int
    requires b != 0
  {
    a - TruncQuot(a, b) * b
  }

  function Abs(x: int): nat { if x < 0 then -x else x }

  /** What makes a division truncating: dividend and divisor come back together, the remainder is smaller than the divisor,
      and it is zero or has the dividend's sign. */
  predicate Truncated(a: int, b: int, q: int, r: int)
  {
    a == q * b + r && Abs(r) < Abs(b) && (r < 0 ==> a < 0) && (r > 0 ==> a > 0)
  }

  /** One pair of numbers alone is like that. */
  lemma TruncatedIff(a: int, b: int, q: int, r: int)
    requires b != 0
    ensures Truncated(a, b, q, r) <==> q == TruncQuot(a, b) && r == TruncRem(a, b)
  {
    hide TruncQuot, TruncRem;
    IsTruncated(a, b);
    if Truncated(a, b, q, r) {
      OnlyOneTruncated(a, b, q, r, TruncQuot(a, b), TruncRem(a, b));
    }
  }

  lemma IsTruncated(a: int, b: int)
    requires b != 0
    ensures Truncated(a, b, TruncQuot(a, b), TruncRem(a, b))
  {
    hide UQuot, TruncQuot;
    var q := UQuot(Abs(a), Abs(b));
    var r := UQuotRest(Abs(a), Abs(b));
    RemByMagnitude(a, b, q, r);
  }

  lemma UQuotRest(a: nat, b: nat) returns (r: nat)
    requires b > 0
    ensures a == UQuot(a, b) * b + r && r < b
  {
    r := a % b;
  }

  lemma OnlyOneTruncated(a: int, b: int, q: int, r: int, t: int, s: int)
    requires b != 0 && Truncated(a, b, q, r) && Truncated(a, b, t, s)
    ensures q == t && r == s
  {
    assert (q - t) * b == s - r;
    NoMultipleBetween(q - t, b, s - r);
  }

  /** A multiple of b that is smaller than b is zero. */
  lemma NoMultipleBetween(k: int, b: int, x: int)
    requires k * b == x && Abs(x) < Abs(b)
    ensures k == 0 && x == 0
  {
    if k != 0 {
      assert Abs(k) * Abs(b) == Abs(x);
      MulAtLeast(Abs(k), Abs(b));
    }
  }

  /** The unsigned magnitude: `0 - UV` on the unsigned word. */
  function UAbs(v: di_int): (r: du_int)
    ensures r == Abs(v)
  {
    var uv := v % 0x1_0000_0000_0000_0000;
    if v < 0 then (0 - uv) % 0x1_0000_0000_0000_0000 else uv
  }

  method DivDi3(a: di_int, b: di_int) returns (q: di_int)
    ensures b == 0 ==> q == 0
    ensures b != 0 ==> q == Wrap(TruncQuot(a, b))
  {
    hide Wrap;
    if b == 0 {
      return 0;
    }
    var neg := (a < 0) != (b < 0);
    var uq, ur := UDivMod(UAbs(a), UAbs(b));
    DivModUnique(Abs(a), uq, ur, Abs(b));
    WrapTwice(uq);
    q := Wrap(uq);
    if neg {
      q := Wrap(-(q as int));
    }
  }

  method ModDi3(a: di_int, b: di_int) returns (r: di_int)
    ensures b == 0 ==> r == 0
    ensures b != 0 ==> r == TruncRem(a, b)
  {
    hide Wrap;
    if b == 0 {
      return 0;
    }
    var uq, ur := UDivMod(UAbs(a), UAbs(b));
    DivModUnique(Abs(a), uq, ur, Abs(b));
    RemByMagnitude(a, b, uq, ur);
    RemSmall(b, ur);
    r := Wrap(ur);
    if a < 0 {
      r := Wrap(-(r as int));
    }
  }

  /** Negating the wrapped word wraps the negated value. */
  lemma WrapTwice(x: int)
    requires 0 <= x < TWO64
    ensures Wrap(-(Wrap(x) as int)) == Wrap(-x)
  {
  }

  lemma RemSmall(b: di_int, ur: int)
    requires 0 <= ur < Abs(b)
    ensures Wrap(ur) == ur && Wrap(-ur) == -ur
  {
    hide Wrap;
    WrapFits(ur);
    WrapFits(-ur);
  }

  lemma RemByMagnitude(a: int, b: int, q: int, r: int)
    requires b != 0 && Abs(a) == q * Abs(b) + r && q == UQuot(Abs(a), Abs(b))
    ensures TruncRem(a, b) == if a < 0 then -r else r
  {
    var p := q * Abs(b);
    if b < 0 {
      assert q * b == -p && (-q) * b == p;
    } else {
      assert q * b == p && (-q) * b == -p;
    }
  }

  lemma QuotParts(a: nat, b: nat, q: int, r: int)
    requires b > 0 && a == q * b + r && 0 <= r < b
    ensures 0 <= q <= a && (b >= 2 ==> 2 * q <= a) && (b == 1 ==> q == a)
  {
    if 0 <= q {
      MulAtLeast(b, q);
      if b >= 2 {
        assert q * b == 2 * q + q * (b - 2);
      }
    }
  }

  lemma QuotBound(a: nat, b: nat)
    requires b > 0
    ensures 0 <= UQuot(a, b) <= a && (b >= 2 ==> 2 * UQuot(a, b) <= a) && (b == 1 ==> UQuot(a, b) == a)
  {
    var q, r := a / b, a % b;
    assert a == q * b + r;
    QuotParts(a, b, q, r);
  }

  /** The signed quotient is the truncated one for every pair of operands but one. */
  lemma QuotFitsIff(a: di_int, b: di_int)
    requires b != 0
    ensures Wrap(TruncQuot(a, b)) == TruncQuot(a, b) <==> !(a == -0x8000_0000_0000_0000 && b == -1)
  {
    hide Wrap, UQuot;
    QuotBound(Abs(a), Abs(b));
    WrapFits(TruncQuot(a, b));
  }

  lemma WrapFits(x: int)
    requires -(TWO64 as int) <= x <= TWO64
    ensures Wrap(x) == x <==> -(TWO63 as int) <= x < TWO63
  {
  }
}

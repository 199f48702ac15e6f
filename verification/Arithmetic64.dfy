/** lib/arithmetic.c: 64-bit division and remainder built from the x86 `divl`
    instruction, which divides a 64-bit number by a 32-bit one. */
module Arithmetic64 {

  const B := 0x1_0000_0000
  const B64 := 0x1_0000_0000_0000_0000

  type uint32 = x: int | 0 <= x < B
  type uint64 = x: int | 0 <= x < B64
  type int32 = x: int | -0x8000_0000 <= x < 0x8000_0000
  type int64 = x: int | -0x8000_0000_0000_0000 <= x < 0x8000_0000_0000_0000

  function Pow2(k: nat): (p: nat)
    ensures 1 <= p
  {
    if k == 0 then 1 else 2 * Pow2(k - 1)
  }

  function Low32(x: int): uint32 { x % B }

  function Low64(x: int): uint64 { x % B64 }

  function ToInt32(x: int): int32 {
    var low := x % B;
    if low < 0x8000_0000 then low else low - B
  }

  function ToInt64(x: int): int64 {
    var low := x % B64;
    if low < 0x8000_0000_0000_0000 then low else low - B64
  }

  /** The instruction traps when the quotient does not fit in 32 bits; the
      precondition is its documented no-trap condition. */
  function Divl(n: uint64, d: uint32): (q: uint32)
    requires n / B < d
    ensures q == n / d
  {
    QuotientFits(n, d);
    n / d
  }

  lemma QuotientFits(n: nat, d: nat)
    requires n / B < d
    ensures n / d < B
  {
    var q := n / d;
    assert q * d <= n < B * d;
    if B <= q {
      ProductGrows(B, q, d);
    }
  }

  lemma ProductGrows(a: int, b: int, c: nat)
    requires a <= b
    ensures a * c <= b * c
  {
  }

  lemma Rotated(a: int, b: int, c: int)
    ensures a * (b * c) == b * (a * c)
  {
  }

  // ------------------------------------------------- counting leading zeros

  /** Doublings until the top bit is set. */
  function LeadingZeros(x: uint32): (n: nat)
    requires x != 0
    decreases B - x
  {
    if 0x8000_0000 <= x then 0 else 1 + LeadingZeros(2 * x)
  }

  lemma {:induction false} Doubled(x: uint32)
    requires x != 0
    ensures 0x8000_0000 <= x * Pow2(LeadingZeros(x)) < B
    decreases B - x
  {
    if x < 0x8000_0000 {
      Doubled(2 * x);
      Rotated(x, 2, Pow2(LeadingZeros(2 * x)));
    }
  }

  lemma Normalized(x: uint32)
    requires x != 0
    ensures LeadingZeros(x) <= 31 && 0x8000_0000 <= x * Pow2(LeadingZeros(x)) < B
  {
    Doubled(x);
    var n := LeadingZeros(x);
    ProductGrows(1, x, Pow2(n));
    if 31 < n {
      PowersAdd(31, n - 31);
      PowerOf31();
    }
  }

  lemma PowerOf31()
    ensures Pow2(31) == 0x8000_0000
  {
    assert Pow2(8) == 0x100;
    assert Pow2(16) == 0x1_0000;
    assert Pow2(24) == 0x100_0000;
  }

  lemma {:induction false} PowersAdd(j: nat, k: nat)
    ensures Pow2(j + k) == Pow2(j) * Pow2(k)
  {
    if j > 0 {
      PowersAdd(j - 1, k);
      assert 2 * (Pow2(j - 1) * Pow2(k)) == 2 * Pow2(j - 1) * Pow2(k);
    }
  }

  lemma {:induction false} ShiftedBy(x: uint32, k: nat)
    requires x != 0 && 0 < x * Pow2(k) < B
    ensures LeadingZeros(x) == k + LeadingZeros(x * Pow2(k))
    decreases k
  {
    if k > 0 {
      var p := Pow2(k - 1);
      assert x * Pow2(k) == 2 * x * p;
      ProductGrows(1, p, 2 * x);
      ShiftedBy(2 * x, k - 1);
    }
  }

  lemma SmallPowers()
    ensures Pow2(1) == 2 && Pow2(2) == 4 && Pow2(4) == 0x10 && Pow2(8) == 0x100 && Pow2(16) == 0x1_0000
  {
    assert Pow2(8) == 0x100;
  }

  method Nlz(x0: uint32) returns (n: nat)
    requires x0 != 0
    ensures n == LeadingZeros(x0)
  {
    hide LeadingZeros, Pow2;
    SmallPowers();
    var x := x0;
    n := 0;
    if x <= 0x0000_FFFF {
      ShiftedBy(x, 16);
      n := n + 16;
      x := x * 0x1_0000;
    }
    if x <= 0x00FF_FFFF {
      ShiftedBy(x, 8);
      n := n + 8;
      x := x * 0x100;
    }
    if x <= 0x0FFF_FFFF {
      ShiftedBy(x, 4);
      n := n + 4;
      x := x * 0x10;
    }
    if x <= 0x3FFF_FFFF {
      ShiftedBy(x, 2);
      n := n + 2;
      x := x * 4;
    }
    TopBit(x);
    if x <= 0x7FFF_FFFF {
      n := n + 1;
    }
  }

  lemma TopBit(x: uint32)
    requires 0x3FFF_FFFF < x
    ensures LeadingZeros(x) == if x <= 0x7FFF_FFFF then 1 else 0
  {
  }

  // ---------------------------------------------------- unsigned division

  /** A divisor that fits in 32 bits: divide the two halves in turn. */
  function UdivByLow(n: uint64, d: uint64): (q: uint64)
    requires 0 < d < B
    ensures q == n / d
  {
    var n1 := Low32(n / B);
    var n0 := Low32(n);
    var d0 := Low32(d);
    HalvesTogether(n, d, n1, n0, d0);
    Low64(Divl(Low64(B * (n1 % d0) + n0), d0) + B * (n1 / d0))
  }

  lemma HalvesTogether(n: uint64, d: uint64, n1: uint32, n0: uint32, d0: uint32)
    requires 0 < d < B && n1 == Low32(n / B) && n0 == Low32(n) && d0 == Low32(d)
    ensures d0 != 0 && Low64(B * (n1 % d0) + n0) / B < d0
    ensures Low64(Low64(B * (n1 % d0) + n0) / d0 + B * (n1 / d0)) == n / d
  {
    HalvesOf(n, d, n1, n0, d0);
    hide Low32, Low64;
    var t, r := n1 / d0, n1 % d0;
    DivMod(n1, d0);
    SumOfHalves(n, n1, n0, d, t, r);
  }

  lemma HalvesOf(n: uint64, d: uint64, n1: uint32, n0: uint32, d0: uint32)
    requires d < B && n1 == Low32(n / B) && n0 == Low32(n) && d0 == Low32(d)
    ensures d0 == d && n == B * n1 + n0
  {
  }

  lemma DivMod(n: nat, d: nat)
    requires 0 < d
    ensures n == d * (n / d) + n % d && 0 <= n % d < d
  {
  }

  lemma HalfRemainder(x: nat, p: nat)
    requires 1 <= p
    ensures x % (2 * p) == 2 * (x / 2 % p) + x % 2
  {
    var q, r := x / 2 / p, x / 2 % p;
    assert x / 2 == p * q + r;
    assert x == 2 * p * q + (2 * r + x % 2);
    RemainderIs(x, 2 * p, q, 2 * r + x % 2);
  }

  lemma RemainderIs(x: nat, d: nat, q: nat, r: nat)
    requires r < d && x == d * q + r
    ensures x % d == r
  {
    assert q * d == d * q;
    QuotientIs(x, d, q);
    DivMod(x, d);
  }

  lemma SumOfHalves(n: uint64, n1: nat, n0: nat, d: nat, t: nat, r: nat)
    requires 0 < d < B && n == B * n1 + n0 && n0 < B && n1 == d * t + r && r < d
    ensures Low64(B * r + n0) / B < d && Low64(Low64(B * r + n0) / d + B * t) == n / d
  {
    SmallLow(B * r + n0, r, d);
    Rotated(B, d, t);
    DivisionOf(n, d, B * t, B * r + n0);
  }

  lemma DivisionOf(n: uint64, d: nat, t: nat, x: nat)
    requires 0 < d && n == d * t + x
    ensures Low64(x / d + t) == n / d
  {
    hide Low64;
    DivideSum(t, x, d);
    AtMost(n, d);
    InRange(n / d);
  }

  lemma InRange(x: int)
    requires 0 <= x < B64
    ensures Low64(x) == x
  {
  }

  lemma SmallLow(x: nat, r: nat, d: nat)
    requires r < d < B && B * r <= x < B * r + B
    ensures Low64(x) == x && x / B < d
  {
    assert x < B * d;
  }

  lemma DivideSum(t: nat, r: nat, d: nat)
    requires 0 < d
    ensures (d * t + r) / d == t + r / d
  {
    var q := r / d;
    QuotientIs(d * t + r, d, t + q);
  }

  /** The quotient is the one whose remainder is in range. */
  lemma QuotientIs(n: nat, d: nat, q: nat)
    requires 0 < d && q * d <= n < q * d + d
    ensures n / d == q
  {
    var k := n / d;
    assert k * d <= n < k * d + d;
    if k < q {
      ProductGrows(k + 1, q, d);
    } else if q < k {
      ProductGrows(q + 1, k, d);
    }
  }

  lemma AtMost(n: nat, d: nat)
    requires 0 < d
    ensures n / d <= n
  {
    ProductGrows(1, d, n / d);
  }

  function Shift(d: uint64): (s: nat)
    requires B <= d
    ensures s <= 31
  {
    DivisorTop(d);
    LeadingZeros(Low32(d / B))
  }

  /** The divisor's top 32 bits, shifted so that the first of them is set. */
  function Top(d: uint64): (v: uint32)
    requires B <= d
    ensures 0x8000_0000 <= v
  {
    DivisorTop(d);
    Low32(Low64(d * Pow2(Shift(d))) / B)
  }

  function Estimate(n: uint64, d: uint64): (q: nat)
    requires B <= d
  {
    hide *;
    NoTrap(n, Top(d));
    Divl(n / 2, Top(d)) / Pow2(31 - Shift(d))
  }

  function Corrected(n: uint64, d: uint64, q: nat): int {
    if Low64(n - Low64(Low64(q - 1) * d)) < d then q - 1 else q
  }

  /** A larger divisor: divide the top halves for an estimate, then correct it. */
  function UdivByHigh(n: uint64, d: uint64): (q: uint64)
    requires B <= d
    ensures q == n / d
  {
    hide *;
    if n < d then
      Below(n, d);
      0
    else
      HighQuotient(n, d);
      Corrected(n, d, Estimate(n, d))
  }

  /** `D` is the divisor cut off after its top 32 bits, as the estimate sees it. */
  ghost predicate CutOff(d: nat, v: nat, k: nat) {
    v * k <= d < v * k + k
  }

  lemma DivisorTop(d: uint64)
    requires B <= d
    ensures Low32(d / B) != 0 && LeadingZeros(Low32(d / B)) <= 31
    ensures var s := LeadingZeros(Low32(d / B));
            var v := Low32(Low64(d * Pow2(s)) / B);
            0x8000_0000 <= v && CutOff(d, v, 2 * Pow2(31 - s))
  {
    hide Low32, Low64, Pow2, LeadingZeros, CutOff;
    var d1 := Low32(d / B);
    TopHalf(d, d1);
    Normalized(d1);
    var s := LeadingZeros(d1);
    PowersOf31(s);
    var p, k := Pow2(s), 2 * Pow2(31 - s);
    assert p * k == 2 * (p * Pow2(31 - s)) == B;
    ShiftedDivisor(d, d1, p, k);
  }

  lemma PowersOf31(s: nat)
    requires s <= 31
    ensures Pow2(s) * Pow2(31 - s) == 0x8000_0000
  {
    PowersAdd(s, 31 - s);
    PowerOf31();
  }

  lemma TopHalf(d: uint64, d1: uint32)
    requires B <= d && d1 == Low32(d / B)
    ensures 0 < d1 && d1 * B <= d < d1 * B + B
  {
  }

  lemma ShiftedDivisor(d: uint64, d1: nat, p: nat, k: nat)
    requires d1 * B <= d < d1 * B + B && 0 < p && p * k == B && 0x8000_0000 <= d1 * p < B
    ensures var v := Low32(Low64(d * p) / B); 0x8000_0000 <= v && CutOff(d, v, k)
  {
    SmallerFactorStrict(d1, k, p);
    ProductGrows(d1 + 1, k, p);
    ProductGrows(d1 * B, d, p);
    StrictlyGrows(d, d1 * B + B, p);
    Rotated(d1, B, p);
    Rotated(d1 + 1, B, p);
    TopOf(d * p, d1 * p);
    hide Low32, Low64, CutOff;
    CutAt(d, Low32(Low64(d * p) / B), p, k);
  }

  lemma CutAt(d: nat, v: nat, p: nat, k: nat)
    requires 0 < p && p * k == B && v * B <= d * p < v * B + B
    ensures CutOff(d, v, k)
  {
    Rotated(v, p, k);
    assert v * k * p == v * (p * k);
    SmallerFactor(v * k, d, p);
    assert (v * k + k) * p == v * k * p + k * p;
    SmallerFactorStrict(d, v * k + k, p);
  }

  lemma Below(n: nat, d: nat)
    requires n < d
    ensures n / d == 0
  {
  }

  lemma StrictlyGrows(a: int, b: int, c: nat)
    requires a < b && 0 < c
    ensures a * c < b * c
  {
  }

  lemma SmallerFactor(a: int, b: int, c: nat)
    requires 0 < c && a * c <= b * c
    ensures a <= b
  {
    if b < a {
      StrictlyGrows(b, a, c);
    }
  }

  lemma SmallerFactorStrict(a: int, b: int, c: nat)
    requires 0 < c && a * c < b * c
    ensures a < b
  {
    if b <= a {
      ProductGrows(b, a, c);
    }
  }

  lemma TopOf(w: nat, low: nat)
    requires low * B <= w < B * B
    ensures var v := Low32(Low64(w) / B); low <= v && v * B <= w < v * B + B
  {
  }

  lemma NoTrap(n: uint64, v: uint32)
    requires 0x8000_0000 <= v
    ensures n / 2 < B64 && n / 2 / B < v
  {
  }

  /** Halving, dividing and shifting together divide by the cut-off divisor. */
  lemma EstimateIs(n: nat, v: nat, h: nat, q: nat)
    requires 0 < v && 0 < h && q == n / 2 / v / h
    ensures q * (v * (2 * h)) <= n < (q + 1) * (v * (2 * h))
  {
    var m := n / 2;
    var t := m / v;
    DivMod(m, v);
    DivMod(t, h);
    NestedBounds(n, m, t, v, h, q, m % v, t % h);
  }

  lemma NestedBounds(n: nat, m: nat, t: nat, v: nat, h: nat, q: nat, r: nat, r': nat)
    requires m == n / 2 && m == v * t + r && r < v && t == h * q + r' && r' < h
    ensures q * (v * (2 * h)) <= n < (q + 1) * (v * (2 * h))
  {
    Rearranged(q, v, h);
    Rearranged(q + 1, v, h);
    assert h * (q + 1) == h * q + h;
    ProductGrows(h * q, t, v);
    ProductGrows(t + 1, h * q + h, v);
    assert (t + 1) * v == v * t + v;
  }

  lemma Rearranged(q: int, v: int, h: int)
    ensures q * (v * (2 * h)) == 2 * ((h * q) * v)
  {
    assert v * (2 * h) == 2 * (v * h);
    Rotated(q, v, h);
  }

  /** The estimate is the quotient or one more, so the product does not overflow. */
  lemma EstimateClose(n: nat, d: nat, v: nat, k: nat, q: nat)
    requires n < B64 && B <= d <= n && CutOff(d, v, k) && 0x8000_0000 <= v && 2 <= k && k % 2 == 0
    requires q * (v * k) <= n < (q + 1) * (v * k)
    ensures 1 <= q && (q - 1) * d <= n < (q + 1) * d
  {
    var D := v * k;
    assert n < (q + 1) * D <= (q + 1) * d;
    assert 1 <= q by {
      assert D <= n < (q + 1) * D;
      SmallerFactorStrict(1, q + 1, D);
    }
    assert q * k * v == q * D <= n < 0x2_0000_0000 * 0x8000_0000 <= 0x2_0000_0000 * v;
    SmallerFactorStrict(q * k, 0x2_0000_0000, v);
    NotTooLarge(n, d, v, k, q, D);
  }

  lemma NotTooLarge(n: nat, d: nat, v: nat, k: nat, q: nat, D: nat)
    requires D == v * k && D <= d < D + k && 0x8000_0000 <= v && 2 <= k && k % 2 == 0
    requires 1 <= q && q * k < 0x2_0000_0000 && q * D <= n
    ensures (q - 1) * d <= n
  {
    assert (q - 1) * (k - 1) <= D by {
      if k != 2 {
        ProductGrows(4, k, q);
        ProductGrows(q - 1, v, k - 1);
      }
    }
    ProductGrows(d - D, k - 1, q - 1);
    assert (q - 1) * d == (q - 1) * D + (q - 1) * (d - D);
    assert (q - 1) * D + D == q * D;
  }

  lemma HighQuotient(n: uint64, d: uint64)
    requires B <= d <= n
    ensures 0 <= Corrected(n, d, Estimate(n, d)) == n / d < B64
  {
    hide Pow2, Low64, Low32, Corrected, LeadingZeros;
    DivisorTop(d);
    var v, h, q := Top(d), Pow2(31 - Shift(d)), Estimate(n, d);
    EstimateParts(n, d);
    EstimateIs(n, v, h, q);
    EstimateClose(n, d, v, 2 * h, q);
    QuotientSmall(n, v, h);
    CorrectedIs(n, d, q);
    AtMost(n, d);
  }

  lemma EstimateParts(n: uint64, d: uint64)
    requires B <= d
    ensures Estimate(n, d) == n / 2 / Top(d) / Pow2(31 - Shift(d))
  {
  }

  lemma QuotientSmall(n: nat, v: nat, h: nat)
    requires 0 < v && 0 < h
    ensures n / 2 / v / h <= n
  {
    AtMost(n / 2, v);
    AtMost(n / 2 / v, h);
  }

  lemma CorrectedIs(n: uint64, d: uint64, q: nat)
    requires 0 < d && 1 <= q < B64 && (q - 1) * d <= n < (q + 1) * d
    ensures Corrected(n, d, q) == n / d
  {
    hide Low64;
    InRange(q - 1);
    InRange((q - 1) * d);
    InRange(n - (q - 1) * d);
    if n - (q - 1) * d < d {
      QuotientIs(n, d, q - 1);
    } else {
      QuotientIs(n, d, q);
    }
  }

  function Udiv64(n: uint64, d: uint64): (q: uint64)
    requires d != 0
    ensures q == n / d
  {
    if d / B == 0 then UdivByLow(n, d) else UdivByHigh(n, d)
  }

  // ------------------------------------------ remainders and signed numbers

  /** The result type keeps 32 bits of the remainder. */
  function Umod64(n: uint64, d: uint64): uint32
    requires d != 0
  {
    Low32(Low64(n - Low64(d * Udiv64(n, d))))
  }

  lemma Umod64Keeps(n: uint64, d: uint64)
    requires d != 0
    ensures Umod64(n, d) == Low32(n % d)
  {
    hide Low64, Low32;
    DivMod(n, d);
    InRange(d * (n / d));
    InRange(n % d);
  }

  /** So the remainder is right for every dividend exactly up to divisor 2^32. */
  lemma Umod64IsExact(d: uint64)
    requires d != 0
    ensures (forall n: uint64 :: Umod64(n, d) == n % d) <==> d <= B
  {
    hide Umod64;
    if d <= B {
      forall n: uint64
        ensures Umod64(n, d) == n % d
      {
        Umod64Keeps(n, d);
        DivMod(n, d);
      }
    } else {
      Umod64Keeps(B, d);
      assert Umod64(B, d) != B % d;
    }
  }

  function Abs64(x: int64): uint64 {
    if x >= 0 then x else Low64(-(x as int))
  }

  function Sdiv64(n: int64, d: int64): int64
    requires d != 0
  {
    var q := Udiv64(Abs64(n), Abs64(d));
    if (n < 0) == (d < 0) then ToInt64(q) else ToInt64(-(ToInt64(q) as int))
  }

  function Smod64(n: int64, d: int64): int32
    requires d != 0
  {
    ToInt32(ToInt64(n - ToInt64(d * Sdiv64(n, d))))
  }

  function Magnitude(x: int): (m: nat) {
    if x < 0 then -x else x
  }

  /** `r` is the remainder of a division that truncates toward zero. */
  ghost predicate IsRemainder(n: int, d: int, r: int)
    requires d != 0
  {
    Magnitude(r) < Magnitude(d) && (r == 0 || (r < 0 <==> n < 0)) && exists q: int :: q * d + r == n
  }

  ghost predicate IsQuotient(n: int, d: int, q: int)
    requires d != 0
  {
    var r := n - q * d;
    Magnitude(r) < Magnitude(d) && (r == 0 || (r < 0 <==> n < 0))
  }

  const MIN64 := -0x8000_0000_0000_0000

  function Signed(n: int, d: int, k: int): int {
    if (n < 0) == (d < 0) then k else -k
  }

  function TrueQuotient(n: int, d: int): int
    requires d != 0
  {
    Signed(n, d, Magnitude(n) / Magnitude(d))
  }

  lemma SignedQuotient(n: int, d: int)
    requires d != 0
    ensures IsQuotient(n, d, TrueQuotient(n, d)) && Magnitude(TrueQuotient(n, d)) <= Magnitude(n)
    ensures Magnitude(TrueQuotient(n, d)) == Magnitude(n) ==> n == 0 || Magnitude(d) == 1
  {
    hide IsQuotient;
    var a, m := Magnitude(n), Magnitude(d);
    var k: int := a / m;
    DivMod(a, m);
    AtMost(a, m);
    FromMagnitudes(n, d, a, m, k);
  }

  lemma FromMagnitudes(n: int, d: int, a: int, m: int, k: int)
    requires d != 0 && a == Magnitude(n) && m == Magnitude(d) && 0 <= k && m * k <= a < m * k + m
    ensures IsQuotient(n, d, Signed(n, d, k))
    ensures k == a ==> n == 0 || m == 1
  {
    var q := Signed(n, d, k);
    assert q * d == if n < 0 then -(m * k) else m * k;
    if k == a && 2 <= m {
      ProductGrows(2, m, k);
    }
  }

  /** `sdiv64` truncates toward zero, except where the quotient does not exist in 64 bits. */
  lemma Sdiv64IsExact(n: int64, d: int64)
    requires d != 0
    ensures IsQuotient(n, d, Sdiv64(n, d)) <==> !(n == MIN64 && d == -1)
  {
    hide Sdiv64, TrueQuotient;
    SdivOf(n, d);
    SignedQuotient(n, d);
    if n == MIN64 && d == -1 {
      assert TrueQuotient(n, d) == -MIN64 by {
        MinQuotient();
      }
    }
  }

  lemma MinQuotient()
    ensures TrueQuotient(MIN64, -1) == -MIN64
  {
  }

  lemma SignedRange(x: int)
    requires MIN64 <= x <= -MIN64
    ensures ToInt64(x) == if x == -MIN64 then MIN64 else x
  {
  }

  lemma SdivOf(n: int64, d: int64)
    requires d != 0
    ensures var q := TrueQuotient(n, d);
            MIN64 <= q <= -MIN64 && Sdiv64(n, d) == (if q == -MIN64 then MIN64 else q) && (q == -MIN64 ==> n == MIN64 && d == -1)
  {
    hide ToInt64, TrueQuotient;
    SignedQuotient(n, d);
    assert Abs64(n) == Magnitude(n) && Abs64(d) == Magnitude(d);
    hide Low64;
    var k: int := Udiv64(Abs64(n), Abs64(d));
    assert TrueQuotient(n, d) == Signed(n, d, k) by {
      QuotientOfSigns(n, d, k);
    }
    SignedRange(k);
    SignedRange(-k);
    SignedRange(-(ToInt64(k) as int));
  }

  lemma QuotientOfSigns(n: int, d: int, k: int)
    requires d != 0 && k == Magnitude(n) / Magnitude(d)
    ensures TrueQuotient(n, d) == Signed(n, d, k)
  {
  }

  /** The remainder of the wrapping case is right all the same. */
  lemma Smod64Keeps(n: int64, d: int64) returns (r: int)
    requires d != 0
    ensures IsRemainder(n, d, r) && Smod64(n, d) == ToInt32(r)
  {
    hide Sdiv64, TrueQuotient, ToInt64, ToInt32;
    SdivOf(n, d);
    SignedQuotient(n, d);
    var q := TrueQuotient(n, d);
    r := n - q * d;
    assert q * d + r == n;
    SignedRange(r);
    if q == -MIN64 {
      WrappedRemainder();
    } else {
      SignedRange(d * q);
    }
  }

  lemma WrappedRemainder()
    ensures ToInt64(MIN64 - ToInt64(-1 * MIN64)) == 0
  {
  }

  lemma RemainderIsUnique(n: int, d: int, r: int, r': int)
    requires d != 0 && IsRemainder(n, d, r) && IsRemainder(n, d, r')
    ensures r == r'
  {
    var q: int :| q * d + r == n;
    var q': int :| q' * d + r' == n;
    Distributed(q, q', d);
    SameQuotient(d, q - q', r' - r);
  }

  lemma Distributed(a: int, b: int, d: int)
    ensures (a - b) * d == a * d - b * d
  {
  }

  lemma SameQuotient(d: int, k: int, r: int)
    requires k * d == r && Magnitude(r) < Magnitude(d)
    ensures k == 0
  {
    assert Magnitude(r) == Magnitude(k) * Magnitude(d);
    if k != 0 {
      ProductGrows(1, Magnitude(k), Magnitude(d));
    }
  }

  lemma Smod64IsExact(d: int64)
    requires d != 0
    ensures (forall n: int64 :: IsRemainder(n, d, Smod64(n, d))) <==> Magnitude(d) <= 0x8000_0000
  {
    hide Smod64, IsRemainder, ToInt32;
    if Magnitude(d) <= 0x8000_0000 {
      forall n: int64
        ensures IsRemainder(n, d, Smod64(n, d))
      {
        var r := Smod64Keeps(n, d);
        SmallRemainder(n, d, r);
      }
    } else {
      var r := Smod64Keeps(0x8000_0000, d);
      LostRemainder(d, r);
      assert !IsRemainder(0x8000_0000, d, Smod64(0x8000_0000, d));
    }
  }

  lemma SmallRemainder(n: int, d: int, r: int)
    requires d != 0 && Magnitude(d) <= 0x8000_0000 && IsRemainder(n, d, r)
    ensures ToInt32(r) == r
  {
  }

  lemma LostRemainder(d: int, r: int)
    requires 0x8000_0000 < Magnitude(d) && IsRemainder(0x8000_0000, d, r)
    ensures !IsRemainder(0x8000_0000, d, ToInt32(r))
  {
    assert 0 * d + 0x8000_0000 == 0x8000_0000;
    RemainderIsUnique(0x8000_0000, d, r, 0x8000_0000);
  }
}

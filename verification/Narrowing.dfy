/**
 The narrowing conversions of cpu/dequant.cpp as integer arithmetic on bit patterns:
 E4M3, fp16 and bf16 from float32, each shown to round to nearest with ties to even.
 */
module Narrowing {
  import opened Rounding

  const M23: nat := 0x80_0000          // 2^23, one float32 exponent step
  const INF32: nat := 0x7F80_0000      // magnitude pattern of infinity
  const SIGN32: nat := 0x8000_0000

  lemma Pow2Table()
    ensures Pow2(3) == 8 && Pow2(7) == 128 && Pow2(10) == 1024
    ensures Pow2(13) == 0x2000 && Pow2(16) == 0x1_0000 && Pow2(20) == 0x10_0000 && Pow2(23) == M23
  {
    assert Pow2(2) == 4;
    assert Pow2(3) == 8;
    Pow2Adds(3, 4); assert Pow2(4) == 16;
    Pow2Adds(3, 7); Pow2Adds(3, 10); Pow2Adds(3, 13); Pow2Adds(4, 16); Pow2Adds(3, 20);
  }

  // ---- a float32 pattern against a narrower grid ----

  /** The weight of one float32 mantissa step at exponent e. */
  function Weight(e: nat): (w: nat)
    ensures w >= 1
  {
    if e == 0 then 1 else Pow2(e - 1)
  }

  /** Dropping 23 - p mantissa bits and k exponent steps: what is kept is a pattern of the p-bit
      grid, and what is dropped is measured in the same weight as its distance to the next. */
  lemma Aligned(p: nat, k: nat, E: nat, e: nat, m: nat, d: nat, f: nat, rem: nat)
    requires p <= 23 && e == E + k && (E > 0 || k == 0) && d == Pow2(23 - p)
    requires m < M23 && m == f * d + rem && rem < d && f < Pow2(p)
    ensures Grid(23, e * M23 + m) == Grid(p, E * Pow2(p) + f) * Pow2(k + 23 - p) + rem * Weight(e)
    ensures Ulp(p, E * Pow2(p) + f) * Pow2(k + 23 - p) == d * Weight(e)
  {
    Pow2Table();
    hide Grid, Ulp, Pow2;
    GridAt(23, e, m);
    GridAt(p, E, f);
    if E > 0 {
      Pow2Adds(p, 23 - p);
      Pow2Adds(E - 1, k + 23 - p);
      Pow2Adds(e - 1, 23 - p);
      assert (E - 1) + (k + 23 - p) == (e - 1) + (23 - p) && p + (23 - p) == 23;
      Regroup(Pow2(p), f, d, rem, Pow2(e - 1), Pow2(E - 1), Pow2(k + 23 - p), M23);
    }
  }

  lemma Regroup(a: nat, f: nat, d: nat, rem: nat, w: nat, x: nat, y: nat, top: nat)
    requires x * y == w * d && top == a * d
    ensures (top + (f * d + rem)) * w == ((a + f) * x) * y + rem * w
    ensures x * y == d * w
  {
    calc {
      (top + (f * d + rem)) * w;
      ((a + f) * d + rem) * w;
      ((a + f) * d) * w + rem * w;
      { Associate(a + f, d, w); }
      (a + f) * (w * d) + rem * w;
      { Associate(a + f, x, y); }
      ((a + f) * x) * y + rem * w;
    }
  }

  lemma Associate(a: nat, b: nat, c: nat)
    ensures (a * b) * c == a * (b * c) == a * (c * b)
  {
  }

  /** Where a float32 falls between two neighbours of the narrower grid. */
  lemma Bracketed(p: nat, k: nat, b: nat, d: nat) returns (lo: nat, rem: nat, w: nat)
    requires p <= 23 && (k < b / M23 || k == 0) && d == Pow2(23 - p)
    ensures b >= k * M23 && w >= 1 && rem < d
    ensures (b - k * M23) / d == lo && (b - k * M23) % d == rem
    ensures Grid(23, b) == Scaled(p, k + 23 - p)(lo) + rem * w
    ensures Scaled(p, k + 23 - p)(lo + 1) == Scaled(p, k + 23 - p)(lo) + d * w
  {
    Pow2Table();
    hide Pow2, Grid, Ulp;
    var e, m := Divided(b, M23);
    var f: nat;
    f, rem := Divided(m, d);
    var E: nat := e - k;
    assert e * M23 == E * M23 + k * M23;
    Pow2Adds(p, 23 - p);
    FieldBound(f, d, rem, m, Pow2(p));
    Aligned(p, k, E, e, m, d, f, rem);
    lo, w := E * Pow2(p) + f, Weight(e);
    ShiftQuotient(E, Pow2(p), d, f, rem, b - k * M23);
    GridStep(p, lo);
    NextValue(Grid(p, lo), Ulp(p, lo), Pow2(k + 23 - p), d * w);
  }

  /** Rounding the bit pattern is rounding the value, saturating at `top`. */
  lemma ShiftNearest(p: nat, k: nat, b: nat, top: nat)
    requires p <= 23 && (k < b / M23 || k == 0)
    ensures b >= k * M23
    ensures var r := RneDiv(b - k * M23, Pow2(23 - p));
            Nearest(Scaled(p, k + 23 - p), top, Grid(23, b), if r <= top then r else top)
  {
    hide Pow2, Grid, Ulp, Scaled;
    var d, grid := Pow2(23 - p), Scaled(p, k + 23 - p);
    var lo, rem, w := Bracketed(p, k, b, d);
    ScaledIncreases(p, k + 23 - p);
    SameSide(rem, d, w);
    var r := RneDiv(b - k * M23, d);
    NearestOfBracket(grid, top, Grid(23, b), lo, if r <= top then r else top);
  }

  lemma FieldBound(f: nat, d: nat, rem: nat, m: nat, P: nat)
    requires m == f * d + rem && m < P * d && d > 0
    ensures f < P
  {
    if P <= f { MulLe(P, f, d); }
  }

  lemma ShiftQuotient(E: nat, P: nat, d: nat, f: nat, rem: nat, n: nat)
    requires rem < d && n == E * (P * d) + (f * d + rem)
    ensures n / d == E * P + f && n % d == rem
  {
    assert n == (E * P + f) * d + rem;
    DivModIs(n, d, E * P + f, rem);
  }

  lemma NextValue(g: nat, u: nat, s: nat, step: nat)
    requires u * s == step
    ensures (g + u) * s == g * s + step
  {
  }

  lemma SameSide(rem: nat, d: nat, w: nat)
    requires w >= 1 && rem < d
    ensures rem * w < d * w
    ensures 2 * (rem * w) > d * w <==> 2 * rem > d
    ensures 2 * (rem * w) == d * w <==> 2 * rem == d
  {
    MulLess(rem, d, w);
    assert 2 * (rem * w) == (2 * rem) * w;
    if 2 * rem > d { MulLess(d, 2 * rem, w); } else if 2 * rem < d { MulLess(2 * rem, d, w); }
  }
}

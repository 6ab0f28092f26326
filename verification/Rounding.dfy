/**
 Binary floating-point grids over the integers, and rounding to nearest with ties to even.

 A format with p mantissa bits lists its non-negative values in order of their bit patterns;
 `Grid(p, c)` is the value of pattern c in units of the format's smallest subnormal. A finite
 float32 is `Grid(23, b)` units of 2^-149.
 */
module Rounding {

  function Pow2(n: nat): (r: nat)
    ensures r >= 1
  {
    if n == 0 then 1 else 2 * Pow2(n - 1)
  }

  lemma {:induction false} Pow2Adds(a: nat, b: nat)
    ensures Pow2(a + b) == Pow2(a) * Pow2(b)
  {
    if a > 0 { Pow2Adds(a - 1, b); }
  }

  /** Bit pattern c with p mantissa bits: subnormal below 2^p, else (2^p + mantissa) * 2^(exponent - 1). */
  function Grid(p: nat, c: nat): nat {
    var m := Pow2(p);
    if c < m then c else (m + c % m) * Pow2(c / m - 1)
  }

  /** Distance from pattern c to the next one. */
  function Ulp(p: nat, c: nat): (r: nat)
    ensures r >= 1
  {
    var m := Pow2(p);
    if c < m then 1 else Pow2(c / m - 1)
  }

  lemma MulLe(a: nat, b: nat, m: nat)
    requires a <= b
    ensures a * m <= b * m
  {
  }

  lemma MulLess(a: nat, b: nat, m: nat)
    requires a < b && m >= 1
    ensures a * m < b * m
  {
    MulLe(a + 1, b, m);
  }

  /** Quotient and remainder are what the definition says. */
  lemma DivModIs(c: nat, m: nat, q: nat, r: nat)
    requires m > 0 && c == q * m + r && r < m
    ensures c / m == q && c % m == r
  {
    var q', r' := c / m, c % m;
    assert c == q' * m + r';
    if q' < q { MulLe(q' + 1, q, m); } else if q < q' { MulLe(q + 1, q', m); }
  }

  lemma Divided(c: nat, m: nat) returns (q: nat, r: nat)
    requires m > 0
    ensures c == q * m + r && r < m && q == c / m && r == c % m
  {
    q, r := c / m, c % m;
  }

  lemma GridAt(p: nat, e: nat, f: nat)
    requires f < Pow2(p)
    ensures Grid(p, e * Pow2(p) + f) == if e == 0 then f else (Pow2(p) + f) * Pow2(e - 1)
    ensures Ulp(p, e * Pow2(p) + f) == if e == 0 then 1 else Pow2(e - 1)
  {
    var m := Pow2(p);
    var c := e * m + f;
    DivModIs(c, m, e, f);
    if e > 0 { MulLe(1, e, m); }
    GridBy(p, c, e, f);
  }

  lemma GridBy(p: nat, c: nat, e: nat, f: nat)
    requires c / Pow2(p) == e && c % Pow2(p) == f && (e == 0 <==> c < Pow2(p)) && (e == 0 ==> c == f)
    ensures Grid(p, c) == if e == 0 then f else (Pow2(p) + f) * Pow2(e - 1)
    ensures Ulp(p, c) == if e == 0 then 1 else Pow2(e - 1)
  {
  }

  lemma GridStepAt(p: nat, e: nat, f: nat)
    requires f < Pow2(p)
    ensures Grid(p, e * Pow2(p) + f + 1) == Grid(p, e * Pow2(p) + f) + Ulp(p, e * Pow2(p) + f)
  {
    hide Grid, Ulp;
    var m := Pow2(p);
    GridAt(p, e, f);
    if f + 1 < m {
      GridAt(p, e, f + 1);
      if e > 0 { OneMore(m + f, Pow2(e - 1)); }
    } else {
      OneMore(e, m);
      GridAt(p, e + 1, 0);
      if e > 0 { Doubles(m, Pow2(e - 1)); }
    }
  }

  lemma GridStep(p: nat, c: nat)
    ensures Grid(p, c + 1) == Grid(p, c) + Ulp(p, c)
  {
    hide Grid, Ulp, Pow2;
    var m := Pow2(p);
    var q, r := Divided(c, m);
    assert q * m == q * Pow2(p);
    GridStepAt(p, q, r);
  }

  lemma OneMore(a: nat, m: nat)
    ensures (a + 1) * m == a * m + m
  {
  }

  lemma Doubles(m: nat, w: nat)
    requires m >= 1
    ensures (m + 0) * (2 * w) == (m + (m - 1)) * w + w
  {
    OneMore(m + (m - 1), w);
    assert m * (2 * w) == (m + m) * w;
  }

  // ---- nearest value, ties to even ----

  function Dist(a: int, b: int): nat { if a <= b then b - a else a - b }

  ghost predicate Increasing(grid: nat -> nat) {
    forall c, d :: c < d ==> grid(c) < grid(d)
  }

  /** Among the patterns 0..top, c has the value nearest to n; of two equally near, the even one. */
  ghost predicate Nearest(grid: nat -> nat, top: nat, n: nat, c: nat) {
    && c <= top
    && forall d :: 0 <= d <= top && d != c ==>
         Dist(n, grid(c)) < Dist(n, grid(d)) || (Dist(n, grid(c)) == Dist(n, grid(d)) && c % 2 == 0)
  }

  /** Rounding the quotient n / d to nearest, ties to even. */
  function RneDiv(n: nat, d: nat): nat
    requires d > 0
  {
    var q, r := n / d, n % d;
    if 2 * r > d || (2 * r == d && q % 2 == 1) then q + 1 else q
  }

  /** Rounding between two neighbours is rounding onto the whole grid, saturating at the top. */
  lemma NearestOfBracket(grid: nat -> nat, top: nat, n: nat, lo: nat, c: nat)
    requires Increasing(grid) && grid(lo) <= n
    requires lo < top ==> n <= grid(lo + 1)
    requires var r, d := n - grid(lo), grid(lo + 1) - grid(lo);
             lo < top ==> c == if 2 * r > d || (2 * r == d && lo % 2 == 1) then lo + 1 else lo
    requires lo >= top ==> c == top
    ensures Nearest(grid, top, n, c)
  {
    forall d | 0 <= d <= top && d != c
      ensures Dist(n, grid(c)) < Dist(n, grid(d)) || (Dist(n, grid(c)) == Dist(n, grid(d)) && c % 2 == 0)
    {
      if lo >= top {
        assert grid(d) < grid(top);
        if top < lo { assert grid(top) < grid(lo); }
      } else if d < lo {
        assert grid(d) < grid(lo);
      } else if d > lo + 1 {
        assert grid(lo + 1) < grid(d);
      }
    }
  }

  /** The same where the lower neighbour is found by dividing, an even number of patterns up. */
  lemma NearestByQuotient(grid: nat -> nat, top: nat, n: nat, d: nat, base: nat, c: nat)
    requires Increasing(grid) && d > 0 && base % 2 == 0
    requires grid(base + n / d) + n % d == n && grid(base + n / d + 1) == grid(base + n / d) + d
    requires var r := base + RneDiv(n, d); c == if r <= top then r else top
    ensures Nearest(grid, top, n, c)
  {
    hide Increasing, Nearest;
    NearestOfBracket(grid, top, n, base + n / d, c);
  }

  lemma MulCancel(a: nat, b: nat, m: nat)
    requires a * m < b * m
    ensures a < b
  {
    if b <= a { MulLe(b, a, m); }
  }

  lemma QuotientBounds(n: nat, d: nat, lo: nat, hi: nat)
    requires d > 0 && lo * d <= n < hi * d
    ensures lo <= n / d < hi
  {
    var q, r := Divided(n, d);
    OneMore(q, d);
    MulCancel(lo, q + 1, d);
    MulCancel(q, hi, d);
  }

  /** A value on the grid is returned unchanged. */
  lemma ExactStays(grid: nat -> nat, top: nat, h: nat, c: nat)
    requires Increasing(grid) && h <= top && Nearest(grid, top, grid(h), c)
    ensures c == h
  {
    assert c != h ==> grid(c) != grid(h);
  }

  /** Rounding to nearest is monotone, and it is a function of the value. */
  lemma NearestMonotone(grid: nat -> nat, top: nat, n: nat, n': nat, c: nat, c': nat)
    requires Increasing(grid) && Nearest(grid, top, n, c) && Nearest(grid, top, n', c') && n <= n'
    ensures c <= c'
  {
    // were c' < c, both inputs would sit on the midpoint, where only neighbours can tie
    assert c' < c ==> grid(c') < grid(c);
    var next: nat := c' + 1;
    assert grid(c') < grid(next);
    assert next < c ==> grid(next) < grid(c);
  }

  // ---- the grid of a narrow format inside float32 ----

  /** Pattern values of a p-bit format, in units finer by 2^u. */
  function Scaled(p: nat, u: nat): nat -> nat {
    c => Grid(p, c) * Pow2(u)
  }

  lemma {:induction false} GridIncreases(p: nat, c: nat, d: nat)
    requires c < d
    ensures Grid(p, c) < Grid(p, d)
    decreases d
  {
    GridStep(p, d - 1);
    if c < d - 1 { GridIncreases(p, c, d - 1); }
  }

  lemma ScaledIncreases(p: nat, u: nat)
    ensures Increasing(Scaled(p, u))
  {
    forall c: nat, d: nat | c < d ensures Scaled(p, u)(c) < Scaled(p, u)(d) {
      GridIncreases(p, c, d);
      MulLess(Grid(p, c), Grid(p, d), Pow2(u));
    }
  }
}

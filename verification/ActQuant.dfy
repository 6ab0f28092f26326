/**
 Activation quantisation (cpu/dequant.cpp): a power-of-two scale per block and E4M3 codes.

 Magnitudes are counted in units of 2^-149, so every float32 is an integer; a scale 2^s is
 carried as T = s + 149, which makes the value 448 * 2^s the integer 448 * 2^T.
 */
module ActQuant {
  import opened Rounding
  import opened Narrowing
  import opened Formats

  const FLOOR_BITS: nat := 0x38D1_B717     // 1e-4f
  const RECIPROCAL: nat := 9586981         // 1.0f / 448.0f is this times 2^-32

  /** The largest E4M3 magnitude at scale T. */
  function Top(T: nat): nat { 448 * Pow2(T) }

  /** T is the least scale at which n needs no clamping. */
  ghost predicate LeastScale(n: nat, T: nat) {
    n <= Top(T) && (T > 0 ==> Top(T - 1) < n)
  }

  lemma LeastScaleUnique(n: nat, T: nat, T': nat)
    requires LeastScale(n, T) && LeastScale(n, T')
    ensures T == T'
  {
    if T < T' { PowerAtLeast(T, T' - 1); } else if T' < T { PowerAtLeast(T', T - 1); }
  }

  // ---- fp8_round_scale ----

  /** The float32 product v * (1/448): its exponent field, and whether its mantissa is zero. */
  function Product(b: nat): (nat, bool)
    requires FLOOR_BITS <= b < INF32
  {
    var e, q := b / M23, (M23 + b % M23) * RECIPROCAL;
    // 24 significant bits are kept, rounding to nearest even; a carry bumps the exponent
    var (s, field) := if q < 0x8000_0000_0000 then (RneDiv(q, 0x80_0000), e - 9) else (RneDiv(q, 0x100_0000), e - 8);
    if s == 0x100_0000 then (field + 1, true) else (field, s == 0x80_0000)
  }

  /** `fp8_round_scale`: 2^ceil(log2 .) read off the exponent field of the floored product. */
  function RoundScale(amax: nat): (T: nat)
    requires amax < INF32
  {
    var b := if amax < FLOOR_BITS then FLOOR_BITS else amax;
    var (field, exact) := Product(b);
    field - 127 + (if exact then 0 else 1) + 149
  }

  lemma ProductScale(b: nat)
    requires FLOOR_BITS <= b < INF32
    ensures RoundScale(b) == b / M23 + (if M23 + b % M23 <= 7 * 0x20_0000 then 14 else 15)
  {
  }

  lemma PowerOver(e: nat, k: nat, w: nat)
    requires e >= 1 && 13 <= k <= 15 && w == Pow2(e - 1)
    ensures Top(e + k) == (7 * (if k == 13 then 0x10_0000 else if k == 14 then 0x20_0000 else 0x40_0000)) * w
  {
    Pow2Table();
    Pow2Adds(k + 1, e - 1);
    Pow2Adds(3, 13);
    assert Pow2(14) == 2 * Pow2(13) && Pow2(15) == 2 * Pow2(14) && Pow2(16) == 2 * Pow2(15);
  }

  lemma LeastAt(e: nat, M: nat, w: nat)
    requires e >= 1 && M23 <= M < 2 * M23 && w == Pow2(e - 1)
    ensures LeastScale(M * w, e + (if M <= 7 * 0x20_0000 then 14 else 15))
  {
    PowerOver(e, 13, w); PowerOver(e, 14, w); PowerOver(e, 15, w);
    hide Top, Pow2;
    if M <= 7 * 0x20_0000 {
      MulLe(M, 7 * 0x20_0000, w);
      MulLess(7 * 0x10_0000, M, w);
    } else {
      MulLe(M, 7 * 0x40_0000, w);
      MulLess(7 * 0x20_0000, M, w);
    }
  }

  /** The bit trick, with its rounded reciprocal, is the exact rule: the least power of two that is at
      least max(amax, 1e-4) / 448. */
  lemma RoundScaleIsLeast(amax: nat)
    requires amax < INF32
    ensures LeastScale(Grid(23, if amax < FLOOR_BITS then FLOOR_BITS else amax), RoundScale(amax))
  {
    var b := if amax < FLOOR_BITS then FLOOR_BITS else amax;
    Pow2Table();
    ProductScale(b);
    hide Grid, Pow2, Product, LeastScale;
    var e, m := Divided(b, M23);
    GridAt(23, e, m);
    LeastAt(e, M23 + m, Pow2(e - 1));
  }

  // ---- codes ----

  /** E4M3 code of the value n / 2^T in units of one: what the encoder does, read off the exact value.
      Below 2^-6 it rounds multiples of 2^-9; above, it keeps three bits after the leading one. */
  function Code(n: nat, T: nat): nat
    requires T >= 9
  {
    if n < 8 * Pow2(T - 9) then RneDiv(n, Pow2(T - 9))
    else
      var t := TopBit(n);
      if t < T - 6 then 0
      else
        var c := 8 * (t - (T - 6)) + RneDiv(n, Pow2(t - 3));
        if c <= FP8_TOP then c else FP8_TOP
  }

  /** Values of the E4M3 codes at scale T. */
  function CodeGrid(T: nat): nat -> nat
    requires T >= 9
  {
    Scaled(3, T - 9)
  }

  lemma LeadingBit(n: nat, t: nat, s: nat)
    requires n >= Pow2(s) && n < Pow2(t + 1)
    ensures s <= t
  {
    if t < s { PowerAtLeast(t + 1, s); }
  }

  lemma EighthsOf(t: nat, k: nat, T: nat, q: nat, d: nat)
    requires T >= 9 && t == k + T - 6 && 8 <= q < 16 && d == Pow2(t - 3)
    ensures CodeGrid(T)(8 * k + q) == q * d
    ensures CodeGrid(T)(8 * k + q + 1) == q * d + d
  {
    Pow2Table();
    hide Grid, Ulp, Pow2;
    GridAt(3, k + 1, q - 8);
    GridStep(3, 8 * k + q);
    Pow2Adds(k, T - 9);
    assert k + (T - 9) == t - 3;
    Associate(q, Pow2(k), Pow2(T - 9));
    NextValue(Grid(3, 8 * k + q), Ulp(3, 8 * k + q), Pow2(T - 9), d);
  }

  lemma LeadingQuotient(n: nat, t: nat, d: nat)
    requires t >= 3 && d == Pow2(t - 3) && Pow2(t) <= n < Pow2(t + 1)
    ensures 8 <= n / d < 16
  {
    Pow2Table();
    Pow2Adds(3, t - 3);
    Pow2Adds(1, t);
    PowOne();
    hide Pow2;
    QuotientBounds(n, d, 8, 16);
  }

  lemma NormalCode(n: nat, T: nat, t: nat)
    requires T >= 9 && t >= T - 6 && Pow2(t) <= n < Pow2(t + 1)
    ensures var c := 8 * (t - (T - 6)) + RneDiv(n, Pow2(t - 3));
            Nearest(CodeGrid(T), FP8_TOP, n, if c <= FP8_TOP then c else FP8_TOP)
  {
    hide Pow2, CodeGrid;
    var k, d := t - (T - 6), Pow2(t - 3);
    LeadingQuotient(n, t, d);
    var q, r := Divided(n, d);
    EighthsOf(t, k, T, q, d);
    CodesIncrease(T);
    hide RneDiv;
    var c := 8 * k + RneDiv(n, d);
    NearestByQuotient(CodeGrid(T), FP8_TOP, n, d, 8 * k, if c <= FP8_TOP then c else FP8_TOP);
  }

  lemma CodesIncrease(T: nat)
    requires T >= 9
    ensures Increasing(CodeGrid(T))
  {
    ScaledIncreases(3, T - 9);
  }

  /** The code of a value is the nearest one, ties to even, saturating at 448. */
  lemma CodeNearest(n: nat, T: nat)
    requires T >= 9
    ensures Nearest(CodeGrid(T), FP8_TOP, n, Code(n, T))
  {
    Pow2Table();
    Pow2Adds(3, T - 9);
    assert 3 + (T - 9) == T - 6;
    if n < 8 * Pow2(T - 9) {
      SubnormalNearest(3, T - 9, n, FP8_TOP);
    } else {
      hide Pow2, TopBit;
      var t := TopBit(n);
      LeadingBit(n, t, T - 6);
      NormalCode(n, T, t);
    }
  }

  lemma NearestUnique(grid: nat -> nat, top: nat, n: nat, c: nat, d: nat)
    requires Increasing(grid) && Nearest(grid, top, n, c) && Nearest(grid, top, n, d)
    ensures c == d
  {
    NearestMonotone(grid, top, n, n, c, d);
    NearestMonotone(grid, top, n, n, d, c);
  }

  /** At scale one the code of a float32 is what `fp8_encode_rn` returns for its pattern. */
  lemma CodeIsEncoder(b: nat)
    requires b < SIGN32
    ensures Code(Grid(23, b), 149) == Fp8Mag(b)
  {
    hide Grid, Pow2, Fp8Mag, Code;
    CodeNearest(Grid(23, b), 149);
    Fp8Nearest(b);
    CodesIncrease(149);
    NearestUnique(CodeGrid(149), FP8_TOP, Grid(23, b), Code(Grid(23, b), 149), Fp8Mag(b));
  }

  // ---- error bound ----

  lemma HalfGap(grid: nat -> nat, top: nat, n: nat, lo: nat, d: nat, c: nat)
    requires Nearest(grid, top, n, c) && lo < top
    requires grid(lo) <= n <= grid(lo) + d && grid(lo + 1) == grid(lo) + d
    ensures 2 * Dist(n, grid(c)) <= d
  {
    var hi: nat := lo + 1;
    assert c != lo ==> Dist(n, grid(c)) <= Dist(n, grid(lo));
    assert c != hi ==> Dist(n, grid(c)) <= Dist(n, grid(hi));
  }

  lemma TopIsLast(T: nat)
    requires T >= 9
    ensures CodeGrid(T)(FP8_TOP) == Top(T)
  {
    Pow2Table();
    Pow2Adds(9, T - 9);
    Pow2Adds(3, 6); Pow2Adds(3, 3); Pow2Adds(3, 9); Pow2Adds(3, 10); Pow2Adds(1, 13); PowOne();
    GridAt(3, 15, 6);
    assert Pow2(14) == 2 * Pow2(13);
    assert Grid(3, FP8_TOP) == 14 * Pow2(14);
  }

  /** Without clamping, the decoded value is within 1/16 of the magnitude, or within scale/1024 of it
      near zero. */
  lemma ErrorBound(n: nat, T: nat)
    requires T >= 9 && n <= Top(T)
    ensures 16 * Dist(n, CodeGrid(T)(Code(n, T))) <= n || 16 * Dist(n, CodeGrid(T)(Code(n, T))) <= Pow2(T - 6)
  {
    CodeNearest(n, T);
    Pow2Table();
    Pow2Adds(3, T - 9);
    assert 3 + (T - 9) == T - 6;
    var c := Code(n, T);
    if n < 8 * Pow2(T - 9) {
      hide Pow2, Code, Grid;
      var d := Pow2(T - 9);
      var lo, r := Divided(n, d);
      FieldBound(lo, d, r, n, 8);
      SmallCodes(T, lo, d);
      HalfGap(CodeGrid(T), FP8_TOP, n, lo, d, c);
    } else {
      hide Pow2, Code, Grid, TopBit;
      var t := TopBit(n);
      LeadingBit(n, t, T - 6);
      var k, d := t - (T - 6), Pow2(t - 3);
      LeadingQuotient(n, t, d);
      var q, r := Divided(n, d);
      EighthsOf(t, k, T, q, d);
      TopIsLast(T);
      CodesIncrease(T);
      MulLe(8, q, d);
      NormalError(CodeGrid(T), n, 8 * k + q, d, c);
    }
  }

  lemma SmallCodes(T: nat, lo: nat, d: nat)
    requires T >= 9 && lo < 8 && d == Pow2(T - 9)
    ensures CodeGrid(T)(lo) == lo * d && CodeGrid(T)(lo + 1) == lo * d + d
  {
    Pow2Table();
    PowerOnGrid(3);
    OneMore(lo, d);
  }

  lemma NormalError(grid: nat -> nat, n: nat, lo: nat, d: nat, c: nat)
    requires Increasing(grid) && Nearest(grid, FP8_TOP, n, c) && n <= grid(FP8_TOP)
    requires grid(lo) <= n <= grid(lo) + d && grid(lo + 1) == grid(lo) + d && 8 * d <= n
    ensures 16 * Dist(n, grid(c)) <= n
  {
    if lo < FP8_TOP {
      HalfGap(grid, FP8_TOP, n, lo, d, c);
    } else {
      assert FP8_TOP < lo ==> grid(FP8_TOP) < grid(lo);
      assert n == grid(FP8_TOP);
      ExactStays(grid, FP8_TOP, FP8_TOP, c);
    }
  }

  // ---- requantising a dequantised block ----

  /** The code of twice the value. */
  function Double(c: nat): nat { if c < 8 then 2 * c else c + 8 }

  lemma DoubleValue(c: nat)
    ensures Grid(3, Double(c)) == 2 * Grid(3, c)
  {
    Pow2Table();
    hide Grid, Pow2;
    var e, f := Divided(c, 8);
    GridAt(3, e, f);
    if e > 0 {
      GridAt(3, e + 1, f);
      Pow2Adds(1, e - 1);
      PowOne();
      Associate(8 + f, 2, Pow2(e - 1));
    } else {
      if 2 * f < 8 { GridAt(3, 0, 2 * f); } else { GridAt(3, 1, 2 * f - 8); Pow2Zero(); }
    }
  }

  lemma Pow2Zero() ensures Pow2(0) == 1 {}

  lemma BelowTop(grid: nat -> nat, c: nat)
    requires Increasing(grid) && grid(c) <= grid(FP8_TOP)
    ensures c <= FP8_TOP
  {
    assert FP8_TOP < c ==> grid(FP8_TOP) < grid(c);
  }

  /** A decoded value survives requantisation, at the same scale and at half of it. */
  lemma Requantised(c: nat, T: nat, T': nat)
    requires T' >= 9 && T' <= T <= T' + 1 && c <= FP8_TOP && CodeGrid(T)(c) <= Top(T')
    ensures CodeGrid(T')(Code(CodeGrid(T)(c), T')) == CodeGrid(T)(c)
  {
    var n, h := CodeGrid(T)(c), if T == T' then c else Double(c);
    DoubleValue(c);
    assert CodeGrid(T')(h) == n by {
      if T == T' + 1 {
        assert Pow2(T - 9) == 2 * Pow2(T' - 9);
        Associate(Grid(3, c), 2, Pow2(T' - 9));
      }
    }
    hide CodeGrid, Grid, Pow2, Code;
    TopIsLast(T');
    CodesIncrease(T');
    BelowTop(CodeGrid(T'), h);
    CodeNearest(n, T');
    ExactStays(CodeGrid(T'), FP8_TOP, h, Code(n, T'));
  }

  /** The largest of a block of magnitudes, or the floor. */
  function AMax(ns: seq<nat>, floor: nat): nat {
    if ns == [] then floor
    else
      var m := AMax(ns[..|ns|-1], floor);
      if ns[|ns|-1] > m then ns[|ns|-1] else m
  }

  lemma {:induction false} AMaxCovers(ns: seq<nat>, floor: nat, i: nat)
    ensures AMax(ns, floor) >= floor
    ensures i < |ns| ==> AMax(ns, floor) >= ns[i]
  {
    if ns != [] { AMaxCovers(ns[..|ns|-1], floor, i); }
  }

  /** The maximum is the floor or one of the block. */
  lemma {:induction false} AMaxAttained(ns: seq<nat>, floor: nat) returns (i: nat)
    ensures AMax(ns, floor) == floor || (i < |ns| && AMax(ns, floor) == ns[i])
  {
    i := 0;
    if ns != [] {
      i := AMaxAttained(ns[..|ns|-1], floor);
      if AMax(ns, floor) == ns[|ns|-1] { i := |ns| - 1; }
    }
  }

  /** What a magnitude becomes when it is encoded and decoded again. */
  function DecodedOne(n: nat, T: nat): nat
    requires T >= 9
  {
    CodeGrid(T)(Code(n, T))
  }

  function Decoded(ns: seq<nat>, T: nat): (ds: seq<nat>)
    requires T >= 9
    ensures |ds| == |ns| && forall i :: 0 <= i < |ns| ==> ds[i] == DecodedOne(ns[i], T)
  {
    if ns == [] then [] else Decoded(ns[..|ns|-1], T) + [DecodedOne(ns[|ns|-1], T)]
  }

  lemma TopLess(a: nat, b: nat)
    requires a < b
    ensures Top(a) < Top(b)
  {
    Pow2Less(a, b);
  }

  lemma TopCancel(a: nat, b: nat)
    requires Top(a) < Top(b)
    ensures a < b
  {
    if b <= a { PowerAtLeast(b, a); }
  }

  /** A decoded value never exceeds the top of its scale, and is at least half of it when the input was. */
  lemma DecodedRange(n: nat, T: nat)
    requires T >= 10
    ensures Code(n, T) <= FP8_TOP && CodeGrid(T)(Code(n, T)) <= Top(T)
    ensures n >= Top(T - 1) ==> CodeGrid(T)(Code(n, T)) >= Top(T - 1)
  {
    CodeNearest(n, T);
    CodesIncrease(T);
    TopIsLast(T);
    TopIsLast(T - 1);
    var grid, c, half: nat := CodeGrid(T), Code(n, T), FP8_TOP - 8;
    assert c < FP8_TOP ==> grid(c) < grid(FP8_TOP);
    DoubleValue(half);
    assert grid(half) == Top(T - 1) by {
      assert Pow2(T - 9) == 2 * Pow2(T - 10);
      Associate(Grid(3, half), 2, Pow2(T - 10));
    }
    hide Code, CodeGrid, Grid, Pow2;
    assert c < half ==> grid(c) < grid(half);
  }

  lemma ScaleNotAbove(ns: seq<nat>, floor: nat, T: nat, T': nat)
    requires T >= 10 && LeastScale(AMax(ns, floor), T) && LeastScale(AMax(Decoded(ns, T), floor), T')
    ensures T' <= T
  {
    var ds := Decoded(ns, T);
    hide Code, CodeGrid, Pow2, Top, AMax, Decoded;
    var j := AMaxAttained(ds, floor);
    AMaxCovers(ns, floor, 0);
    if AMax(ds, floor) != floor { DecodedRange(ns[j], T); }
    assert AMax(ds, floor) <= Top(T);
    if T' > 0 { TopCancel(T' - 1, T); }
  }

  lemma ScaleNotBelow(ns: seq<nat>, floor: nat, T: nat, T': nat)
    requires T >= 10 && LeastScale(AMax(ns, floor), T) && LeastScale(AMax(Decoded(ns, T), floor), T')
    ensures T <= T' + 1
  {
    var a, ds := AMax(ns, floor), Decoded(ns, T);
    hide Code, CodeGrid, Pow2, Top, AMax, Decoded;
    assert Top(T - 1) < a && AMax(ds, floor) <= Top(T');
    hide LeastScale;
    var i := AMaxAttained(ns, floor);
    if a == floor {
      AMaxCovers(ds, floor, 0);
      TopCancel(T - 1, T');
    } else {
      DecodedRange(ns[i], T);
      assert ds[i] == DecodedOne(ns[i], T) >= Top(T - 1);
      AMaxCovers(ds, floor, i);
      TopLess(T - 2, T - 1);
      TopCancel(T - 2, T');
    }
  }

  /** The scale of a decoded block is the block's scale, or half of it. */
  lemma ScaleKept(ns: seq<nat>, floor: nat, T: nat, T': nat)
    requires T >= 10 && LeastScale(AMax(ns, floor), T) && LeastScale(AMax(Decoded(ns, T), floor), T')
    ensures T' <= T <= T' + 1
  {
    ScaleNotAbove(ns, floor, T, T');
    ScaleNotBelow(ns, floor, T, T');
  }

  /** Quantisation is a projection: requantising a decoded block returns the same values, even when
      the scale halves. */
  lemma QuantisationIsProjection(ns: seq<nat>, floor: nat, T: nat, T': nat)
    requires T >= 10 && LeastScale(AMax(ns, floor), T) && LeastScale(AMax(Decoded(ns, T), floor), T')
    ensures T' >= 9 && Decoded(Decoded(ns, T), T') == Decoded(ns, T)
  {
    ScaleKept(ns, floor, T, T');
    var ds := Decoded(ns, T);
    hide Code, CodeGrid, Grid, Pow2, Top, AMax;
    forall i | 0 <= i < |ds| ensures DecodedOne(ds[i], T') == ds[i] {
      assert ds[i] == DecodedOne(ns[i], T);
      DecodedRange(ns[i], T);
      AMaxCovers(ds, floor, i);
      Requantised(Code(ns[i], T), T, T');
    }
  }
}

/**
 `act_quant_block` of cpu/dequant.cpp as a loop over float32 patterns, with the float products
 it actually forms.
 */
module ActQuantBlock {
  import opened Rounding
  import opened Narrowing
  import opened Formats
  import opened ActQuant

  // ---- the float32 product v * (1 / 2^s) ----

  /** v * inv in units of 2^-149, rounded where it falls below the normal range. */
  function Quotient(n: nat, T: nat): nat {
    if T <= 149 then n * Pow2(149 - T) else RneDiv(n, Pow2(T - 149))
  }

  lemma NearestScales(grid: nat -> nat, fine: nat -> nat, top: nat, n: nat, w: nat, c: nat)
    requires w > 0 && Nearest(grid, top, n, c) && forall d :: fine(d) == grid(d) * w
    ensures Nearest(fine, top, n * w, c)
  {
    forall d | 0 <= d <= top && d != c
      ensures Dist(n * w, fine(c)) < Dist(n * w, fine(d)) || (Dist(n * w, fine(c)) == Dist(n * w, fine(d)) && c % 2 == 0)
    {
      DistScales(n, grid(c), w);
      DistScales(n, grid(d), w);
      if Dist(n, grid(c)) < Dist(n, grid(d)) { MulLess(Dist(n, grid(c)), Dist(n, grid(d)), w); }
    }
  }

  lemma DistScales(a: nat, b: nat, w: nat)
    ensures Dist(a * w, b * w) == Dist(a, b) * w
  {
    if a <= b { MulLe(a, b, w); Difference(a, b, w); } else { MulLe(b, a, w); Difference(b, a, w); }
  }

  lemma Difference(a: nat, b: nat, w: nat)
    requires a <= b
    ensures b * w - a * w == (b - a) * w
  {
  }

  lemma GridScales(T: nat, k: nat, d: nat)
    requires T >= 9
    ensures CodeGrid(T + k)(d) == CodeGrid(T)(d) * Pow2(k)
  {
    Pow2Adds(T - 9, k);
    assert T + k - 9 == T - 9 + k;
    hide Pow2, Grid;
    Associate(Grid(3, d), Pow2(T - 9), Pow2(k));
  }

  /** Scaling value and grid by the same power of two does not change the code. */
  lemma CodeScales(n: nat, T: nat, k: nat)
    requires T >= 9
    ensures Code(n * Pow2(k), T + k) == Code(n, T)
  {
    hide Code, CodeGrid, Pow2, Nearest, Increasing;
    var w := Pow2(k);
    var m: nat := n * w;
    CodeNearest(n, T);
    CodeNearest(m, T + k);
    CodesIncrease(T + k);
    forall d: nat ensures CodeGrid(T + k)(d) == CodeGrid(T)(d) * w {
      GridScales(T, k, d);
    }
    NearestScales(CodeGrid(T), CodeGrid(T + k), FP8_TOP, n, w, Code(n, T));
    NearestUnique(CodeGrid(T + k), FP8_TOP, m, Code(m, T + k), Code(n, T));
  }

  lemma CodeTiny(n: nat, T: nat)
    requires T >= 9 && 2 * n < Pow2(T - 9)
    ensures Code(n, T) == 0
  {
    DivModIs(n, Pow2(T - 9), 0, n);
  }

  /** A float32 either divides exactly by 2^k or is far below the first E4M3 step. */
  lemma DividesOrTiny(b: nat, k: nat) returns (exact: bool, n: nat)
    requires k > 0
    ensures exact ==> Grid(23, b) == n * Pow2(k)
    ensures !exact ==> Grid(23, b) < Pow2(23 + k)
  {
    Pow2Table();
    var e, m := Divided(b, M23);
    hide Pow2, Grid;
    GridAt(23, e, m);
    n := 0;
    if e >= k + 1 {
      exact := true;
      n := (M23 + m) * Pow2(e - 1 - k);
      Pow2Adds(e - 1 - k, k);
      Associate(M23 + m, Pow2(e - 1 - k), Pow2(k));
    } else {
      exact := false;
      Pow2Adds(23, k);
      Threshold(k + 1, b);
      MulLe(e + 1, k + 1, M23);
    }
  }

  lemma FarBelow(a: nat, u: nat)
    requires a + 1 < u
    ensures 2 * Pow2(a) < Pow2(u)
  {
    assert Pow2(a + 1) == 2 * Pow2(a);
    Pow2Less(a + 1, u);
  }

  /** Anything under 2^a steps of 2^k rounds to code zero, before and after the division by 2^k. */
  lemma TinyQuotient(n: nat, k: nat, a: nat, u: nat)
    requires n < Pow2(a + k) && a + 1 < u
    ensures Code(RneDiv(n, Pow2(k)), u + 9) == 0 && Code(n, u + 9 + k) == 0
  {
    hide Pow2, Code;
    FarBelow(a, u);
    FarBelow(a + k, u + k);
    Pow2Adds(a, k);
    RneWithin(n, Pow2(k), Pow2(a));
    hide RneDiv;
    CodeTiny(RneDiv(n, Pow2(k)), u + 9);
    CodeTiny(n, u + 9 + k);
  }

  /** The rounded product and the exact quotient have the same code, for every float32 and scale. */
  lemma QuotientCode(b: nat, T: nat)
    requires T >= 9
    ensures Code(Quotient(Grid(23, b), T), 149) == Code(Grid(23, b), T)
  {
    var n := Grid(23, b);
    hide Grid, Pow2, Code;
    if T <= 149 {
      CodeScales(n, T, 149 - T);
    } else {
      var k := T - 149;
      var exact, n' := DividesOrTiny(b, k);
      if exact {
        DivModIs(n, Pow2(k), n', 0);
        CodeScales(n', 149, k);
      } else {
        TinyQuotient(n, k, 23, 140);
      }
    }
  }

  /** The clamp at 448 never binds. */
  lemma NoClamp(n: nat, T: nat)
    requires n <= Top(T)
    ensures Quotient(n, T) <= Top(149)
  {
    if T <= 149 {
      Pow2Adds(T, 149 - T);
      MulLe(n, Top(T), Pow2(149 - T));
      Associate(448, Pow2(T), Pow2(149 - T));
    } else {
      var w := Pow2(T - 149);
      Pow2Adds(149, T - 149);
      Associate(448, Pow2(149), w);
      var q, r := Divided(n, w);
      hide Pow2;
      RneWithin(n, w, 448 * Pow2(149));
    }
  }

  lemma RneWithin(n: nat, d: nat, bound: nat)
    requires d > 0 && n <= bound * d
    ensures RneDiv(n, d) <= bound
  {
    var q, r := Divided(n, d);
    OneMore(bound, d);
    MulCancel(q, bound + 1, d);
    if q == bound { assert r == 0; }
  }

  // ---- the block ----

  ghost predicate Finite(x: nat) { Float32(x) && Magnitude(x) < INF32 }

  function UnitsOf(v: seq<nat>): (ns: seq<nat>)
    ensures |ns| == |v| && forall i :: 0 <= i < |v| ==> ns[i] == Units(v[i])
  {
    if v == [] then [] else UnitsOf(v[..|v|-1]) + [Units(v[|v|-1])]
  }

  const FLOOR: nat := Grid(23, FLOOR_BITS)

  lemma PatternOrder(a: nat, b: nat)
    ensures Grid(23, a) <= Grid(23, b) <==> a <= b
  {
    if a < b { GridIncreases(23, a, b); } else if b < a { GridIncreases(23, b, a); }
  }

  function Max(a: nat, b: nat): nat { if a < b then b else a }

  /** The largest magnitude of the block, floored: the pattern whose value is `AMax`. */
  method MaxPattern(v: seq<nat>) returns (amax: nat)
    requires forall i :: 0 <= i < |v| ==> Finite(v[i])
    ensures amax < INF32
    ensures Grid(23, Max(amax, FLOOR_BITS)) == AMax(UnitsOf(v), FLOOR)
  {
    amax := 0;
    for i := 0 to |v|
      invariant amax < INF32 && Grid(23, Max(amax, FLOOR_BITS)) == AMax(UnitsOf(v[..i]), FLOOR)
    {
      hide Grid;
      assert v[..i+1][..i] == v[..i];
      PatternOrder(Magnitude(v[i]), Max(amax, FLOOR_BITS));
      if Magnitude(v[i]) > amax { amax := Magnitude(v[i]); }
    }
    assert v[..|v|] == v;
  }

  /** 2^128, the first magnitude that is not a finite float32. */
  const OVERFLOW: nat := Pow2(277)

  /** A decoded float32: its value in units of 2^-149, or an infinity. */
  datatype Decoded32 = Value(units: int) | Infinite(negative: bool)

  function Stored(negative: bool, n: nat): Decoded32 {
    if n >= OVERFLOW then Infinite(negative) else Value(WithSign(negative, n))
  }

  function Clamped(q: nat, limit: nat): nat { if q > limit then limit else q }

  /** One activation: sign and code, and the decoded value. */
  method QuantiseOne(x: nat, T: nat) returns (byte: nat, decoded: Decoded32)
    requires Finite(x) && T >= 9 && Units(x) <= Top(T)
    ensures Quantised(x, T, byte, decoded)
  {
    hide Grid, Pow2, Code, Top;
    var q := Quotient(Units(x), T);
    q := Clamped(q, Top(149));
    NoClamp(Units(x), T);
    var c := Code(q, 149);
    QuotientCode(Magnitude(x), T);
    byte := (if Negative(x) then 128 else 0) + c;
    decoded := Stored(Negative(x), CodeGrid(T)(c));
  }

  /** The byte and the decoded value of one activation. */
  ghost predicate Quantised(x: nat, T: nat, byte: nat, decoded: Decoded32)
    requires T >= 9
  {
    && byte == (if Negative(x) then 128 else 0) + Code(Units(x), T)
    && decoded == Stored(Negative(x), DecodedOne(Units(x), T))
  }

  method ActQuantBlock(v: seq<nat>, bytes: array<nat>, dequant: array<Decoded32>) returns (T: nat)
    requires forall i :: 0 <= i < |v| ==> Finite(v[i])
    requires bytes.Length >= |v| && dequant.Length >= |v|
    modifies bytes, dequant
    ensures T >= 127 && LeastScale(AMax(UnitsOf(v), FLOOR), T)
    ensures forall i :: 0 <= i < |v| ==> Quantised(v[i], T, bytes[i], dequant[i])
    ensures bytes[|v|..] == old(bytes[|v|..]) && dequant[|v|..] == old(dequant[|v|..])
  {
    hide Grid, Pow2, Code, Top, Quantised;
    var amax := MaxPattern(v);
    T := RoundScale(amax);
    ScaleOf(amax, v);
    for i := 0 to |v|
      invariant forall j :: 0 <= j < i ==> Quantised(v[j], T, bytes[j], dequant[j])
      invariant bytes[|v|..] == old(bytes[|v|..]) && dequant[|v|..] == old(dequant[|v|..])
    {
      AMaxCovers(UnitsOf(v), FLOOR, i);
      bytes[i], dequant[i] := QuantiseOne(v[i], T);
    }
  }

  lemma ScaleOf(amax: nat, v: seq<nat>)
    requires amax < INF32 && Grid(23, Max(amax, FLOOR_BITS)) == AMax(UnitsOf(v), FLOOR)
    ensures RoundScale(amax) >= 127 && LeastScale(AMax(UnitsOf(v), FLOOR), RoundScale(amax))
  {
    RoundScaleIsLeast(amax);
    ProductScale(Max(amax, FLOOR_BITS));
  }

  // ---- what the constants and the signs are ----

  /** The floor is the float32 nearest to one ten-thousandth: within half a step of 2^-37. */
  lemma FloorIs()
    ensures 2 * Dist(10000 * FLOOR, Pow2(149)) <= 10000 * Pow2(112)
  {
    Pow2Table();
    hide Grid, Pow2;
    GridAt(23, 113, 0x51_B717);
    Pow2Adds(37, 112);
    ThirtySeven();
    var step := Pow2(112);
    assert FLOOR == 13743895 * step;
    assert Pow2(149) == 137438953472 * step;
  }

  lemma ThirtySeven()
    ensures Pow2(37) == 137438953472
  {
    Pow2Table();
    Pow2Adds(20, 17);
    Pow2Adds(10, 7);
    hide Pow2;
  }

  /** The factor is the float32 nearest to 1/448, in units of 2^-32. */
  lemma ReciprocalIs()
    ensures 2 * Dist(448 * RECIPROCAL, 0x1_0000_0000) <= 448
  {
  }

  function Abs(x: int): int { if x < 0 then -x else x }

  /** A stored number is the value of the stored byte at the block's scale, on the same side of zero as
      the activation, and within max(|v| / 16, scale / 1024) of it. */
  lemma SignedError(x: nat, T: nat, byte: nat, decoded: Decoded32)
    requires T >= 9 && Units(x) <= Top(T) && Quantised(x, T, byte, decoded)
    ensures byte < 256 && (byte >= 128 <==> Negative(x))
    ensures decoded.Infinite? ==> decoded.negative == Negative(x)
    ensures decoded.Value? ==> decoded.units == Fp8Signed(byte) * Pow2(T - 9)
    ensures decoded.Value? ==>
      16 * Abs(decoded.units - SignedUnits(x)) <= Units(x) || 16 * Abs(decoded.units - SignedUnits(x)) <= Pow2(T - 6)
  {
    hide Grid, Pow2, Code, Top;
    var n, c := Units(x), Code(Units(x), T);
    CodeNearest(n, T);
    ErrorBound(n, T);
    assert byte % 128 == c;
    var d := CodeGrid(T)(c);
    hide Nearest;
    SignedProduct(Negative(x), Grid(3, c), Pow2(T - 9));
    SignedDistance(Negative(x), d, n);
  }

  lemma SignedProduct(negative: bool, g: nat, w: nat)
    ensures WithSign(negative, g) * w == WithSign(negative, g * w)
  {
  }

  lemma SignedDistance(negative: bool, a: nat, b: nat)
    ensures Abs(WithSign(negative, a) - WithSign(negative, b)) == Dist(b, a)
  {
  }

  // ---- where the decoded float32 overflows ----

  lemma GridNear256()
    ensures Grid(3, 119) == 240 * 512 && Grid(3, 120) == 256 * 512 && Pow2(9) == 512
  {
    Pow2Table();
    GridAt(3, 14, 7);
    GridAt(3, 15, 0);
    Pow2Adds(3, 6); Pow2Adds(3, 3);
    assert Pow2(14) == 2 * Pow2(13);
  }

  lemma Codes119And120(T: nat)
    requires T >= 9
    ensures CodeGrid(T)(119) == 240 * Pow2(T) && CodeGrid(T)(120) == 256 * Pow2(T)
  {
    GridNear256();
    hide Grid, Pow2;
    Pow2Adds(9, T - 9);
    assert 9 + (T - 9) == T;
  }

  /** The code with value 256 is reached from 248 on: the midpoint ties to it. */
  lemma Halfway(n: nat, T: nat)
    requires T >= 9
    ensures DecodedOne(n, T) >= 256 * Pow2(T) <==> n >= 248 * Pow2(T)
  {
    hide Code, CodeGrid, Pow2;
    CodeNearest(n, T);
    CodesIncrease(T);
    Codes119And120(T);
    var grid, c := CodeGrid(T), Code(n, T);
    assert c < 119 ==> grid(c) < grid(119);
    assert c > 120 ==> grid(120) < grid(c);
    assert c != 119 ==> Dist(n, grid(c)) <= Dist(n, grid(119));
    assert c != 120 ==> Dist(n, grid(c)) < Dist(n, grid(120)) || (Dist(n, grid(c)) == Dist(n, grid(120)) && c % 2 == 0);
  }

  /** Some decoded value reaches 256 * 2^s exactly when the block maximum reaches 248 * 2^s. */
  lemma ReachesPower(ns: seq<nat>, floor: nat, T: nat, s: nat)
    requires s >= 11 && T >= 10 && LeastScale(AMax(ns, floor), T)
    requires AMax(ns, floor) < 256 * Pow2(s) && floor < 248 * Pow2(s)
    ensures (exists i :: 0 <= i < |ns| && DecodedOne(ns[i], T) >= 256 * Pow2(s)) <==> AMax(ns, floor) >= 248 * Pow2(s)
  {
    var a := AMax(ns, floor);
    assert Top(s) == 448 * Pow2(s) && Top(s - 1) == 224 * Pow2(s);
    hide Pow2, Top, Code, CodeGrid, AMax;
    TopCancel(T - 1, s);
    if a >= 248 * Pow2(s) {
      TopCancel(s - 1, T);
      var i := AMaxAttained(ns, floor);
      Halfway(ns[i], s);
    } else {
      forall i | 0 <= i < |ns| ensures DecodedOne(ns[i], T) < 256 * Pow2(s) {
        AMaxCovers(ns, floor, i);
        if T == s { Halfway(ns[i], s); } else { BelowHalf(ns[i], T, s); }
      }
    }
  }

  lemma BelowHalf(n: nat, T: nat, s: nat)
    requires 10 <= T < s
    ensures DecodedOne(n, T) < 256 * Pow2(s)
  {
    DecodedRange(n, T);
    assert Top(s - 1) == 224 * Pow2(s);
    if T < s - 1 { TopLess(T, s - 1); }
  }

  lemma FloorSmall()
    ensures FLOOR < 248 * Pow2(269)
  {
    hide Grid;
    Threshold(114, FLOOR_BITS);
    Pow2Less(136, 269);
  }

  /** Among finite activations the decoded value overflows float32 exactly where the block maximum
      reaches 248 * 2^120; everywhere below, the error bound and the projection law hold of the
      float32 the code stores. */
  lemma OverflowExactly(ns: seq<nat>, T: nat)
    requires T >= 10 && LeastScale(AMax(ns, FLOOR), T) && AMax(ns, FLOOR) < OVERFLOW
    ensures (exists i :: 0 <= i < |ns| && DecodedOne(ns[i], T) >= OVERFLOW) <==> AMax(ns, FLOOR) >= 248 * Pow2(269)
  {
    FloorSmall();
    assert OVERFLOW == 256 * Pow2(269) by {
      Pow2Adds(8, 269);
      Pow2Table();
      assert Pow2(8) == 2 * Pow2(7);
    }
    hide Grid, Pow2, AMax, Top, DecodedOne;
    ReachesPower(ns, FLOOR, T, 269);
  }

  /** The largest finite float32. */
  const LARGEST: nat := 0x7F7F_FFFF

  lemma LargestValue()
    ensures Finite(LARGEST) && 248 * Pow2(269) <= Grid(23, LARGEST) < OVERFLOW
  {
    Pow2Table();
    hide Grid, Pow2;
    Threshold(255, LARGEST);
    GridAt(23, 254, 0x7F_FFFF);
    Pow2Adds(16, 253);
    assert 0xFF_FFFF * Pow2(253) >= 248 * (0x1_0000 * Pow2(253));
  }

  lemma LargestBlock()
    ensures AMax(UnitsOf([LARGEST]), FLOOR) == Grid(23, LARGEST)
  {
    hide Grid, Pow2;
    PatternOrder(FLOOR_BITS, LARGEST);
    var ns := UnitsOf([LARGEST]);
    assert ns[..0] == [] && ns[0] == Grid(23, LARGEST);
    assert AMax(ns[..0], FLOOR) == FLOOR;
  }

  /** The block of just the largest float32 is stored as infinity. */
  lemma OverflowHappens()
    ensures var T := RoundScale(LARGEST);
            && T >= 10 && LeastScale(AMax(UnitsOf([LARGEST]), FLOOR), T)
            && Stored(Negative(LARGEST), DecodedOne(Units(LARGEST), T)) == Infinite(false)
  {
    LargestValue();
    LargestBlock();
    hide Grid, Pow2, RoundScale, AMax, DecodedOne;
    ScaleOf(LARGEST, [LARGEST]);
    var T, ns := RoundScale(LARGEST), UnitsOf([LARGEST]);
    hide LeastScale;
    OverflowExactly(ns, T);
    var i :| 0 <= i < |ns| && DecodedOne(ns[i], T) >= OVERFLOW;
    assert ns[i] == Units(LARGEST);
  }
}

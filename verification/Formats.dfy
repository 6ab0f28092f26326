/**
 The element formats of cpu/dequant.{h,cpp}: E4M3, fp16 and bf16 against float32.
 A float32 is its 32-bit pattern; the sign is the top bit and the rest is the magnitude.
 */
module Formats {
  import opened Rounding
  import opened Narrowing

  predicate Float32(x: nat) { x < 0x1_0000_0000 }
  function Magnitude(x: nat): nat { x % SIGN32 }
  function Negative(x: nat): bool { x >= SIGN32 }

  /** The float32 with this sign and magnitude. */
  function Pattern(negative: bool, b: nat): (x: nat)
    requires b < SIGN32
    ensures Float32(x) && Magnitude(x) == b && Negative(x) == negative
  {
    (if negative then SIGN32 else 0) + b
  }

  /** Magnitude of a finite float32, in units of 2^-149. */
  function Units(x: nat): nat { Grid(23, Magnitude(x)) }

  /** Number of the highest set bit. */
  function TopBit(c: nat): (t: nat)
    requires c > 0
    ensures Pow2(t) <= c < Pow2(t + 1)
  {
    if c == 1 then 0 else 1 + TopBit(c / 2)
  }

  function ShiftUp(a: nat, s: nat): (r: nat)
    ensures r == a * Pow2(s)
  {
    a * Pow2(s)
  }

  /** m * 2^(base - 127) as a float32 pattern: the leading bit t becomes the hidden one. */
  function Normalised(base: nat, m: nat, t: nat): nat
    requires t <= 23 && Pow2(t) <= m
  {
    (base + t) * M23 + ShiftUp(m - Pow2(t), 23 - t)
  }

  lemma TopBitBelow(m: nat, p: nat)
    requires 0 < m < Pow2(p)
    ensures TopBit(m) < p
  {
    if TopBit(m) >= p { PowerAtLeast(p, TopBit(m)); }
  }

  lemma WidenSubnormal(base: nat, m: nat, t: nat)
    requires base >= 1 && t < 23 && base + t < 255 && Pow2(t) <= m < Pow2(t + 1)
    ensures Normalised(base, m, t) < INF32 && Grid(23, Normalised(base, m, t)) == m * Pow2(base + 22)
  {
    Pow2Table();
    hide Grid, Pow2;
    var f, d := m - Pow2(t), Pow2(23 - t);
    Pow2Adds(t, 23 - t);
    Pow2Adds(23 - t, base + t - 1);
    assert t + (23 - t) == 23 && (23 - t) + (base + t - 1) == base + 22;
    Pow2Adds(1, t);
    PowOne();
    MulLess(f, Pow2(t), d);
    GridAt(23, base + t, f * d);
    Together(Pow2(t), f, d, Pow2(base + t - 1));
  }

  lemma Together(a: nat, f: nat, d: nat, w: nat)
    ensures (a * d + f * d) * w == (a + f) * (d * w)
  {
    Associate(a + f, d, w);
  }

  // ---- E4M3 ----

  const FP8_TOP: nat := 126            // 0x7E, magnitude 448

  /** Magnitude bits of `fp8_encode_rn`. */
  function Fp8Mag(b: nat): nat
    requires b < SIGN32
  {
    if Grid(23, b) < Pow2(143) then
      // below 2^-6: the subnormal grid, multiples of 2^-9
      RneDiv(Grid(23, b), Pow2(140))
    else
      var e, kept, rem := b / M23, b % M23 / 0x10_0000, b % 0x10_0000;
      var up := rem > 0x8_0000 || (rem == 0x8_0000 && kept % 2 == 1);
      var keep := if !up then kept else if kept + 1 == 8 then 0 else kept + 1;
      var ee := (if up && kept + 1 == 8 then e + 1 else e) - 127 + 7;
      if ee > 15 || (ee == 15 && keep == 7) then 15 * 8 + 6
      else if ee < 0 then 0
      else ee * 8 + keep
  }

  function Fp8Encode(x: nat): nat
    requires Float32(x)
  {
    (if Negative(x) then 128 else 0) + Fp8Mag(Magnitude(x))
  }

  /** `fp8_e4m3_to_float` on a magnitude, in units of 2^-9; 0x7F is the only NaN. */
  function Fp8Decode(c: nat): (v: nat)
    requires c <= FP8_TOP
    ensures v == Grid(3, c)
  {
    assert Pow2(3) == 8;
    var e, m := c / 8, c % 8;
    if e == 0 then m else (8 + m) * Pow2(e - 1)
  }

  lemma {:induction false} Pow2Less(a: nat, b: nat)
    requires a < b
    ensures Pow2(a) < Pow2(b)
  {
    if a < b - 1 { Pow2Less(a, b - 1); }
  }

  /** A float32 is below 2^(e - 127) exactly when its pattern is below that of the power. */
  lemma Threshold(e: nat, b: nat)
    requires e >= 1
    ensures Grid(23, b) < Pow2(22 + e) <==> b < e * M23
  {
    Pow2Table();
    hide Grid, Pow2;
    GridAt(23, e, 0);
    Pow2Adds(23, e - 1);
    var power := e * M23;
    if b < power { GridIncreases(23, b, power); } else if power < b { GridIncreases(23, power, b); }
  }

  /** Rounding to a multiple of the smallest subnormal, below the normal range. */
  lemma SubnormalNearest(p: nat, u: nat, n: nat, top: nat)
    requires n < Pow2(p + u) && Pow2(p) <= top
    ensures Nearest(Scaled(p, u), top, n, RneDiv(n, Pow2(u))) && RneDiv(n, Pow2(u)) <= Pow2(p)
  {
    var grid := Scaled(p, u);
    Pow2Adds(p, u);
    hide Pow2;
    var lo, rem := Divided(n, Pow2(u));
    FieldBound(lo, Pow2(u), rem, n, Pow2(p));
    PowerOnGrid(p);
    OneMore(lo, Pow2(u));
    ScaledIncreases(p, u);
    NearestOfBracket(grid, top, n, lo, RneDiv(n, Pow2(u)));
  }

  lemma PowerOnGrid(p: nat)
    ensures Grid(p, Pow2(p)) == Pow2(p)
  {
    GridAt(p, 1, 0);
    assert 1 * Pow2(p) + 0 == Pow2(p);
  }

  lemma Fp8Shift(b: nat)
    requires 121 * M23 <= b < SIGN32
    ensures Grid(23, b) >= Pow2(143)
    ensures var r := RneDiv(b - 120 * M23, 0x10_0000); Fp8Mag(b) == if r <= FP8_TOP then r else FP8_TOP
  {
    hide Grid, Pow2;
    Threshold(121, b);
    var e, man := Divided(b, M23);
    var kept, rem := Divided(man, 0x10_0000);
    DivModIs(b, 0x10_0000, e * 8 + kept, rem);
    var h := (e - 120) * 8 + kept;
    assert b - 120 * M23 == h * 0x10_0000 + rem;
    DivModIs(b - 120 * M23, 0x10_0000, h, rem);
  }

  /** `fp8_encode_rn` returns the nearest E4M3 value, ties to even, saturating at 448. */
  lemma Fp8Nearest(b: nat)
    requires b < SIGN32
    ensures Nearest(Scaled(3, 140), FP8_TOP, Grid(23, b), Fp8Mag(b))
  {
    Pow2Table();
    hide Grid, Pow2;
    Threshold(121, b);
    if b < 121 * M23 {
      SubnormalNearest(3, 140, Grid(23, b), FP8_TOP);
    } else {
      Fp8Shift(b);
      ShiftNearest(3, 120, b, FP8_TOP);
    }
  }

  /** Encoding never reverses the order of two magnitudes. */
  lemma Fp8Monotone(b: nat, c: nat)
    requires b < SIGN32 && c < SIGN32 && Grid(23, b) <= Grid(23, c)
    ensures Fp8Mag(b) <= Fp8Mag(c)
  {
    Fp8Nearest(b);
    Fp8Nearest(c);
    ScaledIncreases(3, 140);
    NearestMonotone(Scaled(3, 140), FP8_TOP, Grid(23, b), Grid(23, c), Fp8Mag(b), Fp8Mag(c));
  }

  /** Every float32 that carries the value of byte h encodes back to h. */
  lemma Fp8ValueBack(x: nat, h: nat)
    requires Float32(x) && h < 256 && h % 128 <= FP8_TOP
    requires Negative(x) == (h >= 128) && Units(x) == Fp8Decode(h % 128) * Pow2(140)
    ensures Fp8Encode(x) == h
  {
    hide Grid, Pow2, Fp8Mag;
    Fp8Nearest(Magnitude(x));
    ScaledIncreases(3, 140);
    ExactStays(Scaled(3, 140), FP8_TOP, h % 128, Fp8Mag(Magnitude(x)));
  }

  lemma TopBitOfThree(m: nat)
    requires 0 < m < 8
    ensures TopBit(m) < 3
  {
    Pow2Table();
    TopBitBelow(m, 3);
  }

  /** The float32 magnitude that `fp8_e4m3_to_float` returns for a magnitude that is not NaN: its
      subnormals are normal numbers there. */
  function Fp8Widen(c: nat): nat
    requires c <= FP8_TOP
  {
    var e, m := c / 8, c % 8;
    if e > 0 then (e + 120) * M23 + m * 0x10_0000
    else if m == 0 then 0
    else TopBitOfThree(m); Normalised(118, m, TopBit(m))
  }

  lemma Fp8WidenNormal(e: nat, m: nat)
    requires 1 <= e && m < 8
    ensures Grid(23, (e + 120) * M23 + m * 0x10_0000) == Grid(3, e * 8 + m) * Pow2(140)
  {
    Pow2Table();
    hide Grid, Pow2;
    Aligned(3, 120, e, e + 120, m * 0x10_0000, 0x10_0000, m, 0);
  }

  /** Decoding is exact: every finite E4M3 value is a float32. */
  lemma Fp8WidenExact(c: nat)
    requires c <= FP8_TOP
    ensures Fp8Widen(c) < INF32 && Grid(23, Fp8Widen(c)) == Fp8Decode(c) * Pow2(140)
  {
    Pow2Table();
    hide Grid, Pow2, TopBit, Normalised, Fp8Decode;
    var e, m := Divided(c, 8);
    if e > 0 {
      Fp8WidenNormal(e, m);
    } else {
      SmallOnGrid(3, c);
      SmallOnGrid(23, 0);
      if m > 0 {
        TopBitOfThree(m);
        WidenSubnormal(118, m, TopBit(m));
      }
    }
  }

  /** `fp8_e4m3_to_float` of a byte that is not NaN. */
  function Fp8Float(h: nat): (x: nat)
    requires h < 256 && h % 128 <= FP8_TOP
    ensures Float32(x)
  {
    Fp8WidenExact(h % 128);
    Pattern(h >= 128, Fp8Widen(h % 128))
  }

  /** Encoding inverts decoding on every byte that is not NaN, negative zero included. */
  lemma Fp8RoundTrip(h: nat)
    requires h < 256 && h % 128 <= FP8_TOP
    ensures Fp8Encode(Fp8Float(h)) == h
  {
    hide Fp8Widen, Fp8Mag, Grid, Pow2, Fp8Decode;
    Fp8WidenExact(h % 128);
    var x := Fp8Float(h);
    assert Magnitude(x) == Fp8Widen(h % 128) && Negative(x) == (h >= 128);
    hide Fp8Encode;
    Fp8ValueBack(x, h);
  }

  function WithSign(negative: bool, magnitude: int): int { if negative then -magnitude else magnitude }

  /** The signed value of a float32, and of an E4M3 byte. */
  function SignedUnits(x: nat): int { WithSign(Negative(x), Units(x)) }

  function Fp8Signed(h: nat): int { WithSign(h >= 128, Grid(3, h % 128)) }

  lemma Fp8SignedIs(x: nat)
    requires Float32(x)
    ensures Fp8Signed(Fp8Encode(x)) == WithSign(Negative(x), Grid(3, Fp8Mag(Magnitude(x))))
  {
    hide Grid, Pow2, Fp8Mag;
    Fp8Nearest(Magnitude(x));
    var c := Fp8Mag(Magnitude(x));
    assert c <= FP8_TOP;
    assert Fp8Encode(x) % 128 == c;
  }

  lemma GridMonotone(p: nat, a: nat, b: nat)
    requires a <= b
    ensures Grid(p, a) <= Grid(p, b)
  {
    hide Grid;
    if a < b { GridIncreases(p, a, b); }
  }

  /** Encoding never reverses the order of two values, whatever their signs. */
  lemma Fp8Ordered(x: nat, y: nat)
    requires Float32(x) && Float32(y) && SignedUnits(x) <= SignedUnits(y)
    ensures Fp8Signed(Fp8Encode(x)) <= Fp8Signed(Fp8Encode(y))
  {
    hide Fp8Mag, Pow2, Fp8Encode, Fp8Signed;
    Fp8SignedIs(x);
    Fp8SignedIs(y);
    var a, b := Magnitude(x), Magnitude(y);
    assert a < SIGN32 && b < SIGN32;
    hide Magnitude;
    hide Grid;
    if !Negative(x) && !Negative(y) {
      Fp8Monotone(a, b);
      GridMonotone(3, Fp8Mag(a), Fp8Mag(b));
    } else if Negative(x) && Negative(y) {
      Fp8Monotone(b, a);
      GridMonotone(3, Fp8Mag(b), Fp8Mag(a));
    } else if Negative(y) {
      // both are zero
      Fp8Monotone(a, b);
      Fp8Monotone(b, a);
      ZeroStays(a);
    }
  }

  /** Zero encodes to zero. */
  lemma ZeroStays(b: nat)
    requires b < SIGN32 && Grid(23, b) == 0
    ensures Grid(3, Fp8Mag(b)) == 0
  {
    hide Pow2, Fp8Mag;
    Fp8Nearest(b);
    hide Grid;
    ScaledIncreases(3, 140);
    SmallOnGrid(3, 0);
    ExactStays(Scaled(3, 140), FP8_TOP, 0, Fp8Mag(b));
  }

  // ---- fp16 ----

  const FP16_INF: nat := 0x7C00

  /** Magnitude bits of `float_to_fp16` for a magnitude that is not NaN. */
  function Fp16Mag(b: nat): nat
    requires b <= INF32
  {
    var be, man := b / M23, b % M23;
    var exp := be - 127 + 15;
    if be == 0xFF || exp >= 0x1F then FP16_INF
    else if exp <= 0 then
      if exp < -10 then 0
      else
        var shift := 14 - exp;
        RneDiv(man + M23, Pow2(shift))
    else
      var h, rem := exp * 1024 + man / 0x2000, man % 0x2000;
      if rem > 0x1000 || (rem == 0x1000 && h % 2 == 1) then h + 1 else h
  }

  function Fp16Encode(x: nat): nat
    requires Float32(x) && Magnitude(x) <= INF32
  {
    (if Negative(x) then 0x8000 else 0) + Fp16Mag(Magnitude(x))
  }

  lemma RneScale(n: nat, d: nat, w: nat)
    requires d > 0 && w > 0
    ensures d * w > 0 && RneDiv(n * w, d * w) == RneDiv(n, d)
  {
    MulLe(1, d, w);
    var q, r := Divided(n, d);
    SameSide(r, d, w);
    assert n * w == q * (d * w) + r * w by {
      Associate(q, d, w);
    }
    DivModIs(n * w, d * w, q, r * w);
  }

  lemma Fp16Subnormal(b: nat)
    requires b < 113 * M23
    ensures Fp16Mag(b) == RneDiv(Grid(23, b), Pow2(125))
  {
    Pow2Table();
    var be, man := Divided(b, M23);
    if be < 102 {
      Tiny(b);
    } else {
      hide Grid, Pow2;
      GridAt(23, be, man);
      var shift := 126 - be;
      Pow2Adds(shift, be - 1);
      assert shift + (be - 1) == 125;
      RneScale(man + M23, Pow2(shift), Pow2(be - 1));
    }
  }

  lemma Tiny(b: nat)
    requires b < 102 * M23
    ensures RneDiv(Grid(23, b), Pow2(125)) == 0
  {
    hide Grid;
    Threshold(102, b);
    assert Pow2(125) == 2 * Pow2(124);
    DivModIs(Grid(23, b), Pow2(125), 0, Grid(23, b));
  }

  lemma Fp16Shift(b: nat)
    requires 113 * M23 <= b <= INF32
    ensures var r := RneDiv(b - 112 * M23, 0x2000); Fp16Mag(b) == if r <= FP16_INF then r else FP16_INF
  {
    var be, man := Divided(b, M23);
    var n := b - 112 * M23;
    var h, rem := (be - 112) * 1024 + man / 0x2000, man % 0x2000;
    assert n == h * 0x2000 + rem;
    DivModIs(n, 0x2000, h, rem);
  }

  /** `float_to_fp16` rounds to nearest, ties to even; the pattern after the largest finite one is
      infinity, which is where overflow goes. */
  lemma Fp16Nearest(b: nat)
    requires b <= INF32
    ensures Nearest(Scaled(10, 125), FP16_INF, Grid(23, b), Fp16Mag(b))
  {
    Pow2Table();
    hide Grid, Pow2;
    Threshold(113, b);
    if b < 113 * M23 {
      Fp16Subnormal(b);
      SubnormalNearest(10, 125, Grid(23, b), FP16_INF);
    } else {
      Fp16Shift(b);
      ShiftNearest(10, 112, b, FP16_INF);
    }
  }

  lemma TopBitSmall(m: nat)
    requires 0 < m < 1024
    ensures TopBit(m) < 10
  {
    Pow2Table();
    TopBitBelow(m, 10);
  }

  /** Magnitude bits of `fp16_to_float`; a subnormal half becomes a normal float32. */
  function Fp16Widen(h: nat): nat
    requires h <= FP16_INF
  {
    var e, m := h / 1024, h % 1024;
    if e == 0 then
      if m == 0 then 0 else TopBitSmall(m); Normalised(103, m, TopBit(m))
    else if e == 0x1F then INF32 + m * 0x2000
    else (e + 112) * M23 + m * 0x2000
  }

  lemma WidenNormal(e: nat, m: nat)
    requires 1 <= e && m < 1024
    ensures Grid(23, (e + 112) * M23 + m * 0x2000) == Grid(10, e * 1024 + m) * Pow2(125)
  {
    Pow2Table();
    hide Grid, Pow2;
    Aligned(10, 112, e, e + 112, m * 0x2000, 0x2000, m, 0);
  }

  lemma SmallOnGrid(p: nat, c: nat)
    requires c < Pow2(p)
    ensures Grid(p, c) == c
  {
  }

  lemma PowOne() ensures Pow2(1) == 2 {}

  lemma {:induction false} PowerAtLeast(a: nat, b: nat)
    requires a <= b
    ensures Pow2(a) <= Pow2(b)
  {
    if a < b { Pow2Less(a, b); }
  }

  /** Widening keeps the value: every finite half is a float32. */
  lemma Fp16WidenExact(h: nat)
    requires h < FP16_INF
    ensures Fp16Widen(h) < INF32 && Grid(23, Fp16Widen(h)) == Grid(10, h) * Pow2(125)
  {
    Pow2Table();
    hide Grid, Pow2, TopBit, Normalised;
    var e, m := Divided(h, 1024);
    if e > 0 {
      WidenNormal(e, m);
    } else {
      SmallOnGrid(10, h);
      SmallOnGrid(23, 0);
      if m > 0 {
        TopBitSmall(m);
        WidenSubnormal(103, m, TopBit(m));
      }
    }
  }

  lemma Fp16MagnitudeBack(h: nat)
    requires h <= FP16_INF
    ensures Fp16Widen(h) <= INF32 && Fp16Mag(Fp16Widen(h)) == h
  {
    if h < FP16_INF {
      hide Grid, Pow2, Fp16Widen, Fp16Mag;
      Fp16WidenExact(h);
      Fp16Nearest(Fp16Widen(h));
      ScaledIncreases(10, 125);
      ExactStays(Scaled(10, 125), FP16_INF, h, Fp16Mag(Fp16Widen(h)));
    }
  }

  /** `fp16_to_float` of a half that is not NaN. */
  function Fp16Float(h: nat): (x: nat)
    requires h < 0x1_0000 && h % 0x8000 <= FP16_INF
    ensures Float32(x) && Magnitude(x) <= INF32
  {
    Fp16MagnitudeBack(h % 0x8000);
    Pattern(h >= 0x8000, Fp16Widen(h % 0x8000))
  }

  /** Widening a half and narrowing it again returns the same half, signs and infinities included. */
  lemma Fp16RoundTrip(h: nat)
    requires h < 0x1_0000 && h % 0x8000 <= FP16_INF
    ensures Fp16Encode(Fp16Float(h)) == h
  {
    hide Fp16Widen, Fp16Mag;
    Fp16MagnitudeBack(h % 0x8000);
    assert Magnitude(Fp16Float(h)) == Fp16Widen(h % 0x8000);
  }

  // ---- bf16 ----

  const BF16_INF: nat := 0x7F80

  /** `float_to_bf16` of a pattern that is not NaN: a rounding bias, then the upper half. */
  function Bf16Encode(x: nat): nat
    requires Float32(x)
  {
    var bias := x / 0x1_0000 % 2 + 0x7FFF;
    (x + bias) % 0x1_0000_0000 / 0x1_0000
  }

  /** The bias carries exactly when the lower half rounds up. */
  function Carry(q: nat, rem: nat): nat {
    if rem + (q % 2 + 0x7FFF) >= 0x1_0000 then 1 else 0
  }

  lemma BiasRounds(q: nat, rem: nat)
    requires rem < 0x1_0000
    ensures RneDiv(q * 0x1_0000 + rem, 0x1_0000) == q + Carry(q, rem)
  {
    DivModIs(q * 0x1_0000 + rem, 0x1_0000, q, rem);
  }

  /** Sign and upper half together in h. */
  lemma BiasCarries(h: nat, rem: nat)
    requires h + 1 < 0x1_0000 && rem < 0x1_0000
    ensures Bf16Encode(h * 0x1_0000 + rem) == h + Carry(h, rem)
  {
    var x := h * 0x1_0000 + rem;
    DivModIs(x, 0x1_0000, h, rem);
    var low := rem + (h % 2 + 0x7FFF);
    assert x + (h % 2 + 0x7FFF) == h * 0x1_0000 + low;
    DivModIs(h * 0x1_0000 + low, 0x1_0000, h + Carry(h, rem), low - Carry(h, rem) * 0x1_0000);
  }

  lemma BiasIsRne(x: nat)
    requires Float32(x) && Magnitude(x) <= INF32
    ensures Bf16Encode(x) == (if Negative(x) then 0x8000 else 0) + RneDiv(Magnitude(x), 0x1_0000)
    ensures RneDiv(Magnitude(x), 0x1_0000) <= BF16_INF
  {
    hide RneDiv, Bf16Encode;
    var q, rem := Divided(Magnitude(x), 0x1_0000);
    BiasRounds(q, rem);
    var s: nat := if Negative(x) then 0x8000 else 0;
    BiasCarries(s + q, rem);
    assert x == (s + q) * 0x1_0000 + rem;
  }

  /** `float_to_bf16` keeps the sign and rounds the magnitude to nearest, ties to even. */
  lemma Bf16Nearest(x: nat)
    requires Float32(x) && Magnitude(x) <= INF32
    ensures Bf16Encode(x) >= 0x8000 <==> Negative(x)
    ensures Nearest(Scaled(7, 16), BF16_INF, Units(x), Bf16Encode(x) % 0x8000)
  {
    hide Grid, Pow2, RneDiv, Scaled, Nearest, Bf16Encode, Magnitude;
    BiasIsRne(x);
    var r := RneDiv(Magnitude(x), 0x1_0000);
    assert Bf16Encode(x) % 0x8000 == r;
    Bf16Shift(Magnitude(x));
  }

  lemma Bf16Shift(b: nat)
    requires b <= INF32 && RneDiv(b, 0x1_0000) <= BF16_INF
    ensures Nearest(Scaled(7, 16), BF16_INF, Grid(23, b), RneDiv(b, 0x1_0000))
  {
    Pow2Table();
    hide Grid, Pow2, RneDiv, Scaled, Nearest;
    assert b - 0 * M23 == b;
    ShiftNearest(7, 0, b, BF16_INF);
  }

  /** Widening a bf16 shifts it up; narrowing it again returns it, for every pattern but NaN. */
  lemma Bf16RoundTrip(h: nat)
    requires h < 0x1_0000 && h % 0x8000 <= BF16_INF
    ensures Bf16Encode(h * 0x1_0000) == h
    ensures Units(h * 0x1_0000) == Grid(7, h % 0x8000) * Pow2(16)
  {
    var x, c := h * 0x1_0000, h % 0x8000;
    assert Magnitude(x) == c * 0x1_0000;
    BiasIsRne(x);
    Pow2Table();
    hide Grid, Pow2;
    var e, f := Divided(c, 128);
    Aligned(7, 0, e, e, f * 0x1_0000, 0x1_0000, f, 0);
  }
}

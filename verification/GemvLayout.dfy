/**
 What the products and decoders of `Gemv` compute, from the stored bytes by index: the packing of
 nibbles, the element formats, the scale planes and the layout of inputs and outputs.
 */
module GemvLayout {
  import opened Rounding
  import opened Formats
  import opened Gemv
  import Measure

  // ---- powers of two ----

  /** The power the decoders scale by: one at zero, doubling with every step, for all integers. */
  lemma PowerLaw(k: int)
    ensures Power(0) == 1.0 && Power(k + 1) == 2.0 * Power(k)
  {
  }

  lemma {:induction false} PowerIsPow2(n: nat)
    ensures Power(n) == Pow2(n) as real
  {
    if n > 0 { PowerIsPow2(n - 1); }
  }

  lemma {:induction false} PowerShift(n: nat)
    ensures Power(n - 6) * 64.0 == Power(n)
  {
    if n == 0 {
      PowerLaw(-6); PowerLaw(-5); PowerLaw(-4); PowerLaw(-3); PowerLaw(-2); PowerLaw(-1);
    } else {
      PowerShift(n - 1);
      PowerLaw(n - 7);
      PowerLaw(n - 1);
    }
  }

  // ---- element values ----

  /** An E2M1 nibble is its pattern on the grid with one mantissa bit, in halves. */
  function Fp4Real(nib: nat): real { WithSign(nib >= 8, Grid(1, nib % 8)) as real / 2.0 }

  lemma Fp4Is(nib: nat)
    requires nib < 16
    ensures Fp4Value(nib) == Fin(Fp4Real(nib))
  {
    hide Grid, Pow2;
    var c := nib % 8;
    E2M1Table(c);
    assert nib / 8 % 2 == 1 <==> nib >= 8;
    HalfSigned(nib >= 8, Grid(1, c));
  }

  lemma HalfSigned(negative: bool, g: nat)
    ensures WithSign(negative, g) as real / 2.0 == if negative then -(g as real / 2.0) else g as real / 2.0
  {
  }

  lemma E2M1Table(c: nat)
    requires c < 8
    ensures [0.0, 0.5, 1.0, 1.5, 2.0, 3.0, 4.0, 6.0][c] == Grid(1, c) as real / 2.0
  {
    Grids1();
    hide Grid, Pow2;
    if c == 0 {} else if c == 1 {} else if c == 2 {} else if c == 3 {}
    else if c == 4 {} else if c == 5 {} else if c == 6 {} else { assert c == 7; }
  }

  lemma Grids1()
    ensures Grid(1, 0) == 0 && Grid(1, 1) == 1 && Grid(1, 2) == 2 && Grid(1, 3) == 3
    ensures Grid(1, 4) == 4 && Grid(1, 5) == 6 && Grid(1, 6) == 8 && Grid(1, 7) == 12
  {
    assert Pow2(1) == 2;
    assert Pow2(2) == 4;
  }

  /** An E4M3 byte is NaN on the two patterns of largest magnitude, else its signed value in units
      of 1/512. */
  lemma Fp8Is(b: nat)
    requires b < 256
    ensures Fp8Value(b) == if b % 128 == 127 then NaN else Fin(Fp8Signed(b) as real / 512.0)
  {
    hide Grid, Pow2, Power;
    var c := b % 128;
    ByteParts(b);
    if c != 127 {
      Fp8Magnitude(c, c / 8, c % 8);
      Signed512(b >= 128, Grid(3, c));
    }
  }

  lemma ByteParts(b: nat)
    requires b < 256
    ensures var c := b % 128;
            && b / 8 % 16 == c / 8 && b % 8 == c % 8 && (b / 128 % 2 == 1 <==> b >= 128)
            && (c / 8 == 15 && c % 8 == 7 <==> c == 127)
  {
    var c := b % 128;
    var s := b / 128;
    assert b == 128 * s + c && s <= 1;
    var e, m := c / 8, c % 8;
    assert c == 8 * e + m && e < 16;
    assert b == 8 * (16 * s + e) + m;
  }

  lemma Signed512(negative: bool, g: nat)
    ensures WithSign(negative, g) as real / 512.0 == if negative then -(g as real / 512.0) else g as real / 512.0
  {
  }

  lemma Fp8Magnitude(c: nat, e: nat, m: nat)
    requires c < 127 && e == c / 8 && m == c % 8
    ensures (if e == 0 then m as real / 512.0 else (1.0 + m as real / 8.0) * Power(e - 7)) == Grid(3, c) as real / 512.0
  {
    hide Grid, Power, Pow2;
    var g := Fp8Decode(c);
    if e > 0 { NormalMagnitude(e, m); }
  }

  lemma NormalMagnitude(e: nat, m: nat)
    requires e >= 1
    ensures (1.0 + m as real / 8.0) * Power(e - 7) == ((8 + m) * Pow2(e - 1)) as real / 512.0
  {
    hide Power, Pow2;
    PowerIsPow2(e - 1);
    PowerShift(e - 1);
    RealProduct(8 + m, Pow2(e - 1));
    Scale8(m as real, Power(e - 7), Power(e - 1), ((8 + m) * Pow2(e - 1)) as real);
  }

  lemma Scale8(m: real, a: real, b: real, g: real)
    requires a * 64.0 == b && g == (8.0 + m) * b
    ensures (1.0 + m / 8.0) * a == g / 512.0
  {
    var x := 8.0 + m;
    assert 1.0 + m / 8.0 == x / 8.0;
    assert (x / 8.0) * a == (x * a) / 8.0;
    assert x * (a * 64.0) == (x * a) * 64.0;
  }

  lemma RealProduct(a: nat, b: nat)
    ensures (a * b) as real == a as real * b as real
  {
  }

  // ---- packing ----

  ghost predicate Nibbles(n: seq<nat>) { |n| % 2 == 0 && forall i :: 0 <= i < |n| ==> n[i] < 16 }

  /** Two nibbles per byte, the even one low. */
  function Pack(n: seq<nat>): (bytes: seq<nat>)
    requires |n| % 2 == 0
    ensures |bytes| == |n| / 2
  {
    seq(|n| / 2, j requires 0 <= j < |n| / 2 => n[2 * j] + 16 * n[2 * j + 1])
  }

  lemma PackedNibble(n: seq<nat>, i: nat)
    requires Nibbles(n) && i < |n|
    ensures Nibble(Pack(n), i) == n[i]
  {
    var j := i / 2;
    assert i == 2 * j || i == 2 * j + 1;
    var lo, hi := n[2 * j], n[2 * j + 1];
    assert lo < 16 && hi < 16;
    assert Pack(n)[j] == lo + 16 * hi;
    Halves(lo, hi);
  }

  lemma Halves(lo: nat, hi: nat)
    requires lo < 16
    ensures (lo + 16 * hi) % 16 == lo && (lo + 16 * hi) / 16 == hi
  {
  }

  /** Element i of packed nibbles is nibble i. */
  lemma PackedElement(n: seq<nat>, i: nat)
    requires Nibbles(n) && i < |n|
    ensures Element(Fp4, Pack(n), i) == Fin(Fp4Real(n[i]))
  {
    hide Nibble, Pack, Fp4Value, Fp4Real;
    PackedNibble(n, i);
    Fp4Is(n[i]);
  }

  // ---- matrices by index ----

  lemma Index(r: nat, rows: nat, width: nat, i: nat)
    requires r < rows && i < width
    ensures r * width + i < rows * width
  {
    MulLe(r + 1, rows, width);
  }

  /** Row r of a matrix is decodable on its own. */
  ghost predicate HasRow(w: Matrix, r: nat) { w.K % 32 == 0 && r < w.rows && w.RowFits(r) }

  /** The exponent of element (r, i): one per row and 32 elements for FP4, one per 32 rows and 32
      elements for FP8. */
  ghost function ScaleAt(w: Matrix, r: nat, i: nat): nat
    requires HasRow(w, r) && i < w.K
  {
    if w.kind.Fp4? then
      Index(r, w.rows, w.K / 32, i / 32);
      w.scales[r * (w.K / 32) + i / 32]
    else
      Index(r / 32, r / 32 + 1, w.K / 32, i / 32);
      w.scales[(r / 32) * (w.K / 32) + i / 32]
  }

  lemma RowScale(w: Matrix, r: nat, i: nat)
    requires HasRow(w, r) && i < w.K
    ensures w.RowAt(r).scales[i / 32] == ScaleAt(w, r, i)
  {
    var kb, row := w.K / 32, w.RowAt(r);
    if w.kind.Fp4? {
      Slice(r, w.rows, kb);
      assert row.scales == w.scales[r * kb..r * kb + kb];
      SliceAt(w.scales, r * kb, kb, i / 32);
    } else {
      var q := r / 32;
      Slice(q, q + 1, kb);
      assert row.scales == w.scales[q * kb..q * kb + kb];
      SliceAt(w.scales, q * kb, kb, i / 32);
    }
  }

  lemma SliceAt(s: seq<nat>, at: nat, n: nat, k: nat)
    requires at + n <= |s| && k < n
    ensures s[at..at + n][k] == s[at + k]
  {
  }

  /** Byte k of row r. */
  ghost function ByteAt(w: Matrix, r: nat, k: nat): nat
    requires HasRow(w, r) && k < RowBytes(w.kind, w.K)
  {
    Index(r, w.rows, RowBytes(w.kind, w.K), k);
    w.weights[r * (if w.kind.Fp4? then w.K / 2 else w.K) + k]
  }

  lemma RowByte(w: Matrix, r: nat, k: nat)
    requires HasRow(w, r) && k < RowBytes(w.kind, w.K)
    ensures w.RowAt(r).bytes[k] == ByteAt(w, r, k)
  {
    var rb := RowBytes(w.kind, w.K);
    MulLe(r + 1, w.rows, rb);
    OneMore(r, rb);
    SliceAt(w.weights, r * rb, rb, k);
  }

  lemma HalfRow(r: nat, K: nat, i: nat)
    requires K % 32 == 0
    ensures (r * K + i) / 2 == r * (K / 2) + i / 2 && (r * K + i) % 2 == i % 2
  {
    HalfBy(r, K / 2, i, r * (K / 2), r * K);
  }

  lemma HalfBy(r: nat, h: nat, i: nat, half: nat, whole: nat)
    requires half == r * h && whole == r * (2 * h)
    ensures (whole + i) / 2 == half + i / 2 && (whole + i) % 2 == i % 2
  {
    Doubled(r, h);
    Shifted2(half, i);
  }

  lemma Doubled(r: nat, h: nat)
    ensures r * (2 * h) == 2 * (r * h)
  {
  }

  lemma Shifted2(a: nat, i: nat)
    ensures (2 * a + i) / 2 == a + i / 2 && (2 * a + i) % 2 == i % 2
  {
  }

  /** The weights of an FP4 matrix are these nibbles, row after row. */
  ghost predicate PackedFrom(w: Matrix, n: seq<nat>) {
    w.kind.Fp4? && w.K % 32 == 0 && Nibbles(n) && |n| == w.rows * w.K && Pack(n) <= w.weights
  }

  lemma RowNibble(w: Matrix, n: seq<nat>, r: nat, i: nat)
    requires PackedFrom(w, n) && HasRow(w, r) && i < w.K
    ensures r * w.K + i < |n| && w.RowAt(r).Stored(i) == Element(Fp4, Pack(n), r * w.K + i)
  {
    hide Fp4Value;
    Index(r, w.rows, w.K, i);
    HalfRow(r, w.K, i);
    var at, bytes := r * w.K + i, Pack(n);
    hide Pack;
    RowByte(w, r, i / 2);
    assert bytes[at / 2] == w.weights[at / 2];
  }

  /** An FP4 matrix packed from nibbles decodes element (r, i) to nibble r * K + i, times two to its
      exponent less 127. */
  lemma Fp4Decoded(w: Matrix, n: seq<nat>, r: nat, i: nat)
    requires PackedFrom(w, n) && HasRow(w, r) && i < w.K
    ensures r * w.K + i < |n|
    ensures w.RowAt(r).Decoded(i) == Fin(Fp4Real(n[r * w.K + i]) * Power(ScaleAt(w, r, i) as int - 127))
  {
    hide Fp4Real, Power, Pack, Element, ScaleAt;
    RowNibble(w, n, r, i);
    PackedElement(n, r * w.K + i);
    RowScale(w, r, i);
  }

  /** An FP8 matrix decodes element (r, i) to byte i of row r, times two to its exponent less 127. */
  lemma Fp8Decoded(w: Matrix, r: nat, i: nat)
    requires w.kind.Fp8? && HasRow(w, r) && i < w.K && ByteAt(w, r, i) < 256
    ensures var b := ByteAt(w, r, i);
            w.RowAt(r).Decoded(i) == if b % 128 == 127 then NaN
                                     else Fin((Fp8Signed(b) as real / 512.0) * Power(ScaleAt(w, r, i) as int - 127))
  {
    hide Fp8Value, Fp8Signed, Power, ScaleAt, ByteAt;
    Fp8Is(ByteAt(w, r, i));
    RowScale(w, r, i);
    RowByte(w, r, i);
  }

  /** A row is refused exactly when one of its exponents is 255. */
  lemma CleanByIndex(w: Matrix, r: nat)
    requires HasRow(w, r)
    ensures var at := (if w.kind.Fp4? then r else r / 32) * (w.K / 32);
            at + w.K / 32 <= |w.scales|
            && (w.RowAt(r).Clean() <==> forall b :: at <= b < at + w.K / 32 ==> w.scales[b] != 255)
  {
    hide NanScale;
    RowScales(w, r);
    var q := if w.kind.Fp4? then r else r / 32;
    CleanSlice(w.scales, q * (w.K / 32), w.K / 32, w.RowAt(r));
  }

  lemma RowScales(w: Matrix, r: nat)
    requires HasRow(w, r)
    ensures var at := (if w.kind.Fp4? then r else r / 32) * (w.K / 32);
            at + w.K / 32 <= |w.scales| && w.RowAt(r).scales == w.scales[at..at + w.K / 32]
  {
    var kb := w.K / 32;
    if w.kind.Fp4? { Slice(r, w.rows, kb); } else { Slice(r / 32, r / 32 + 1, kb); }
  }

  lemma CleanSlice(s: seq<nat>, at: nat, n: nat, row: Row)
    requires at + n <= |s| && row.scales == s[at..at + n]
    ensures row.Clean() <==> forall b :: at <= b < at + n ==> s[b] != 255
  {
    assert forall b :: at <= b < at + n ==> s[b] == row.scales[b - at];
  }

  // ---- outputs ----

  lemma {:induction false} FiniteDot(row: Row, x: seq<Num>, d: seq<real>, xs: seq<real>, n: nat)
    requires row.Valid() && n <= row.K <= |x| && |d| == row.K == |xs|
    requires forall i :: 0 <= i < row.K ==> row.Decoded(i) == Fin(d[i]) && x[i] == Fin(xs[i])
    ensures Gemv.Dot(row, x, n) == Fin(Measure.Dot(d[..n], xs[..n]))
  {
    hide Ldexp, Element, Mul, Measure.Times;
    if n > 0 {
      FiniteDot(row, x, d, xs, n - 1);
      assert row.Decoded(n - 1) == Fin(d[n - 1]);
      MulIs(d[n - 1], xs[n - 1]);
      assert d[..n][..n - 1] == d[..n - 1] && xs[..n][..n - 1] == xs[..n - 1];
    }
  }

  lemma MulIs(a: real, b: real)
    ensures Mul(Fin(a), Fin(b)) == Fin(Measure.Times(a, b))
  {
  }

  lemma {:induction false} NanDot(row: Row, x: seq<Num>, i: nat, n: nat)
    requires row.Valid() && i < n <= row.K <= |x| && (row.Decoded(i).NaN? || x[i].NaN?)
    ensures Gemv.Dot(row, x, n).NaN?
  {
    if i < n - 1 { NanDot(row, x, i, n - 1); }
  }

  lemma InputAt(x: seq<Num>, m: nat, K: nat, M: nat, i: nat)
    requires m < M && |x| >= K * M && i < K && m * K + K <= |x|
    ensures Input(x, m, K, M)[i] == x[m * K + i]
  {
    var at := m * K;
    assert Input(x, m, K, M) == x[at..at + K];
  }

  lemma ComputedIs(w: Matrix, x: seq<Num>, M: nat, y: seq<Num>, m: nat, r: nat)
    requires w.K % 32 == 0 && w.Fits() && |x| >= w.K * M && m < M && r < w.rows && |y| >= M * w.rows
    requires Computed(w, x, M, y, m, r)
    ensures m * w.rows + r < |y| && y[m * w.rows + r] == Gemv.Dot(RowOf(w, r), Input(x, m, w.K, M), w.K)
  {
    hide Gemv.Dot, RowOf, Input;
    SlotBound(m, r, w.rows, M);
  }

  /** Output m * rows + r is the plain dot product of decoded row r with inputs m * K onwards. */
  lemma OutputFinite(w: Matrix, x: seq<Num>, M: nat, y: seq<Num>, m: nat, r: nat, d: seq<real>, xs: seq<real>)
    requires w.K % 32 == 0 && w.Fits() && |x| >= w.K * M && m < M && r < w.rows && |y| >= M * w.rows
    requires Computed(w, x, M, y, m, r) && |d| == |xs| == w.K && m * w.K + w.K <= |x|
    requires forall i :: 0 <= i < w.K ==> RowOf(w, r).Decoded(i) == Fin(d[i]) && x[m * w.K + i] == Fin(xs[i])
    ensures m * w.rows + r < |y| && y[m * w.rows + r] == Fin(Measure.Dot(d, xs))
  {
    hide Gemv.Dot, Measure.Dot, Element, Ldexp, RowOf, Input, Computed;
    ComputedIs(w, x, M, y, m, r);
    var row, v := RowOf(w, r), Input(x, m, w.K, M);
    forall i | 0 <= i < w.K ensures v[i] == x[m * w.K + i] { InputAt(x, m, w.K, M, i); }
    FiniteDot(row, v, d, xs, w.K);
    assert d[..w.K] == d && xs[..w.K] == xs;
  }

  /** It is NaN where one of its factors is. */
  lemma OutputNaN(w: Matrix, x: seq<Num>, M: nat, y: seq<Num>, m: nat, r: nat, i: nat)
    requires w.K % 32 == 0 && w.Fits() && |x| >= w.K * M && m < M && r < w.rows && |y| >= M * w.rows
    requires Computed(w, x, M, y, m, r) && i < w.K && m * w.K + w.K <= |x|
    requires RowOf(w, r).Decoded(i).NaN? || x[m * w.K + i].NaN?
    ensures m * w.rows + r < |y| && y[m * w.rows + r].NaN?
  {
    hide Gemv.Dot, Element, Ldexp, RowOf, Input, Computed;
    ComputedIs(w, x, M, y, m, r);
    InputAt(x, m, w.K, M, i);
    NanDot(RowOf(w, r), Input(x, m, w.K, M), i, w.K);
  }
}

/**
 Blocked matrix-vector products over quantised weights (cpu/gemv_avx512.cpp) and the row decoders
 they must agree with (cpu/dequant.cpp). Arithmetic is exact; NaN is carried along as in floats.
 */
module Gemv {
  import opened Rounding

  datatype Status = Ok | InvalidArgument | OutOfRange | Corrupt

  datatype Num = NaN | Fin(value: real)

  function Add(a: Num, b: Num): Num { if a.NaN? || b.NaN? then NaN else Fin(a.value + b.value) }
  function Mul(a: Num, b: Num): Num { if a.NaN? || b.NaN? then NaN else Fin(a.value * b.value) }

  /** 2^k for any integer k. */
  function Power(k: int): real
    decreases if k < 0 then -k else k
  {
    if k == 0 then 1.0 else if k > 0 then 2.0 * Power(k - 1) else Power(k + 1) / 2.0
  }

  function Ldexp(a: Num, k: int): Num { if a.NaN? then NaN else Fin(a.value * Power(k)) }

  // ---- stored elements ----

  /** E2M1: {0, .5, 1, 1.5, 2, 3, 4, 6} with a sign bit. */
  function Fp4Value(nib: nat): Num {
    var mag := [0.0, 0.5, 1.0, 1.5, 2.0, 3.0, 4.0, 6.0][nib % 8];
    Fin(if nib / 8 % 2 == 1 then -mag else mag)
  }

  /** E4M3: bias 7, subnormals at exponent field 0, one NaN pattern per sign. */
  function Fp8Value(b: nat): Num {
    var e, m := b / 8 % 16, b % 8;
    if e == 15 && m == 7 then NaN
    else
      var v := if e == 0 then m as real / 512.0 else (1.0 + m as real / 8.0) * Power(e - 7);
      Fin(if b / 128 % 2 == 1 then -v else v)
  }

  /** Two elements per byte, the even one in the low nibble. */
  function Nibble(packed: seq<nat>, i: nat): nat
    requires i / 2 < |packed|
  {
    if i % 2 == 1 then packed[i / 2] / 16 else packed[i / 2] % 16
  }

  /** The shift an E8M0 scale stands for. */
  function Exponent(e: nat): int { e as int - 127 }

  /** Exponent 255 is not a scale. */
  predicate NanScale(e: nat) { e == 0xFF }

  // ---- rows ----

  datatype Kind = Fp4 | Fp8

  /** Bytes that hold K elements. */
  function RowBytes(kind: Kind, K: nat): nat { if kind.Fp4? then K / 2 else K }

  function Element(kind: Kind, bytes: seq<nat>, i: nat): Num
    requires if kind.Fp4? then i / 2 < |bytes| else i < |bytes|
  {
    if kind.Fp4? then Fp4Value(Nibble(bytes, i)) else Fp8Value(bytes[i])
  }

  /** One matrix row: its stored bytes and one exponent per 32 elements. */
  datatype Row = Row(kind: Kind, bytes: seq<nat>, scales: seq<nat>, K: nat) {
    ghost predicate Valid() {
      K % 32 == 0 && |bytes| == RowBytes(kind, K) && |scales| == K / 32
    }

    predicate Clean() { forall b :: 0 <= b < |scales| ==> !NanScale(scales[b]) }

    function Stored(i: nat): Num
      requires Valid() && i < K
    {
      Element(kind, bytes, i)
    }

    /** The decoded element: the stored value with its block's exponent applied. */
    function Decoded(i: nat): Num
      requires Valid() && i < K
    {
      Ldexp(Stored(i), Exponent(scales[i / 32]))
    }
  }

  /** Plain dot product of the first n decoded elements with x. */
  ghost function Dot(row: Row, x: seq<Num>, n: nat): Num
    requires row.Valid() && n <= row.K <= |x|
  {
    if n == 0 then Fin(0.0) else Add(Dot(row, x, n - 1), Mul(row.Decoded(n - 1), x[n-1]))
  }

  /** Unscaled partial sum of n elements from `base` on. */
  ghost function Part(row: Row, x: seq<Num>, base: nat, n: nat): Num
    requires row.Valid() && base + n <= row.K <= |x|
  {
    if n == 0 then Fin(0.0) else Add(Part(row, x, base, n - 1), Mul(row.Stored(base + n - 1), x[base + n - 1]))
  }

  lemma Associative(a: Num, b: Num, c: Num)
    ensures Add(Add(a, b), c) == Add(a, Add(b, c))
  {
  }

  lemma LdexpAdds(a: Num, b: Num, k: int)
    ensures Ldexp(Add(a, b), k) == Add(Ldexp(a, k), Ldexp(b, k))
  {
  }

  lemma LdexpMoves(a: Num, b: Num, k: int)
    ensures Mul(Ldexp(a, k), b) == Ldexp(Mul(a, b), k)
  {
    if a.Fin? && b.Fin? { assert a.value * Power(k) * b.value == a.value * b.value * Power(k); }
  }

  /** Scaling a block's partial sum once is scaling each of its elements. */
  lemma {:induction false} BlockIsScaled(row: Row, x: seq<Num>, blk: nat, n: nat)
    requires row.Valid() && row.K <= |x| && blk < row.K / 32 && n <= 32
    ensures Dot(row, x, blk * 32 + n)
         == Add(Dot(row, x, blk * 32), Ldexp(Part(row, x, blk * 32, n), Exponent(row.scales[blk])))
  {
    var base, k := blk * 32, Exponent(row.scales[blk]);
    if n == 0 {
      assert 0.0 * Power(k) == 0.0;
    } else {
      BlockIsScaled(row, x, blk, n - 1);
      var i := base + n - 1;
      assert i / 32 == blk;
      LdexpMoves(row.Stored(i), x[i], k);
      var p := Part(row, x, base, n - 1);
      LdexpAdds(p, Mul(row.Stored(i), x[i]), k);
      Associative(Dot(row, x, base), Ldexp(p, k), Ldexp(Mul(row.Stored(i), x[i]), k));
    }
  }

  // ---- the loops ----

  /** One output: blocks accumulated unscaled, then scaled and added; stops at a NaN scale. */
  method RowDot(row: Row, x: seq<Num>) returns (ok: bool, acc: Num)
    requires row.Valid() && row.K <= |x|
    ensures ok == row.Clean()
    ensures ok ==> acc == Dot(row, x, row.K)
  {
    acc := Fin(0.0);
    for blk := 0 to |row.scales|
      invariant acc == Dot(row, x, blk * 32)
      invariant forall b :: 0 <= b < blk ==> !NanScale(row.scales[b])
    {
      var e := row.scales[blk];
      if NanScale(e) { return false, acc; }
      var part := BlockPart(row, x, blk * 32);
      BlockIsScaled(row, x, blk, 32);
      acc := Add(acc, Ldexp(part, Exponent(e)));
    }
    return true, acc;
  }

  method BlockPart(row: Row, x: seq<Num>, base: nat) returns (part: Num)
    requires row.Valid() && base + 32 <= row.K <= |x|
    ensures part == Part(row, x, base, 32)
  {
    part := Fin(0.0);
    for j := 0 to 32
      invariant part == Part(row, x, base, j)
    {
      part := Add(part, Mul(row.Stored(base + j), x[base + j]));
    }
  }

  /** The size checks of the row decoders; FP4 has blocks of 32. */
  predicate RowOk(kind: Kind, bytes: seq<nat>, scales: seq<nat>, n: nat, block: nat, room: nat) {
    block != 0 && n % block == 0 && |bytes| >= RowBytes(kind, n) && |scales| >= n / block && room >= n
  }

  predicate CleanTo(scales: seq<nat>, n: nat)
    requires n <= |scales|
  {
    forall b :: 0 <= b < n ==> !NanScale(scales[b])
  }

  lemma ElementThere(kind: Kind, bytes: seq<nat>, scales: seq<nat>, n: nat, block: nat, i: nat)
    requires RowOk(kind, bytes, scales, n, block, n) && (kind.Fp4? ==> block == 32) && i < n
    ensures i / block < |scales| && (if kind.Fp4? then i / 2 < |bytes| else i < |bytes|)
  {
    WholeBlocks(n, block);
    BelowQuotient(i, n / block, block);
    if kind.Fp4? { HalfThere(n, i, block); }
  }

  lemma HalfThere(n: nat, i: nat, block: nat)
    requires block == 32 && n % block == 0 && i < n
    ensures i / 2 < n / 2
  {
  }

  lemma WholeBlocks(n: nat, block: nat)
    requires block != 0 && n % block == 0
    ensures (n / block) * block == n
  {
    var q, r := Divided(n, block);
  }

  lemma BelowQuotient(i: nat, m: nat, block: nat)
    requires block != 0 && i < m * block
    ensures i / block < m
  {
    var q, r := Divided(i, block);
    if m <= q { MulLe(m, q, block); }
  }

  /** A stored element with its block's exponent applied. */
  function Dequantised(kind: Kind, bytes: seq<nat>, scales: seq<nat>, n: nat, block: nat, i: nat): Num
    requires RowOk(kind, bytes, scales, n, block, n) && (kind.Fp4? ==> block == 32) && i < n
  {
    ElementThere(kind, bytes, scales, n, block, i);
    Ldexp(Element(kind, bytes, i), Exponent(scales[i / block]))
  }

  /** Elements before i are decoded. */
  ghost predicate DecodedTo(kind: Kind, bytes: seq<nat>, scales: seq<nat>, n: nat, block: nat, out: seq<Num>, i: nat)
    requires RowOk(kind, bytes, scales, n, block, n) && (kind.Fp4? ==> block == 32) && i <= n <= |out|
  {
    forall k: nat :: k < i ==> out[k] == Dequantised(kind, bytes, scales, n, block, k)
  }

  /** The row decoder: writes decoded elements until a NaN scale stops it. */
  method DequantRow(kind: Kind, bytes: seq<nat>, scales: seq<nat>, n: nat, block: nat, out: array<Num>) returns (st: Status)
    requires kind.Fp4? ==> block == 32
    modifies out
    ensures st == InvalidArgument <==>
              block == 0 || n % block != 0 || |bytes| < (if kind.Fp4? then n / 2 else n) || |scales| < n / block || out.Length < n
    ensures st == InvalidArgument ==> out[..] == old(out[..])
    ensures st != InvalidArgument ==> st == if CleanTo(scales, n / block) then Ok else Corrupt
    ensures st == Ok ==> DecodedTo(kind, bytes, scales, n, block, out[..], n)
    ensures forall i :: n <= i < out.Length ==> out[i] == old(out[i])
  {
    if !RowOk(kind, bytes, scales, n, block, out.Length) { return InvalidArgument; }
    WholeBlocks(n, block);
    var blocks := n / block;
    hide RowOk, DecodedTo;
    for blk := 0 to blocks
      invariant blk * block <= n && DecodedTo(kind, bytes, scales, n, block, out[..], blk * block)
      invariant forall i :: n <= i < out.Length ==> out[i] == old(out[i])
      invariant CleanTo(scales, blk)
    {
      if NanScale(scales[blk]) { return Corrupt; }
      MulLe(blk + 1, blocks, block);
      OneMore(blk, block);
      DequantBlock(kind, bytes, scales, n, block, out, blk);
    }
    return Ok;
  }

  /** One block of the row decoder. */
  method DequantBlock(kind: Kind, bytes: seq<nat>, scales: seq<nat>, n: nat, block: nat, out: array<Num>, blk: nat)
    requires RowOk(kind, bytes, scales, n, block, n) && (kind.Fp4? ==> block == 32) && n <= out.Length
    requires blk < |scales| && blk * block + block <= n && DecodedTo(kind, bytes, scales, n, block, out[..], blk * block)
    modifies out
    ensures DecodedTo(kind, bytes, scales, n, block, out[..], blk * block + block)
    ensures forall i :: n <= i < out.Length ==> out[i] == old(out[i])
  {
    for j := 0 to block
      invariant DecodedTo(kind, bytes, scales, n, block, out[..], blk * block + j)
      invariant forall i :: n <= i < out.Length ==> out[i] == old(out[i])
    {
      var i := blk * block + j;
      DivModIs(i, block, blk, j);
      ElementThere(kind, bytes, scales, n, block, i);
      out[i] := Ldexp(Element(kind, bytes, i), Exponent(scales[blk]));
    }
  }

  // ---- matrices ----

  /** A [rows, K] weight plane with its exponents: one row of exponents per matrix row for FP4,
      one per 32 rows for FP8. */
  datatype Matrix = Matrix(kind: Kind, weights: seq<nat>, scales: seq<nat>, rows: nat, K: nat) {

    function ScaleRow(r: nat): nat { if kind.Fp4? then r else r / 32 }

    function ScaleRows(): nat { if kind.Fp4? then rows else (rows + 31) / 32 }

    /** The spans hold the whole matrix. */
    predicate Fits() {
      |weights| >= rows * RowBytes(kind, K) && |scales| >= ScaleRows() * (K / 32)
    }

    /** What decoding row r alone asks for: for FP8, only the scale plane up to its tile. */
    predicate RowFits(r: nat) {
      |weights| >= rows * RowBytes(kind, K)
      && |scales| >= (if kind.Fp4? then rows else ScaleRow(r) + 1) * (K / 32)
    }

    function RowAt(r: nat): (row: Row)
      requires K % 32 == 0 && r < rows && RowFits(r)
      ensures row.Valid() && row.K == K
    {
      var rb, kb := RowBytes(kind, K), K / 32;
      Slice(r, rows, rb);
      Slice(ScaleRow(r), if kind.Fp4? then rows else ScaleRow(r) + 1, kb);
      Row(kind, weights[r * rb..r * rb + rb], scales[ScaleRow(r) * kb..ScaleRow(r) * kb + kb], K)
    }
  }

  lemma FitsRows(w: Matrix, r: nat)
    requires w.Fits() && r < w.rows
    ensures w.RowFits(r)
  {
    if w.kind.Fp8? { MulLe(r / 32 + 1, w.ScaleRows(), w.K / 32); }
  }

  /** Row r of a matrix that fits. */
  function RowOf(w: Matrix, r: nat): (row: Row)
    requires w.K % 32 == 0 && w.Fits() && r < w.rows
    ensures row.Valid() && row.K == w.K
  {
    FitsRows(w, r);
    w.RowAt(r)
  }

  lemma Slice(r: nat, n: nat, m: nat)
    requires r < n
    ensures 0 <= r * m && r * m + m <= n * m
  {
    MulLe(r + 1, n, m);
  }

  /** Output position of row r for batch entry m. */
  function Slot(m: nat, r: nat, rows: nat): nat { m * rows + r }

  lemma SlotBound(m: nat, r: nat, rows: nat, M: nat)
    requires m < M && r < rows
    ensures Slot(m, r, rows) < M * rows
  {
    Slice(m, M, rows);
  }

  lemma SlotInjective(m: nat, r: nat, m': nat, r': nat, rows: nat)
    requires r < rows && r' < rows && Slot(m, r, rows) == Slot(m', r', rows)
    ensures m == m' && r == r'
  {
    if m < m' { Slice(m, m', rows); } else if m' < m { Slice(m', m, rows); }
  }

  /** Activation vector of batch entry m. */
  function Input(x: seq<Num>, m: nat, K: nat, M: nat): (v: seq<Num>)
    requires m < M && |x| >= K * M
    ensures |v| == K
  {
    Slice(m, M, K);
    x[m * K..m * K + K]
  }

  ghost predicate Computed(w: Matrix, x: seq<Num>, M: nat, y: seq<Num>, m: nat, r: nat)
    requires w.K % 32 == 0 && w.Fits() && |x| >= w.K * M && m < M && r < w.rows && |y| >= M * w.rows
  {
    SlotBound(m, r, w.rows, M);
    y[Slot(m, r, w.rows)] == Dot(RowOf(w, r), Input(x, m, w.K, M), w.K)
  }

  predicate ShapeOk(w: Matrix, xLen: nat, M: nat, yLen: nat) {
    M > 0 && w.K > 0 && w.K % 32 == 0 && xLen >= w.K * M && yLen >= w.rows * M && w.Fits()
  }

  /** Every row's exponents are scales. */
  ghost predicate AllClean(w: Matrix)
    requires w.K % 32 == 0 && w.Fits()
  {
    forall r :: 0 <= r < w.rows ==> RowOf(w, r).Clean()
  }

  method Gemv(w: Matrix, x: seq<Num>, M: nat, y: array<Num>) returns (st: Status)
    modifies y
    ensures st == InvalidArgument <==>
              || M == 0 || w.K == 0 || w.K % 32 != 0 || |x| < w.K * M || y.Length < w.rows * M
              || |w.weights| < w.rows * (if w.kind.Fp4? then w.K / 2 else w.K)
              || |w.scales| < (if w.kind.Fp4? then w.rows else (w.rows + 31) / 32) * (w.K / 32)
    ensures st != InvalidArgument ==> st == if AllClean(w) then Ok else Corrupt
    ensures st == Ok ==> y.Length >= M * w.rows
    ensures st == Ok ==> forall m, r :: 0 <= m < M && 0 <= r < w.rows ==> Computed(w, x, M, y[..], m, r)
  {
    if !ShapeOk(w, |x|, M, y.Length) { return InvalidArgument; }
    assert y.Length >= M * w.rows;
    for r := 0 to w.rows
      invariant forall q :: 0 <= q < r ==> RowOf(w, q).Clean()
      invariant forall m, q :: 0 <= m < M && 0 <= q < r ==> Computed(w, x, M, y[..], m, q)
    {
      for m := 0 to M
        invariant m > 0 ==> RowOf(w, r).Clean()
        invariant forall n, q :: 0 <= n < M && 0 <= q < r ==> Computed(w, x, M, y[..], n, q)
        invariant forall n :: 0 <= n < m ==> Computed(w, x, M, y[..], n, r)
      {
        var ok, acc := RowDot(RowOf(w, r), Input(x, m, w.K, M));
        if !ok { return Corrupt; }
        SlotBound(m, r, w.rows, M);
        ghost var before := y[..];
        y[Slot(m, r, w.rows)] := acc;
        StillComputed(w, x, M, before, y[..], m, r, acc);
      }
    }
    return Ok;
  }

  /** Writing one slot leaves the other outputs alone. */
  lemma StillComputed(w: Matrix, x: seq<Num>, M: nat, y: seq<Num>, y': seq<Num>, m: nat, r: nat, acc: Num)
    requires w.K % 32 == 0 && w.Fits() && |x| >= w.K * M && m < M && r < w.rows && |y| >= M * w.rows
    requires Slot(m, r, w.rows) < |y| && y' == y[Slot(m, r, w.rows) := acc]
    ensures forall n, q :: 0 <= n < M && 0 <= q < w.rows && (n != m || q != r) && Computed(w, x, M, y, n, q) ==>
                             Computed(w, x, M, y', n, q)
  {
    forall n, q | 0 <= n < M && 0 <= q < w.rows && (n != m || q != r) && Computed(w, x, M, y, n, q)
      ensures Computed(w, x, M, y', n, q)
    {
      SlotBound(n, q, w.rows, M);
      if Slot(n, q, w.rows) == Slot(m, r, w.rows) { SlotInjective(n, q, m, r, w.rows); }
    }
  }

  /** `dequant_fp4_matrix_row` / `dequant_fp8_matrix_row`. */
  method DequantMatrixRow(w: Matrix, r: nat, out: array<Num>) returns (st: Status)
    modifies out
    ensures r >= w.rows ==> st == OutOfRange
    ensures r < w.rows ==> (st == InvalidArgument <==>
              || w.K % 32 != 0 || |w.weights| < w.rows * (if w.kind.Fp4? then w.K / 2 else w.K)
              || |w.scales| < (if w.kind.Fp4? then w.rows else r / 32 + 1) * (w.K / 32) || out.Length < w.K)
    ensures r < w.rows && w.K % 32 == 0 && w.RowFits(r) && out.Length >= w.K ==>
              && st == (if w.RowAt(r).Clean() then Ok else Corrupt)
              && (st == Ok ==> forall i :: 0 <= i < w.K ==> out[i] == w.RowAt(r).Decoded(i))
  {
    if r >= w.rows { return OutOfRange; }
    if w.K % 32 != 0 || !w.RowFits(r) { return InvalidArgument; }
    var row := w.RowAt(r);
    st := DequantRow(w.kind, row.bytes, row.scales, w.K, 32, out);
  }
}

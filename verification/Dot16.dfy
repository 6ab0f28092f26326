/**
 `dot16` and `confidence` of cpu/dspark_tree.cpp: sixteen running lanes, summed in order.

 The methods are stated for an arbitrary addition and multiplication, so what they promise
 holds for rounded arithmetic as well: no law of arithmetic is used about them.
 */
module Dot16 {
  import opened Measure

  const LANES := 16

  /** Lane l after n blocks of sixteen products. */
  function Lane<T>(add: (T, T) -> T, mul: (T, T) -> T, zero: T, a: seq<T>, b: seq<T>, l: nat, n: nat): T
    requires |a| == |b| && l < LANES && n * LANES <= |a|
  {
    if n == 0 then zero
    else
      var i := (n - 1) * LANES + l;
      add(Lane(add, mul, zero, a, b, l, n - 1), mul(a[i], b[i]))
  }

  /** The lanes added up in order, starting from zero. */
  function Fold<T>(add: (T, T) -> T, zero: T, lanes: seq<T>): T {
    if lanes == [] then zero else add(Fold(add, zero, lanes[..|lanes|-1]), lanes[|lanes|-1])
  }

  function Lanes<T>(add: (T, T) -> T, mul: (T, T) -> T, zero: T, a: seq<T>, b: seq<T>, n: nat): (s: seq<T>)
    requires |a| == |b| && n * LANES <= |a|
    ensures |s| == LANES
  {
    seq(LANES, l requires 0 <= l < LANES => Lane(add, mul, zero, a, b, l, n))
  }

  function Dot16Of<T>(add: (T, T) -> T, mul: (T, T) -> T, zero: T, a: seq<T>, b: seq<T>): T
    requires |a| == |b|
  {
    Fold(add, zero, Lanes(add, mul, zero, a, b, |a| / LANES))
  }

  /** One more product in every lane: block n of a whole a, b. */
  method AddBlock<T>(add: (T, T) -> T, mul: (T, T) -> T, zero: T, x: seq<T>, w: seq<T>,
                     acc: array<T>, ghost a: seq<T>, ghost b: seq<T>, ghost n: nat)
    requires |x| == |w| == LANES == acc.Length && |a| == |b| && n * LANES + LANES <= |a|
    requires x == a[n * LANES..n * LANES + LANES] && w == b[n * LANES..n * LANES + LANES]
    requires acc[..] == Lanes(add, mul, zero, a, b, n)
    modifies acc
    ensures acc[..] == Lanes(add, mul, zero, a, b, n + 1)
  {
    for l := 0 to LANES
      invariant forall j :: 0 <= j < LANES ==>
        acc[j] == Lane(add, mul, zero, a, b, j, if j < l then n + 1 else n)
    {
      assert x[l] == a[n * LANES + l] && w[l] == b[n * LANES + l];
      var prod := mul(x[l], w[l]);
      acc[l] := add(acc[l], prod);
    }
  }

  lemma ZeroLanes<T>(add: (T, T) -> T, mul: (T, T) -> T, zero: T, a: seq<T>, b: seq<T>, lanes: seq<T>)
    requires |a| == |b| && |lanes| == LANES && forall l :: 0 <= l < LANES ==> lanes[l] == zero
    ensures lanes == Lanes(add, mul, zero, a, b, 0)
  {
  }

  lemma SliceOfSlice<T>(a: seq<T>, lo: nat, hi: nat, r: nat, s: nat)
    requires lo <= hi <= |a| && r <= s <= hi - lo
    ensures a[lo..hi][r..s] == a[lo + r..lo + s]
  {
    var x, y := a[lo..hi][r..s], a[lo + r..lo + s];
    forall k | 0 <= k < s - r ensures x[k] == y[k] {
      assert x[k] == a[lo..hi][r + k] == a[lo + r + k];
    }
    assert x == y;
  }

  /** Runs the lanes on over one more operand pair: x against w, from block n0 of a whole a, b. */
  method Accumulate<T>(add: (T, T) -> T, mul: (T, T) -> T, zero: T, x: seq<T>, w: seq<T>,
                       acc: array<T>, ghost a: seq<T>, ghost b: seq<T>, ghost n0: nat)
    requires |x| == |w| && |x| % LANES == 0 && acc.Length == LANES && |a| == |b|
    requires n0 * LANES + |x| <= |a|
    requires x == a[n0 * LANES..n0 * LANES + |x|] && w == b[n0 * LANES..n0 * LANES + |x|]
    requires acc[..] == Lanes(add, mul, zero, a, b, n0)
    modifies acc
    ensures acc[..] == Lanes(add, mul, zero, a, b, n0 + |x| / LANES)
  {
    var r := 0;
    while r < |x|
      invariant 0 <= r <= |x| && r % LANES == 0
      invariant acc[..] == Lanes(add, mul, zero, a, b, n0 + r / LANES)
    {
      ghost var n := n0 + r / LANES;
      assert n * LANES == n0 * LANES + r;
      SliceOfSlice(a, n0 * LANES, n0 * LANES + |x|, r, r + LANES);
      SliceOfSlice(b, n0 * LANES, n0 * LANES + |x|, r, r + LANES);
      AddBlock(add, mul, zero, x[r..r + LANES], w[r..r + LANES], acc, a, b, n);
      r := r + LANES;
    }
  }

  method SumLanes<T>(add: (T, T) -> T, zero: T, acc: array<T>) returns (s: T)
    ensures s == Fold(add, zero, acc[..])
  {
    s := zero;
    for l := 0 to acc.Length
      invariant s == Fold(add, zero, acc[..l])
    {
      assert acc[..l+1][..l] == acc[..l];
      s := add(s, acc[l]);
    }
    assert acc[..acc.Length] == acc[..];
  }

  method Dot<T>(add: (T, T) -> T, mul: (T, T) -> T, zero: T, a: seq<T>, b: seq<T>) returns (s: T)
    requires |a| == |b| && |a| % LANES == 0
    ensures s == Dot16Of(add, mul, zero, a, b)
  {
    var acc := new T[LANES](_ => zero);
    ZeroLanes(add, mul, zero, a, b, acc[..]);
    assert a[0..|a|] == a && b[0..|b|] == b;
    Accumulate(add, mul, zero, a, b, acc, a, b, 0);
    s := SumLanes(add, zero, acc);
  }

  /** The confidence head: the very additions and multiplications of one dot over cat(x, e). */
  method Confidence<T>(add: (T, T) -> T, mul: (T, T) -> T, zero: T, x: seq<T>, e: seq<T>, w: seq<T>, bias: T)
    returns (s: T)
    requires |x| % LANES == 0 && |e| % LANES == 0 && |w| == |x| + |e|
    ensures s == add(Dot16Of(add, mul, zero, x + e, w), bias)
  {
    var acc := new T[LANES](_ => zero);
    ghost var a := x + e;
    hide Lane;
    ZeroLanes(add, mul, zero, a, w, acc[..]);
    assert a[0..|x|] == x && a[|x|..|x| + |e|] == e;
    Accumulate(add, mul, zero, x, w[..|x|], acc, a, w, 0);
    Accumulate(add, mul, zero, e, w[|x|..], acc, a, w, |x| / LANES);
    s := SumLanes(add, zero, acc);
    s := add(s, bias);
  }

  // ---- the order of the operations ----

  /** The first products of a lane, from the front, each added to what is there. */
  lemma LaneOrder<T>(add: (T, T) -> T, mul: (T, T) -> T, zero: T, a: seq<T>, b: seq<T>, l: nat)
    requires |a| == |b| >= 32 && l < 16
    ensures Lane(add, mul, zero, a, b, l, 2) == add(add(zero, mul(a[l], b[l])), mul(a[16 + l], b[16 + l]))
  {
    assert Lane(add, mul, zero, a, b, l, 1) == add(zero, mul(a[l], b[l]));
  }

  /** One more block adds one product to every lane. */
  lemma LaneGrows<T>(add: (T, T) -> T, mul: (T, T) -> T, zero: T, a: seq<T>, b: seq<T>, l: nat, n: nat)
    requires |a| == |b| && l < 16 && (n + 1) * 16 <= |a|
    ensures Lane(add, mul, zero, a, b, l, n + 1)
         == add(Lane(add, mul, zero, a, b, l, n), mul(a[n * 16 + l], b[n * 16 + l]))
  {
  }

  /** The lanes are added from the first to the last. */
  lemma FoldOrder<T>(add: (T, T) -> T, zero: T, x: T, y: T, rest: seq<T>, z: T)
    ensures Fold(add, zero, [x, y]) == add(add(zero, x), y)
    ensures Fold(add, zero, [x, y] + rest + [z]) == add(Fold(add, zero, [x, y] + rest), z)
  {
    assert [x, y][..1] == [x] && [x][..0] == [];
    assert Fold(add, zero, [x]) == add(zero, x);
    var all := [x, y] + rest + [z];
    assert all[..|all| - 1] == [x, y] + rest;
  }

  // ---- exact arithmetic: the lanes are only a reordering ----

  function Add(x: real, y: real): real { x + y }

  lemma {:induction false} FoldIsSum(lanes: seq<real>)
    ensures Fold(Add, 0.0, lanes) == Sum(lanes)
  {
    if lanes != [] { FoldIsSum(lanes[..|lanes|-1]); }
  }

  lemma {:induction false} DotExtend(a: seq<real>, b: seq<real>, n: nat, p: seq<real>)
    requires |a| == |b| && n + |p| <= |a|
    requires forall i :: 0 <= i < |p| ==> p[i] == Times(a[n + i], b[n + i])
    ensures Measure.Dot(a[..n + |p|], b[..n + |p|]) == Measure.Dot(a[..n], b[..n]) + Sum(p)
  {
    if p != [] {
      var m := |p| - 1;
      DotExtend(a, b, n, p[..m]);
      assert a[..n + m + 1][..n + m] == a[..n + m] && b[..n + m + 1][..n + m] == b[..n + m];
    }
  }

  /** The products of the sixteen elements from `at` on. */
  ghost function Products(a: seq<real>, b: seq<real>, at: nat): (p: seq<real>)
    requires at + LANES <= |a| == |b|
    ensures |p| == LANES && forall l :: 0 <= l < LANES ==> p[l] == Times(a[at + l], b[at + l])
  {
    seq(LANES, l requires 0 <= l < LANES => Times(a[at + l], b[at + l]))
  }

  lemma {:induction false} LanesSum(a: seq<real>, b: seq<real>, n: nat)
    requires |a| == |b| && n * LANES <= |a|
    ensures Sum(Lanes(Add, Times, 0.0, a, b, n)) == Measure.Dot(a[..n * LANES], b[..n * LANES])
  {
    hide Times;
    var lanes := Lanes(Add, Times, 0.0, a, b, n);
    if n == 0 {
      SumOfSums(lanes, lanes, lanes);
    } else {
      var m := n - 1;
      LanesSum(a, b, m);
      var p := Products(a, b, m * LANES);
      SumOfSums(Lanes(Add, Times, 0.0, a, b, m), p, lanes);
      DotExtend(a, b, m * LANES, p);
    }
  }

  /** Over exact arithmetic the sixteen lanes compute the plain dot product. */
  lemma Dot16Exact(a: seq<real>, b: seq<real>)
    requires |a| == |b| && |a| % LANES == 0
    ensures Dot16Of(Add, Times, 0.0, a, b) == Measure.Dot(a, b)
  {
    var n := |a| / LANES;
    FoldIsSum(Lanes(Add, Times, 0.0, a, b, n));
    LanesSum(a, b, n);
    assert a[..n * LANES] == a && b[..n * LANES] == b;
  }
}

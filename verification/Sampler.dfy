/**
 Inverse-CDF sampling: `first_argmax` and `sample_index` of cpu/dspark_tree.cpp.
 The weights are exact reals.
 */
module Sampler {
  import opened Measure

  /** The lowest index of a maximum. */
  ghost predicate IsFirstArgmax(v: seq<real>, a: nat) {
    && a < |v|
    && (forall i :: 0 <= i < |v| ==> v[i] <= v[a])
    && (forall i :: 0 <= i < a ==> v[i] < v[a])
  }

  /** The same index as a function; `FirstArgmaxUnique` says there is only one. */
  function ArgmaxOf(v: seq<real>): (arg: nat)
    requires v != []
    ensures IsFirstArgmax(v, arg)
  {
    if |v| == 1 then 0
    else
      var a := ArgmaxOf(v[..|v|-1]);
      if v[|v|-1] > v[a] then |v| - 1 else a
  }

  lemma FirstArgmaxUnique(v: seq<real>, a: nat, b: nat)
    requires IsFirstArgmax(v, a) && IsFirstArgmax(v, b)
    ensures a == b
  {
    assert v[a] <= v[b] <= v[a];
  }

  method FirstArgmax(v: seq<real>) returns (arg: nat)
    requires |v| > 0
    ensures IsFirstArgmax(v, arg)
  {
    var best := v[0];
    arg := 0;
    for i := 1 to |v|
      invariant arg < i && best == v[arg]
      invariant forall j :: 0 <= j < i ==> v[j] <= best
      invariant forall j :: 0 <= j < arg ==> v[j] < best
    {
      if v[i] > best { best, arg := v[i], i; }
    }
  }

  function FirstOver(w: seq<real>, t: real, i: nat): (r: nat)
    requires i <= |w|
    ensures i <= r <= |w|
    decreases |w| - i
  {
    if i == |w| || Sum(w[..i+1]) > t then i else FirstOver(w, t, i + 1)
  }

  function LastPositive(w: seq<real>): (r: nat)
    ensures w != [] ==> r < |w|
  {
    if w == [] then 0
    else if w[|w|-1] > 0.0 then |w| - 1 else LastPositive(w[..|w|-1])
  }

  /** The first index whose running sum exceeds t; failing that, the last positive weight. */
  function PickAt(w: seq<real>, t: real): (r: nat)
    ensures w != [] ==> r < |w|
  {
    var i := FirstOver(w, t, 0);
    if i < |w| then i else LastPositive(w)
  }

  /** The index drawn by the variate u. */
  function Pick(w: seq<real>, u: real): (r: nat)
    ensures w != [] ==> r < |w|
  {
    PickAt(w, Times(u, Sum(w)))
  }

  method SampleIndex(w: seq<real>, u: real) returns (r: nat)
    requires w != []
    ensures r == Pick(w, u)
  {
    var total := 0.0;
    for i := 0 to |w|
      invariant total == Sum(w[..i])
    {
      SumSnoc(w, i);
      total := total + w[i];
    }
    assert w[..|w|] == w;
    r := Scan(w, Times(u, total));
  }

  /** The cumulative scan shared by all draws. */
  method Scan(w: seq<real>, t: real) returns (r: nat)
    requires w != []
    ensures r == PickAt(w, t)
  {
    var cum, last := 0.0, 0;
    for i := 0 to |w|
      invariant cum == Sum(w[..i]) && last == LastPositive(w[..i])
      invariant FirstOver(w, t, 0) == FirstOver(w, t, i)
    {
      assert w[..i+1][..i] == w[..i];
      if w[i] > 0.0 { last := i; }
      cum := cum + w[i];
      if cum > t { return i; }
    }
    assert w[..|w|] == w;
    return last;
  }

  lemma {:induction false} FirstOverFirst(w: seq<real>, t: real, i: nat)
    requires i <= |w|
    ensures var r := FirstOver(w, t, i);
            (forall n :: i < n <= r ==> Sum(w[..n]) <= t) && (r < |w| ==> Sum(w[..r + 1]) > t)
    decreases |w| - i
  {
    if i < |w| && Sum(w[..i + 1]) <= t { FirstOverFirst(w, t, i + 1); }
  }

  lemma {:induction false} LastPositiveLast(w: seq<real>)
    requires w != []
    ensures var r := LastPositive(w);
            (forall j :: r < j < |w| ==> w[j] <= 0.0) && (w[r] > 0.0 || (r == 0 && w[0] <= 0.0))
  {
    if w[|w| - 1] <= 0.0 && |w| > 1 { LastPositiveLast(w[..|w| - 1]); }
  }

  /** The scan, for any weights and threshold: the first running sum above the threshold, failing that
      the last positive weight, failing that the first index. */
  lemma ScanSpelt(w: seq<real>, t: real)
    requires w != []
    ensures var r := PickAt(w, t);
            if exists n :: 1 <= n <= |w| && Sum(w[..n]) > t
            then Sum(w[..r + 1]) > t && forall n :: 1 <= n <= r ==> Sum(w[..n]) <= t
            else (forall j :: r < j < |w| ==> w[j] <= 0.0) && (w[r] > 0.0 || r == 0)
  {
    FirstOverFirst(w, t, 0);
    LastPositiveLast(w);
  }

  // ---- which variates draw which index ----

  ghost predicate InUnit(u: real) { 0.0 <= u < 1.0 }

  lemma {:induction false} FirstOverIs(w: seq<real>, t: real, i: nat, r: nat)
    requires NonNegative(w) && i <= r < |w|
    requires Sum(w[..r]) <= t < Sum(w[..r+1])
    ensures FirstOver(w, t, i) == r
    decreases r - i
  {
    if i < r {
      SumMonotone(w, i + 1, r);
      FirstOverIs(w, t, i + 1, r);
    }
  }

  lemma {:induction false} FirstOverFound(w: seq<real>, t: real, i: nat)
    requires i < |w| && Sum(w[..i]) <= t < Sum(w)
    ensures var r := FirstOver(w, t, i); r < |w| && Sum(w[..r]) <= t < Sum(w[..r+1])
    decreases |w| - i
  {
    assert w[..|w|] == w;
    if Sum(w[..i+1]) <= t { FirstOverFound(w, t, i + 1); }
  }

  lemma PickAtIs(w: seq<real>, t: real, i: nat)
    requires NonNegative(w) && 0.0 <= t < Sum(w) && i < |w|
    ensures PickAt(w, t) == i <==> Sum(w[..i]) <= t < Sum(w[..i+1])
  {
    FirstOverFound(w, t, 0);
    if Sum(w[..i]) <= t < Sum(w[..i+1]) { FirstOverIs(w, t, 0, i); }
  }

  /** The point t = u * Sum(w) of the cumulative scale that the variate u selects. */
  lemma PickByPoint(w: seq<real>, u: real, t: real)
    requires NonNegative(w) && Sum(w) > 0.0 && InUnit(u) && t == Times(u, Sum(w))
    ensures w != [] && 0.0 <= t < Sum(w) && Pick(w, u) == PickAt(w, t)
  {
    assert w != [];
    Within(u, Sum(w));
  }

  /** Where on the unit interval the draws of index i begin. */
  ghost function Cut(w: seq<real>, i: nat): real
    requires Sum(w) > 0.0 && i <= |w|
  {
    Sum(w[..i]) / Sum(w)
  }

  lemma CutBelow(w: seq<real>, i: nat, u: real)
    requires Sum(w) > 0.0 && i <= |w|
    ensures Cut(w, i) <= u <==> Sum(w[..i]) <= Times(u, Sum(w))
  {
    Quotient(Sum(w[..i]), Sum(w), u);
  }

  lemma CutStep(w: seq<real>, i: nat)
    requires Sum(w) > 0.0 && i < |w|
    ensures Cut(w, i + 1) - Cut(w, i) == w[i] / Sum(w)
  {
    SumSnoc(w, i);
    QuotientAdds(Sum(w[..i]), w[i], Sum(w));
  }

  lemma CutOrder(w: seq<real>, i: nat, j: nat)
    requires NonNegative(w) && Sum(w) > 0.0 && i <= j <= |w|
    ensures 0.0 <= Cut(w, i) <= Cut(w, j) <= 1.0
  {
    SumMonotone(w, 0, i); SumMonotone(w, i, j); SumMonotone(w, j, |w|);
    assert w[..|w|] == w;
    QuotientOrder(0.0, Sum(w[..i]), Sum(w[..j]), Sum(w));
  }

  /** Index i is drawn exactly by the variates of a half-open interval of length w[i] / Sum(w). */
  lemma PickInterval(w: seq<real>, u: real, i: nat)
    requires NonNegative(w) && Sum(w) > 0.0 && InUnit(u) && i < |w|
    ensures Pick(w, u) == i <==> Cut(w, i) <= u < Cut(w, i + 1)
    ensures Cut(w, i + 1) - Cut(w, i) == w[i] / Sum(w)
  {
    var t := Times(u, Sum(w));
    PickByPoint(w, u, t);
    PickAtIs(w, t, i);
    CutBelow(w, i, u);
    CutBelow(w, i + 1, u);
    CutStep(w, i);
  }

  lemma Within(u: real, total: real)
    requires InUnit(u) && total > 0.0
    ensures 0.0 <= Times(u, total) < total
  {
    assert (1.0 - u) * total > 0.0;
  }

  lemma QuotientOrder(a: real, b: real, c: real, total: real)
    requires 0.0 <= a <= b <= c <= total && total > 0.0
    ensures 0.0 <= a / total <= b / total <= c / total <= 1.0
  {
    QuotientMonotone(0.0, a, total); QuotientMonotone(a, b, total);
    QuotientMonotone(b, c, total); QuotientMonotone(c, total, total);
  }

  lemma QuotientMonotone(a: real, b: real, total: real)
    requires a <= b && total > 0.0
    ensures a / total <= b / total
  {
    var p, q := a / total, b / total;
    assert (q - p) * total == b - a;
    if q < p { assert (p - q) * total > 0.0; }
  }

  lemma QuotientAdds(a: real, b: real, total: real)
    requires total > 0.0
    ensures (a + b) / total == a / total + b / total
  {
  }

  lemma Quotient(a: real, b: real, u: real)
    requires b > 0.0
    ensures a / b <= u <==> a <= Times(u, b)
  {
    var q := a / b;
    assert q * b == a;
    assert (u - q) * b == Times(u, b) - a;
    if q <= u { assert (u - q) * b >= 0.0; } else { assert (u - q) * b < 0.0; }
  }

  /** An index of weight zero is never drawn. */
  lemma PickPositive(w: seq<real>, u: real)
    requires NonNegative(w) && Sum(w) > 0.0 && InUnit(u)
    ensures Pick(w, u) < |w| && w[Pick(w, u)] > 0.0
  {
    var t := Times(u, Sum(w));
    PickByPoint(w, u, t);
    var i := PickAt(w, t);
    PickAtIs(w, t, i);
    SumSnoc(w, i);
  }

  // ---- the integral of anything decided by a draw ----

  ghost function PickSteps(w: seq<real>, g: seq<real>, n: nat): seq<(real, real)>
    requires Sum(w) > 0.0 && n <= |w| == |g|
  {
    if n == 0 then [] else PickSteps(w, g, n - 1) + [(Cut(w, n - 1), g[n-1])]
  }

  lemma {:induction false} PickStepsCover(f: real -> real, w: seq<real>, g: seq<real>, n: nat)
    requires NonNegative(w) && Sum(w) > 0.0 && n <= |w| == |g|
    requires forall u :: InUnit(u) ==> f(u) == g[Pick(w, u)]
    ensures StepsOn(f, 0.0, Cut(w, n), PickSteps(w, g, n))
  {
    if n == 0 {
      CutEnds(w);
    } else {
      var m := n - 1;
      PickStepsCover(f, w, g, m);
      var s := PickSteps(w, g, n);
      assert s[..|s|-1] == PickSteps(w, g, m);
      CutOrder(w, m, n);
      forall u | Cut(w, m) <= u < Cut(w, n) ensures f(u) == g[m] {
        PickInterval(w, u, m);
      }
    }
  }

  lemma {:induction false} PickStepsArea(w: seq<real>, g: seq<real>, n: nat)
    requires Sum(w) > 0.0 && n <= |w| == |g|
    ensures Area(Cut(w, n), PickSteps(w, g, n)) == Dot(w[..n], g[..n]) / Sum(w)
  {
    if n == 0 {
      assert w[..0] == [] && g[..0] == [];
    } else {
      var m := n - 1;
      PickStepsArea(w, g, m);
      var s := PickSteps(w, g, n);
      assert s[..|s|-1] == PickSteps(w, g, m);
      CutStep(w, m);
      assert w[..n][..m] == w[..m] && g[..n][..m] == g[..m];
      Weighted(Cut(w, n) - Cut(w, m), w[m], g[m], Dot(w[..m], g[..m]), Sum(w));
    }
  }

  lemma Weighted(d: real, a: real, g: real, rest: real, total: real)
    requires total > 0.0 && d == a / total
    ensures Times(d, g) + rest / total == (rest + Times(a, g)) / total
  {
    QuotientAdds(rest, a * g, total);
  }

  lemma CutEnds(w: seq<real>)
    requires Sum(w) > 0.0
    ensures Cut(w, 0) == 0.0 && Cut(w, |w|) == 1.0
  {
    assert w[..|w|] == w;
  }

  /** If f only depends on the index that u draws, its integral is the weighted mean. */
  lemma IntegralOfPick(f: real -> real, w: seq<real>, g: seq<real>)
    requires NonNegative(w) && Sum(w) > 0.0 && |w| == |g|
    requires forall u :: InUnit(u) ==> f(u) == g[Pick(w, u)]
    ensures Integral(f) == Dot(w, g) / Sum(w)
  {
    PickStepsCover(f, w, g, |w|);
    PickStepsArea(w, g, |w|);
    assert w[..|w|] == w && g[..|w|] == g;
    CutEnds(w);
    IntegralIs(f, PickSteps(w, g, |w|));
  }
}

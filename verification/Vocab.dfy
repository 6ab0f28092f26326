/**
 Weights on a short list of token ids, and the same weights spread over the whole vocabulary.
 */
module Vocab {
  import opened Measure

  /** Distinct tokens of a vocabulary of size V. */
  ghost predicate Tokens(V: nat, ids: seq<int>) {
    && (forall i :: 0 <= i < |ids| ==> 0 <= ids[i] < V)
    && (forall i, j :: 0 <= i < j < |ids| ==> ids[i] != ids[j])
  }

  /** A probability distribution over the vocabulary. */
  ghost predicate IsLaw(V: nat, p: seq<real>) {
    |p| == V && NonNegative(p) && Sum(p) == 1.0
  }

  /** The weight listed for token y: that of its first occurrence, zero if it has none. */
  function Lookup(ids: seq<int>, w: seq<real>, y: int): real
    requires |ids| == |w|
  {
    if ids == [] then 0.0 else if ids[0] == y then w[0] else Lookup(ids[1..], w[1..], y)
  }

  /** Listed weights over the whole vocabulary. */
  function Lift(V: nat, ids: seq<int>, w: seq<real>): (p: seq<real>)
    requires |ids| == |w|
    ensures |p| == V
  {
    seq(V, y => Lookup(ids, w, y))
  }

  ghost function Gather(h: seq<real>, ids: seq<int>): (g: seq<real>)
    requires forall i :: 0 <= i < |ids| ==> 0 <= ids[i] < |h|
    ensures |g| == |ids|
  {
    seq(|ids|, i requires 0 <= i < |ids| => h[ids[i]])
  }

  /** The indicator of token y. */
  ghost function Indicator(V: nat, y: int): (h: seq<real>)
    ensures |h| == V
  {
    seq(V, x => if x == y then 1.0 else 0.0)
  }

  lemma {:induction false} LookupAt(V: nat, ids: seq<int>, w: seq<real>, i: nat)
    requires |ids| == |w| && Tokens(V, ids) && i < |ids|
    ensures Lookup(ids, w, ids[i]) == w[i]
  {
    if i > 0 {
      assert ids[0] != ids[i];
      LookupAt(V, ids[1..], w[1..], i - 1);
    }
  }

  lemma {:induction false} LookupAbsent(ids: seq<int>, w: seq<real>, y: int)
    requires |ids| == |w| && y !in ids
    ensures Lookup(ids, w, y) == 0.0
  {
    if ids != [] { LookupAbsent(ids[1..], w[1..], y); }
  }

  // ---- sums and dot products of vectors ----

  lemma {:induction false} DotUpdate(v: seq<real>, h: seq<real>, y: nat, d: real)
    requires |v| == |h| && y < |v|
    ensures Dot(v[y := v[y] + d], h) == Dot(v, h) + Times(d, h[y])
  {
    var n := |v| - 1;
    var v' := v[y := v[y] + d];
    if y == n {
      assert v'[..n] == v[..n];
      TimesAdds(v[n], d, h[n]);
    } else {
      DotUpdate(v[..n], h[..n], y, d);
      assert v'[..n] == v[..n][y := v[..n][y] + d];
    }
  }

  lemma {:induction false} DotZero(v: seq<real>, h: seq<real>)
    requires |v| == |h| && forall i :: 0 <= i < |v| ==> v[i] == 0.0
    ensures Dot(v, h) == 0.0
  {
    if v != [] { DotZero(v[..|v|-1], h[..|v|-1]); }
  }

  lemma {:induction false} DotOnes(v: seq<real>, h: seq<real>)
    requires |v| == |h| && forall i :: 0 <= i < |v| ==> h[i] == 1.0
    ensures Dot(v, h) == Sum(v)
  {
    if v != [] { DotOnes(v[..|v|-1], h[..|v|-1]); }
  }

  /** The dot product with an indicator reads one entry off. */
  lemma DotIndicator(v: seq<real>, y: nat)
    requires y < |v|
    ensures Dot(v, Indicator(|v|, y)) == v[y]
  {
    DotIndicatorPrefix(v, y, |v|);
    assert v[..|v|] == v && Indicator(|v|, y)[..|v|] == Indicator(|v|, y);
  }

  lemma {:induction false} DotIndicatorPrefix(v: seq<real>, y: nat, n: nat)
    requires y < |v| && n <= |v|
    ensures Dot(v[..n], Indicator(|v|, y)[..n]) == if y < n then v[y] else 0.0
  {
    if n > 0 {
      DotIndicatorPrefix(v, y, n - 1);
      assert v[..n][..n-1] == v[..n-1] && Indicator(|v|, y)[..n][..n-1] == Indicator(|v|, y)[..n-1];
    }
  }

  // ---- a listed sum is a sum over the vocabulary ----

  lemma LiftSnoc(V: nat, ids: seq<int>, w: seq<real>)
    requires |ids| == |w| && ids != [] && Tokens(V, ids)
    ensures var n := |ids| - 1;
            var init := Lift(V, ids[..n], w[..n]);
            init[ids[n]] == 0.0 && Lift(V, ids, w) == init[ids[n] := init[ids[n]] + w[n]]
  {
    var n := |ids| - 1;
    var init, last := Lift(V, ids[..n], w[..n]), ids[n];
    LookupAbsent(ids[..n], w[..n], last);
    forall y | 0 <= y < V ensures Lift(V, ids, w)[y] == if y == last then w[n] else init[y] {
      if y in ids[..n] {
        var i :| 0 <= i < n && ids[i] == y;
        LookupAt(V, ids, w, i);
        LookupAt(V, ids[..n], w[..n], i);
      } else if y == last {
        LookupAt(V, ids, w, n);
      } else {
        LookupAbsent(ids, w, y);
        LookupAbsent(ids[..n], w[..n], y);
      }
    }
  }

  lemma LiftNothing(V: nat, ids: seq<int>, w: seq<real>, h: seq<real>)
    requires |ids| == |w| == 0 && |h| == V
    ensures Dot(w, Gather(h, ids)) == Dot(Lift(V, ids, w), h)
  {
    DotZero(Lift(V, ids, w), h);
  }

  lemma {:induction false} LiftDot(V: nat, ids: seq<int>, w: seq<real>, h: seq<real>)
    requires |ids| == |w| && Tokens(V, ids) && |h| == V
    ensures Dot(w, Gather(h, ids)) == Dot(Lift(V, ids, w), h)
  {
    if ids == [] {
      LiftNothing(V, ids, w, h);
    } else {
      hide Lookup;
      var n := |ids| - 1;
      LiftDot(V, ids[..n], w[..n], h);
      assert Gather(h, ids)[..n] == Gather(h, ids[..n]);
      LiftSnoc(V, ids, w);
      DotUpdate(Lift(V, ids[..n], w[..n]), h, ids[n], w[n]);
    }
  }

  lemma LiftSum(V: nat, ids: seq<int>, w: seq<real>)
    requires |ids| == |w| && Tokens(V, ids)
    ensures Sum(Lift(V, ids, w)) == Sum(w)
  {
    var ones := seq(V, _ => 1.0);
    LiftDot(V, ids, w, ones);
    DotOnes(Lift(V, ids, w), ones);
    DotOnes(w, Gather(ones, ids));
  }

  /** The listed weight of one token, as a sum over the list. */
  lemma LiftIndicator(V: nat, ids: seq<int>, w: seq<real>, y: nat)
    requires |ids| == |w| && Tokens(V, ids) && y < V
    ensures Dot(w, Gather(Indicator(V, y), ids)) == Lift(V, ids, w)[y]
  {
    LiftDot(V, ids, w, Indicator(V, y));
    DotIndicator(Lift(V, ids, w), y);
  }

  lemma LiftNonNegative(V: nat, ids: seq<int>, w: seq<real>)
    requires |ids| == |w| && NonNegative(w)
    ensures NonNegative(Lift(V, ids, w))
  {
    forall y | 0 <= y < V ensures Lift(V, ids, w)[y] >= 0.0 {
      LookupNonNegative(ids, w, y);
    }
  }

  lemma {:induction false} LookupNonNegative(ids: seq<int>, w: seq<real>, y: int)
    requires |ids| == |w| && NonNegative(w)
    ensures Lookup(ids, w, y) >= 0.0
  {
    if ids != [] { LookupNonNegative(ids[1..], w[1..], y); }
  }

  // ---- the two halves of a rejection step ----

  function Min(a: real, b: real): real { if a < b then a else b }
  function Excess(a: real, b: real): real { if a - b > 0.0 then a - b else 0.0 }

  ghost function Overlap(p: seq<real>, q: seq<real>): (r: seq<real>)
    requires |p| == |q|
    ensures |r| == |p|
  {
    seq(|p|, y requires 0 <= y < |p| => Min(p[y], q[y]))
  }

  /** What the target has over the proposal, max(0, p - q) entry by entry. */
  function ExcessOf(p: seq<real>, q: seq<real>): (r: seq<real>)
    requires |p| == |q|
    ensures |r| == |p|
    ensures NonNegative(r)
  {
    seq(|p|, y requires 0 <= y < |p| => Excess(p[y], q[y]))
  }

  lemma OverlapPlusExcess(p: seq<real>, q: seq<real>)
    requires |p| == |q|
    ensures Sum(p) == Sum(Overlap(p, q)) + Sum(ExcessOf(p, q))
  {
    SumOfSums(Overlap(p, q), ExcessOf(p, q), p);
  }
}

/**
 Finite sums of reals, and the length of a set of uniform variates.

 A uniform variate u ranges over the half-open unit interval. Everything the
 samplers compute from it is piecewise constant, so the integral over u is the
 area of finitely many half-open steps; `AreaUnique` shows that the area does
 not depend on how the steps are cut, which is what makes `Integral` a definition
 rather than a choice.
 */
module Measure {

  // ---- sums, accumulated left to right ----

  function Sum(w: seq<real>): real {
    if w == [] then 0.0 else Sum(w[..|w|-1]) + w[|w|-1]
  }

  /** A product kept under a name, so that equal factors are seen to give equal products. */
  function Times(a: real, b: real): real { a * b }

  lemma TimesAdds(a: real, b: real, c: real)
    ensures Times(a + b, c) == Times(a, c) + Times(b, c)
  {
  }

  ghost function Dot(w: seq<real>, g: seq<real>): real
    requires |w| == |g|
  {
    if w == [] then 0.0 else Dot(w[..|w|-1], g[..|g|-1]) + Times(w[|w|-1], g[|g|-1])
  }

  ghost predicate NonNegative(w: seq<real>) {
    forall i :: 0 <= i < |w| ==> w[i] >= 0.0
  }

  lemma SumSnoc(w: seq<real>, i: nat)
    requires i < |w|
    ensures Sum(w[..i+1]) == Sum(w[..i]) + w[i]
  {
    assert w[..i+1][..i] == w[..i];
  }

  lemma {:induction false} SumMonotone(w: seq<real>, i: nat, j: nat)
    requires NonNegative(w) && i <= j <= |w|
    ensures 0.0 <= Sum(w[..i]) <= Sum(w[..j])
    decreases j
  {
    if i < j {
      SumMonotone(w, i, j - 1);
      SumSnoc(w, j - 1);
    } else if 0 < i {
      SumMonotone(w, i - 1, i - 1);
      SumSnoc(w, i - 1);
    }
  }

  lemma {:induction false} SumOfSums(x: seq<real>, y: seq<real>, z: seq<real>)
    requires |x| == |y| == |z|
    requires forall i :: 0 <= i < |x| ==> z[i] == x[i] + y[i]
    ensures Sum(z) == Sum(x) + Sum(y)
  {
    if x != [] {
      var n := |x| - 1;
      SumOfSums(x[..n], y[..n], z[..n]);
    }
  }

  // ---- step functions and their area ----

  /** The steps `s` describe f on [a, b): step (x, v) covers [x, start of the next) with value v. */
  ghost predicate StepsOn(f: real -> real, a: real, b: real, s: seq<(real, real)>)
    decreases |s|
  {
    if s == [] then a == b
    else
      var (x, v) := s[|s|-1];
      && a <= x <= b
      && (forall u :: x <= u < b ==> f(u) == v)
      && StepsOn(f, a, x, s[..|s|-1])
  }

  ghost function Area(b: real, s: seq<(real, real)>): real
    decreases |s|
  {
    if s == [] then 0.0
    else var (x, v) := s[|s|-1]; Times(b - x, v) + Area(x, s[..|s|-1])
  }

  lemma {:induction false} AreaOfNothing(f: real -> real, a: real, s: seq<(real, real)>)
    requires StepsOn(f, a, a, s)
    ensures Area(a, s) == 0.0
    decreases |s|
  {
    if s != [] {
      AreaOfNothing(f, a, s[..|s|-1]);
    }
  }

  /** Two cuttings of the same function have the same area. */
  lemma {:induction false} AreaUnique(f: real -> real, a: real, b: real, s: seq<(real, real)>, t: seq<(real, real)>)
    requires StepsOn(f, a, b, s) && StepsOn(f, a, b, t)
    ensures Area(b, s) == Area(b, t)
    decreases |s| + |t|
  {
    if s == [] {
      AreaOfNothing(f, a, t);
    } else if t == [] {
      AreaOfNothing(f, a, s);
    } else {
      var (x, v) := s[|s|-1];
      var (y, w) := t[|t|-1];
      var s', t' := s[..|s|-1], t[..|t|-1];
      if x == b {
        AreaUnique(f, a, b, s', t);
      } else if y == b {
        AreaUnique(f, a, b, s, t');
      } else if y <= x {
        assert f(x) == v == w;
        AreaUnique(f, a, x, s', t);
        TimesAdds(b - x, x - y, w);
      } else {
        assert f(y) == v == w;
        AreaUnique(f, a, y, s, t');
        TimesAdds(b - y, y - x, v);
      }
    }
  }

  /** The integral of a step function of one uniform variate; zero for anything else. */
  ghost function Integral(f: real -> real): real {
    if exists s :: StepsOn(f, 0.0, 1.0, s) then
      var s :| StepsOn(f, 0.0, 1.0, s);
      Area(1.0, s)
    else 0.0
  }

  lemma IntegralIs(f: real -> real, s: seq<(real, real)>)
    requires StepsOn(f, 0.0, 1.0, s)
    ensures Integral(f) == Area(1.0, s)
  {
    var t :| StepsOn(f, 0.0, 1.0, t) && Integral(f) == Area(1.0, t);
    AreaUnique(f, 0.0, 1.0, s, t);
  }

  /** A constant integrates to itself. */
  lemma IntegralConstant(f: real -> real, v: real)
    requires forall u :: 0.0 <= u < 1.0 ==> f(u) == v
    ensures Integral(f) == v
  {
    var s := [(0.0, v)];
    assert s[..|s|-1] == [];
    assert StepsOn(f, 0.0, 0.0, []);
    assert StepsOn(f, 0.0, 1.0, s);
    IntegralIs(f, s);
    calc {
      Area(1.0, s);
      (1.0 - 0.0) * v + Area(0.0, []);
    }
  }

  /** The mean of two payments, the first made with probability `cut`. */
  function Mix(cut: real, below: real, above: real): real {
    Times(cut, below) + Times(1.0 - cut, above)
  }

  /** A variate that decides a threshold test splits the integral at the threshold. */
  lemma IntegralSplit(f: real -> real, cut: real, below: real, above: real)
    requires 0.0 <= cut <= 1.0
    requires forall u :: 0.0 <= u < cut ==> f(u) == below
    requires forall u :: cut <= u < 1.0 ==> f(u) == above
    ensures Integral(f) == Mix(cut, below, above)
  {
    var s := [(0.0, below), (cut, above)];
    assert s[..1] == [(0.0, below)];
    assert s[..1][..0] == [];
    assert StepsOn(f, 0.0, 0.0, []);
    assert StepsOn(f, 0.0, cut, s[..1]);
    assert StepsOn(f, 0.0, 1.0, s);
    IntegralIs(f, s);
    assert Area(0.0, []) == 0.0;
    assert Area(cut, s[..1]) == (cut - 0.0) * below + Area(0.0, s[..1][..0]);
  }
}

/**
 One position of a speculative cycle: the law of what is emitted, and for which rows it is the
 target's.
 */
module SpeculativeCycle {
  import opened Measure
  import opened Sampler
  import opened Vocab
  import opened Lattice
  import opened Acceptance
  import opened Losslessness

  // ---- one position ----

  /** What position j emits in context x: candidate i if accepted, otherwise the correction. */
  function Emitted(V: nat, rule: Rule, ids: seq<int>, q: seq<real>, x: seq<int>, d: Draw): (bool, int)
    requires |ids| == |q| > 0 && (forall i :: 0 <= i < |ids| ==> 0 <= ids[i] < V)
    requires rule.TopKv? ==> |rule.ids(x)| == |rule.pv(x)| > 0
    requires |Law(V, rule, x)| == V
  {
    var i := Pick(q, d.path);
    if Accepts(d.acc, q[i], Law(V, rule, x)[ids[i]]) then (true, ids[i])
    else (false, Correction(V, rule, ids, q, x, d.res, d.mask))
  }

  /** Probability that a candidate of weight q is accepted against target weight p. */
  ghost function Chance(p: real, q: real): real
    requires q > 0.0
  {
    Min(p, q) / q
  }

  /** The acceptance test succeeds on exactly the variates below min(p, q) / q. */
  lemma AcceptCut(u: real, q: real, p: real)
    requires q > 0.0 && InUnit(u)
    ensures Accepts(u, q, p) <==> u < Chance(p, q)
  {
    Quotient(Min(p, q), q, u);
    Within(u, q);
  }

  lemma ChanceRange(q: real, p: real)
    requires q > 0.0 && p >= 0.0
    ensures 0.0 <= Chance(p, q) <= 1.0
    ensures Chance(p, q) < 1.0 ==> Min(p, q) < q
  {
    QuotientOrder(0.0, 0.0, Min(p, q), q);
  }

  type Integrand = (real, real, real, real) -> real

  ghost function AfterTest(F: Integrand, p: real, a: real): (real, real) -> real { (r, m) => F(p, a, r, m) }
  ghost function OverAcc(F: Integrand, p: real): real -> real { a => Integral(Over2(AfterTest(F, p, a))) }
  ghost function OverPath(F: Integrand): real -> real { p => Integral(OverAcc(F, p)) }

  /** Integral over the four variates of one position. */
  ghost function Integral4(F: Integrand): real { Integral(OverPath(F)) }

  lemma ConstantTail(G: (real, real) -> real, v: real)
    requires forall r, m :: InUnit(r) && InUnit(m) ==> G(r, m) == v
    ensures Integral(Over2(G)) == v
  {
    forall r | InUnit(r) ensures Over2(G)(r) == v {
      IntegralConstant(Slice2(G, r), v);
    }
    IntegralConstant(Over2(G), v);
  }

  /** A constant integrates to itself over a position. */
  lemma Constant4(F: Integrand, v: real)
    requires forall p, a, r, m :: InCube(Draw(p, a, r, m)) ==> F(p, a, r, m) == v
    ensures Integral4(F) == v
  {
    forall p | InUnit(p) ensures OverPath(F)(p) == v {
      forall a | InUnit(a) ensures OverAcc(F, p)(a) == v {
        forall r, m | InUnit(r) && InUnit(m) ensures AfterTest(F, p, a)(r, m) == v {
          assert InCube(Draw(p, a, r, m));
        }
        ConstantTail(AfterTest(F, p, a), v);
      }
      IntegralConstant(OverAcc(F, p), v);
    }
    IntegralConstant(OverPath(F), v);
  }

  /** Mass accepted at every candidate, and mass rejected there. */
  ghost function Accepted(p: seq<real>, ids: seq<int>, q: seq<real>): (m: seq<real>)
    requires |ids| == |q| && forall i :: 0 <= i < |ids| ==> 0 <= ids[i] < |p|
    ensures |m| == |q|
  {
    seq(|q|, i requires 0 <= i < |q| => Min(p[ids[i]], q[i]))
  }

  ghost function Rejected(p: seq<real>, ids: seq<int>, q: seq<real>): (m: seq<real>)
    requires |ids| == |q| && forall i :: 0 <= i < |ids| ==> 0 <= ids[i] < |p|
    ensures |m| == |q|
  {
    seq(|q|, i requires 0 <= i < |q| => q[i] - Min(p[ids[i]], q[i]))
  }

  lemma AcceptedIsOverlap(V: nat, p: seq<real>, ids: seq<int>, q: seq<real>)
    requires |p| == V && NonNegative(p) && Tokens(V, ids) && |ids| == |q|
    ensures Lift(V, ids, Accepted(p, ids, q)) == Overlap(p, Lift(V, ids, q))
  {
    var acc, qv := Accepted(p, ids, q), Lift(V, ids, q);
    forall y | 0 <= y < V ensures Lift(V, ids, acc)[y] == Overlap(p, qv)[y] {
      if y in ids {
        var i :| 0 <= i < |ids| && ids[i] == y;
        LookupAt(V, ids, acc, i); LookupAt(V, ids, q, i);
      } else {
        LookupAbsent(ids, acc, y); LookupAbsent(ids, q, y);
      }
    }
  }

  /** The accepted mass is the overlap; with what was rejected it makes up the proposal, with the
      target's excess the target. */
  lemma MassSplit(V: nat, p: seq<real>, ids: seq<int>, q: seq<real>)
    requires IsLaw(V, p) && Tokens(V, ids) && |ids| == |q| && NonNegative(q)
    ensures NonNegative(Rejected(p, ids, q))
    ensures Sum(Accepted(p, ids, q)) + Sum(Rejected(p, ids, q)) == Sum(q)
    ensures Sum(Accepted(p, ids, q)) + Sum(ExcessOf(p, Lift(V, ids, q))) == 1.0
    ensures forall y :: 0 <= y < V ==>
      Lift(V, ids, Accepted(p, ids, q))[y] + ExcessOf(p, Lift(V, ids, q))[y] == p[y]
  {
    hide Lift, Sum;
    var acc, rej, qv := Accepted(p, ids, q), Rejected(p, ids, q), Lift(V, ids, q);
    AcceptedIsOverlap(V, p, ids, q);
    LiftSum(V, ids, acc);
    SumOfSums(acc, rej, q);
    OverlapPlusExcess(p, qv);
  }

  /** For a proposal that sums to one the rejected mass is what the target has over it. */
  lemma MassBalance(V: nat, p: seq<real>, ids: seq<int>, q: seq<real>)
    requires IsLaw(V, p) && Tokens(V, ids) && |ids| == |q| && NonNegative(q)
    ensures Sum(Rejected(p, ids, q)) == Sum(ExcessOf(p, Lift(V, ids, q))) <==> Sum(q) == 1.0
  {
    MassSplit(V, p, ids, q);
  }

  /** Conditioned on candidate i being drawn: accepted with probability `cut`, else corrected. */
  lemma TestLaw(V: nat, rule: Rule, ids: seq<int>, q: seq<real>, x: seq<int>, y: nat, r: real, F: Integrand, u: real,
                i: nat, cut: real, B: real)
    requires IsTarget(V, rule) && Tokens(V, ids) && |ids| == |q| > 0 && NonNegative(q) && y < V
    requires |Law(V, rule, x)| == V && (rule.TopKv? ==> |rule.ids(x)| == |rule.pv(x)| > 0)
    requires InUnit(u) && i == Pick(q, u) && 0.0 <= cut <= 1.0
    requires forall a :: InUnit(a) ==> (Accepts(a, q[i], Law(V, rule, x)[ids[i]]) <==> a < cut)
    requires forall a, s, m :: InCube(Draw(u, a, s, m)) ==>
      F(u, a, s, m) == if Emitted(V, rule, ids, q, x, Draw(u, a, s, m)).1 == y then r else 0.0
    requires var ex := ExcessOf(Law(V, rule, x), Lift(V, ids, q));
             cut < 1.0 ==> Sum(ex) > 0.0 && B == Times(ex[y], r) / Sum(ex)
    ensures Integral(OverAcc(F, u)) == Mix(cut, if ids[i] == y then r else 0.0, B)
  {
    var hit := if ids[i] == y then r else 0.0;
    forall a | 0.0 <= a < cut ensures OverAcc(F, u)(a) == hit {
      forall s, m | InUnit(s) && InUnit(m) ensures AfterTest(F, u, a)(s, m) == hit {
        assert InCube(Draw(u, a, s, m));
      }
      ConstantTail(AfterTest(F, u, a), hit);
    }
    forall a | cut <= a < 1.0 ensures OverAcc(F, u)(a) == B {
      forall s, m | InUnit(s) && InUnit(m)
        ensures AfterTest(F, u, a)(s, m) == if Correction(V, rule, ids, q, x, s, m) == y then r else 0.0
      {
        assert InCube(Draw(u, a, s, m));
      }
      CorrectionLaw(V, rule, ids, q, x, y, r, AfterTest(F, u, a));
    }
    IntegralSplit(OverAcc(F, u), cut, hit, B);
  }

  /** A candidate that can be rejected leaves an excess to draw from: the fallbacks are never reached. */
  lemma RejectionPossible(V: nat, p: seq<real>, ids: seq<int>, q: seq<real>, i: nat)
    requires IsLaw(V, p) && Tokens(V, ids) && |ids| == |q| && NonNegative(q) && Sum(q) <= 1.0 && i < |q|
    requires Min(p[ids[i]], q[i]) < q[i]
    ensures Sum(ExcessOf(p, Lift(V, ids, q))) > 0.0
  {
    MassSplit(V, p, ids, q);
    var rej := Rejected(p, ids, q);
    MaskedZero(rej, Sum(rej), i);
  }

  lemma {:induction false} MixDot(q: seq<real>, acc: seq<real>, rej: seq<real>, hit: seq<real>, B: real, g: seq<real>)
    requires |q| == |acc| == |rej| == |hit| == |g|
    requires forall i :: 0 <= i < |q| ==> Times(q[i], g[i]) == Times(acc[i], hit[i]) + Times(rej[i], B)
    ensures Dot(q, g) == Dot(acc, hit) + Times(Sum(rej), B)
  {
    if q != [] {
      var n := |q| - 1;
      MixDot(q[..n], acc[..n], rej[..n], hit[..n], B, g[..n]);
      TimesAdds(Sum(rej[..n]), rej[n], B);
    }
  }

  lemma Payment(q: real, p: real, hit: real, B: real)
    requires q > 0.0
    ensures Times(q, Mix(Chance(p, q), hit, B)) == Times(Min(p, q), hit) + Times(q - Min(p, q), B)
  {
    var cut := Chance(p, q);
    assert q * cut == Min(p, q);
    Spread(q, cut, Min(p, q), hit, B);
  }

  lemma Spread(q: real, cut: real, m: real, hit: real, B: real)
    requires q * cut == m
    ensures q * (cut * hit + (1.0 - cut) * B) == m * hit + (q - m) * B
  {
    assert q * (cut * hit) == m * hit;
    assert q * ((1.0 - cut) * B) == (q - m) * B;
  }

  /** What drawing candidate i pays on average. */
  ghost function Pays(p: seq<real>, ids: seq<int>, q: seq<real>, hit: seq<real>, B: real): (g: seq<real>)
    requires |ids| == |q| == |hit| && forall i :: 0 <= i < |ids| ==> 0 <= ids[i] < |p|
    ensures |g| == |q|
  {
    seq(|q|, i requires 0 <= i < |q| => if q[i] > 0.0 then Mix(Chance(p[ids[i]], q[i]), hit[i], B) else 0.0)
  }

  lemma DrawnPays(V: nat, rule: Rule, ids: seq<int>, q: seq<real>, x: seq<int>, y: nat, r: real, F: Integrand, u: real,
                  hit: seq<real>, B: real)
    requires IsTarget(V, rule) && Tokens(V, ids) && |ids| == |q| == |hit| > 0 && NonNegative(q) && 0.0 < Sum(q) <= 1.0 && y < V
    requires IsLaw(V, Law(V, rule, x)) && (rule.TopKv? ==> |rule.ids(x)| == |rule.pv(x)| > 0)
    requires InUnit(u)
    requires forall a, s, m :: InCube(Draw(u, a, s, m)) ==>
      F(u, a, s, m) == if Emitted(V, rule, ids, q, x, Draw(u, a, s, m)).1 == y then r else 0.0
    requires forall i :: 0 <= i < |ids| ==> hit[i] == if ids[i] == y then r else 0.0
    requires var ex := ExcessOf(Law(V, rule, x), Lift(V, ids, q)); Sum(ex) > 0.0 ==> B == Times(ex[y], r) / Sum(ex)
    ensures OverPath(F)(u) == Pays(Law(V, rule, x), ids, q, hit, B)[Pick(q, u)]
  {
    PickPositive(q, u);
    var i, p := Pick(q, u), Law(V, rule, x);
    var cut := Chance(p[ids[i]], q[i]);
    ChanceRange(q[i], p[ids[i]]);
    forall a | InUnit(a) ensures Accepts(a, q[i], p[ids[i]]) <==> a < cut {
      AcceptCut(a, q[i], p[ids[i]]);
    }
    if cut < 1.0 { RejectionPossible(V, p, ids, q, i); }
    TestLaw(V, rule, ids, q, x, y, r, F, u, i, cut, B);
  }

  lemma PaymentAt(q: real, p: real, hit: real, B: real)
    requires q >= 0.0 && p >= 0.0
    ensures Times(q, if q > 0.0 then Mix(Chance(p, q), hit, B) else 0.0) == Times(Min(p, q), hit) + Times(q - Min(p, q), B)
  {
    if q > 0.0 { Payment(q, p, hit, B); }
  }

  lemma PaysSplit(p: seq<real>, ids: seq<int>, q: seq<real>, hit: seq<real>, B: real)
    requires |ids| == |q| == |hit| && (forall i :: 0 <= i < |ids| ==> 0 <= ids[i] < |p|)
    requires NonNegative(p) && NonNegative(q)
    ensures Dot(q, Pays(p, ids, q, hit, B)) == Dot(Accepted(p, ids, q), hit) + Times(Sum(Rejected(p, ids, q)), B)
  {
    hide Times, Mix, Chance, Min;
    var acc, rej := Accepted(p, ids, q), Rejected(p, ids, q);
    var g := Pays(p, ids, q, hit, B);
    forall i | 0 <= i < |q| ensures Times(q[i], g[i]) == Times(acc[i], hit[i]) + Times(rej[i], B) {
      PaymentAt(q[i], p[ids[i]], hit[i], B);
    }
    MixDot(q, acc, rej, hit, B, g);
  }

  /** Division under a name. */
  ghost function Over(a: real, total: real): real
    requires total > 0.0
  {
    a / total
  }

  /** The part e of a total z; nothing of nothing. */
  ghost function Share(e: real, z: real): real { if z > 0.0 then e / z else 0.0 }

  /** The probability that one position emits y: its accepted mass and its share of the rejected
      mass, over the total of the row that was drawn from. */
  ghost function Emission(V: nat, p: seq<real>, ids: seq<int>, q: seq<real>, y: nat): real
    requires |p| == V && Tokens(V, ids) && |ids| == |q| && Sum(q) > 0.0 && y < V
  {
    var ex := ExcessOf(p, Lift(V, ids, q));
    Over(Lift(V, ids, Accepted(p, ids, q))[y] + Times(Sum(Rejected(p, ids, q)), Share(ex[y], Sum(ex))), Sum(q))
  }

  lemma EmissionIs(V: nat, p: seq<real>, ids: seq<int>, q: seq<real>, y: nat)
    requires |p| == V && Tokens(V, ids) && |ids| == |q| && Sum(q) > 0.0 && y < V
    ensures var ex := ExcessOf(p, Lift(V, ids, q));
            var a, m, share := Lift(V, ids, Accepted(p, ids, q))[y], Sum(Rejected(p, ids, q)), Share(ex[y], Sum(ex));
            Emission(V, p, ids, q, y) == Over(a + Times(m, share), Sum(q))
  {
    hide Times, Over, Share, Sum, Lift, Accepted, Rejected, ExcessOf, Tokens;
  }

  lemma PaysEmission(V: nat, p: seq<real>, ids: seq<int>, q: seq<real>, y: nat, r: real, hit: seq<real>, B: real)
    requires IsLaw(V, p) && Tokens(V, ids) && |ids| == |q| == |hit| && NonNegative(q) && Sum(q) > 0.0 && y < V
    requires forall i :: 0 <= i < |ids| ==> hit[i] == Times(Gather(Indicator(V, y), ids)[i], r)
    requires var ex := ExcessOf(p, Lift(V, ids, q)); B == Times(Share(ex[y], Sum(ex)), r)
    ensures Over(Dot(q, Pays(p, ids, q, hit, B)), Sum(q)) == Times(Emission(V, p, ids, q, y), r)
  {
    hide Times, Over, Share, Pays, Min, Lift, ExcessOf, Rejected, Sum, Emission, Dot, Accepted;
    var ex, acc := ExcessOf(p, Lift(V, ids, q)), Accepted(p, ids, q);
    var a, m, share := Lift(V, ids, acc)[y], Sum(Rejected(p, ids, q)), Share(ex[y], Sum(ex));
    EmissionIs(V, p, ids, q, y);
    PaysSplit(p, ids, q, hit, B);
    DotScaled(acc, Gather(Indicator(V, y), ids), hit, r);
    LiftIndicator(V, ids, acc, y);
    Factor(a, m, share, r, Sum(q));
  }

  lemma ScaledShare(e: real, z: real, r: real, B: real)
    requires B == if z > 0.0 then Times(e, r) / z else 0.0
    ensures B == Times(Share(e, z), r)
  {
    if z > 0.0 {
      var share := e / z;
      assert share * z == e;
      assert (share * r) * z == e * r;
    }
  }

  lemma Factor(a: real, m: real, share: real, r: real, total: real)
    requires total > 0.0
    ensures Over(Times(a, r) + Times(m, Times(share, r)), total) == Times(Over(a + Times(m, share), total), r)
  {
    var s := a + m * share;
    assert a * r + m * (share * r) == s * r;
    QuotientTimes(s, r, total);
  }

  lemma QuotientTimes(s: real, r: real, total: real)
    requires total > 0.0
    ensures (s * r) / total == (s / total) * r
  {
    var d := s / total;
    assert d * total == s;
    assert (d * r) * total == s * r;
  }

  /** What accepting candidate i pays. */
  ghost function Hits(V: nat, ids: seq<int>, y: nat, r: real): (hit: seq<real>)
    requires Tokens(V, ids)
    ensures |hit| == |ids|
    ensures forall i :: 0 <= i < |ids| ==> hit[i] == Times(Gather(Indicator(V, y), ids)[i], r)
    ensures forall i :: 0 <= i < |ids| ==> hit[i] == if ids[i] == y then r else 0.0
  {
    var h := Gather(Indicator(V, y), ids);
    seq(|ids|, i requires 0 <= i < |ids| => Times(h[i], r))
  }

  /** The law of one position for any row of total at most one: y is emitted with probability
      `Emission`. */
  lemma StepMass(V: nat, rule: Rule, ids: seq<int>, q: seq<real>, x: seq<int>, y: nat, r: real, F: Integrand)
    requires IsTarget(V, rule) && Tokens(V, ids) && |ids| == |q| > 0 && NonNegative(q) && 0.0 < Sum(q) <= 1.0 && y < V
    requires IsLaw(V, Law(V, rule, x)) && (rule.TopKv? ==> |rule.ids(x)| == |rule.pv(x)| > 0)
    requires forall p, a, s, m :: InCube(Draw(p, a, s, m)) ==>
      F(p, a, s, m) == if Emitted(V, rule, ids, q, x, Draw(p, a, s, m)).1 == y then r else 0.0
    ensures Integral4(F) == Times(Emission(V, Law(V, rule, x), ids, q, y), r)
  {
    hide Emission, Pays, Times, Share, Emitted;
    var p := Law(V, rule, x);
    var ex := ExcessOf(p, Lift(V, ids, q));
    var B := if Sum(ex) > 0.0 then Times(ex[y], r) / Sum(ex) else 0.0;
    var hit := Hits(V, ids, y, r);
    hide Hits, Lift, ExcessOf, Sum, Pick, Integral, Dot;
    forall u | InUnit(u) ensures OverPath(F)(u) == Pays(p, ids, q, hit, B)[Pick(q, u)] {
      DrawnPays(V, rule, ids, q, x, y, r, F, u, hit, B);
    }
    IntegralOfPick(OverPath(F), q, Pays(p, ids, q, hit, B));
    ScaledShare(ex[y], Sum(ex), r, B);
    assert Integral4(F) == Over(Dot(q, Pays(p, ids, q, hit, B)), Sum(q));
    PaysEmission(V, p, ids, q, y, r, hit, B);
  }

  /** A row that sums to one emits the target. */
  lemma EmissionIsTarget(V: nat, p: seq<real>, ids: seq<int>, q: seq<real>, y: nat)
    requires IsLaw(V, p) && Tokens(V, ids) && |ids| == |q| && NonNegative(q) && Sum(q) == 1.0 && y < V
    ensures Emission(V, p, ids, q, y) == p[y]
  {
    hide Times, Over, Share, Emission, Lift, Accepted, Rejected, Sum, ExcessOf;
    EmissionIs(V, p, ids, q, y);
    var ex := ExcessOf(p, Lift(V, ids, q));
    MassSplit(V, p, ids, q);
    MaskedZero(ex, Sum(ex), y);
    SharedOut(Lift(V, ids, Accepted(p, ids, q))[y], ex[y], Sum(ex));
  }

  lemma SharedOut(a: real, e: real, z: real)
    requires z <= 0.0 ==> e == 0.0
    ensures Over(a + Times(z, Share(e, z)), 1.0) == a + e
  {
    if z > 0.0 { assert z * (e / z) == e; }
  }

  /** Losslessness of one position: whatever is proposed, y is emitted with the target's probability. */
  lemma StepLaw(V: nat, rule: Rule, ids: seq<int>, q: seq<real>, x: seq<int>, y: nat, r: real, F: Integrand)
    requires IsTarget(V, rule) && Tokens(V, ids) && |ids| == |q| > 0 && NonNegative(q) && Sum(q) == 1.0 && y < V
    requires IsLaw(V, Law(V, rule, x)) && (rule.TopKv? ==> |rule.ids(x)| == |rule.pv(x)| > 0)
    requires forall p, a, s, m :: InCube(Draw(p, a, s, m)) ==>
      F(p, a, s, m) == if Emitted(V, rule, ids, q, x, Draw(p, a, s, m)).1 == y then r else 0.0
    ensures Integral4(F) == Times(Law(V, rule, x)[y], r)
  {
    hide Emission, Integral4;
    StepMass(V, rule, ids, q, x, y, r, F);
    EmissionIsTarget(V, Law(V, rule, x), ids, q, y);
  }

  // ---- rows that do not sum to one ----

  /** The law that puts a row's own weight on candidate i and the rest on token z. */
  function Tilted(V: nat, a: nat, z: nat, w: real): (p: seq<real>)
    ensures |p| == V
  {
    seq(V, y => if y == a then w else if y == z then 1.0 - w else 0.0)
  }

  lemma {:induction false} TiltedSum(V: nat, a: nat, z: nat, w: real, n: nat)
    requires a < V && z < V && a != z && n <= V
    ensures Sum(Tilted(V, a, z, w)[..n]) == (if a < n then w else 0.0) + (if z < n then 1.0 - w else 0.0)
  {
    if n > 0 {
      TiltedSum(V, a, z, w, n - 1);
      SumSnoc(Tilted(V, a, z, w), n - 1);
    } else {
      assert Tilted(V, a, z, w)[..0] == [];
    }
  }

  lemma Bounded(q: seq<real>, i: nat)
    requires NonNegative(q) && i < |q|
    ensures q[i] <= Sum(q)
  {
    SumMonotone(q, 0, i); SumMonotone(q, i + 1, |q|);
    SumSnoc(q, i);
    assert q[..|q|] == q;
  }

  lemma TiltedIsLaw(V: nat, a: nat, z: nat, w: real)
    requires a < V && z < V && a != z && 0.0 <= w <= 1.0
    ensures IsLaw(V, Tilted(V, a, z, w))
  {
    TiltedSum(V, a, z, w, V);
    assert Tilted(V, a, z, w)[..V] == Tilted(V, a, z, w);
  }

  /** A row of total below one emits its candidate i too often for this target. */
  lemma TooOften(V: nat, ids: seq<int>, q: seq<real>, i: nat, z: nat)
    requires Tokens(V, ids) && |ids| == |q| && NonNegative(q) && 0.0 < Sum(q) < 1.0
    requires i < |q| && q[i] > 0.0 && z < V && z != ids[i]
    ensures var p := Tilted(V, ids[i], z, q[i]);
            IsLaw(V, p) && Emission(V, p, ids, q, ids[i]) > q[i] == p[ids[i]]
  {
    hide Times, Over, Share, Emission, Sum;
    var y: nat := ids[i];
    var p := Tilted(V, y, z, q[i]);
    EmissionIs(V, p, ids, q, y);
    Bounded(q, i);
    TiltedIsLaw(V, y, z, q[i]);
    LookupAt(V, ids, q, i);
    LookupAt(V, ids, Accepted(p, ids, q), i);
    var ex := ExcessOf(p, Lift(V, ids, q));
    assert ex[y] == 0.0;
    Above(q[i], Sum(q), Sum(Rejected(p, ids, q)), Sum(ex));
  }

  lemma Above(w: real, total: real, m: real, z: real)
    requires w > 0.0 && 0.0 < total < 1.0
    ensures Over(w + Times(m, Share(0.0, z)), total) > w
  {
    assert Share(0.0, z) == 0.0 && Times(m, 0.0) == 0.0;
    Quotient(w, total, w);
    Within(total, w);
  }

  lemma {:induction false} SomePositive(q: seq<real>) returns (i: nat)
    requires NonNegative(q) && Sum(q) > 0.0
    ensures i < |q| && q[i] > 0.0
  {
    i := |q| - 1;
    if q[i] <= 0.0 { i := SomePositive(q[..i]); }
  }

  ghost predicate LosslessFor(V: nat, ids: seq<int>, q: seq<real>, p: seq<real>)
    requires Tokens(V, ids) && |ids| == |q| && Sum(q) > 0.0
  {
    IsLaw(V, p) ==> forall y: nat :: y < V ==> Emission(V, p, ids, q, y) == p[y]
  }

  /** A row of total at most one is lossless for every target exactly when it sums to one. */
  lemma LosslessExactly(V: nat, ids: seq<int>, q: seq<real>)
    requires V >= 2 && Tokens(V, ids) && |ids| == |q| && NonNegative(q) && 0.0 < Sum(q) <= 1.0
    ensures (forall p :: LosslessFor(V, ids, q, p)) <==> Sum(q) == 1.0
  {
    hide Emission;
    if Sum(q) == 1.0 {
      forall p, y: nat | IsLaw(V, p) && y < V ensures Emission(V, p, ids, q, y) == p[y] {
        EmissionIsTarget(V, p, ids, q, y);
      }
    } else {
      var i := SomePositive(q);
      var z: nat := if ids[i] == 0 then 1 else 0;
      TooOften(V, ids, q, i, z);
      assert !LosslessFor(V, ids, q, Tilted(V, ids[i], z, q[i]));
    }
  }
}

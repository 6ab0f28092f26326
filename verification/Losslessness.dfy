/**
 Speculative sampling is lossless.

 The randomness of a cycle is a cube of uniform variates: per position one for the lattice
 sample, one for the acceptance test and two for the correction, and one for the bonus token.
 `Volume` integrates over that cube. The theorem is that the block emitted by a cycle, however
 decoding goes on afterwards, follows the same law as sampling the target token by token.
 */
module Losslessness {
  import opened Measure
  import opened Sampler
  import opened Vocab
  import opened Lattice
  import opened Acceptance

  // ---- the target, and plain sampling from it ----

  /** Next-token law of the main model, given the context. The top-Kv rule truncates it to a list. */
  datatype Rule =
    | Exact(target: seq<int> -> seq<real>)
    | TopKv(ids: seq<int> -> seq<int>, pv: seq<int> -> seq<real>)

  ghost predicate IsTarget(V: nat, rule: Rule) {
    match rule
    case Exact(target) => forall ctx :: IsLaw(V, target(ctx))
    case TopKv(ids, pv) =>
      forall ctx :: Tokens(V, ids(ctx)) && |ids(ctx)| == |pv(ctx)| && NonNegative(pv(ctx)) && Sum(pv(ctx)) == 1.0
  }

  function Law(V: nat, rule: Rule, ctx: seq<int>): (p: seq<real>)
    requires rule.TopKv? ==> |rule.ids(ctx)| == |rule.pv(ctx)|
  {
    match rule
    case Exact(target) => target(ctx)
    case TopKv(ids, pv) => Lift(V, ids(ctx), pv(ctx))
  }

  /** One token drawn from the target by the variate u. */
  function DrawToken(rule: Rule, ctx: seq<int>, u: real): int
    requires rule.TopKv? ==> |rule.ids(ctx)| == |rule.pv(ctx)| > 0
  {
    match rule
    case Exact(target) => Pick(target(ctx), u)
    case TopKv(ids, pv) => ids(ctx)[Pick(pv(ctx), u)]
  }

  /** Every token of y belongs to the vocabulary. */
  ghost predicate InVocab(V: nat, y: seq<int>) {
    forall i :: 0 <= i < |y| ==> 0 <= y[i] < V
  }

  ghost function PlainSlice(V: nat, rule: Rule, ctx: seq<int>, y: seq<int>): real -> real
    requires IsTarget(V, rule) && y != []
    decreases |y|, 0
  {
    LawIsLaw(V, rule, ctx);
    var rest := Plain(V, rule, ctx + [y[0]], y[1..]);
    u => if DrawToken(rule, ctx, u) == y[0] then rest else 0.0
  }

  /** Probability that plain sampling, one variate per token, continues the context with y. */
  ghost function Plain(V: nat, rule: Rule, ctx: seq<int>, y: seq<int>): real
    requires IsTarget(V, rule)
    decreases |y|, 1
  {
    if y == [] then 1.0 else Integral(PlainSlice(V, rule, ctx, y))
  }

  lemma LawIsLaw(V: nat, rule: Rule, ctx: seq<int>)
    requires IsTarget(V, rule)
    ensures IsLaw(V, Law(V, rule, ctx))
    ensures rule.TopKv? ==> |rule.ids(ctx)| == |rule.pv(ctx)| > 0
  {
    match rule
    case Exact(target) =>
    case TopKv(ids, pv) =>
      LiftSum(V, ids(ctx), pv(ctx));
      LiftNonNegative(V, ids(ctx), pv(ctx));
      assert pv(ctx) != [];
  }

  lemma {:induction false} DotScaled(w: seq<real>, h: seq<real>, g: seq<real>, r: real)
    requires |w| == |h| == |g| && forall i :: 0 <= i < |w| ==> g[i] == Times(h[i], r)
    ensures Dot(w, g) == Times(Dot(w, h), r)
  {
    if w != [] {
      var n := |w| - 1;
      DotScaled(w[..n], h[..n], g[..n], r);
      ScaleOut(Dot(w[..n], h[..n]), w[n], h[n], r);
    }
  }

  lemma ScaleOut(d: real, a: real, b: real, r: real)
    ensures Times(d + Times(a, b), r) == Times(d, r) + Times(a, Times(b, r))
  {
  }

  /** An integrand that pays r when list entry i with ids[i] == y is drawn. */
  lemma ListDraw(V: nat, ids: seq<int>, w: seq<real>, y: nat, r: real, f: real -> real)
    requires |ids| == |w| && Tokens(V, ids) && NonNegative(w) && Sum(w) > 0.0 && y < V
    requires forall u :: InUnit(u) ==> w != [] && f(u) == if ids[Pick(w, u)] == y then r else 0.0
    ensures Integral(f) == Times(Lift(V, ids, w)[y], r) / Sum(w)
  {
    var h := Gather(Indicator(V, y), ids);
    var g := seq(|w|, i requires 0 <= i < |w| => Times(h[i], r));
    assert w != [];
    IntegralOfPick(f, w, g);
    DotScaled(w, h, g, r);
    LiftIndicator(V, ids, w, y);
  }

  /** Drawing one token of the target: y comes out with its probability. */
  lemma DrawLaw(V: nat, rule: Rule, ctx: seq<int>, y: nat, r: real, f: real -> real)
    requires IsTarget(V, rule) && y < V
    requires forall u :: InUnit(u) ==>
      (rule.TopKv? ==> |rule.ids(ctx)| == |rule.pv(ctx)| > 0) && f(u) == if DrawToken(rule, ctx, u) == y then r else 0.0
    ensures y < |Law(V, rule, ctx)| && Integral(f) == Times(Law(V, rule, ctx)[y], r)
  {
    LawIsLaw(V, rule, ctx);
    match rule
    case Exact(target) =>
      PointDraw(V, target(ctx), y, r, f);
    case TopKv(ids, pv) =>
      ListDraw(V, ids(ctx), pv(ctx), y, r, f);
  }

  /** Plain sampling multiplies the target's conditional probabilities. */
  lemma PlainChain(V: nat, rule: Rule, ctx: seq<int>, y: seq<int>)
    requires IsTarget(V, rule) && InVocab(V, y) && y != []
    ensures |Law(V, rule, ctx)| == V
    ensures Plain(V, rule, ctx, y) == Times(Law(V, rule, ctx)[y[0]], Plain(V, rule, ctx + [y[0]], y[1..]))
  {
    LawIsLaw(V, rule, ctx);
    DrawLaw(V, rule, ctx, y[0], Plain(V, rule, ctx + [y[0]], y[1..]), PlainSlice(V, rule, ctx, y));
  }

  // ---- one speculative cycle ----

  datatype Draw = Draw(path: real, acc: real, res: real, mask: real)

  ghost predicate InCube(d: Draw) {
    InUnit(d.path) && InUnit(d.acc) && InUnit(d.res) && InUnit(d.mask)
  }

  /** A proposal: distinct candidate tokens, and rows that sum to one over them. */
  ghost predicate IsProposal(V: nat, t: Tables) {
    && t.Valid()
    && (forall i :: 0 <= i < t.P ==> Tokens(V, t.ids[i]))
    && (forall i, p :: 0 <= i < t.P && 0 <= p < t.K ==> NonNegative(t.Weights(i, p)) && Sum(t.Weights(i, p)) == 1.0)
  }

  /** A draft of at most k positions of lattice t after the context ctx. Position j is verified where
      `go` holds of the drafted tokens before it: the draft length is decided as the path unfolds. */
  datatype CycleData = CycleData(V: nat, rule: Rule, t: Tables, k: nat, go: seq<int> -> bool, ctx: seq<int>) {
    ghost predicate Valid() {
      IsTarget(V, rule) && IsProposal(V, t) && k <= t.P
    }
  }

  type Cycle = c: CycleData | c.Valid() ghost witness EmptyCycle()

  ghost function EmptyCycle(): (c: CycleData)
    ensures c.Valid()
  {
    var one := [1.0];
    assert one[..0] == [];
    CycleData(1, Exact(_ => one), Tables(0, 1, [], [], _ => 0.0), 0, _ => true, [])
  }

  /** The target row with the candidates masked out. */
  function MaskOut(p: seq<real>, ids: seq<int>): (r: seq<real>)
    ensures |r| == |p|
  {
    seq(|p|, y requires 0 <= y < |p| => if y in ids then 0.0 else p[y])
  }

  function AtTokens(p: seq<real>, ids: seq<int>): (r: seq<real>)
    requires forall i :: 0 <= i < |ids| ==> 0 <= ids[i] < |p|
    ensures |r| == |ids|
  {
    seq(|ids|, i requires 0 <= i < |ids| => p[ids[i]])
  }

  /** The token emitted when the draft of position j is rejected in context x. */
  function Correction(V: nat, rule: Rule, ids: seq<int>, q: seq<real>, x: seq<int>, res: real, mask: real): int
    requires |ids| == |q| > 0
    requires rule.Exact? ==> |rule.target(x)| == V && forall i :: 0 <= i < |ids| ==> 0 <= ids[i] < V
    requires rule.TopKv? ==> |rule.ids(x)| == |rule.pv(x)| > 0
  {
    match rule
    case Exact(target) =>
      ExactResidual(ids, AtTokens(target(x), ids), q, Pick(MaskOut(target(x), ids), mask), res)
    case TopKv(vids, pv) => TopResidual(vids(x), pv(x), ids, q, res)
  }

  // ---- the law of the correction ----

  lemma AppendedSums(w: seq<real>, rest: real, i: nat)
    requires i <= |w|
    ensures (w + [rest])[..i] == w[..i]
    ensures Sum(w + [rest]) == Sum(w) + rest
  {
    assert (w + [rest])[..|w|] == w;
  }

  lemma AppendedAt(w: seq<real>, rest: real, t: real, i: nat)
    requires NonNegative(w + [rest]) && 0.0 <= t < Sum(w) + rest && i <= |w|
    requires Sum(w[..i]) <= t && (i < |w| ==> t < Sum(w[..i+1]))
    ensures PickAt(w + [rest], t) == i
  {
    var all := w + [rest];
    AppendedSums(w, rest, i);
    if i < |w| { AppendedSums(w, rest, i + 1); } else { assert all[..i+1] == all; }
    PickAtIs(all, t, i);
  }

  lemma PickAppended(w: seq<real>, rest: real, t: real)
    requires NonNegative(w) && rest >= 0.0 && 0.0 <= t < Sum(w) + rest
    ensures NonNegative(w + [rest]) && Sum(w + [rest]) == Sum(w) + rest
    ensures PickAt(w + [rest], t) == if t < Sum(w) then PickAt(w, t) else |w|
  {
    AppendedSums(w, rest, |w|);
    if t < Sum(w) {
      PickAtIs(w, t, PickAt(w, t));
      AppendedAt(w, rest, t, PickAt(w, t));
    } else {
      assert w[..|w|] == w;
      AppendedAt(w, rest, t, |w|);
    }
  }

  /** The exact rule's two-stage choice is one draw from the candidates' excess and the rest. */
  lemma ExactResidualPick(ids: seq<int>, pc: seq<real>, q: seq<real>, masked: int, u: real, w: seq<real>, rest: real)
    requires |ids| == |pc| == |q| > 0 && InUnit(u)
    requires w == ExcessOf(pc, q) && rest == Excess(1.0, Sum(pc)) && Sum(w) + rest > 0.0
    ensures Pick(w + [rest], u) <= |ids|
    ensures ExactResidual(ids, pc, q, masked, u)
         == if Pick(w + [rest], u) < |ids| then ids[Pick(w + [rest], u)] else masked
  {
    var t := Times(u, Sum(w) + rest);
    Within(u, Sum(w) + rest);
    PickAppended(w, rest, t);
  }

  /** Inside the candidates the excess, outside them the whole target: together the full excess. */
  lemma ExactSplit(V: nat, p: seq<real>, ids: seq<int>, q: seq<real>)
    requires IsLaw(V, p) && Tokens(V, ids) && |ids| == |q| && NonNegative(q)
    ensures var w := ExcessOf(AtTokens(p, ids), q);
            var full := ExcessOf(p, Lift(V, ids, q));
            && (forall y :: 0 <= y < V ==> full[y] == Lift(V, ids, w)[y] + MaskOut(p, ids)[y])
            && Sum(full) == Sum(w) + Sum(MaskOut(p, ids))
            && Sum(MaskOut(p, ids)) == 1.0 - Sum(AtTokens(p, ids))
            && NonNegative(MaskOut(p, ids))
  {
    var pc := AtTokens(p, ids);
    var w := ExcessOf(pc, q);
    var full, mask := ExcessOf(p, Lift(V, ids, q)), MaskOut(p, ids);
    forall y | 0 <= y < V
      ensures full[y] == Lift(V, ids, w)[y] + mask[y]
      ensures p[y] == Lift(V, ids, pc)[y] + mask[y]
    {
      if y in ids {
        var i :| 0 <= i < |ids| && ids[i] == y;
        LookupAt(V, ids, w, i); LookupAt(V, ids, q, i); LookupAt(V, ids, pc, i);
      } else {
        LookupAbsent(ids, w, y); LookupAbsent(ids, q, y); LookupAbsent(ids, pc, y);
      }
    }
    SumOfSums(Lift(V, ids, w), mask, full);
    SumOfSums(Lift(V, ids, pc), mask, p);
    LiftSum(V, ids, w);
    LiftSum(V, ids, pc);
  }

  /** The excess over the verify list is the excess over the vocabulary. */
  lemma TopSplit(V: nat, vids: seq<int>, pv: seq<real>, ids: seq<int>, q: seq<real>)
    requires |vids| == |pv| && Tokens(V, vids) && |ids| == |q| && NonNegative(q)
    ensures var res := ListExcess(vids, pv, ids, q);
            var full := ExcessOf(Lift(V, vids, pv), Lift(V, ids, q));
            Lift(V, vids, res) == full && Sum(res) == Sum(full)
  {
    var res := ListExcess(vids, pv, ids, q);
    var full := ExcessOf(Lift(V, vids, pv), Lift(V, ids, q));
    forall y | 0 <= y < V ensures Lift(V, vids, res)[y] == full[y] {
      if y in vids {
        var i :| 0 <= i < |vids| && vids[i] == y;
        LookupAt(V, vids, res, i); LookupAt(V, vids, pv, i);
      } else {
        LookupAbsent(vids, res, y); LookupAbsent(vids, pv, y);
        LookupNonNegative(ids, q, y);
      }
    }
    assert Lift(V, vids, res) == full;
    LiftSum(V, vids, res);
  }

  ghost function Slice2(G: (real, real) -> real, r: real): real -> real { m => G(r, m) }
  ghost function Over2(G: (real, real) -> real): real -> real { r => Integral(Slice2(G, r)) }

  /** A rejected draft is replaced by y with probability excess(y) / total excess. */
  lemma CorrectionLaw(V: nat, rule: Rule, ids: seq<int>, q: seq<real>, x: seq<int>, y: nat, r: real, G: (real, real) -> real)
    requires IsTarget(V, rule) && Tokens(V, ids) && |ids| == |q| > 0 && NonNegative(q) && y < V
    requires |Law(V, rule, x)| == V && (rule.TopKv? ==> |rule.ids(x)| == |rule.pv(x)| > 0)
    requires Sum(ExcessOf(Law(V, rule, x), Lift(V, ids, q))) > 0.0
    requires forall u, m :: InUnit(u) && InUnit(m) ==>
      G(u, m) == if Correction(V, rule, ids, q, x, u, m) == y then r else 0.0
    ensures Integral(Over2(G))
         == Times(ExcessOf(Law(V, rule, x), Lift(V, ids, q))[y], r) / Sum(ExcessOf(Law(V, rule, x), Lift(V, ids, q)))
  {
    match rule
    case Exact(target) =>
      ExactCorrectionLaw(V, target(x), ids, q, y, r, G);
    case TopKv(vids, pv) =>
      TopSplit(V, vids(x), pv(x), ids, q);
      var res := ListExcess(vids(x), pv(x), ids, q);
      forall u | InUnit(u) ensures Over2(G)(u) == if vids(x)[Pick(res, u)] == y then r else 0.0 {
        IntegralConstant(Slice2(G, u), if vids(x)[Pick(res, u)] == y then r else 0.0);
      }
      ListDraw(V, vids(x), res, y, r, Over2(G));
  }

  /** What the residual variate u pays once the mask variate is integrated out. */
  lemma ExactPayment(V: nat, p: seq<real>, ids: seq<int>, q: seq<real>, y: nat, r: real, G: (real, real) -> real, u: real,
                     w: seq<real>, rest: real)
    requires IsLaw(V, p) && Tokens(V, ids) && |ids| == |q| > 0 && NonNegative(q) && y < V && InUnit(u)
    requires w == ExcessOf(AtTokens(p, ids), q) && rest == Excess(1.0, Sum(AtTokens(p, ids)))
    requires Sum(w) + rest > 0.0 && rest == Sum(MaskOut(p, ids))
    requires forall m :: InUnit(m) ==>
      G(u, m) == if ExactResidual(ids, AtTokens(p, ids), q, Pick(MaskOut(p, ids), m), u) == y then r else 0.0
    ensures Pick(w + [rest], u) <= |ids| && (Pick(w + [rest], u) == |ids| ==> rest > 0.0)
    ensures Over2(G)(u) == if Pick(w + [rest], u) < |ids| then (if ids[Pick(w + [rest], u)] == y then r else 0.0)
                           else Times(MaskOut(p, ids)[y], r) / rest
  {
    hide Times, PickAt, ExactResidual;
    var pc, mask := AtTokens(p, ids), MaskOut(p, ids);
    var i := Pick(w + [rest], u);
    var t := Times(u, Sum(w) + rest);
    Within(u, Sum(w) + rest);
    PickAppended(w, rest, t);
    PickPositive(w + [rest], u);
    forall m | InUnit(m)
      ensures Slice2(G, u)(m) == if (if i < |ids| then ids[i] else Pick(mask, m)) == y then r else 0.0
    {
      ExactResidualPick(ids, pc, q, Pick(mask, m), u, w, rest);
    }
    if i < |ids| {
      IntegralConstant(Slice2(G, u), if ids[i] == y then r else 0.0);
    } else {
      PointDraw(V, mask, y, r, Slice2(G, u));
    }
  }

  /** Those payments average to the excess of y over the total excess. */
  lemma ExactAverage(V: nat, p: seq<real>, ids: seq<int>, q: seq<real>, y: nat, r: real, w: seq<real>, rest: real,
                     inside: seq<real>, outside: real)
    requires IsLaw(V, p) && Tokens(V, ids) && |ids| == |q| == |w| == |inside| && NonNegative(q) && y < V
    requires w == ExcessOf(AtTokens(p, ids), q) && rest == Sum(MaskOut(p, ids))
    requires forall i :: 0 <= i < |ids| ==> inside[i] == Times(Gather(Indicator(V, y), ids)[i], r)
    requires outside == if rest > 0.0 then Times(MaskOut(p, ids)[y], r) / rest else 0.0
    ensures Dot(w + [rest], inside + [outside]) == Times(ExcessOf(p, Lift(V, ids, q))[y], r)
  {
    var mask := MaskOut(p, ids);
    ExactSplit(V, p, ids, q);
    SumMonotone(mask, 0, V);
    assert mask[..V] == mask;
    assert (w + [rest])[..|w|] == w && (inside + [outside])[..|w|] == inside;
    DotScaled(w, Gather(Indicator(V, y), ids), inside, r);
    LiftIndicator(V, ids, w, y);
    MaskedZero(mask, rest, y);
    Collect(Lift(V, ids, w)[y], mask[y], r, rest, outside, ExcessOf(p, Lift(V, ids, q))[y]);
  }

  lemma ExactCorrectionLaw(V: nat, p: seq<real>, ids: seq<int>, q: seq<real>, y: nat, r: real, G: (real, real) -> real)
    requires IsLaw(V, p) && Tokens(V, ids) && |ids| == |q| > 0 && NonNegative(q) && y < V
    requires Sum(ExcessOf(p, Lift(V, ids, q))) > 0.0
    requires forall u, m :: InUnit(u) && InUnit(m) ==>
      G(u, m) == if ExactResidual(ids, AtTokens(p, ids), q, Pick(MaskOut(p, ids), m), u) == y then r else 0.0
    ensures Integral(Over2(G)) == Times(ExcessOf(p, Lift(V, ids, q))[y], r) / Sum(ExcessOf(p, Lift(V, ids, q)))
  {
    hide PickAt, ExactResidual;
    var pc, mask := AtTokens(p, ids), MaskOut(p, ids);
    var w, rest := ExcessOf(pc, q), Excess(1.0, Sum(pc));
    ExactSplit(V, p, ids, q);
    SumMonotone(mask, 0, V);
    assert mask[..V] == mask;
    AppendedSums(w, rest, 0);
    var outside := if rest > 0.0 then Times(mask[y], r) / rest else 0.0;
    var h := Gather(Indicator(V, y), ids);
    var inside := seq(|ids|, i requires 0 <= i < |ids| => Times(h[i], r));
    forall u | InUnit(u) ensures Over2(G)(u) == (inside + [outside])[Pick(w + [rest], u)] {
      ExactPayment(V, p, ids, q, y, r, G, u, w, rest);
    }
    IntegralOfPick(Over2(G), w + [rest], inside + [outside]);
    ExactAverage(V, p, ids, q, y, r, w, rest, inside, outside);
  }

  lemma PointDraw(V: nat, p: seq<real>, y: nat, r: real, f: real -> real)
    requires |p| == V && NonNegative(p) && Sum(p) > 0.0 && y < V
    requires forall u :: InUnit(u) ==> f(u) == if Pick(p, u) == y then r else 0.0
    ensures Integral(f) == Times(p[y], r) / Sum(p)
  {
    var h := Indicator(V, y);
    var g := seq(V, i requires 0 <= i < V => Times(h[i], r));
    IntegralOfPick(f, p, g);
    DotScaled(p, h, g, r);
    DotIndicator(p, y);
  }

  /** A row of total weight zero has no weight anywhere. */
  lemma MaskedZero(mask: seq<real>, rest: real, y: nat)
    requires NonNegative(mask) && Sum(mask) == rest && y < |mask|
    ensures rest <= 0.0 ==> mask[y] == 0.0
  {
    SumMonotone(mask, 0, y); SumMonotone(mask, y + 1, |mask|);
    SumSnoc(mask, y);
    assert mask[..|mask|] == mask;
  }

  lemma Collect(a: real, b: real, r: real, rest: real, outside: real, c: real)
    requires a + b == c && outside == if rest > 0.0 then Times(b, r) / rest else 0.0
    requires rest >= 0.0 && (rest <= 0.0 ==> b == 0.0)
    ensures Times(a, r) + Times(rest, outside) == Times(c, r)
  {
  }
}

/**
 Whole cycles and chains of cycles: the emitted text has exactly the law of plain sampling.
 */
module SpeculativeRun {
  import opened Measure
  import opened Sampler
  import opened Vocab
  import opened Lattice
  import opened Acceptance
  import opened Losslessness
  import opened SpeculativeCycle

  // ---- a cycle as a fold over its draws ----

  /** Drafts accepted so far; those accepted where the draft ended; or the finished block. */
  datatype State = Going(prev: nat, done: seq<int>) | Held(done: seq<int>) | Stopped(block: seq<int>) {
    function Emitted(): seq<int> { if Stopped? then block else done }
  }

  function Advance(c: Cycle, s: State, d: Draw): (s': State)
    requires (s.Going? ==> |s.done| < c.k && s.prev < c.t.K)
    ensures !s.Going? ==> s' == s
    ensures s.Going? && !c.go(s.done) ==> s' == Held(s.done)
    ensures s'.Going? ==> s.Going? && s'.prev < c.t.K && |s'.done| == |s.done| + 1
    ensures s.Going? && c.go(s.done) ==> !s'.Held? && exists y :: s'.Emitted() == s.done + [y]
  {
    if !s.Going? then s
    else if !c.go(s.done) then Held(s.done)
    else
      LawIsLaw(c.V, c.rule, c.ctx + s.done);
      var j := |s.done|;
      var q := c.t.Weights(j, s.prev);
      var (ok, y) := SpeculativeCycle.Emitted(c.V, c.rule, c.t.ids[j], q, c.ctx + s.done, d);
      assert s.done + [y] == s.done + [y];
      if ok then Going(Pick(q, d.path), s.done + [y]) else Stopped(s.done + [y])
  }

  function After(c: Cycle, ds: seq<Draw>): (s: State)
    requires |ds| <= c.k
    ensures s.Going? ==> |s.done| == |ds| && s.prev < c.t.K
  {
    if ds == [] then Going(0, []) else Advance(c, After(c, ds[..|ds|-1]), ds[|ds|-1])
  }

  /** The block of a finished cycle; the bonus token follows when all drafts were accepted. */
  function Block(c: Cycle, s: State, bonus: real): seq<int>
  {
    if s.Stopped? then s.block
    else
      LawIsLaw(c.V, c.rule, c.ctx + s.done);
      s.done + [DrawToken(c.rule, c.ctx + s.done, bonus)]
  }

  // ---- the event: the text continues with y ----

  type Continuation = (seq<int>, seq<int>) -> real

  /** Probability that the text after ctx starts with y, given that it starts with b and goes on
      by `cont`. */
  ghost function Match(ctx: seq<int>, b: seq<int>, y: seq<int>, cont: Continuation): real {
    if |y| <= |b| then (if y <= b then 1.0 else 0.0)
    else if b <= y then cont(ctx + b, y[|b|..]) else 0.0
  }

  /** Plain sampling of the target as a continuation. */
  ghost function PlainOf(V: nat, rule: Rule): Continuation
    requires IsTarget(V, rule)
  {
    (x, ys) => Plain(V, rule, x, ys)
  }

  ghost predicate Agrees(V: nat, rule: Rule, cont: Continuation)
    requires IsTarget(V, rule)
  {
    forall x, ys :: InVocab(V, ys) ==> cont(x, ys) == Plain(V, rule, x, ys)
  }

  ghost function BonusSlice(c: Cycle, cont: Continuation, s: State, y: seq<int>): real -> real
  {
    u => Match(c.ctx, Block(c, s, u), y, cont)
  }

  /** What the draws of one cycle are worth, the bonus variate integrated out. */
  ghost function Payoff(c: Cycle, cont: Continuation, y: seq<int>, ds: seq<Draw>): real
    requires |ds| <= c.k
  {
    Integral(BonusSlice(c, cont, After(c, ds), y))
  }

  ghost function NextDraw(c: Cycle, cont: Continuation, y: seq<int>, ds: seq<Draw>): Integrand
    requires |ds| < c.k
    decreases c.k - |ds|, 0
  {
    (p, a, r, m) => Volume(c, cont, y, ds + [Draw(p, a, r, m)])
  }

  /** The payoff integrated over all variates of the positions still to come. */
  ghost function Volume(c: Cycle, cont: Continuation, y: seq<int>, ds: seq<Draw>): real
    requires |ds| <= c.k
    decreases c.k - |ds|, 1
  {
    if |ds| == c.k then Payoff(c, cont, y, ds) else Integral4(NextDraw(c, cont, y, ds))
  }

  // ---- the law of a cycle ----

  /** One more token z after b: the event keeps its probability, on average over the target's z. */
  lemma MatchOne(V: nat, rule: Rule, ctx: seq<int>, b: seq<int>, y: seq<int>, z: int)
    requires IsTarget(V, rule) && InVocab(V, y)
    ensures |y| <= |b| || !(b <= y) ==>
      Match(ctx, b + [z], y, PlainOf(V, rule)) == Match(ctx, b, y, PlainOf(V, rule))
    ensures |y| > |b| && b <= y ==>
      Match(ctx, b + [z], y, PlainOf(V, rule))
      == if z == y[|b|] then Plain(V, rule, ctx + b + [z], y[|b|..][1..]) else 0.0
  {
    if |y| <= |b| {
      assert y <= b + [z] <==> y <= b;
    } else if b <= y {
      assert y[|b|..][1..] == y[|b| + 1..];
      assert ctx + b + [z] == ctx + (b + [z]);
      if |y| == |b| + 1 { assert y == b + [y[|b|]]; }
      assert b + [z] <= y <==> z == y[|b|];
    } else {
      assert !(b + [z] <= y);
    }
  }

  lemma MatchCont(c: Cycle, cont: Continuation, b: seq<int>, y: seq<int>)
    requires Agrees(c.V, c.rule, cont) && InVocab(c.V, y)
    ensures Match(c.ctx, b, y, cont) == Match(c.ctx, b, y, PlainOf(c.V, c.rule))
  {
    if |y| > |b| { assert InVocab(c.V, y[|b|..]); }
  }

  /** After all k positions, the bonus token is an ordinary draw of the target. */
  lemma PayoffIs(c: Cycle, cont: Continuation, y: seq<int>, ds: seq<Draw>)
    requires |ds| == c.k && Agrees(c.V, c.rule, cont) && InVocab(c.V, y)
    ensures Payoff(c, cont, y, ds) == Match(c.ctx, After(c, ds).Emitted(), y, PlainOf(c.V, c.rule))
  {
    var s := After(c, ds);
    var f, b, goal := BonusSlice(c, cont, s, y), s.Emitted(), Match(c.ctx, s.Emitted(), y, PlainOf(c.V, c.rule));
    forall u ensures f(u) == Match(c.ctx, Block(c, s, u), y, PlainOf(c.V, c.rule)) {
      MatchCont(c, cont, Block(c, s, u), y);
    }
    if s.Stopped? {
      IntegralConstant(f, goal);
    } else if |y| <= |b| || !(b <= y) {
      forall u ensures f(u) == goal {
        LawIsLaw(c.V, c.rule, c.ctx + b);
        MatchOne(c.V, c.rule, c.ctx, b, y, DrawToken(c.rule, c.ctx + b, u));
      }
      IntegralConstant(f, goal);
    } else {
      var x, rest := c.ctx + b, y[|b|..];
      LawIsLaw(c.V, c.rule, x);
      var r := Plain(c.V, c.rule, x + [rest[0]], rest[1..]);
      forall u ensures f(u) == if DrawToken(c.rule, x, u) == rest[0] then r else 0.0 {
        MatchOne(c.V, c.rule, c.ctx, b, y, DrawToken(c.rule, x, u));
      }
      DrawLaw(c.V, c.rule, x, rest[0], r, f);
      PlainChain(c.V, c.rule, x, rest);
    }
  }

  /** Integrating out one position leaves the probability of the event unchanged. */
  lemma PositionIs(c: Cycle, s: State, y: seq<int>, F: Integrand)
    requires InVocab(c.V, y) && (s.Going? ==> |s.done| < c.k && s.prev < c.t.K)
    requires forall p, a, r, m :: InCube(Draw(p, a, r, m)) ==>
      F(p, a, r, m) == Match(c.ctx, Advance(c, s, Draw(p, a, r, m)).Emitted(), y, PlainOf(c.V, c.rule))
    ensures Integral4(F) == Match(c.ctx, s.Emitted(), y, PlainOf(c.V, c.rule))
  {
    var b, goal := s.Emitted(), Match(c.ctx, s.Emitted(), y, PlainOf(c.V, c.rule));
    if !s.Going? || !c.go(s.done) {
      Constant4(F, goal);
    } else if |y| <= |b| || !(b <= y) {
      forall p, a, r, m | InCube(Draw(p, a, r, m)) ensures F(p, a, r, m) == goal {
        var z :| Advance(c, s, Draw(p, a, r, m)).Emitted() == b + [z];
        MatchOne(c.V, c.rule, c.ctx, b, y, z);
      }
      Constant4(F, goal);
    } else {
      GoingIs(c, s, y, F);
    }
  }

  lemma GoingIs(c: Cycle, s: State, y: seq<int>, F: Integrand)
    requires InVocab(c.V, y) && s.Going? && c.go(s.done) && |s.done| < c.k && s.prev < c.t.K
    requires |y| > |s.done| && s.done <= y
    requires forall p, a, r, m :: InCube(Draw(p, a, r, m)) ==>
      F(p, a, r, m) == Match(c.ctx, Advance(c, s, Draw(p, a, r, m)).Emitted(), y, PlainOf(c.V, c.rule))
    ensures Integral4(F) == Match(c.ctx, s.done, y, PlainOf(c.V, c.rule))
  {
    var j, x := |s.done|, c.ctx + s.done;
    var q, ids, rest := c.t.Weights(j, s.prev), c.t.ids[j], y[j..];
    LawIsLaw(c.V, c.rule, x);
    var r := Plain(c.V, c.rule, x + [rest[0]], rest[1..]);
    forall p, a, u, m | InCube(Draw(p, a, u, m))
      ensures F(p, a, u, m)
           == if SpeculativeCycle.Emitted(c.V, c.rule, ids, q, x, Draw(p, a, u, m)).1 == rest[0] then r else 0.0
    {
      var z := SpeculativeCycle.Emitted(c.V, c.rule, ids, q, x, Draw(p, a, u, m)).1;
      assert Advance(c, s, Draw(p, a, u, m)).Emitted() == s.done + [z];
      MatchOne(c.V, c.rule, c.ctx, s.done, y, z);
    }
    StepLaw(c.V, c.rule, ids, q, x, rest[0], r, F);
    PlainChain(c.V, c.rule, x, rest);
  }

  lemma {:induction false} VolumeIs(c: Cycle, cont: Continuation, y: seq<int>, ds: seq<Draw>)
    requires |ds| <= c.k && Agrees(c.V, c.rule, cont) && InVocab(c.V, y)
    ensures Volume(c, cont, y, ds) == Match(c.ctx, After(c, ds).Emitted(), y, PlainOf(c.V, c.rule))
    decreases c.k - |ds|
  {
    if |ds| == c.k {
      PayoffIs(c, cont, y, ds);
    } else {
      var F := NextDraw(c, cont, y, ds);
      forall p, a, r, m | InCube(Draw(p, a, r, m))
        ensures F(p, a, r, m) == Match(c.ctx, Advance(c, After(c, ds), Draw(p, a, r, m)).Emitted(), y, PlainOf(c.V, c.rule))
      {
        var es := ds + [Draw(p, a, r, m)];
        assert es[..|ds|] == ds;
        VolumeIs(c, cont, y, es);
      }
      PositionIs(c, After(c, ds), y, F);
    }
  }

  /** Losslessness of a cycle. Integrated over all its variates, a speculative cycle continued by
      anything that samples the target continues the context with y exactly as often as plain
      sampling does. */
  lemma CycleLossless(c: Cycle, cont: Continuation, y: seq<int>)
    requires Agrees(c.V, c.rule, cont) && InVocab(c.V, y)
    ensures Volume(c, cont, y, []) == Plain(c.V, c.rule, c.ctx, y)
  {
    VolumeIs(c, cont, y, []);
    assert c.ctx + [] == c.ctx && y[0..] == y;
  }

  // ---- chains of cycles ----

  /** The lattice, the largest draft length and the rule that ends the draft, chosen after every
      context. */
  datatype Draft = Draft(t: Tables, k: nat, go: seq<int> -> bool)
  type Drafter = seq<int> -> Draft

  ghost predicate IsDrafter(V: nat, draft: Drafter) {
    forall ctx :: IsProposal(V, draft(ctx).t) && draft(ctx).k <= draft(ctx).t.P
  }

  ghost function CycleAt(V: nat, rule: Rule, draft: Drafter, x: seq<int>): Cycle
    requires IsTarget(V, rule) && IsDrafter(V, draft)
  {
    CycleData(V, rule, draft(x).t, draft(x).k, draft(x).go, x)
  }

  ghost function Chain(V: nat, rule: Rule, draft: Drafter, n: nat): Continuation
    requires IsTarget(V, rule) && IsDrafter(V, draft)
  {
    if n == 0 then PlainOf(V, rule)
    else
      var next := Chain(V, rule, draft, n - 1);
      (x, ys) => Volume(CycleAt(V, rule, draft, x), next, ys, [])
  }

  /** Any number of speculative cycles in a row, with any drafts, emits text distributed as plain
      sampling of the target. */
  lemma {:induction false} ChainLossless(V: nat, rule: Rule, draft: Drafter, n: nat)
    requires IsTarget(V, rule) && IsDrafter(V, draft)
    ensures Agrees(V, rule, Chain(V, rule, draft, n))
  {
    if n > 0 {
      ChainLossless(V, rule, draft, n - 1);
      forall x, ys | InVocab(V, ys) ensures Chain(V, rule, draft, n)(x, ys) == Plain(V, rule, x, ys) {
        CycleLossless(CycleAt(V, rule, draft, x), Chain(V, rule, draft, n - 1), ys);
      }
    }
  }
}

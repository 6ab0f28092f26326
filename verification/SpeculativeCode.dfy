/**
 The fold over draws that the law is proved for is what the code computes: sample the whole
 path first, verify it in one pass, then run the acceptance loop.
 */
module SpeculativeCode {
  import opened Measure
  import opened Sampler
  import opened Vocab
  import opened Lattice
  import opened Acceptance
  import opened Losslessness
  import opened SpeculativeCycle
  import opened SpeculativeRun

  function PathVariates(ds: seq<Draw>): (u: seq<real>)
    ensures |u| == |ds|
  {
    seq(|ds|, i requires 0 <= i < |ds| => ds[i].path)
  }

  function AcceptVariates(ds: seq<Draw>): (u: seq<real>)
    ensures |u| == |ds|
  {
    seq(|ds|, i requires 0 <= i < |ds| => ds[i].acc)
  }

  function ResidualVariates(ds: seq<Draw>): (u: seq<real>)
    ensures |u| == |ds|
  {
    seq(|ds|, i requires 0 <= i < |ds| => ds[i].res)
  }

  function PathTokens(t: Tables, path: Path): (r: seq<int>)
    requires t.Valid() && t.IsPath(path, |path|)
    ensures |r| == |path|
  {
    seq(|path|, i requires 0 <= i < |path| => t.Token(i, path[i]))
  }

  /** Drawing further positions never changes the earlier ones. */
  lemma {:induction false} SamplePrefix(t: Tables, u: seq<real>, n: nat)
    requires t.Valid() && n <= |u| <= t.P
    ensures SamplePath(t, u)[..n] == SamplePath(t, u[..n])
  {
    if n < |u| {
      var m := |u| - 1;
      SamplePrefix(t, u[..m], n);
      assert u[..m][..n] == u[..n];
      assert SamplePath(t, u)[..n] == SamplePath(t, u[..m])[..n];
    } else {
      assert u[..n] == u;
    }
  }

  /** The path the code samples before anything is verified: all P positions, the first k of which
      matter. */
  function CodePath(c: Cycle, ds: seq<Draw>, tail: seq<real>): (path: Path)
    requires |ds| == c.k && |tail| == c.t.P - c.k
    ensures |path| == c.t.P && c.t.IsPath(path, |path|)
  {
    SamplePath(c.t, PathVariates(ds) + tail)
  }

  /** The positions that are verified: up to the first where the rule says stop. */
  function Verified(c: Cycle, path: Path, j: nat): (k: nat)
    requires |path| == c.t.P && c.t.IsPath(path, |path|) && j <= c.k
    ensures j <= k <= c.k
    decreases c.k - j
  {
    if j == c.k || !c.go(PathTokens(c.t, path[..j])) then j else Verified(c, path, j + 1)
  }

  /** Row j of the verify pass is conditioned on the drafted tokens before j. */
  function RowContext(c: Cycle, path: Path, j: nat): seq<int>
    requires c.t.IsPath(path, |path|) && j <= |path|
  {
    c.ctx + PathTokens(c.t, path[..j])
  }

  function ExactCall(c: Cycle, target: seq<int> -> seq<real>, ds: seq<Draw>, tail: seq<real>, bonus: real): ExactData
    requires |ds| == c.k && |tail| == c.t.P - c.k && c.rule == Exact(target)
  {
    var path := CodePath(c, ds, tail);
    var k := Verified(c, path, 0);
    ExactData(c.t, path, k,
              seq(k, j requires 0 <= j < k => AtTokens(target(RowContext(c, path, j)), c.t.ids[j])),
              seq(k, j requires 0 <= j < k => Pick(MaskOut(target(RowContext(c, path, j)), c.t.ids[j]), ds[j].mask)),
              seq(k + 1, j requires 0 <= j <= k => Pick(target(RowContext(c, path, j)), bonus)),
              AcceptVariates(ds), ResidualVariates(ds))
  }

  function TopCall(c: Cycle, ids: seq<int> -> seq<int>, pv: seq<int> -> seq<real>, ds: seq<Draw>, tail: seq<real>, bonus: real): TopData
    requires |ds| == c.k && |tail| == c.t.P - c.k && c.rule == TopKv(ids, pv)
  {
    var path := CodePath(c, ds, tail);
    var k := Verified(c, path, 0);
    TopData(c.t, path, k,
            seq(k + 1, j requires 0 <= j <= k => ids(RowContext(c, path, j))),
            seq(k + 1, j requires 0 <= j <= k => pv(RowContext(c, path, j))),
            AcceptVariates(ds), ResidualVariates(ds)[..k] + [bonus])
  }

  lemma ExactFits(c: Cycle, ds: seq<Draw>, tail: seq<real>, bonus: real)
    requires |ds| == c.k && |tail| == c.t.P - c.k && c.rule.Exact?
    ensures ExactCall(c, c.rule.target, ds, tail, bonus).Fits()
  {
    var x, path := ExactCall(c, c.rule.target, ds, tail, bonus), CodePath(c, ds, tail);
    forall j | 0 <= j < x.k ensures |x.pc[j]| == c.t.K {
      assert x.pc[j] == AtTokens(c.rule.target(RowContext(c, path, j)), c.t.ids[j]);
    }
  }

  lemma TopFits(c: Cycle, ds: seq<Draw>, tail: seq<real>, bonus: real)
    requires |ds| == c.k && |tail| == c.t.P - c.k && c.rule.TopKv?
    ensures TopCall(c, c.rule.ids, c.rule.pv, ds, tail, bonus).Fits()
  {
    var x, path := TopCall(c, c.rule.ids, c.rule.pv, ds, tail, bonus), CodePath(c, ds, tail);
    forall j | 0 <= j <= x.k ensures |x.ids[j]| == |x.pv[j]| > 0 {
      LawIsLaw(c.V, c.rule, RowContext(c, path, j));
    }
  }

  /** Pick j of the sampled path is drawn from the row of pick j - 1. */
  lemma PathPick(c: Cycle, ds: seq<Draw>, tail: seq<real>, j: nat)
    requires |ds| == c.k && |tail| == c.t.P - c.k && j < c.k
    ensures var path := CodePath(c, ds, tail);
            path[j] == Pick(c.t.Weights(j, Prev(path, j)), ds[j].path)
  {
    var u := PathVariates(ds) + tail;
    SamplePrefix(c.t, u, j + 1);
    SamplePrefix(c.t, u, j);
    assert u[..j+1][..j] == u[..j] && u[..j+1][j] == ds[j].path;
    var path := CodePath(c, ds, tail);
    assert path[..j+1][j] == path[j];
    assert Prev(path[..j], j) == Prev(path, j);
  }

  lemma TokensSnoc(c: Cycle, path: Path, j: nat)
    requires c.t.IsPath(path, |path|) && j < |path|
    ensures PathTokens(c.t, path[..j+1]) == PathTokens(c.t, path[..j]) + [c.t.Token(j, path[j])]
  {
    assert path[..j+1][..j] == path[..j];
  }

  /** Where the fold stands while it is going: on the sampled path, with its tokens emitted. */
  ghost predicate OnPath(c: Cycle, s: State, path: Path, j: nat)
    requires c.t.IsPath(path, |path|) && j <= |path|
  {
    s.Going? ==> s.prev == Prev(path, j) && s.done == PathTokens(c.t, path[..j])
  }

  lemma StepOnPath(c: Cycle, s: State, d: Draw, path: Path, j: nat)
    requires c.t.IsPath(path, |path|) && j < c.k <= |path| && OnPath(c, s, path, j)
    requires s.Going? ==> |s.done| == j && s.prev < c.t.K && path[j] == Pick(c.t.Weights(j, s.prev), d.path)
    ensures OnPath(c, Advance(c, s, d), path, j + 1)
  {
    TokensSnoc(c, path, j);
  }

  lemma {:induction false} GoingOnPath(c: Cycle, ds: seq<Draw>, tail: seq<real>, j: nat)
    requires |ds| == c.k && |tail| == c.t.P - c.k && j <= c.k
    ensures OnPath(c, After(c, ds[..j]), CodePath(c, ds, tail), j)
  {
    hide Advance;
    if j > 0 {
      var i := j - 1;
      GoingOnPath(c, ds, tail, i);
      AfterSnoc(c, ds, i);
      PathPick(c, ds, tail, i);
      StepOnPath(c, After(c, ds[..i]), ds[i], CodePath(c, ds, tail), i);
    }
  }

  lemma AfterSnoc(c: Cycle, ds: seq<Draw>, n: nat)
    requires n < |ds| <= c.k
    ensures After(c, ds[..n+1]) == Advance(c, After(c, ds[..n]), ds[n])
  {
    hide Advance;
    assert ds[..n+1][..n] == ds[..n];
  }

  /** A draft that has ended, one way or the other, stays as it is. */
  lemma {:induction false} StaysEnded(c: Cycle, ds: seq<Draw>, j: nat, n: nat)
    requires j <= n <= |ds| <= c.k && !After(c, ds[..j]).Going?
    ensures After(c, ds[..n]) == After(c, ds[..j])
  {
    hide Advance;
    if j < n {
      StaysEnded(c, ds, j, n - 1);
      AfterSnoc(c, ds, n - 1);
    }
  }

  /** Where the rule says stop, or nothing is left to verify, the drafts so far are all there is. */
  lemma EndsHere(c: Cycle, ds: seq<Draw>, j: nat)
    requires |ds| == c.k && j <= c.k && After(c, ds[..j]).Going?
    requires j == c.k || !c.go(After(c, ds[..j]).done)
    ensures !After(c, ds).Stopped? && After(c, ds).done == After(c, ds[..j]).done
  {
    assert ds[..c.k] == ds;
    if j < c.k {
      AfterSnoc(c, ds, j);
      StaysEnded(c, ds, j + 1, c.k);
    }
  }

  /** Position j and the verified positions from there on. */
  ghost predicate Verifying(c: Cycle, ds: seq<Draw>, tail: seq<real>, j: nat, k: nat)
    requires |ds| == c.k && |tail| == c.t.P - c.k
  {
    j <= k <= c.k && After(c, ds[..j]).Going? && k == Verified(c, CodePath(c, ds, tail), j)
  }

  lemma ExactStepIs(c: Cycle, target: seq<int> -> seq<real>, ds: seq<Draw>, tail: seq<real>, bonus: real, j: nat, s: State, x: ExactCase)
    requires |ds| == c.k && |tail| == c.t.P - c.k && c.rule == Exact(target) && x == ExactCall(c, target, ds, tail, bonus)
    requires j < x.k && s.Going? && c.go(s.done) && |s.done| == j && s.prev < c.t.K && OnPath(c, s, CodePath(c, ds, tail), j)
    ensures var (ok, y) := ExactStep(x, j);
            var s' := Advance(c, s, ds[j]);
            s'.Going? == ok && s'.Emitted() == s.done + [y]
  {
    LawIsLaw(c.V, c.rule, c.ctx + s.done);
    PathPick(c, ds, tail, j);
    var path := CodePath(c, ds, tail);
    assert RowContext(c, path, j) == c.ctx + s.done;
  }

  lemma {:induction false} ExactFrom(c: Cycle, target: seq<int> -> seq<real>, ds: seq<Draw>, tail: seq<real>, bonus: real, j: nat, x: ExactCase)
    requires |ds| == c.k && |tail| == c.t.P - c.k && c.rule == Exact(target) && x == ExactCall(c, target, ds, tail, bonus)
    requires Verifying(c, ds, tail, j, x.k)
    ensures Block(c, After(c, ds), bonus) == ExactRun(x, j, After(c, ds[..j]).done)
    decreases c.k - j
  {
    hide Advance, ExactStep, TopStep;
    var s, path := After(c, ds[..j]), CodePath(c, ds, tail);
    GoingOnPath(c, ds, tail, j);
    if j == x.k {
      EndsHere(c, ds, j);
      LawIsLaw(c.V, c.rule, c.ctx + s.done);
      assert RowContext(c, path, j) == c.ctx + s.done;
    } else {
      ExactStepIs(c, target, ds, tail, bonus, j, s, x);
      AfterSnoc(c, ds, j);
      if After(c, ds[..j+1]).Going? {
        ExactFrom(c, target, ds, tail, bonus, j + 1, x);
      } else {
        StaysEnded(c, ds, j + 1, c.k);
        assert ds[..c.k] == ds;
      }
    }
  }

  /** Sampling the whole path, then `accept_sampling_exact` on the positions that the rule lets
      through, is the fold the law is proved for; positions behind them do not matter. */
  lemma ExactIsCycle(c: Cycle, target: seq<int> -> seq<real>, ds: seq<Draw>, tail: seq<real>, bonus: real)
    requires |ds| == c.k && |tail| == c.t.P - c.k && c.rule == Exact(target)
    ensures ExactCall(c, target, ds, tail, bonus).Fits()
    ensures ExactRun(ExactCall(c, target, ds, tail, bonus), 0, []) == Block(c, After(c, ds), bonus)
  {
    assert ds[..0] == [];
    ExactFits(c, ds, tail, bonus);
    ExactFrom(c, target, ds, tail, bonus, 0, ExactCall(c, target, ds, tail, bonus));
  }

  lemma TopStepIs(c: Cycle, ids: seq<int> -> seq<int>, pv: seq<int> -> seq<real>, ds: seq<Draw>, tail: seq<real>, bonus: real, j: nat, s: State, x: TopCase)
    requires |ds| == c.k && |tail| == c.t.P - c.k && c.rule == TopKv(ids, pv) && x == TopCall(c, ids, pv, ds, tail, bonus)
    requires j < x.k && s.Going? && c.go(s.done) && |s.done| == j && s.prev < c.t.K && OnPath(c, s, CodePath(c, ds, tail), j)
    ensures var (ok, y) := TopStep(x, j);
            var s' := Advance(c, s, ds[j]);
            s'.Going? == ok && s'.Emitted() == s.done + [y]
  {
    LawIsLaw(c.V, c.rule, c.ctx + s.done);
    PathPick(c, ds, tail, j);
    var path := CodePath(c, ds, tail);
    assert RowContext(c, path, j) == c.ctx + s.done;
    assert x.uRes[j] == ds[j].res;
  }

  lemma {:induction false} TopFrom(c: Cycle, ids: seq<int> -> seq<int>, pv: seq<int> -> seq<real>, ds: seq<Draw>, tail: seq<real>, bonus: real, j: nat, x: TopCase)
    requires |ds| == c.k && |tail| == c.t.P - c.k && c.rule == TopKv(ids, pv) && x == TopCall(c, ids, pv, ds, tail, bonus)
    requires Verifying(c, ds, tail, j, x.k)
    ensures Block(c, After(c, ds), bonus) == TopRun(x, j, After(c, ds[..j]).done)
    decreases c.k - j
  {
    hide Advance, ExactStep, TopStep;
    var s, path := After(c, ds[..j]), CodePath(c, ds, tail);
    GoingOnPath(c, ds, tail, j);
    if j == x.k {
      EndsHere(c, ds, j);
      LawIsLaw(c.V, c.rule, c.ctx + s.done);
      assert RowContext(c, path, j) == c.ctx + s.done && x.uRes[j] == bonus;
    } else {
      TopStepIs(c, ids, pv, ds, tail, bonus, j, s, x);
      AfterSnoc(c, ds, j);
      if After(c, ds[..j+1]).Going? {
        TopFrom(c, ids, pv, ds, tail, bonus, j + 1, x);
      } else {
        StaysEnded(c, ds, j + 1, c.k);
        assert ds[..c.k] == ds;
      }
    }
  }

  /** The same for `accept_sampling`. */
  lemma TopIsCycle(c: Cycle, ids: seq<int> -> seq<int>, pv: seq<int> -> seq<real>, ds: seq<Draw>, tail: seq<real>, bonus: real)
    requires |ds| == c.k && |tail| == c.t.P - c.k && c.rule == TopKv(ids, pv)
    ensures TopCall(c, ids, pv, ds, tail, bonus).Fits()
    ensures TopRun(TopCall(c, ids, pv, ds, tail, bonus), 0, []) == Block(c, After(c, ds), bonus)
  {
    assert ds[..0] == [];
    TopFits(c, ds, tail, bonus);
    TopFrom(c, ids, pv, ds, tail, bonus, 0, TopCall(c, ids, pv, ds, tail, bonus));
  }
}

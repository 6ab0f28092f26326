/**
 Speculative-sampling acceptance of cpu/dspark_tree.cpp: `accept_sampling_exact` and
 `accept_sampling`, as loops and as the functions that specify them.
 */
module Acceptance {
  import opened Measure
  import opened Sampler
  import opened Lattice
  import opened LatticeBuild
  import opened Wrappers
  import opened Vocab

  /** The emitted tokens; the last one is the correction or the bonus. */
  datatype Accept = Accept(accepted: nat, tokens: seq<int>)

  /** The acceptance test of one drafted token: u * q < p. */
  predicate Accepts(u: real, q: real, p: real) {
    Times(u, q) < p
  }

  // ---- exact rule ----

  /** Correction token of the exact rule: inside the candidates by cumulative excess,
      otherwise the sample taken with the candidates masked out. */
  function ExactResidual(ids: seq<int>, pc: seq<real>, q: seq<real>, masked: int, u: real): int
    requires |ids| == |pc| == |q| > 0
  {
    var w := ExcessOf(pc, q);
    var rest := Excess(1.0, Sum(pc));
    var t := Times(u, Sum(w) + rest);
    if t < Sum(w) then ids[PickAt(w, t)] else masked
  }

  /** One call of the exact rule: the target weight of every candidate, the masked samples, the
      full-row samples and the variates, for the first k positions of a path. */
  datatype ExactData = ExactData(t: Tables, path: Path, k: nat, pc: seq<seq<real>>, masked: seq<int>, full: seq<int>,
                                 uAcc: seq<real>, uRes: seq<real>)
  {
    ghost predicate Fits() {
      && t.Valid() && k <= t.P && t.IsPath(path, |path|) && k <= |path|
      && |pc| == k && (forall j :: 0 <= j < k ==> |pc[j]| == t.K)
      && |masked| >= k && |full| >= k + 1 && |uAcc| >= k && |uRes| >= k
    }
  }

  type ExactCase = c: ExactData | c.Fits()
    ghost witness ExactData(Tables(0, 1, [], [], _ => 0.0), [], 0, [], [], [0], [], [])

  /** One position: is the draft accepted, and which token is emitted. */
  function ExactStep(x: ExactCase, j: nat): (bool, int)
    requires j < x.k
  {
    var q := x.t.Weights(j, Prev(x.path, j));
    var c := x.path[j];
    if Accepts(x.uAcc[j], q[c], x.pc[j][c]) then (true, x.t.Token(j, c))
    else (false, ExactResidual(x.t.ids[j], x.pc[j], q, x.masked[j], x.uRes[j]))
  }

  /** The emitted block, once positions before j have emitted `done`. */
  function ExactRun(x: ExactCase, j: nat, done: seq<int>): (r: seq<int>)
    requires j <= x.k
    ensures |done| + 1 <= |r| <= |done| + x.k - j + 1
    decreases x.k - j
  {
    if j == x.k then done + [x.full[j]]
    else
      var (ok, y) := ExactStep(x, j);
      if ok then ExactRun(x, j + 1, done + [y]) else done + [y]
  }

  /** exp(logit - lse): the target's weight of every candidate. */
  function CandidateWeights(t: Tables, logit: seq<real>, lse: real): (pc: seq<real>)
    requires |logit| >= t.K
    ensures |pc| == t.K
  {
    seq(t.K, c requires 0 <= c < t.K => t.exp(logit[c] - lse))
  }

  /** The call made by a verify pass: logits at the candidates and the logsumexp of each row. */
  function ExactInput(t: Tables, path: Path, k: nat, candLogit: seq<seq<real>>, lse: seq<real>,
                      masked: seq<int>, full: seq<int>, uAcc: seq<real>, uRes: seq<real>): ExactData
    requires |candLogit| >= k && |lse| >= k && forall j :: 0 <= j < k ==> |candLogit[j]| >= t.K
  {
    ExactData(t, path, k, seq(k, j requires 0 <= j < k => CandidateWeights(t, candLogit[j], lse[j])),
              masked, full, uAcc, uRes)
  }

  method AcceptSamplingExact(t: Tables, path: Path, k: nat, candLogit: seq<seq<real>>, lse: seq<real>,
                             masked: seq<int>, full: seq<int>, uAcc: seq<real>, uRes: seq<real>)
    returns (r: Accept)
    requires |candLogit| >= k && |lse| >= k && forall j :: 0 <= j < k ==> |candLogit[j]| >= t.K
    requires ExactInput(t, path, k, candLogit, lse, masked, full, uAcc, uRes).Fits()
    ensures r.tokens == ExactRun(ExactInput(t, path, k, candLogit, lse, masked, full, uAcc, uRes), 0, [])
    ensures |r.tokens| == r.accepted + 1
  {
    var tokens := [];
    ghost var x: ExactCase := ExactInput(t, path, k, candLogit, lse, masked, full, uAcc, uRes);
    for j := 0 to k
      invariant |tokens| == j && ExactRun(x, 0, []) == ExactRun(x, j, tokens)
    {
      var pc := CandidateRow(t, candLogit[j], lse[j]);
      var ok, y := ExactPosition(t, path, j, pc, masked[j], uAcc[j], uRes[j], x);
      tokens := tokens + [y];
      if !ok { return Accept(j, tokens); }
    }
    return Accept(k, tokens + [full[k]]);
  }

  method ExactPosition(t: Tables, path: Path, j: nat, pc: seq<real>, masked: int, uAcc: real, uRes: real, ghost x: ExactCase)
    returns (ok: bool, y: int)
    requires t == x.t && path == x.path && j < x.k && pc == x.pc[j] && masked == x.masked[j]
    requires uAcc == x.uAcc[j] && uRes == x.uRes[j]
    ensures (ok, y) == ExactStep(x, j)
  {
    var qrow := t.Weights(j, Prev(path, j));
    var c := path[j];
    if Accepts(uAcc, qrow[c], pc[c]) {
      return true, t.Token(j, c);
    }
    y := ExactReject(t.ids[j], pc, qrow, masked, uRes);
    return false, y;
  }

  method CandidateRow(t: Tables, logit: seq<real>, lse: real) returns (pc: seq<real>)
    requires |logit| >= t.K
    ensures pc == CandidateWeights(t, logit, lse)
  {
    pc := [];
    for c := 0 to t.K
      invariant pc == CandidateWeights(t, logit, lse)[..c]
    {
      pc := pc + [t.exp(logit[c] - lse)];
    }
  }

  method ExactReject(ids: seq<int>, pc: seq<real>, qrow: seq<real>, masked: int, u: real) returns (y: int)
    requires |ids| == |pc| == |qrow| > 0
    ensures y == ExactResidual(ids, pc, qrow, masked, u)
  {
    ghost var all := ExcessOf(pc, qrow);
    var w: seq<real> := [];
    var sw, sp := 0.0, 0.0;
    for i := 0 to |pc|
      invariant w == all[..i] && sw == Sum(all[..i]) && sp == Sum(pc[..i])
    {
      var d := pc[i] - qrow[i];
      w := w + [if d > 0.0 then d else 0.0];
      SumSnoc(all, i);
      SumSnoc(pc, i);
      sw, sp := sw + w[i], sp + pc[i];
    }
    assert all[..|pc|] == all && pc[..|pc|] == pc;
    var rest := 1.0 - sp;
    if !(rest > 0.0) { rest := 0.0; }
    var t := Times(u, sw + rest);
    if t < sw {
      var pick := Scan(w, t);
      y := ids[pick];
    } else {
      y := masked;
    }
  }

  // ---- top-Kv rule ----

  /** Excess of the verify list over the proposal, entry by entry. */
  function ListExcess(verIds: seq<int>, pv: seq<real>, ids: seq<int>, q: seq<real>): (res: seq<real>)
    requires |verIds| == |pv| && |ids| == |q|
    ensures |res| == |pv|
    ensures NonNegative(res)
  {
    seq(|pv|, v requires 0 <= v < |pv| => Excess(pv[v], Lookup(ids, q, verIds[v])))
  }

  /** Correction token of the top-Kv rule; the argmax is the fallback for an empty excess. */
  function TopResidual(verIds: seq<int>, pv: seq<real>, ids: seq<int>, q: seq<real>, u: real): int
    requires |verIds| == |pv| > 0 && |ids| == |q|
  {
    var res := ListExcess(verIds, pv, ids, q);
    if Sum(res) > 0.0 then verIds[Pick(res, u)] else verIds[ArgmaxOf(pv)]
  }

  /** Where the verify list has nothing over the proposal, the correction is its first best token. */
  lemma TopFallback(verIds: seq<int>, pv: seq<real>, ids: seq<int>, q: seq<real>, u: real, a: nat)
    requires |verIds| == |pv| > 0 && |ids| == |q| && IsFirstArgmax(pv, a)
    requires forall v :: 0 <= v < |pv| ==> pv[v] <= Lookup(ids, q, verIds[v])
    ensures TopResidual(verIds, pv, ids, q, u) == verIds[a]
  {
    NothingOver(ListExcess(verIds, pv, ids, q));
    FirstArgmaxUnique(pv, a, ArgmaxOf(pv));
  }

  lemma {:induction false} NothingOver(w: seq<real>)
    requires forall i :: 0 <= i < |w| ==> w[i] == 0.0
    ensures Sum(w) == 0.0
  {
    if w != [] { NothingOver(w[..|w| - 1]); }
  }

  /** One call of the top-Kv rule: the verify lists with their normalised weights. */
  datatype TopData = TopData(t: Tables, path: Path, k: nat, ids: seq<seq<int>>, pv: seq<seq<real>>,
                             uAcc: seq<real>, uRes: seq<real>)
  {
    ghost predicate Fits() {
      && t.Valid() && k <= t.P && t.IsPath(path, |path|) && k <= |path|
      && |ids| == |pv| == k + 1 && (forall j :: 0 <= j <= k ==> |ids[j]| == |pv[j]| > 0)
      && |uAcc| >= k && |uRes| >= k + 1
    }
  }

  type TopCase = c: TopData | c.Fits()
    ghost witness TopData(Tables(0, 1, [], [], _ => 0.0), [], 0, [[0]], [[1.0]], [], [0.0])

  function TopStep(x: TopCase, j: nat): (bool, int)
    requires j < x.k
  {
    var q := x.t.Weights(j, Prev(x.path, j));
    var y := x.t.Token(j, x.path[j]);
    if Accepts(x.uAcc[j], q[x.path[j]], Lookup(x.ids[j], x.pv[j], y)) then (true, y)
    else (false, TopResidual(x.ids[j], x.pv[j], x.t.ids[j], q, x.uRes[j]))
  }

  function TopRun(x: TopCase, j: nat, done: seq<int>): (r: seq<int>)
    requires j <= x.k
    ensures |done| + 1 <= |r| <= |done| + x.k - j + 1
    decreases x.k - j
  {
    if j == x.k then done + [x.ids[j][Pick(x.pv[j], x.uRes[j])]]
    else
      var (ok, y) := TopStep(x, j);
      if ok then TopRun(x, j + 1, done + [y]) else done + [y]
  }

  /** softmax of one verify row. */
  function Softmax(exp: real -> real, log: real -> real, logit: seq<real>): (p: seq<real>)
    requires logit != []
    ensures |p| == |logit|
  {
    var lse := Lse(exp, log, logit, None);
    seq(|logit|, v requires 0 <= v < |logit| => exp(logit[v] - lse))
  }

  function TopInput(t: Tables, log: real -> real, path: Path, k: nat, verIds: seq<seq<int>>, verLogit: seq<seq<real>>,
                    uAcc: seq<real>, uRes: seq<real>): TopData
    requires |verIds| == |verLogit| == k + 1
    requires forall j :: 0 <= j <= k ==> |verIds[j]| == |verLogit[j]| > 0
  {
    TopData(t, path, k, verIds, seq(k + 1, j requires 0 <= j <= k => Softmax(t.exp, log, verLogit[j])), uAcc, uRes)
  }

  method AcceptSampling(t: Tables, log: real -> real, path: Path, k: nat, verIds: seq<seq<int>>, verLogit: seq<seq<real>>,
                        uAcc: seq<real>, uRes: seq<real>)
    returns (r: Accept)
    requires |verIds| == |verLogit| == k + 1 && forall j :: 0 <= j <= k ==> |verIds[j]| == |verLogit[j]| > 0
    requires TopInput(t, log, path, k, verIds, verLogit, uAcc, uRes).Fits()
    ensures r.tokens == TopRun(TopInput(t, log, path, k, verIds, verLogit, uAcc, uRes), 0, [])
    ensures |r.tokens| == r.accepted + 1
  {
    var tokens := [];
    ghost var x: TopCase := TopInput(t, log, path, k, verIds, verLogit, uAcc, uRes);
    for j := 0 to k
      invariant |tokens| == j && TopRun(x, 0, []) == TopRun(x, j, tokens)
    {
      var pv := TargetRow(t.exp, log, verLogit[j]);
      var ok, y := TopPosition(t, path, j, verIds[j], pv, uAcc[j], uRes[j], x);
      tokens := tokens + [y];
      if !ok { return Accept(j, tokens); }
    }
    var pv := TargetRow(t.exp, log, verLogit[k]);
    var i := SampleIndex(pv, uRes[k]);
    return Accept(k, tokens + [verIds[k][i]]);
  }

  method TopPosition(t: Tables, path: Path, j: nat, verIds: seq<int>, pv: seq<real>, uAcc: real, uRes: real, ghost x: TopCase)
    returns (ok: bool, y: int)
    requires t == x.t && path == x.path && j < x.k && verIds == x.ids[j] && pv == x.pv[j]
    requires uAcc == x.uAcc[j] && uRes == x.uRes[j]
    ensures (ok, y) == TopStep(x, j)
  {
    var qrow := t.Weights(j, Prev(path, j));
    y := t.Token(j, path[j]);
    var px := FindWeight(verIds, pv, y);
    if Accepts(uAcc, qrow[path[j]], px) {
      return true, y;
    }
    y := TopReject(verIds, pv, t.ids[j], qrow, uRes);
    return false, y;
  }

  method TargetRow(exp: real -> real, log: real -> real, logit: seq<real>) returns (pv: seq<real>)
    requires logit != []
    ensures pv == Softmax(exp, log, logit)
  {
    var lse := LseSeq(exp, log, logit, None);
    pv := [];
    for v := 0 to |logit|
      invariant pv == Softmax(exp, log, logit)[..v]
    {
      pv := pv + [exp(logit[v] - lse)];
    }
  }

  /** The scan for the first matching id. */
  method FindWeight(ids: seq<int>, w: seq<real>, x: int) returns (p: real)
    requires |ids| == |w|
    ensures p == Lookup(ids, w, x)
  {
    for v := 0 to |ids|
      invariant Lookup(ids, w, x) == Lookup(ids[v..], w[v..], x)
    {
      if ids[v] == x { return w[v]; }
    }
    return 0.0;
  }

  method TopReject(verIds: seq<int>, pv: seq<real>, ids: seq<int>, qrow: seq<real>, u: real) returns (y: int)
    requires |verIds| == |pv| > 0 && |ids| == |qrow|
    ensures y == TopResidual(verIds, pv, ids, qrow, u)
  {
    ghost var all := ListExcess(verIds, pv, ids, qrow);
    var res: seq<real> := [];
    var total := 0.0;
    for v := 0 to |pv|
      invariant res == all[..v] && total == Sum(all[..v])
    {
      var qv := FindWeight(ids, qrow, verIds[v]);
      var d := pv[v] - qv;
      res := res + [if d > 0.0 then d else 0.0];
      SumSnoc(all, v);
      total := total + res[v];
    }
    assert res == all && all[..|pv|] == all;
    if total > 0.0 {
      var i := SampleIndex(res, u);
      y := verIds[i];
    } else {
      var a := FirstArgmax(pv);
      FirstArgmaxUnique(pv, a, ArgmaxOf(pv));
      y := verIds[a];
    }
  }
}

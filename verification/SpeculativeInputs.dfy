/**
 The hypotheses of losslessness are met by what the code is given: lattices built without an
 anchor, and verify rows of logits.
 */
module SpeculativeInputs {
  import opened Measure
  import opened Sampler
  import opened Vocab
  import opened Lattice
  import opened LatticeBuild
  import opened Wrappers
  import opened Acceptance
  import opened Losslessness
  import opened SpeculativeCycle
  import opened SpeculativeCode

  /** A lattice built over distinct candidates without an anchor is a proposal. */
  lemma BuiltIsProposal(V: nat, plan: Plan)
    requires plan.Ok() && ExpLog(plan.exp, plan.log) && plan.inp.lseAnchor == []
    requires forall i :: 0 <= i < plan.P ==> Tokens(V, plan.inp.candIds[i][..plan.inp.K])
    ensures IsProposal(V, plan.Built())
  {
    var t := plan.Built();
    forall i | 0 <= i < t.P ensures Tokens(V, t.ids[i]) {
      assert t.ids[i] == plan.inp.candIds[i][..plan.inp.K];
    }
    forall i, p | 0 <= i < t.P && 0 <= p < t.K ensures NonNegative(t.Weights(i, p)) && Sum(t.Weights(i, p)) == 1.0 {
      RowNormalised(plan, i, p);
    }
  }

  /** A position of a built lattice emits every target's law exactly when no mass was left outside its
      candidates; with an anchor that leaves some, `sample_index` renormalises the row and the
      acceptance test does not. */
  lemma BuiltRowLossless(V: nat, plan: Plan, i: nat, p: nat)
    requires plan.Ok() && ExpLog(plan.exp, plan.log) && i < plan.P && p < plan.inp.K && V >= 2
    requires Tokens(V, plan.inp.candIds[i][..plan.inp.K])
    ensures var t := plan.Built();
            && Tokens(V, t.ids[i]) && Sum(t.Weights(i, p)) > 0.0
            && ((forall target :: LosslessFor(V, t.ids[i], t.Weights(i, p), target)) <==> !LeavesMass(plan, i))
  {
    hide LosslessFor;
    var t := plan.Built();
    assert t.ids[i] == plan.inp.candIds[i][..plan.inp.K];
    RowTotal(plan, i, p);
    LosslessExactly(V, t.ids[i], t.Weights(i, p));
  }

  /** The softmax of a row is a probability distribution. */
  lemma SoftmaxIsLaw(exp: real -> real, log: real -> real, logit: seq<real>)
    requires ExpLog(exp, log) && logit != []
    ensures IsLaw(|logit|, Softmax(exp, log, logit))
  {
    hide Times, Lse;
    var p, e, mass := Softmax(exp, log, logit), Shifted(exp, logit, 0.0), Mass(exp, logit, None);
    forall v | 0 <= v < |logit| ensures Times(p[v], mass) == e[v] {
      LseNormalises(exp, log, logit, None, logit[v]);
    }
    LseNormalises(exp, log, logit, None, 0.0);
    SumRatio(p, e, mass);
    OneTimes(Sum(p), mass);
  }

  /** Logits of the candidates, gathered from a full row. */
  function CandidateLogits(logit: seq<real>, ids: seq<int>): (r: seq<real>)
    requires forall i :: 0 <= i < |ids| ==> 0 <= ids[i] < |logit|
    ensures |r| == |ids|
  {
    AtTokens(logit, ids)
  }

  /** exp(logit - lse) at the candidates is the full row's softmax there. */
  lemma CandidatesAreSoftmax(t: Tables, log: real -> real, logit: seq<real>, ids: seq<int>)
    requires logit != [] && |ids| == t.K && forall i :: 0 <= i < |ids| ==> 0 <= ids[i] < |logit|
    ensures CandidateWeights(t, CandidateLogits(logit, ids), Lse(t.exp, log, logit, None))
         == AtTokens(Softmax(t.exp, log, logit), ids)
  {
  }

  /** What the verify pass hands to `accept_sampling_exact`: logits gathered at the candidates and the
      logsumexp of the full row, for a target whose law is the softmax of its logits. */
  lemma ExactInputIsCall(c: Cycle, log: real -> real, logits: seq<int> -> seq<real>, target: seq<int> -> seq<real>,
                         ds: seq<Draw>, tail: seq<real>, bonus: real, candLogit: seq<seq<real>>, lse: seq<real>)
    requires |ds| == c.k && |tail| == c.t.P - c.k && c.rule == Exact(target) && c.V > 0
    requires forall x :: |logits(x)| == c.V && target(x) == Softmax(c.t.exp, log, logits(x))
    requires var path := CodePath(c, ds, tail); var k := Verified(c, path, 0);
             && |candLogit| == |lse| == k && (forall j :: 0 <= j < k ==> |candLogit[j]| == c.t.K)
             && forall j :: 0 <= j < k ==>
                  candLogit[j] == CandidateLogits(logits(RowContext(c, path, j)), c.t.ids[j])
                  && lse[j] == Lse(c.t.exp, log, logits(RowContext(c, path, j)), None)
    ensures var call := ExactCall(c, target, ds, tail, bonus);
            ExactInput(c.t, call.path, call.k, candLogit, lse, call.masked, call.full, call.uAcc, call.uRes) == call
  {
    var call := ExactCall(c, target, ds, tail, bonus);
    forall j | 0 <= j < call.k ensures call.pc[j] == CandidateWeights(c.t, candLogit[j], lse[j]) {
      var row := logits(RowContext(c, call.path, j));
      CandidatesAreSoftmax(c.t, log, row, c.t.ids[j]);
    }
  }

  /** What the verify pass hands to `accept_sampling`: the best tokens of every row with their logits,
      for a target whose law is the softmax over those. */
  lemma TopInputIsCall(c: Cycle, log: real -> real, ids: seq<int> -> seq<int>, pv: seq<int> -> seq<real>,
                       logits: seq<int> -> seq<real>, ds: seq<Draw>, tail: seq<real>, bonus: real,
                       verIds: seq<seq<int>>, verLogit: seq<seq<real>>)
    requires |ds| == c.k && |tail| == c.t.P - c.k && c.rule == TopKv(ids, pv)
    requires forall x :: |logits(x)| == |ids(x)| > 0 && pv(x) == Softmax(c.t.exp, log, logits(x))
    requires var path := CodePath(c, ds, tail); var k := Verified(c, path, 0);
             && |verIds| == |verLogit| == k + 1
             && forall j :: 0 <= j <= k ==>
                  verIds[j] == ids(RowContext(c, path, j)) && verLogit[j] == logits(RowContext(c, path, j))
    ensures var call := TopCall(c, ids, pv, ds, tail, bonus);
            && (forall j :: 0 <= j <= call.k ==> |verIds[j]| == |verLogit[j]| > 0)
            && TopInput(c.t, log, call.path, call.k, verIds, verLogit, call.uAcc, call.uRes) == call
  {
    hide Softmax;
    var call := TopCall(c, ids, pv, ds, tail, bonus);
    assert verIds == call.ids;
  }

  /** The top-Kv rule only emits tokens of the verify list, whatever was proposed. */
  lemma TopEmitsListed(x: TopCase, j: nat)
    requires j < x.k && x.uAcc[j] >= 0.0 && NonNegative(x.t.Weights(j, Prev(x.path, j)))
    ensures TopStep(x, j).1 in x.ids[j]
  {
    var q, y := x.t.Weights(j, Prev(x.path, j)), x.t.Token(j, x.path[j]);
    if y !in x.ids[j] {
      LookupAbsent(x.ids[j], x.pv[j], y);
      NotBelowZero(x.uAcc[j], q[x.path[j]]);
    }
  }

  lemma NotBelowZero(u: real, q: real)
    requires u >= 0.0 && q >= 0.0
    ensures Times(u, q) >= 0.0
  {
  }
}

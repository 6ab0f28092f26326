/**
 The router's top-k of cpu/gate.cpp: the best experts by biased score, weighted by their unbiased
 scores. Scores and biases are exact.
 */
module Gate {
  import opened Measure

  const MAX_TOP_K: nat := 16
  const EPSILON: real := 0.00000000000000000001

  /** A weight; dividing by zero leaves no number. */
  datatype Weight = Value(w: real) | NotFinite

  datatype GateResult = GateResult(k: nat, ids: seq<nat>, weights: seq<Weight>, rawScores: seq<real>)
  datatype Outcome = Ok(value: GateResult) | TopKOutOfRange | BiasTooShort

  // ---- the ranking ----

  function Biased(scores: seq<real>, bias: seq<real>, i: nat): real
    requires i < |scores| && (bias == [] || |bias| >= |scores|)
  {
    if bias == [] then scores[i] else scores[i] + bias[i]
  }

  function Keys(scores: seq<real>, bias: seq<real>): (keys: seq<real>)
    requires bias == [] || |bias| >= |scores|
    ensures |keys| == |scores|
  {
    seq(|scores|, i requires 0 <= i < |scores| => Biased(scores, bias, i))
  }

  /** Expert a ranks before expert b: a higher key, or the same key and a lower id. */
  predicate Before(keys: seq<real>, a: nat, b: nat)
    requires a < |keys| && b < |keys|
  {
    if keys[a] != keys[b] then keys[a] > keys[b] else a < b
  }

  /** The first |top| experts of the ranking, best first. */
  ghost predicate IsTop(keys: seq<real>, top: seq<nat>) {
    && (forall i :: 0 <= i < |top| ==> top[i] < |keys|)
    && (forall i, j :: 0 <= i < j < |top| ==> Before(keys, top[i], top[j]))
    && (forall i, x :: 0 <= i < |top| && 0 <= x < |keys| && x !in top ==> Before(keys, top[i], x))
  }

  /** There is one ranking: a shorter top is the start of a longer one. */
  lemma {:induction false} TopUnique(keys: seq<real>, a: seq<nat>, b: seq<nat>, i: nat)
    requires IsTop(keys, a) && IsTop(keys, b) && i <= |a| <= |b|
    ensures a[..i] == b[..i]
  {
    if i > 0 {
      TopUnique(keys, a, b, i - 1);
      var p := i - 1;
      if a[p] != b[p] {
        Ahead(keys, a, b, p);
        Ahead(keys, b, a, p);
      }
      assert a[..i] == a[..p] + [a[p]] && b[..i] == b[..p] + [b[p]];
    }
  }

  /** After a common start, what a has next ranks before what b has next. */
  lemma Ahead(keys: seq<real>, a: seq<nat>, b: seq<nat>, p: nat)
    requires IsTop(keys, a) && IsTop(keys, b) && p < |a| && p < |b| && a[..p] == b[..p] && a[p] != b[p]
    ensures Before(keys, a[p], b[p])
  {
    forall q | 0 <= q < p ensures a[q] != b[p] {
      assert a[q] == a[..p][q] == b[..p][q] == b[q];
      assert Before(keys, b[q], b[p]);
    }
    if b[p] in a {
      var q :| 0 <= q < |a| && a[q] == b[p];
      assert q > p;
    }
  }

  /** Ids of a top are distinct. */
  lemma TopDistinct(keys: seq<real>, top: seq<nat>, i: nat, j: nat)
    requires IsTop(keys, top) && i < j < |top|
    ensures top[i] != top[j]
  {
    assert Before(keys, top[i], top[j]);
  }

  // ---- the ranking, written out ----

  /** Expert a is preferred to expert b: a higher score plus bias, or the same and a lower id. */
  ghost predicate Preferred(scores: seq<real>, bias: seq<real>, a: nat, b: nat)
    requires a < |scores| && b < |scores| && (bias == [] || |bias| >= |scores|)
  {
    if bias == [] then scores[a] > scores[b] || (scores[a] == scores[b] && a < b)
    else scores[a] + bias[a] > scores[b] + bias[b] || (scores[a] + bias[a] == scores[b] + bias[b] && a < b)
  }

  /** These experts, best first, are preferred to all others. */
  ghost predicate Ranks(scores: seq<real>, bias: seq<real>, top: seq<nat>)
    requires bias == [] || |bias| >= |scores|
  {
    && (forall i :: 0 <= i < |top| ==> top[i] < |scores|)
    && (forall i, j :: 0 <= i < j < |top| ==> Preferred(scores, bias, top[i], top[j]))
    && (forall i, x :: 0 <= i < |top| && 0 <= x < |scores| && x !in top ==> Preferred(scores, bias, top[i], x))
  }

  lemma RanksIs(scores: seq<real>, bias: seq<real>, top: seq<nat>)
    requires bias == [] || |bias| >= |scores|
    ensures Ranks(scores, bias, top) <==> IsTop(Keys(scores, bias), top)
  {
    forall a: nat, b: nat | a < |scores| && b < |scores|
      ensures Preferred(scores, bias, a, b) <==> Before(Keys(scores, bias), a, b)
    {
    }
    hide Preferred, Before, Keys;
  }

  /** The elements of a sequence. */
  ghost function Elements(s: seq<nat>): set<nat> { set x | x in s }

  lemma {:induction false} ElementsCount(s: seq<nat>)
    ensures |Elements(s)| <= |s|
    ensures (forall i, j :: 0 <= i < j < |s| ==> s[i] != s[j]) ==> |Elements(s)| == |s|
  {
    if s != [] {
      var n := |s| - 1;
      ElementsCount(s[..n]);
      assert s == s[..n] + [s[n]];
      assert Elements(s) == Elements(s[..n]) + {s[n]};
    }
  }

  /** Of as many experts as the ranking has, some is not preferred to its entry p. */
  lemma SomeNotBefore(keys: seq<real>, a: seq<nat>, b: seq<nat>, p: nat)
    requires IsTop(keys, a) && p < |a| == |b| && forall i :: 0 <= i < |b| ==> b[i] < |keys|
    requires forall i, j :: 0 <= i < j < |b| ==> b[i] != b[j]
    ensures exists i :: 0 <= i < |b| && !Before(keys, b[i], a[p])
  {
    ElementsCount(b);
    ElementsCount(a[..p]);
    if forall i :: 0 <= i < |b| ==> Before(keys, b[i], a[p]) {
      forall x | x in b ensures x in a[..p] {
        if x in a {
          var i :| 0 <= i < |a| && a[i] == x;
          assert i < p;
          assert a[..p][i] == x;
        }
      }
      Within(Elements(b), Elements(a[..p]));
    }
  }

  lemma {:induction false} Within(x: set<nat>, y: set<nat>)
    requires x <= y
    ensures |x| <= |y|
  {
    if x != {} {
      var e :| e in x;
      Within(x - {e}, y - {e});
    }
  }

  /** Raising one expert's bias never takes it out of the reported ones. */
  lemma BiasHelps(scores: seq<real>, bias: seq<real>, x: nat, more: real, a: seq<nat>, b: seq<nat>)
    requires x < |scores| == |bias| && more >= 0.0 && |a| == |b| && x in a
    requires Ranks(scores, bias, a) && Ranks(scores, bias[x := bias[x] + more], b)
    ensures x in b
  {
    var raised := bias[x := bias[x] + more];
    RanksIs(scores, bias, a);
    RanksIs(scores, raised, b);
    if x !in b {
      var keys := Keys(scores, bias);
      var p :| 0 <= p < |a| && a[p] == x;
      forall i | 0 <= i < |b| ensures b[i] < |keys| && Before(keys, b[i], x) {
        assert Preferred(scores, raised, b[i], x);
      }
      forall i, j | 0 <= i < j < |b| ensures b[i] != b[j] { TopDistinct(Keys(scores, raised), b, i, j); }
      SomeNotBefore(keys, a, b, p);
    }
  }

  /** Adding one constant to every bias changes nothing. */
  lemma BiasShift(scores: seq<real>, bias: seq<real>, shifted: seq<real>, c: real, top: seq<nat>)
    requires |scores| == |bias| == |shifted| && forall i :: 0 <= i < |bias| ==> shifted[i] == bias[i] + c
    ensures Ranks(scores, bias, top) <==> Ranks(scores, shifted, top)
  {
    forall a: nat, b: nat | a < |scores| && b < |scores|
      ensures Preferred(scores, bias, a, b) <==> Preferred(scores, shifted, a, b)
    {
    }
    hide Preferred;
  }

  // ---- the weights ----

  /** Unbiased scores of the chosen experts. */
  function Raw(scores: seq<real>, top: seq<nat>): (r: seq<real>)
    requires forall i :: 0 <= i < |top| ==> top[i] < |scores|
    ensures |r| == |top|
  {
    seq(|top|, i requires 0 <= i < |top| => scores[top[i]])
  }

  function Least(a: nat, b: nat): nat { if a < b then a else b }
  function Most(a: nat, b: nat): nat { if a > b then a else b }

  /** How many experts are reported. */
  function Want(k: nat, report: nat): nat { Least(Most(report, k), MAX_TOP_K) }

  /** A score's weight. */
  function Share(score: real, denom: real, scaling: real): Weight {
    if denom == 0.0 then NotFinite else Value(score / denom * scaling)
  }

  lemma ShareAdds(a: real, b: real, denom: real, scaling: real)
    requires denom != 0.0
    ensures (a + b) / denom * scaling == a / denom * scaling + b / denom * scaling
  {
    assert (a + b) / denom == a / denom + b / denom;
  }

  /** The sum of the chosen scores. */
  function Total(scores: seq<real>, top: seq<nat>, k: nat): real
    requires forall i :: 0 <= i < |top| ==> top[i] < |scores|
  {
    Sum(Raw(scores, top)[..Least(k, |top|)])
  }

  /** The divisor is positive for the scores that the router computes. */
  lemma DivisorPositive(scores: seq<real>, top: seq<nat>, k: nat)
    requires NonNegative(scores) && forall i :: 0 <= i < |top| ==> top[i] < |scores|
    ensures Total(scores, top, k) + EPSILON > 0.0
  {
    SumMonotone(Raw(scores, top), Least(k, |top|), Least(k, |top|));
  }

  /** An id cut to 16 bits. */
  function Id16(x: nat): nat { x % 0x1_0000 }

  /** The result for a ranking: ids wrapped to 16 bits, and weights for the first k. */
  ghost predicate IsGate(scores: seq<real>, top: seq<nat>, k: nat, scaling: real, g: GateResult)
    requires forall i :: 0 <= i < |top| ==> top[i] < |scores|
  {
    && g.k == |g.ids| == |g.weights| == |g.rawScores| == |top|
    && g.rawScores == Raw(scores, top)
    && (forall i :: 0 <= i < |top| ==> g.ids[i] == Id16(top[i]))
    && (forall i :: 0 <= i < |top| ==>
          g.weights[i] == if i < k then Share(g.rawScores[i], Total(scores, top, k) + EPSILON, scaling) else Value(0.0))
  }

  function Values(weights: seq<Weight>): (r: seq<real>)
    requires forall i :: 0 <= i < |weights| ==> weights[i].Value?
    ensures |r| == |weights|
  {
    seq(|weights|, i requires 0 <= i < |weights| => weights[i].w)
  }

  lemma {:induction false} SharesTotal(values: seq<real>, raw: seq<real>, denom: real, scaling: real)
    requires |values| == |raw| && denom != 0.0
    requires forall i :: 0 <= i < |raw| ==> Share(raw[i], denom, scaling) == Value(values[i])
    ensures Sum(values) == Sum(raw) / denom * scaling
  {
    if raw != [] {
      var n := |raw| - 1;
      SharesTotal(values[..n], raw[..n], denom, scaling);
      ShareAdds(Sum(raw[..n]), raw[n], denom, scaling);
    }
  }

  /** The weights of the chosen experts are numbers exactly where the divisor is not zero, and then
      add up to the scaling, up to the guard in the divisor. */
  lemma WeightsSum(scores: seq<real>, top: seq<nat>, k: nat, scaling: real, g: GateResult)
    requires (forall i :: 0 <= i < |top| ==> top[i] < |scores|) && IsGate(scores, top, k, scaling, g)
    ensures var m, s := Least(k, |top|), Total(scores, top, k);
            |g.weights| >= m
            && if s + EPSILON == 0.0 then forall i :: 0 <= i < m ==> g.weights[i] == NotFinite
               else (forall i :: 0 <= i < m ==> g.weights[i].Value?)
                    && Sum(Values(g.weights[..m])) == s / (s + EPSILON) * scaling
  {
    var m, denom := Least(k, |top|), Total(scores, top, k) + EPSILON;
    if denom != 0.0 {
      SharesTotal(Values(g.weights[..m]), Raw(scores, top)[..m], denom, scaling);
    }
  }

  /** Reporting more experts changes neither the chosen ones nor their weights. */
  lemma ReportIrrelevant(scores: seq<real>, keys: seq<real>, k: nat, scaling: real,
                         a: seq<nat>, g: GateResult, b: seq<nat>, h: GateResult)
    requires |keys| == |scores| && IsTop(keys, a) && IsTop(keys, b)
    requires IsGate(scores, a, k, scaling, g) && IsGate(scores, b, k, scaling, h)
    requires Least(k, MAX_TOP_K) <= |a| <= |b| <= MAX_TOP_K
    ensures var m := Least(k, MAX_TOP_K);
            g.ids[..m] == h.ids[..m] && g.weights[..m] == h.weights[..m] && g.rawScores[..m] == h.rawScores[..m]
  {
    hide Share;
    var m := Least(k, MAX_TOP_K);
    TopUnique(keys, a, b, m);
    assert forall i :: 0 <= i < m ==> a[i] == a[..m][i] == b[..m][i] == b[i];
    assert Raw(scores, a)[..m] == Raw(scores, b)[..m];
    assert Least(k, |a|) == m == Least(k, |b|);
  }

  // ---- ids of 16 bits ----

  /** Up to 65536 experts the returned ids are the ranking itself, so they are distinct. */
  lemma IdsExact(scores: seq<real>, keys: seq<real>, top: seq<nat>, k: nat, scaling: real, g: GateResult)
    requires |keys| == |scores| <= 0x1_0000 && IsTop(keys, top) && IsGate(scores, top, k, scaling, g)
    ensures g.ids == top
    ensures forall i, j :: 0 <= i < j < |g.ids| ==> g.ids[i] != g.ids[j]
  {
    forall i, j | 0 <= i < j < |top| ensures top[i] != top[j] {
      TopDistinct(keys, top, i, j);
    }
  }

  /** One call of the router, with the ranking behind its result. */
  datatype Call = Call(scores: seq<real>, bias: seq<real>, k: nat, scaling: real, top: seq<nat>, g: GateResult)

  /** The result that `GateTopK` promises for n experts. */
  ghost predicate Answers(n: nat, c: Call) {
    && |c.scores| == n && (c.bias == [] || |c.bias| >= n)
    && IsTop(Keys(c.scores, c.bias), c.top) && IsGate(c.scores, c.top, c.k, c.scaling, c.g)
  }

  /** A result in which two ids are the same. */
  ghost predicate Collides(n: nat, c: Call) {
    Answers(n, c) && exists i, j :: 0 <= i < j < |c.g.ids| && c.g.ids[i] == c.g.ids[j]
  }

  /** Experts 0 and 65536 score highest. */
  function Twins(n: nat): (s: seq<real>)
    ensures |s| == n
  {
    seq(n, i => if i == 0 || i == 0x1_0000 then 2.0 else 1.0)
  }

  lemma TwinsCollide(n: nat) returns (c: Call)
    requires n > 0x1_0000
    ensures Collides(n, c)
  {
    var scores, top := Twins(n), [0, 0x1_0000];
    var keys := Keys(scores, []);
    assert keys == scores;
    assert IsTop(keys, top);
    var denom := Total(scores, top, 2) + EPSILON;
    var raw := Raw(scores, top);
    c := Call(scores, [], 2, 1.0, top,
              GateResult(2, [0, 0], [Share(raw[0], denom, 1.0), Share(raw[1], denom, 1.0)], raw));
    hide Share, Total;
    assert c.g.ids[0] == c.g.ids[1];
  }

  /** Two returned ids can be the same exactly where there are more than 65536 experts. */
  lemma IdsDistinctExactly(n: nat)
    ensures (exists c :: Collides(n, c)) <==> n > 0x1_0000
  {
    if n > 0x1_0000 {
      var c := TwinsCollide(n);
    } else {
      forall c: Call | Answers(n, c) ensures !Collides(n, c) {
        IdsExact(c.scores, Keys(c.scores, c.bias), c.top, c.k, c.scaling, c.g);
      }
    }
  }

  // ---- the code ----

  /** Positions and ids of idx correspond one to one. */
  ghost predicate Permutes(idx: seq<nat>, pos: seq<nat>) {
    && |pos| == |idx|
    && (forall p :: 0 <= p < |idx| ==> idx[p] < |idx| && pos[idx[p]] == p)
    && (forall x :: 0 <= x < |pos| ==> pos[x] < |pos| && idx[pos[x]] == x)
  }

  /** The first m of idx are in order and rank before everything behind them. */
  ghost predicate SortedTo(keys: seq<real>, idx: seq<nat>, m: nat)
    requires m <= |idx| && forall p :: 0 <= p < |idx| ==> idx[p] < |keys|
  {
    forall i, j :: 0 <= i < m && i < j < |idx| ==> Before(keys, idx[i], idx[j])
  }

  lemma SortedIsTop(keys: seq<real>, idx: seq<nat>, pos: seq<nat>, m: nat)
    requires |idx| == |keys| && Permutes(idx, pos) && m <= |idx| && SortedTo(keys, idx, m)
    ensures IsTop(keys, idx[..m])
  {
    assert forall p :: 0 <= p < m ==> idx[p] in idx[..m];
    forall i, x | 0 <= i < m && 0 <= x < |keys| && x !in idx[..m] ensures Before(keys, idx[i], x) {
      assert idx[pos[x]] == x;
    }
  }

  /** Swaps two entries. */
  method Swap(idx: array<nat>, ghost pos: seq<nat>, i: nat, j: nat) returns (ghost pos': seq<nat>)
    requires i < idx.Length && j < idx.Length && Permutes(idx[..], pos)
    modifies idx
    ensures idx[..] == old(idx[..])[i := old(idx[j])][j := old(idx[i])]
    ensures Permutes(idx[..], pos')
  {
    pos' := pos[idx[i] := j][idx[j] := i];
    idx[i], idx[j] := idx[j], idx[i];
  }

  /** Brings the best m experts to the front, in order. */
  method PartialSort(keys: seq<real>, idx: array<nat>, m: nat, ghost start: seq<nat>) returns (ghost pos: seq<nat>)
    requires m <= idx.Length == |keys| && Permutes(idx[..], start)
    modifies idx
    ensures Permutes(idx[..], pos) && SortedTo(keys, idx[..], m)
  {
    pos := start;
    for i := 0 to m
      invariant Permutes(idx[..], pos) && SortedTo(keys, idx[..], i)
    {
      var best := i;
      for j := i + 1 to idx.Length
        invariant i <= best < idx.Length
        invariant Permutes(idx[..], pos) && SortedTo(keys, idx[..], i)
        invariant forall p :: i <= p < j && p != best ==> Before(keys, idx[best], idx[p])
      {
        if Before(keys, idx[j], idx[best]) { best := j; }
      }
      pos := Swap(idx, pos, i, best);
    }
  }

  /** The first pass over the ranked ids: ids, scores and the sum of the first k. */
  method Gather(scores: seq<real>, top: seq<nat>, k: nat) returns (ids: seq<nat>, raw: seq<real>, sum: real)
    requires forall i :: 0 <= i < |top| ==> top[i] < |scores|
    ensures |ids| == |top| && (forall i :: 0 <= i < |top| ==> ids[i] == Id16(top[i]))
    ensures raw == Raw(scores, top) && sum == Total(scores, top, k)
  {
    hide Id16;
    ids, raw, sum := [], [], 0.0;
    for i := 0 to |top|
      invariant |ids| == |raw| == i && raw == Raw(scores, top)[..i]
      invariant forall p :: 0 <= p < i ==> ids[p] == Id16(top[p])
      invariant sum == Sum(Raw(scores, top)[..Least(k, i)])
    {
      ids := ids + [Id16(top[i])];
      raw := raw + [scores[top[i]]];
      SumSnoc(Raw(scores, top), i);
      if i < k { sum := sum + scores[top[i]]; }
    }
  }

  /** The second pass: the weights. */
  method Weigh(raw: seq<real>, k: nat, denom: real, scaling: real) returns (weights: seq<Weight>)
    ensures |weights| == |raw|
    ensures forall i :: 0 <= i < |raw| ==> weights[i] == if i < k then Share(raw[i], denom, scaling) else Value(0.0)
  {
    hide Share;
    weights := [];
    for i := 0 to |raw|
      invariant |weights| == i
      invariant forall p :: 0 <= p < i ==> weights[p] == if p < k then Share(raw[p], denom, scaling) else Value(0.0)
    {
      weights := weights + [if i < k then Share(raw[i], denom, scaling) else Value(0.0)];
    }
  }

  ghost predicate Weighs(w: Weight, score: real, denom: real, scaling: real) {
    w == if denom == 0.0 then NotFinite else Value(score / denom * scaling)
  }

  lemma ShareWeighs(score: real, denom: real, scaling: real)
    ensures Weighs(Share(score, denom, scaling), score, denom, scaling)
  {
  }

  /** What is reported: the best experts in order, their 16-bit ids, their unbiased scores, and for
      the first k of them the score over the sum of the first k scores plus 1e-20, times the scaling. */
  ghost predicate Reported(scores: seq<real>, bias: seq<real>, k: nat, report: nat, scaling: real, top: seq<nat>, g: GateResult)
    requires bias == [] || |bias| >= |scores|
  {
    && Ranks(scores, bias, top)
    && |top| == (if k <= 16 && report <= 16 then (if report > k then report else k) else 16)
    && g.k == |g.ids| == |g.rawScores| == |g.weights| == |top|
    && (forall i :: 0 <= i < |top| ==> g.ids[i] == top[i] % 65536 && g.rawScores[i] == scores[top[i]])
    && var chosen := if k < |top| then k else |top|;
       var denom := Sum(g.rawScores[..chosen]) + 0.00000000000000000001;
       && (forall i :: 0 <= i < chosen ==> Weighs(g.weights[i], scores[top[i]], denom, scaling))
       && (forall i :: chosen <= i < |top| ==> g.weights[i] == Value(0.0))
  }

  lemma IsReported(scores: seq<real>, bias: seq<real>, k: nat, report: nat, scaling: real, top: seq<nat>, g: GateResult)
    requires bias == [] || |bias| >= |scores|
    requires |top| == Want(k, report) && IsTop(Keys(scores, bias), top) && IsGate(scores, top, k, scaling, g)
    ensures Reported(scores, bias, k, report, scaling, top, g)
  {
    RanksIs(scores, bias, top);
    hide Ranks, Keys, IsTop;
    var chosen := Least(k, |top|);
    assert g.rawScores[..chosen] == Raw(scores, top)[..chosen];
    assert Total(scores, top, k) == Sum(g.rawScores[..chosen]);
    hide Sum, Total, Share, Weighs;
    var denom := Sum(g.rawScores[..chosen]) + EPSILON;
    forall i | 0 <= i < chosen ensures Weighs(g.weights[i], scores[top[i]], denom, scaling) {
      ShareWeighs(scores[top[i]], denom, scaling);
    }
  }

  method GateTopK(scores: seq<real>, bias: seq<real>, k: nat, report: nat, scaling: real) returns (r: Outcome)
    requires 1 <= k <= |scores| && (bias == [] || |bias| >= |scores|) ==> Least(report, 16) <= |scores|
    ensures r.TopKOutOfRange? <==> k == 0 || k > |scores|
    ensures r.BiasTooShort? <==> 1 <= k <= |scores| && 0 < |bias| < |scores|
    ensures r.Ok? ==> exists top :: Reported(scores, bias, k, report, scaling, top, r.value)
                                    && IsTop(Keys(scores, bias), top) && IsGate(scores, top, k, scaling, r.value)
    ensures r.Ok? ==> (r.value.k >= k <==> k <= 16)
  {
    var n := |scores|;
    if k == 0 || k > n { return TopKOutOfRange; }
    if bias != [] && |bias| < n { return BiasTooShort; }
    var want, keys := Want(k, report), Keys(scores, bias);
    var idx := new nat[n](i => i);
    ghost var pos := PartialSort(keys, idx, want, idx[..]);
    SortedIsTop(keys, idx[..], pos, want);
    var top := idx[..want];
    hide Keys, Share, Total, Reported;
    var ids, raw, sum := Gather(scores, top, k);
    var weights := Weigh(raw, k, sum + EPSILON, scaling);
    r := Ok(GateResult(want, ids, weights, raw));
    IsReported(scores, bias, k, report, scaling, top, r.value);
  }
}

/**
 `Lattice::build`: scores, tail mass and row normalisation (cpu/dspark_tree.cpp).
 */
module LatticeBuild {
  import opened Wrappers
  import opened Measure
  import opened Dot16
  import opened Lattice

  const MAX_K := 64

  /** Candidates per position, their base logits, and the Markov rows gathered for them: the embed of
      the input token and of the candidates before the last position, and the heads of all
      candidates. `lseAnchor` is empty when rows are to be normalised over the candidates only. */
  datatype Input = Input(K: nat, candIds: seq<seq<int>>, candLogit: seq<seq<real>>, eIn: seq<real>,
                         eCand: seq<seq<seq<real>>>, hCand: seq<seq<seq<real>>>, lseAnchor: seq<real>)

  /** exp of a sum, at one pair of arguments. */
  ghost predicate ExpAdds(exp: real -> real, x: real, y: real) {
    exp(x + y) == Times(exp(x), exp(y))
  }

  /** The laws of an exact exponential and logarithm. */
  ghost predicate ExpLog(exp: real -> real, log: real -> real) {
    && (forall x :: exp(x) > 0.0)
    && (forall x, y :: ExpAdds(exp, x, y))
    && (forall y :: y > 0.0 ==> exp(log(y)) == y)
  }

  function Max(x: seq<real>): real
    requires x != []
  {
    if |x| == 1 then x[0]
    else var m := Max(x[..|x|-1]); if x[|x|-1] > m then x[|x|-1] else m
  }

  function Shifted(exp: real -> real, x: seq<real>, m: real): (r: seq<real>)
    ensures |r| == |x|
  {
    seq(|x|, i requires 0 <= i < |x| => exp(x[i] - m))
  }

  /** Sequential logsumexp with an optional extra term; no extra term stands for minus infinity. */
  function Lse(exp: real -> real, log: real -> real, x: seq<real>, extra: Option<real>): real
    requires x != []
  {
    var m := Max(x);
    var top := if extra.Some? && extra.value > m then extra.value else m;
    var s := Sum(Shifted(exp, x, top));
    top + log(if extra.Some? then s + exp(extra.value - top) else s)
  }

  method LseSeq(exp: real -> real, log: real -> real, x: seq<real>, extra: Option<real>) returns (r: real)
    requires x != []
    ensures r == Lse(exp, log, x, extra)
  {
    var m := Maximum(x);
    if extra.Some? && extra.value > m { m := extra.value; }
    var s := SumShifted(exp, x, m);
    if extra.Some? { s := s + exp(extra.value - m); }
    return m + log(s);
  }

  method Maximum(x: seq<real>) returns (m: real)
    requires x != []
    ensures m == Max(x)
  {
    m := x[0];
    for i := 1 to |x|
      invariant m == Max(x[..i])
    {
      assert x[..i+1][..i] == x[..i];
      if x[i] > m { m := x[i]; }
    }
    assert x[..|x|] == x;
  }

  method SumShifted(exp: real -> real, x: seq<real>, m: real) returns (s: real)
    ensures s == Sum(Shifted(exp, x, m))
  {
    s := 0.0;
    ghost var all := Shifted(exp, x, m);
    for i := 0 to |x|
      invariant s == Sum(all[..i])
    {
      SumSnoc(all, i);
      s := s + exp(x[i] - m);
    }
    assert all[..|x|] == all;
  }

  // ---- what exponentiating a normalised score gives ----

  ghost function Mass(exp: real -> real, x: seq<real>, extra: Option<real>): real {
    Sum(Shifted(exp, x, 0.0)) + if extra.Some? then exp(extra.value) else 0.0
  }

  lemma {:induction false} ShiftedSum(exp: real -> real, log: real -> real, x: seq<real>, m: real)
    requires ExpLog(exp, log)
    ensures Sum(Shifted(exp, x, 0.0)) == Times(exp(m), Sum(Shifted(exp, x, m)))
    ensures Sum(Shifted(exp, x, m)) >= 0.0 && (x != [] ==> Sum(Shifted(exp, x, m)) > 0.0)
  {
    if x != [] {
      hide Times;
      var n := |x| - 1;
      ShiftedSum(exp, log, x[..n], m);
      assert Shifted(exp, x, 0.0)[..n] == Shifted(exp, x[..n], 0.0);
      assert Shifted(exp, x, m)[..n] == Shifted(exp, x[..n], m);
      assert ExpAdds(exp, m, x[n] - m);
      assert m + (x[n] - m) == x[n] - 0.0;
      Distribute(exp(m), Sum(Shifted(exp, x[..n], m)), exp(x[n] - m));
    }
  }

  lemma Distribute(a: real, b: real, c: real)
    ensures Times(a, b + c) == Times(a, b) + Times(a, c)
  {
  }

  lemma LseMass(exp: real -> real, log: real -> real, x: seq<real>, extra: Option<real>)
    requires ExpLog(exp, log) && x != []
    ensures exp(Lse(exp, log, x, extra)) == Mass(exp, x, extra)
  {
    hide Times, Sum, Shifted, Max;
    var m := Max(x);
    var top := if extra.Some? && extra.value > m then extra.value else m;
    var s := Sum(Shifted(exp, x, top));
    ShiftedSum(exp, log, x, top);
    if extra.Some? {
      var e := exp(extra.value - top);
      assert ExpAdds(exp, top, extra.value - top);
      assert top + (extra.value - top) == extra.value;
      Distribute(exp(top), s, e);
      assert ExpAdds(exp, top, log(s + e));
    } else {
      assert ExpAdds(exp, top, log(s));
    }
  }

  /** Subtracting the logsumexp divides by the total mass. */
  lemma LseNormalises(exp: real -> real, log: real -> real, x: seq<real>, extra: Option<real>, y: real)
    requires ExpLog(exp, log) && x != []
    ensures Mass(exp, x, extra) > 0.0
    ensures Times(exp(y - Lse(exp, log, x, extra)), Mass(exp, x, extra)) == exp(y)
  {
    var lse := Lse(exp, log, x, extra);
    LseMass(exp, log, x, extra);
    assert ExpAdds(exp, y - lse, lse);
    assert (y - lse) + lse == y;
  }

  // ---- the tables ----

  predicate Rows<T>(s: seq<seq<T>>, n: nat, m: nat) {
    |s| >= n && forall i :: 0 <= i < n ==> |s[i]| >= m
  }

  predicate Blocks<T>(s: seq<seq<seq<T>>>, n: nat, m: nat, r: nat) {
    |s| >= n && forall i :: 0 <= i < n ==> |s[i]| >= m && forall j :: 0 <= j < m ==> |s[i][j]| >= r
  }

  /** The size checks: P positions, Markov rank R. */
  predicate WellSized(inp: Input, P: nat, R: nat) {
    && 0 < inp.K <= MAX_K
    && Rows(inp.candIds, P, inp.K) && Rows(inp.candLogit, P, inp.K)
    && |inp.eIn| >= R && Blocks(inp.eCand, if P == 0 then 0 else P - 1, inp.K, R) && Blocks(inp.hCand, P, inp.K, R)
    && (inp.lseAnchor != [] ==> |inp.lseAnchor| >= P)
  }

  lemma CandidatesFit(inp: Input, P: nat, R: nat, i: nat)
    requires WellSized(inp, P, R) && i < P
    ensures i < |inp.candIds| && inp.K <= |inp.candIds[i]|
  {
  }

  /** Everything `build` is a function of: the input, the shape and the arithmetic. */
  datatype Plan = Plan(inp: Input, P: nat, R: nat, exp: real -> real, log: real -> real) {

    predicate Ok() { WellSized(inp, P, R) && R % LANES == 0 }

    /** Base logit plus the Markov bias dot(embed of prev, head of c). */
    function Scores(i: nat, p: nat): (s: seq<real>)
      requires Ok() && i < P && p < inp.K
      ensures |s| == inp.K
    {
      var prev := if i == 0 then inp.eIn[..R] else inp.eCand[i-1][p][..R];
      seq(inp.K, c requires 0 <= c < inp.K =>
        inp.candLogit[i][c] + Dot16Of(Add, Times, 0.0, prev, inp.hCand[i][c][..R]))
    }

    /** Log of the mass outside the candidates, measured at the anchor row; None is minus infinity. */
    function Tail(i: nat): Option<real>
      requires Ok() && i < P
    {
      if inp.lseAnchor == [] then None
      else
        var la := inp.lseAnchor[i];
        var rest := 1.0 - Sum(Shifted(exp, Scores(i, 0), la));
        if rest > 0.0 then Some(la + log(rest)) else None
    }

    function LogqRow(i: nat, p: nat): (r: seq<real>)
      requires Ok() && i < P && p < inp.K
      ensures |r| == inp.K
    {
      var s := Scores(i, p);
      var lse := Lse(exp, log, s, Tail(i));
      seq(inp.K, c requires 0 <= c < inp.K => s[c] - lse)
    }

    /** Row p of position i; position 0 has one row, the others stay zero. */
    function TableRow(i: nat, p: nat): (r: seq<real>)
      requires Ok() && i < P && p < inp.K
      ensures |r| == inp.K
    {
      if i == 0 && p > 0 then seq(inp.K, _ => 0.0) else LogqRow(i, p)
    }

    function Table(i: nat): (r: seq<seq<real>>)
      requires Ok() && i < P
      ensures |r| == inp.K && forall p :: 0 <= p < inp.K ==> |r[p]| == inp.K
    {
      seq(inp.K, p requires 0 <= p < inp.K => TableRow(i, p))
    }

    function Built(): (t: Tables)
      requires Ok()
      ensures t.Valid()
    {
      Tables(P, inp.K, seq(P, i requires 0 <= i < P => inp.candIds[i][..inp.K]),
             seq(P, i requires 0 <= i < P => Table(i)), exp)
    }
  }

  /** The lattice object: empty until built, then read only. */
  class LatticeBuilder {
    const P: nat
    const R: nat
    const exp: real -> real
    const log: real -> real
    var K: nat
    var ids: seq<seq<int>>
    var logq: seq<seq<seq<real>>>

    constructor (P: nat, R: nat, exp: real -> real, log: real -> real)
      ensures this.P == P && this.R == R && this.exp == exp && this.log == log && K == 0
    {
      this.P, this.R, this.exp, this.log := P, R, exp, log;
      K, ids, logq := 0, [], [];
    }

    function View(): Tables
      reads this
    {
      Tables(P, K, ids, logq, exp)
    }

    method Build(inp: Input) returns (ok: bool)
      requires R % LANES == 0
      modifies this
      ensures ok <==> WellSized(inp, P, R)
      ensures inp.K == 0 || inp.K > 64 || 0 < |inp.lseAnchor| < P ==> !ok
      ensures ok ==> View() == Plan(inp, P, R, exp, log).Built()
      ensures !ok ==> K == old(K) && ids == old(ids) && logq == old(logq)
    {
      if !WellSized(inp, P, R) { return false; }
      hide WellSized;
      var newIds, newLogq := BuildTables(inp, Plan(inp, P, R, exp, log));
      K, ids, logq := inp.K, newIds, newLogq;
      return true;
    }

    method BuildTables(inp: Input, ghost plan: Plan) returns (newIds: seq<seq<int>>, newLogq: seq<seq<seq<real>>>)
      requires plan == Plan(inp, P, R, exp, log) && plan.Ok()
      ensures newIds == plan.Built().ids && newLogq == plan.Built().logq
    {
      hide Dot16Of, Lse, WellSized;
      newIds, newLogq := [], [];
      for i := 0 to P
        invariant |newIds| == |newLogq| == i
        invariant forall j :: 0 <= j < i ==> newIds[j] == plan.Built().ids[j] && newLogq[j] == plan.Table(j)
      {
        CandidatesFit(inp, P, R, i);
        var table := BuildPosition(inp, i, plan);
        newIds := newIds + [inp.candIds[i][..inp.K]];
        newLogq := newLogq + [table];
      }
    }

    method BuildPosition(inp: Input, i: nat, ghost plan: Plan) returns (table: seq<seq<real>>)
      requires plan == Plan(inp, P, R, exp, log) && plan.Ok() && i < P
      ensures table == plan.Table(i)
    {
      hide Dot16Of, Lse;
      var nPrev := if i == 0 then 1 else inp.K;
      var scores: seq<seq<real>> := [];
      for p := 0 to nPrev
        invariant |scores| == p && forall q :: 0 <= q < p ==> scores[q] == plan.Scores(i, q)
      {
        var row := ScoreRow(inp, i, p, plan);
        scores := scores + [row];
      }
      var tail := TailMass(inp, i, scores[0], plan);
      table := [];
      for p := 0 to inp.K
        invariant |table| == p && forall q :: 0 <= q < p ==> table[q] == plan.TableRow(i, q)
      {
        if p < nPrev {
          var lse := LseSeq(exp, log, scores[p], tail);
          var row := Minus(scores[p], lse);
          table := table + [row];
        } else {
          table := table + [seq(inp.K, _ => 0.0)];
        }
      }
    }

    /** The mass outside the candidates, exact for the anchor (row 0). */
    method TailMass(inp: Input, i: nat, anchor: seq<real>, ghost plan: Plan) returns (tail: Option<real>)
      requires plan == Plan(inp, P, R, exp, log) && plan.Ok() && i < P && anchor == plan.Scores(i, 0)
      ensures tail == plan.Tail(i)
    {
      hide Dot16Of;
      tail := None;
      if inp.lseAnchor != [] {
        var la := inp.lseAnchor[i];
        var s := SumShifted(exp, anchor, la);
        var rest := 1.0 - s;
        if rest > 0.0 { tail := Some(la + log(rest)); }
      }
    }

    method ScoreRow(inp: Input, i: nat, p: nat, ghost plan: Plan) returns (row: seq<real>)
      requires plan == Plan(inp, P, R, exp, log) && plan.Ok() && i < P && p < inp.K
      ensures row == plan.Scores(i, p)
    {
      var prev := if i == 0 then inp.eIn[..R] else inp.eCand[i-1][p][..R];
      row := [];
      for c := 0 to inp.K
        invariant row == plan.Scores(i, p)[..c]
      {
        var bias := Dot16.Dot(Add, Times, 0.0, prev, inp.hCand[i][c][..R]);
        row := row + [inp.candLogit[i][c] + bias];
      }
    }
  }

  method Minus(s: seq<real>, lse: real) returns (r: seq<real>)
    ensures r == seq(|s|, c requires 0 <= c < |s| => s[c] - lse)
  {
    r := [];
    for c := 0 to |s|
      invariant |r| == c && forall d :: 0 <= d < c ==> r[d] == s[d] - lse
    {
      r := r + [s[c] - lse];
    }
  }

  // ---- what the tables hold ----

  lemma ScoreIs(plan: Plan, i: nat, p: nat, c: nat)
    requires plan.Ok() && i < plan.P && p < plan.inp.K && c < plan.inp.K
    ensures var inp, R := plan.inp, plan.R;
            var prev := if i == 0 then inp.eIn[..R] else inp.eCand[i - 1][p][..R];
            plan.Scores(i, p)[c] == inp.candLogit[i][c] + Measure.Dot(prev, inp.hCand[i][c][..R])
  {
    var inp, R := plan.inp, plan.R;
    var prev := if i == 0 then inp.eIn[..R] else inp.eCand[i - 1][p][..R];
    Dot16Exact(prev, inp.hCand[i][c][..R]);
    hide Dot16Of;
  }

  /** The built tables: candidates keep their tokens, and within the row of a previous candidate the
      log-weights differ by the base logits plus the dot product of that candidate's embed (the input
      token's at the first position) with the candidates' heads. */
  lemma BuiltTables(plan: Plan, i: nat, p: nat, c: nat, d: nat)
    requires plan.Ok() && i < plan.P && p < plan.inp.K && c < plan.inp.K && d < plan.inp.K
    ensures var inp, R := plan.inp, plan.R;
            var prev := if i == 0 then inp.eIn[..R] else inp.eCand[i - 1][p][..R];
            && plan.Built().Token(i, c) == inp.candIds[i][c]
            && plan.Built().Logq(i, p, c) - plan.Built().Logq(i, p, d)
               == (inp.candLogit[i][c] + Measure.Dot(prev, inp.hCand[i][c][..R]))
                  - (inp.candLogit[i][d] + Measure.Dot(prev, inp.hCand[i][d][..R]))
  {
    var q := if i == 0 then 0 else p;
    ScoreIs(plan, i, q, c);
    ScoreIs(plan, i, q, d);
    hide Dot16Of, Lse, Measure.Dot;
    assert plan.Built().Row(i, p) == plan.LogqRow(i, q);
  }

  /** The anchor row's mass on its candidates: exp(score - lse) summed. */
  ghost function AnchorMass(plan: Plan, i: nat): real
    requires plan.Ok() && i < plan.P && plan.inp.lseAnchor != []
  {
    var inp, R := plan.inp, plan.R;
    var prev := if i == 0 then inp.eIn[..R] else inp.eCand[i - 1][0][..R];
    Sum(seq(inp.K, c requires 0 <= c < inp.K =>
      plan.exp(inp.candLogit[i][c] + Measure.Dot(prev, inp.hCand[i][c][..R]) - inp.lseAnchor[i])))
  }

  /** Mass is left outside the candidates. */
  ghost predicate LeavesMass(plan: Plan, i: nat)
    requires plan.Ok() && i < plan.P
  {
    plan.inp.lseAnchor != [] && AnchorMass(plan, i) < 1.0
  }

  /** The tail term is there exactly when the anchor row's candidates do not take all the mass. */
  lemma TailExactly(plan: Plan, i: nat)
    requires plan.Ok() && i < plan.P
    ensures plan.Tail(i).Some? <==> LeavesMass(plan, i)
    ensures LeavesMass(plan, i) ==>
      plan.Tail(i).value == plan.inp.lseAnchor[i] + plan.log(1.0 - AnchorMass(plan, i))
  {
    hide AnchorMass, Dot16Of, Shifted, Sum;
    if plan.inp.lseAnchor != [] { AnchorMassIs(plan, i); }
  }

  lemma AnchorMassIs(plan: Plan, i: nat)
    requires plan.Ok() && i < plan.P && plan.inp.lseAnchor != []
    ensures AnchorMass(plan, i) == Sum(Shifted(plan.exp, plan.Scores(i, 0), plan.inp.lseAnchor[i]))
  {
    hide Dot16Of, Measure.Dot, Sum;
    var inp, R, la := plan.inp, plan.R, plan.inp.lseAnchor[i];
    var prev := if i == 0 then inp.eIn[..R] else inp.eCand[i - 1][0][..R];
    var mass := seq(inp.K, c requires 0 <= c < inp.K =>
      plan.exp(inp.candLogit[i][c] + Measure.Dot(prev, inp.hCand[i][c][..R]) - la));
    forall c | 0 <= c < inp.K ensures mass[c] == Shifted(plan.exp, plan.Scores(i, 0), la)[c] {
      ScoreIs(plan, i, 0, c);
    }
    assert mass == Shifted(plan.exp, plan.Scores(i, 0), la);
  }

  // ---- what the rows are worth ----

  lemma {:induction false} SumRatio(w: seq<real>, e: seq<real>, m: real)
    requires |w| == |e| && forall i :: 0 <= i < |w| ==> Times(w[i], m) == e[i]
    ensures Times(Sum(w), m) == Sum(e)
  {
    if w != [] {
      var n := |w| - 1;
      SumRatio(w[..n], e[..n], m);
      TimesAdds(Sum(w[..n]), w[n], m);
    }
  }

  lemma RowShare(plan: Plan, i: nat, p: nat)
    requires plan.Ok() && ExpLog(plan.exp, plan.log) && i < plan.P && p < plan.inp.K
    ensures var w, s := plan.Built().Weights(i, p), plan.Scores(i, if i == 0 then 0 else p);
            && Times(Sum(w), Mass(plan.exp, s, plan.Tail(i))) == Sum(Shifted(plan.exp, s, 0.0))
            && Sum(Shifted(plan.exp, s, 0.0)) > 0.0
            && forall c :: 0 <= c < plan.inp.K ==> w[c] > 0.0
  {
    hide Times, Lse, Dot16Of;
    var q := if i == 0 then 0 else p;
    var w, s, tail := plan.Built().Weights(i, p), plan.Scores(i, q), plan.Tail(i);
    var e, mass := Shifted(plan.exp, s, 0.0), Mass(plan.exp, s, tail);
    assert plan.Built().Row(i, p) == plan.LogqRow(i, q);
    forall c | 0 <= c < plan.inp.K ensures Times(w[c], mass) == e[c] {
      LseNormalises(plan.exp, plan.log, s, tail, s[c]);
    }
    SumRatio(w, e, mass);
    ShiftedSum(plan.exp, plan.log, s, 0.0);
  }

  /** The rows of a built lattice have a positive total of at most one, which is one exactly where no
      mass is left outside the candidates. */
  lemma RowTotal(plan: Plan, i: nat, p: nat)
    requires plan.Ok() && ExpLog(plan.exp, plan.log) && i < plan.P && p < plan.inp.K
    ensures var w := plan.Built().Weights(i, p);
            NonNegative(w) && 0.0 < Sum(w) <= 1.0 && (Sum(w) == 1.0 <==> !LeavesMass(plan, i))
  {
    hide Times, Sum, Shifted, Dot16Of, Lse, LeavesMass, WellSized;
    TailExactly(plan, i);
    RowShare(plan, i, p);
    var w, s, tail := plan.Built().Weights(i, p), plan.Scores(i, if i == 0 then 0 else p), plan.Tail(i);
    var inside := Sum(Shifted(plan.exp, s, 0.0));
    PartOf(Sum(w), inside, if tail.Some? then plan.exp(tail.value) else 0.0);
  }

  lemma PartOf(x: real, inside: real, outside: real)
    requires inside > 0.0 && outside >= 0.0 && Times(x, inside + outside) == inside
    ensures 0.0 < x <= 1.0 && (x == 1.0 <==> outside == 0.0)
  {
    var m := inside + outside;
    assert (1.0 - x) * m == outside;
    SignOf(x, m);
    SignOf(1.0 - x, m);
  }

  lemma SignOf(d: real, m: real)
    requires m > 0.0
    ensures d * m > 0.0 <==> d > 0.0
    ensures d * m == 0.0 <==> d == 0.0
  {
    if d > 0.0 { assert d * m > 0.0; } else if d < 0.0 { assert d * m < 0.0; }
  }

  /** Without an anchor, every row of a built lattice is a probability distribution over the
      candidates: the hypothesis under which speculative sampling is lossless. */
  lemma RowNormalised(plan: Plan, i: nat, p: nat)
    requires plan.Ok() && ExpLog(plan.exp, plan.log) && plan.inp.lseAnchor == [] && i < plan.P && p < plan.inp.K
    ensures var w := plan.Built().Weights(i, p); NonNegative(w) && Sum(w) == 1.0
  {
    RowTotal(plan, i, p);
  }

  lemma OneTimes(x: real, m: real)
    requires m > 0.0 && Times(x, m) == m
    ensures x == 1.0
  {
    assert (x - 1.0) * m == 0.0;
  }

  lemma AnchorKept(plan: Plan, i: nat, c: nat)
    requires plan.Ok() && ExpLog(plan.exp, plan.log) && plan.inp.lseAnchor != [] && i < plan.P && c < plan.inp.K
    requires plan.Tail(i).Some?
    ensures plan.Built().Weights(i, 0)[c] == plan.exp(plan.Scores(i, 0)[c] - plan.inp.lseAnchor[i])
  {
    hide Times, Lse, Dot16Of;
    var s, la := plan.Scores(i, 0), plan.inp.lseAnchor[i];
    var inside := Sum(Shifted(plan.exp, s, la));
    ShiftedSum(plan.exp, plan.log, s, la);
    assert ExpAdds(plan.exp, la, plan.log(1.0 - inside));
    SplitUnit(plan.exp(la), inside);
    assert Mass(plan.exp, s, plan.Tail(i)) == plan.exp(la);
    LseMass(plan.exp, plan.log, s, plan.Tail(i));
    var lse := Lse(plan.exp, plan.log, s, plan.Tail(i));
    SameFactor(plan.exp, plan.log, s[c], lse, la);
    assert plan.Built().Row(i, 0) == plan.LogqRow(i, 0);
  }

  /** Where nothing is left outside, the anchor row is divided by its own mass. */
  lemma AnchorRescaled(plan: Plan, i: nat, c: nat)
    requires plan.Ok() && ExpLog(plan.exp, plan.log) && plan.inp.lseAnchor != [] && i < plan.P && c < plan.inp.K
    requires plan.Tail(i).None?
    ensures Times(plan.Built().Weights(i, 0)[c], Sum(Shifted(plan.exp, plan.Scores(i, 0), plan.inp.lseAnchor[i])))
         == plan.exp(plan.Scores(i, 0)[c] - plan.inp.lseAnchor[i])
  {
    hide Times, Lse, Dot16Of, Sum, Shifted;
    var s, la := plan.Scores(i, 0), plan.inp.lseAnchor[i];
    hide WellSized;
    var inside := Sum(Shifted(plan.exp, s, la));
    ShiftedSum(plan.exp, plan.log, s, la);
    assert plan.Built().Row(i, 0) == plan.LogqRow(i, 0);
    var w := plan.Built().Weights(i, 0)[c];
    LseNormalises(plan.exp, plan.log, s, None, s[c]);
    assert Mass(plan.exp, s, None) == Times(plan.exp(la), inside);
    assert ExpAdds(plan.exp, la, s[c] - la);
    assert la + (s[c] - la) == s[c];
    CancelFactor(w, plan.exp(la), inside, plan.exp(s[c] - la));
  }

  lemma CancelFactor(w: real, f: real, inside: real, e: real)
    requires f > 0.0 && Times(w, Times(f, inside)) == Times(f, e)
    ensures Times(w, inside) == e
  {
    assert f * (w * inside - e) == 0.0;
  }

  /** The anchor row carries the exact full-vocabulary probabilities exp(score - lse) exactly where
      its candidates' mass is at most one. */
  lemma AnchorExact(plan: Plan, i: nat, c: nat)
    requires plan.Ok() && ExpLog(plan.exp, plan.log) && plan.inp.lseAnchor != [] && i < plan.P && c < plan.inp.K
    ensures var inp, R := plan.inp, plan.R;
            var prev := if i == 0 then inp.eIn[..R] else inp.eCand[i - 1][0][..R];
            plan.Built().Weights(i, 0)[c]
            == plan.exp(inp.candLogit[i][c] + Measure.Dot(prev, inp.hCand[i][c][..R]) - inp.lseAnchor[i])
            <==> AnchorMass(plan, i) <= 1.0
  {
    TailExactly(plan, i);
    ScoreIs(plan, i, 0, c);
    AnchorMassIs(plan, i);
    hide Times, Lse, Dot16Of, Shifted, Sum, AnchorMass, Measure.Dot;
    var w, e := plan.Built().Weights(i, 0)[c], plan.exp(plan.Scores(i, 0)[c] - plan.inp.lseAnchor[i]);
    if plan.Tail(i).Some? {
      AnchorKept(plan, i, c);
    } else {
      AnchorRescaled(plan, i, c);
      OnlyByOne(w, AnchorMass(plan, i), e);
    }
  }

  lemma OnlyByOne(w: real, m: real, e: real)
    requires m >= 1.0 && e > 0.0 && Times(w, m) == e
    ensures w == e <==> m <= 1.0
  {
    if m > 1.0 { assert e * (m - 1.0) > 0.0; }
  }

  lemma SplitUnit(x: real, s: real)
    ensures Times(x, s) + Times(x, 1.0 - s) == x
  {
  }

  lemma SameFactor(exp: real -> real, log: real -> real, y: real, a: real, b: real)
    requires ExpLog(exp, log) && exp(a) == exp(b)
    ensures exp(y - a) == exp(y - b)
  {
    assert ExpAdds(exp, y - a, a) && ExpAdds(exp, y - b, b);
    assert (y - a) + a == y == (y - b) + b;
    Cancel(exp(y - a), exp(y - b), exp(a));
  }

  lemma Cancel(x: real, y: real, m: real)
    requires m > 0.0 && Times(x, m) == Times(y, m)
    ensures x == y
  {
    assert (x - y) * m == 0.0;
  }
}

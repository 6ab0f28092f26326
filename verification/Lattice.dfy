/**
 The speculation lattice of cpu/dspark_tree.{h,cpp}: P positions with K candidates each,
 and the conditional log-weights logq(i, prev, c) between consecutive positions.
 The number of positions, the number of candidates and the exponential are parameters.
 */
module Lattice {
  import opened Measure
  import opened Sampler

  type Path = seq<nat>

  /** What a built lattice holds, by position: the candidates' tokens and the rows logq(i, prev, .). */
  datatype Tables = Tables(P: nat, K: nat, ids: seq<seq<int>>, logq: seq<seq<seq<real>>>, exp: real -> real) {

    ghost predicate Valid() {
      && K > 0 && |ids| == P && |logq| == P
      && (forall i :: 0 <= i < P ==> |ids[i]| == K && |logq[i]| == K)
      && (forall i, p :: 0 <= i < P && 0 <= p < K ==> |logq[i][p]| == K)
    }

    /** logq(i, prev, .); prev is ignored at position 0. */
    function Row(i: nat, prev: nat): (r: seq<real>)
      requires Valid() && i < P && prev < K
      ensures |r| == K
    {
      logq[i][if i == 0 then 0 else prev]
    }

    function Logq(i: nat, prev: nat, c: nat): real
      requires Valid() && i < P && prev < K && c < K
    {
      Row(i, prev)[c]
    }

    /** The candidates' weights exp(logq(i, prev, .)). */
    function Weights(i: nat, prev: nat): (w: seq<real>)
      requires Valid() && i < P && prev < K
      ensures |w| == K
    {
      seq(K, c requires 0 <= c < K => exp(Logq(i, prev, c)))
    }

    function Token(i: nat, c: nat): int
      requires Valid() && i < P && c < K
    {
      ids[i][c]
    }

    ghost predicate IsPath(path: Path, n: nat) {
      |path| == n <= P && forall i :: 0 <= i < n ==> path[i] < K
    }
  }

  /** The candidate that position n of a path is conditioned on. */
  function Prev(path: Path, n: nat): nat
    requires n <= |path|
  {
    if n == 0 then 0 else path[n-1]
  }

  // ---- the objectives ----

  /** Summed log-weight of a path. */
  ghost function Score(t: Tables, path: Path): real
    requires t.Valid() && t.IsPath(path, |path|)
  {
    if path == [] then 0.0
    else var n := |path| - 1; Score(t, path[..n]) + t.Logq(n, Prev(path, n), path[n])
  }

  /** Probability that the first n picks of the path are all kept: a product of weights. */
  ghost function Kept(t: Tables, path: Path, n: nat): real
    requires t.Valid() && t.IsPath(path, |path|) && n <= |path|
  {
    if n == 0 then 1.0
    else Times(Kept(t, path, n - 1), t.exp(t.Logq(n - 1, Prev(path, n - 1), path[n-1])))
  }

  /** Expected accepted length: the sum of the cumulative products. */
  ghost function AcceptedLength(t: Tables, path: Path, n: nat): real
    requires t.Valid() && t.IsPath(path, |path|) && n <= |path|
  {
    if n == 0 then 0.0 else AcceptedLength(t, path, n - 1) + Kept(t, path, n)
  }

  /** The backward form of the same quantity: w * (1 + the rest). */
  ghost function Horner(t: Tables, i: nat, prev: nat, path: Path): real
    requires t.Valid() && prev < t.K && i + |path| <= t.P && t.IsPath(path, |path|)
    decreases |path|
  {
    if path == [] then 0.0
    else Times(t.exp(t.Logq(i, prev, path[0])), 1.0 + Horner(t, i + 1, path[0], path[1..]))
  }

  lemma {:induction false} HornerFrom(t: Tables, path: Path, n: nat, i: nat)
    requires t.Valid() && t.IsPath(path, |path|) && i <= n <= |path|
    ensures AcceptedLength(t, path, n)
         == AcceptedLength(t, path, i) + Times(Kept(t, path, i), Horner(t, i, Prev(path, i), path[i..n]))
    decreases n - i
  {
    if i < n {
      HornerFrom(t, path, n, i + 1);
      var s := path[i..n];
      assert s[1..] == path[i+1..n];
      Regroup(Kept(t, path, i), t.exp(t.Logq(i, Prev(path, i), path[i])), Horner(t, i + 1, path[i], s[1..]));
    } else {
      assert path[i..n] == [];
    }
  }

  lemma Regroup(k: real, w: real, h: real)
    ensures Times(k, Times(w, 1.0 + h)) == Times(k, w) + Times(Times(k, w), h)
  {
  }

  /** The backward recursion and the sum of cumulative products are the same number. */
  lemma HornerIdentity(t: Tables, path: Path, n: nat)
    requires t.Valid() && t.IsPath(path, |path|) && n <= |path|
    ensures AcceptedLength(t, path, n) == Horner(t, 0, 0, path[..n])
  {
    HornerFrom(t, path, n, 0);
    assert path[0..n] == path[..n];
  }

  // ---- Viterbi: maximal summed log-weight ----

  /** Reverse lexicographic order: the last difference decides. */
  ghost predicate RevLexLe(a: Path, b: Path)
    requires |a| == |b|
  {
    if a == [] then true
    else
      var n := |a| - 1;
      a[n] < b[n] || (a[n] == b[n] && RevLexLe(a[..n], b[..n]))
  }

  /** The path has the largest score among all paths of its length, and is the
      reverse-lexicographically smallest of those that do. */
  ghost predicate IsViterbi(t: Tables, path: Path)
    requires t.Valid()
  {
    && t.IsPath(path, |path|)
    && forall other :: t.IsPath(other, |path|) ==>
         && Score(t, other) <= Score(t, path)
         && (Score(t, other) == Score(t, path) ==> RevLexLe(path, other))
  }

  /** The same among the paths that end in candidate c, with score v. */
  ghost predicate BestEnding(t: Tables, path: Path, v: real, c: nat)
    requires t.Valid()
  {
    && path != [] && t.IsPath(path, |path|) && path[|path|-1] == c && Score(t, path) == v
    && forall other :: t.IsPath(other, |path|) && other[|path|-1] == c ==>
         && Score(t, other) <= v
         && (Score(t, other) == v ==> RevLexLe(path, other))
  }

  /** Score of reaching candidate c of position i through candidate p of the position before. */
  function Through(t: Tables, i: nat, v: seq<real>, p: nat, c: nat): real
    requires t.Valid() && i < t.P && |v| == t.K && p < t.K && c < t.K
  {
    v[p] + t.Logq(i, p, c)
  }

  /** Among the first n predecessors of c, a is the first best. */
  ghost predicate Leads(t: Tables, i: nat, v: seq<real>, c: nat, a: nat, n: nat)
    requires t.Valid() && i < t.P && |v| == t.K && c < t.K && n <= t.K
  {
    && a < n
    && (forall p :: 0 <= p < n ==> Through(t, i, v, p, c) <= Through(t, i, v, a, c))
    && (forall p :: 0 <= p < a ==> Through(t, i, v, p, c) < Through(t, i, v, a, c))
  }

  lemma ExtendBest(t: Tables, i: nat, v: seq<real>, best: seq<Path>, a: nat, c: nat)
    requires t.Valid() && 0 < i < t.P && c < t.K && a < t.K && |v| == |best| == t.K
    requires forall p :: 0 <= p < t.K ==> |best[p]| == i && BestEnding(t, best[p], v[p], p)
    requires Leads(t, i, v, c, a, t.K)
    ensures BestEnding(t, best[a] + [c], Through(t, i, v, a, c), c)
  {
    var path := best[a] + [c];
    assert path[..i] == best[a];
    forall other | t.IsPath(other, i + 1) && other[i] == c
      ensures Score(t, other) <= Through(t, i, v, a, c)
      ensures Score(t, other) == Through(t, i, v, a, c) ==> RevLexLe(path, other)
    {
      var init := other[..i];
      var p := init[i-1];
      assert t.IsPath(init, i);
      assert BestEnding(t, best[p], v[p], p);
      assert Score(t, other) == Score(t, init) + t.Logq(i, p, c);
      assert Score(t, other) <= Through(t, i, v, p, c);
      if Score(t, other) == Through(t, i, v, a, c) {
        assert a <= p;
        assert best[a][i-1] == a;
      }
    }
  }

  // ---- expected accepted length: maximal Horner value ----

  ghost predicate BestSuffix(t: Tables, i: nat, prev: nat, path: Path, v: real)
    requires t.Valid() && i <= t.P && prev < t.K
  {
    && t.IsPath(path, t.P - i) && Horner(t, i, prev, path) == v
    && forall other :: t.IsPath(other, t.P - i) ==> Horner(t, i, prev, other) <= v
  }

  ghost predicate NonNegativeExp(exp: real -> real) {
    forall x :: exp(x) >= 0.0
  }

  lemma ExtendSuffix(t: Tables, i: nat, prev: nat, g: seq<real>, best: seq<Path>, val: seq<real>, a: nat)
    requires t.Valid() && i < t.P && prev < t.K && a < t.K && |g| == |best| == |val| == t.K
    requires NonNegativeExp(t.exp)
    requires forall p :: 0 <= p < t.K ==> BestSuffix(t, i + 1, p, best[p], g[p])
    requires forall c :: 0 <= c < t.K ==> val[c] == Times(t.exp(t.Logq(i, prev, c)), 1.0 + g[c])
    requires forall c :: 0 <= c < t.K ==> val[c] <= val[a]
    ensures BestSuffix(t, i, prev, [a] + best[a], val[a])
  {
    var path := [a] + best[a];
    assert path[1..] == best[a];
    forall other | t.IsPath(other, t.P - i) ensures Horner(t, i, prev, other) <= val[a] {
      var c, rest := other[0], other[1..];
      assert t.IsPath(rest, t.P - i - 1);
      assert BestSuffix(t, i + 1, c, best[c], g[c]);
      Scaled(t.exp(t.Logq(i, prev, c)), 1.0 + Horner(t, i + 1, c, rest), 1.0 + g[c]);
    }
  }

  lemma Scaled(w: real, a: real, b: real)
    requires w >= 0.0 && a <= b
    ensures Times(w, a) <= Times(w, b)
  {
    assert w * (b - a) >= 0.0;
  }

  // ---- ancestral sampling ----

  /** The path drawn by the variates u, one per position. */
  function SamplePath(t: Tables, u: seq<real>): (path: Path)
    requires t.Valid() && |u| <= t.P
    ensures |path| == |u| && forall i :: 0 <= i < |path| ==> path[i] < t.K
  {
    if u == [] then []
    else
      var n := |u| - 1;
      var init := SamplePath(t, u[..n]);
      init + [Pick(t.Weights(n, Prev(init, n)), u[n])]
  }

  // ---- the operations, as loops over the tables ----

  /** Pick i of the path is the first best candidate after pick i - 1. */
  ghost predicate GreedyAt(t: Tables, path: Path, i: nat)
    requires t.Valid() && t.IsPath(path, |path|) && i < |path|
  {
    IsFirstArgmax(t.Row(i, Prev(path, i)), path[i])
  }

  method PathChain(t: Tables) returns (out: Path)
    requires t.Valid()
    ensures t.IsPath(out, t.P) && forall i :: 0 <= i < t.P ==> GreedyAt(t, out, i)
  {
    out := [];
    var prev := 0;
    for i := 0 to t.P
      invariant t.IsPath(out, i) && prev == Prev(out, i)
      invariant forall j :: 0 <= j < i ==> GreedyAt(t, out, j)
    {
      var c := FirstArgmax(t.Row(i, prev));
      var next := out + [c];
      assert GreedyAt(t, next, i);
      forall j | 0 <= j < i ensures GreedyAt(t, next, j) {
        assert GreedyAt(t, out, j);
      }
      out, prev := next, c;
    }
  }

  /** Following one level of back-pointers extends the trails of the level before. */
  ghost predicate Retraces(K: nat, before: seq<Path>, from: seq<nat>, after: seq<Path>) {
    |before| == |from| == |after| == K
    && forall c :: 0 <= c < K ==> from[c] < K && after[c] == before[from[c]] + [c]
  }

  /** The back-pointers of all levels and the trails they retrace. */
  ghost predicate AllRetrace(K: nat, trails: seq<seq<Path>>, back: seq<seq<nat>>) {
    && |trails| == |back| > 0 && |trails[0]| == K
    && (forall c :: 0 <= c < K ==> trails[0][c] == [c])
    && (forall j :: 0 < j < |back| ==> Retraces(K, trails[j-1], back[j], trails[j]))
  }

  ghost predicate BestEndings(t: Tables, i: nat, v: seq<real>, best: seq<Path>)
    requires t.Valid()
  {
    |v| == |best| == t.K
    && forall c :: 0 <= c < t.K ==> |best[c]| == i && BestEnding(t, best[c], v[c], c)
  }

  lemma FirstEndings(t: Tables, level: seq<Path>)
    requires t.Valid() && t.P > 0 && |level| == t.K
    requires forall c :: 0 <= c < t.K ==> level[c] == [c]
    ensures BestEndings(t, 1, t.Row(0, 0), level)
  {
    forall c | 0 <= c < t.K ensures BestEnding(t, level[c], t.Row(0, 0)[c], c) {
      assert level[c][..0] == [];
      forall other | t.IsPath(other, 1) && other[0] == c ensures other == level[c] {}
    }
  }

  lemma ExtendEndings(t: Tables, i: nat, v: seq<real>, last: seq<Path>, best: seq<real>, from: seq<nat>, level: seq<Path>)
    requires t.Valid() && 0 < i < t.P && BestEndings(t, i, v, last) && |best| == |from| == |level| == t.K
    requires forall c :: 0 <= c < t.K ==> Leads(t, i, v, c, from[c], t.K) && best[c] == Through(t, i, v, from[c], c)
    requires forall c :: 0 <= c < t.K ==> from[c] < t.K && level[c] == last[from[c]] + [c]
    ensures BestEndings(t, i + 1, best, level) && Retraces(t.K, last, from, level)
  {
    forall c | 0 <= c < t.K ensures |level[c]| == i + 1 && BestEnding(t, level[c], best[c], c) {
      assert Leads(t, i, v, c, from[c], t.K);
      ExtendBest(t, i, v, last, from[c], c);
    }
  }

  lemma BestOfEndings(t: Tables, v: seq<real>, best: seq<Path>, c: nat)
    requires t.Valid() && t.P > 0 && BestEndings(t, t.P, v, best) && IsFirstArgmax(v, c)
    ensures IsViterbi(t, best[c])
  {
    forall other | t.IsPath(other, t.P)
      ensures Score(t, other) <= Score(t, best[c])
      ensures Score(t, other) == Score(t, best[c]) ==> RevLexLe(best[c], other)
    {
      var d := other[t.P-1];
      assert BestEnding(t, best[d], v[d], d);
      assert best[c][t.P-1] == c;
    }
  }

  method PathViterbi(t: Tables) returns (out: Path)
    requires t.Valid() && t.P > 0
    ensures t.IsPath(out, t.P) && IsViterbi(t, out)
  {
    var v := t.Row(0, 0);
    var back: seq<seq<nat>> := [[]];
    // trails[i][c] is the path that the back-pointers of level i retrace from c
    ghost var trails: seq<seq<Path>> := [seq(t.K, c requires 0 <= c < t.K => [c])];
    FirstEndings(t, trails[0]);
    for i := 1 to t.P
      invariant |back| == i && AllRetrace(t.K, trails, back)
      invariant BestEndings(t, i, v, trails[i-1])
    {
      var best, from := LevelStep(t, i, v);
      ghost var last := trails[i-1];
      ghost var level := seq(t.K, c requires 0 <= c < t.K => last[from[c]] + [c]);
      ExtendEndings(t, i, v, last, best, from, level);
      trails, back, v := trails + [level], back + [from], best;
    }
    var c := FirstArgmax(v);
    BestOfEndings(t, v, trails[t.P-1], c);
    out := Backtrace(t.K, back, c, trails);
  }

  method Backtrace(K: nat, back: seq<seq<nat>>, last: nat, ghost trails: seq<seq<Path>>) returns (out: Path)
    requires AllRetrace(K, trails, back) && last < K
    ensures |trails[|back|-1]| == K && out == trails[|back|-1][last]
  {
    out := [last];
    var c, i := last, |back| - 1;
    assert |back| > 1 ==> Retraces(K, trails[i-1], back[i], trails[i]);
    while i > 0
      invariant 0 <= i < |back| && c < K && |trails[i]| == K
      invariant out != [] && out[0] == c
      invariant trails[|back|-1][last] == trails[i][c] + out[1..]
    {
      assert Retraces(K, trails[i-1], back[i], trails[i]);
      c := back[i][c];
      out := [c] + out;
      i := i - 1;
    }
  }

  /** One level of the forward recursion: the best predecessor of every candidate. */
  method LevelStep(t: Tables, i: nat, v: seq<real>) returns (best: seq<real>, from: seq<nat>)
    requires t.Valid() && 0 < i < t.P && |v| == t.K
    ensures |best| == |from| == t.K
    ensures forall c :: 0 <= c < t.K ==> Leads(t, i, v, c, from[c], t.K) && best[c] == Through(t, i, v, from[c], c)
  {
    var K := t.K;
    best, from := [], [];
    for c := 0 to K
      invariant |best| == |from| == c
      invariant forall d :: 0 <= d < c ==> from[d] == 0 && best[d] == Through(t, i, v, 0, d)
    {
      best, from := best + [Through(t, i, v, 0, c)], from + [0];
    }
    for p := 1 to K
      invariant |best| == |from| == K
      invariant forall d :: 0 <= d < K ==> Leads(t, i, v, d, from[d], p) && best[d] == Through(t, i, v, from[d], d)
    {
      for c := 0 to K
        invariant |best| == |from| == K
        invariant forall d :: 0 <= d < K ==>
          Leads(t, i, v, d, from[d], if d < c then p + 1 else p) && best[d] == Through(t, i, v, from[d], d)
      {
        var s := Through(t, i, v, p, c);
        if s > best[c] {
          best, from := best[c := s], from[c := p];
        }
      }
    }
  }

  ghost predicate BestSuffixes(t: Tables, i: nat, g: seq<real>, best: seq<Path>)
    requires t.Valid() && i <= t.P
  {
    |g| == |best| && |g| == (if i == 0 then 1 else t.K)
    && forall p :: 0 <= p < |g| ==> BestSuffix(t, i, p, best[p], g[p])
  }

  /** Every choice heads the best suffix after it. */
  ghost predicate Heads(choice: seq<nat>, after: seq<Path>, best: seq<Path>) {
    |choice| == |best| && forall p :: 0 <= p < |best| ==> choice[p] < |after| && best[p] == [choice[p]] + after[choice[p]]
  }

  /** Every row of choices heads the best suffixes from its position on. */
  ghost predicate AllHead(t: Tables, i: nat, choice: seq<seq<nat>>, plans: seq<seq<Path>>) {
    && i <= t.P && |choice| == t.P - i && |plans| == |choice| + 1
    && (forall j :: 0 <= j < |choice| ==> Heads(choice[j], plans[j+1], plans[j]))
    && (forall j :: 0 <= j < |plans| ==> |plans[j]| == (if i + j == 0 then 1 else t.K))
    && (forall p :: 0 <= p < |plans[|choice|]| ==> plans[|choice|][p] == [])
  }

  method PathEal(t: Tables) returns (out: Path)
    requires t.Valid() && t.P > 0 && NonNegativeExp(t.exp)
    ensures t.IsPath(out, t.P)
    ensures forall other :: t.IsPath(other, t.P) ==> AcceptedLength(t, other, t.P) <= AcceptedLength(t, out, t.P)
  {
    var g := seq(t.K, _ => 0.0);
    var choice: seq<seq<nat>> := [];
    // plans[j][p] is the best continuation from position ii + j after candidate p
    ghost var plans: seq<seq<Path>> := [seq(t.K, _ => [])];
    var ii := t.P;
    while ii > 0
      invariant 0 <= ii <= t.P
      invariant AllHead(t, ii, choice, plans) && BestSuffixes(t, ii, g, plans[0])
    {
      ii := ii - 1;
      var gNext, row := BackwardStep(t, ii, g, plans[0]);
      ghost var after := plans[0];
      ghost var level := seq(|row|, p requires 0 <= p < |row| && row[p] < |after| => [row[p]] + after[row[p]]);
      assert Heads(row, after, level);
      g, choice, plans := gNext, [row] + choice, [level] + plans;
    }
    out := FollowChoices(t, choice, plans);
    forall other | t.IsPath(other, t.P) ensures AcceptedLength(t, other, t.P) <= AcceptedLength(t, out, t.P) {
      HornerIdentity(t, other, t.P);
      HornerIdentity(t, out, t.P);
      assert other[..t.P] == other && out[..t.P] == out;
      assert BestSuffix(t, 0, 0, plans[0][0], g[0]);
    }
  }

  /** One level of the backward recursion: the best next candidate after every predecessor. */
  method BackwardStep(t: Tables, i: nat, g: seq<real>, ghost after: seq<Path>) returns (gNext: seq<real>, row: seq<nat>)
    requires t.Valid() && i < t.P && NonNegativeExp(t.exp) && BestSuffixes(t, i + 1, g, after)
    ensures |gNext| == |row| == (if i == 0 then 1 else t.K)
    ensures forall p :: 0 <= p < |row| ==> row[p] < t.K && BestSuffix(t, i, p, [row[p]] + after[row[p]], gNext[p])
  {
    var nPrev := if i == 0 then 1 else t.K;
    gNext, row := [], [];
    for p := 0 to nPrev
      invariant |gNext| == |row| == p
      invariant forall q :: 0 <= q < p ==> row[q] < t.K && BestSuffix(t, i, q, [row[q]] + after[row[q]], gNext[q])
    {
      var val := [];
      for c := 0 to t.K
        invariant |val| == c
        invariant forall d :: 0 <= d < c ==> val[d] == Times(t.exp(t.Logq(i, p, d)), 1.0 + g[d])
      {
        val := val + [Times(t.exp(t.Logq(i, p, c)), 1.0 + g[c])];
      }
      var a := FirstArgmax(val);
      ExtendSuffix(t, i, p, g, after, val, a);
      gNext, row := gNext + [val[a]], row + [a];
    }
  }

  method FollowChoices(t: Tables, choice: seq<seq<nat>>, ghost plans: seq<seq<Path>>) returns (out: Path)
    requires t.K > 0 && t.P > 0 && AllHead(t, 0, choice, plans)
    ensures out == plans[0][0]
  {
    out := [];
    var prev: nat := 0;
    for i := 0 to t.P
      invariant |out| == i && prev < |plans[i]|
      invariant plans[0][0] == out + plans[i][prev]
    {
      assert Heads(choice[i], plans[i+1], plans[i]);
      prev := choice[i][prev];
      out := out + [prev];
    }
  }

  method EalValue(t: Tables, path: Path, k: nat) returns (tot: real)
    requires t.Valid() && t.IsPath(path, |path|) && k <= |path|
    ensures tot == AcceptedLength(t, path, k) == Horner(t, 0, 0, path[..k])
  {
    var run, prev := 1.0, 0;
    tot := 0.0;
    for i := 0 to k
      invariant prev == Prev(path, i)
      invariant run == Kept(t, path, i) && tot == AcceptedLength(t, path, i)
    {
      run := Times(run, t.exp(t.Logq(i, prev, path[i])));
      tot := tot + run;
      prev := path[i];
    }
    HornerIdentity(t, path, k);
  }

  method Sample(t: Tables, u: seq<real>) returns (out: Path)
    requires t.Valid() && |u| == t.P
    ensures out == SamplePath(t, u)
  {
    out := [];
    var prev := 0;
    for i := 0 to t.P
      invariant out == SamplePath(t, u[..i]) && prev == Prev(out, i)
    {
      var w := [];
      for c := 0 to t.K
        invariant w == t.Weights(i, prev)[..c]
      {
        w := w + [t.exp(t.Logq(i, prev, c))];
      }
      assert w == t.Weights(i, prev);
      var c := SampleIndex(w, u[i]);
      assert u[..i+1][..i] == u[..i];
      out := out + [c];
      prev := c;
    }
    assert u[..t.P] == u;
  }
}

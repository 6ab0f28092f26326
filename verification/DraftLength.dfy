/**
 How many drafted positions are verified: `k_from_confidence` (cpu/dspark_tree.cpp) and its use in
 runtime/speculate.cpp. Whether position j is verified depends only on what comes before it.
 */
module DraftLength {
  import opened Measure
  import opened Lattice
  import opened Losslessness
  import opened SpeculativeCode

  function Product(s: seq<real>): real {
    if s == [] then 1.0 else Times(Product(s[..|s| - 1]), s[|s| - 1])
  }

  /** The first prefix from j on whose product falls below theta ends the draft. */
  function Confident(s: seq<real>, theta: real, j: nat): (k: nat)
    requires j <= |s|
    ensures j <= k <= |s|
    decreases |s| - j
  {
    if j == |s| || Product(s[..j + 1]) < theta then j else Confident(s, theta, j + 1)
  }

  function Sigmoids(sigmoid: real -> real, conf: seq<real>): (s: seq<real>)
    ensures |s| == |conf|
  {
    seq(|conf|, j requires 0 <= j < |conf| => sigmoid(conf[j]))
  }

  method KFromConfidence(sigmoid: real -> real, conf: seq<real>, theta: real) returns (k: nat)
    ensures k == Confident(Sigmoids(sigmoid, conf), theta, 0)
  {
    ghost var s := Sigmoids(sigmoid, conf);
    var run := 1.0;
    k := 0;
    for j := 0 to |conf|
      invariant k == j && run == Product(s[..j]) && Confident(s, theta, 0) == Confident(s, theta, j)
    {
      assert s[..j + 1][..j] == s[..j];
      run := Times(run, sigmoid(conf[j]));
      if run < theta { break; }
      k := j + 1;
    }
  }

  /** All prefixes up to the result reach theta, and the next one does not. */
  lemma {:induction false} ConfidentStops(s: seq<real>, theta: real, j: nat)
    requires j <= |s|
    ensures var k := Confident(s, theta, j);
            && (forall i :: j < i <= k ==> Product(s[..i]) >= theta)
            && (k < |s| ==> Product(s[..k + 1]) < theta)
    decreases |s| - j
  {
    if j < |s| && Product(s[..j + 1]) >= theta { ConfidentStops(s, theta, j + 1); }
  }

  ghost predicate Chances(s: seq<real>) { forall i :: 0 <= i < |s| ==> 0.0 <= s[i] <= 1.0 }

  lemma {:induction false} ProductsFall(s: seq<real>, i: nat, j: nat)
    requires Chances(s) && i <= j <= |s|
    ensures 0.0 <= Product(s[..j]) <= Product(s[..i])
    decreases j
  {
    if j > 0 {
      assert s[..j][..j - 1] == s[..j - 1];
      Smaller(Product(s[..j - 1]), s[j - 1]);
      if i < j { ProductsFall(s, i, j - 1); } else { ProductsFall(s, j - 1, j - 1); }
      Smaller(Product(s[..j - 1]), s[j - 1]);
    }
  }

  lemma Smaller(a: real, c: real)
    requires 0.0 <= c <= 1.0
    ensures a >= 0.0 ==> 0.0 <= Times(a, c) <= a
  {
    if a >= 0.0 {
      assert a * c >= 0.0;
      assert a * (1.0 - c) >= 0.0;
    }
  }

  /** The result is the longest prefix whose product stays at least theta: exactly the prefixes up to
      it reach theta. */
  lemma LongestPrefix(s: seq<real>, theta: real, i: nat)
    requires Chances(s) && 1 <= i <= |s|
    ensures Product(s[..i]) >= theta <==> i <= Confident(s, theta, 0)
  {
    var k := Confident(s, theta, 0);
    ConfidentStops(s, theta, 0);
    if k < i { ProductsFall(s, k + 1, i); }
  }

  /** Whether position j is verified depends only on the confidences up to j. */
  lemma {:induction false} PrefixRule(s: seq<real>, t: seq<real>, theta: real, i: nat, j: nat)
    requires i <= j < |s| && j < |t| && s[..j + 1] == t[..j + 1]
    ensures Confident(s, theta, i) > j <==> Confident(t, theta, i) > j
    decreases j - i
  {
    assert s[..i + 1] == s[..j + 1][..i + 1] == t[..j + 1][..i + 1] == t[..i + 1];
    if i < j { PrefixRule(s, t, theta, i + 1, j); }
  }

  // ---- the draft length of a cycle ----

  /** The confidence of each position, given the drafted tokens before it. */
  function Along(chance: seq<int> -> real, tokens: seq<int>, n: nat): (s: seq<real>)
    requires n <= |tokens| + 1
    ensures |s| == n
  {
    seq(n, j requires 0 <= j < n => chance(tokens[..j]))
  }

  /** The rule of a cycle: the first position is always verified, a later one while the product of the
      confidences up to it stays at least theta. */
  ghost predicate GoesOn(chance: seq<int> -> real, theta: real, done: seq<int>) {
    done == [] || Confident(Along(chance, done, |done| + 1), theta, 0) > |done|
  }

  /** What the speculator verifies: `k_from_confidence`, but at least one position. */
  function AtLeastOne(k: nat): nat { if k == 0 then 1 else k }

  lemma AlongPrefix(chance: seq<int> -> real, tokens: seq<int>, j: nat, n: nat)
    requires j < n <= |tokens| + 1
    ensures j <= |tokens| && Along(chance, tokens[..j], j + 1) == Along(chance, tokens, n)[..j + 1]
  {
    assert forall i :: 0 <= i <= j ==> tokens[..j][..i] == tokens[..i];
  }

  lemma GoesOnAlong(chance: seq<int> -> real, theta: real, tokens: seq<int>, j: nat, n: nat)
    requires 1 <= j < n <= |tokens| + 1
    ensures GoesOn(chance, theta, tokens[..j]) <==> Confident(Along(chance, tokens, n), theta, 0) > j
  {
    var s := Along(chance, tokens, n);
    AlongPrefix(chance, tokens, j, n);
    var t := Along(chance, tokens[..j], j + 1);
    assert t[..j + 1] == t;
    PrefixRule(t, s, theta, 0, j);
  }

  lemma TokensOfPrefix(c: Cycle, path: Path, j: nat)
    requires |path| == c.t.P && c.t.IsPath(path, |path|) && j <= c.k
    ensures PathTokens(c.t, path[..j]) == PathTokens(c.t, path[..c.k])[..j]
  {
  }

  lemma {:induction false} VerifiedFrom(c: Cycle, chance: seq<int> -> real, theta: real, path: Path, j: nat)
    requires |path| == c.t.P && c.t.IsPath(path, |path|) && 1 <= j <= c.k
    requires forall done :: c.go(done) <==> GoesOn(chance, theta, done)
    requires var s := Along(chance, PathTokens(c.t, path[..c.k]), c.k);
             Confident(s, theta, 0) >= j || (j == 1 && Confident(s, theta, 0) == 0)
    ensures Verified(c, path, j) == AtLeastOne(Confident(Along(chance, PathTokens(c.t, path[..c.k]), c.k), theta, 0))
    decreases c.k - j
  {
    hide GoesOn, Confident, Along;
    if j < c.k {
      var tokens := PathTokens(c.t, path[..c.k]);
      TokensOfPrefix(c, path, j);
      GoesOnAlong(chance, theta, tokens, j, c.k);
      if c.go(tokens[..j]) { VerifiedFrom(c, chance, theta, path, j + 1); }
    }
  }

  /** With this rule a cycle verifies the positions that `k_from_confidence` asks for, but at least one:
      the length that the speculator uses is decided position by position, so the cycle is lossless. */
  lemma VerifiedByConfidence(c: Cycle, chance: seq<int> -> real, theta: real, path: Path)
    requires |path| == c.t.P && c.t.IsPath(path, |path|) && c.k >= 1
    requires forall done :: c.go(done) <==> GoesOn(chance, theta, done)
    ensures Verified(c, path, 0) == AtLeastOne(Confident(Along(chance, PathTokens(c.t, path[..c.k]), c.k), theta, 0))
  {
    assert PathTokens(c.t, path[..0]) == [];
    assert c.go([]);
    VerifiedFrom(c, chance, theta, path, 1);
  }
}

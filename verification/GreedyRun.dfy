/**
 Greedy speculation: `accept_greedy` (cpu/dspark_tree.cpp) and the generate loop that chains
 cycles (bench/draft_head_capture.cpp).
 */
module GreedyRun {
  import opened Acceptance

  /** Accepts the drafts up to the first that differs from the target's choice, then emits that
      choice: the block is always the target's own. */
  method AcceptGreedy(pathTokens: seq<int>, argmax: seq<int>, k: nat) returns (r: Accept)
    requires |pathTokens| >= k && |argmax| >= k + 1
    ensures r.accepted <= k && r.tokens == argmax[..r.accepted + 1]
    ensures pathTokens[..r.accepted] == argmax[..r.accepted]
    ensures r.accepted < k ==> pathTokens[r.accepted] != argmax[r.accepted]
  {
    var a := 0;
    var tokens: seq<int> := [];
    while a < k && pathTokens[a] == argmax[a]
      invariant 0 <= a <= k
      invariant tokens == pathTokens[..a] == argmax[..a]
    {
      tokens := tokens + [pathTokens[a]];
      a := a + 1;
    }
    tokens := tokens + [argmax[a]];
    r := Accept(a, tokens);
  }

  /** n tokens of plain greedy decoding after the context. */
  function PlainGreedy(next: seq<int> -> int, ctx: seq<int>, n: nat): (out: seq<int>)
    ensures |out| == n
  {
    if n == 0 then []
    else var init := PlainGreedy(next, ctx, n - 1); init + [next(ctx + init)]
  }

  /** Rows of one verify pass: row j is the target's choice after the first j drafts. */
  function VerifyRows(next: seq<int> -> int, ctx: seq<int>, draft: seq<int>): (rows: seq<int>)
    ensures |rows| == |draft| + 1
  {
    seq(|draft| + 1, j requires 0 <= j <= |draft| => next(ctx + draft[..j]))
  }

  /** While the drafts agree with their rows, the rows are the plain decode. */
  lemma {:induction false} RowsArePlain(next: seq<int> -> int, ctx: seq<int>, draft: seq<int>, a: nat)
    requires a <= |draft|
    requires draft[..a] == VerifyRows(next, ctx, draft)[..a]
    ensures VerifyRows(next, ctx, draft)[..a+1] == PlainGreedy(next, ctx, a + 1)
  {
    var rows := VerifyRows(next, ctx, draft);
    if a == 0 {
      assert ctx + draft[..0] == ctx + [];
      assert PlainGreedy(next, ctx, 0) == [];
      assert rows[..1] == [rows[0]];
    } else {
      assert draft[..a-1] == draft[..a][..a-1] && rows[..a-1] == rows[..a][..a-1];
      RowsArePlain(next, ctx, draft, a - 1);
      assert rows[..a+1] == rows[..a] + [rows[a]];
    }
  }

  /** Decoding goes on from where a decode stopped. */
  lemma {:induction false} PlainContinues(next: seq<int> -> int, ctx: seq<int>, m: nat, n: nat)
    ensures PlainGreedy(next, ctx, m) + PlainGreedy(next, ctx + PlainGreedy(next, ctx, m), n)
         == PlainGreedy(next, ctx, m + n)
  {
    var done := PlainGreedy(next, ctx, m);
    if n > 0 {
      PlainContinues(next, ctx, m, n - 1);
      var more := PlainGreedy(next, ctx + done, n - 1);
      assert ctx + done + more == ctx + (done + more);
    }
  }

  /** The length of the longest common prefix. */
  function Agreement(a: seq<int>, b: seq<int>): (n: nat)
    ensures n <= |a| && n <= |b|
  {
    if a != [] && b != [] && a[0] == b[0] then 1 + Agreement(a[1..], b[1..]) else 0
  }

  lemma {:induction false} AgreementAt(a: seq<int>, b: seq<int>, n: nat)
    requires n <= |a| && n <= |b| && a[..n] == b[..n] && (n < |a| && n < |b| ==> a[n] != b[n])
    ensures Agreement(a, b) == n
  {
    if n > 0 {
      assert a[0] == a[..n][0] == b[..n][0] == b[0];
      assert a[1..][..n - 1] == a[..n][1..] && b[1..][..n - 1] == b[..n][1..];
      AgreementAt(a[1..], b[1..], n - 1);
    }
  }

  /** A shorter decode is the start of a longer one. */
  lemma {:induction false} PlainPrefix(next: seq<int> -> int, ctx: seq<int>, m: nat, n: nat)
    requires m <= n
    ensures PlainGreedy(next, ctx, n)[..m] == PlainGreedy(next, ctx, m)
  {
    if m < n { PlainPrefix(next, ctx, m, n - 1); }
  }

  lemma AgreementIs(next: seq<int> -> int, ctx: seq<int>, draft: seq<int>, a: nat)
    requires a <= |draft| && draft[..a] == PlainGreedy(next, ctx, a + 1)[..a]
    requires a < |draft| ==> draft[a] != PlainGreedy(next, ctx, a + 1)[a]
    ensures Agreement(draft, PlainGreedy(next, ctx, |draft|)) == a
  {
    var plain := PlainGreedy(next, ctx, |draft|);
    PlainPrefix(next, ctx, a, a + 1);
    PlainPrefix(next, ctx, a, |draft|);
    if a < |draft| {
      PlainPrefix(next, ctx, a + 1, |draft|);
      assert plain[a] == plain[..a + 1][a];
    }
    AgreementAt(draft, plain, a);
  }

  /** One cycle after the context: whatever was drafted, it emits the next tokens of the plain decode. */
  method Cycle(next: seq<int> -> int, ctx: seq<int>, draft: seq<int>) returns (r: Accept)
    ensures r.accepted <= |draft| && r.tokens == PlainGreedy(next, ctx, r.accepted + 1)
    ensures r.accepted == Agreement(draft, PlainGreedy(next, ctx, |draft|))
  {
    var rows := VerifyRows(next, ctx, draft);
    r := AcceptGreedy(draft, rows, |draft|);
    RowsArePlain(next, ctx, draft, r.accepted);
    assert r.tokens[..r.accepted] == draft[..r.accepted];
    AgreementIs(next, ctx, draft, r.accepted);
  }

  /** The cycles that a run of `limit` tokens takes once n are out: each emits the agreement of its
      draft with the plain decode, and one token more. */
  ghost function CyclesFrom(next: seq<int> -> int, draft: seq<int> -> seq<int>, prompt: seq<int>, n: nat, limit: nat): nat
    decreases limit - n
  {
    if n >= limit then 0
    else
      var ctx := prompt + PlainGreedy(next, prompt, n);
      var k := if |draft(ctx)| <= limit - n - 1 then |draft(ctx)| else limit - n - 1;
      1 + CyclesFrom(next, draft, prompt, n + 1 + Agreement(draft(ctx)[..k], PlainGreedy(next, ctx, k)), limit)
  }

  lemma FirstToken(next: seq<int> -> int, prompt: seq<int>)
    ensures PlainGreedy(next, prompt, 1) == [next(prompt)]
  {
    assert prompt + [] == prompt;
    assert PlainGreedy(next, prompt, 0) == [];
  }

  /** The generate loop: a first token from the prompt, then cycles until `limit` tokens are out.
      The draft may depend on anything; it is cut to leave room for the token every cycle adds. */
  method Generate(next: seq<int> -> int, draft: seq<int> -> seq<int>, prompt: seq<int>, limit: nat)
    returns (out: seq<int>, cycles: nat, accepted: nat)
    requires limit >= 1
    ensures out == PlainGreedy(next, prompt, limit)
    ensures cycles == CyclesFrom(next, draft, prompt, 1, limit)
    ensures cycles + accepted == limit - 1
  {
    FirstToken(next, prompt);
    hide PlainGreedy, Agreement;
    out := [next(prompt)];
    cycles, accepted := 0, 0;
    while |out| < limit
      invariant 1 <= |out| <= limit && out == PlainGreedy(next, prompt, |out|)
      invariant cycles + CyclesFrom(next, draft, prompt, |out|, limit) == CyclesFrom(next, draft, prompt, 1, limit)
      invariant cycles + accepted == |out| - 1
    {
      var proposal := draft(prompt + out);
      var room := limit - |out| - 1;
      var k := if |proposal| <= room then |proposal| else room;
      var step := Cycle(next, prompt + out, proposal[..k]);
      PlainContinues(next, prompt, |out|, step.accepted + 1);
      out := out + step.tokens;
      cycles, accepted := cycles + 1, accepted + step.accepted;
    }
  }
}

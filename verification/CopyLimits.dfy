/**
 Where the guarantees of the copy ring end: the exact condition for each, and runs beyond it.
 */
module CopyLimits {
  import opened CopyRing
  import opened CopyProtocol
  import opened CopySafety
  import opened CopyTheorems
  import opened CopyLiveness
  import Rounding

  // ---- pieces of runs ----

  lemma Go(c: Config, steps: seq<Step>, s: System, step: Step, t: System) returns (more: seq<Step>)
    requires IsConfig(c) && Run(c, steps) == At(s)
    requires Shaped(c, s) && Enabled(c, s, step) && Apply(c, s, step) == t
    ensures Run(c, more) == At(t) && Shaped(c, t)
  {
    hide Apply, Enabled, Inv;
    RunStep(c, steps, s, step);
    more := steps + [step];
    InvShaped(c, t);
  }

  /** A run to this state exists. */
  ghost predicate Reached(c: Config, steps: seq<Step>, s: System) {
    IsConfig(c) && Run(c, steps) == At(s) && Shaped(c, s)
  }

  lemma Beginning(c: Config) returns (steps: seq<Step>, s: System)
    requires IsConfig(c)
    ensures Reached(c, steps, s) && s == Init(c)
  {
    steps, s := [], Init(c);
    InitInv(c);
    InvShaped(c, s);
  }

  function Put(s: System, g: nat, x: Group): System
    requires g < |s.groups|
  {
    s.(groups := s.groups[g := x])
  }

  /** A group whose requests are all in flight. */
  function Sent(m: nat): Group { Group(0, m, 0, m, Reading) }

  /** A group whose requests have all come back. */
  function Back(stage: Stage): Group { Group(0, 0, 0, 0, stage) }

  /** The rest of a group's requests are sent. */
  lemma {:induction false} SendRest(c: Config, steps: seq<Step>, s: System) returns (more: seq<Step>, t: System)
    requires Reached(c, steps, s) && s.pc == Sending && s.groups != []
    ensures Reached(c, more, t)
    ensures var n := |s.groups| - 1;
            var x := s.groups[n];
            t == Put(s, n, x.(unsent := 0, flying := x.flying + x.unsent)).(pc := Spin)
    decreases s.groups[|s.groups| - 1].unsent
  {
    hide Run, Inv;
    var n := |s.groups| - 1;
    var x := s.groups[n];
    t := Put(s, n, x.(unsent := x.unsent - 1, flying := x.flying + 1)).(pc := if x.unsent == 1 then Spin else Sending);
    more := Go(c, steps, s, Send, t);
    if x.unsent > 1 { more, t := SendRest(c, more, t); }
  }

  /** What opening the next group does. */
  ghost function Opened(c: Config, s: System, x: Group): System
    requires c.bufs >= 1 && |s.ring.busy| == c.bufs
  {
    s.(groups := s.groups + [x], open := s.open + 1, ring := AfterTake(s.ring, SlotOf(c, |s.groups|)))
  }

  /** A group is opened, where the gate and the ring let it through. */
  lemma OpenNext(c: Config, steps: seq<Step>, s: System) returns (more: seq<Step>, t: System)
    requires Reached(c, steps, s) && s.pc == Spin && |s.groups| < c.total && |s.ring.busy| == c.bufs
    requires (s.open < c.depth || s.failures > 0) && CanTake(s.ring, SlotOf(c, |s.groups|))
    ensures Reached(c, more, t)
    ensures t == Opened(c, s, Group(c.parts, 0, 0, c.parts, Reading)).(pc := Sending)
  {
    hide Run, Inv, Shaped, SlotOf;
    var a := s.(pc := Taking);
    more := Go(c, steps, s, PassGate, a);
    var b := a.(pc := Opening, ring := AfterTake(a.ring, SlotOf(c, |s.groups|)));
    more := Go(c, more, a, TakeSlot, b);
    t := Opened(c, s, Group(c.parts, 0, 0, c.parts, Reading)).(pc := Sending);
    more := Go(c, more, b, OpenGroup, t);
  }

  lemma OpenAndSend(c: Config, steps: seq<Step>, s: System) returns (more: seq<Step>, t: System)
    requires Reached(c, steps, s) && s.pc == Spin && |s.groups| < c.total && |s.ring.busy| == c.bufs
    requires (s.open < c.depth || s.failures > 0) && CanTake(s.ring, SlotOf(c, |s.groups|))
    ensures Reached(c, more, t) && t == Opened(c, s, Sent(c.parts))
  {
    hide Run, Inv, Shaped, SlotOf, Enabled, Apply;
    more, t := OpenNext(c, steps, s);
    more, t := SendRest(c, more, t);
  }

  /** All requests of a group come back. */
  lemma {:induction false} LandAll(c: Config, steps: seq<Step>, s: System, g: nat, m: nat) returns (more: seq<Step>, t: System)
    requires Reached(c, steps, s) && g < |s.groups| && m > 0 && s.groups[g] == Sent(m)
    ensures Reached(c, more, t) && t == Put(s, g, Back(Timing))
    decreases m
  {
    hide Run, Inv, Shaped;
    t := Put(s, g, if m == 1 then Back(Timing) else Sent(m - 1));
    more := Go(c, steps, s, Land(g, true), t);
    if m > 1 { more, t := LandAll(c, more, t, g, m - 1); }
  }

  /** The last callback notes the latency and closes the group. */
  lemma CloseDown(c: Config, steps: seq<Step>, s: System, g: nat) returns (more: seq<Step>, t: System)
    requires Reached(c, steps, s) && g < |s.groups| && s.groups[g] == Back(Timing)
    ensures Reached(c, more, t) && t == Put(s, g, Back(Closed)).(lat := s.lat + [g], open := s.open - 1)
  {
    hide Run, Inv, Shaped;
    var a := Put(s, g, Back(Recorded)).(lat := s.lat + [g]);
    more := Go(c, steps, s, Record(g), a);
    t := Put(s, g, Back(Closed)).(lat := s.lat + [g], open := s.open - 1);
    more := Go(c, more, a, Close(g), t);
  }

  lemma HandOver(c: Config, steps: seq<Step>, s: System, g: nat) returns (more: seq<Step>, t: System)
    requires Reached(c, steps, s) && g < |s.groups| && s.groups[g] == Back(Closed)
    ensures Reached(c, more, t)
    ensures t == Put(s, g, Back(Queued)).(ring := AfterComplete(s.ring, SlotOf(c, g)), work := s.work + [g])
  {
    hide Run, Inv, Shaped, SlotOf;
    t := Put(s, g, Back(Queued)).(ring := AfterComplete(s.ring, SlotOf(c, g)), work := s.work + [g]);
    more := Go(c, steps, s, Enqueue(g), t);
  }

  /** The copy of the only queued group fails. */
  lemma CopyFails(c: Config, steps: seq<Step>, s: System, g: nat) returns (more: seq<Step>, t: System)
    requires Reached(c, steps, s) && g < |s.groups| && s.groups[g] == Back(Queued) && s.copier == Waiting
    requires s.work == [g] && s.ring.q == [SlotOf(c, g)] && |s.ring.busy| == c.bufs
    ensures Reached(c, more, t) && |t.ring.busy| == c.bufs && t.ring.failed && t.ring.q == [] && t.work == []
    ensures t == Put(s, g, Back(Retired)).(ring := t.ring, work := [])
  {
    hide Run, Inv, Shaped, SlotOf;
    var a := Put(s, g, Back(Copying)).(ring := AfterPop(s.ring), work := [], copier := Copies(SlotOf(c, g), g));
    more := Go(c, steps, s, PopSlot, a);
    t := Put(s, g, Back(Retired)).(ring := AfterRetire(a.ring, SlotOf(c, g), false), work := []);
    more := Go(c, more, a, RetireCopy(false), t);
  }

  /** A group in flight is read, closed, queued, and its copy fails. */
  lemma ReadAndFail(c: Config, steps: seq<Step>, s: System, g: nat) returns (more: seq<Step>, t: System)
    requires Reached(c, steps, s) && g < |s.groups| && s.groups[g] == Sent(c.parts) && c.parts > 0
    requires s.copier == Waiting && s.work == [] && s.ring.q == [] && |s.ring.busy| == c.bufs
    ensures Reached(c, more, t) && t.ring.failed && |t.ring.busy| == c.bufs
    ensures t.groups == s.groups[g := Back(Retired)] && t.pc == s.pc && t.open == s.open - 1 && t.failures == s.failures
  {
    hide Run, Inv, Shaped, SlotOf, Enabled, Apply;
    more, t := LandAll(c, steps, s, g, c.parts);
    more, t := CloseDown(c, more, t, g);
    more, t := HandOver(c, more, t, g);
    more, t := CopyFails(c, more, t, g);
  }

  /** A read of a group in flight fails. */
  lemma ReadFails(c: Config, steps: seq<Step>, s: System, g: nat) returns (more: seq<Step>, t: System)
    requires Reached(c, steps, s) && g < |s.groups| && s.groups[g] == Sent(c.parts) && c.parts > 0
    ensures Reached(c, more, t)
    ensures t == Put(s, g, Group(0, c.parts - 1, 1, c.parts, Reading)).(failures := s.failures + 1)
  {
    hide Run, Inv, Shaped;
    t := Put(s, g, Group(0, c.parts - 1, 1, c.parts, Reading)).(failures := s.failures + 1);
    more := Go(c, steps, s, Fail(g), t);
  }

  // ---- how many groups can be open ----

  lemma {:induction false} CountLate(gs: seq<Group>, from: nat, lo: nat, hi: nat)
    requires from <= |gs| && forall g :: 0 <= g < from ==> !(lo <= Rank(gs[g].stage) < hi)
    ensures Count(gs, lo, hi) <= |gs| - from
  {
    if |gs| == from {
      CountNone(gs, lo, hi);
    } else {
      CountLate(gs[..|gs| - 1], from, lo, hi);
    }
  }

  /** Groups a whole ring apart use the same slot. */
  lemma SameSlot(c: Config, g: nat)
    requires c.bufs >= 1
    ensures SlotOf(c, g) == SlotOf(c, g + c.bufs)
  {
    var q, r := Rounding.Divided(g, c.bufs);
    Rounding.DivModIs(g + c.bufs, c.bufs, q + 1, r);
  }

  /** Without a copy failure the open groups hold distinct slots. */
  lemma OpenFitsSlots(c: Config, s: System)
    requires Inv(c, s) && !s.ring.failed
    ensures s.open <= c.bufs && s.open <= c.total
  {
    hide Groups, Latencies, Queue, SlotOf, Count;
    var n := |s.groups|;
    var from := if n <= c.bufs then 0 else n - c.bufs;
    forall g | 0 <= g < from ensures s.groups[g].stage == Retired {
      SameSlot(c, g);
    }
    hide Slots;
    CountLate(s.groups, from, 0, 3);
    CountLate(s.groups, 0, 0, 3);
  }

  lemma SlotIs(c: Config, n: nat)
    requires c.bufs >= 1 && n < c.bufs
    ensures SlotOf(c, n) == n
  {
  }

  /** n groups are in flight and the slots from n on are free. */
  ghost predicate Fanned(c: Config, s: System, n: nat) {
    && s.pc == Spin && |s.groups| == n == s.open && |s.ring.busy| == c.bufs && !s.ring.failed
    && s.copier == Waiting && s.work == [] && s.ring.q == [] && s.ring.copies == 0
    && (forall x :: n <= x < c.bufs ==> !s.ring.busy[x])
  }

  lemma OpenOne(c: Config, steps: seq<Step>, s: System, n: nat) returns (more: seq<Step>, t: System)
    requires Reached(c, steps, s) && Fanned(c, s, n)
    requires n < c.bufs && n < c.total && (n < c.depth || s.failures > 0)
    ensures Reached(c, more, t) && Fanned(c, t, n + 1)
    ensures t.groups == s.groups + [Sent(c.parts)] && t.failures == s.failures
  {
    hide Reached, Enabled, Apply;
    SlotIs(c, n);
    more, t := OpenAndSend(c, steps, s);
  }

  lemma {:induction false} OpenMany(c: Config, n: nat) returns (steps: seq<Step>, s: System)
    requires IsConfig(c) && n <= c.depth && n <= c.total
    ensures Reached(c, steps, s) && Fanned(c, s, n)
    ensures forall g :: 0 <= g < n ==> s.groups[g] == Sent(c.parts)
  {
    hide Reached;
    if n == 0 {
      steps, s := Beginning(c);
    } else {
      steps, s := OpenMany(c, n - 1);
      steps, s := OpenOne(c, steps, s, n - 1);
    }
  }

  /** A failed read opens the gate: `depth` groups in flight, one of their reads fails, and one more
      group is opened. */
  lemma GateOpens(c: Config) returns (steps: seq<Step>, s: System)
    requires IsConfig(c) && c.depth < c.bufs && c.depth < c.total
    ensures Run(c, steps) == At(s) && !s.ring.failed && s.open == c.depth + 1
  {
    hide Run, Inv, Shaped, Enabled, Apply;
    steps, s := OpenMany(c, c.depth);
    steps, s := ReadFails(c, steps, s, 0);
    steps, s := OpenOne(c, steps, s, c.depth);
  }

  ghost predicate PassesDepth(c: Config, steps: seq<Step>)
    requires IsConfig(c)
  {
    var r := Run(c, steps);
    r.At? && !r.s.ring.failed && r.s.open > c.depth
  }

  /** Without a copy failure more than `depth` groups can be open exactly where there are more slots
      and more groups than that; never more than there are slots. */
  lemma OpenLimit(c: Config)
    requires IsConfig(c)
    ensures (exists steps :: PassesDepth(c, steps)) <==> c.depth < c.bufs && c.depth < c.total
    ensures forall steps, s :: Run(c, steps) == At(s) && !s.ring.failed ==> s.open <= c.bufs && s.open <= c.total
  {
    hide Run, Inv;
    forall steps, s | Run(c, steps) == At(s) && !s.ring.failed ensures s.open <= c.bufs && s.open <= c.total {
      OpenFitsSlots(c, s);
    }
    if c.depth < c.bufs && c.depth < c.total {
      var steps, s := GateOpens(c);
      assert PassesDepth(c, steps);
    }
  }

  // ---- when `take` waits ----

  /** A submitter that wants a slot which an earlier group still holds gets it exactly after a copy
      has failed. */
  lemma TakesHeldSlot(c: Config, steps: seq<Step>, s: System, g: nat)
    requires IsConfig(c) && Run(c, steps) == At(s) && s.pc == Taking
    requires g < |s.groups| && SlotOf(c, g) == SlotOf(c, |s.groups|) && s.groups[g].stage != Retired
    ensures Shaped(c, s) && (Enabled(c, s, TakeSlot) <==> s.ring.failed)
  {
    hide Run, Groups, Latencies, Queue, Counters, Control, SlotOf;
    InvShaped(c, s);
  }

  /** The submitter is about to read into a slot that an earlier group still holds. */
  ghost predicate Overwrites(c: Config, s: System, g: nat)
    requires c.bufs >= 1
  {
    s.pc == Sending && g < |s.groups| - 1 && SlotOf(c, g) == SlotOf(c, |s.groups| - 1) && s.groups[g].stage != Retired
  }

  lemma SlotsApart(c: Config, g: nat, h: nat)
    requires c.bufs >= 1 && g < h && SlotOf(c, g) == SlotOf(c, h)
    ensures h >= g + c.bufs
  {
    var q, r := Rounding.Divided(g, c.bufs);
    var q', r' := Rounding.Divided(h, c.bufs);
    if q' <= q { Rounding.MulLe(q', q, c.bufs); } else { Rounding.MulLe(q + 1, q', c.bufs); }
  }

  /** It takes a failed copy of a third group, and more groups than slots. */
  lemma OverwriteNeeds(c: Config, s: System, g: nat)
    requires Inv(c, s) && Overwrites(c, s, g)
    ensures s.ring.failed && c.total > c.bufs && c.total >= 3
  {
    hide Latencies, Queue, SlotOf, Count;
    var n := |s.groups| - 1;
    SlotsApart(c, g, n);
    assert GroupOk(s.groups[n]);
    assert s.ring.failed;
    hide Groups, Slots;
    var f := CountWitness(s.groups, 6, 7);
    assert f != g && f != n;
  }

  /** With two slots or more: the first group's read fails and stays in flight, the second one's copy
      fails, and the loop comes round to the first slot. */
  lemma {:induction false} ComesRound(c: Config, steps: seq<Step>, s: System) returns (more: seq<Step>, t: System)
    requires Reached(c, steps, s) && s.pc == Spin && 0 < |s.groups| <= c.bufs < c.total && |s.ring.busy| == c.bufs
    requires s.failures > 0 && s.ring.failed && s.groups[0].stage == Reading
    ensures Reached(c, more, t) && Overwrites(c, t, 0)
    decreases c.bufs - |s.groups|
  {
    hide Run, Inv, Shaped, Enabled, Apply;
    if |s.groups| < c.bufs {
      more, t := OpenAndSend(c, steps, s);
      more, t := ComesRound(c, more, t);
    } else {
      SameSlot(c, 0);
      more, t := OpenNext(c, steps, s);
    }
  }

  lemma WideOverwrite(c: Config) returns (steps: seq<Step>, s: System)
    requires IsConfig(c) && c.bufs >= 2 && c.total > c.bufs
    ensures Reached(c, steps, s) && Overwrites(c, s, 0)
  {
    hide Reached, Enabled, Apply;
    steps, s := OpenMany(c, 1);
    steps, s := ReadFails(c, steps, s, 0);
    steps, s := OpenOne(c, steps, s, 1);
    steps, s := ReadAndFail(c, steps, s, 1);
    steps, s := ComesRound(c, steps, s);
  }

  /** With one slot: the first group's copy fails, the second one's read fails and stays in flight,
      and the third one reads into the same slot. */
  lemma NarrowOverwrite(c: Config) returns (steps: seq<Step>, s: System)
    requires IsConfig(c) && c.bufs == 1 && c.total >= 3
    ensures Reached(c, steps, s) && Overwrites(c, s, 1)
  {
    hide Reached, Enabled, Apply;
    steps, s := OpenMany(c, 1);
    steps, s := ReadAndFail(c, steps, s, 0);
    steps, s := OpenAndSend(c, steps, s);
    steps, s := ReadFails(c, steps, s, 1);
    SameSlot(c, 1);
    steps, s := OpenNext(c, steps, s);
  }

  ghost predicate EndsInOverwrite(c: Config, steps: seq<Step>)
    requires IsConfig(c)
  {
    var r := Run(c, steps);
    r.At? && exists g: nat :: Overwrites(c, r.s, g)
  }

  /** A read into a slot that is still held can happen exactly in configurations with more groups
      than slots and at least three groups, and only after a failed copy. */
  lemma OverwriteLimit(c: Config)
    requires IsConfig(c)
    ensures (exists steps :: EndsInOverwrite(c, steps)) <==> c.total > c.bufs && c.total >= 3
    ensures forall steps :: EndsInOverwrite(c, steps) ==> Run(c, steps).s.ring.failed
  {
    hide Run, Inv, Overwrites;
    forall steps | EndsInOverwrite(c, steps) ensures Run(c, steps).s.ring.failed && c.total > c.bufs && c.total >= 3 {
      var g: nat :| Overwrites(c, Run(c, steps).s, g);
      OverwriteNeeds(c, Run(c, steps).s, g);
    }
    if c.total > c.bufs && c.total >= 3 {
      if c.bufs >= 2 {
        var steps, s := WideOverwrite(c);
        assert EndsInOverwrite(c, steps);
      } else {
        var steps, s := NarrowOverwrite(c);
        assert EndsInOverwrite(c, steps);
      }
    }
  }

  // ---- runs cut short ----

  /** Counting short: a group outside the range is missing from the count. */
  lemma {:induction false} CountMissing(gs: seq<Group>, g: nat, lo: nat, hi: nat)
    requires g < |gs| && !(lo <= Rank(gs[g].stage) < hi)
    ensures Count(gs, lo, hi) < |gs|
  {
    var n := |gs| - 1;
    CountLate(gs[..n], 0, lo, hi);
    if g < n { CountMissing(gs[..n], g, lo, hi); }
  }

  /** A copier that has ended has copied every group of the run exactly when no request was refused. */
  lemma CopiesAllExactly(c: Config, steps: seq<Step>, s: System)
    requires IsConfig(c) && Run(c, steps) == At(s) && s.copier == Exited
    ensures s.ring.copies == c.total <==> !s.aborted
    ensures |s.groups| == c.total && AllAt(s, 6) <==> !s.aborted
  {
    hide Run, Latencies, Queue, Slots, SlotOf, Count;
    if s.aborted {
      var n := |s.groups| - 1;
      assert GroupOk(s.groups[n]);
      CountMissing(s.groups, n, 6, 7);
    } else {
      CountAll(s.groups, 6, 7);
    }
  }

  lemma AfterExit(c: Config, s: System, step: Step)
    requires Shaped(c, s) && Enabled(c, s, step) && s.copier == Exited
    ensures var t := Apply(c, s, step);
            t.copier == Exited && t.ring.copies == s.ring.copies && s.ring.q <= t.ring.q
  {
  }

  /** An ended copier never starts again: whatever is queued then stays queued. */
  lemma {:induction false} EndedForGood(c: Config, steps: seq<Step>, s: System, more: seq<Step>, t: System)
    requires IsConfig(c) && Run(c, steps) == At(s) && s.copier == Exited && Run(c, steps + more) == At(t)
    ensures t.copier == Exited && t.ring.copies == s.ring.copies && s.ring.q <= t.ring.q
    decreases |more|
  {
    hide Inv, Shaped, Apply, Enabled;
    if more == [] {
      assert steps + more == steps;
    } else {
      var n := |more| - 1;
      var all := steps + more;
      assert all[..|all| - 1] == steps + more[..n] && all[|all| - 1] == more[n];
      var m := Run(c, steps + more[..n]).s;
      EndedForGood(c, steps, s, more[..n], m);
      InvShaped(c, m);
      AfterExit(c, m, more[n]);
    }
  }

  /** A run cut short: the first group is closed but not yet queued when a request of the second one
      is refused; the copier ends, and then the first slot is queued, never to be copied. */
  lemma LeftBehind(c: Config) returns (steps: seq<Step>, s: System)
    requires IsConfig(c) && c.bufs >= 2 && c.total >= 2
    ensures Run(c, steps) == At(s) && !s.ring.failed
    ensures s.aborted && s.copier == Exited && s.ring.q == [0] && s.ring.copies == 0
  {
    hide Run, Inv, Shaped;
    SlotIs(c, 0);
    SlotIs(c, 1);
    hide SlotOf;
    steps, s := OpenMany(c, 1);
    steps, s := LandAll(c, steps, s, 0, c.parts);
    steps, s := CloseDown(c, steps, s, 0);
    steps, s := OpenNext(c, steps, s);
    var t := s.(pc := Stopping, aborted := true, ring := AfterStop(s.ring));
    steps := Go(c, steps, s, SendFails, t);
    s := t.(copier := Exited);
    steps := Go(c, steps, t, ExitCopier, s);
    steps, s := HandOver(c, steps, s, 0);
  }

  /** The copier has ended and work is still queued. */
  ghost predicate Abandons(c: Config, steps: seq<Step>)
    requires IsConfig(c)
  {
    var r := Run(c, steps);
    r.At? && !r.s.ring.failed && r.s.copier == Exited && r.s.ring.q != []
  }

  lemma AbandonNeeds(c: Config, s: System)
    requires Inv(c, s) && !s.ring.failed && s.copier == Exited && s.ring.q != []
    ensures s.aborted && c.bufs >= 2 && c.total >= 2
  {
    QueueIsWork(c, s);
    var g := QueuedGroup(c, s, s.ring.q[0]);
    hide Latencies, Queue, Counters, Count;
    assert s.aborted;
    var n := |s.groups| - 1;
    assert GroupOk(s.groups[n]) && GroupOk(s.groups[g]);
    assert g < n;
  }

  /** Without a copy failure, completed slots can be left behind exactly in configurations with two
      slots and two groups, and only in runs cut short by a refused request. */
  lemma AbandonLimit(c: Config)
    requires IsConfig(c)
    ensures (exists steps :: Abandons(c, steps)) <==> c.bufs >= 2 && c.total >= 2
    ensures forall steps :: Abandons(c, steps) ==> Run(c, steps).s.aborted
  {
    hide Run, Inv;
    forall steps | Abandons(c, steps) ensures Run(c, steps).s.aborted && c.bufs >= 2 && c.total >= 2 {
      AbandonNeeds(c, Run(c, steps).s);
    }
    if c.bufs >= 2 && c.total >= 2 {
      var steps, s := LeftBehind(c);
      assert Abandons(c, steps);
    }
  }
}

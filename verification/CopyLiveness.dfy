/**
 Runs of the copy ring end and never block half-way.
 */
module CopyLiveness {
  import opened CopyRing
  import opened CopyProtocol
  import opened CopySafety

  // ---- every run is finite ----

  function Weight(x: Group): nat { 3 * x.unsent + 2 * x.flying + x.failing + (6 - Rank(x.stage)) }

  function Weights(gs: seq<Group>): nat {
    if gs == [] then 0 else Weights(gs[..|gs| - 1]) + Weight(gs[|gs| - 1])
  }

  function PcWeight(pc: Pc): nat {
    match pc
    case Sending => 8 case Spin => 7 case Taking => 6 case Opening => 5
    case Draining => 4 case Finished => 3 case Stopping => 2 case Joined => 1
  }

  /** What each group still to come will cost. */
  function PerGroup(c: Config): nat { 3 * c.parts + 11 }

  /** An upper bound on the steps still to come. */
  ghost function Remaining(c: Config, s: System): int {
    (c.total - |s.groups|) * PerGroup(c) + Weights(s.groups) + PcWeight(s.pc) + (if s.copier == Exited then 0 else 1)
  }

  lemma {:induction false} WeightsUpdate(gs: seq<Group>, g: nat, x: Group)
    requires g < |gs|
    ensures Weights(gs[g := x]) == Weights(gs) - Weight(gs[g]) + Weight(x)
  {
    hide Weight;
    var n := |gs| - 1;
    if g == n {
      assert gs[g := x][..n] == gs[..n];
    } else {
      assert gs[g := x][..n] == gs[..n][g := x];
      WeightsUpdate(gs[..n], g, x);
    }
  }

  lemma WeightsSnoc(gs: seq<Group>, x: Group)
    ensures Weights(gs + [x]) == Weights(gs) + Weight(x)
  {
    assert (gs + [x])[..|gs|] == gs;
  }

  lemma MovedCosts(c: Config, s: System, step: Step)
    requires Inv(c, s) && Shaped(c, s) && Enabled(c, s, step) && MovesOne(step)
    ensures var t, g := Apply(c, s, step), Target(c, s, step);
            g < |t.groups| && Weight(t.groups[g]) < Weight(s.groups[g])
  {
    OneMoved(c, s, step);
    hide Groups, Latencies, Queue, Counters, Control, Slots, SlotOf, Rank;
  }

  lemma OpenCosts(c: Config, s: System)
    requires Inv(c, s) && Shaped(c, s) && Enabled(c, s, OpenGroup)
    ensures Remaining(c, Apply(c, s, OpenGroup)) < Remaining(c, s)
  {
    hide Groups, Latencies, Queue, Counters, Control, Slots, SlotOf, Weights;
    var t, n := Apply(c, s, OpenGroup), |s.groups|;
    WeightsSnoc(s.groups, t.groups[n]);
    assert (c.total - n) * PerGroup(c) == (c.total - (n + 1)) * PerGroup(c) + PerGroup(c);
  }

  /** Every step uses up some of what remains. */
  lemma StepCosts(c: Config, s: System, step: Step)
    requires Inv(c, s) && Shaped(c, s) && Enabled(c, s, step)
    ensures Remaining(c, Apply(c, s, step)) < Remaining(c, s)
  {
    hide Groups, Latencies, Queue, Counters, Slots, SlotOf, Weights, Weight, PerGroup;
    var t := Apply(c, s, step);
    if MovesOne(step) {
      OneMoved(c, s, step);
      MovedCosts(c, s, step);
      var g := Target(c, s, step);
      WeightsUpdate(s.groups, g, t.groups[g]);
    } else if step.OpenGroup? {
      OpenCosts(c, s);
    } else if step.Send? {
      SendCosts(c, s);
    }
  }

  lemma SendCosts(c: Config, s: System)
    requires Inv(c, s) && Shaped(c, s) && Enabled(c, s, Send)
    ensures Remaining(c, Apply(c, s, Send)) < Remaining(c, s)
  {
    hide Inv, SlotOf, Weights, PerGroup, Rank;
    var t, n := Apply(c, s, Send), |s.groups| - 1;
    WeightsUpdate(s.groups, n, t.groups[n]);
  }

  lemma RemainingNonNegative(c: Config, s: System)
    requires Inv(c, s)
    ensures Remaining(c, s) >= 0
  {
    hide Groups, Latencies, Queue, Counters, Slots, SlotOf, Weights, PerGroup;
    Product(c.total - |s.groups|, PerGroup(c));
  }

  lemma Product(a: nat, b: nat)
    ensures a * b >= 0
  {
  }

  lemma {:induction false} RunCosts(c: Config, steps: seq<Step>)
    requires IsConfig(c) && Run(c, steps).At?
    ensures |steps| + Remaining(c, Run(c, steps).s) <= Remaining(c, Init(c))
  {
    hide Inv, Remaining, Enabled, Apply;
    if steps != [] {
      var pre := steps[..|steps| - 1];
      RunCosts(c, pre);
      InvShaped(c, Run(c, pre).s);
      StepCosts(c, Run(c, pre).s, steps[|steps| - 1]);
    }
  }

  /** No run is longer than its configuration allows: the loop, the callbacks and the copier all
      come to an end. */
  lemma RunsEnd(c: Config, steps: seq<Step>)
    requires IsConfig(c) && Run(c, steps).At?
    ensures |steps| <= c.total * PerGroup(c) + 8
  {
    RunCosts(c, steps);
    RemainingNonNegative(c, Run(c, steps).s);
  }

  // ---- no run blocks ----

  /** Steps in which nothing goes wrong. */
  predicate Healthy(step: Step) {
    !step.SendFails? && !step.Fail? && (step.RetireCopy? ==> step.ok)
  }

  /** A group that is not being submitted and has not been copied can always move on, itself or
      through the copier. */
  lemma GroupMovesOn(c: Config, s: System, g: nat) returns (step: Step)
    requires Inv(c, s) && Shaped(c, s) && g < |s.groups| && s.groups[g].stage != Retired
    requires s.pc != Sending && !s.ring.quit
    ensures Healthy(step) && Enabled(c, s, step)
  {
    hide Latencies, Counters, Slots, SlotOf;
    match s.groups[g].stage
    case Reading =>
      assert GroupOk(s.groups[g]);
      return Land(g, s.groups[g].flying > 0);
    case Timing => return Record(g);
    case Recorded => return Close(g);
    case Closed => return Enqueue(g);
    case Queued =>
      assert g in s.work;
      return if s.copier.Copies? then RetireCopy(true) else PopSlot;
    case Copying => return RetireCopy(true);
  }

  /** The queue is never abandoned. */
  lemma CopierMovesOn(c: Config, s: System) returns (step: Step)
    requires Inv(c, s) && Shaped(c, s) && s.copier != Exited && (s.ring.quit || s.ring.q != [])
    ensures Healthy(step) && Enabled(c, s, step)
  {
    hide Inv;
    return if s.copier.Copies? then RetireCopy(true) else if s.ring.q != [] then PopSlot else ExitCopier;
  }

  lemma SpinMovesOn(c: Config, s: System) returns (step: Step)
    requires Inv(c, s) && Shaped(c, s) && s.pc == Spin
    ensures Healthy(step) && Enabled(c, s, step)
  {
    hide Groups, Latencies, Queue, Slots, SlotOf, Count;
    if |s.groups| < c.total {
      if s.open < c.depth { return PassGate; }
      var g := CountWitness(s.groups, 0, 3);
      step := GroupMovesOn(c, s, g);
    } else if g :| 0 <= g < |s.groups| && Rank(s.groups[g].stage) < 4 {
      step := GroupMovesOn(c, s, g);
    } else {
      return EngineDrain;
    }
  }

  lemma BusyMovesOn(c: Config, s: System, x: nat) returns (step: Step)
    requires Inv(c, s) && Shaped(c, s) && !s.ring.failed && x < c.bufs && s.ring.busy[x]
    requires (s.pc == Taking || s.pc == Draining)
    ensures Healthy(step) && Enabled(c, s, step)
  {
    hide Groups, Latencies, Queue, Counters, SlotOf, Count;
    assert Held(c, s, x);
    var g :| 0 <= g < |s.groups| && SlotOf(c, g) == x && s.groups[g].stage != Retired;
    step := GroupMovesOn(c, s, g);
  }

  /** Until the submitter has joined the copier, some thread can take a step in which nothing goes
      wrong: no interleaving, with failures or without, blocks. */
  lemma NeverBlocks(c: Config, steps: seq<Step>, s: System) returns (step: Step)
    requires IsConfig(c) && Run(c, steps) == At(s) && s.pc != Joined
    ensures Healthy(step) && Run(c, steps + [step]).At?
  {
    InvShaped(c, s);
    hide Groups, Latencies, Queue, Counters, Slots, SlotOf, Count, Run;
    match s.pc
    case Spin => step := SpinMovesOn(c, s);
    case Taking =>
      if CanTake(s.ring, SlotOf(c, |s.groups|)) { step := TakeSlot; }
      else { step := BusyMovesOn(c, s, SlotOf(c, |s.groups|)); }
    case Opening => step := OpenGroup;
    case Sending => step := Send;
    case Draining => step := DrainMovesOn(c, s);
    case Finished => step := StopRing;
    case Stopping =>
      if s.copier == Exited { step := Join; } else { step := CopierMovesOn(c, s); }
    RunStep(c, steps, s, step);
  }

  lemma DrainMovesOn(c: Config, s: System) returns (step: Step)
    requires Inv(c, s) && Shaped(c, s) && s.pc == Draining
    ensures Healthy(step) && Enabled(c, s, step)
  {
    hide Groups, Latencies, Queue, Counters, Slots, SlotOf, Count;
    if CanDrain(s.ring) {
      return RingDrain;
    } else if s.ring.q != [] {
      step := CopierMovesOn(c, s);
    } else {
      var x :| 0 <= x < |s.ring.busy| && s.ring.busy[x];
      step := BusyMovesOn(c, s, x);
    }
  }

  lemma RunStep(c: Config, steps: seq<Step>, s: System, step: Step)
    requires IsConfig(c) && Run(c, steps) == At(s) && Shaped(c, s) && Enabled(c, s, step)
    ensures Run(c, steps + [step]) == At(Apply(c, s, step))
  {
    assert (steps + [step])[..|steps|] == steps;
    hide Inv, Enabled, Apply, Shaped;
  }
}

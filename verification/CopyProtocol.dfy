/**
 Every interleaving of the threads that share a copy ring in bench/io_dst_bench.cpp: the
 submitting loop of `measure`, the I/O completion callbacks, and the copy thread.
 */
module CopyProtocol {
  import opened CopyRing

  /** Groups to read, requests per group, groups in flight, slots. */
  datatype Config = Config(total: nat, parts: nat, depth: nat, bufs: nat)

  /** A group has at least one request, and there are at least as many slots as groups in flight. */
  ghost predicate IsConfig(c: Config) { c.parts >= 1 && 1 <= c.depth <= c.bufs }

  /** How far a group has come: its last callback notes the latency, closes the group, hands the
      slot to the ring, and the copier takes it from there. */
  datatype Stage = Reading | Timing | Recorded | Closed | Queued | Copying | Retired

  function Rank(s: Stage): nat {
    match s
    case Reading => 0 case Timing => 1 case Recorded => 2 case Closed => 3
    case Queued => 4 case Copying => 5 case Retired => 6
  }

  /** Requests not yet submitted, in flight, and failed but not yet counted off; the shared counter. */
  datatype Group = Group(unsent: nat, flying: nat, failing: nat, left: nat, stage: Stage)

  /** Where the submitting thread is. The group it works on is the next or the last one. */
  datatype Pc = Spin | Taking | Opening | Sending | Draining | Finished | Stopping | Joined

  datatype Copier = Waiting | Copies(slot: nat, job: nat) | Exited

  /** `work` and `job` name the groups behind the slots in the queue and in the copier's hands. */
  datatype System = System(
    ring: Ring, groups: seq<Group>, pc: Pc, aborted: bool, open: int, failures: nat,
    lat: seq<nat>, copier: Copier, work: seq<nat>)

  datatype Step =
    | PassGate | TakeSlot | OpenGroup | Send | SendFails | EngineDrain | RingDrain | StopRing | Join
    | Fail(g: nat) | Land(g: nat, ok: bool) | Record(g: nat) | Close(g: nat) | Enqueue(g: nat)
    | PopSlot | ExitCopier | RetireCopy(ok: bool)

  function Init(c: Config): System {
    System(Ring([], seq(c.bufs, _ => false), 0, false, false), [], Spin, false, 0, 0, [], Waiting, [])
  }

  function SlotOf(c: Config, g: nat): (s: nat)
    requires c.bufs >= 1
    ensures s < c.bufs
  {
    g % c.bufs
  }

  /** The shapes the steps need; part of the invariant. */
  ghost predicate Shaped(c: Config, s: System) {
    && IsConfig(c)
    && |s.ring.busy| == c.bufs
    && (s.pc == Sending ==> s.groups != [] && s.groups[|s.groups| - 1].unsent > 0)
    && |s.work| == |s.ring.q|
    && (s.copier.Copies? ==> s.copier.slot < c.bufs && s.copier.job < |s.groups|)
    && (forall i :: 0 <= i < |s.work| ==> s.work[i] < |s.groups|)
    && (forall g :: 0 <= g < |s.groups| ==> s.groups[g].left >= s.groups[g].flying + s.groups[g].failing)
  }

  ghost predicate Enabled(c: Config, s: System, step: Step)
    requires Shaped(c, s)
  {
    match step
    case PassGate => s.pc == Spin && |s.groups| < c.total && (s.open < c.depth || s.failures > 0)
    case TakeSlot => s.pc == Taking && CanTake(s.ring, SlotOf(c, |s.groups|))
    case OpenGroup => s.pc == Opening
    case Send => s.pc == Sending
    case SendFails => s.pc == Sending
    case EngineDrain => s.pc == Spin && |s.groups| >= c.total
                        && forall g :: 0 <= g < |s.groups| ==> Rank(s.groups[g].stage) >= 4
    case RingDrain => s.pc == Draining && CanDrain(s.ring)
    case StopRing => s.pc == Finished
    case Join => s.pc == Stopping && s.copier == Exited
    case Fail(g) => g < |s.groups| && s.groups[g].flying > 0
    case Land(g, ok) => g < |s.groups| && (if ok then s.groups[g].flying > 0 else s.groups[g].failing > 0)
    case Record(g) => g < |s.groups| && s.groups[g].stage == Timing
    case Close(g) => g < |s.groups| && s.groups[g].stage == Recorded
    case Enqueue(g) => g < |s.groups| && s.groups[g].stage == Closed
    case PopSlot => s.copier == Waiting && s.ring.q != []
    case ExitCopier => s.copier == Waiting && s.ring.q == [] && s.ring.quit
    case RetireCopy(_) => s.copier.Copies?
  }

  function Moved(s: System, g: nat, stage: Stage): System
    requires g < |s.groups|
  {
    s.(groups := s.groups[g := s.groups[g].(stage := stage)])
  }

  ghost function Apply(c: Config, s: System, step: Step): System
    requires Shaped(c, s) && Enabled(c, s, step)
  {
    var n := |s.groups|;
    match step
    case PassGate => s.(pc := Taking)
    case TakeSlot => s.(pc := Opening, ring := AfterTake(s.ring, SlotOf(c, n)))
    case OpenGroup =>
      s.(pc := Sending, groups := s.groups + [Group(c.parts, 0, 0, c.parts, Reading)], open := s.open + 1)
    case Send =>
      var last := s.groups[n - 1];
      s.(pc := if last.unsent == 1 then Spin else Sending,
         groups := s.groups[n - 1 := last.(unsent := last.unsent - 1, flying := last.flying + 1)])
    case SendFails => s.(pc := Stopping, aborted := true, ring := AfterStop(s.ring))
    case EngineDrain => s.(pc := Draining)
    case RingDrain => s.(pc := Finished)
    case StopRing => s.(pc := Stopping, ring := AfterStop(s.ring))
    case Join => s.(pc := Joined)
    case Fail(g) =>
      var x := s.groups[g];
      s.(failures := s.failures + 1,
         groups := s.groups[g := x.(flying := x.flying - 1, failing := x.failing + 1)])
    case Land(g, ok) =>
      var x := s.groups[g];
      var y := if ok then x.(flying := x.flying - 1) else x.(failing := x.failing - 1);
      s.(groups := s.groups[g := y.(left := x.left - 1, stage := if x.left == 1 then Timing else x.stage)])
    case Record(g) => Moved(s, g, Recorded).(lat := s.lat + [g])
    case Close(g) => Moved(s, g, Closed).(open := s.open - 1)
    case Enqueue(g) => Moved(s, g, Queued).(ring := AfterComplete(s.ring, SlotOf(c, g)), work := s.work + [g])
    case PopSlot =>
      Moved(s, s.work[0], Copying).(
        ring := AfterPop(s.ring), work := s.work[1..], copier := Copies(s.ring.q[0], s.work[0]))
    case ExitCopier => s.(copier := Exited)
    case RetireCopy(ok) =>
      Moved(s, s.copier.job, Retired).(ring := AfterRetire(s.ring, s.copier.slot, ok), copier := Waiting)
  }

  // ---- counting groups by stage ----

  /** Groups whose stage has a rank from lo to below hi. */
  function Count(gs: seq<Group>, lo: nat, hi: nat): (n: nat) {
    if gs == [] then 0 else Count(gs[..|gs| - 1], lo, hi) + Has(gs[|gs| - 1], lo, hi)
  }

  function Has(x: Group, lo: nat, hi: nat): nat { if lo <= Rank(x.stage) < hi then 1 else 0 }

  lemma {:induction false} CountUpdate(gs: seq<Group>, g: nat, x: Group, lo: nat, hi: nat)
    requires g < |gs|
    ensures Count(gs[g := x], lo, hi) == Count(gs, lo, hi) - Has(gs[g], lo, hi) + Has(x, lo, hi)
  {
    var n := |gs| - 1;
    if g == n {
      assert gs[g := x][..n] == gs[..n];
    } else {
      assert gs[g := x][..n] == gs[..n][g := x];
      CountUpdate(gs[..n], g, x, lo, hi);
    }
  }

  lemma CountSnoc(gs: seq<Group>, x: Group, lo: nat, hi: nat)
    ensures Count(gs + [x], lo, hi) == Count(gs, lo, hi) + Has(x, lo, hi)
  {
    assert (gs + [x])[..|gs|] == gs;
  }

  lemma {:induction false} CountWitness(gs: seq<Group>, lo: nat, hi: nat) returns (g: nat)
    requires Count(gs, lo, hi) > 0
    ensures g < |gs| && lo <= Rank(gs[g].stage) < hi
  {
    g := |gs| - 1;
    if !(lo <= Rank(gs[g].stage) < hi) { g := CountWitness(gs[..g], lo, hi); }
  }

  lemma {:induction false} CountAll(gs: seq<Group>, lo: nat, hi: nat)
    requires forall g :: 0 <= g < |gs| ==> lo <= Rank(gs[g].stage) < hi
    ensures Count(gs, lo, hi) == |gs|
  {
    if gs != [] { CountAll(gs[..|gs| - 1], lo, hi); }
  }

  lemma {:induction false} CountNone(gs: seq<Group>, lo: nat, hi: nat)
    requires forall g :: 0 <= g < |gs| ==> !(lo <= Rank(gs[g].stage) < hi)
    ensures Count(gs, lo, hi) == 0
  {
    if gs != [] { CountNone(gs[..|gs| - 1], lo, hi); }
  }
}

/**
 What every interleaving of the copy ring keeps.
 */
module CopySafety {
  import opened CopyRing
  import opened CopyProtocol

  // ---- the invariant ----

  ghost predicate Distinct(s: seq<nat>) { forall i, j :: 0 <= i < j < |s| ==> s[i] != s[j] }

  /** The counter of a group is what is still to come; it leaves Reading when that is nothing. */
  ghost predicate GroupOk(x: Group) {
    x.left == x.unsent + x.flying + x.failing && (x.stage == Reading <==> x.left > 0)
  }

  ghost predicate Groups(c: Config, s: System) {
    && (forall g :: 0 <= g < |s.groups| ==> GroupOk(s.groups[g]))
    && (forall g :: 0 <= g < |s.groups| && s.groups[g].unsent > 0 ==>
          g == |s.groups| - 1 && (s.pc == Sending || s.aborted))
    && (s.pc == Sending || s.aborted ==> s.groups != [] && s.groups[|s.groups| - 1].unsent > 0)
  }

  /** Every latency is noted once, by the group's last callback. */
  ghost predicate Latencies(s: System) {
    && Distinct(s.lat)
    && (forall g: nat :: g in s.lat <==> g < |s.groups| && Rank(s.groups[g].stage) >= 2)
  }

  /** The queue and the copier hold exactly the groups that were completed and not yet copied. */
  ghost predicate Queue(c: Config, s: System)
    requires c.bufs >= 1
  {
    && |s.work| == |s.ring.q|
    && Distinct(s.work)
    && (forall i :: 0 <= i < |s.work| ==>
          s.work[i] < |s.groups| && s.groups[s.work[i]].stage == Queued && s.ring.q[i] == SlotOf(c, s.work[i]))
    && (forall g :: 0 <= g < |s.groups| && s.groups[g].stage == Queued ==> g in s.work)
    && (s.copier.Copies? ==> s.copier.job < |s.groups| && s.copier.slot == SlotOf(c, s.copier.job))
    && (s.copier.Copies? ==> s.groups[s.copier.job].stage == Copying)
    && (forall g :: 0 <= g < |s.groups| && s.groups[g].stage == Copying ==> s.copier.Copies? && s.copier.job == g)
  }

  ghost predicate Counters(c: Config, s: System) {
    && s.open == Count(s.groups, 0, 3)
    && s.ring.copies == Count(s.groups, 6, 7)
    && (s.ring.failed ==> s.ring.copies > 0)
    && (s.failures == 0 ==> s.open <= c.depth && (s.pc == Taking || s.pc == Opening ==> s.open < c.depth))
  }

  ghost predicate AllAt(s: System, rank: nat) {
    forall g :: 0 <= g < |s.groups| ==> Rank(s.groups[g].stage) >= rank
  }

  ghost predicate Control(c: Config, s: System) {
    && |s.groups| <= c.total
    && (s.pc == Taking || s.pc == Opening ==> |s.groups| < c.total)
    && (s.ring.quit <==> s.pc == Stopping || s.pc == Joined)
    && (s.aborted ==> s.ring.quit)
    && (s.copier == Exited ==> s.ring.quit)
    && (s.pc == Joined ==> s.copier == Exited)
    && ((s.pc == Draining || s.pc == Finished || s.ring.quit) && !s.aborted ==>
          |s.groups| == c.total && AllAt(s, 4) && (s.copier == Exited ==> AllAt(s, 6)))
  }

  /** Another group of the same slot is out of the way before a slot is taken. */
  ghost predicate Slots(c: Config, s: System)
    requires c.bufs >= 1 && |s.ring.busy| == c.bufs
  {
    && (forall g, h :: 0 <= g < h < |s.groups| && SlotOf(c, g) == SlotOf(c, h) ==> s.groups[g].stage == Retired)
    && (s.pc == Opening ==>
          s.ring.busy[SlotOf(c, |s.groups|)]
          && forall g :: 0 <= g < |s.groups| && SlotOf(c, g) == SlotOf(c, |s.groups|) ==> s.groups[g].stage == Retired)
    && (forall g :: 0 <= g < |s.groups| && s.groups[g].stage != Retired ==> s.ring.busy[SlotOf(c, g)])
    && (forall x: nat :: x < c.bufs && s.ring.busy[x] ==> Held(c, s, x))
    && ((s.pc == Finished || s.ring.quit) && !s.aborted ==> AllAt(s, 6))
  }

  /** Some group not yet copied, or the submitter itself, holds slot x. */
  ghost predicate Held(c: Config, s: System, x: nat)
    requires c.bufs >= 1
  {
    (s.pc == Opening && SlotOf(c, |s.groups|) == x)
    || exists g :: 0 <= g < |s.groups| && SlotOf(c, g) == x && s.groups[g].stage != Retired
  }

  ghost predicate Inv(c: Config, s: System) {
    && IsConfig(c)
    && |s.ring.busy| == c.bufs
    && Groups(c, s) && Latencies(s) && Queue(c, s) && Counters(c, s) && Control(c, s)
    && (!s.ring.failed ==> Slots(c, s))
  }

  lemma InvShaped(c: Config, s: System)
    requires Inv(c, s)
    ensures Shaped(c, s)
  {
    hide Latencies, Counters, Control, Slots, SlotOf;
    forall g | 0 <= g < |s.groups| ensures s.groups[g].left >= s.groups[g].flying + s.groups[g].failing {
      assert GroupOk(s.groups[g]);
    }
  }

  lemma InitInv(c: Config)
    requires IsConfig(c)
    ensures Inv(c, Init(c))
  {
  }

  // ---- every step keeps it ----

  /** The groups that the copier's sections move are where the queue says. */
  lemma CopierStages(c: Config, s: System)
    requires Inv(c, s)
    ensures s.work != [] ==>
              s.work[0] < |s.groups| && s.groups[s.work[0]].stage == Queued && GroupOk(s.groups[s.work[0]])
    ensures s.copier.Copies? ==>
              s.copier.job < |s.groups| && s.groups[s.copier.job].stage == Copying && GroupOk(s.groups[s.copier.job])
  {
    hide Latencies, Counters, Control, Slots, SlotOf, GroupOk;
  }

  // ---- steps that move one group ----

  predicate MovesOne(step: Step) {
    step.Fail? || step.Land? || step.Record? || step.Close? || step.Enqueue? || step.PopSlot? || step.RetireCopy?
  }

  ghost function Target(c: Config, s: System, step: Step): (g: nat)
    requires Shaped(c, s) && Enabled(c, s, step) && MovesOne(step)
    ensures g < |s.groups|
  {
    match step
    case Fail(g) => g
    case Land(g, _) => g
    case Record(g) => g
    case Close(g) => g
    case Enqueue(g) => g
    case PopSlot => s.work[0]
    case RetireCopy(_) => s.copier.job
  }

  /** The stage a step finds its group in, and the one it leaves it in. */
  ghost predicate Moves(step: Step, from: nat, to: nat) {
    match step
    case Fail(_) => from == 0 == to
    case Land(_, _) => from == 0 && to <= 1
    case Record(_) => from == 1 && to == 2
    case Close(_) => from == 2 && to == 3
    case Enqueue(_) => from == 3 && to == 4
    case PopSlot => from == 4 && to == 5
    case RetireCopy(_) => from == 5 && to == 6
    case _ => true
  }

  /** t is s with group g replaced. */
  ghost predicate Replaced(s: System, t: System, g: nat, y: Group) {
    g < |s.groups| && t.groups == s.groups[g := y] && GroupOk(y) && y.unsent == s.groups[g].unsent
  }

  ghost predicate OneMovedBy(c: Config, s: System, step: Step)
    requires Shaped(c, s) && Enabled(c, s, step) && MovesOne(step)
  {
    var t, g := Apply(c, s, step), Target(c, s, step);
    && |t.groups| == |s.groups| && Replaced(s, t, g, t.groups[g])
    && Moves(step, Rank(s.groups[g].stage), Rank(t.groups[g].stage))
    && t.pc == s.pc && t.aborted == s.aborted
  }

  lemma CallbackMoved(c: Config, s: System, step: Step)
    requires Inv(c, s) && Shaped(c, s) && Enabled(c, s, step) && (step.Fail? || step.Land?)
    ensures OneMovedBy(c, s, step)
  {
    hide Latencies, Queue, Counters, Slots, Count, SlotOf, Control;
    assert GroupOk(s.groups[step.g]);
    hide Groups, Shaped;
  }

  lemma CopierMoved(c: Config, s: System, step: Step)
    requires Inv(c, s) && Shaped(c, s) && Enabled(c, s, step) && (step.PopSlot? || step.RetireCopy?)
    ensures OneMovedBy(c, s, step)
  {
    CopierStages(c, s);
    hide Inv, Shaped, SlotOf;
  }

  lemma HandedOver(c: Config, s: System, step: Step)
    requires Inv(c, s) && Shaped(c, s) && Enabled(c, s, step) && (step.Record? || step.Close? || step.Enqueue?)
    ensures OneMovedBy(c, s, step)
  {
    hide Latencies, Queue, Counters, Slots, Count, SlotOf, Control;
    assert GroupOk(s.groups[step.g]);
    hide Groups, Shaped;
  }

  lemma OneMoved(c: Config, s: System, step: Step)
    requires Inv(c, s) && Shaped(c, s) && Enabled(c, s, step) && MovesOne(step)
    ensures OneMovedBy(c, s, step)
  {
    hide Inv, Shaped, Enabled, OneMovedBy;
    if step.Fail? || step.Land? {
      CallbackMoved(c, s, step);
    } else if step.PopSlot? || step.RetireCopy? {
      CopierMoved(c, s, step);
    } else {
      HandedOver(c, s, step);
    }
  }

  lemma GroupsSubmit(c: Config, s: System, step: Step)
    requires Inv(c, s) && Shaped(c, s) && Enabled(c, s, step) && (step.OpenGroup? || step.Send?)
    ensures Groups(c, Apply(c, s, step))
  {
    hide Latencies, Queue, Counters, Slots, Count, SlotOf, Rank;
    if step.Send? { assert GroupOk(s.groups[|s.groups| - 1]); }
  }

  lemma GroupsMoved(c: Config, s: System, t: System, g: nat, y: Group)
    requires Groups(c, s) && Replaced(s, t, g, y) && t.pc == s.pc && t.aborted == s.aborted
    ensures Groups(c, t)
  {
    hide GroupOk;
  }

  lemma GroupsKept(c: Config, s: System, step: Step)
    requires Inv(c, s) && Shaped(c, s) && Enabled(c, s, step)
    ensures Groups(c, Apply(c, s, step))
  {
    hide Latencies, Queue, Counters, Slots, Count, SlotOf, Rank;
    if MovesOne(step) {
      OneMoved(c, s, step);
      var t, g := Apply(c, s, step), Target(c, s, step);
      hide Groups, Apply, Enabled;
      GroupsMoved(c, s, t, g, t.groups[g]);
    } else if step.OpenGroup? || step.Send? {
      GroupsSubmit(c, s, step);
    }
  }

  lemma LatenciesMoved(s: System, t: System, step: Step, g: nat, y: Group)
    requires Latencies(s) && Replaced(s, t, g, y) && Moves(step, Rank(s.groups[g].stage), Rank(y.stage))
    requires MovesOne(step) && t.lat == if step.Record? then s.lat + [g] else s.lat
    ensures Latencies(t)
  {
    hide Rank;
    if step.Record? { assert g !in s.lat; }
  }

  lemma LatenciesKept(c: Config, s: System, step: Step)
    requires Inv(c, s) && Shaped(c, s) && Enabled(c, s, step)
    ensures Latencies(Apply(c, s, step))
  {
    hide Counters, Slots, Count, Control, Queue, SlotOf;
    if MovesOne(step) {
      OneMoved(c, s, step);
      var t, g := Apply(c, s, step), Target(c, s, step);
      hide Latencies;
      LatenciesMoved(s, t, step, g, t.groups[g]);
    }
  }

  lemma QueueMoved(c: Config, s: System, t: System, step: Step, g: nat, y: Group)
    requires c.bufs >= 1 && Queue(c, s) && Replaced(s, t, g, y) && Moves(step, Rank(s.groups[g].stage), Rank(y.stage))
    requires step.Fail? || step.Land? || step.Record? || step.Close?
    requires t.work == s.work && t.ring.q == s.ring.q && t.copier == s.copier
    ensures Queue(c, t)
  {
    hide SlotOf;
  }

  lemma QueuePop(c: Config, s: System)
    requires Inv(c, s) && Shaped(c, s) && Enabled(c, s, PopSlot)
    ensures Queue(c, Apply(c, s, PopSlot))
  {
    hide Groups, Counters, Slots, Count, Control, Latencies, SlotOf, Rank;
    var t := Apply(c, s, PopSlot);
    assert s.work == [s.work[0]] + t.work;
  }

  lemma QueuePush(c: Config, s: System, g: nat)
    requires Inv(c, s) && Shaped(c, s) && Enabled(c, s, Enqueue(g))
    ensures Queue(c, Apply(c, s, Enqueue(g)))
  {
    hide Groups, Counters, Slots, Count, Control, Latencies, SlotOf, Rank;
    assert g !in s.work;
  }

  lemma QueueRetire(c: Config, s: System, ok: bool)
    requires Inv(c, s) && Shaped(c, s) && Enabled(c, s, RetireCopy(ok))
    ensures Queue(c, Apply(c, s, RetireCopy(ok)))
  {
    hide Groups, Counters, Slots, Count, Control, Latencies, SlotOf, Rank;
  }

  lemma QueueSubmit(c: Config, s: System, step: Step)
    requires Inv(c, s) && Shaped(c, s) && Enabled(c, s, step) && (step.OpenGroup? || step.Send?)
    ensures Queue(c, Apply(c, s, step))
  {
    hide Groups, Counters, Slots, Count, Control, Latencies, SlotOf, Rank;
  }

  lemma QueueKept(c: Config, s: System, step: Step)
    requires Inv(c, s) && Shaped(c, s) && Enabled(c, s, step)
    ensures Queue(c, Apply(c, s, step))
  {
    hide Groups, Counters, Slots, Count, Control, Latencies, SlotOf;
    if step.PopSlot? {
      QueuePop(c, s);
    } else if step.Enqueue? {
      QueuePush(c, s, step.g);
    } else if step.RetireCopy? {
      QueueRetire(c, s, step.ok);
    } else if step.OpenGroup? || step.Send? {
      QueueSubmit(c, s, step);
    } else if MovesOne(step) {
      OneMoved(c, s, step);
      var t, g := Apply(c, s, step), Target(c, s, step);
      hide Queue;
      QueueMoved(c, s, t, step, g, t.groups[g]);
    }
  }

  lemma CountersMoved(s: System, t: System, step: Step, g: nat, y: Group)
    requires Replaced(s, t, g, y) && Moves(step, Rank(s.groups[g].stage), Rank(y.stage)) && MovesOne(step)
    ensures Count(t.groups, 0, 3) == Count(s.groups, 0, 3) - (if step.Close? then 1 else 0)
    ensures Count(t.groups, 6, 7) == Count(s.groups, 6, 7) + (if step.RetireCopy? then 1 else 0)
  {
    CountUpdate(s.groups, g, y, 0, 3);
    CountUpdate(s.groups, g, y, 6, 7);
    hide Rank, Count;
  }

  lemma CountersSubmit(c: Config, s: System, step: Step)
    requires Inv(c, s) && Shaped(c, s) && Enabled(c, s, step) && (step.OpenGroup? || step.Send?)
    ensures Counters(c, Apply(c, s, step))
  {
    hide Groups, Latencies, Queue, Slots, Count, Control, SlotOf;
    var t, n := Apply(c, s, step), |s.groups|;
    if step.OpenGroup? {
      CountSnoc(s.groups, t.groups[n], 0, 3);
      CountSnoc(s.groups, t.groups[n], 6, 7);
    } else {
      CountUpdate(s.groups, n - 1, t.groups[n - 1], 0, 3);
      CountUpdate(s.groups, n - 1, t.groups[n - 1], 6, 7);
    }
  }

  lemma CountersKept(c: Config, s: System, step: Step)
    requires Inv(c, s) && Shaped(c, s) && Enabled(c, s, step)
    ensures Counters(c, Apply(c, s, step))
  {
    hide Groups, Latencies, Queue, Slots, Count, Control, SlotOf;
    if step.OpenGroup? || step.Send? {
      CountersSubmit(c, s, step);
    } else if MovesOne(step) {
      OneMoved(c, s, step);
      var t, g := Apply(c, s, step), Target(c, s, step);
      CountersMoved(s, t, step, g, t.groups[g]);
    }
  }

  lemma AllAtMoved(s: System, t: System, step: Step, g: nat, y: Group, rank: nat)
    requires AllAt(s, rank) && Replaced(s, t, g, y) && Moves(step, Rank(s.groups[g].stage), Rank(y.stage)) && MovesOne(step)
    ensures AllAt(t, rank)
  {
    hide Rank;
  }

  /** A copier that ends has left nothing behind. */
  lemma ExitedEmpty(c: Config, s: System)
    requires Inv(c, s) && s.copier == Waiting && s.ring.q == [] && AllAt(s, 4)
    ensures AllAt(s, 6)
  {
    hide Groups, Latencies, Counters, Control, Slots, SlotOf;
    forall g | 0 <= g < |s.groups| ensures Rank(s.groups[g].stage) >= 6 {
      assert s.work == [] && g !in s.work;
    }
  }

  lemma ControlKept(c: Config, s: System, step: Step)
    requires Inv(c, s) && Shaped(c, s) && Enabled(c, s, step)
    ensures Control(c, Apply(c, s, step))
  {
    hide Groups, Latencies, Queue, Counters, Slots, Count, SlotOf;
    if MovesOne(step) {
      ControlMoved(c, s, step);
    } else if step.ExitCopier? {
      if AllAt(s, 4) { ExitedEmpty(c, s); }
    }
  }

  lemma ControlMoved(c: Config, s: System, step: Step)
    requires Inv(c, s) && Shaped(c, s) && Enabled(c, s, step) && MovesOne(step)
    ensures Control(c, Apply(c, s, step))
  {
    hide Groups, Latencies, Queue, Counters, Slots, Count, SlotOf;
    OneMoved(c, s, step);
    var t, g := Apply(c, s, step), Target(c, s, step);
    var y := t.groups[g];
    if AllAt(s, 4) { AllAtMoved(s, t, step, g, y, 4); }
    if AllAt(s, 6) { AllAtMoved(s, t, step, g, y, 6); }
    hide AllAt, Rank;
  }

  /** A group changed, but not to or from Retired, and no slot was taken or freed. */
  lemma SlotsMoved(c: Config, s: System, t: System, g: nat, y: Group)
    requires c.bufs >= 1 && |s.ring.busy| == c.bufs && Slots(c, s)
    requires g < |s.groups| && t.groups == s.groups[g := y]
    requires s.groups[g].stage != Retired && y.stage != Retired
    requires t.ring.busy == s.ring.busy && t.ring.quit == s.ring.quit && t.aborted == s.aborted
    requires (t.pc == Opening <==> s.pc == Opening)
    requires t.pc == Finished ==> s.pc == Finished
    ensures Slots(c, t)
  {
    hide SlotOf;
    forall x: nat | x < c.bufs && t.ring.busy[x] ensures Held(c, t, x) {
      assert Held(c, s, x);
      if !(s.pc == Opening && SlotOf(c, |s.groups|) == x) {
        var h :| 0 <= h < |s.groups| && SlotOf(c, h) == x && s.groups[h].stage != Retired;
        assert t.groups[h].stage != Retired;
      }
    }
  }

  /** Group g is retired and its slot freed. */
  lemma SlotsFreed(c: Config, s: System, t: System, g: nat, y: Group)
    requires c.bufs >= 1 && |s.ring.busy| == c.bufs && Slots(c, s)
    requires g < |s.groups| && t.groups == s.groups[g := y]
    requires s.groups[g].stage != Retired && y.stage == Retired
    requires t.ring.busy == s.ring.busy[SlotOf(c, g) := false]
    requires t.ring.quit == s.ring.quit && t.aborted == s.aborted && t.pc == s.pc
    ensures Slots(c, t)
  {
    hide SlotOf;
    forall x: nat | x < c.bufs && t.ring.busy[x] ensures Held(c, t, x) {
      assert Held(c, s, x);
      if !(s.pc == Opening && SlotOf(c, |s.groups|) == x) {
        var h :| 0 <= h < |s.groups| && SlotOf(c, h) == x && s.groups[h].stage != Retired;
        assert h != g && t.groups[h].stage != Retired;
      }
    }
  }

  lemma SlotsRetire(c: Config, s: System)
    requires Inv(c, s) && Shaped(c, s) && s.copier.Copies? && !s.ring.failed
    ensures Slots(c, Apply(c, s, RetireCopy(true)))
  {
    hide Groups, Latencies, Counters, Control, Count, SlotOf, Slots;
    var t, job := Apply(c, s, RetireCopy(true)), s.copier.job;
    SlotsFreed(c, s, t, job, t.groups[job]);
  }

  lemma SlotsTake(c: Config, s: System)
    requires Inv(c, s) && Shaped(c, s) && Enabled(c, s, TakeSlot) && !s.ring.failed
    ensures Slots(c, Apply(c, s, TakeSlot))
  {
    hide Groups, Latencies, Counters, Count, SlotOf, Queue;
    var t, x := Apply(c, s, TakeSlot), SlotOf(c, |s.groups|);
    forall z: nat | z < c.bufs && t.ring.busy[z] ensures Held(c, t, z) {
      if z != x { assert Held(c, s, z); }
    }
  }

  lemma SlotsOpen(c: Config, s: System)
    requires Inv(c, s) && Shaped(c, s) && Enabled(c, s, OpenGroup) && !s.ring.failed
    ensures Slots(c, Apply(c, s, OpenGroup))
  {
    hide Groups, Latencies, Counters, Count, SlotOf, Queue;
    var t, n := Apply(c, s, OpenGroup), |s.groups|;
    forall z: nat | z < c.bufs && t.ring.busy[z] ensures Held(c, t, z) {
      assert Held(c, s, z);
      if SlotOf(c, n) == z {
        assert t.groups[n].stage != Retired;
      } else {
        var h :| 0 <= h < |s.groups| && SlotOf(c, h) == z && s.groups[h].stage != Retired;
        assert t.groups[h].stage != Retired;
      }
    }
  }

  /** Steps of the submitter that touch neither groups nor slots. */
  lemma SlotsQuiet(c: Config, s: System, step: Step)
    requires Inv(c, s) && Shaped(c, s) && Enabled(c, s, step) && !s.ring.failed
    requires !MovesOne(step) && !step.TakeSlot? && !step.OpenGroup? && !step.Send?
    ensures Slots(c, Apply(c, s, step))
  {
    hide Groups, Latencies, Counters, Count, SlotOf, Queue;
    var t := Apply(c, s, step);
    forall z: nat | z < c.bufs && t.ring.busy[z] ensures Held(c, t, z) {
      assert Held(c, s, z);
    }
    if step.RingDrain? {
      forall g | 0 <= g < |s.groups| ensures s.groups[g].stage == Retired {
        assert !s.ring.busy[SlotOf(c, g)];
      }
    }
  }

  lemma SlotsKept(c: Config, s: System, step: Step)
    requires Inv(c, s) && Shaped(c, s) && Enabled(c, s, step) && !Apply(c, s, step).ring.failed
    ensures Slots(c, Apply(c, s, step))
  {
    hide Groups, Latencies, Counters, Count, SlotOf, Queue, Slots, Control, Shaped;
    if step.RetireCopy? {
      SlotsRetire(c, s);
    } else if step.TakeSlot? {
      SlotsTake(c, s);
    } else if step.OpenGroup? {
      SlotsOpen(c, s);
    } else if step.Send? {
      SlotsSend(c, s);
    } else if MovesOne(step) {
      OneMoved(c, s, step);
      var t, g := Apply(c, s, step), Target(c, s, step);
      SlotsMoved(c, s, t, g, t.groups[g]);
    } else {
      SlotsQuiet(c, s, step);
    }
  }

  lemma SlotsSend(c: Config, s: System)
    requires Inv(c, s) && Shaped(c, s) && Enabled(c, s, Send) && !s.ring.failed
    ensures Slots(c, Apply(c, s, Send))
  {
    var t, g := Apply(c, s, Send), |s.groups| - 1;
    assert GroupOk(s.groups[g]);
    hide Groups, Latencies, Counters, Count, SlotOf, Queue, Slots;
    SlotsMoved(c, s, t, g, t.groups[g]);
  }

  lemma StepKeeps(c: Config, s: System, step: Step)
    requires Inv(c, s) && Shaped(c, s) && Enabled(c, s, step)
    ensures Inv(c, Apply(c, s, step))
  {
    GroupsKept(c, s, step);
    LatenciesKept(c, s, step);
    QueueKept(c, s, step);
    CountersKept(c, s, step);
    ControlKept(c, s, step);
    if !Apply(c, s, step).ring.failed { SlotsKept(c, s, step); }
    hide Groups, Latencies, Counters, Count, SlotOf, Queue, Slots, Control;
  }

  // ---- runs ----

  datatype Outcome = Stuck | At(s: System)

  /** The state after a sequence of steps, each possible where it is taken. */
  ghost function Run(c: Config, steps: seq<Step>): (r: Outcome)
    requires IsConfig(c)
    ensures r.At? ==> Inv(c, r.s)
  {
    if steps == [] then
      InitInv(c);
      At(Init(c))
    else
      match Run(c, steps[..|steps| - 1])
      case Stuck => Stuck
      case At(s) =>
        InvShaped(c, s);
        var step := steps[|steps| - 1];
        if !Enabled(c, s, step) then Stuck
        else
          StepKeeps(c, s, step);
          At(Apply(c, s, step))
  }
}

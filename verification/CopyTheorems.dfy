/**
 The guarantees of the staged-copy ring, for every run of every configuration.
 */
module CopyTheorems {
  import opened CopyRing
  import opened CopyProtocol
  import opened CopySafety

  // ---- the four uses of a slot ----

  ghost predicate Idle(s: System, x: nat)
    requires x < |s.ring.busy|
  {
    !s.ring.busy[x]
  }

  /** Group g may still write into slot x. */
  ghost predicate Reads(c: Config, s: System, g: nat, x: nat)
    requires c.bufs >= 1
  {
    g < |s.groups| && SlotOf(c, g) == x && Rank(s.groups[g].stage) < 4
  }

  ghost predicate BeingRead(c: Config, s: System, x: nat)
    requires c.bufs >= 1
  {
    (s.pc == Opening && SlotOf(c, |s.groups|) == x) || exists g :: Reads(c, s, g, x)
  }

  ghost predicate BeingCopied(s: System, x: nat) { s.copier.Copies? && s.copier.slot == x }

  predicate ExactlyOne(a: bool, b: bool, c: bool, d: bool) {
    (a || b || c || d) && !(a && b) && !(a && c) && !(a && d) && !(b && c) && !(b && d) && !(c && d)
  }

  /** A queued slot belongs to a queued group. */
  lemma QueuedGroup(c: Config, s: System, x: nat) returns (g: nat)
    requires Inv(c, s) && x in s.ring.q
    ensures g < |s.groups| && SlotOf(c, g) == x && s.groups[g].stage == Queued
  {
    hide Groups, Latencies, Counters, Control, Slots, SlotOf;
    var i :| 0 <= i < |s.ring.q| && s.ring.q[i] == x;
    g := s.work[i];
  }

  /** Two groups that still hold the same slot are the same group. */
  lemma OneHolder(c: Config, s: System, g: nat, h: nat)
    requires Inv(c, s) && !s.ring.failed && g < |s.groups| && h < |s.groups| && SlotOf(c, g) == SlotOf(c, h)
    requires s.groups[g].stage != Retired && s.groups[h].stage != Retired
    ensures g == h && s.ring.busy[SlotOf(c, g)] && !(s.pc == Opening && SlotOf(c, |s.groups|) == SlotOf(c, g))
  {
    hide Groups, Latencies, Counters, Control, Queue, SlotOf;
  }

  /** Something uses a slot that is not idle. */
  lemma SomeUse(c: Config, s: System, x: nat)
    requires Inv(c, s) && !s.ring.failed && x < c.bufs && s.ring.busy[x]
    ensures BeingRead(c, s, x) || x in s.ring.q || BeingCopied(s, x)
  {
    hide Groups, Latencies, Counters, Control, SlotOf;
    assert Held(c, s, x);
    if !(s.pc == Opening && SlotOf(c, |s.groups|) == x) {
      var g :| 0 <= g < |s.groups| && SlotOf(c, g) == x && s.groups[g].stage != Retired;
      if Rank(s.groups[g].stage) < 4 {
        assert Reads(c, s, g, x);
      } else if s.groups[g].stage == Queued {
        var i :| 0 <= i < |s.work| && s.work[i] == g;
        assert s.ring.q[i] == x;
      }
    }
  }

  /** Without a copy failure every slot is idle, being read, queued or being copied, and only one
      of these; no slot is queued twice, and at most one group reads into it. */
  lemma SlotUse(c: Config, steps: seq<Step>, s: System, x: nat)
    requires IsConfig(c) && Run(c, steps) == At(s) && !s.ring.failed && x < c.bufs
    ensures ExactlyOne(Idle(s, x), BeingRead(c, s, x), x in s.ring.q, BeingCopied(s, x))
    ensures Distinct(s.ring.q)
    ensures forall g, h :: Reads(c, s, g, x) && Reads(c, s, h, x) ==> g == h
  {
    hide Run;
    if s.ring.busy[x] { SomeUse(c, s, x); }
    UsesApart(c, s, x);
    QueueDistinct(c, s);
    forall g, h | Reads(c, s, g, x) && Reads(c, s, h, x) ensures g == h { OneHolder(c, s, g, h); }
    hide Inv, BeingRead, BeingCopied, Reads;
  }

  lemma QueueDistinct(c: Config, s: System)
    requires Inv(c, s) && !s.ring.failed
    ensures Distinct(s.ring.q)
  {
    hide Groups, Latencies, Counters, Control, Slots, SlotOf;
    forall i, j | 0 <= i < j < |s.ring.q| ensures s.ring.q[i] != s.ring.q[j] {
      if s.ring.q[i] == s.ring.q[j] { OneHolder(c, s, s.work[i], s.work[j]); }
    }
  }

  lemma QueuedApart(c: Config, s: System, x: nat)
    requires Inv(c, s) && !s.ring.failed && x in s.ring.q
    ensures x < c.bufs && s.ring.busy[x] && !BeingCopied(s, x) && !BeingRead(c, s, x)
  {
    CopierStages(c, s);
    var q := QueuedGroup(c, s, x);
    OneHolder(c, s, q, q);
    hide Groups, Latencies, Counters, Control, SlotOf, Slots;
    if BeingCopied(s, x) { OneHolder(c, s, q, s.copier.job); }
    hide Queue;
    forall g | Reads(c, s, g, x) ensures false { OneHolder(c, s, g, q); }
  }

  lemma CopiedApart(c: Config, s: System, x: nat)
    requires Inv(c, s) && !s.ring.failed && BeingCopied(s, x)
    ensures x < c.bufs && s.ring.busy[x] && !BeingRead(c, s, x)
  {
    CopierStages(c, s);
    hide Groups, Latencies, Counters, Control, SlotOf, Slots;
    var job := s.copier.job;
    assert SlotOf(c, job) == x;
    hide Queue;
    OneHolder(c, s, job, job);
    forall g | Reads(c, s, g, x) ensures false { OneHolder(c, s, g, job); }
  }

  lemma UsesApart(c: Config, s: System, x: nat)
    requires Inv(c, s) && !s.ring.failed && x < c.bufs
    ensures BeingRead(c, s, x) ==> s.ring.busy[x] && x !in s.ring.q && !BeingCopied(s, x)
    ensures x in s.ring.q ==> s.ring.busy[x] && !BeingCopied(s, x)
    ensures BeingCopied(s, x) ==> s.ring.busy[x]
  {
    hide Groups, Latencies, Counters, Control, SlotOf, Queue;
    if x in s.ring.q { QueuedApart(c, s, x); }
    if BeingCopied(s, x) { CopiedApart(c, s, x); }
    forall g | Reads(c, s, g, x) ensures s.ring.busy[x] { OneHolder(c, s, g, g); }
  }

  /** A request is only submitted into a slot from which every earlier group has been copied out. */
  lemma NoOverwrite(c: Config, steps: seq<Step>, s: System)
    requires IsConfig(c) && Run(c, steps) == At(s) && !s.ring.failed && s.pc == Sending
    ensures s.groups != []
    ensures var n := |s.groups| - 1;
            && (forall g :: 0 <= g < n && SlotOf(c, g) == SlotOf(c, n) ==> s.groups[g].stage == Retired)
            && SlotOf(c, n) !in s.ring.q && !BeingCopied(s, SlotOf(c, n))
  {
    hide Run, Latencies, Counters, Control, Queue, SlotOf;
    var n := |s.groups| - 1;
    assert GroupOk(s.groups[n]);
    assert Reads(c, s, n, SlotOf(c, n));
    hide Groups, Slots;
    UsesApart(c, s, SlotOf(c, n));
  }

  // ---- latencies, open groups, and the end of a run ----

  /** Every group's latency is noted at most once, and the open groups are those whose last
      callback has not closed them: never more than `depth` unless a read failed. */
  lemma OpenGroups(c: Config, steps: seq<Step>, s: System)
    requires IsConfig(c) && Run(c, steps) == At(s)
    ensures Distinct(s.lat) && forall g: nat :: g in s.lat <==> g < |s.groups| && Rank(s.groups[g].stage) >= 2
    ensures s.open == Count(s.groups, 0, 3) && s.ring.copies == Count(s.groups, 6, 7)
    ensures s.failures == 0 ==> s.open <= c.depth
  {
    hide Run, Groups, Queue, Control, Slots, Count, Rank;
  }

  /** A queue with something in it means a group that is not copied yet. */
  lemma QueueIsWork(c: Config, s: System)
    requires Inv(c, s)
    ensures s.ring.q != [] ==> !AllAt(s, 6)
  {
    hide Groups, Latencies, Counters, Control, Slots, SlotOf;
    if s.ring.q != [] { assert Rank(s.groups[s.work[0]].stage) == 4; }
  }

  /** When `drain` lets the submitter go without a copy failure, every group has been read,
      noted and copied. */
  lemma Drained(c: Config, steps: seq<Step>, s: System)
    requires IsConfig(c) && Run(c, steps) == At(s) && s.pc == Finished && !s.ring.failed
    ensures |s.groups| == c.total == s.ring.copies && s.ring.q == [] && AllAt(s, 6)
  {
    hide Run, Groups, Latencies, SlotOf;
    CountAll(s.groups, 6, 7);
    QueueIsWork(c, s);
  }

  /** When the copier ends in a run that was not cut short by a refused request, it has copied
      every group, copy failures or not. */
  lemma StopCompletes(c: Config, steps: seq<Step>, s: System)
    requires IsConfig(c) && Run(c, steps) == At(s) && s.copier == Exited && !s.aborted
    ensures |s.groups| == c.total == s.ring.copies && s.open == 0 && s.ring.q == []
    ensures forall g: nat :: g in s.lat <==> g < c.total
  {
    hide Run, Groups, SlotOf, Slots;
    CountAll(s.groups, 6, 7);
    CountNone(s.groups, 0, 3);
    QueueIsWork(c, s);
  }

  // ---- order ----

  /** The groups in the order in which their slots were queued. */
  function QueuedIn(steps: seq<Step>): seq<nat> {
    if steps == [] then []
    else QueuedIn(steps[..|steps| - 1]) + (if steps[|steps| - 1].Enqueue? then [steps[|steps| - 1].g] else [])
  }

  /** The groups in the order in which the copier took them: after every pop, the one in its hands. */
  ghost function TakenIn(c: Config, steps: seq<Step>): seq<nat>
    requires IsConfig(c)
  {
    if steps == [] then []
    else
      var r := Run(c, steps);
      TakenIn(c, steps[..|steps| - 1])
      + (if steps[|steps| - 1].PopSlot? && r.At? && r.s.copier.Copies? then [r.s.copier.job] else [])
  }

  lemma QueueMoves(c: Config, s: System, step: Step)
    requires Shaped(c, s) && Enabled(c, s, step)
    ensures var t := Apply(c, s, step);
            && (step.PopSlot? ==> t.copier.Copies? && [t.copier.job] + t.work == s.work && t.copier.slot == s.ring.q[0])
            && (step.Enqueue? ==> t.work == s.work + [step.g])
            && (!step.PopSlot? && !step.Enqueue? ==> t.work == s.work)
  {
  }

  /** Slots are copied in the order in which they were queued: what was taken, then what still waits,
      is what was queued. */
  lemma {:induction false} FirstInFirstOut(c: Config, steps: seq<Step>, s: System)
    requires IsConfig(c) && Run(c, steps) == At(s)
    ensures TakenIn(c, steps) + s.work == QueuedIn(steps)
  {
    hide Inv, Apply, Enabled, Shaped;
    if steps != [] {
      var pre, step := steps[..|steps| - 1], steps[|steps| - 1];
      var m := Run(c, pre).s;
      FirstInFirstOut(c, pre, m);
      InvShaped(c, m);
      QueueMoves(c, m, step);
      var taken := TakenIn(c, pre);
      if step.PopSlot? {
        assert (taken + [s.copier.job]) + s.work == taken + ([s.copier.job] + s.work);
      } else if step.Enqueue? {
        assert taken + (m.work + [step.g]) == (taken + m.work) + [step.g];
      }
    }
  }
}

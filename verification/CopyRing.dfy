/**
 The staged-copy ring of bench/io_dst_bench.cpp. Every member function holds the ring's mutex
 for one section; each section is one step here, taken once the condition it waits for holds.
 */
module CopyRing {

  /** What the mutex protects. */
  datatype Ring = Ring(q: seq<nat>, busy: seq<bool>, copies: nat, failed: bool, quit: bool)

  predicate CanTake(r: Ring, slot: nat)
    requires slot < |r.busy|
  {
    !r.busy[slot] || r.failed
  }

  predicate CanDrain(r: Ring) { r.failed || (r.q == [] && forall s :: 0 <= s < |r.busy| ==> !r.busy[s]) }

  function AfterTake(r: Ring, slot: nat): Ring
    requires slot < |r.busy|
  {
    r.(busy := r.busy[slot := true])
  }

  function AfterComplete(r: Ring, slot: nat): Ring { r.(q := r.q + [slot]) }

  function AfterPop(r: Ring): Ring
    requires r.q != []
  {
    r.(q := r.q[1..])
  }

  function AfterRetire(r: Ring, slot: nat, ok: bool): Ring
    requires slot < |r.busy|
  {
    r.(copies := r.copies + 1, busy := r.busy[slot := false], failed := r.failed || !ok)
  }

  function AfterStop(r: Ring): Ring { r.(quit := true) }

  datatype Front = Slot(slot: nat) | Exit

  class CopyRing {
    var q: seq<nat>
    var busy: seq<bool>
    var copies: nat
    var failed: bool
    var quit: bool

    ghost function View(): Ring
      reads this
    {
      Ring(q, busy, copies, failed, quit)
    }

    constructor (slots: nat)
      ensures View() == Ring([], seq(slots, _ => false), 0, false, false)
    {
      q, busy, copies, failed, quit := [], seq(slots, _ => false), 0, false, false;
    }

    /** The copier's first section: the next slot, or the decision to end. */
    method Next() returns (front: Front)
      requires quit || q != []
      modifies this
      ensures front.Exit? <==> old(q) == []
      ensures front.Exit? ==> View() == old(View())
      ensures front.Slot? ==> front.slot == old(q[0]) && View() == AfterPop(old(View()))
    {
      if q == [] { return Exit; }
      front := Slot(q[0]);
      q := q[1..];
    }

    /** The copier's second section, behind the copy of a slot. */
    method Retire(slot: nat, ok: bool)
      requires slot < |busy|
      modifies this
      ensures View() == AfterRetire(old(View()), slot, ok)
    {
      copies := copies + 1;
      busy := busy[slot := false];
      if !ok && !failed { failed := true; }
    }

    method Take(slot: nat)
      requires slot < |busy| && CanTake(View(), slot)
      modifies this
      ensures View() == AfterTake(old(View()), slot)
    {
      busy := busy[slot := true];
    }

    method Complete(slot: nat)
      modifies this
      ensures View() == AfterComplete(old(View()), slot)
    {
      q := q + [slot];
    }

    /** The condition `drain` waits for. */
    method MayDrain() returns (b: bool)
      ensures b == CanDrain(View())
    {
      if failed { return true; }
      if q != [] { return false; }
      for s := 0 to |busy|
        invariant forall x :: 0 <= x < s ==> !busy[x]
      {
        if busy[s] { return false; }
      }
      return true;
    }

    method Stop()
      modifies this
      ensures View() == AfterStop(old(View()))
    {
      quit := true;
    }
  }
}

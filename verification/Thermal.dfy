/**
 The thermal latch and the time budget of bench/thermal_guard.py, over exact numbers.
 */
module Thermal {
  import opened Wrappers

  // ---- the latch ----

  /** Thresholds in degrees, one pair per kind of sensor (tools/runtime_defaults.py). */
  datatype Policy = Policy(gpuPause: real, gpuResume: real, nvmePause: real, nvmeResume: real)

  datatype Kind = Gpu | Nvme | Unrecognised

  function KindOf(sensor: string): Kind {
    if sensor == "gpu" || "amdgpu:" <= sensor then Gpu
    else if sensor == "nvme" || "nvme:" <= sensor then Nvme
    else Unrecognised
  }

  function Pause(p: Policy, sensor: string): real {
    if KindOf(sensor) == Gpu then p.gpuPause else p.nvmePause
  }

  function Resume(p: Policy, sensor: string): real {
    if KindOf(sensor) == Gpu then p.gpuResume else p.nvmeResume
  }

  /** A sample: a number, or what is not finite. */
  datatype Reading = Degrees(c: real) | NotFinite

  type Sample = map<string, Reading>

  datatype Verdict = Latched(hot: bool) | Invalid | MissingSensor | UnknownSensor

  predicate Readable(t: Sample) { t != map[] && forall k <- t :: t[k].Degrees? }

  function Reached(p: Policy, t: Sample): set<string>
    requires Readable(t)
  {
    set k | k in t && t[k].c >= Pause(p, k)
  }

  /** The latch after a sample it accepts. */
  function Updated(p: Policy, hot: set<string>, t: Sample): set<string>
    requires Readable(t) && hot <= t.Keys
  {
    set k | k in hot + Reached(p, t) && t[k].c > Resume(p, k)
  }

  /** The latch after any sample of recognised sensors: a refused one changes nothing. */
  function Step(p: Policy, hot: set<string>, t: Sample): set<string> {
    if Readable(t) && hot <= t.Keys then Updated(p, hot, t) else hot
  }

  class ThermalLatch {
    const policy: Policy
    var hot: set<string>

    constructor (policy: Policy)
      ensures this.policy == policy && hot == {}
    {
      this.policy := policy;
      hot := {};
    }

    /** Takes in a sample. Refused samples change nothing, except that an unknown sensor is only
        noticed after some of the others may have been latched. */
    method Update(t: Sample) returns (v: Verdict)
      modifies this
      ensures v.Invalid? <==> t == map[] || exists k <- t :: t[k].NotFinite?
      ensures v.MissingSensor? <==> Readable(t) && !(old(hot) <= t.Keys)
      ensures v.UnknownSensor? <==> Readable(t) && old(hot) <= t.Keys
                                    && exists k <- t :: k != "gpu" && !("amdgpu:" <= k) && k != "nvme" && !("nvme:" <= k)
      ensures !v.UnknownSensor? ==> hot == Step(policy, old(hot), t)
      ensures v.UnknownSensor? ==> old(hot) <= hot <= old(hot) + Reached(policy, t)
      ensures v.Latched? ==> (v.hot <==> hot != {})
    {
      if t == map[] || exists k <- t :: t[k].NotFinite? { return Invalid; }
      if !(hot <= t.Keys) { return MissingSensor; }
      var todo := t.Keys;
      while todo != {}
        invariant todo <= t.Keys
        invariant forall k <- t.Keys - todo :: KindOf(k) != Unrecognised
        invariant hot == old(hot) + (Reached(policy, t) - todo)
        decreases todo
      {
        var k :| k in todo;
        if KindOf(k) == Unrecognised { return UnknownSensor; }
        if t[k].c >= Pause(policy, k) { hot := hot + {k}; }
        todo := todo - {k};
      }
      assert forall k <- t :: k in t.Keys - todo && KindOf(k) != Unrecognised;
      hot := set k | k in hot && t[k].c > Resume(policy, k);
      return Latched(hot != {});
    }
  }

  // ---- the latch as a property of the history ----

  /** The latch after a history of samples of recognised sensors. */
  function After(p: Policy, history: seq<Sample>): set<string> {
    if history == [] then {} else Step(p, After(p, history[..|history| - 1]), history[|history| - 1])
  }

  /** Sample j was taken in. */
  predicate Accepted(p: Policy, history: seq<Sample>, j: nat)
    requires j < |history|
  {
    Readable(history[j]) && After(p, history[..j]) <= history[j].Keys
  }

  /** The sensor reached its pause threshold in sample i, and every accepted reading from then on
      stayed above its resume threshold. */
  ghost predicate HotSince(p: Policy, history: seq<Sample>, k: string, i: nat)
    requires i < |history|
  {
    && Accepted(p, history, i) && k in history[i] && history[i][k].c >= Pause(p, k)
    && forall j :: i <= j < |history| && Accepted(p, history, j) && k in history[j] ==> history[j][k].c > Resume(p, k)
  }

  lemma AcceptedBefore(p: Policy, history: seq<Sample>, n: nat, j: nat)
    requires j < n <= |history|
    ensures Accepted(p, history[..n], j) == Accepted(p, history, j)
  {
    assert history[..n][..j] == history[..j];
  }

  /** The last sample does not cool the sensor down. */
  ghost predicate StaysHot(p: Policy, history: seq<Sample>, k: string)
    requires history != []
  {
    var n := |history| - 1;
    Accepted(p, history, n) && k in history[n] ==> history[n][k].c > Resume(p, k)
  }

  lemma HotSinceSnoc(p: Policy, history: seq<Sample>, k: string, i: nat)
    requires |history| > 0 && i < |history| - 1
    ensures HotSince(p, history, k, i) <==> HotSince(p, history[..|history| - 1], k, i) && StaysHot(p, history, k)
  {
    var n := |history| - 1;
    forall j | 0 <= j < n ensures Accepted(p, history[..n], j) == Accepted(p, history, j) {
      AcceptedBefore(p, history, n, j);
    }
    assert forall j :: 0 <= j < n ==> history[..n][j] == history[j];
    assert Accepted(p, history, i) ==> Readable(history[i]);
    hide After, Pause, Resume;
  }

  /** What the last sample does to one sensor. */
  lemma LastSample(p: Policy, history: seq<Sample>, k: string)
    requires history != []
    ensures var n := |history| - 1;
            k in After(p, history) <==>
              StaysHot(p, history, k) && (k in After(p, history[..n]) || HotSince(p, history, k, n))
  {
    hide Pause, Resume;
  }

  /** A sensor is latched exactly when it became hot and has not cooled down since. */
  lemma {:induction false} LatchedIff(p: Policy, history: seq<Sample>, k: string)
    ensures k in After(p, history) <==> exists i :: 0 <= i < |history| && HotSince(p, history, k, i)
  {
    if history != [] {
      var n := |history| - 1;
      LatchedIff(p, history[..n], k);
      LastSample(p, history, k);
      assert HotSince(p, history, k, n) ==> StaysHot(p, history, k);
      forall i | 0 <= i < n
        ensures HotSince(p, history, k, i) <==> HotSince(p, history[..n], k, i) && StaysHot(p, history, k)
      {
        HotSinceSnoc(p, history, k, i);
      }
      hide HotSince, StaysHot, After;
    }
  }

  /** Every sample is readable, and no sensor that was seen is missing later. */
  ghost predicate Complete(history: seq<Sample>) {
    && (forall i :: 0 <= i < |history| ==> Readable(history[i]))
    && (forall i, j :: 0 <= i < j < |history| ==> history[i].Keys <= history[j].Keys)
  }

  lemma {:induction false} LatchedAreSeen(p: Policy, history: seq<Sample>)
    requires Complete(history) && history != []
    ensures After(p, history) <= history[|history| - 1].Keys
  {
    var n := |history| - 1;
    if n > 0 {
      LatchedAreSeen(p, history[..n]);
      assert history[..n][n - 1].Keys <= history[n].Keys;
    }
  }

  lemma AllAccepted(p: Policy, history: seq<Sample>, j: nat)
    requires Complete(history) && j < |history|
    ensures Accepted(p, history, j)
  {
    if j > 0 {
      LatchedAreSeen(p, history[..j]);
      assert history[..j][j - 1].Keys <= history[j].Keys;
    }
  }

  /** The readings alone: sample i reached the pause threshold, and all later ones stayed above the
      resume threshold. */
  ghost predicate HotReadings(p: Policy, history: seq<Sample>, k: string, i: nat)
    requires Complete(history) && i < |history|
  {
    && k in history[i] && history[i][k].c >= Pause(p, k)
    && forall j :: i <= j < |history| ==> k in history[j] && history[j][k].c > Resume(p, k)
  }

  /** With readable, complete samples the latch is a property of the readings. */
  lemma LatchedByReadings(p: Policy, history: seq<Sample>, k: string)
    requires Complete(history)
    ensures k in After(p, history) <==> exists i :: 0 <= i < |history| && HotReadings(p, history, k, i)
  {
    LatchedIff(p, history, k);
    forall i | 0 <= i < |history| ensures Accepted(p, history, i) { AllAccepted(p, history, i); }
    hide Accepted, Pause, Resume, After;
    forall i | 0 <= i < |history| ensures HotSince(p, history, k, i) <==> HotReadings(p, history, k, i) {
      forall j | i <= j < |history| && k in history[i] ensures k in history[j] {
        if i < j { assert history[i].Keys <= history[j].Keys; }
      }
    }
  }

  /** Some reading of sensor k reached `pause`, and all later ones stayed above `resume`. */
  ghost predicate StaysAbove(history: seq<Sample>, k: string, pause: real, resume: real, i: nat)
    requires i < |history| && Complete(history)
  {
    && k in history[i] && history[i][k].c >= pause
    && forall j :: i <= j < |history| ==> k in history[j] && history[j][k].c > resume
  }

  /** A graphics sensor is held by the policy's graphics thresholds. */
  lemma LatchedGpu(p: Policy, history: seq<Sample>, k: string)
    requires Complete(history) && (k == "gpu" || "amdgpu:" <= k)
    ensures k in After(p, history) <==> exists i :: 0 <= i < |history| && StaysAbove(history, k, p.gpuPause, p.gpuResume, i)
  {
    LatchedByReadings(p, history, k);
    hide Complete;
    assert Pause(p, k) == p.gpuPause && Resume(p, k) == p.gpuResume;
    assert forall i :: 0 <= i < |history| ==> (HotReadings(p, history, k, i) <==> StaysAbove(history, k, p.gpuPause, p.gpuResume, i));
  }

  /** A drive's sensor is held by the policy's drive thresholds. */
  lemma LatchedNvme(p: Policy, history: seq<Sample>, k: string)
    requires Complete(history) && (k == "nvme" || "nvme:" <= k)
    ensures k in After(p, history) <==> exists i :: 0 <= i < |history| && StaysAbove(history, k, p.nvmePause, p.nvmeResume, i)
  {
    LatchedByReadings(p, history, k);
    hide Complete;
    assert k[0] == 'n';
    assert Pause(p, k) == p.nvmePause && Resume(p, k) == p.nvmeResume;
    assert forall i :: 0 <= i < |history| ==> (HotReadings(p, history, k, i) <==> StaysAbove(history, k, p.nvmePause, p.nvmeResume, i));
  }

  // ---- the time budget ----

  datatype BudgetError = Fine | ActiveExceeded | WallExceeded

  /** The fields of a budget. */
  datatype Budget = Budget(begin: real, pauseStart: Option<real>, paused: real)

  function AfterSet(b: Budget, flag: bool, now: real): Budget {
    if flag && b.pauseStart.None? then b.(pauseStart := Some(now))
    else if !flag && b.pauseStart.Some? then b.(paused := b.paused + (now - b.pauseStart.value), pauseStart := None)
    else b
  }

  function Paused(b: Budget, now: real): real {
    b.paused + (if b.pauseStart.Some? then now - b.pauseStart.value else 0.0)
  }

  class RunBudget {
    const begin: real
    const activeLimit: real
    const wallLimit: real
    var pauseStart: Option<real>
    var pausedS: real

    ghost function View(): Budget
      reads this
    {
      Budget(begin, pauseStart, pausedS)
    }

    /** What the constructor insists on. */
    ghost predicate Valid() { 0.0 < activeLimit <= wallLimit }

    constructor (now: real, activeLimit: real, wallLimit: real)
      requires 0.0 < activeLimit <= wallLimit
      ensures Valid() && View() == Budget(now, None, 0.0)
      ensures this.activeLimit == activeLimit && this.wallLimit == wallLimit
    {
      begin, this.activeLimit, this.wallLimit := now, activeLimit, wallLimit;
      pauseStart, pausedS := None, 0.0;
    }

    /** A budget, or nothing where the limits make no sense. */
    static method Create(now: real, activeLimit: real, wallLimit: real) returns (b: RunBudget?)
      ensures b == null <==> activeLimit <= 0.0 || wallLimit < activeLimit
      ensures b != null ==> fresh(b) && b.Valid() && b.View() == Budget(now, None, 0.0)
                            && b.activeLimit == activeLimit && b.wallLimit == wallLimit
    {
      if activeLimit <= 0.0 || wallLimit < activeLimit { return null; }
      b := new RunBudget(now, activeLimit, wallLimit);
    }

    method SetPaused(flag: bool, now: real)
      modifies this
      ensures View() == AfterSet(old(View()), flag, now)
    {
      if flag && pauseStart.None? {
        pauseStart := Some(now);
      } else if !flag && pauseStart.Some? {
        pausedS := pausedS + (now - pauseStart.value);
        pauseStart := None;
      }
    }

    method Elapsed(now: real) returns (wall: real, paused: real, active: real)
      ensures wall == now - begin && paused == Paused(View(), now)
      ensures active == if wall - paused > 0.0 then wall - paused else 0.0
    {
      wall := now - begin;
      paused := pausedS + (if pauseStart.Some? then now - pauseStart.value else 0.0);
      active := if wall - paused > 0.0 then wall - paused else 0.0;
    }

    /** The limit that is exceeded; the active one is looked at first. */
    method Check(now: real) returns (e: BudgetError)
      requires Valid()
      ensures var wall := now - begin;
              e == if wall - Paused(View(), now) > activeLimit then ActiveExceeded
                   else if wall > wallLimit then WallExceeded else Fine
    {
      var wall, paused, active := Elapsed(now);
      if active > activeLimit { return ActiveExceeded; }
      if wall > wallLimit { return WallExceeded; }
      return Fine;
    }
  }

  // ---- the budget as a property of the calls ----

  /** A call of set_paused. */
  datatype Call = Call(flag: bool, now: real)

  function Fold(b: Budget, calls: seq<Call>): Budget
    decreases |calls|
  {
    if calls == [] then b else Fold(AfterSet(b, calls[0].flag, calls[0].now), calls[1..])
  }

  /** The clock never goes back: from t through the calls to now. */
  ghost predicate Monotone(t: real, calls: seq<Call>, now: real)
    decreases |calls|
  {
    if calls == [] then t <= now else t <= calls[0].now && Monotone(calls[0].now, calls[1..], now)
  }

  /** The time spent with the last call's flag equal to `flag`: the lengths of those intervals
      between calls, from t on with the flag `last`. */
  function TimeIn(flag: bool, t: real, last: bool, calls: seq<Call>, now: real): real
    decreases |calls|
  {
    var until := if calls == [] then now else calls[0].now;
    (if last == flag then until - t else 0.0)
    + (if calls == [] then 0.0 else TimeIn(flag, calls[0].now, calls[0].flag, calls[1..], now))
  }

  ghost predicate Agrees(b: Budget, t: real, last: bool) {
    (b.pauseStart.Some? <==> last) && (last ==> b.pauseStart.value <= t)
  }

  lemma {:induction false} PausedIs(b: Budget, t: real, last: bool, calls: seq<Call>, now: real)
    requires Agrees(b, t, last) && Monotone(t, calls, now)
    ensures Paused(Fold(b, calls), now) == Paused(b, t) + TimeIn(true, t, last, calls, now)
    ensures Fold(b, calls).begin == b.begin
    decreases |calls|
  {
    if calls != [] {
      PausedIs(AfterSet(b, calls[0].flag, calls[0].now), calls[0].now, calls[0].flag, calls[1..], now);
    }
  }

  lemma {:induction false} TimesAddUp(t: real, last: bool, calls: seq<Call>, now: real)
    requires Monotone(t, calls, now)
    ensures TimeIn(true, t, last, calls, now) + TimeIn(false, t, last, calls, now) == now - t
    ensures TimeIn(true, t, last, calls, now) >= 0.0 && TimeIn(false, t, last, calls, now) >= 0.0
    decreases |calls|
  {
    if calls != [] { TimesAddUp(calls[0].now, calls[0].flag, calls[1..], now); }
  }

  /** A budget's paused and active times are the lengths of the paused and the running intervals,
      they add up to the wall time, and the guard against a negative active time never binds. */
  lemma BudgetTimes(begin: real, calls: seq<Call>, now: real)
    requires Monotone(begin, calls, now)
    ensures var b := Fold(Budget(begin, None, 0.0), calls);
            var active := now - b.begin - Paused(b, now);
            && Paused(b, now) == TimeIn(true, begin, false, calls, now)
            && active == TimeIn(false, begin, false, calls, now) && active >= 0.0
            && now - begin == Paused(b, now) + active
  {
    PausedIs(Budget(begin, None, 0.0), begin, false, calls, now);
    TimesAddUp(begin, false, calls, now);
  }

  /** From `now` to a later time the active time grows by what passed, or stays when paused. */
  lemma {:induction false} ActiveGrows(t: real, last: bool, calls: seq<Call>, now: real, later: real)
    requires Monotone(t, calls, now) && now <= later
    ensures TimeIn(false, t, last, calls, later) == TimeIn(false, t, last, calls, now)
              + (if (if calls == [] then last else calls[|calls| - 1].flag) then 0.0 else later - now)
    decreases |calls|
  {
    if calls != [] { ActiveGrows(calls[0].now, calls[0].flag, calls[1..], now, later); }
  }

  /** Calls made after `now` never take active time back. */
  lemma {:induction false} ActiveNeverFalls(t: real, last: bool, calls: seq<Call>, now: real, more: seq<Call>, later: real)
    requires Monotone(t, calls, now) && Monotone(now, more, later)
    ensures TimeIn(false, t, last, calls + more, later) >= TimeIn(false, t, last, calls, now)
    decreases |calls|
  {
    if calls == [] {
      assert calls + more == more;
      if more == [] {
      } else {
        TimesAddUp(more[0].now, more[0].flag, more[1..], later);
      }
    } else {
      assert (calls + more)[0] == calls[0] && (calls + more)[1..] == calls[1..] + more;
      ActiveNeverFalls(calls[0].now, calls[0].flag, calls[1..], now, more, later);
    }
  }
}

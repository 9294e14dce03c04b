/** The timer of src/timer.c: one timer thread and any number of devices kept in lockstep, as a transition system.

    A step is one locked section, or one part of it that ends in a condition wait. `done` is set by a device under one lock
    and cleared by the timer under another; the sleeping states of both sides are explicit, so that a signal sent before its
    receiver sleeps would be lost here as it would be in the source.
 */
module Barrier {
  import opened Counting

  /** Where a device thread is: doing its slot's work, about to test `done` in next_slot, asleep in it, or detached. */
  datatype Where = Working | Testing | Asleep | Gone

  /** `reported` counts the slots the device has reported with next_slot. */
  datatype Dev = Dev(done: bool, fsh: bool, at: Where, reported: nat)

  /** Where the timer thread is: waiting for device k with `fsh` finished devices seen so far in this scan, releasing
      device k, or out of its loop. */
  datatype Timer = Scan(k: nat, fsh: nat, asleep: bool) | Release(k: nat, fsh: nat) | Exited

  datatype State = State(devs: seq<Dev>, timer: Timer, time: nat)

  datatype Action =
    | Report(i: nat)         // next_slot, first section: done = 1 and signal
    | Detach(i: nat)         // detach_event: fsh = 1 and signal
    | Test(i: nat)           // next_slot, second section: test done, sleep or go on
    | DevWakes(i: nat)       // a spurious wake-up
    | TimerTests             // the timer tests device k, sleeps or goes on
    | TimerWakes             // a spurious wake-up
    | Tick                   // the scan is over: the clock advances
    | Releases               // done = 0 and signal for device k
    | LoopEnds               // all released: leave if every device was seen finished, else scan again

  function Init(n: nat): State { State(seq(n, _ => Dev(false, false, Working, 0)), Scan(0, 0, false), 0) }

  // ----- steps -----

  predicate Enabled(s: State, a: Action) {
    match a
    case Report(i) => i < |s.devs| && s.devs[i].at == Working
    case Detach(i) => i < |s.devs| && s.devs[i].at == Working
    case Test(i) => i < |s.devs| && s.devs[i].at == Testing
    case DevWakes(i) => i < |s.devs| && s.devs[i].at == Asleep
    case TimerTests => s.timer.Scan? && !s.timer.asleep && s.timer.k < |s.devs|
    case TimerWakes => s.timer.Scan? && s.timer.asleep
    case Tick => s.timer.Scan? && !s.timer.asleep && s.timer.k >= |s.devs|
    case Releases => s.timer.Release? && s.timer.k < |s.devs|
    case LoopEnds => s.timer.Release? && s.timer.k >= |s.devs|
  }

  /** A signal on device i's event condition wakes the timer if it sleeps there. */
  function WakeTimer(t: Timer, i: nat): Timer {
    if t.Scan? && t.asleep && t.k == i then t.(asleep := false) else t
  }

  function Step(s: State, a: Action): State
    requires Enabled(s, a)
  {
    match a
    case Report(i) =>
      var d := s.devs[i];
      s.(devs := s.devs[i := Dev(true, d.fsh, Testing, d.reported + 1)], timer := WakeTimer(s.timer, i))
    case Detach(i) =>
      s.(devs := s.devs[i := s.devs[i].(fsh := true, at := Gone)], timer := WakeTimer(s.timer, i))
    case Test(i) => s.(devs := s.devs[i := s.devs[i].(at := if s.devs[i].done then Asleep else Working)])
    case DevWakes(i) => s.(devs := s.devs[i := s.devs[i].(at := Testing)])
    case TimerTests =>
      var t, d := s.timer, s.devs[s.timer.k];
      s.(timer := if d.done || d.fsh then Scan(t.k + 1, if d.fsh then t.fsh + 1 else t.fsh, false) else t.(asleep := true))
    case TimerWakes => s.(timer := s.timer.(asleep := false))
    case Tick => s.(time := s.time + 1, timer := Release(0, s.timer.fsh))
    case Releases =>
      var t, d := s.timer, s.devs[s.timer.k];
      s.(devs := s.devs[t.k := d.(done := false, at := if d.at == Asleep then Testing else d.at)], timer := Release(t.k + 1, t.fsh))
    case LoopEnds => s.(timer := if s.timer.fsh == |s.devs| then Exited else Scan(0, 0, false))
  }

  // ----- the invariant -----

  /** The timer has let device i into the current slot. */
  predicate Released(s: State, i: nat) {
    s.timer.Release? ==> i < s.timer.k
  }

  predicate DevOk(s: State, i: nat)
    requires i < |s.devs|
  {
    var d := s.devs[i];
    if d.fsh then d.at == Gone && !d.done
    else if d.done then (d.at == Testing || d.at == Asleep) && d.reported == if Released(s, i) then s.time + 1 else s.time
    else (d.at == Testing || d.at == Working) && Released(s, i) && d.reported == s.time
  }

  function Finished(devs: seq<Dev>, k: nat): nat
    requires k <= |devs|
  {
    if k == 0 then 0 else Finished(devs, k - 1) + One(devs[k - 1].fsh)
  }

  predicate TimerOk(s: State) {
    match s.timer
    case Scan(k, f, asleep) =>
      && k <= |s.devs| && f == Finished(s.devs, k)
      && (forall i :: 0 <= i < k ==> s.devs[i].done || s.devs[i].fsh)
      && (asleep ==> k < |s.devs| && !s.devs[k].done && !s.devs[k].fsh)
    case Release(k, f) => k <= |s.devs| && f <= Finished(s.devs, |s.devs|)
    case Exited => forall i :: 0 <= i < |s.devs| ==> s.devs[i].fsh
  }

  ghost predicate Inv(s: State) {
    TimerOk(s) && forall i :: 0 <= i < |s.devs| ==> DevOk(s, i)
  }

  lemma InitInv(n: nat)
    ensures Inv(Init(n))
  {
  }

  lemma {:induction false} FinishedUpdate(devs: seq<Dev>, i: nat, d: Dev, k: nat)
    requires i < |devs| && k <= |devs|
    ensures Finished(devs[i := d], k) == Finished(devs, k) + if i < k && d.fsh != devs[i].fsh then (if d.fsh then 1 else -1) else 0
  {
    if k > 0 {
      FinishedUpdate(devs, i, d, k - 1);
    }
  }

  lemma {:induction false} FinishedAll(devs: seq<Dev>, k: nat)
    requires k <= |devs|
    ensures Finished(devs, k) <= k
    ensures Finished(devs, k) == k <==> forall i :: 0 <= i < k ==> devs[i].fsh
  {
    if k > 0 {
      FinishedAll(devs, k - 1);
    }
  }

  lemma DeviceStepInv(s: State, a: Action)
    requires Inv(s) && Enabled(s, a) && (a.Report? || a.Detach? || a.Test? || a.DevWakes?)
    ensures Inv(Step(s, a))
  {
    var s' := Step(s, a);
    assert DevOk(s, a.i);
    var n := if s.timer.Scan? then s.timer.k else |s.devs|;
    FinishedUpdate(s.devs, a.i, s'.devs[a.i], n);
    forall j | 0 <= j < |s'.devs| ensures DevOk(s', j) {
      assert DevOk(s, j);
    }
  }

  lemma TimerStepInv(s: State, a: Action)
    requires Inv(s) && Enabled(s, a) && (a.TimerTests? || a.TimerWakes? || a.Tick? || a.LoopEnds?)
    ensures Inv(Step(s, a))
  {
    var s' := Step(s, a);
    FinishedAll(s.devs, |s.devs|);
    forall j | 0 <= j < |s'.devs| ensures DevOk(s', j) {
      assert DevOk(s, j);
    }
  }

  lemma ReleaseInv(s: State)
    requires Inv(s) && Enabled(s, Releases)
    ensures Inv(Step(s, Releases))
  {
    var s', k := Step(s, Releases), s.timer.k;
    FinishedUpdate(s.devs, k, s'.devs[k], |s.devs|);
    forall j | 0 <= j < |s'.devs| ensures DevOk(s', j) {
      assert DevOk(s, j);
    }
  }

  lemma StepInv(s: State, a: Action)
    requires Inv(s) && Enabled(s, a)
    ensures Inv(Step(s, a))
  {
    match a
    case Releases => ReleaseInv(s);
    case Report(_) => DeviceStepInv(s, a);
    case Detach(_) => DeviceStepInv(s, a);
    case Test(_) => DeviceStepInv(s, a);
    case DevWakes(_) => DeviceStepInv(s, a);
    case _ => TimerStepInv(s, a);
  }

  // ----- runs -----

  ghost predicate Trace(s: State, actions: seq<Action>)
    decreases |actions|
  {
    actions == [] || (Enabled(s, actions[0]) && Trace(Step(s, actions[0]), actions[1..]))
  }

  ghost function After(s: State, actions: seq<Action>): State
    requires Trace(s, actions)
    decreases |actions|
  {
    if actions == [] then s else After(Step(s, actions[0]), actions[1..])
  }

  lemma {:induction false} RunInv(s: State, actions: seq<Action>)
    requires Inv(s) && Trace(s, actions)
    ensures Inv(After(s, actions))
    decreases |actions|
  {
    if actions != [] {
      StepInv(s, actions[0]);
      RunInv(Step(s, actions[0]), actions[1..]);
    }
  }

  // ----- lockstep -----

  /** Every unfinished device has reported as many slots as the clock shows, or one more. */
  lemma Lockstep(n: nat, actions: seq<Action>, i: nat)
    requires Trace(Init(n), actions) && i < |After(Init(n), actions).devs| && !After(Init(n), actions).devs[i].fsh
    ensures var s := After(Init(n), actions);
            s.devs[i].reported == s.time || s.devs[i].reported == s.time + 1
  {
    InitInv(n);
    RunInv(Init(n), actions);
    assert DevOk(After(Init(n), actions), i);
  }

  /** A device at work on a slot has been let in only after every unfinished device reported the slot before. */
  lemma NoneRunsAhead(n: nat, actions: seq<Action>, i: nat, j: nat)
    requires Trace(Init(n), actions)
    requires var s := After(Init(n), actions);
             i < |s.devs| && j < |s.devs| && s.devs[i].at == Working && !s.devs[j].fsh
    ensures var s := After(Init(n), actions);
            s.devs[i].reported <= s.devs[j].reported <= s.devs[i].reported + 1
  {
    InitInv(n);
    RunInv(Init(n), actions);
    assert DevOk(After(Init(n), actions), i) && DevOk(After(Init(n), actions), j);
  }

  // ----- progress -----

  /** A sleeper's condition really fails: whoever makes it true also wakes the sleeper. */
  lemma NoLostWakeUp(n: nat, actions: seq<Action>)
    requires Trace(Init(n), actions)
    ensures var s := After(Init(n), actions);
            && (s.timer.Scan? && s.timer.asleep ==> s.timer.k < |s.devs| && !s.devs[s.timer.k].done && !s.devs[s.timer.k].fsh)
            && (forall i :: 0 <= i < |s.devs| && s.devs[i].at == Asleep ==> s.devs[i].done)
  {
    InitInv(n);
    RunInv(Init(n), actions);
    var s := After(Init(n), actions);
    forall i | 0 <= i < |s.devs| && s.devs[i].at == Asleep ensures s.devs[i].done {
      assert DevOk(s, i);
    }
  }

  predicate Spurious(a: Action) { a.DevWakes? || a.TimerWakes? }

  /** Until the timer has left its loop some proper step is possible. */
  lemma SomeStep(s: State) returns (a: Action)
    requires Inv(s) && !s.timer.Exited?
    ensures Enabled(s, a) && !Spurious(a)
  {
    match s.timer
    case Scan(k, f, asleep) =>
      if !asleep {
        a := if k < |s.devs| then TimerTests else Tick;
      } else {
        assert DevOk(s, k);
        a := if s.devs[k].at == Working then Report(k) else Test(k);
      }
    case Release(k, f) => a := if k < |s.devs| then Releases else LoopEnds;
  }

  ghost predicate AllFinished(s: State) { forall i :: 0 <= i < |s.devs| ==> s.devs[i].fsh }

  /** The scan that ends with the tick has counted every device as finished exactly when every device is. */
  lemma ScanCounts(s: State)
    requires Inv(s) && Enabled(s, Tick)
    ensures s.timer.fsh == |s.devs| <==> AllFinished(s)
  {
    FinishedAll(s.devs, |s.devs|);
  }

  /** Until the round is closed the timer keeps its count. */
  lemma {:induction false} RoundGoesOn(s: State, actions: seq<Action>)
    requires Trace(s, actions) && s.timer.Release? && LoopEnds !in actions
    ensures After(s, actions).timer.Release? && After(s, actions).timer.fsh == s.timer.fsh
    ensures |After(s, actions).devs| == |s.devs|
    decreases |actions|
  {
    if actions != [] {
      RoundGoesOn(Step(s, actions[0]), actions[1..]);
    }
  }

  lemma {:induction false} TraceJoin(s: State, a: seq<Action>, b: seq<Action>)
    requires Trace(s, a + b)
    ensures Trace(s, a) && Trace(After(s, a), b) && After(s, a + b) == After(After(s, a), b)
    decreases |a|
  {
    if a == [] {
      assert a + b == b;
    } else {
      assert (a + b)[1..] == a[1..] + b;
      TraceJoin(Step(s, a[0]), a[1..], b);
    }
  }

  /** In every run, the round that a tick opens closes with the timer out of its loop exactly when every device was finished at
      that tick; otherwise the timer scans again. */
  lemma ExitsIff(n: nat, past: seq<Action>, round: seq<Action>)
    requires Trace(Init(n), past) && Enabled(After(Init(n), past), Tick) && LoopEnds !in round
    requires Trace(Step(After(Init(n), past), Tick), round + [LoopEnds])
    ensures var last := After(Step(After(Init(n), past), Tick), round + [LoopEnds]);
            && (last.timer == Exited <==> AllFinished(After(Init(n), past)))
            && (last.timer != Exited ==> last.timer == Scan(0, 0, false))
  {
    var s := After(Init(n), past);
    InitInv(n);
    RunInv(Init(n), past);
    ScanCounts(s);
    var s1 := Step(s, Tick);
    TraceJoin(s1, round, [LoopEnds]);
    RoundGoesOn(s1, round);
    assert [LoopEnds][1..] == [];
  }

  /** Steps to the exit once every device is finished: the rest of this round, and a whole one if this round's scan began before
      that. */
  function ExitRank(s: State): nat {
    var n := |s.devs|;
    match s.timer
    case Scan(k, _, asleep) => (if k < n then n - k else 0) + n + 2
    case Release(k, f) => (if k < n then n - k else 0) + 1 + if f == n then 0 else 2 * n + 2
    case Exited => 0
  }

  lemma FinishedStep(s: State, a: Action)
    requires Inv(s) && AllFinished(s) && Enabled(s, a)
    ensures AllFinished(Step(s, a)) && |Step(s, a).devs| == |s.devs| && ExitRank(Step(s, a)) < ExitRank(s)
  {
    FinishedAll(s.devs, |s.devs|);
    forall i | 0 <= i < |s.devs| ensures s.devs[i].at == Gone {
      assert DevOk(s, i);
    }
    if s.timer.Scan? {
      FinishedAll(s.devs, s.timer.k);
    }
  }

  lemma {:induction false} FinishedRun(s: State, actions: seq<Action>)
    requires Inv(s) && AllFinished(s) && Trace(s, actions)
    ensures Inv(After(s, actions)) && |actions| + ExitRank(After(s, actions)) <= ExitRank(s)
    decreases |actions|
  {
    if actions != [] {
      StepInv(s, actions[0]);
      FinishedStep(s, actions[0]);
      FinishedRun(Step(s, actions[0]), actions[1..]);
    }
  }

  /** Once every device is finished, nothing but the timer can move, no wake-up is spurious, and after at most 3n+3 steps the timer
      is out of its loop: a run that cannot go on has left it. */
  lemma LeavesInTime(n: nat, past: seq<Action>, actions: seq<Action>)
    requires Trace(Init(n), past) && AllFinished(After(Init(n), past)) && Trace(After(Init(n), past), actions)
    ensures |actions| <= 3 * n + 3
    ensures |actions| == 3 * n + 3 || (forall a :: !Enabled(After(After(Init(n), past), actions), a)) ==>
              After(After(Init(n), past), actions).timer == Exited
  {
    var s := After(Init(n), past);
    InitInv(n);
    RunInv(Init(n), past);
    SameDevices(Init(n), past);
    FinishedRun(s, actions);
    var t := After(s, actions);
    if t.timer != Exited {
      var a := SomeStep(t);
      assert Enabled(t, a);
    }
  }

  /** Once it has left, every device is finished and nothing is left to do. */
  lemma ExitedIsOver(s: State, a: Action)
    requires Inv(s) && s.timer.Exited?
    ensures !Enabled(s, a)
  {
    if a.Report? || a.Detach? || a.Test? || a.DevWakes? {
      if a.i < |s.devs| {
        assert DevOk(s, a.i);
      }
    }
  }

  // ----- how long a slot can take -----

  /** Steps device i can still take before the clock must advance. */
  function DevRank(s: State, i: nat): nat
    requires i < |s.devs|
  {
    var d := s.devs[i];
    if d.fsh then 0
    else if !Released(s, i) then (if d.at == Testing then 6 else 5)
    else if d.done then (if d.at == Testing then 1 else 0)
    else (if d.at == Testing then 4 else 3)
  }

  function Ranks(s: State, k: nat): nat
    requires k <= |s.devs|
  {
    if k == 0 then 0 else Ranks(s, k - 1) + DevRank(s, k - 1)
  }

  function TimerRank(s: State): nat
  {
    var n := |s.devs|;
    match s.timer
    case Scan(k, _, asleep) => 2 * (if k < n then n - k else 0) + if asleep then 0 else 1
    case Release(k, _) => 2 * n + 2 + if k < n then n - k else 0
    case Exited => 0
  }

  function Rank(s: State): nat { Ranks(s, |s.devs|) + TimerRank(s) }

  lemma {:induction false} RanksChange(s: State, s': State, i: nat, k: nat)
    requires |s'.devs| == |s.devs| && k <= |s.devs| && i < |s.devs|
    requires forall j :: 0 <= j < |s.devs| && j != i ==> DevRank(s', j) == DevRank(s, j)
    ensures Ranks(s', k) == Ranks(s, k) + if i < k then DevRank(s', i) - DevRank(s, i) else 0
  {
    if k > 0 {
      RanksChange(s, s', i, k - 1);
    }
  }

  lemma {:induction false} RanksSame(s: State, s': State, k: nat)
    requires |s'.devs| == |s.devs| && k <= |s.devs|
    requires forall j :: 0 <= j < |s.devs| ==> DevRank(s', j) == DevRank(s, j)
    ensures Ranks(s', k) == Ranks(s, k)
  {
    if k > 0 {
      RanksSame(s, s', k - 1);
    }
  }

  lemma {:induction false} RanksBound(s: State, k: nat)
    requires k <= |s.devs|
    ensures Ranks(s, k) <= 6 * k
  {
    if k > 0 {
      RanksBound(s, k - 1);
    }
  }

  /** Every proper step but the tick brings the next tick nearer; a spurious wake-up sets it back by one. */
  lemma StepRank(s: State, a: Action)
    requires Inv(s) && Enabled(s, a) && !a.Tick?
    ensures if Spurious(a) then Rank(Step(s, a)) == Rank(s) + 1 else Rank(Step(s, a)) < Rank(s)
  {
    var s' := Step(s, a);
    if a.Report? || a.Detach? || a.Test? || a.DevWakes? {
      assert DevOk(s, a.i);
      RanksChange(s, s', a.i, |s.devs|);
    } else if a.Releases? {
      assert DevOk(s, s.timer.k);
      RanksChange(s, s', s.timer.k, |s.devs|);
    } else {
      RanksSame(s, s', |s.devs|);
    }
  }

  function SpuriousCount(actions: seq<Action>): nat {
    if actions == [] then 0 else (if Spurious(actions[0]) then 1 else 0) + SpuriousCount(actions[1..])
  }

  lemma {:induction false} SlotBound(s: State, actions: seq<Action>)
    requires Inv(s) && Trace(s, actions) && forall i :: 0 <= i < |actions| ==> !actions[i].Tick?
    ensures |actions| <= Rank(s) + 2 * SpuriousCount(actions)
    decreases |actions|
  {
    if actions != [] {
      StepInv(s, actions[0]);
      StepRank(s, actions[0]);
      SlotBound(Step(s, actions[0]), actions[1..]);
    }
  }

  lemma {:induction false} SameDevices(s: State, actions: seq<Action>)
    requires Trace(s, actions)
    ensures |After(s, actions).devs| == |s.devs|
    decreases |actions|
  {
    if actions != [] {
      SameDevices(Step(s, actions[0]), actions[1..]);
    }
  }

  /** The clock cannot stand still: from any reachable state, n devices and the timer can take at most 9n+2 steps (and two more
      for every spurious wake-up) before the clock advances or the timer has left; and SomeStep says they never get stuck. */
  lemma ClockAdvances(n: nat, past: seq<Action>, actions: seq<Action>)
    requires Trace(Init(n), past) && Trace(After(Init(n), past), actions)
    requires forall i :: 0 <= i < |actions| ==> !actions[i].Tick?
    ensures |actions| <= 9 * n + 2 + 2 * SpuriousCount(actions)
  {
    var s := After(Init(n), past);
    InitInv(n);
    RunInv(Init(n), past);
    SameDevices(Init(n), past);
    SlotBound(s, actions);
    RanksBound(s, n);
  }
}

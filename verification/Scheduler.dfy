/** The multi-level queue scheduler on values (src/sched.c), one call at a time.

    There are 140 FIFO queues. Queue i has a budget of 140-i slots; every dispatch from it costs one, and when no non-empty
    queue has a slot left, a call gives all queues their budgets back.
 */
module Scheduler {

  const MAX_PRIO: nat := 140

  /** All budgets together: 140 + 139 + ... + 1. */
  const EPOCH: nat := 9870

  type Pid = nat

  datatype Sched = Sched(queues: seq<seq<Pid>>, slots: seq<nat>)

  datatype Dispatch = Nothing | From(prio: nat, pid: Pid)

  predicate Sized(s: Sched) { |s.queues| == MAX_PRIO && |s.slots| == MAX_PRIO }

  function Budget(i: nat): nat
    requires i < MAX_PRIO
  {
    MAX_PRIO - i
  }

  function FullSlots(): (b: seq<nat>)
    ensures |b| == MAX_PRIO && forall i :: 0 <= i < MAX_PRIO ==> b[i] == MAX_PRIO - i
  {
    seq(MAX_PRIO, i requires 0 <= i < MAX_PRIO => Budget(i))
  }

  function InitSched(): Sched { Sched(seq(MAX_PRIO, _ => []), FullSlots()) }

  predicate Eligible(s: Sched, i: nat)
    requires Sized(s) && i < MAX_PRIO
  {
    s.queues[i] != [] && s.slots[i] > 0
  }

  /** The first non-empty queue with slots left at or after i, or 140. */
  function FirstEligible(s: Sched, i: nat): (r: nat)
    requires Sized(s) && i <= MAX_PRIO
    ensures i <= r <= MAX_PRIO
    ensures r < MAX_PRIO ==> Eligible(s, r)
    ensures forall j :: i <= j < r ==> !Eligible(s, j)
    decreases MAX_PRIO - i
  {
    if i == MAX_PRIO || Eligible(s, i) then i else FirstEligible(s, i + 1)
  }

  predicate AllEmpty(s: Sched)
    requires Sized(s)
  {
    forall i :: 0 <= i < MAX_PRIO ==> s.queues[i] == []
  }

  function Take(s: Sched, i: nat): Sched
    requires Sized(s) && i < MAX_PRIO && Eligible(s, i)
  {
    Sched(s.queues[i := s.queues[i][1..]], s.slots[i := s.slots[i] - 1])
  }

  function Reset(s: Sched): Sched { s.(slots := FullSlots()) }

  /** get_mlq_proc, as one atomic call. The scan that finds every budget spent resets them; it starts over, from queue 1,
      only if queue 139 holds a process, and returns nothing otherwise. */
  function Get(s: Sched): (r: (Sched, Dispatch))
    requires Sized(s)
    ensures Sized(r.0)
    ensures r.1.Nothing? ==> r.0.queues == s.queues
    ensures r.1.From? ==>
              var i := r.1.prio;
              && i < MAX_PRIO && s.queues[i] != [] && r.1.pid == s.queues[i][0]
              && r.0.queues == s.queues[i := s.queues[i][1..]]
  {
    var i := FirstEligible(s, 0);
    if AllEmpty(s) then (s, Nothing)
    else if i < MAX_PRIO then (Take(s, i), From(i, s.queues[i][0]))
    else if s.queues[MAX_PRIO - 1] == [] then (Reset(s), Nothing)
    else
      var j := FirstEligible(Reset(s), 1);
      RestartFinds(s);
      (Take(Reset(s), j), From(j, s.queues[j][0]))
  }

  /** put_mlq_proc and add_mlq_proc */
  function Put(s: Sched, prio: nat, pid: Pid): Sched
    requires Sized(s) && prio < MAX_PRIO
  {
    s.(queues := s.queues[prio := s.queues[prio] + [pid]])
  }

  /** Queue 139 alone is enough for the restarted scan to find a process, so there is no second restart. */
  lemma RestartFinds(s: Sched)
    requires Sized(s) && s.queues[MAX_PRIO - 1] != []
    ensures FirstEligible(Reset(s), 1) < MAX_PRIO
    ensures s.queues[FirstEligible(Reset(s), 1)] != []
    ensures forall j :: 1 <= j < FirstEligible(Reset(s), 1) ==> s.queues[j] == []
  {
    var r := Reset(s);
    assert Eligible(r, MAX_PRIO - 1);
    forall j | 1 <= j < FirstEligible(r, 1) ensures s.queues[j] == [] {
      assert !Eligible(r, j);
    }
  }

  // ----- which process a call dispatches -----

  /** Some budget is left for a waiting process. */
  ghost predicate AnyEligible(s: Sched)
    requires Sized(s)
  {
    exists i :: 0 <= i < MAX_PRIO && Eligible(s, i)
  }

  ghost predicate Lowest(s: Sched, i: nat)
    requires Sized(s)
  {
    i < MAX_PRIO && s.queues[i] != [] && forall j :: 0 <= j < i ==> s.queues[j] == []
  }

  /** A call dispatches the head of the lowest-numbered queue that has both a process and a slot. Budgets are reset only
      when there is no such queue. */
  lemma GetChooses(s: Sched)
    requires Sized(s)
    ensures AnyEligible(s) ==>
              var (s', d) := Get(s);
              && d.From? && d.prio < MAX_PRIO && Eligible(s, d.prio) && (forall j :: 0 <= j < d.prio ==> !Eligible(s, j))
              && d.pid == s.queues[d.prio][0]
              && s' == Sched(s.queues[d.prio := s.queues[d.prio][1..]], s.slots[d.prio := s.slots[d.prio] - 1])
    ensures !AnyEligible(s) && !AllEmpty(s) ==>
              var (s', d) := Get(s);
              match d
              case Nothing => s'.slots == FullSlots() && s'.queues == s.queues
              case From(i, pid) =>
                && i < MAX_PRIO && s.queues[i] != [] && pid == s.queues[i][0]
                && s' == Sched(s.queues[i := s.queues[i][1..]], FullSlots()[i := FullSlots()[i] - 1])
  {
    if s.queues[MAX_PRIO - 1] != [] {
      RestartFinds(s);
    }
  }

  /** A call returns nothing only when nothing waits, or as a reset with queue 139 empty. */
  lemma NothingIff(s: Sched)
    requires Sized(s)
    ensures Get(s).1 == Nothing <==> AllEmpty(s) || (!AnyEligible(s) && s.queues[MAX_PRIO - 1] == [])
  {
  }

  /** After a call that returned nothing while processes waited, the next call dispatches the lowest waiting one. */
  lemma NothingOnlyOnce(s: Sched)
    requires Sized(s) && !AllEmpty(s) && Get(s).1 == Nothing
    ensures Get(Get(s).0).1.From? && Lowest(s, Get(Get(s).0).1.prio)
  {
    var r := Get(s).0;
    var k :| 0 <= k < MAX_PRIO && s.queues[k] != [];
    assert Eligible(r, k);
    forall j | 0 <= j < FirstEligible(r, 0) ensures s.queues[j] == [] {
      assert !Eligible(r, j);
    }
  }

  /** A call that resets and dispatches restarts its scan at queue 1, so it takes the lowest waiting process exactly when
      queue 0 is empty. */
  lemma RestartSkipsQueueZero(s: Sched)
    requires Sized(s) && !AnyEligible(s) && Get(s).1.From?
    ensures Lowest(s, Get(s).1.prio) <==> s.queues[0] == []
    ensures forall j :: 1 <= j < Get(s).1.prio ==> s.queues[j] == []
  {
    RestartFinds(s);
  }

  /** With processes in queues 0 and 139 alone and both budgets spent, a call serves queue 139 and passes queue 0 over. */
  lemma QueueZeroPassedOver(s: Sched)
    requires Sized(s) && s.queues[0] != [] && s.queues[MAX_PRIO - 1] != [] && s.slots[0] == s.slots[MAX_PRIO - 1] == 0
    requires forall i :: 0 < i < MAX_PRIO - 1 ==> s.queues[i] == []
    ensures Get(s).1 == From(MAX_PRIO - 1, s.queues[MAX_PRIO - 1][0])
  {
    assert forall i :: 0 <= i < MAX_PRIO ==> !Eligible(s, i);
    RestartFinds(s);
  }

  // ----- budgets -----

  ghost predicate WithinBudget(s: Sched) {
    Sized(s) && forall i :: 0 <= i < MAX_PRIO ==> s.slots[i] <= Budget(i)
  }

  lemma GetWithinBudget(s: Sched)
    requires WithinBudget(s)
    ensures WithinBudget(Get(s).0)
  {
    if s.queues[MAX_PRIO - 1] != [] {
      RestartFinds(s);
    }
  }

  // ----- the scan -----

  /** The scan of get_mlq_proc, started on s, is at index k of queues that now read v, after a restart or before one. */
  ghost predicate Scanning(s: Sched, v: Sched, k: nat, restarted: bool) {
    && Sized(s) && Sized(v) && k <= MAX_PRIO && !AllEmpty(s)
    && if restarted then
         && v == Reset(s) && FirstEligible(s, 0) == MAX_PRIO && s.queues[MAX_PRIO - 1] != []
         && 1 <= k < MAX_PRIO && FirstEligible(v, k) == FirstEligible(v, 1)
       else
         && FirstEligible(s, k) == FirstEligible(s, 0)
         && v == (if k < MAX_PRIO then s else Reset(s))
         && (k == MAX_PRIO ==> s.queues[MAX_PRIO - 1] == [])
  }

  /** Passing a queue that cannot be served. In a restarted scan that is never queue 139. */
  lemma ScanPass(s: Sched, v: Sched, k: nat, restarted: bool)
    requires Scanning(s, v, k, restarted) && k < MAX_PRIO && !Eligible(v, k)
    ensures k < MAX_PRIO - 1 ==> Scanning(s, v, k + 1, restarted)
    ensures k == MAX_PRIO - 1 ==> !restarted
    ensures k == MAX_PRIO - 1 && v.queues[k] == [] ==> Scanning(s, Reset(v), k + 1, false)
    ensures k == MAX_PRIO - 1 && v.queues[k] != [] ==> Scanning(s, Reset(v), 1, true)
  {
  }

  lemma ScanHit(s: Sched, v: Sched, k: nat, restarted: bool)
    requires Scanning(s, v, k, restarted) && k < MAX_PRIO && Eligible(v, k)
    ensures Get(s) == (Take(v, k), From(k, v.queues[k][0]))
  {
  }

  lemma ScanOver(s: Sched, v: Sched, restarted: bool)
    requires Scanning(s, v, MAX_PRIO, restarted)
    ensures Get(s) == (v, Nothing)
  {
  }

  /** What the scan comes to, from index k on. (A restarted scan always finds queue 139.) */
  function ScanFrom(v: Sched, k: nat, restarted: bool): (Sched, Dispatch)
    requires Sized(v) && k < MAX_PRIO
    decreases !restarted, MAX_PRIO - k
  {
    if Eligible(v, k) then (Take(v, k), From(k, v.queues[k][0]))
    else if k < MAX_PRIO - 1 then ScanFrom(v, k + 1, restarted)
    else if v.queues[k] == [] || restarted then (Reset(v), Nothing)
    else ScanFrom(Reset(v), 1, true)
  }

  /** It is the atomic call. */
  lemma {:induction false} ScanFromIs(s: Sched, v: Sched, k: nat, restarted: bool)
    requires Scanning(s, v, k, restarted) && k < MAX_PRIO
    ensures ScanFrom(v, k, restarted) == Get(s)
    decreases !restarted, MAX_PRIO - k
  {
    if Eligible(v, k) {
      ScanHit(s, v, k, restarted);
    } else {
      ScanPass(s, v, k, restarted);
      if k < MAX_PRIO - 1 {
        ScanFromIs(s, v, k + 1, restarted);
      } else if v.queues[k] == [] {
        ScanOver(s, Reset(v), false);
      } else {
        ScanFromIs(s, Reset(v), 1, true);
      }
    }
  }

  lemma GetIsScan(s: Sched)
    requires Sized(s) && !AllEmpty(s)
    ensures ScanFrom(s, 0, false) == Get(s)
  {
    ScanFromIs(s, s, 0, false);
  }
}

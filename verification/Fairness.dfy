/** Whole runs of the scheduler: first in, first out in every queue, budgets between resets, and a bound on waiting. */
module Fairness {
  import opened Scheduler
  import opened Counting

  /** A run is any mix of get calls and arrivals (new processes, or processes put back). */
  datatype Op = Call | Arrive(prio: nat, pid: Pid)

  predicate OpOk(op: Op) { op.Arrive? ==> op.prio < MAX_PRIO }

  predicate OpsOk(ops: seq<Op>) { forall i :: 0 <= i < |ops| ==> OpOk(ops[i]) }

  function Step(s: Sched, op: Op): (r: Sched)
    requires Sized(s) && OpOk(op)
    ensures Sized(r)
  {
    match op
    case Call => Get(s).0
    case Arrive(prio, pid) => Put(s, prio, pid)
  }

  function Run(s: Sched, ops: seq<Op>): (r: Sched)
    requires Sized(s) && OpsOk(ops)
    ensures Sized(r)
    decreases |ops|
  {
    if ops == [] then s else Run(Step(s, ops[0]), ops[1..])
  }

  /** What one step dispatches from queue i. */
  function ServedBy(s: Sched, op: Op, i: nat): seq<Pid>
    requires Sized(s) && OpOk(op)
  {
    if op.Call? && Get(s).1.From? && Get(s).1.prio == i then [Get(s).1.pid] else []
  }

  /** The processes dispatched from queue i, in order. */
  function Served(s: Sched, ops: seq<Op>, i: nat): seq<Pid>
    requires Sized(s) && OpsOk(ops)
    decreases |ops|
  {
    if ops == [] then [] else ServedBy(s, ops[0], i) + Served(Step(s, ops[0]), ops[1..], i)
  }

  /** The processes that arrive at queue i, in order. */
  function Arrived(ops: seq<Op>, i: nat): seq<Pid> {
    if ops == [] then []
    else (if ops[0].Arrive? && ops[0].prio == i then [ops[0].pid] else []) + Arrived(ops[1..], i)
  }

  function Calls(ops: seq<Op>): nat {
    if ops == [] then 0 else (if ops[0].Call? then 1 else 0) + Calls(ops[1..])
  }

  // ----- order and conservation -----

  lemma StepFifo(s: Sched, op: Op, i: nat)
    requires Sized(s) && OpOk(op) && i < MAX_PRIO
    ensures ServedBy(s, op, i) + Step(s, op).queues[i] == s.queues[i] + Arrived([op], i)
  {
    assert [op][1..] == [];
  }

  /** Every queue is first in, first out, over every run: those served, then those still waiting, are exactly those that
      waited at the start, then those that arrived, in order. No process is lost, repeated or overtaken in its queue. */
  lemma {:induction false} RunFifo(s: Sched, ops: seq<Op>, i: nat)
    requires Sized(s) && OpsOk(ops) && i < MAX_PRIO
    ensures Served(s, ops, i) + Run(s, ops).queues[i] == s.queues[i] + Arrived(ops, i)
    decreases |ops|
  {
    if ops != [] {
      var t := Step(s, ops[0]);
      StepFifo(s, ops[0], i);
      RunFifo(t, ops[1..], i);
      ArrivedFirst(ops, i);
      Chain(ServedBy(s, ops[0], i), Served(t, ops[1..], i), t.queues[i], Run(t, ops[1..]).queues[i],
            s.queues[i], Arrived([ops[0]], i), Arrived(ops[1..], i));
    }
  }

  lemma ArrivedFirst(ops: seq<Op>, i: nat)
    requires ops != []
    ensures Arrived(ops, i) == Arrived([ops[0]], i) + Arrived(ops[1..], i)
  {
    assert [ops[0]][1..] == [];
  }

  lemma Chain(x: seq<Pid>, y: seq<Pid>, t: seq<Pid>, z: seq<Pid>, q: seq<Pid>, a: seq<Pid>, b: seq<Pid>)
    requires x + t == q + a && y + z == t + b
    ensures (x + y) + z == q + (a + b)
  {
    assert (x + y) + z == x + (y + z) == x + (t + b) == (x + t) + b == (q + a) + b;
  }

  // ----- budgets between resets -----

  /** The call gives the budgets back. */
  predicate Resets(s: Sched, op: Op)
    requires Sized(s)
  {
    op.Call? && !AllEmpty(s) && FirstEligible(s, 0) == MAX_PRIO
  }

  predicate NoReset(s: Sched, ops: seq<Op>)
    requires Sized(s) && OpsOk(ops)
    decreases |ops|
  {
    ops == [] || (!Resets(s, ops[0]) && NoReset(Step(s, ops[0]), ops[1..]))
  }

  /** Between resets, every dispatch from queue i costs it one slot, so it has at most 140-i dispatches. */
  lemma {:induction false} BudgetBetweenResets(s: Sched, ops: seq<Op>, i: nat)
    requires WithinBudget(s) && OpsOk(ops) && i < MAX_PRIO && NoReset(s, ops)
    ensures |Served(s, ops, i)| + Run(s, ops).slots[i] == s.slots[i] <= MAX_PRIO - i
    decreases |ops|
  {
    if ops != [] {
      GetWithinBudget(s);
      BudgetBetweenResets(Step(s, ops[0]), ops[1..], i);
    }
  }

  /** Budgets stay within bounds in every run. */
  lemma {:induction false} RunWithinBudget(s: Sched, ops: seq<Op>)
    requires WithinBudget(s) && OpsOk(ops)
    ensures WithinBudget(Run(s, ops))
    decreases |ops|
  {
    if ops != [] {
      GetWithinBudget(s);
      RunWithinBudget(Step(s, ops[0]), ops[1..]);
    }
  }

  // ----- waiting -----

  /** Sums of budgets are at most k + (k-1) + ... + 1. */
  lemma {:induction false} SumBound(slots: seq<nat>)
    requires forall i :: 0 <= i < |slots| ==> slots[i] <= |slots| - i
    ensures 2 * Sum(slots) <= |slots| * (|slots| + 1)
    ensures (forall i :: 0 <= i < |slots| ==> slots[i] == |slots| - i) ==> 2 * Sum(slots) == |slots| * (|slots| + 1)
  {
    if slots != [] {
      var k := |slots|;
      SumBound(slots[1..]);
      assert k * (k + 1) == (k - 1) * k + 2 * k;
    }
  }

  lemma EpochSum(s: Sched)
    requires WithinBudget(s)
    ensures Sum(s.slots) <= EPOCH && Sum(FullSlots()) == EPOCH
  {
    SumBound(s.slots);
    SumBound(FullSlots());
  }

  /** How many budgets of w slots it takes to serve n. */
  function Epochs(n: nat, w: nat): nat
    requires w > 0
  {
    if n == 0 then 0 else 1 + Epochs(if n > w then n - w else 0, w)
  }

  /** An upper bound on the calls until queue i has served `need` more processes: the slots left in this epoch, and a whole
      epoch (with its reset) for every budget of queue i still needed after it. */
  function Wait(s: Sched, i: nat, need: nat): nat
    requires Sized(s) && i < MAX_PRIO
  {
    Sum(s.slots) + (EPOCH + 1) * Epochs(if need > s.slots[i] then need - s.slots[i] else 0, MAX_PRIO - i)
  }

  lemma OneSlotLess(s: Sched, t: Sched, i: nat, need: nat, left: nat)
    requires Sized(s) && Sized(t) && i < MAX_PRIO && Sum(t.slots) == Sum(s.slots) - 1
    requires (left == need && t.slots[i] == s.slots[i]) || (left + 1 == need && t.slots[i] + 1 == s.slots[i])
    ensures Wait(t, i, left) == Wait(s, i, need) - 1
  {
  }

  /** A dispatch within the epoch costs one slot; if it serves queue i, the need and the queue's slots drop together. */
  lemma DispatchShortensWait(s: Sched, i: nat, need: nat)
    requires WithinBudget(s) && i < MAX_PRIO && 0 < need <= |s.queues[i]| && FirstEligible(s, 0) < MAX_PRIO
    ensures Wait(Step(s, Call), i, need - |ServedBy(s, Call, i)|) == Wait(s, i, need) - 1
  {
    var j := FirstEligible(s, 0);
    SumUpdate(s.slots, j, s.slots[j] - 1);
    assert Get(s) == (Take(s, j), From(j, s.queues[j][0]));
    OneSlotLess(s, Take(s, j), i, need, need - |ServedBy(s, Call, i)|);
  }

  lemma AfterReset(t: Sched, i: nat, need: nat, got: nat)
    requires WithinBudget(t) && i < MAX_PRIO && got <= need && t.slots[i] + got == MAX_PRIO - i
    ensures var w := MAX_PRIO - i;
            Wait(t, i, need - got) <= EPOCH + (EPOCH + 1) * Epochs(if need > w then need - w else 0, w)
  {
    EpochSum(t);
    var w := MAX_PRIO - i;
    assert (if need - got > t.slots[i] then need - got - t.slots[i] else 0) == if need > w then need - w else 0;
  }

  lemma ResetSlots(s: Sched, i: nat)
    requires Sized(s) && i < MAX_PRIO && s.queues[i] != [] && FirstEligible(s, 0) == MAX_PRIO
    ensures s.slots[i] == 0 && Step(s, Call).slots[i] + |ServedBy(s, Call, i)| == MAX_PRIO - i
  {
    assert !Eligible(s, i);
    if Get(s).1.From? {
      RestartFinds(s);
    }
  }

  /** A reset finds queue i without slots, so it buys one of the budgets that were still needed. */
  lemma ResetShortensWait(s: Sched, i: nat, need: nat)
    requires WithinBudget(s) && i < MAX_PRIO && 0 < need <= |s.queues[i]| && FirstEligible(s, 0) == MAX_PRIO
    ensures Wait(Step(s, Call), i, need - |ServedBy(s, Call, i)|) < Wait(s, i, need)
  {
    ResetSlots(s, i);
    GetWithinBudget(s);
    AfterReset(Step(s, Call), i, need, |ServedBy(s, Call, i)|);
  }

  /** Every call brings a waiting process nearer, whichever queue it serves, and even if it serves none. */
  lemma CallShortensWait(s: Sched, i: nat, need: nat)
    requires WithinBudget(s) && i < MAX_PRIO && 0 < need <= |s.queues[i]|
    ensures Wait(Step(s, Call), i, need - |ServedBy(s, Call, i)|) < Wait(s, i, need)
  {
    if FirstEligible(s, 0) < MAX_PRIO {
      DispatchShortensWait(s, i, need);
    } else {
      ResetShortensWait(s, i, need);
    }
  }

  lemma StepKeepsNeed(s: Sched, op: Op, i: nat, need: nat)
    requires Sized(s) && OpOk(op) && i < MAX_PRIO && need <= |s.queues[i]|
    ensures need - |ServedBy(s, op, i)| <= |Step(s, op).queues[i]|
    ensures op.Arrive? ==> Wait(Step(s, op), i, need) == Wait(s, i, need)
  {
  }

  /** After that many calls, queue i has served that many processes, whatever arrived meanwhile. */
  lemma {:induction false} ServedInTime(s: Sched, ops: seq<Op>, i: nat, need: nat)
    requires WithinBudget(s) && OpsOk(ops) && i < MAX_PRIO && need <= |s.queues[i]|
    requires Calls(ops) >= Wait(s, i, need)
    ensures |Served(s, ops, i)| >= need
    decreases |ops|
  {
    if need > 0 {
      SumAtLeast(s.slots, i);
      assert Wait(s, i, need) > 0;
      var t, got := Step(s, ops[0]), |ServedBy(s, ops[0], i)|;
      GetWithinBudget(s);
      StepKeepsNeed(s, ops[0], i, need);
      if ops[0].Call? {
        CallShortensWait(s, i, need);
      }
      ServedInTime(t, ops[1..], i, need - got);
    }
  }

  lemma {:induction false} EpochsBound(n: nat, w: nat)
    requires w > 0
    ensures Epochs(n, w) <= n
    ensures 0 < n <= w ==> Epochs(n, w) == 1
  {
    if n > 0 {
      EpochsBound(if n > w then n - w else 0, w);
    }
  }

  /** Epochs is the quotient rounded up. */
  lemma {:induction false} EpochsIsCeiling(n: nat, w: nat)
    requires w > 0
    ensures n <= w * Epochs(n, w) < n + w
  {
    if n > w {
      EpochsIsCeiling(n - w, w);
      assert w * Epochs(n, w) == w + w * Epochs(n - w, w);
    } else if n > 0 {
      assert Epochs(n, w) == 1;
    }
  }

  lemma {:induction false} EpochsMonotone(m: nat, n: nat, w: nat)
    requires w > 0 && m <= n
    ensures Epochs(m, w) <= Epochs(n, w)
  {
    if m > 0 {
      EpochsMonotone(if m > w then m - w else 0, if n > w then n - w else 0, w);
    }
  }

  lemma EpochTimes(a: nat, b: nat)
    requires a <= b
    ensures (EPOCH + 1) * a <= (EPOCH + 1) * b
  {
  }

  lemma WaitBound(s: Sched, i: nat, k: nat)
    requires WithinBudget(s) && i < MAX_PRIO
    ensures Wait(s, i, k + 1) <= EPOCH + (EPOCH + 1) * Epochs(k + 1, MAX_PRIO - i)
  {
    EpochSum(s);
    var rest: nat := if k + 1 > s.slots[i] then k + 1 - s.slots[i] else 0;
    EpochsMonotone(rest, k + 1, MAX_PRIO - i);
    EpochTimes(Epochs(rest, MAX_PRIO - i), Epochs(k + 1, MAX_PRIO - i));
  }

  lemma SimpleBound(k: nat, w: nat)
    requires w > 0
    ensures EPOCH + (EPOCH + 1) * Epochs(k + 1, w) <= (k + 1) * (2 * EPOCH + 1)
  {
    EpochsBound(k + 1, w);
    var e := Epochs(k + 1, w);
    assert 9870 + 9871 * e <= (k + 1) * 19741;
  }

  /** No process starves: the one at place k of queue i is dispatched within EPOCH + (EPOCH + 1) * ceil((k+1) / (140-i)) calls,
      which is at most (k+1) * (2 * 9870 + 1), whatever processes arrive in the meantime; and it is the (k+1)-st process
      that queue i serves. */
  lemma NoStarvation(s: Sched, ops: seq<Op>, i: nat, k: nat)
    requires WithinBudget(s) && OpsOk(ops) && i < MAX_PRIO && k < |s.queues[i]|
    requires Calls(ops) >= EPOCH + (EPOCH + 1) * Epochs(k + 1, MAX_PRIO - i) || Calls(ops) >= (k + 1) * (2 * EPOCH + 1)
    ensures |Served(s, ops, i)| > k && Served(s, ops, i)[k] == s.queues[i][k]
  {
    WaitBound(s, i, k);
    SimpleBound(k, MAX_PRIO - i);
    ServedInTime(s, ops, i, k + 1);
    RunFifo(s, ops, i);
    assert (Served(s, ops, i) + Run(s, ops).queues[i])[k] == (s.queues[i] + Arrived(ops, i))[k];
  }

  // ----- a run in which queue 0 is passed over -----

  lemma {:induction false} RunAppend(s: Sched, ops: seq<Op>, op: Op)
    requires Sized(s) && OpsOk(ops) && OpOk(op)
    ensures OpsOk(ops + [op]) && Run(s, ops + [op]) == Step(Run(s, ops), op)
    decreases |ops|
  {
    if ops == [] {
      assert [op][1..] == [] && ops + [op] == [op];
    } else {
      assert (ops + [op])[1..] == ops[1..] + [op];
      RunAppend(Step(s, ops[0]), ops[1..], op);
    }
  }

  /** One process p waits in queue 0, which has a slots left, one process q in queue 139, which has b, and no other. */
  ghost predicate TwoWait(s: Sched, p: Pid, q: Pid, a: nat, b: nat) {
    && Sized(s) && s.queues[0] == [p] && s.queues[MAX_PRIO - 1] == [q] && s.slots[0] == a && s.slots[MAX_PRIO - 1] == b
    && forall i :: 0 < i < MAX_PRIO - 1 ==> s.queues[i] == []
  }

  /** A process that is dispatched and put back costs its queue a slot. */
  lemma ServeAgain(s: Sched, p: Pid, q: Pid, a: nat, b: nat)
    requires TwoWait(s, p, q, a, b)
    ensures a > 0 ==> TwoWait(Put(Get(s).0, 0, p), p, q, a - 1, b)
    ensures a == 0 && b > 0 ==> TwoWait(Put(Get(s).0, MAX_PRIO - 1, q), p, q, 0, b - 1)
  {
    var i := if a > 0 then 0 else MAX_PRIO - 1;
    if a > 0 || b > 0 {
      assert Eligible(s, i) && !AllEmpty(s);
      assert forall j :: 0 <= j < i ==> !Eligible(s, j);
      assert FirstEligible(s, 0) == i;
    }
  }

  lemma BothArrive(p: Pid, q: Pid)
    ensures TwoWait(Put(Put(InitSched(), 0, p), MAX_PRIO - 1, q), p, q, MAX_PRIO, 1)
  {
    assert InitSched().slots[0] == MAX_PRIO && InitSched().slots[MAX_PRIO - 1] == 1;
  }

  /** Process p is dispatched and put back n times. */
  lemma {:induction false} Rounds(p: Pid, q: Pid, n: nat) returns (ops: seq<Op>)
    requires n <= MAX_PRIO
    ensures OpsOk(ops) && TwoWait(Run(InitSched(), ops), p, q, MAX_PRIO - n, 1)
  {
    if n == 0 {
      ops := [] + [Arrive(0, p)] + [Arrive(MAX_PRIO - 1, q)];
      RunAppend(InitSched(), [], Arrive(0, p));
      RunAppend(InitSched(), [] + [Arrive(0, p)], Arrive(MAX_PRIO - 1, q));
      BothArrive(p, q);
    } else {
      ops := Rounds(p, q, n - 1);
      ServeAgain(Run(InitSched(), ops), p, q, MAX_PRIO - n + 1, 1);
      ops := Again(ops, 0, p);
    }
  }

  /** The run goes on with a call and an arrival. */
  lemma Again(before: seq<Op>, prio: nat, p: Pid) returns (ops: seq<Op>)
    requires OpsOk(before) && prio < MAX_PRIO
    ensures OpsOk(ops) && Run(InitSched(), ops) == Put(Get(Run(InitSched(), before)).0, prio, p)
  {
    RunAppend(InitSched(), before, Call);
    RunAppend(InitSched(), before + [Call], Arrive(prio, p));
    ops := before + [Call] + [Arrive(prio, p)];
  }

  /** In an ordinary run a waiting process of the highest priority is passed over for one of the lowest: p in queue 0 is
      dispatched and put back 140 times, q in queue 139 once, and the next call dispatches q again. */
  lemma QueueZeroCanBePassedOver(p: Pid, q: Pid) returns (ops: seq<Op>)
    ensures OpsOk(ops)
    ensures var s := Run(InitSched(), ops);
            && s.queues[0] == [p] && s.queues[MAX_PRIO - 1] == [q]
            && Get(s).1 == From(MAX_PRIO - 1, q)
  {
    ops := Rounds(p, q, MAX_PRIO);
    ServeAgain(Run(InitSched(), ops), p, q, 0, 1);
    ops := Again(ops, MAX_PRIO - 1, q);
    QueueZeroPassedOver(Run(InitSched(), ops));
  }
}

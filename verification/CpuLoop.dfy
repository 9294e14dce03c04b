/** Any number of CPUs running cpu_routine (src/os.c) on one set of ready queues, interleaved at the locks of src/sched.c.

    `get_mlq_proc` gives up its lock between testing a queue, reading its slots and dequeuing, so each of those is a step of
    its own here. `queue_empty` reads the queues without a lock: its answer is a free choice of the step.
 */
module CpuLoop {
  import Bits
  import opened Scheduler
  import opened Counting

  datatype Option<T> = None | Some(value: T)

  /** A loaded, unfinished process. */
  datatype Pcb = Pcb(prio: nat, pc: nat, size: nat)

  /** Which get_proc call of cpu_routine is under way: the one with no process, after finishing one, after putting one back. */
  datatype Caller = FirstLoad | AfterFinish | AfterPut

  datatype Phase =
    | Head
    | TestEmpty(caller: Caller)
    | Scan(k: nat, caller: Caller)
    | ReadSlot(k: nat, caller: Caller)
    | TakeHead(k: nat, caller: Caller)
    | SetBack(caller: Caller)
    | Recheck
    | Exec
    | NextSlot
    | Stopped

  /** A CPU thread: `ran` counts its run() calls since the last dispatch and `start` is the pc at that dispatch. */
  datatype Cpu = Cpu(phase: Phase, proc: Option<Pid>, timeLeft: nat, ran: nat, start: nat)

  datatype State = State(queues: seq<seq<Pid>>, slots: seq<nat>, pcbs: map<Pid, Pcb>, cpus: seq<Cpu>, done: bool, quantum: nat)

  datatype Action = Load(pid: Pid, prio: nat, size: nat) | LoadingDone | CpuStep(c: nat, sawEmpty: bool)

  // ----- steps -----

  /** get_proc returns r to its caller. */
  function Return(cpu: Cpu, caller: Caller, r: Option<Pid>): Cpu {
    match caller
    case FirstLoad => cpu.(proc := r, phase := if r.None? then NextSlot else Recheck)
    case AfterFinish => cpu.(proc := r, timeLeft := 0, phase := Recheck)
    case AfterPut => cpu.(proc := r, phase := Recheck)
  }

  predicate Sane(s: State) {
    && |s.queues| == MAX_PRIO && |s.slots| == MAX_PRIO
    && (forall p :: p in s.pcbs ==> s.pcbs[p].prio < MAX_PRIO)
    && (forall c :: 0 <= c < |s.cpus| ==>
          && (s.cpus[c].proc.Some? ==> s.cpus[c].proc.value in s.pcbs)
          && (s.cpus[c].phase.Scan? || s.cpus[c].phase.ReadSlot? || s.cpus[c].phase.TakeHead? ==> s.cpus[c].phase.k < MAX_PRIO))
  }

  predicate Enabled(s: State, a: Action) {
    match a
    case Load(pid, prio, _) => pid !in s.pcbs && prio < MAX_PRIO
    case LoadingDone => true
    case CpuStep(c, _) => c < |s.cpus| && (s.cpus[c].phase.Exec? ==> s.cpus[c].proc.Some?)
  }

  function SetCpu(s: State, c: nat, cpu: Cpu): State
    requires c < |s.cpus|
  {
    s.(cpus := s.cpus[c := cpu])
  }

  /** The top of the loop: look for a process, finish the current one, put it back, or go on with it. */
  function StepHead(s: State, c: nat): State
    requires Sane(s) && c < |s.cpus|
  {
    var cpu := s.cpus[c];
    match cpu.proc
    case None => SetCpu(s, c, cpu.(phase := TestEmpty(FirstLoad)))
    case Some(p) =>
      var pcb := s.pcbs[p];
      if pcb.pc == pcb.size then
        SetCpu(s.(pcbs := s.pcbs - {p}), c, cpu.(proc := None, phase := TestEmpty(AfterFinish)))
      else if cpu.timeLeft == 0 then
        SetCpu(s.(queues := s.queues[pcb.prio := s.queues[pcb.prio] + [p]]), c, cpu.(proc := None, phase := TestEmpty(AfterPut)))
      else SetCpu(s, c, cpu.(phase := Recheck))
  }

  /** The locked test of queue k. */
  function StepScan(s: State, c: nat, k: nat, caller: Caller): State
    requires Sane(s) && c < |s.cpus| && k < MAX_PRIO
  {
    var cpu := s.cpus[c];
    if s.queues[k] != [] then SetCpu(s, c, cpu.(phase := ReadSlot(k, caller)))
    else if k == MAX_PRIO - 1 then SetCpu(s.(slots := FullSlots()), c, Return(cpu, caller, None))
    else SetCpu(s, c, cpu.(phase := Scan(k + 1, caller)))
  }

  function StepReadSlot(s: State, c: nat, k: nat, caller: Caller): State
    requires Sane(s) && c < |s.cpus| && k < MAX_PRIO
  {
    var cpu := s.cpus[c];
    SetCpu(s, c, cpu.(phase := if s.slots[k] > 0 then TakeHead(k, caller)
                               else if k == MAX_PRIO - 1 then SetBack(caller)
                               else Scan(k + 1, caller)))
  }

  /** The locked dequeue. Another CPU may have emptied the queue: then nothing is dequeued, but a slot is still paid, and the
      unsigned count wraps at zero. */
  function StepTake(s: State, c: nat, k: nat, caller: Caller): State
    requires Sane(s) && c < |s.cpus| && k < MAX_PRIO
  {
    var q := s.queues[k];
    var paid := s.(slots := s.slots[k := (s.slots[k] + Bits.WORD - 1) % Bits.WORD]);
    if q == [] then SetCpu(paid, c, Return(s.cpus[c], caller, None))
    else SetCpu(paid.(queues := s.queues[k := q[1..]]), c, Return(s.cpus[c], caller, Some(q[0])))
  }

  function StepRecheck(s: State, c: nat): State
    requires Sane(s) && c < |s.cpus|
  {
    var cpu := s.cpus[c];
    match cpu.proc
    case None => SetCpu(s, c, cpu.(phase := if s.done then Stopped else NextSlot))
    case Some(p) =>
      if cpu.timeLeft == 0
      then SetCpu(s, c, cpu.(timeLeft := s.quantum, ran := 0, start := s.pcbs[p].pc, phase := Exec))
      else SetCpu(s, c, cpu.(phase := Exec))
  }

  /** run(): one instruction, if there is one left. */
  function StepExec(s: State, c: nat): State
    requires Sane(s) && c < |s.cpus| && s.cpus[c].proc.Some?
  {
    var cpu, p := s.cpus[c], s.cpus[c].proc.value;
    var pcb := s.pcbs[p];
    var s' := if pcb.pc < pcb.size then s.(pcbs := s.pcbs[p := pcb.(pc := pcb.pc + 1)]) else s;
    SetCpu(s', c, cpu.(timeLeft := if cpu.timeLeft > 0 then cpu.timeLeft - 1 else 0, ran := cpu.ran + 1, phase := NextSlot))
  }

  function Step(s: State, a: Action): State
    requires Sane(s) && Enabled(s, a)
  {
    match a
    case Load(pid, prio, size) =>
      s.(pcbs := s.pcbs[pid := Pcb(prio, 0, size)], queues := s.queues[prio := s.queues[prio] + [pid]])
    case LoadingDone => s.(done := true)
    case CpuStep(c, sawEmpty) =>
      var cpu := s.cpus[c];
      match cpu.phase
      case Head => StepHead(s, c)
      case TestEmpty(caller) =>
        SetCpu(s, c, if sawEmpty then Return(cpu, caller, None) else cpu.(phase := Scan(0, caller)))
      case Scan(k, caller) => StepScan(s, c, k, caller)
      case ReadSlot(k, caller) => StepReadSlot(s, c, k, caller)
      case TakeHead(k, caller) => StepTake(s, c, k, caller)
      case SetBack(caller) => SetCpu(s.(slots := FullSlots()), c, cpu.(phase := Scan(1, caller)))
      case Recheck => StepRecheck(s, c)
      case Exec => StepExec(s, c)
      case NextSlot => SetCpu(s, c, cpu.(phase := Head))
      case Stopped => s
  }

  /** In the middle of get_proc. */
  predicate Asking(ph: Phase) {
    ph.TestEmpty? || ph.Scan? || ph.ReadSlot? || ph.TakeHead? || ph.SetBack?
  }

  // ----- conservation -----

  /** How often p stands in the queues, and how many CPUs hold it. */
  function Queued(qs: seq<seq<Pid>>, p: Pid): nat {
    if qs == [] then 0 else Times(qs[0], p) + Queued(qs[1..], p)
  }

  function Holds(cpu: Cpu, p: Pid): nat { One(cpu.proc == Some(p)) }

  function Held(cpus: seq<Cpu>, p: Pid): nat {
    if cpus == [] then 0 else Holds(cpus[0], p) + Held(cpus[1..], p)
  }

  /** Every loaded, unfinished process is in exactly one place of one queue or held by exactly one CPU, and nothing else is. */
  ghost predicate Conserved(s: State) {
    forall p: Pid :: Places(s, p) == 0
  }

  lemma {:induction false} QueuedUpdate(qs: seq<seq<Pid>>, i: nat, q: seq<Pid>, p: Pid)
    requires i < |qs|
    ensures Queued(qs[i := q], p) == Queued(qs, p) - Times(qs[i], p) + Times(q, p)
  {
    if i > 0 {
      assert qs[i := q][1..] == qs[1..][i - 1 := q];
      QueuedUpdate(qs[1..], i - 1, q, p);
    }
  }

  lemma {:induction false} HeldUpdate(cpus: seq<Cpu>, i: nat, cpu: Cpu, p: Pid)
    requires i < |cpus|
    ensures Held(cpus[i := cpu], p) == Held(cpus, p) - Holds(cpus[i], p) + Holds(cpu, p)
  {
    if i > 0 {
      assert cpus[i := cpu][1..] == cpus[1..][i - 1 := cpu];
      HeldUpdate(cpus[1..], i - 1, cpu, p);
    }
  }

  /** Where p is, counted: places in queues and on CPUs, less one if it is loaded. */
  function Places(s: State, p: Pid): int {
    Queued(s.queues, p) + Held(s.cpus, p) - One(p in s.pcbs)
  }

  lemma HeadMoves(s: State, c: nat, p: Pid)
    requires Sane(s) && c < |s.cpus|
    ensures Places(StepHead(s, c), p) == Places(s, p)
  {
    var s', cpu := StepHead(s, c), s.cpus[c];
    HeldUpdate(s.cpus, c, s'.cpus[c], p);
    if cpu.proc.Some? && s.pcbs[cpu.proc.value].pc != s.pcbs[cpu.proc.value].size && cpu.timeLeft == 0 {
      var x, k := cpu.proc.value, s.pcbs[cpu.proc.value].prio;
      QueuedUpdate(s.queues, k, s.queues[k] + [x], p);
      TimesAppend(s.queues[k], x, p);
    }
  }

  lemma TakeMoves(s: State, c: nat, k: nat, caller: Caller, p: Pid)
    requires Sane(s) && c < |s.cpus| && k < MAX_PRIO && s.cpus[c].proc.None?
    ensures Places(StepTake(s, c, k, caller), p) == Places(s, p)
  {
    var s' := StepTake(s, c, k, caller);
    HeldUpdate(s.cpus, c, s'.cpus[c], p);
    if s.queues[k] != [] {
      QueuedUpdate(s.queues, k, s.queues[k][1..], p);
    }
  }

  /** The other steps leave every process where it is. */
  predicate SamePlaces(s: State, s': State, c: nat)
    requires c < |s.cpus|
  {
    && s'.queues == s.queues && s'.pcbs.Keys == s.pcbs.Keys
    && |s'.cpus| == |s.cpus| && s'.cpus == s.cpus[c := s'.cpus[c]] && s'.cpus[c].proc == s.cpus[c].proc
  }

  lemma OtherSteps(s: State, c: nat, sawEmpty: bool)
    requires Sane(s) && Enabled(s, CpuStep(c, sawEmpty)) && !s.cpus[c].phase.Head? && !s.cpus[c].phase.TakeHead?
    requires Asking(s.cpus[c].phase) ==> s.cpus[c].proc.None?
    ensures SamePlaces(s, Step(s, CpuStep(c, sawEmpty)), c)
  {
    if s.cpus[c].phase.Exec? {
      assert StepExec(s, c).pcbs.Keys == s.pcbs.Keys;
    }
  }

  /** One CPU's step moves each process between queues, CPUs and the outside without copying or losing it. */
  lemma CpuStepMoves(s: State, c: nat, sawEmpty: bool, p: Pid)
    requires Sane(s) && Enabled(s, CpuStep(c, sawEmpty))
    requires Asking(s.cpus[c].phase) ==> s.cpus[c].proc.None?
    ensures Places(Step(s, CpuStep(c, sawEmpty)), p) == Places(s, p)
  {
    match s.cpus[c].phase
    case Head => HeadMoves(s, c, p);
    case TakeHead(k, caller) => TakeMoves(s, c, k, caller, p);
    case _ =>
      OtherSteps(s, c, sawEmpty);
      HeldUpdate(s.cpus, c, Step(s, CpuStep(c, sawEmpty)).cpus[c], p);
  }

  lemma LoadMoves(s: State, pid: Pid, prio: nat, size: nat, p: Pid)
    requires Sane(s) && Enabled(s, Load(pid, prio, size))
    ensures Places(Step(s, Load(pid, prio, size)), p) == Places(s, p)
  {
    QueuedUpdate(s.queues, prio, s.queues[prio] + [pid], p);
    TimesAppend(s.queues[prio], pid, p);
  }

  // ----- the invariant -----

  /** A process is on the CPU, dispatched with a full quantum, part of it used. */
  predicate MidQuantum(s: State, cpu: Cpu)
  {
    && cpu.proc.Some? && cpu.proc.value in s.pcbs
    && cpu.ran + cpu.timeLeft == s.quantum
    && var pcb := s.pcbs[cpu.proc.value];
       pcb.pc == cpu.start + cpu.ran || pcb.size == 0
  }

  predicate CpuOk(s: State, cpu: Cpu) {
    && (cpu.proc.Some? ==> cpu.proc.value in s.pcbs)
    && match cpu.phase
       case Head => if cpu.proc.None? then cpu.timeLeft == 0 else MidQuantum(s, cpu)
       case NextSlot => if cpu.proc.None? then cpu.timeLeft == 0 else MidQuantum(s, cpu)
       case Recheck =>
         if cpu.proc.None? then cpu.timeLeft == 0
         else if cpu.timeLeft == 0 then Waiting(s, cpu.proc.value)
         else MidQuantum(s, cpu) && s.pcbs[cpu.proc.value].pc != s.pcbs[cpu.proc.value].size
       case Exec => MidQuantum(s, cpu) && cpu.timeLeft > 0 && Waiting(s, cpu.proc.value)
       case Stopped => cpu.proc.None?
       case TestEmpty(caller) => cpu.proc.None? && (caller != AfterFinish ==> cpu.timeLeft == 0)
       case SetBack(caller) => cpu.proc.None? && (caller != AfterFinish ==> cpu.timeLeft == 0)
       case Scan(k, caller) => cpu.proc.None? && (caller != AfterFinish ==> cpu.timeLeft == 0) && k < MAX_PRIO
       case ReadSlot(k, caller) => cpu.proc.None? && (caller != AfterFinish ==> cpu.timeLeft == 0) && k < MAX_PRIO
       case TakeHead(k, caller) => cpu.proc.None? && (caller != AfterFinish ==> cpu.timeLeft == 0) && k < MAX_PRIO
  }

  predicate PcbOk(pcb: Pcb) {
    pcb.prio < MAX_PRIO && pcb.pc <= pcb.size
  }

  /** A process that waits has instructions left, unless it never had any. */
  predicate Waiting(s: State, p: Pid) {
    p in s.pcbs && (s.pcbs[p].pc == s.pcbs[p].size ==> s.pcbs[p].size == 0)
  }

  /** A process in queue i waits there by its own priority. */
  predicate AtHome(s: State, i: nat, p: Pid) {
    Waiting(s, p) && s.pcbs[p].prio == i
  }

  ghost predicate Inv(s: State) {
    && s.quantum > 0 && |s.queues| == MAX_PRIO && |s.slots| == MAX_PRIO
    && (forall p :: p in s.pcbs ==> PcbOk(s.pcbs[p]))
    && (forall c :: 0 <= c < |s.cpus| ==> CpuOk(s, s.cpus[c]))
    && (forall i, j :: 0 <= i < MAX_PRIO && 0 <= j < |s.queues[i]| ==> AtHome(s, i, s.queues[i][j]))
    && Conserved(s)
  }

  lemma InvSane(s: State)
    requires Inv(s)
    ensures Sane(s)
    ensures forall c :: 0 <= c < |s.cpus| ==> Asking(s.cpus[c].phase) ==> s.cpus[c].proc.None?
  {
    forall c | 0 <= c < |s.cpus|
      ensures s.cpus[c].proc.Some? ==> s.cpus[c].proc.value in s.pcbs
      ensures Asking(s.cpus[c].phase) ==> s.cpus[c].proc.None?
      ensures s.cpus[c].phase.Scan? || s.cpus[c].phase.ReadSlot? || s.cpus[c].phase.TakeHead? ==> s.cpus[c].phase.k < MAX_PRIO
    {
      assert CpuOk(s, s.cpus[c]);
    }
  }

  // ----- every step keeps it -----

  lemma {:induction false} HeldAtLeast(cpus: seq<Cpu>, c: nat, p: Pid)
    requires c < |cpus|
    ensures Held(cpus, p) >= Holds(cpus[c], p)
    ensures forall d :: c < d < |cpus| ==> Held(cpus, p) >= Holds(cpus[c], p) + Holds(cpus[d], p)
  {
    if c > 0 {
      HeldAtLeast(cpus[1..], c - 1, p);
      forall d | c < d < |cpus| ensures Held(cpus, p) >= Holds(cpus[c], p) + Holds(cpus[d], p) {
        assert cpus[1..][d - 1] == cpus[d];
      }
    } else {
      forall d | c < d < |cpus| ensures Held(cpus, p) >= Holds(cpus[c], p) + Holds(cpus[d], p) {
        assert cpus[1..][d - 1] == cpus[d];
        HeldAtLeast(cpus[1..], d - 1, p);
      }
    }
  }

  lemma {:induction false} QueuedAtLeast(qs: seq<seq<Pid>>, i: nat, p: Pid)
    requires i < |qs|
    ensures Queued(qs, p) >= Times(qs[i], p)
  {
    if i > 0 {
      QueuedAtLeast(qs[1..], i - 1, p);
    }
  }

  /** A process on a CPU is on no other CPU and in no queue. */
  lemma Exclusive(s: State, c: nat, p: Pid)
    requires Inv(s) && c < |s.cpus| && s.cpus[c].proc == Some(p)
    ensures forall d :: 0 <= d < |s.cpus| && d != c ==> s.cpus[d].proc != Some(p)
    ensures forall i, j :: 0 <= i < MAX_PRIO && 0 <= j < |s.queues[i]| ==> s.queues[i][j] != p
  {
    assert Places(s, p) == 0;
    HeldAtLeast(s.cpus, c, p);
    forall d | 0 <= d < |s.cpus| && d != c ensures s.cpus[d].proc != Some(p) {
      if d < c {
        HeldAtLeast(s.cpus, d, p);
      }
    }
    forall i, j | 0 <= i < MAX_PRIO && 0 <= j < |s.queues[i]| ensures s.queues[i][j] != p {
      TimesAtLeast(s.queues[i], j);
      QueuedAtLeast(s.queues, i, p);
    }
  }

  /** What the invariant says of CPU d depends only on the entry of its process. */
  lemma CpuOkFrame(s: State, s': State, cpu: Cpu)
    requires CpuOk(s, cpu) && s'.quantum == s.quantum
    requires cpu.proc.Some? ==> cpu.proc.value in s'.pcbs && s'.pcbs[cpu.proc.value] == s.pcbs[cpu.proc.value]
    ensures CpuOk(s', cpu)
  {
  }

  /** The rest of the invariant after a step of CPU c that changes at most the entry of process x, which c holds. */
  lemma OthersOk(s: State, s': State, c: nat)
    requires Inv(s) && c < |s.cpus| && |s'.cpus| == |s.cpus| && s'.cpus == s.cpus[c := s'.cpus[c]] && s'.quantum == s.quantum
    requires forall p :: p in s.pcbs && s.cpus[c].proc != Some(p) ==> p in s'.pcbs && s'.pcbs[p] == s.pcbs[p]
    requires CpuOk(s', s'.cpus[c])
    ensures forall d :: 0 <= d < |s'.cpus| ==> CpuOk(s', s'.cpus[d])
    ensures forall i, j :: 0 <= i < MAX_PRIO && 0 <= j < |s.queues[i]| ==> AtHome(s', i, s.queues[i][j])
  {
    if s.cpus[c].proc.Some? {
      Exclusive(s, c, s.cpus[c].proc.value);
    }
    forall d | 0 <= d < |s'.cpus| ensures CpuOk(s', s'.cpus[d]) {
      if d != c {
        assert CpuOk(s, s.cpus[d]);
        CpuOkFrame(s, s', s.cpus[d]);
      }
    }
    forall i, j | 0 <= i < MAX_PRIO && 0 <= j < |s.queues[i]| ensures AtHome(s', i, s.queues[i][j]) {
      assert AtHome(s, i, s.queues[i][j]);
    }
  }

  /** A step of CPU c from s to s' that changes its own state soundly, and no process but its own. */
  ghost predicate Local(s: State, s': State, c: nat)
    requires c < |s.cpus|
  {
    && s'.quantum == s.quantum && |s'.cpus| == |s.cpus| && s'.cpus == s.cpus[c := s'.cpus[c]]
    && CpuOk(s', s'.cpus[c])
    && (forall p :: p in s.pcbs && s.cpus[c].proc != Some(p) ==> p in s'.pcbs && s'.pcbs[p] == s.pcbs[p])
    && (forall p :: p in s'.pcbs ==> PcbOk(s'.pcbs[p]))
    && |s'.queues| == MAX_PRIO && |s'.slots| == MAX_PRIO
  }

  ghost predicate AllWaiting(s: State)
    requires |s.queues| == MAX_PRIO
  {
    forall i, j :: 0 <= i < MAX_PRIO && 0 <= j < |s.queues[i]| ==> AtHome(s, i, s.queues[i][j])
  }

  lemma HeadLocal(s: State, c: nat)
    requires Inv(s) && Sane(s) && c < |s.cpus| && s.cpus[c].phase.Head?
    ensures Local(s, StepHead(s, c), c)
  {
    assert CpuOk(s, s.cpus[c]);
  }

  /** Whatever joins a queue in a step was put back with instructions left. */
  lemma HeadWaiting(s: State, c: nat)
    requires Inv(s) && Sane(s) && c < |s.cpus| && s.cpus[c].phase.Head?
    ensures Local(s, StepHead(s, c), c) && AllWaiting(StepHead(s, c))
  {
    HeadLocal(s, c);
    var s' := StepHead(s, c);
    OthersOk(s, s', c);
    assert CpuOk(s, s.cpus[c]);
    forall i, j | 0 <= i < MAX_PRIO && 0 <= j < |s'.queues[i]| ensures AtHome(s', i, s'.queues[i][j]) {
      if j < |s.queues[i]| {
        assert s'.queues[i][j] == s.queues[i][j];
      }
    }
  }

  lemma TakeLocal(s: State, c: nat, k: nat, caller: Caller)
    requires Inv(s) && Sane(s) && c < |s.cpus| && s.cpus[c].phase == TakeHead(k, caller) && k < MAX_PRIO
    ensures Local(s, StepTake(s, c, k, caller), c) && AllWaiting(StepTake(s, c, k, caller))
  {
    assert CpuOk(s, s.cpus[c]);
    if s.queues[k] != [] {
      assert AtHome(s, k, s.queues[k][0]);
    }
    var s' := StepTake(s, c, k, caller);
    forall i, j | 0 <= i < MAX_PRIO && 0 <= j < |s'.queues[i]| ensures AtHome(s', i, s'.queues[i][j]) {
      if i == k && s.queues[k] != [] {
        assert s'.queues[i][j] == s.queues[i][j + 1];
      } else {
        assert s'.queues[i] == s.queues[i];
      }
    }
  }

  lemma RunLocal(s: State, c: nat)
    requires Inv(s) && Sane(s) && c < |s.cpus|
    ensures s.cpus[c].phase.Recheck? ==> Local(s, StepRecheck(s, c), c)
    ensures s.cpus[c].phase.Exec? ==> s.cpus[c].proc.Some? && Local(s, StepExec(s, c), c)
  {
    assert CpuOk(s, s.cpus[c]);
  }

  lemma AskLocal(s: State, c: nat, sawEmpty: bool)
    requires Inv(s) && Sane(s) && c < |s.cpus|
    requires s.cpus[c].phase.TestEmpty? || s.cpus[c].phase.Scan? || s.cpus[c].phase.ReadSlot? || s.cpus[c].phase.SetBack?
    ensures Local(s, Step(s, CpuStep(c, sawEmpty)), c)
  {
    assert CpuOk(s, s.cpus[c]);
  }

  lemma StepLocal(s: State, c: nat, sawEmpty: bool)
    requires Inv(s) && Sane(s) && Enabled(s, CpuStep(c, sawEmpty))
    ensures var s' := Step(s, CpuStep(c, sawEmpty));
            Local(s, s', c) && AllWaiting(s')
  {
    var s' := Step(s, CpuStep(c, sawEmpty));
    assert CpuOk(s, s.cpus[c]);
    var ph := s.cpus[c].phase;
    if ph.Head? {
      HeadWaiting(s, c);
    } else if ph.TakeHead? {
      TakeLocal(s, c, ph.k, ph.caller);
    } else {
      InvSane(s);
      OtherSteps(s, c, sawEmpty);
      if ph.Recheck? || ph.Exec? {
        RunLocal(s, c);
      } else if Asking(ph) {
        AskLocal(s, c, sawEmpty);
      }
      OthersOk(s, s', c);
    }
  }

  lemma CpuStepInv(s: State, c: nat, sawEmpty: bool)
    requires Inv(s) && Sane(s) && Enabled(s, CpuStep(c, sawEmpty))
    ensures Inv(Step(s, CpuStep(c, sawEmpty)))
  {
    var s' := Step(s, CpuStep(c, sawEmpty));
    InvSane(s);
    StepLocal(s, c, sawEmpty);
    OthersOk(s, s', c);
    forall p: Pid ensures Places(s', p) == 0 {
      assert Places(s, p) == 0;
      CpuStepMoves(s, c, sawEmpty, p);
    }
  }

  lemma LoadInv(s: State, pid: Pid, prio: nat, size: nat)
    requires Inv(s) && Sane(s) && Enabled(s, Load(pid, prio, size))
    ensures Inv(Step(s, Load(pid, prio, size)))
  {
    var s' := Step(s, Load(pid, prio, size));
    forall c | 0 <= c < |s'.cpus| ensures CpuOk(s', s'.cpus[c]) {
      CpuOkFrame(s, s', s.cpus[c]);
    }
    forall i, j | 0 <= i < MAX_PRIO && 0 <= j < |s'.queues[i]| ensures AtHome(s', i, s'.queues[i][j]) {
      if j < |s.queues[i]| {
        assert s'.queues[i][j] == s.queues[i][j] && AtHome(s, i, s.queues[i][j]);
      }
    }
    forall p: Pid ensures Places(s', p) == 0 {
      assert Places(s, p) == 0;
      LoadMoves(s, pid, prio, size, p);
    }
  }

  lemma StepInv(s: State, a: Action)
    requires Inv(s) && Sane(s) && Enabled(s, a)
    ensures Inv(Step(s, a))
  {
    match a
    case Load(pid, prio, size) => LoadInv(s, pid, prio, size);
    case LoadingDone =>
      var s' := Step(s, a);
      forall c | 0 <= c < |s'.cpus| ensures CpuOk(s', s'.cpus[c]) {
        CpuOkFrame(s, s', s.cpus[c]);
      }
      forall p: Pid ensures Places(s', p) == 0 {
        assert Places(s, p) == 0;
      }
    case CpuStep(c, sawEmpty) => CpuStepInv(s, c, sawEmpty);
  }

  // ----- runs -----

  /** The state before anything is loaded: empty queues with full budgets, every CPU at the top of its loop. */
  function InitState(cpus: nat, quantum: nat): State {
    State(InitSched().queues, FullSlots(), map[], seq(cpus, _ => Cpu(Head, None, 0, 0, 0)), false, quantum)
  }

  /** Any interleaving of the loader and the CPUs. */
  ghost predicate Trace(init: State, actions: seq<Action>)
    decreases |actions|, 0
  {
    actions == [] ||
    var n := |actions| - 1;
    Trace(init, actions[..n]) && var r := After(init, actions[..n]); Sane(r) && Enabled(r, actions[n])
  }

  ghost function After(init: State, actions: seq<Action>): State
    requires Trace(init, actions)
    decreases |actions|, 1
  {
    if actions == [] then init
    else
      var n := |actions| - 1;
      Step(After(init, actions[..n]), actions[n])
  }

  lemma {:induction false} EmptyQueued(qs: seq<seq<Pid>>, p: Pid)
    requires forall i :: 0 <= i < |qs| ==> qs[i] == []
    ensures Queued(qs, p) == 0
  {
    if qs != [] {
      EmptyQueued(qs[1..], p);
    }
  }

  lemma {:induction false} NoneHeld(cpus: seq<Cpu>, p: Pid)
    requires forall c :: 0 <= c < |cpus| ==> cpus[c].proc.None?
    ensures Held(cpus, p) == 0
  {
    if cpus != [] {
      NoneHeld(cpus[1..], p);
    }
  }

  lemma InitInv(cpus: nat, quantum: nat)
    requires quantum > 0
    ensures Inv(InitState(cpus, quantum))
  {
    var s := InitState(cpus, quantum);
    forall p: Pid ensures Places(s, p) == 0 {
      EmptyQueued(s.queues, p);
      NoneHeld(s.cpus, p);
    }
  }

  /** In every state that any number of CPUs and the loader can reach, in any interleaving, every loaded and unfinished
      process is in exactly one place, and every CPU keeps to its quantum. */
  lemma {:induction false} ReachableInv(cpus: nat, quantum: nat, actions: seq<Action>)
    requires quantum > 0 && Trace(InitState(cpus, quantum), actions)
    ensures var s := After(InitState(cpus, quantum), actions); Inv(s) && Sane(s)
    decreases |actions|
  {
    if actions == [] {
      InitInv(cpus, quantum);
    } else {
      var n := |actions| - 1;
      ReachableInv(cpus, quantum, actions[..n]);
      StepInv(After(InitState(cpus, quantum), actions[..n]), actions[n]);
    }
    InvSane(After(InitState(cpus, quantum), actions));
  }

  /** The two places of a process cannot both be taken: a queued process is on no CPU and in no other queue. */
  lemma QueuedOnce(s: State, i: nat, j: nat)
    requires Inv(s) && i < MAX_PRIO && j < |s.queues[i]|
    ensures var p := s.queues[i][j];
            && p in s.pcbs && Times(s.queues[i], p) == 1
            && (forall c :: 0 <= c < |s.cpus| ==> s.cpus[c].proc != Some(p))
            && (forall k :: 0 <= k < MAX_PRIO && k != i ==> p !in s.queues[k])
  {
    var p := s.queues[i][j];
    assert Places(s, p) == 0 && AtHome(s, i, p);
    TimesAtLeast(s.queues[i], j);
    QueuedAtLeast(s.queues, i, p);
    forall c | 0 <= c < |s.cpus| ensures s.cpus[c].proc != Some(p) {
      HeldAtLeast(s.cpus, c, p);
    }
    forall k | 0 <= k < MAX_PRIO && k != i ensures p !in s.queues[k] {
      assert forall l :: 0 <= l < |s.queues[k]| ==> AtHome(s, k, s.queues[k][l]);
    }
  }

  lemma {:induction false} DistinctFits(q: seq<Pid>, all: set<Pid>)
    requires forall j :: 0 <= j < |q| ==> q[j] in all && Times(q, q[j]) <= 1
    ensures |q| <= |all|
  {
    if q != [] {
      var rest := q[1..];
      forall j | 0 <= j < |rest| ensures rest[j] in all - {q[0]} && Times(rest, rest[j]) <= 1 {
        assert rest[j] == q[j + 1];
        TimesAtLeast(rest, j);
      }
      DistinctFits(rest, all - {q[0]});
    }
  }

  /** The loaded, unfinished processes of priority i. */
  ghost function Sharing(s: State, i: nat): set<Pid> { set p | p in s.pcbs && s.pcbs[p].prio == i }

  /** A queue never holds more than the processes that share its priority, so the fixed arrays of ten are never overrun while at
      most ten do. */
  lemma QueueFits(s: State, i: nat)
    requires Inv(s) && i < MAX_PRIO
    ensures |s.queues[i]| <= |Sharing(s, i)|
  {
    forall j | 0 <= j < |s.queues[i]| ensures s.queues[i][j] in Sharing(s, i) && Times(s.queues[i], s.queues[i][j]) <= 1 {
      assert AtHome(s, i, s.queues[i][j]);
      QueuedOnce(s, i, j);
    }
    DistinctFits(s.queues[i], Sharing(s, i));
  }

  // ----- quantum and completion -----

  /** At the top of the loop: with no process there is no time left over; a process has run for at most one quantum of
      instructions since its dispatch; one put back has run for exactly that many and has some left. */
  lemma QuantumKept(s: State, c: nat)
    requires Inv(s) && c < |s.cpus| && s.cpus[c].phase.Head?
    ensures s.cpus[c].proc.None? ==> s.cpus[c].timeLeft == 0
    ensures s.cpus[c].proc.Some? ==>
              var cpu := s.cpus[c];
              && cpu.proc.value in s.pcbs && cpu.ran <= s.quantum
              && var pcb := s.pcbs[cpu.proc.value];
                 && pcb.pc <= cpu.start + s.quantum
                 && (pcb.pc != pcb.size && cpu.timeLeft == 0 ==> pcb.pc < pcb.size && pcb.pc == cpu.start + s.quantum)
  {
    assert CpuOk(s, s.cpus[c]);
  }

  /** The action runs an instruction of p. */
  predicate Executes(s: State, a: Action, p: Pid)
    requires Enabled(s, a)
  {
    && a.CpuStep? && s.cpus[a.c].phase.Exec? && s.cpus[a.c].proc == Some(p)
    && p in s.pcbs && s.pcbs[p].pc < s.pcbs[p].size
  }

  /** The indices of the instructions that a run has executed for p since it was loaded, on whatever CPUs. */
  ghost function Executed(init: State, actions: seq<Action>, p: Pid): seq<nat>
    requires Trace(init, actions)
    decreases |actions|
  {
    if actions == [] then []
    else
      var n := |actions| - 1;
      var r, a := After(init, actions[..n]), actions[n];
      if a.Load? && a.pid == p then []
      else if Executes(r, a, p) then Executed(init, actions[..n], p) + [r.pcbs[p].pc]
      else Executed(init, actions[..n], p)
  }

  lemma StepPc(s: State, a: Action, p: Pid)
    requires Inv(s) && Sane(s) && Enabled(s, a) && p in Step(s, a).pcbs
    ensures if a.Load? && a.pid == p then Step(s, a).pcbs[p].pc == 0
            else p in s.pcbs && Step(s, a).pcbs[p].pc == s.pcbs[p].pc + One(Executes(s, a, p))
  {
    if a.CpuStep? {
      assert CpuOk(s, s.cpus[a.c]);
    }
  }

  /** Preempted and moved between CPUs as it may be, a process executes its instructions in order, each once. */
  lemma {:induction false} RunsInOrder(cpus: nat, quantum: nat, actions: seq<Action>, p: Pid)
    requires quantum > 0 && Trace(InitState(cpus, quantum), actions)
    requires p in After(InitState(cpus, quantum), actions).pcbs
    ensures var s := After(InitState(cpus, quantum), actions);
            Executed(InitState(cpus, quantum), actions, p) == Upto(s.pcbs[p].pc)
    decreases |actions|
  {
    if actions != [] {
      var n := |actions| - 1;
      var r := After(InitState(cpus, quantum), actions[..n]);
      ReachableInv(cpus, quantum, actions[..n]);
      StepPc(r, actions[n], p);
      if !(actions[n].Load? && actions[n].pid == p) {
        RunsInOrder(cpus, quantum, actions[..n], p);
      }
    }
  }

  /** Priority and code size that p was last loaded with. */
  function LastLoad(actions: seq<Action>, p: Pid): Option<(nat, nat)> {
    if actions == [] then None
    else
      var n := |actions| - 1;
      if actions[n].Load? && actions[n].pid == p then Some((actions[n].prio, actions[n].size)) else LastLoad(actions[..n], p)
  }

  /** A process keeps the priority and the code it was loaded with. */
  lemma {:induction false} LoadKept(cpus: nat, quantum: nat, actions: seq<Action>, p: Pid)
    requires Trace(InitState(cpus, quantum), actions) && p in After(InitState(cpus, quantum), actions).pcbs
    ensures var pcb := After(InitState(cpus, quantum), actions).pcbs[p];
            LastLoad(actions, p) == Some((pcb.prio, pcb.size))
    decreases |actions|
  {
    if actions != [] {
      var n := |actions| - 1;
      if !(actions[n].Load? && actions[n].pid == p) {
        LoadKept(cpus, quantum, actions[..n], p);
      }
    }
  }

  /** A process that a CPU declares finished has executed exactly the code it was loaded with: every instruction, once, in
      order. */
  lemma CompletionExact(cpus: nat, quantum: nat, actions: seq<Action>, c: nat)
    requires quantum > 0 && Trace(InitState(cpus, quantum), actions) && c < |After(InitState(cpus, quantum), actions).cpus|
    ensures var s := After(InitState(cpus, quantum), actions); var cpu := s.cpus[c];
            cpu.phase.Head? && cpu.proc.Some? && Sane(s) && StepHead(s, c).pcbs != s.pcbs ==>
            && LastLoad(actions, cpu.proc.value).Some?
            && Executed(InitState(cpus, quantum), actions, cpu.proc.value) == Upto(LastLoad(actions, cpu.proc.value).value.1)
  {
    var s := After(InitState(cpus, quantum), actions);
    ReachableInv(cpus, quantum, actions);
    if s.cpus[c].phase.Head? && s.cpus[c].proc.Some? && s.pcbs[s.cpus[c].proc.value].pc == s.pcbs[s.cpus[c].proc.value].size {
      RunsInOrder(cpus, quantum, actions, s.cpus[c].proc.value);
      LoadKept(cpus, quantum, actions, s.cpus[c].proc.value);
    }
  }

  // ----- order -----

  /** The process of priority i that a CPU takes up in this step, if any. */
  function TakesUp(s: State, a: Action, i: nat): seq<Pid>
    requires Sane(s) && Enabled(s, a)
  {
    if a.CpuStep? && s.cpus[a.c].proc.None? && a.c < |Step(s, a).cpus| && Step(s, a).cpus[a.c].proc.Some? then
      var p := Step(s, a).cpus[a.c].proc.value;
      if p in s.pcbs && s.pcbs[p].prio == i then [p] else []
    else []
  }

  /** The process of priority i that is loaded, or that a CPU lets go of unfinished, in this step. */
  function Enters(s: State, a: Action, i: nat): seq<Pid>
    requires Sane(s) && Enabled(s, a)
  {
    match a
    case Load(pid, prio, _) => if prio == i then [pid] else []
    case LoadingDone => []
    case CpuStep(c, _) =>
      if s.cpus[c].proc.Some? && c < |Step(s, a).cpus| && Step(s, a).cpus[c].proc.None? then
        var p := s.cpus[c].proc.value;
        if p in Step(s, a).pcbs && s.pcbs[p].prio == i then [p] else []
      else []
  }

  lemma TakeOrder(s: State, c: nat, sawEmpty: bool, i: nat)
    requires Inv(s) && Sane(s) && c < |s.cpus| && s.cpus[c].phase.TakeHead? && i < MAX_PRIO
    ensures var a := CpuStep(c, sawEmpty);
            Enters(s, a, i) == [] && TakesUp(s, a, i) + Step(s, a).queues[i] == s.queues[i]
  {
    assert CpuOk(s, s.cpus[c]);
    var k := s.cpus[c].phase.k;
    if s.queues[k] != [] {
      assert AtHome(s, k, s.queues[k][0]);
      assert s.queues[k] == [s.queues[k][0]] + s.queues[k][1..];
    }
  }

  lemma StepOrder(s: State, a: Action, i: nat)
    requires Inv(s) && Sane(s) && Enabled(s, a) && i < MAX_PRIO
    ensures TakesUp(s, a, i) + Step(s, a).queues[i] == s.queues[i] + Enters(s, a, i)
  {
    if a.CpuStep? {
      if s.cpus[a.c].phase.TakeHead? {
        TakeOrder(s, a.c, a.sawEmpty, i);
      } else if !s.cpus[a.c].phase.Head? {
        InvSane(s);
        OtherSteps(s, a.c, a.sawEmpty);
      }
    }
  }

  /** Over a run: the processes of priority i taken up by CPUs, and those loaded or let go of unfinished, in order. */
  ghost function TakenUp(init: State, actions: seq<Action>, i: nat): seq<Pid>
    requires Trace(init, actions)
    decreases |actions|
  {
    if actions == [] then []
    else
      var n := |actions| - 1;
      TakenUp(init, actions[..n], i) + TakesUp(After(init, actions[..n]), actions[n], i)
  }

  ghost function Entered(init: State, actions: seq<Action>, i: nat): seq<Pid>
    requires Trace(init, actions)
    decreases |actions|
  {
    if actions == [] then []
    else
      var n := |actions| - 1;
      Entered(init, actions[..n], i) + Enters(After(init, actions[..n]), actions[n], i)
  }

  lemma Regroup(x: seq<Pid>, t: seq<Pid>, q': seq<Pid>, q: seq<Pid>, e: seq<Pid>, y: seq<Pid>)
    requires t + q' == q + e && x + q == y
    ensures (x + t) + q' == y + e
  {
    assert (x + t) + q' == x + (t + q');
    assert x + (q + e) == (x + q) + e;
  }

  /** First in, first out, in every interleaving: those that CPUs have taken up from priority i and then those still in queue i
      are exactly those loaded there or put back there unfinished, in order, even when CPUs race on one queue. */
  lemma {:induction false} RunOrder(cpus: nat, quantum: nat, actions: seq<Action>, i: nat)
    requires quantum > 0 && Trace(InitState(cpus, quantum), actions) && i < MAX_PRIO
    ensures var init := InitState(cpus, quantum);
            && |After(init, actions).queues| == MAX_PRIO
            && TakenUp(init, actions, i) + After(init, actions).queues[i] == Entered(init, actions, i)
    decreases |actions|
  {
    var init := InitState(cpus, quantum);
    ReachableInv(cpus, quantum, actions);
    if actions != [] {
      var n := |actions| - 1;
      var r := After(init, actions[..n]);
      RunOrder(cpus, quantum, actions[..n], i);
      ReachableInv(cpus, quantum, actions[..n]);
      StepOrder(r, actions[n], i);
      Regroup(TakenUp(init, actions[..n], i), TakesUp(r, actions[n], i), Step(r, actions[n]).queues[i],
              r.queues[i], Enters(r, actions[n], i), Entered(init, actions[..n], i));
    }
  }

  // ----- when a CPU stops -----

  /** CPU c had a process when it was last at the top of its loop. */
  ghost function CameWithProcess(init: State, actions: seq<Action>, c: nat): bool
    requires Trace(init, actions) && c < |init.cpus|
    decreases |actions|
  {
    if actions == [] then false
    else
      var n := |actions| - 1;
      var r := After(init, actions[..n]);
      if actions[n].CpuStep? && actions[n].c == c && r.cpus[c].phase.Head? then r.cpus[c].proc.Some?
      else CameWithProcess(init, actions[..n], c)
  }

  /** What the phase of a CPU says about the last time it was at the top of its loop. */
  predicate PhaseTells(cpu: Cpu, came: bool) {
    && (Asking(cpu.phase) ==> (cpu.phase.caller != FirstLoad <==> came))
    && (cpu.phase.Recheck? && cpu.proc.None? ==> came)
  }

  lemma OnlyOwn(s: State, c: nat, sawEmpty: bool)
    requires Sane(s) && Enabled(s, CpuStep(c, sawEmpty))
    ensures var t := Step(s, CpuStep(c, sawEmpty));
            |t.cpus| == |s.cpus| && t.done == s.done && forall b :: 0 <= b < |s.cpus| && b != c ==> t.cpus[b] == s.cpus[b]
  {
  }

  lemma StepTells(s: State, c: nat, sawEmpty: bool, came: bool)
    requires Sane(s) && Enabled(s, CpuStep(c, sawEmpty)) && PhaseTells(s.cpus[c], came)
    ensures c < |Step(s, CpuStep(c, sawEmpty)).cpus|
    ensures PhaseTells(Step(s, CpuStep(c, sawEmpty)).cpus[c], if s.cpus[c].phase.Head? then s.cpus[c].proc.Some? else came)
  {
  }

  lemma {:induction false} RunDone(init: State, actions: seq<Action>)
    requires Trace(init, actions) && !init.done
    ensures |After(init, actions).cpus| == |init.cpus| && (After(init, actions).done <==> LoadingDone in actions)
    decreases |actions|
  {
    if actions != [] {
      var n := |actions| - 1;
      RunDone(init, actions[..n]);
      assert actions == actions[..n] + [actions[n]];
      if actions[n].CpuStep? {
        OnlyOwn(After(init, actions[..n]), actions[n].c, actions[n].sawEmpty);
      }
    }
  }

  lemma {:induction false} RunTells(init: State, actions: seq<Action>, c: nat)
    requires Trace(init, actions) && c < |init.cpus| && init.cpus[c].phase.Head?
    ensures c < |After(init, actions).cpus| && PhaseTells(After(init, actions).cpus[c], CameWithProcess(init, actions, c))
    decreases |actions|
  {
    if actions != [] {
      var n := |actions| - 1;
      var r := After(init, actions[..n]);
      RunTells(init, actions[..n], c);
      if actions[n].CpuStep? {
        OnlyOwn(r, actions[n].c, actions[n].sawEmpty);
        if actions[n].c == c {
          StepTells(r, c, actions[n].sawEmpty, CameWithProcess(init, actions[..n], c));
        }
      }
    }
  }

  lemma StopsStep(s: State, c: nat, sawEmpty: bool)
    requires Sane(s) && Enabled(s, CpuStep(c, sawEmpty)) && !s.cpus[c].phase.Stopped?
    ensures c < |Step(s, CpuStep(c, sawEmpty)).cpus|
    ensures Step(s, CpuStep(c, sawEmpty)).cpus[c].phase.Stopped? <==>
            s.cpus[c].phase.Recheck? && s.cpus[c].proc.None? && s.done
  {
  }

  /** A CPU that runs on stops in a step exactly when it finds itself without a process after giving one up, with loading done.
      A failed first load never stops it. */
  lemma StopsIff(cpus: nat, quantum: nat, actions: seq<Action>, c: nat, sawEmpty: bool)
    requires Trace(InitState(cpus, quantum), actions) && c < cpus
    requires var s := After(InitState(cpus, quantum), actions);
             Sane(s) && Enabled(s, CpuStep(c, sawEmpty)) && !s.cpus[c].phase.Stopped?
    ensures var init := InitState(cpus, quantum);
            var s := After(init, actions); var t := Step(s, CpuStep(c, sawEmpty));
            && c < |t.cpus|
            && (t.cpus[c].phase.Stopped? <==>
                s.cpus[c].phase.Recheck? && s.cpus[c].proc.None? && CameWithProcess(init, actions, c) && LoadingDone in actions)
  {
    var init := InitState(cpus, quantum);
    RunTells(init, actions, c);
    RunDone(init, actions);
    StopsStep(After(init, actions), c, sawEmpty);
  }

  /** A stopped CPU has no process and does nothing more. */
  lemma StoppedStays(s: State, a: Action, c: nat)
    requires Inv(s) && Sane(s) && Enabled(s, a) && c < |s.cpus| && s.cpus[c].phase.Stopped?
    ensures s.cpus[c].proc == None && c < |Step(s, a).cpus| && Step(s, a).cpus[c] == s.cpus[c]
    ensures a.CpuStep? && a.c == c ==> Step(s, a) == s
  {
    assert CpuOk(s, s.cpus[c]);
  }

  // ----- budgets under interleaving -----

  ghost predicate BudgetsOk(s: State)
    requires |s.slots| == MAX_PRIO
  {
    forall i :: 0 <= i < MAX_PRIO ==> s.slots[i] <= MAX_PRIO - i
  }

  lemma PayOne(x: nat)
    requires x < Bits.WORD
    ensures (x + Bits.WORD - 1) % Bits.WORD == if x == 0 then Bits.WORD - 1 else x - 1
  {
  }

  /** A CPU step keeps every budget in bounds, except the dequeue of a CPU whose slot another CPU has spent since it looked:
      then the unsigned count wraps. */
  lemma StepBudgetsIff(s: State, c: nat, sawEmpty: bool)
    requires Inv(s) && Sane(s) && Enabled(s, CpuStep(c, sawEmpty)) && BudgetsOk(s)
    ensures |Step(s, CpuStep(c, sawEmpty)).slots| == MAX_PRIO
    ensures BudgetsOk(Step(s, CpuStep(c, sawEmpty))) <==>
            !(s.cpus[c].phase.TakeHead? && s.slots[s.cpus[c].phase.k] == 0)
  {
    var s' := Step(s, CpuStep(c, sawEmpty));
    var ph := s.cpus[c].phase;
    if ph.TakeHead? {
      var k := ph.k;
      PayOne(s.slots[k]);
      assert s'.slots == s.slots[k := if s.slots[k] == 0 then Bits.WORD - 1 else s.slots[k] - 1];
      assert s.slots[k] == 0 ==> s'.slots[k] > MAX_PRIO;
    } else {
      assert s'.slots == s.slots || s'.slots == FullSlots();
    }
  }

  /** Two CPUs that both saw the last slot of a queue overdraw it. */
  lemma RaceOverdraws(s: State, c: nat, d: nat, k: nat, caller: Caller, caller': Caller)
    requires Inv(s) && Sane(s) && c < |s.cpus| && d < |s.cpus| && c != d && k < MAX_PRIO && s.slots[k] == 1
    requires s.cpus[c].phase == TakeHead(k, caller) && s.cpus[d].phase == TakeHead(k, caller')
    ensures var t := Step(s, CpuStep(c, false));
            Sane(t) && Enabled(t, CpuStep(d, false)) && Step(t, CpuStep(d, false)).slots[k] == Bits.WORD - 1
  {
    CpuStepInv(s, c, false);
    InvSane(Step(s, CpuStep(c, false)));
  }

  /** Slot counts are 32-bit words. */
  ghost predicate SlotsFit(s: State) {
    forall i :: 0 <= i < |s.slots| ==> s.slots[i] < Bits.WORD
  }

  lemma StepSlotsFit(s: State, a: Action)
    requires Sane(s) && Enabled(s, a) && SlotsFit(s)
    ensures SlotsFit(Step(s, a))
  {
    if a.CpuStep? {
      var ph := s.cpus[a.c].phase;
      if ph.TakeHead? {
        PayOne(s.slots[ph.k]);
      }
    }
  }

  /** They are so in every run, overdrawn or not. */
  lemma {:induction false} RunSlotsFit(cpus: nat, quantum: nat, actions: seq<Action>)
    requires Trace(InitState(cpus, quantum), actions)
    ensures SlotsFit(After(InitState(cpus, quantum), actions))
    decreases |actions|
  {
    if actions != [] {
      var n := |actions| - 1;
      RunSlotsFit(cpus, quantum, actions[..n]);
      StepSlotsFit(After(InitState(cpus, quantum), actions[..n]), actions[n]);
    }
  }

  // ----- an undisturbed get_proc is the atomic call -----

  /** n steps of CPU c alone. */
  ghost predicate Solo(s: State, c: nat, n: nat, t: State)
    requires c < |s.cpus|
    decreases n
  {
    if n == 0 then t == s
    else
      && Sane(s) && Enabled(s, CpuStep(c, false))
      && var s' := Step(s, CpuStep(c, false));
         c < |s'.cpus| && Solo(s', c, n - 1, t)
  }

  function Scheduled(s: State): Sched { Sched(s.queues, s.slots) }

  function Result(d: Dispatch): Option<Pid> { if d.From? then Some(d.pid) else None }

  /** t is s with CPU c returned from get_proc with what r says: the queues left and the process dispatched. */
  ghost predicate Served(s: State, c: nat, caller: Caller, r: (Sched, Dispatch), t: State)
    requires c < |s.cpus|
  {
    && Scheduled(t) == r.0 && t.pcbs == s.pcbs && t.done == s.done && t.quantum == s.quantum
    && |t.cpus| == |s.cpus| && (forall b :: 0 <= b < |s.cpus| && b != c ==> t.cpus[b] == s.cpus[b])
    && t.cpus[c] == Return(s.cpus[c].(phase := t.cpus[c].phase), caller, Result(r.1))
  }

  /** The three steps that serve an eligible queue. */
  lemma TakeSteps(s: State, c: nat, k: nat, caller: Caller) returns (s1: State, s2: State, t: State)
    requires Sane(s) && c < |s.cpus| && k < MAX_PRIO && s.cpus[c].phase == Scan(k, caller)
    requires s.queues[k] != [] && 0 < s.slots[k] < Bits.WORD
    ensures s1 == Step(s, CpuStep(c, false)) == SetCpu(s, c, s.cpus[c].(phase := ReadSlot(k, caller))) && Sane(s1)
    ensures s2 == Step(s1, CpuStep(c, false)) == SetCpu(s, c, s.cpus[c].(phase := TakeHead(k, caller))) && Sane(s2)
    ensures t == Step(s2, CpuStep(c, false)) && |t.cpus| == |s.cpus|
    ensures t == State(s.queues[k := s.queues[k][1..]], s.slots[k := s.slots[k] - 1], s.pcbs,
                       s.cpus[c := Return(s2.cpus[c], caller, Some(s.queues[k][0]))], s.done, s.quantum)
  {
    s1 := Step(s, CpuStep(c, false));
    s2 := Step(s1, CpuStep(c, false));
    t := Step(s2, CpuStep(c, false));
    PayOne(s.slots[k]);
  }

  /** s is at queue k of the scan. In a restarted scan queue 139 has a process and a slot. */
  ghost predicate AtScan(s: State, c: nat, k: nat, caller: Caller, restarted: bool) {
    && Sane(s) && SlotsFit(s) && c < |s.cpus| && k < MAX_PRIO && s.cpus[c].phase == Scan(k, caller)
    && (restarted ==> s.queues[MAX_PRIO - 1] != [] && s.slots[MAX_PRIO - 1] > 0)
  }

  lemma SoloTake(s: State, c: nat, k: nat, caller: Caller) returns (t: State)
    requires AtScan(s, c, k, caller, false) && Eligible(Scheduled(s), k)
    ensures Solo(s, c, 3, t) && Served(s, c, caller, (Take(Scheduled(s), k), From(k, s.queues[k][0])), t)
  {
    var s1, s2;
    s1, s2, t := TakeSteps(s, c, k, caller);
    assert Solo(t, c, 0, t);
    assert Solo(s2, c, 1, t);
    assert Solo(s1, c, 2, t);
  }

  /** CPU c moves on to another phase of its scan, in one step. */
  lemma SoloOn(s: State, c: nat, s1: State, n: nat, t: State, caller: Caller, r: (Sched, Dispatch))
    requires Sane(s) && c < |s.cpus| && Asking(s.cpus[c].phase) && s1 == Step(s, CpuStep(c, false))
    requires |s1.cpus| == |s.cpus| && s1.cpus == s.cpus[c := s.cpus[c].(phase := s1.cpus[c].phase)]
    requires s1.pcbs == s.pcbs && s1.done == s.done && s1.quantum == s.quantum
    requires Solo(s1, c, n, t) && Served(s1, c, caller, r, t)
    ensures Solo(s, c, n + 1, t) && Served(s, c, caller, r, t)
  {
  }

  /** Undisturbed, the locked steps of get_mlq_proc add up to the scan: same choice, same queues, same slots. */
  lemma {:induction false} SoloScan(s: State, c: nat, k: nat, caller: Caller, restarted: bool) returns (n: nat, t: State)
    requires AtScan(s, c, k, caller, restarted)
    ensures Solo(s, c, n, t) && Served(s, c, caller, ScanFrom(Scheduled(s), k, restarted), t)
    decreases !restarted, MAX_PRIO - k, 1
  {
    if Eligible(Scheduled(s), k) {
      t := SoloTake(s, c, k, caller);
      n := 3;
    } else if k < MAX_PRIO - 1 {
      n, t := SoloPass(s, c, k, caller, restarted);
    } else if s.queues[k] == [] {
      n, t := 1, Step(s, CpuStep(c, false));
      assert Solo(t, c, 0, t);
    } else {
      n, t := SoloLast(s, c, caller);
    }
  }

  /** The steps past a queue that cannot be served: one if it is empty, two if it has no slots. */
  lemma PassSteps(s: State, c: nat, k: nat, caller: Caller, s2: State, n: nat, t: State, r: (Sched, Dispatch)) returns (m: nat)
    requires AtScan(s, c, k, caller, false) && !Eligible(Scheduled(s), k)
    requires k < MAX_PRIO - 1 || s.queues[k] != []
    requires s2 == SetCpu(s, c, s.cpus[c].(phase := if k < MAX_PRIO - 1 then Scan(k + 1, caller) else SetBack(caller)))
    requires Solo(s2, c, n, t) && Served(s2, c, caller, r, t)
    ensures Solo(s, c, m, t) && Served(s, c, caller, r, t)
  {
    if s.queues[k] == [] {
      assert s2 == Step(s, CpuStep(c, false));
      SoloOn(s, c, s2, n, t, caller, r);
      m := n + 1;
    } else {
      var s1, u := SpentSteps(s, c, k, caller);
      SoloOn(s1, c, s2, n, t, caller, r);
      SoloOn(s, c, s1, n + 1, t, caller, r);
      m := n + 2;
    }
  }

  lemma {:induction false} SoloPass(s: State, c: nat, k: nat, caller: Caller, restarted: bool) returns (n: nat, t: State)
    requires AtScan(s, c, k, caller, restarted) && !Eligible(Scheduled(s), k) && k < MAX_PRIO - 1
    ensures Solo(s, c, n, t) && Served(s, c, caller, ScanFrom(Scheduled(s), k, restarted), t)
    decreases !restarted, MAX_PRIO - k, 0
  {
    var s2 := SetCpu(s, c, s.cpus[c].(phase := Scan(k + 1, caller)));
    n, t := SoloScan(s2, c, k + 1, caller, restarted);
    n := PassSteps(s, c, k, caller, s2, n, t, ScanFrom(Scheduled(s), k + 1, restarted));
  }

  /** The two steps past a queue that has processes but no slots. */
  lemma SpentSteps(s: State, c: nat, k: nat, caller: Caller) returns (s1: State, s2: State)
    requires Sane(s) && c < |s.cpus| && k < MAX_PRIO && s.cpus[c].phase == Scan(k, caller)
    requires s.queues[k] != [] && s.slots[k] == 0
    ensures s1 == Step(s, CpuStep(c, false)) == SetCpu(s, c, s.cpus[c].(phase := ReadSlot(k, caller))) && Sane(s1)
    ensures s2 == Step(s1, CpuStep(c, false))
    ensures s2 == SetCpu(s, c, s.cpus[c].(phase := if k < MAX_PRIO - 1 then Scan(k + 1, caller) else SetBack(caller))) && Sane(s2)
  {
    s1 := Step(s, CpuStep(c, false));
    s2 := Step(s1, CpuStep(c, false));
  }

  /** The reset that sets the scan back. */
  lemma SetsBack(s: State, c: nat, caller: Caller) returns (s1: State)
    requires Sane(s) && c < |s.cpus| && s.cpus[c].phase == SetBack(caller) && s.queues[MAX_PRIO - 1] != []
    ensures s1 == Step(s, CpuStep(c, false)) == SetCpu(s.(slots := FullSlots()), c, s.cpus[c].(phase := Scan(1, caller)))
    ensures AtScan(s1, c, 1, caller, true) && Scheduled(s1) == Reset(Scheduled(s))
  {
    s1 := Step(s, CpuStep(c, false));
  }

  lemma {:induction false} SoloLast(s: State, c: nat, caller: Caller) returns (n: nat, t: State)
    requires AtScan(s, c, MAX_PRIO - 1, caller, false) && !Eligible(Scheduled(s), MAX_PRIO - 1) && s.queues[MAX_PRIO - 1] != []
    ensures Solo(s, c, n, t) && Served(s, c, caller, ScanFrom(Scheduled(s), MAX_PRIO - 1, false), t)
    decreases true, 1, 0
  {
    var s2 := SetCpu(s, c, s.cpus[c].(phase := SetBack(caller)));
    var s1 := SetsBack(s2, c, caller);
    n, t := SoloScan(s1, c, 1, caller, true);
    var r := ScanFrom(Reset(Scheduled(s)), 1, true);
    SoloOn(s2, c, s1, n, t, caller, r);
    n := PassSteps(s, c, MAX_PRIO - 1, caller, s2, n + 1, t, r);
  }

  lemma AsksFirst(s: State, c: nat, caller: Caller) returns (s1: State)
    requires Sane(s) && SlotsFit(s) && c < |s.cpus| && s.cpus[c].phase == TestEmpty(caller)
    ensures s1 == Step(s, CpuStep(c, false)) == SetCpu(s, c, s.cpus[c].(phase := Scan(0, caller)))
    ensures AtScan(s1, c, 0, caller, false) && Scheduled(s1) == Scheduled(s)
  {
    s1 := Step(s, CpuStep(c, false));
  }

  lemma SoloAsk(s: State, c: nat, caller: Caller) returns (n: nat, t: State)
    requires Sane(s) && SlotsFit(s) && c < |s.cpus| && s.cpus[c].phase == TestEmpty(caller)
    ensures Solo(s, c, n, t) && Served(s, c, caller, ScanFrom(Scheduled(s), 0, false), t)
  {
    var s1 := AsksFirst(s, c, caller);
    n, t := SoloScan(s1, c, 0, caller, false);
    SoloOn(s, c, s1, n, t, caller, ScanFrom(Scheduled(s), 0, false));
    n := n + 1;
  }

  /** A get_proc that no other thread disturbs returns what the atomic call returns: after a scan, */
  lemma SoloGetProc(s: State, c: nat, caller: Caller) returns (n: nat, t: State)
    requires Sane(s) && SlotsFit(s) && c < |s.cpus| && s.cpus[c].phase == TestEmpty(caller) && !AllEmpty(Scheduled(s))
    ensures Solo(s, c, n, t) && Served(s, c, caller, Get(Scheduled(s)), t)
  {
    n, t := SoloAsk(s, c, caller);
    GetIsScan(Scheduled(s));
  }

  /** or at once, when the queues are empty. */
  lemma SoloGetNothing(s: State, c: nat, caller: Caller)
    requires Sane(s) && c < |s.cpus| && s.cpus[c].phase == TestEmpty(caller) && AllEmpty(Scheduled(s)) && s.cpus[c].proc == None
    ensures Served(s, c, caller, Get(Scheduled(s)), Step(s, CpuStep(c, true)))
  {
  }

  // ----- an undisturbed quantum -----

  lemma SoloMore(s: State, c: nat, s1: State, n: nat, t: State)
    requires c < |s.cpus| && Sane(s) && Enabled(s, CpuStep(c, false)) && s1 == Step(s, CpuStep(c, false)) && c < |s1.cpus|
    requires Solo(s1, c, n, t)
    ensures Solo(s, c, n + 1, t)
  {
  }

  /** CPU c is at the top of its loop with process p, which has code left, and with time left. */
  ghost predicate MidRun(s: State, c: nat, p: Pid) {
    && Inv(s) && Sane(s) && c < |s.cpus| && s.cpus[c].phase == Head && s.cpus[c].proc == Some(p)
    && p in s.pcbs && s.pcbs[p].pc < s.pcbs[p].size && s.cpus[c].timeLeft > 0
  }

  /** t is s after k more instructions of p on CPU c. */
  ghost predicate RanOn(s: State, c: nat, p: Pid, k: nat, t: State)
    requires c < |s.cpus| && p in s.pcbs
  {
    && t.queues == s.queues && t.slots == s.slots && |t.cpus| == |s.cpus| && k <= s.cpus[c].timeLeft
    && t.cpus[c].phase == Head && t.cpus[c].proc == Some(p) && t.cpus[c].timeLeft == s.cpus[c].timeLeft - k
    && p in t.pcbs && t.pcbs[p] == s.pcbs[p].(pc := s.pcbs[p].pc + k)
  }

  /** From the top of the loop to the instruction. */
  lemma ToExec(s: State, c: nat, p: Pid) returns (s2: State)
    requires MidRun(s, c, p)
    ensures s2 == SetCpu(s, c, s.cpus[c].(phase := Exec)) && Inv(s2) && Sane(s2)
    ensures forall n: nat, u: State :: Solo(s2, c, n, u) ==> Solo(s, c, n + 2, u)
  {
    var s1 := Step(s, CpuStep(c, false));
    CpuStepInv(s, c, false);
    InvSane(s1);
    s2 := Step(s1, CpuStep(c, false));
    CpuStepInv(s1, c, false);
    InvSane(s2);
    forall n: nat, u: State | Solo(s2, c, n, u) ensures Solo(s, c, n + 2, u) {
      SoloMore(s1, c, s2, n, u);
      SoloMore(s, c, s1, n + 1, u);
    }
  }

  /** The instruction, the slot's end, and back to the top. */
  lemma ExecToHead(s: State, c: nat, p: Pid) returns (t: State)
    requires Inv(s) && Sane(s) && c < |s.cpus| && s.cpus[c].phase == Exec && s.cpus[c].proc == Some(p)
    requires p in s.pcbs && s.pcbs[p].pc < s.pcbs[p].size && s.cpus[c].timeLeft > 0
    ensures Inv(t) && Sane(t) && RanOn(s, c, p, 1, t)
    ensures forall n: nat, u: State :: Solo(t, c, n, u) ==> Solo(s, c, n + 2, u)
  {
    var s1 := Step(s, CpuStep(c, false));
    CpuStepInv(s, c, false);
    InvSane(s1);
    t := Step(s1, CpuStep(c, false));
    CpuStepInv(s1, c, false);
    InvSane(t);
    forall n: nat, u: State | Solo(t, c, n, u) ensures Solo(s, c, n + 2, u) {
      SoloMore(s1, c, t, n, u);
      SoloMore(s, c, s1, n + 1, u);
    }
  }

  /** One turn of the loop: one instruction, one slot. */
  lemma OneTurn(s: State, c: nat, p: Pid) returns (t: State)
    requires MidRun(s, c, p)
    ensures Inv(t) && Sane(t) && RanOn(s, c, p, 1, t)
    ensures forall n: nat, u: State :: Solo(t, c, n, u) ==> Solo(s, c, n + 4, u)
  {
    var s2 := ToExec(s, c, p);
    t := ExecToHead(s2, c, p);
    forall n: nat, u: State | Solo(t, c, n, u) ensures Solo(s, c, n + 4, u) {
      assert Solo(s2, c, n + 2, u);
    }
  }

  function Least(a: nat, b: nat): nat { if a < b then a else b }

  /** Undisturbed, a process runs one instruction a slot until its time or its code is used up, whichever comes first. */
  lemma {:induction false} SoloQuantum(s: State, c: nat, p: Pid) returns (n: nat, t: State)
    requires MidRun(s, c, p)
    ensures Solo(s, c, n, t) && n == 4 * Least(s.cpus[c].timeLeft, s.pcbs[p].size - s.pcbs[p].pc)
    ensures RanOn(s, c, p, Least(s.cpus[c].timeLeft, s.pcbs[p].size - s.pcbs[p].pc), t)
    decreases s.cpus[c].timeLeft
  {
    var u := OneTurn(s, c, p);
    n, t := 0, u;
    if MidRun(u, c, p) {
      n, t := SoloQuantum(u, c, p);
    }
    assert Solo(u, c, n, t);
    n := n + 4;
  }

  // ----- the race is reachable -----

  lemma TraceOn(init: State, actions: seq<Action>, a: Action)
    requires Trace(init, actions) && Sane(After(init, actions)) && Enabled(After(init, actions), a)
    ensures Trace(init, actions + [a]) && After(init, actions + [a]) == Step(After(init, actions), a)
  {
    assert (actions + [a])[..|actions|] == actions;
  }

  /** Only queue 139 holds a process, and it has a slot. */
  ghost predicate LastAlone(s: State) {
    && Sane(s) && s.queues[MAX_PRIO - 1] != [] && (forall i :: 0 <= i < MAX_PRIO - 1 ==> s.queues[i] == [])
    && s.slots[MAX_PRIO - 1] > 0
  }

  function InPhase(s: State, c: nat, ph: Phase): State
    requires c < |s.cpus|
  {
    SetCpu(s, c, s.cpus[c].(phase := ph))
  }

  lemma ScanOn(s: State, c: nat, k: nat)
    requires c < |s.cpus| && LastAlone(s) && k < MAX_PRIO - 1
    ensures Sane(InPhase(s, c, Scan(k, FirstLoad)))
    ensures Step(InPhase(s, c, Scan(k, FirstLoad)), CpuStep(c, false)) == InPhase(s, c, Scan(k + 1, FirstLoad))
  {
    var t := InPhase(s, c, Scan(k, FirstLoad));
    assert t.queues[k] == [];
    assert InPhase(t, c, Scan(k + 1, FirstLoad)) == InPhase(s, c, Scan(k + 1, FirstLoad));
  }

  lemma Finds(s: State, c: nat)
    requires c < |s.cpus| && LastAlone(s)
    ensures var t, u := InPhase(s, c, Scan(MAX_PRIO - 1, FirstLoad)), InPhase(s, c, ReadSlot(MAX_PRIO - 1, FirstLoad));
            && Sane(t) && Step(t, CpuStep(c, false)) == u
            && Sane(u) && Step(u, CpuStep(c, false)) == InPhase(s, c, TakeHead(MAX_PRIO - 1, FirstLoad))
  {
  }

  /** CPU c scans up to queue k. */
  lemma {:induction false} ScansTo(init: State, before: seq<Action>, s: State, c: nat, k: nat) returns (actions: seq<Action>)
    requires c < |s.cpus| && LastAlone(s) && k < MAX_PRIO
    requires Trace(init, before) && After(init, before) == InPhase(s, c, Scan(0, FirstLoad))
    ensures Trace(init, actions) && After(init, actions) == InPhase(s, c, Scan(k, FirstLoad))
    decreases k
  {
    if k == 0 {
      actions := before;
    } else {
      actions := ScansTo(init, before, s, c, k - 1);
      ScanOn(s, c, k - 1);
      TraceOn(init, actions, CpuStep(c, false));
      actions := actions + [CpuStep(c, false)];
    }
  }

  /** A CPU without a process asks, scans, and comes to the point of dequeuing from queue 139. */
  lemma ComesToTake(init: State, before: seq<Action>, s: State, c: nat) returns (actions: seq<Action>)
    requires c < |s.cpus| && LastAlone(s) && s.cpus[c].phase == Head && s.cpus[c].proc == None
    requires Trace(init, before) && After(init, before) == s
    ensures Trace(init, actions) && After(init, actions) == InPhase(s, c, TakeHead(MAX_PRIO - 1, FirstLoad))
  {
    TraceOn(init, before, CpuStep(c, false));
    TraceOn(init, before + [CpuStep(c, false)], CpuStep(c, false));
    actions := ScansTo(init, before + [CpuStep(c, false)] + [CpuStep(c, false)], s, c, MAX_PRIO - 1);
    Finds(s, c);
    TraceOn(init, actions, CpuStep(c, false));
    TraceOn(init, actions + [CpuStep(c, false)], CpuStep(c, false));
    actions := actions + [CpuStep(c, false)] + [CpuStep(c, false)];
  }

  lemma OneLoaded(quantum: nat, p: Pid, size: nat) returns (actions: seq<Action>, s: State)
    requires quantum > 0
    ensures Trace(InitState(2, quantum), actions) && After(InitState(2, quantum), actions) == s
    ensures LastAlone(s) && s.slots[MAX_PRIO - 1] == 1 && s.cpus == InitState(2, quantum).cpus
  {
    var init := InitState(2, quantum);
    TraceOn(init, [], Load(p, MAX_PRIO - 1, size));
    actions := [] + [Load(p, MAX_PRIO - 1, size)];
    s := Step(init, Load(p, MAX_PRIO - 1, size));
  }

  /** Both CPUs come to the point of dequeuing. */
  lemma BothCome(init: State, before: seq<Action>, s: State) returns (actions: seq<Action>, t: State)
    requires Trace(init, before) && After(init, before) == s && LastAlone(s) && |s.cpus| == 2
    requires s.cpus[0] == s.cpus[1] == Cpu(Head, None, 0, 0, 0)
    ensures Trace(init, actions) && After(init, actions) == t && LastAlone(t) && t.slots == s.slots && |t.cpus| == 2
    ensures t.cpus[0].phase == t.cpus[1].phase == TakeHead(MAX_PRIO - 1, FirstLoad)
  {
    actions := ComesToTake(init, before, s, 0);
    var s1 := InPhase(s, 0, TakeHead(MAX_PRIO - 1, FirstLoad));
    actions := ComesToTake(init, actions, s1, 1);
    t := InPhase(s1, 1, TakeHead(MAX_PRIO - 1, FirstLoad));
  }

  /** The race is an ordinary run: one process of priority 139 is loaded, two idle CPUs look for work, both find it and both
      read its one slot; after their dequeues the slot count is 2^32-1. */
  lemma RaceReachable(quantum: nat, p: Pid, size: nat) returns (actions: seq<Action>)
    requires quantum > 0
    ensures Trace(InitState(2, quantum), actions)
    ensures var t := After(InitState(2, quantum), actions); |t.slots| == MAX_PRIO && t.slots[MAX_PRIO - 1] == Bits.WORD - 1
  {
    var init := InitState(2, quantum);
    var before, s := OneLoaded(quantum, p, size);
    actions, s := BothCome(init, before, s);
    ReachableInv(2, quantum, actions);
    RaceOverdraws(s, 0, 1, MAX_PRIO - 1, FirstLoad, FirstLoad);
    TraceOn(init, actions, CpuStep(0, false));
    TraceOn(init, actions + [CpuStep(0, false)], CpuStep(1, false));
    actions := actions + [CpuStep(0, false)] + [CpuStep(1, false)];
    ReachableInv(2, quantum, actions);
  }
}

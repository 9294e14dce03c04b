/** The ready queues as the code keeps them (src/queue.c, src/sched.c): arrays with a size and a slot count, changed in
    place, and the scan loop whose index is set back inside the loop. */
module SchedulerCode {
  import opened Scheduler

  const MAX_QUEUE_SIZE: nat := 10

  class Queue {
    const proc: array<Pid>
    var size: nat
    var slot: nat

    ghost predicate Valid()
      reads this
    {
      proc.Length == MAX_QUEUE_SIZE && size <= proc.Length
    }

    ghost function Contents(): (s: seq<Pid>)
      requires Valid()
      reads this, proc
    {
      proc[..size]
    }

    constructor (slot: nat)
      ensures Valid() && fresh(proc) && Contents() == [] && this.slot == slot
    {
      proc := new Pid[MAX_QUEUE_SIZE](_ => 0);
      size := 0;
      this.slot := slot;
    }

    /** enqueue; the source does not check for room. */
    method Enqueue(p: Pid)
      requires Valid() && size < MAX_QUEUE_SIZE
      modifies this`size, proc
      ensures Valid() && Contents() == old(Contents()) + [p]
    {
      proc[size] := p;
      size := size + 1;
    }

    /** dequeue: shift everything down by one. */
    method Dequeue() returns (found: bool, p: Pid)
      requires Valid()
      modifies this`size, proc
      ensures Valid() && (found <==> old(Contents()) != [])
      ensures found ==> [p] + Contents() == old(Contents())
      ensures !found ==> Contents() == old(Contents())
    {
      if size == 0 {
        return false, 0;
      }
      found, p := true, proc[0];
      ghost var was := proc[..size];
      for i := 0 to size - 1
        invariant size == old(size)
        invariant forall j :: 0 <= j < i ==> proc[j] == was[j + 1]
        invariant forall j :: i <= j < size ==> proc[j] == was[j]
      {
        proc[i] := proc[i + 1];
      }
      proc[size - 1] := 0;
      size := size - 1;
    }

    /** A dispatch: dequeue and pay one slot. */
    method TakeHead() returns (p: Pid)
      requires Valid() && Contents() != [] && slot > 0
      modifies this`size, this`slot, proc
      ensures Valid() && p == old(Contents())[0] && Contents() == old(Contents())[1..] && slot == old(slot) - 1
    {
      var found;
      found, p := Dequeue();
      slot := slot - 1;
    }
  }

  /** The queues of init_scheduler: empty, each with its budget. */
  method EmptyQueues() returns (qs: seq<Queue>)
    ensures |qs| == MAX_PRIO && fresh(qs)
    ensures forall j :: 0 <= j < MAX_PRIO ==> fresh(qs[j].proc)
    ensures forall j :: 0 <= j < MAX_PRIO ==> qs[j].Valid() && qs[j].Contents() == [] && qs[j].slot == MAX_PRIO - j
    ensures forall j, k :: 0 <= j < k < MAX_PRIO ==> qs[j] != qs[k] && qs[j].proc != qs[k].proc
  {
    qs := [];
    for i := 0 to MAX_PRIO
      invariant |qs| == i && fresh(qs)
      invariant forall j :: 0 <= j < i ==> fresh(qs[j].proc)
      invariant forall j :: 0 <= j < i ==> qs[j].Valid() && qs[j].Contents() == [] && qs[j].slot == MAX_PRIO - j
      invariant forall j, k :: 0 <= j < k < i ==> qs[j] != qs[k] && qs[j].proc != qs[k].proc
    {
      var q := new Queue(MAX_PRIO - i);
      qs := qs + [q];
    }
  }

  class ReadyQueues {
    const mlq: seq<Queue>

    ghost predicate Valid()
      reads this, mlq
    {
      && |mlq| == MAX_PRIO
      && (forall i :: 0 <= i < MAX_PRIO ==> mlq[i].Valid())
      && (forall i, j :: 0 <= i < j < MAX_PRIO ==> mlq[i] != mlq[j] && mlq[i].proc != mlq[j].proc)
    }

    ghost function Arrays(): set<object>
      reads this
    {
      set q | q in mlq :: q.proc
    }

    ghost function View(): (s: Sched)
      requires Valid()
      reads this, mlq, Arrays()
      ensures Sized(s)
      ensures forall i :: 0 <= i < MAX_PRIO ==> s.queues[i] == mlq[i].Contents() && s.slots[i] == mlq[i].slot
    {
      Sched(seq(MAX_PRIO, i requires 0 <= i < MAX_PRIO && Valid() reads this, mlq, Arrays() => mlq[i].Contents()),
            seq(MAX_PRIO, i requires 0 <= i < MAX_PRIO && Valid() reads this, mlq, Arrays() => mlq[i].slot))
    }

    /** init_scheduler */
    constructor ()
      ensures Valid() && fresh(mlq) && (forall i :: 0 <= i < MAX_PRIO ==> fresh(mlq[i].proc))
      ensures View() == InitSched()
    {
      var qs := EmptyQueues();
      mlq := qs;
    }

    /** put_mlq_proc and add_mlq_proc */
    method PutProc(prio: nat, p: Pid)
      requires Valid() && prio < MAX_PRIO && |View().queues[prio]| < MAX_QUEUE_SIZE
      modifies mlq, Arrays()
      ensures Valid() && View() == Put(old(View()), prio, p)
    {
      assert mlq[prio].proc in Arrays();
      mlq[prio].Enqueue(p);
    }

    /** queue_empty; the two queues of the other scheduler are never filled. */
    method QueueEmpty() returns (empty: bool)
      requires Valid()
      ensures empty <==> AllEmpty(View())
    {
      for prio := 0 to MAX_PRIO
        invariant forall i :: 0 <= i < prio ==> mlq[i].Contents() == []
      {
        if mlq[prio].size != 0 {
          assert View().queues[prio] != [];
          return false;
        }
      }
      empty := true;
    }

    /** resetSlot */
    method ResetSlots()
      requires Valid()
      modifies mlq
      ensures Valid() && View() == Reset(old(View()))
    {
      ghost var s := View();
      for i := 0 to MAX_PRIO
        invariant Valid()
        invariant forall j :: 0 <= j < MAX_PRIO ==> mlq[j].Contents() == s.queues[j]
        invariant forall j :: 0 <= j < i ==> mlq[j].slot == MAX_PRIO - j
      {
        mlq[i].slot := MAX_PRIO - i;
      }
    }

    /** The dispatch step of the scan. */
    method TakeFrom(prio: nat) returns (p: Pid)
      requires Valid() && prio < MAX_PRIO && Eligible(View(), prio)
      modifies mlq, Arrays()
      ensures Valid() && View() == Take(old(View()), prio) && p == old(View()).queues[prio][0]
    {
      ghost var s := View();
      assert mlq[prio].proc in Arrays();
      p := mlq[prio].TakeHead();
      assert forall j :: 0 <= j < MAX_PRIO && j != prio ==> mlq[j].Contents() == s.queues[j] && mlq[j].slot == s.slots[j];
      assert View().queues == Take(s, prio).queues && View().slots == Take(s, prio).slots;
    }

    /** The end of a scan that found no slot: reset, and tell whether queue 139 makes it start over. */
    method EndScan(ghost s: Sched) returns (again: bool)
      requires Valid() && Scanning(s, View(), MAX_PRIO - 1, false) && !Eligible(View(), MAX_PRIO - 1)
      modifies mlq
      ensures Valid() && Scanning(s, View(), if again then 1 else MAX_PRIO, again)
    {
      ScanPass(s, View(), MAX_PRIO - 1, false);
      again := mlq[MAX_PRIO - 1].size != 0;
      ResetSlots();
    }

    /** One round of the scan: serve the queue, pass it, or at the last one reset. The index returned is the next to look
        at; it goes back to 1 when the scan starts over. */
    method ScanQueue(k: nat, ghost s: Sched, ghost restarted: bool) returns (d: Dispatch, next: nat, ghost again: bool)
      requires Valid() && k < MAX_PRIO && Scanning(s, View(), k, restarted)
      modifies mlq, Arrays()
      ensures Valid()
      ensures d.From? ==> (View(), d) == Get(s)
      ensures d.Nothing? ==> Scanning(s, View(), next, again)
      ensures d.Nothing? ==> (again && !restarted) || (again == restarted && next == k + 1)
    {
      d, next, again := Nothing, k + 1, restarted;
      ghost var v := View();
      if mlq[k].size != 0 && mlq[k].slot > 0 {
        ScanHit(s, v, k, restarted);
        var p := TakeFrom(k);
        d := From(k, p);
      } else {
        ScanPass(s, v, k, restarted);
        if k == MAX_PRIO - 1 {
          var over := EndScan(s);
          next, again := if over then 1 else MAX_PRIO, over;
        }
      }
    }

    /** get_mlq_proc, called atomically. The index is set back at most once: after a restart queue 139 has a process and a
        slot, so the scan ends at it at the latest. */
    method GetProc() returns (d: Dispatch)
      requires Valid()
      modifies mlq, Arrays()
      ensures Valid() && (View(), d) == Get(old(View()))
    {
      var empty := QueueEmpty();
      if empty {
        return Nothing;
      }
      ghost var s, restarted := View(), false;
      var prioSelect: nat := 0;
      d := Nothing;
      while prioSelect < MAX_PRIO
        invariant Valid() && d == Nothing && Scanning(s, View(), prioSelect, restarted)
        decreases !restarted, MAX_PRIO - prioSelect
      {
        d, prioSelect, restarted := ScanQueue(prioSelect, s, restarted);
        if d != Nothing {
          return;
        }
      }
      ScanOver(s, View(), restarted);
    }
  }
}

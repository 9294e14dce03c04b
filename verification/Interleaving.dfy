/** The paging engine under any interleaving of the processes that use it (src/mm.c, src/mm-vm.c, src/mm-memphy.c).

    Faults and mappings of different processes run on different CPUs at once. Only the frame lists are locked, call by call, so a
    step here is one such call, the copy of one byte, or the setting of one entry. A process is on one CPU at a time, so it has at
    most one task under way.
 */
module Interleaving {
  import opened PageEntry
  import opened Paging
  import opened MemoryRuns
  import opened Counting
  import FrameLists

  /** The local variables of pg_getpage: the page, the victim, the victim's frame and the swap frame to bring in. */
  datatype Vars = Vars(g: nat, vic: nat, f: nat, t: nat)

  /** How far a process is in vm_map_ram or in the fault path of pg_getpage. `rs` and `ws` are the frames that
      alloc_pages_range has taken from RAM and swap, last one first; `es` are the entries still to be set from page g on; i bytes
      have been copied. */
  datatype Task =
    | Idle
    | TryRam(g: nat, left: nat, rs: seq<nat>, ws: seq<nat>)
    | TrySwap(g: nat, left: nat, rs: seq<nat>, ws: seq<nat>)
    | NoteRam(g: nat, left: nat, rs: seq<nat>, ws: seq<nat>)
    | NoteSwap(g: nat, left: nat, rs: seq<nat>, ws: seq<nat>)
    | SetEntries(g: nat, es: seq<Entry>)
    | NeedSwap(v: Vars)
    | CopyOut(v: Vars, o: nat, i: nat)
    | CopyIn(v: Vars, o: nat, i: nat)
    | SetTarget(v: Vars)

  datatype Sys = Sys(m: Machine, tasks: seq<Task>)

  /** The last is pg_setval's write to RAM, through whichever frame pg_getpage returned. */
  datatype Action =
    | Load
    | StartMap(p: nat, g: nat, n: nat)
    | StartFault(p: nat, g: nat)
    | Go(p: nat)
    | Store(p: nat, f: nat, off: nat, v: Byte)

  predicate TakesFrames(t: Task) { t.TryRam? || t.TrySwap? || t.NoteRam? || t.NoteSwap? }

  /** What a task relies on in its own process's table. */
  predicate Fits(m: Machine, p: nat, t: Task)
    requires IsPage(m, p, 0)
  {
    var pgd := m.mms[p].pgd;
    match t
    case Idle => true
    case TryRam(g, left, rs, ws) => g + left + |rs| + |ws| <= MAX_PGN
    case TrySwap(g, left, rs, ws) => left > 0 && g + left + |rs| + |ws| <= MAX_PGN
    case NoteRam(g, left, rs, ws) => rs != [] && g + left + |rs| + |ws| <= MAX_PGN
    case NoteSwap(g, left, rs, ws) => ws != [] && g + left + |rs| + |ws| <= MAX_PGN
    case SetEntries(g, es) => g + |es| <= MAX_PGN
    case NeedSwap(v) => FaultFits(m, pgd, v) && pgd[v.vic] == Resident(v.f)
    case CopyOut(v, o, i) => FaultFits(m, pgd, v) && pgd[v.vic] == Resident(v.f) && o < |m.swp.frames| && i <= PAGE_SIZE
    case CopyIn(v, o, i) => FaultFits(m, pgd, v) && pgd[v.vic] == Resident(v.f) && o < |m.swp.frames| && i <= PAGE_SIZE
    case SetTarget(v) => FaultFits(m, pgd, v)
  }

  predicate FaultFits(m: Machine, pgd: seq<Entry>, v: Vars)
    requires |pgd| == MAX_PGN
  {
    && v.g < MAX_PGN && v.vic < MAX_PGN && v.g != v.vic && v.f < |m.ram.frames|
    && !pgd[v.g].Resident? && v.t == SwapSource(pgd[v.g]) && v.t < |m.swp.frames|
  }

  predicate Sane(s: Sys) {
    && |s.tasks| == |s.m.mms|
    && (forall p :: 0 <= p < |s.tasks| ==> IsPage(s.m, p, 0) && Fits(s.m, p, s.tasks[p]))
    && (forall i :: 0 <= i < |s.m.ram.free| ==> s.m.ram.free[i] < |s.m.ram.frames|)
    && (forall i :: 0 <= i < |s.m.swp.free| ==> s.m.swp.free[i] < |s.m.swp.frames|)
  }

  /** A fault needs a victim and, by the time it asks, a free swap frame; without one the source goes on with an undefined
      frame number. */
  predicate Enabled(s: Sys, a: Action) {
    match a
    case Load => true
    case StartMap(p, g, n) => p < |s.tasks| && s.tasks[p].Idle? && g + n < MAX_PGN
    case StartFault(p, g) =>
      && p < |s.tasks| && s.tasks[p].Idle? && IsPage(s.m, p, g) && !EntryOf(s.m, p, g).Resident? && HasVictim(s.m, p)
      && EntryOf(s.m, p, VictimOf(s.m, p)).fpn < |s.m.ram.frames| && SwapSource(EntryOf(s.m, p, g)) < |s.m.swp.frames|
    case Go(p) => p < |s.tasks| && (s.tasks[p].NeedSwap? ==> s.m.swp.free != [])
    case Store(p, f, off, v) => p < |s.tasks| && s.tasks[p].Idle? && f < |s.m.ram.frames| && off < PAGE_SIZE
  }

  function SetTask(s: Sys, p: nat, t: Task): Sys
    requires p < |s.tasks|
  {
    s.(tasks := s.tasks[p := t])
  }

  /** pte_set_fpn or pte_set_swap on one entry, and what goes on the page list. */
  function SetEntry(m: Machine, p: nat, g: nat, e: Entry, listed: seq<nat>): Machine
    requires IsPage(m, p, g)
  {
    m.(mms := m.mms[p := m.mms[p].(pgd := m.mms[p].pgd[g := e], fifo := listed + m.mms[p].fifo)])
  }

  function StepMap(s: Sys, p: nat): Sys
    requires Sane(s) && p < |s.tasks| && (TakesFrames(s.tasks[p]) || s.tasks[p].SetEntries?)
  {
    var m := s.m;
    match s.tasks[p]
    case TryRam(g, left, rs, ws) =>
      if left == 0 then SetTask(s, p, SetEntries(g, Residents(rs) + Swappeds(ws)))
      else if m.ram.free == [] then SetTask(s, p, TrySwap(g, left, rs, ws))
      else SetTask(s.(m := m.(ram := m.ram.(free := m.ram.free[1..]))), p, NoteRam(g, left - 1, [m.ram.free[0]] + rs, ws))
    case TrySwap(g, left, rs, ws) =>
      if m.swp.free == [] then SetTask(s, p, Idle)
      else SetTask(s.(m := m.(swp := m.swp.(free := m.swp.free[1..]))), p, NoteSwap(g, left - 1, rs, [m.swp.free[0]] + ws))
    case NoteRam(g, left, rs, ws) =>
      SetTask(s.(m := m.(ram := m.ram.(used := [rs[0]] + m.ram.used))), p, TryRam(g, left, rs, ws))
    case NoteSwap(g, left, rs, ws) =>
      SetTask(s.(m := m.(swp := m.swp.(used := [ws[0]] + m.swp.used))), p, TryRam(g, left, rs, ws))
    case SetEntries(g, es) =>
      if es == [] then SetTask(s, p, Idle)
      else SetTask(s.(m := SetEntry(m, p, g, es[0], [g + 1])), p, SetEntries(g + 1, es[1..]))
  }

  function CopyByte(dst: Page, src: Page, i: nat): Page
    requires i < PAGE_SIZE
  {
    dst[i := src[i]]
  }

  function StepFault(s: Sys, p: nat): Sys
    requires Sane(s) && Enabled(s, Go(p)) && !s.tasks[p].Idle? && !TakesFrames(s.tasks[p]) && !s.tasks[p].SetEntries?
  {
    var m := s.m;
    match s.tasks[p]
    case NeedSwap(v) => SetTask(s.(m := m.(swp := m.swp.(free := m.swp.free[1..]))), p, CopyOut(v, m.swp.free[0], 0))
    case CopyOut(v, o, i) =>
      if i == PAGE_SIZE then SetTask(s, p, CopyIn(v, o, 0))
      else
        var frames := m.swp.frames[o := CopyByte(m.swp.frames[o], m.ram.frames[v.f], i)];
        SetTask(s.(m := m.(swp := m.swp.(frames := frames))), p, CopyOut(v, o, i + 1))
    case CopyIn(v, o, i) =>
      if i == PAGE_SIZE then SetTask(s.(m := SetEntry(m, p, v.vic, Swapped(o), [])), p, SetTarget(v))
      else
        var frames := m.ram.frames[v.f := CopyByte(m.ram.frames[v.f], m.swp.frames[v.t], i)];
        SetTask(s.(m := m.(ram := m.ram.(frames := frames))), p, CopyIn(v, o, i + 1))
    case SetTarget(v) => SetTask(s.(m := SetEntry(m, p, v.g, Resident(v.f), [v.g])), p, Idle)
  }

  function VarsOf(m: Machine, p: nat, g: nat): Vars
    requires IsPage(m, p, g) && HasVictim(m, p)
  {
    Vars(g, VictimOf(m, p), EntryOf(m, p, VictimOf(m, p)).fpn, SwapSource(EntryOf(m, p, g)))
  }

  function Step(s: Sys, a: Action): Sys
    requires Sane(s) && Enabled(s, a)
  {
    match a
    case Load => Sys(s.m.(mms := s.m.mms + [InitMm()]), s.tasks + [Idle])
    case StartMap(p, g, n) => SetTask(s, p, TryRam(g, n, [], []))
    case StartFault(p, g) => SetTask(s, p, NeedSwap(VarsOf(s.m, p, g)))
    case Go(p) =>
      if s.tasks[p].Idle? then s
      else if TakesFrames(s.tasks[p]) || s.tasks[p].SetEntries? then StepMap(s, p)
      else StepFault(s, p)
    case Store(p, f, off, v) => s.(m := StoreByte(s.m, f, off, v))
  }

  // ----- who owns each frame -----

  /** The frames a task has in hand: taken from a free list, or from an entry, and not yet named by one. */
  function Hand(t: Task): seq<Entry> {
    match t
    case TryRam(_, _, rs, ws) => Residents(rs) + Swappeds(ws)
    case TrySwap(_, _, rs, ws) => Residents(rs) + Swappeds(ws)
    case NoteRam(_, _, rs, ws) => Residents(rs) + Swappeds(ws)
    case NoteSwap(_, _, rs, ws) => Residents(rs) + Swappeds(ws)
    case SetEntries(_, es) => es
    case CopyOut(_, o, _) => [Swapped(o)]
    case CopyIn(_, o, _) => [Swapped(o)]
    case SetTarget(v) => [Resident(v.f)]
    case Idle => []
    case NeedSwap(_) => []
  }

  /** How often a process claims a frame: by entries of its table, and in hand. */
  ghost function Claims(mm: Mm, t: Task, e: Entry): nat { multiset(mm.pgd)[e] + multiset(Hand(t))[e] }

  /** The claims of each process. */
  ghost function ClaimsOf(mms: seq<Mm>, tasks: seq<Task>, e: Entry): (cs: seq<nat>)
    requires |mms| == |tasks|
    ensures |cs| == |mms| && forall p :: 0 <= p < |cs| ==> cs[p] == Claims(mms[p], tasks[p], e)
  {
    seq(|mms|, p requires 0 <= p < |mms| => Claims(mms[p], tasks[p], e))
  }

  ghost function Owners(mms: seq<Mm>, tasks: seq<Task>, e: Entry): nat
    requires |mms| == |tasks|
  {
    Sum(ClaimsOf(mms, tasks, e))
  }

  ghost function FreeCount(m: Machine, e: Entry): nat {
    match e
    case Unmapped => 0
    case Resident(f) => multiset(m.ram.free)[f]
    case Swapped(o) => multiset(m.swp.free)[o]
  }

  /** How often a frame is free, in hand or named by an entry, over all processes. */
  ghost function Total(s: Sys, e: Entry): nat
    requires |s.tasks| == |s.m.mms|
  {
    FreeCount(s.m, e) + Owners(s.m.mms, s.tasks, e)
  }

  /** Every frame of RAM and swap is free once, in one hand or named by one entry, or none of these; nothing else is. */
  ghost predicate Accounted(s: Sys)
    requires |s.tasks| == |s.m.mms|
  {
    forall e :: e != Unmapped ==> Total(s, e) <= One(Stored(s.m, e))
  }

  lemma OwnersUpdate(mms: seq<Mm>, tasks: seq<Task>, p: nat, mm: Mm, t: Task, e: Entry)
    requires |mms| == |tasks| && p < |mms|
    ensures Owners(mms[p := mm], tasks[p := t], e) == Owners(mms, tasks, e) - Claims(mms[p], tasks[p], e) + Claims(mm, t, e)
  {
    var cs := ClaimsOf(mms, tasks, e);
    assert ClaimsOf(mms[p := mm], tasks[p := t], e) == cs[p := Claims(mm, t, e)];
    SumUpdate(cs, p, Claims(mm, t, e));
  }

  lemma OwnersAppend(mms: seq<Mm>, tasks: seq<Task>, mm: Mm, t: Task, e: Entry)
    requires |mms| == |tasks|
    ensures Owners(mms + [mm], tasks + [t], e) == Owners(mms, tasks, e) + Claims(mm, t, e)
  {
    assert ClaimsOf(mms + [mm], tasks + [t], e) == ClaimsOf(mms, tasks, e) + [Claims(mm, t, e)];
    SumAppend(ClaimsOf(mms, tasks, e), Claims(mm, t, e));
  }

  lemma ResidentsCons(f: nat, rs: seq<nat>)
    ensures Residents([f] + rs) == [Resident(f)] + Residents(rs)
    ensures Swappeds([f] + rs) == [Swapped(f)] + Swappeds(rs)
  {
  }

  lemma UnmappedNone(n: nat, e: Entry)
    requires e != Unmapped
    ensures multiset(seq(n, _ => Unmapped))[e] == 0
  {
    assert e !in seq(n, _ => Unmapped);
  }

  /** s' differs from s in process p alone. */
  predicate OnlyRow(s: Sys, s': Sys, p: nat)
    requires p < |s.tasks| == |s.m.mms|
  {
    && |s'.tasks| == |s.tasks| && |s'.m.mms| == |s.m.mms|
    && s'.m.mms == s.m.mms[p := s'.m.mms[p]] && s'.tasks == s.tasks[p := s'.tasks[p]]
  }

  /** The claims of p on a frame, and the free list's. */
  ghost function Stake(s: Sys, p: nat, e: Entry): nat
    requires p < |s.tasks| == |s.m.mms|
  {
    FreeCount(s.m, e) + Claims(s.m.mms[p], s.tasks[p], e)
  }

  lemma SetCount(pgd: seq<Entry>, g: nat, x: Entry, e: Entry)
    requires g < |pgd|
    ensures multiset(pgd[g := x])[e] == multiset(pgd)[e] - One(pgd[g] == e) + One(x == e)
  {
  }

  lemma HeadCount<T>(l: seq<T>, e: T)
    requires l != []
    ensures multiset(l)[e] == multiset(l[1..])[e] + One(l[0] == e)
  {
    assert l == [l[0]] + l[1..];
  }

  /** s' has the tables of s, and process p another task. */
  predicate OnlyTask(s: Sys, s': Sys, p: nat)
    requires p < |s.tasks| == |s.m.mms|
  {
    s'.m.mms == s.m.mms && |s'.tasks| == |s.tasks| && s'.tasks == s.tasks[p := s'.tasks[p]]
  }

  lemma SameStake(s: Sys, s': Sys, p: nat, e: Entry)
    requires p < |s.tasks| == |s.m.mms| && OnlyTask(s, s', p)
    requires s'.m.ram.free == s.m.ram.free && s'.m.swp.free == s.m.swp.free
    requires multiset(Hand(s'.tasks[p])) <= multiset(Hand(s.tasks[p]))
    ensures OnlyRow(s, s', p) && Stake(s', p, e) <= Stake(s, p, e)
  {
  }

  /** Taking a frame: the hand gains what the free list loses. */
  lemma TakeRamStake(s: Sys, s': Sys, p: nat, e: Entry)
    requires p < |s.tasks| == |s.m.mms| && OnlyTask(s, s', p) && e != Unmapped
    requires s.m.ram.free != [] && s'.m.ram.free == s.m.ram.free[1..] && s'.m.swp.free == s.m.swp.free
    requires multiset(Hand(s'.tasks[p])) == multiset{Resident(s.m.ram.free[0])} + multiset(Hand(s.tasks[p]))
    ensures OnlyRow(s, s', p) && Stake(s', p, e) <= Stake(s, p, e)
  {
    if e.Resident? {
      HeadCount(s.m.ram.free, e.fpn);
    }
  }

  lemma TakeSwapStake(s: Sys, s': Sys, p: nat, e: Entry)
    requires p < |s.tasks| == |s.m.mms| && OnlyTask(s, s', p) && e != Unmapped
    requires s.m.swp.free != [] && s'.m.swp.free == s.m.swp.free[1..] && s'.m.ram.free == s.m.ram.free
    requires multiset(Hand(s'.tasks[p])) == multiset{Swapped(s.m.swp.free[0])} + multiset(Hand(s.tasks[p]))
    ensures OnlyRow(s, s', p) && Stake(s', p, e) <= Stake(s, p, e)
  {
    if e.Swapped? {
      HeadCount(s.m.swp.free, e.swp);
    }
  }

  lemma TryRamClaims(s: Sys, p: nat, e: Entry)
    requires Sane(s) && p < |s.tasks| && e != Unmapped && s.tasks[p].TryRam?
    ensures OnlyRow(s, StepMap(s, p), p) && Stake(StepMap(s, p), p, e) <= Stake(s, p, e)
  {
    var t, s' := s.tasks[p], StepMap(s, p);
    if t.left > 0 && s.m.ram.free != [] {
      ResidentsCons(s.m.ram.free[0], t.rs);
      TakeRamStake(s, s', p, e);
    } else {
      SameStake(s, s', p, e);
    }
  }

  lemma TrySwapClaims(s: Sys, p: nat, e: Entry)
    requires Sane(s) && p < |s.tasks| && e != Unmapped && s.tasks[p].TrySwap?
    ensures OnlyRow(s, StepMap(s, p), p) && Stake(StepMap(s, p), p, e) <= Stake(s, p, e)
  {
    var t, s' := s.tasks[p], StepMap(s, p);
    if s.m.swp.free != [] {
      ResidentsCons(s.m.swp.free[0], t.ws);
      TakeSwapStake(s, s', p, e);
    } else {
      SameStake(s, s', p, e);
    }
  }

  /** Noting a frame as used and setting an entry move what is in hand; the entry overwritten is let go. */
  lemma SetClaims(s: Sys, p: nat, e: Entry)
    requires Sane(s) && p < |s.tasks| && e != Unmapped
    requires s.tasks[p].NoteRam? || s.tasks[p].NoteSwap? || s.tasks[p].SetEntries?
    ensures OnlyRow(s, StepMap(s, p), p) && Stake(StepMap(s, p), p, e) <= Stake(s, p, e)
  {
    var t := s.tasks[p];
    if t.SetEntries? && t.es != [] {
      SetCount(s.m.mms[p].pgd, t.g, t.es[0], e);
      HeadCount(t.es, e);
    } else {
      SameStake(s, StepMap(s, p), p, e);
    }
  }

  /** A fault takes one swap frame, */
  lemma NeedSwapClaims(s: Sys, p: nat, e: Entry)
    requires Sane(s) && Enabled(s, Go(p)) && e != Unmapped && s.tasks[p].NeedSwap?
    ensures OnlyRow(s, StepFault(s, p), p) && Stake(StepFault(s, p), p, e) <= Stake(s, p, e)
  {
    TakeSwapStake(s, StepFault(s, p), p, e);
  }

  /** copies, */
  lemma CopyClaims(s: Sys, p: nat, e: Entry)
    requires Sane(s) && Enabled(s, Go(p)) && e != Unmapped
    requires s.tasks[p].CopyOut? || (s.tasks[p].CopyIn? && s.tasks[p].i < PAGE_SIZE)
    ensures OnlyRow(s, StepFault(s, p), p) && Stake(StepFault(s, p), p, e) <= Stake(s, p, e)
  {
    SameStake(s, StepFault(s, p), p, e);
  }

  /** exchanges that frame for the victim's, and lets the swap frame go that it brought in. */
  lemma ExchangeClaims(s: Sys, p: nat, e: Entry)
    requires Sane(s) && p < |s.tasks| && e != Unmapped
    requires s.tasks[p].SetTarget? || (s.tasks[p].CopyIn? && s.tasks[p].i == PAGE_SIZE)
    ensures OnlyRow(s, StepFault(s, p), p) && Stake(StepFault(s, p), p, e) <= Stake(s, p, e)
  {
    var t, pgd := s.tasks[p], s.m.mms[p].pgd;
    if t.CopyIn? {
      SetCount(pgd, t.v.vic, Swapped(t.o), e);
      assert multiset([Swapped(t.o)])[e] == One(Swapped(t.o) == e);
    } else {
      SetCount(pgd, t.v.g, Resident(t.v.f), e);
    }
    assert multiset([Resident(t.v.f)])[e] == One(Resident(t.v.f) == e);
  }

  lemma GoClaims(s: Sys, p: nat, e: Entry)
    requires Sane(s) && Enabled(s, Go(p)) && e != Unmapped && !s.tasks[p].Idle?
    ensures OnlyRow(s, Step(s, Go(p)), p) && Stake(Step(s, Go(p)), p, e) <= Stake(s, p, e)
  {
    var t := s.tasks[p];
    if t.TryRam? {
      TryRamClaims(s, p, e);
    } else if t.TrySwap? {
      TrySwapClaims(s, p, e);
    } else if TakesFrames(t) || t.SetEntries? {
      SetClaims(s, p, e);
    } else if t.SetTarget? || (t.CopyIn? && t.i == PAGE_SIZE) {
      ExchangeClaims(s, p, e);
    } else if t.NeedSwap? {
      NeedSwapClaims(s, p, e);
    } else {
      CopyClaims(s, p, e);
    }
  }

  /** No step makes a second owner for a frame: what one process gains, the free list or its own table or hand loses. */
  lemma StepTotal(s: Sys, a: Action, e: Entry)
    requires Sane(s) && Enabled(s, a) && e != Unmapped
    ensures |Step(s, a).tasks| == |Step(s, a).m.mms|
    ensures Total(Step(s, a), e) <= Total(s, e)
  {
    var s' := Step(s, a);
    if a.Load? {
      OwnersAppend(s.m.mms, s.tasks, InitMm(), Idle, e);
      UnmappedNone(MAX_PGN, e);
    } else {
      if a.Go? && !s.tasks[a.p].Idle? {
        GoClaims(s, a.p, e);
      } else {
        SameStake(s, s', a.p, e);
      }
      OwnersUpdate(s.m.mms, s.tasks, a.p, s'.m.mms[a.p], s'.tasks[a.p], e);
    }
  }

  // ----- every interleaving -----

  lemma StepSane(s: Sys, a: Action)
    requires Sane(s) && Enabled(s, a)
    ensures Sane(Step(s, a))
  {
    var s' := Step(s, a);
    if a.Load? {
      forall p | 0 <= p < |s'.tasks| ensures IsPage(s'.m, p, 0) && Fits(s'.m, p, s'.tasks[p]) {
        if p < |s.tasks| {
          assert IsPage(s.m, p, 0) && Fits(s.m, p, s.tasks[p]);
        }
      }
    } else {
      OwnFits(s, a);
      forall p | 0 <= p < |s'.tasks| ensures IsPage(s'.m, p, 0) && Fits(s'.m, p, s'.tasks[p]) {
        if p != a.p {
          assert IsPage(s.m, p, 0) && Fits(s.m, p, s.tasks[p]);
          assert s'.tasks[p] == s.tasks[p] && s'.m.mms[p] == s.m.mms[p];
        }
      }
    }
  }

  /** s' comes from s by a step of process p: the rest of the tables stays, devices keep their sizes, free lists lose at most
      their heads. */
  predicate RowStep(s: Sys, s': Sys, p: nat)
    requires p < |s.tasks| == |s.m.mms|
  {
    && OnlyRow(s, s', p) && IsPage(s'.m, p, 0) && Fits(s'.m, p, s'.tasks[p])
    && |s'.m.ram.frames| == |s.m.ram.frames| && |s'.m.swp.frames| == |s.m.swp.frames|
    && (s'.m.ram.free == s.m.ram.free || (s.m.ram.free != [] && s'.m.ram.free == s.m.ram.free[1..]))
    && (s'.m.swp.free == s.m.swp.free || (s.m.swp.free != [] && s'.m.swp.free == s.m.swp.free[1..]))
  }

  lemma MapFits(s: Sys, p: nat)
    requires Sane(s) && p < |s.tasks| && (TakesFrames(s.tasks[p]) || s.tasks[p].SetEntries?)
    ensures RowStep(s, StepMap(s, p), p)
  {
    assert IsPage(s.m, p, 0) && Fits(s.m, p, s.tasks[p]);
  }

  lemma FaultStepFits(s: Sys, p: nat)
    requires Sane(s) && Enabled(s, Go(p)) && !s.tasks[p].Idle? && !TakesFrames(s.tasks[p]) && !s.tasks[p].SetEntries?
    ensures RowStep(s, StepFault(s, p), p)
  {
    assert IsPage(s.m, p, 0) && Fits(s.m, p, s.tasks[p]);
  }

  lemma OwnFits(s: Sys, a: Action)
    requires Sane(s) && Enabled(s, a) && !a.Load?
    ensures RowStep(s, Step(s, a), a.p)
  {
    assert IsPage(s.m, a.p, 0) && Fits(s.m, a.p, s.tasks[a.p]);
    if a.Go? && !s.tasks[a.p].Idle? {
      if TakesFrames(s.tasks[a.p]) || s.tasks[a.p].SetEntries? {
        MapFits(s, a.p);
      } else {
        FaultStepFits(s, a.p);
      }
    }
  }

  /** Every step of every process keeps each frame free once, in one hand, or named by one entry. */
  lemma StepAccounted(s: Sys, a: Action)
    requires Sane(s) && Accounted(s) && Enabled(s, a)
    ensures Sane(Step(s, a)) && Accounted(Step(s, a))
  {
    var s' := Step(s, a);
    StepSane(s, a);
    if !a.Load? {
      OwnFits(s, a);
    }
    forall e | e != Unmapped ensures Total(s', e) <= One(Stored(s'.m, e)) {
      StepTotal(s, a, e);
    }
  }

  ghost predicate Trace(s: Sys, actions: seq<Action>)
    decreases |actions|
  {
    actions == [] || (Sane(s) && Enabled(s, actions[0]) && Trace(Step(s, actions[0]), actions[1..]))
  }

  ghost function After(s: Sys, actions: seq<Action>): Sys
    requires Trace(s, actions)
    decreases |actions|
  {
    if actions == [] then s else After(Step(s, actions[0]), actions[1..])
  }

  /** Over every interleaving of any number of processes, with mappings that fail half way and writes that go astray, no frame
      of RAM or swap ever has two owners. */
  lemma {:induction false} RunAccounted(s: Sys, actions: seq<Action>)
    requires Sane(s) && Accounted(s) && Trace(s, actions)
    ensures Sane(After(s, actions)) && Accounted(After(s, actions))
    decreases |actions|
  {
    if actions != [] {
      StepAccounted(s, actions[0]);
      RunAccounted(Step(s, actions[0]), actions[1..]);
    }
  }

  /** A frame that a process claims is claimed once, by no other process, and is not free. */
  lemma SoleOwner(s: Sys, p: nat, e: Entry)
    requires Sane(s) && Accounted(s) && p < |s.tasks| && e != Unmapped && Claims(s.m.mms[p], s.tasks[p], e) > 0
    ensures Claims(s.m.mms[p], s.tasks[p], e) == 1 && FreeCount(s.m, e) == 0 && Stored(s.m, e)
    ensures forall q :: 0 <= q < |s.tasks| && q != p ==> Claims(s.m.mms[q], s.tasks[q], e) == 0
  {
    assert Total(s, e) <= One(Stored(s.m, e));
    var cs := ClaimsOf(s.m.mms, s.tasks, e);
    SumAtLeast(cs, p);
    forall q | 0 <= q < |s.tasks| && q != p ensures Claims(s.m.mms[q], s.tasks[q], e) == 0 {
      SumOfTwo(cs, p, q);
    }
  }

  lemma CountTwice<T>(l: seq<T>, i: nat, j: nat)
    requires i < j < |l| && l[i] == l[j]
    ensures multiset(l)[l[i]] >= 2
  {
    assert l == l[..i] + [l[i]] + l[i + 1..j] + [l[j]] + l[j + 1..];
  }

  /** In particular the tables are sound at every point of every interleaving: mapped entries name frames that are not free, and
      no two entries name the same one. */
  lemma TablesSound(s: Sys)
    requires Sane(s) && Accounted(s)
    ensures Located(s.m) && Unshared(s.m)
  {
    forall p: nat, g: nat | IsPage(s.m, p, g) && EntryOf(s.m, p, g) != Unmapped
      ensures Stored(s.m, EntryOf(s.m, p, g)) && !IsFree(s.m, EntryOf(s.m, p, g))
    {
      SoleOwner(s, p, EntryOf(s.m, p, g));
    }
    forall p: nat, g: nat, q: nat, h: nat | IsPage(s.m, p, g) && IsPage(s.m, q, h) && EntryOf(s.m, p, g) != Unmapped
                                            && EntryOf(s.m, p, g) == EntryOf(s.m, q, h)
      ensures p == q && g == h
    {
      SoleOwner(s, p, EntryOf(s.m, p, g));
      if p == q && g != h {
        CountTwice(s.m.mms[p].pgd, if g < h then g else h, if g < h then h else g);
      }
    }
  }

  // ----- the RAM lists -----

  function HandOf(t: Task): FrameLists.Hand {
    if t.NoteRam? && t.rs != [] then FrameLists.Carrying(t.rs[0]) else FrameLists.Idle
  }

  function Hands(tasks: seq<Task>): (hs: seq<FrameLists.Hand>)
    ensures |hs| == |tasks|
  {
    seq(|tasks|, p requires 0 <= p < |tasks| => HandOf(tasks[p]))
  }

  /** The RAM lists, and the frames between them. */
  function RamLists(s: Sys): FrameLists.Lists { FrameLists.Lists(s.m.ram.free, s.m.ram.used, Hands(s.tasks)) }

  lemma {:induction false} CarriedIdle(hs: seq<FrameLists.Hand>, f: nat)
    ensures FrameLists.Carried(hs + [FrameLists.Idle], f) == FrameLists.Carried(hs, f)
  {
    if hs == [] {
      assert hs + [FrameLists.Idle] == [FrameLists.Idle];
    } else {
      assert (hs + [FrameLists.Idle])[1..] == hs[1..] + [FrameLists.Idle];
      CarriedIdle(hs[1..], f);
    }
  }

  lemma HandsUpdate(tasks: seq<Task>, p: nat, t: Task)
    requires p < |tasks|
    ensures Hands(tasks[p := t]) == Hands(tasks)[p := HandOf(t)]
  {
  }

  /** Every step keeps each RAM frame in exactly one of the free list, the used list and one hand. */
  lemma StepRamTracked(s: Sys, a: Action, n: nat)
    requires Sane(s) && Enabled(s, a) && FrameLists.Tracked(RamLists(s), n)
    ensures FrameLists.Tracked(RamLists(Step(s, a)), n)
  {
    var s', l := Step(s, a), RamLists(s);
    if a.Load? {
      assert Hands(s'.tasks) == Hands(s.tasks) + [FrameLists.Idle];
      forall f: nat
        ensures multiset(s'.m.ram.free)[f] + multiset(s'.m.ram.used)[f] + FrameLists.Carried(Hands(s'.tasks), f) == One(f < n)
      {
        CarriedIdle(Hands(s.tasks), f);
      }
    } else {
      OwnFits(s, a);
      assert Fits(s.m, a.p, s.tasks[a.p]);
      HandsUpdate(s.tasks, a.p, s'.tasks[a.p]);
      var t := s.tasks[a.p];
      if a.Go? && t.TryRam? && t.left > 0 && s.m.ram.free != [] {
        FrameLists.StepTracked(l, FrameLists.TakeFree(a.p), n);
        assert RamLists(s') == FrameLists.Step(l, FrameLists.TakeFree(a.p));
      } else if a.Go? && t.NoteRam? {
        FrameLists.StepTracked(l, FrameLists.PutUsed(a.p), n);
        assert RamLists(s') == FrameLists.Step(l, FrameLists.PutUsed(a.p));
      } else {
        assert HandOf(s'.tasks[a.p]) == HandOf(t) && Hands(s'.tasks) == Hands(s.tasks);
        assert RamLists(s') == l;
      }
    }
  }

  lemma {:induction false} RunRamTracked(s: Sys, actions: seq<Action>, n: nat)
    requires Sane(s) && Trace(s, actions) && FrameLists.Tracked(RamLists(s), n)
    ensures FrameLists.Tracked(RamLists(After(s, actions)), n)
    decreases |actions|
  {
    if actions != [] {
      StepSane(s, actions[0]);
      StepRamTracked(s, actions[0], n);
      RunRamTracked(Step(s, actions[0]), actions[1..], n);
    }
  }

  // ----- the bytes of every process -----

  /** Where the bytes of page h of process q are. While a victim's frame is being overwritten, its bytes are already in swap
      although its entry still names the frame. */
  function Where(s: Sys, q: nat, h: nat): Entry
    requires Sane(s) && q < |s.tasks| && h < MAX_PGN
  {
    if s.tasks[q].CopyIn? && h == s.tasks[q].v.vic then Swapped(s.tasks[q].o)
    else assert IsPage(s.m, q, 0); EntryOf(s.m, q, h)
  }

  /** What the copying of a fault has achieved so far for page h: the victim's bytes are in swap, those of the page brought in
      are in the victim's frame, up to byte i. */
  ghost predicate Copied(m: Machine, p: nat, t: Task, h: nat)
    requires IsPage(m, p, 0) && Fits(m, p, t)
  {
    match t
    case CopyOut(v, o, i) => h == v.vic ==> forall j :: 0 <= j < i ==> m.swp.frames[o][j] == m.ram.frames[v.f][j]
    case CopyIn(v, o, i) =>
      h == v.g && m.mms[p].pgd[h].Swapped? ==> forall j :: 0 <= j < i ==> m.ram.frames[v.f][j] == m.swp.frames[v.t][j]
    case SetTarget(v) => h == v.g && m.mms[p].pgd[h].Swapped? ==> m.ram.frames[v.f] == m.swp.frames[v.t]
    case _ => true
  }

  /** Every frame has one owner, and page h of process q is not half overwritten. */
  ghost predicate Sound(s: Sys, q: nat, h: nat) {
    && Sane(s) && Accounted(s) && q < |s.tasks| && h < MAX_PGN
    && IsPage(s.m, q, 0) && Fits(s.m, q, s.tasks[q]) && Copied(s.m, q, s.tasks[q], h)
  }

  /** The frame a step writes bytes to, if any. */
  function Written(s: Sys, a: Action): Entry
    requires Enabled(s, a)
  {
    match a
    case Store(_, f, _, _) => Resident(f)
    case Go(p) =>
      var t := s.tasks[p];
      if t.CopyOut? && t.i < PAGE_SIZE then Swapped(t.o)
      else if t.CopyIn? && t.i < PAGE_SIZE then Resident(t.v.f)
      else Unmapped
    case _ => Unmapped
  }

  /** A step leaves the bytes of every other frame alone. */
  lemma OtherFrames(s: Sys, a: Action, e: Entry)
    requires Sane(s) && Enabled(s, a) && Stored(s.m, e) && e != Written(s, a)
    ensures Stored(Step(s, a).m, e) && Contents(Step(s, a).m, e) == Contents(s.m, e)
  {
    if !a.Load? {
      assert Fits(s.m, a.p, s.tasks[a.p]);
    }
  }

  lemma WhereClaimed(s: Sys, q: nat, h: nat)
    requires Sane(s) && q < |s.tasks| && h < MAX_PGN && Where(s, q, h) != Unmapped
    ensures Claims(s.m.mms[q], s.tasks[q], Where(s, q, h)) > 0
  {
    assert IsPage(s.m, q, 0);
    var e := Where(s, q, h);
    if s.tasks[q].CopyIn? && h == s.tasks[q].v.vic {
      assert Hand(s.tasks[q])[0] == e;
    } else {
      assert s.m.mms[q].pgd[h] == e;
    }
  }

  /** The frame that a fault writes belongs to the process that takes it. */
  lemma WrittenOwn(s: Sys, p: nat, q: nat)
    requires Sane(s) && Accounted(s) && Enabled(s, Go(p)) && q < |s.tasks| && q != p && Written(s, Go(p)) != Unmapped
    ensures Claims(s.m.mms[q], s.tasks[q], Written(s, Go(p))) == 0
  {
    var t, e := s.tasks[p], Written(s, Go(p));
    assert Fits(s.m, p, t);
    if t.CopyOut? {
      assert Hand(t)[0] == e;
    } else {
      assert s.m.mms[p].pgd[t.v.vic] == e;
    }
    SoleOwner(s, p, e);
  }

  /** What a process does, except by storing, leaves the frames of all others alone. */
  lemma ClaimsKept(s: Sys, a: Action, q: nat, e: Entry)
    requires Sane(s) && Accounted(s) && Enabled(s, a) && !a.Store? && q < |s.tasks| && (a.Load? || q != a.p)
    requires e != Unmapped && Claims(s.m.mms[q], s.tasks[q], e) > 0
    ensures Stored(s.m, e) && Stored(Step(s, a).m, e) && Contents(Step(s, a).m, e) == Contents(s.m, e)
  {
    SoleOwner(s, q, e);
    if a.Go? && Written(s, a) != Unmapped {
      WrittenOwn(s, a.p, q);
    }
    OtherFrames(s, a, e);
  }

  ghost predicate HasBytes(s: Sys, q: nat, h: nat) {
    Sane(s) && q < |s.tasks| && h < MAX_PGN && Stored(s.m, Where(s, q, h))
  }

  /** The bytes of page h of process q. */
  ghost function BytesOf(s: Sys, q: nat, h: nat): Page
    requires HasBytes(s, q, h)
  {
    Contents(s.m, Where(s, q, h))
  }

  /** The step maps page h of process q anew. */
  predicate Remaps(s: Sys, a: Action, q: nat, h: nat)
    requires q < |s.tasks|
  {
    a.Go? && a.p == q && s.tasks[q].SetEntries? && s.tasks[q].es != [] && s.tasks[q].g == h
  }

  lemma OtherRow(s: Sys, a: Action, q: nat)
    requires Sane(s) && Enabled(s, a) && q < |s.tasks| && (a.Load? || a.Store? || q != a.p)
    ensures var s' := Step(s, a);
            Sane(s') && q < |s'.tasks| && s'.tasks[q] == s.tasks[q] && q < |s'.m.mms| && s'.m.mms[q] == s.m.mms[q]
  {
    StepSane(s, a);
    if !a.Load? {
      OwnFits(s, a);
    }
  }

  /** It leaves the pages of all others as they were. */
  lemma OtherBytes(s: Sys, a: Action, q: nat, h: nat)
    requires Sane(s) && Accounted(s) && Enabled(s, a) && !a.Store? && HasBytes(s, q, h) && (a.Load? || q != a.p)
    ensures HasBytes(Step(s, a), q, h) && BytesOf(Step(s, a), q, h) == BytesOf(s, q, h)
  {
    OtherRow(s, a, q);
    WhereClaimed(s, q, h);
    ClaimsKept(s, a, q, Where(s, q, h));
    assert Where(Step(s, a), q, h) == Where(s, q, h);
  }

  /** A store changes its byte of the page that has the frame, whoever stores. */
  lemma StoreBytes(s: Sys, a: Action, q: nat, h: nat)
    requires Sane(s) && Enabled(s, a) && a.Store? && HasBytes(s, q, h)
    ensures HasBytes(Step(s, a), q, h)
    ensures BytesOf(Step(s, a), q, h) ==
            if Where(s, q, h) == Resident(a.f) then BytesOf(s, q, h)[a.off := a.v] else BytesOf(s, q, h)
  {
    OtherRow(s, a, q);
    assert Where(Step(s, a), q, h) == Where(s, q, h);
  }

  /** Two claims of one process on different places are claims on different frames. */
  lemma HandApart(s: Sys, p: nat, g: nat)
    requires Sane(s) && Accounted(s) && p < |s.tasks| && g < MAX_PGN && (s.tasks[p].CopyOut? || s.tasks[p].CopyIn?)
    ensures IsPage(s.m, p, g) && EntryOf(s.m, p, g) != Swapped(s.tasks[p].o)
  {
    assert IsPage(s.m, p, 0);
    var e := Swapped(s.tasks[p].o);
    if EntryOf(s.m, p, g) == e {
      assert Hand(s.tasks[p])[0] == e && s.m.mms[p].pgd[g] == e;
      SoleOwner(s, p, e);
    }
  }

  /** The steps of a fault leave the pages of their own process as they were, byte for byte and at every point: the frame
      written holds no page, neither while the victim is copied out */
  lemma CopyOutBytes(s: Sys, p: nat, h: nat)
    requires Sane(s) && Accounted(s) && Enabled(s, Go(p)) && HasBytes(s, p, h) && s.tasks[p].CopyOut? && s.tasks[p].i < PAGE_SIZE
    ensures HasBytes(Step(s, Go(p)), p, h) && BytesOf(Step(s, Go(p)), p, h) == BytesOf(s, p, h)
  {
    StepSane(s, Go(p));
    CopyOutStep(s, p);
    HandApart(s, p, h);
    OtherFrames(s, Go(p), Where(s, p, h));
  }

  /** (then the victim's bytes are in both places) */
  lemma TurnBytes(s: Sys, p: nat, h: nat)
    requires Sound(s, p, h) && HasBytes(s, p, h) && s.tasks[p].CopyOut? && s.tasks[p].i == PAGE_SIZE
    ensures HasBytes(Step(s, Go(p)), p, h) && BytesOf(Step(s, Go(p)), p, h) == BytesOf(s, p, h)
  {
    var t := s.tasks[p];
    FaultTurns(s, p, t.v, t.o);
    var s' := Step(s, Go(p));
    assert s' == Sys(s.m, s.tasks[p := CopyIn(t.v, t.o, 0)]);
    if h == t.v.vic {
      assert s.m.swp.frames[t.o] == s.m.ram.frames[t.v.f];
    }
  }

  /** nor while the page is copied in over it. */
  lemma CopyInBytes(s: Sys, p: nat, h: nat)
    requires Sane(s) && Accounted(s) && HasBytes(s, p, h) && s.tasks[p].CopyIn? && s.tasks[p].i < PAGE_SIZE
    ensures HasBytes(Step(s, Go(p)), p, h) && BytesOf(Step(s, Go(p)), p, h) == BytesOf(s, p, h)
  {
    StepSane(s, Go(p));
    CopyInStep(s, p);
    VictimApart(s, p, h);
    assert Where(Step(s, Go(p)), p, h) == Where(s, p, h);
  }

  lemma VictimApart(s: Sys, p: nat, h: nat)
    requires Sane(s) && Accounted(s) && p < |s.tasks| && s.tasks[p].CopyIn? && h < MAX_PGN
    ensures Where(s, p, h) != Resident(s.tasks[p].v.f)
  {
    assert IsPage(s.m, p, 0) && Fits(s.m, p, s.tasks[p]);
    TablesSound(s);
    assert EntryOf(s.m, p, s.tasks[p].v.vic) == Resident(s.tasks[p].v.f);
    assert EntryOf(s.m, p, h) == EntryOf(s.m, p, h);
  }

  /** The entries then say where the bytes are: the victim's */
  lemma SetVictimBytes(s: Sys, p: nat, h: nat)
    requires HasBytes(s, p, h) && s.tasks[p].CopyIn? && s.tasks[p].i == PAGE_SIZE
    ensures HasBytes(Step(s, Go(p)), p, h) && BytesOf(Step(s, Go(p)), p, h) == BytesOf(s, p, h)
  {
    var t := s.tasks[p];
    StepSane(s, Go(p));
    assert IsPage(s.m, p, 0) && Fits(s.m, p, t);
    assert Step(s, Go(p)) == Sys(SetEntry(s.m, p, t.v.vic, Swapped(t.o), []), s.tasks[p := SetTarget(t.v)]);
    assert Where(Step(s, Go(p)), p, h) == Where(s, p, h);
  }

  /** and those of the page brought in. */
  lemma SetTargetBytes(s: Sys, p: nat, h: nat)
    requires Sound(s, p, h) && HasBytes(s, p, h) && s.tasks[p].SetTarget?
    ensures HasBytes(Step(s, Go(p)), p, h) && BytesOf(Step(s, Go(p)), p, h) == BytesOf(s, p, h)
  {
    var t := s.tasks[p];
    StepSane(s, Go(p));
    assert Step(s, Go(p)) == Sys(SetEntry(s.m, p, t.v.g, Resident(t.v.f), [t.v.g]), s.tasks[p := Idle]);
    assert h != t.v.g ==> Where(Step(s, Go(p)), p, h) == Where(s, p, h);
  }

  lemma MapStepBytes(s: Sys, p: nat, h: nat)
    requires HasBytes(s, p, h) && (TakesFrames(s.tasks[p]) || s.tasks[p].SetEntries?) && !Remaps(s, Go(p), p, h)
    ensures HasBytes(Step(s, Go(p)), p, h) && BytesOf(Step(s, Go(p)), p, h) == BytesOf(s, p, h)
  {
    StepSane(s, Go(p));
    MapFits(s, p);
    OtherFrames(s, Go(p), Where(s, p, h));
    assert Where(Step(s, Go(p)), p, h) == Where(s, p, h);
  }

  lemma StartBytes(s: Sys, a: Action, h: nat)
    requires Enabled(s, a) && !a.Load? && !a.Store? && HasBytes(s, a.p, h)
    requires a.Go? ==> s.tasks[a.p].Idle? || s.tasks[a.p].NeedSwap?
    ensures HasBytes(Step(s, a), a.p, h) && BytesOf(Step(s, a), a.p, h) == BytesOf(s, a.p, h)
  {
    StepSane(s, a);
    assert Where(Step(s, a), a.p, h) == Where(s, a.p, h);
  }

  lemma OwnBytes(s: Sys, p: nat, h: nat)
    requires Sound(s, p, h) && Enabled(s, Go(p)) && HasBytes(s, p, h) && !Remaps(s, Go(p), p, h)
    ensures HasBytes(Step(s, Go(p)), p, h) && BytesOf(Step(s, Go(p)), p, h) == BytesOf(s, p, h)
  {
    var t := s.tasks[p];
    if t.CopyOut? && t.i < PAGE_SIZE {
      CopyOutBytes(s, p, h);
    } else if t.CopyOut? {
      TurnBytes(s, p, h);
    } else if t.CopyIn? && t.i < PAGE_SIZE {
      CopyInBytes(s, p, h);
    } else if t.CopyIn? {
      SetVictimBytes(s, p, h);
    } else if t.SetTarget? {
      SetTargetBytes(s, p, h);
    } else if TakesFrames(t) || t.SetEntries? {
      MapStepBytes(s, p, h);
    } else {
      StartBytes(s, Go(p), h);
    }
  }

  /** What any step of any process does to the bytes of any mapped page: a write to RAM changes its byte of the page that has
      the frame, and nothing else changes any. */
  lemma StepBytes(s: Sys, a: Action, q: nat, h: nat)
    requires Sound(s, q, h) && Enabled(s, a) && HasBytes(s, q, h) && !Remaps(s, a, q, h)
    ensures HasBytes(Step(s, a), q, h)
    ensures BytesOf(Step(s, a), q, h) ==
            if a.Store? && Where(s, q, h) == Resident(a.f) then BytesOf(s, q, h)[a.off := a.v] else BytesOf(s, q, h)
  {
    if a.Store? {
      StoreBytes(s, a, q, h);
    } else if a.Load? || q != a.p {
      OtherBytes(s, a, q, h);
    } else if a.Go? {
      OwnBytes(s, q, h);
    } else {
      StartBytes(s, a, h);
    }
  }

  /** A write to RAM that spoils the copying of page h of q: it goes to the frame being copied from or to, to a byte already
      copied, and changes it. */
  predicate Spoils(s: Sys, a: Action, q: nat, h: nat)
    requires Sane(s) && Enabled(s, a) && q < |s.tasks| && h < MAX_PGN
  {
    && a.Store? && a.v != s.m.ram.frames[a.f][a.off]
    && match s.tasks[q]
       case CopyOut(v, _, i) => h == v.vic && a.f == v.f && a.off < i
       case CopyIn(v, _, i) => h == v.g && Where(s, q, h).Swapped? && a.f == v.f && a.off < i
       case SetTarget(v) => h == v.g && Where(s, q, h).Swapped? && a.f == v.f
       case _ => false
  }

  /** The frames that a fault of another process copies between stay as they are, */
  lemma CopiesKept(s: Sys, a: Action, q: nat)
    requires Sane(s) && Accounted(s) && Enabled(s, a) && !a.Store? && q < |s.tasks| && (a.Load? || q != a.p)
    requires s.tasks[q].CopyOut? || s.tasks[q].CopyIn? || s.tasks[q].SetTarget?
    ensures var s', t := Step(s, a), s.tasks[q];
            && |s'.m.ram.frames| == |s.m.ram.frames| && |s'.m.swp.frames| == |s.m.swp.frames|
            && IsPage(s.m, q, 0) && FaultFits(s.m, s.m.mms[q].pgd, t.v) && s'.m.ram.frames[t.v.f] == s.m.ram.frames[t.v.f]
            && (t.CopyOut? ==> t.o < |s.m.swp.frames| && s'.m.swp.frames[t.o] == s.m.swp.frames[t.o])
            && (s.m.mms[q].pgd[t.v.g].Swapped? ==> s'.m.swp.frames[t.v.t] == s.m.swp.frames[t.v.t])
  {
    var t := s.tasks[q];
    assert IsPage(s.m, q, 0) && Fits(s.m, q, t);
    if !a.Load? {
      OwnFits(s, a);
    }
    var pgd := s.m.mms[q].pgd;
    assert if t.SetTarget? then Hand(t)[0] == Resident(t.v.f) else pgd[t.v.vic] == Resident(t.v.f);
    ClaimsKept(s, a, q, Resident(t.v.f));
    if t.CopyOut? {
      assert Hand(t)[0] == Swapped(t.o);
      ClaimsKept(s, a, q, Swapped(t.o));
    }
    if pgd[t.v.g].Swapped? {
      assert pgd[t.v.g] == Swapped(t.v.t);
      ClaimsKept(s, a, q, Swapped(t.v.t));
    }
  }

  /** so what it has copied stays copied; */
  lemma OtherCopied(s: Sys, a: Action, q: nat, h: nat)
    requires Sound(s, q, h) && Enabled(s, a) && !a.Store? && (a.Load? || q != a.p)
    ensures Sound(Step(s, a), q, h)
  {
    StepAccounted(s, a);
    OtherRow(s, a, q);
    var t := s.tasks[q];
    assert IsPage(Step(s, a).m, q, 0) && Fits(Step(s, a).m, q, t);
    if t.CopyOut? || t.CopyIn? || t.SetTarget? {
      CopiesKept(s, a, q);
    }
  }

  /** its own steps copy on, */
  lemma OwnCopied(s: Sys, a: Action, h: nat)
    requires !a.Load? && !a.Store? && Enabled(s, a) && Sound(s, a.p, h)
    ensures Sound(Step(s, a), a.p, h)
  {
    StepAccounted(s, a);
    OwnFits(s, a);
    var t := s.tasks[a.p];
    if a.Go? && t.CopyOut? && t.i < PAGE_SIZE {
      CopyOutStep(s, a.p);
    } else if a.Go? && t.CopyIn? && t.i < PAGE_SIZE {
      CopyInStep(s, a.p);
    }
  }

  /** and only a write that spoils it undoes it. */
  lemma StoreCopiedIff(s: Sys, a: Action, q: nat, h: nat)
    requires Sound(s, q, h) && Enabled(s, a) && a.Store?
    ensures Sound(Step(s, a), q, h) <==> !Spoils(s, a, q, h)
  {
    StepAccounted(s, a);
    OtherRow(s, a, q);
    var s', t := Step(s, a), s.tasks[q];
    assert IsPage(s'.m, q, 0) && Fits(s'.m, q, t);
    assert s'.m.ram.frames == s.m.ram.frames[a.f := s.m.ram.frames[a.f][a.off := a.v]];
    if Spoils(s, a, q, h) {
      assert s'.m.ram.frames[a.f][a.off] != s.m.ram.frames[a.f][a.off];
    }
  }

  /** Exactly when a step leaves page h of q sound: unless it spoils its copying, whatever else it does to this or any other
      process. */
  lemma StepSoundIff(s: Sys, a: Action, q: nat, h: nat)
    requires Sound(s, q, h) && Enabled(s, a)
    ensures Sound(Step(s, a), q, h) <==> !Spoils(s, a, q, h)
  {
    if a.Store? {
      StoreCopiedIff(s, a, q, h);
    } else if a.Load? || q != a.p {
      OtherCopied(s, a, q, h);
    } else {
      OwnCopied(s, a, h);
    }
  }

  /** A spoilt page does change: a write into the victim's frame just before the page brought in is given it hits no page of
      q yet, and is part of that page one step later. */
  lemma SpoiltPageChanges(s: Sys, a: Action, q: nat, h: nat)
    requires Sound(s, q, h) && HasBytes(s, q, h) && s.tasks[q].SetTarget? && Enabled(s, a) && Spoils(s, a, q, h)
    ensures var s1 := Step(s, a);
            && HasBytes(s1, q, h) && BytesOf(s1, q, h) == BytesOf(s, q, h) && Enabled(s1, Go(q))
            && HasBytes(Step(s1, Go(q)), q, h) && BytesOf(Step(s1, Go(q)), q, h) == BytesOf(s, q, h)[a.off := a.v]
            && BytesOf(Step(s1, Go(q)), q, h) != BytesOf(s, q, h)
  {
    var t, s1 := s.tasks[q], Step(s, a);
    StoreBytes(s, a, q, h);
    OtherRow(s, a, q);
    StepSane(s1, Go(q));
    assert IsPage(s1.m, q, 0) && Fits(s1.m, q, t);
    assert Step(s1, Go(q)) == Sys(SetEntry(s1.m, q, t.v.g, Resident(t.v.f), [t.v.g]), s1.tasks[q := Idle]);
    assert Where(Step(s1, Go(q)), q, h) == Resident(t.v.f);
  }

  /** No step remaps page h of q, writes into the frame that has it, or spoils its copying. */
  ghost predicate LeavesPage(s: Sys, actions: seq<Action>, q: nat, h: nat)
    requires Trace(s, actions)
    decreases |actions|
  {
    actions == [] ||
    (&& q < |s.tasks| && h < MAX_PGN
     && !Remaps(s, actions[0], q, h) && !(actions[0].Store? && Where(s, q, h) == Resident(actions[0].f))
     && !Spoils(s, actions[0], q, h)
     && LeavesPage(Step(s, actions[0]), actions[1..], q, h))
  }

  /** Over every interleaving of faults, mappings and writes of all processes, however their copies and table updates mix and
      wherever else their writes go, a page keeps its bytes. */
  lemma {:induction false} RunBytes(s: Sys, actions: seq<Action>, q: nat, h: nat)
    requires Sound(s, q, h) && Trace(s, actions) && HasBytes(s, q, h) && LeavesPage(s, actions, q, h)
    ensures Sound(After(s, actions), q, h) && HasBytes(After(s, actions), q, h)
    ensures BytesOf(After(s, actions), q, h) == BytesOf(s, q, h)
    decreases |actions|
  {
    if actions != [] {
      StepBytes(s, actions[0], q, h);
      StepSoundIff(s, actions[0], q, h);
      RunBytes(Step(s, actions[0]), actions[1..], q, h);
    }
  }

  /** No mapping is under way. */
  ghost predicate OnlyFaults(s: Sys) {
    forall p :: 0 <= p < |s.tasks| ==> !TakesFrames(s.tasks[p]) && !s.tasks[p].SetEntries?
  }

  predicate FaultAction(a: Action) { a.Load? || a.StartFault? || a.Go? }

  lemma OnlyFaultsStep(s: Sys, a: Action)
    requires Sane(s) && Enabled(s, a) && OnlyFaults(s) && FaultAction(a)
    ensures OnlyFaults(Step(s, a))
  {
    if !a.Load? {
      OwnFits(s, a);
    }
  }

  lemma {:induction false} FaultsLeavePage(s: Sys, actions: seq<Action>, q: nat, h: nat)
    requires Trace(s, actions) && OnlyFaults(s) && q < |s.tasks| && h < MAX_PGN
    requires forall i :: 0 <= i < |actions| ==> FaultAction(actions[i])
    ensures LeavesPage(s, actions, q, h)
    decreases |actions|
  {
    if actions != [] {
      assert FaultAction(actions[0]);
      OnlyFaultsStep(s, actions[0]);
      if !actions[0].Load? {
        OwnFits(s, actions[0]);
      }
      FaultsLeavePage(Step(s, actions[0]), actions[1..], q, h);
    }
  }

  /** Any number of faults of any number of processes, interleaved in any way, leaves every page of every process as it was. */
  lemma FaultsKeepAllBytes(s: Sys, actions: seq<Action>, q: nat, h: nat)
    requires Sound(s, q, h) && OnlyFaults(s) && Trace(s, actions) && HasBytes(s, q, h)
    requires forall i :: 0 <= i < |actions| ==> FaultAction(actions[i])
    ensures HasBytes(After(s, actions), q, h) && BytesOf(After(s, actions), q, h) == BytesOf(s, q, h)
  {
    FaultsLeavePage(s, actions, q, h);
    RunBytes(s, actions, q, h);
  }

  // ----- between operations -----

  ghost predicate Quiet(s: Sys) { forall p :: 0 <= p < |s.tasks| ==> s.tasks[p] == Idle }

  lemma {:induction false} CountOnce<T>(l: seq<T>, e: T)
    requires forall i, j :: 0 <= i < j < |l| ==> !(l[i] == e && l[j] == e)
    ensures multiset(l)[e] <= 1
  {
    if l != [] {
      HeadCount(l, e);
      CountOnce(l[1..], e);
      if l[0] == e {
        assert forall j :: 0 <= j < |l| - 1 ==> l[1..][j] == l[j + 1];
        assert e !in l[1..];
      }
    }
  }

  /** Entry g of process p names the frame e. */
  ghost predicate Names(mms: seq<Mm>, p: nat, g: nat, e: Entry) {
    p < |mms| && g < |mms[p].pgd| && mms[p].pgd[g] == e
  }

  lemma NamedBy(mms: seq<Mm>, p: nat, e: Entry)
    requires p < |mms| && forall g: nat, h: nat :: Names(mms, p, g, e) && Names(mms, p, h, e) ==> g == h
    ensures Claims(mms[p], Idle, e) <= 1
    ensures Claims(mms[p], Idle, e) == 1 ==> exists g: nat :: Names(mms, p, g, e)
  {
    var pgd := mms[p].pgd;
    forall i, j | 0 <= i < j < |pgd| ensures !(pgd[i] == e && pgd[j] == e) {
      assert Names(mms, p, i, e) ==> !Names(mms, p, j, e);
    }
    CountOnce(pgd, e);
    if e in pgd {
      var i :| 0 <= i < |pgd| && pgd[i] == e;
      assert Names(mms, p, i, e);
    }
  }

  lemma NamedOnce(mms: seq<Mm>, tasks: seq<Task>, e: Entry)
    requires |mms| == |tasks| && forall p :: 0 <= p < |tasks| ==> tasks[p] == Idle
    requires forall p: nat, g: nat, q: nat, h: nat :: Names(mms, p, g, e) && Names(mms, q, h, e) ==> p == q && g == h
    ensures Owners(mms, tasks, e) <= 1
    ensures Owners(mms, tasks, e) == 1 ==> exists p: nat, g: nat :: Names(mms, p, g, e)
  {
    var cs := ClaimsOf(mms, tasks, e);
    forall p | 0 <= p < |cs|
      ensures cs[p] <= 1 && (cs[p] == 1 ==> exists g: nat :: Names(mms, p, g, e))
    {
      NamedBy(mms, p, e);
    }
    SumAtMostOne(cs);
  }

  /** With no operation under way, one owner for every frame is what soundness of the tables and lists says. */
  lemma QuietIff(s: Sys)
    requires Sane(s) && Quiet(s)
    ensures Accounted(s) <==> FreeOk(s.m.ram) && FreeOk(s.m.swp) && Located(s.m) && Unshared(s.m)
  {
    if FreeOk(s.m.ram) && FreeOk(s.m.swp) && Located(s.m) && Unshared(s.m) {
      forall e | e != Unmapped ensures Total(s, e) <= One(Stored(s.m, e)) {
        QuietTotal(s, e);
      }
    }
    if Accounted(s) {
      TablesSound(s);
      FreeOnce(s);
    }
  }

  lemma QuietTotal(s: Sys, e: Entry)
    requires Sane(s) && Quiet(s) && FreeOk(s.m.ram) && FreeOk(s.m.swp) && Located(s.m) && Unshared(s.m) && e != Unmapped
    ensures Total(s, e) <= One(Stored(s.m, e))
  {
    var mms := s.m.mms;
    forall p, g | Names(mms, p, g, e) ensures IsPage(s.m, p, g) && EntryOf(s.m, p, g) == e {
      assert IsPage(s.m, p, 0);
    }
    forall p, g, q, h | Names(mms, p, g, e) && Names(mms, q, h, e) ensures p == q && g == h {
      assert EntryOf(s.m, p, g) == EntryOf(s.m, q, h);
    }
    NamedOnce(mms, s.tasks, e);
    if e.Resident? {
      CountOnce(s.m.ram.free, e.fpn);
    } else {
      CountOnce(s.m.swp.free, e.swp);
    }
    if Owners(mms, s.tasks, e) == 1 {
      var p, g :| Names(mms, p, g, e);
      assert EntryOf(s.m, p, g) == e;
    }
  }

  lemma FreeOnce(s: Sys)
    requires Sane(s) && Accounted(s)
    ensures FreeOk(s.m.ram) && FreeOk(s.m.swp)
  {
    var ram, swp := s.m.ram.free, s.m.swp.free;
    forall i, j | 0 <= i < j < |ram| ensures ram[i] != ram[j] {
      assert Total(s, Resident(ram[i])) <= 1;
      if ram[i] == ram[j] {
        CountTwice(ram, i, j);
      }
    }
    forall i, j | 0 <= i < j < |swp| ensures swp[i] != swp[j] {
      assert Total(s, Swapped(swp[i])) <= 1;
      if swp[i] == swp[j] {
        CountTwice(swp, i, j);
      }
    }
  }

  /** Every machine that is sound between operations is a sound start for an interleaving. */
  lemma QuietStart(m: Machine)
    requires Paging.Inv(m)
    ensures var s := Sys(m, seq(|m.mms|, _ => Idle));
            && Sane(s) && Accounted(s) && FrameLists.Tracked(RamLists(s), |m.ram.frames|)
            && forall q, h :: 0 <= q < |m.mms| && 0 <= h < MAX_PGN ==> Sound(s, q, h)
  {
    var s := Sys(m, seq(|m.mms|, _ => Idle));
    ConservedFreeOk(m.ram);
    assert forall p :: 0 <= p < |m.mms| ==> MmOk(m.mms[p]);
    QuietIff(s);
    FrameLists.IdleIsConserved(m.ram, Hands(s.tasks));
  }

  // ----- undisturbed, the steps add up to the atomic operations -----

  /** Steps of process p alone. */
  predicate Goes(actions: seq<Action>, p: nat) { forall i :: 0 <= i < |actions| ==> actions[i] == Go(p) }

  /** The call `first` of process p, and then its steps alone. */
  predicate Starts(actions: seq<Action>, first: Action, p: nat) {
    actions != [] && actions[0] == first && Goes(actions[1..], p)
  }

  lemma StartsJoin(a: seq<Action>, b: seq<Action>, first: Action, p: nat)
    requires Starts(a, first, p) && Goes(b, p)
    ensures Starts(a + b, first, p)
  {
    assert (a + b)[1..] == a[1..] + b;
  }

  lemma TraceCons(s: Sys, a: Action, actions: seq<Action>)
    requires Sane(s) && Enabled(s, a) && Trace(Step(s, a), actions)
    ensures Trace(s, [a] + actions) && After(s, [a] + actions) == After(Step(s, a), actions)
  {
    assert ([a] + actions)[1..] == actions;
  }

  function WithRam(m: Machine, f: nat, page: Page): Machine
    requires f < |m.ram.frames|
  {
    m.(ram := m.ram.(frames := m.ram.frames[f := page]))
  }

  function WithSwap(m: Machine, o: nat, page: Page): Machine
    requires o < |m.swp.frames|
  {
    m.(swp := m.swp.(frames := m.swp.frames[o := page]))
  }

  lemma CopyOutStep(s: Sys, p: nat)
    requires Sane(s) && p < |s.tasks| && s.tasks[p].CopyOut? && s.tasks[p].i < PAGE_SIZE
    ensures var t := s.tasks[p];
            t.o < |s.m.swp.frames| && t.v.f < |s.m.ram.frames| &&
            Step(s, Go(p)) == Sys(WithSwap(s.m, t.o, CopyByte(s.m.swp.frames[t.o], s.m.ram.frames[t.v.f], t.i)),
                                  s.tasks[p := CopyOut(t.v, t.o, t.i + 1)])
  {
    assert Fits(s.m, p, s.tasks[p]);
  }

  lemma CopyInStep(s: Sys, p: nat)
    requires Sane(s) && p < |s.tasks| && s.tasks[p].CopyIn? && s.tasks[p].i < PAGE_SIZE
    ensures var t := s.tasks[p];
            t.v.t < |s.m.swp.frames| && t.v.f < |s.m.ram.frames| &&
            Step(s, Go(p)) == Sys(WithRam(s.m, t.v.f, CopyByte(s.m.ram.frames[t.v.f], s.m.swp.frames[t.v.t], t.i)),
                                  s.tasks[p := CopyIn(t.v, t.o, t.i + 1)])
  {
    assert Fits(s.m, p, s.tasks[p]);
  }

  /** The loop that copies the victim out. */
  lemma {:induction false} SoloCopyOut(s: Sys, p: nat, v: Vars, o: nat, i: nat) returns (actions: seq<Action>)
    requires Sane(s) && p < |s.tasks| && s.tasks[p] == CopyOut(v, o, i) && o < |s.m.swp.frames| && v.f < |s.m.ram.frames|
    requires i <= PAGE_SIZE && s.m.swp.frames[o][..i] == s.m.ram.frames[v.f][..i]
    ensures Goes(actions, p) && Trace(s, actions)
    ensures After(s, actions) == Sys(WithSwap(s.m, o, s.m.ram.frames[v.f]), s.tasks[p := CopyOut(v, o, PAGE_SIZE)])
    decreases PAGE_SIZE - i
  {
    if i == PAGE_SIZE {
      actions := [];
      assert s.m.swp.frames[o] == s.m.ram.frames[v.f];
      assert s.tasks[p := CopyOut(v, o, PAGE_SIZE)] == s.tasks;
    } else {
      CopyOutStep(s, p);
      StepSane(s, Go(p));
      var s1 := Step(s, Go(p));
      actions := SoloCopyOut(s1, p, v, o, i + 1);
      TraceCons(s, Go(p), actions);
      actions := [Go(p)] + actions;
    }
  }

  /** The loop that copies the page in. */
  lemma {:induction false} SoloCopyIn(s: Sys, p: nat, v: Vars, o: nat, i: nat) returns (actions: seq<Action>)
    requires Sane(s) && p < |s.tasks| && s.tasks[p] == CopyIn(v, o, i) && v.t < |s.m.swp.frames| && v.f < |s.m.ram.frames|
    requires i <= PAGE_SIZE && s.m.ram.frames[v.f][..i] == s.m.swp.frames[v.t][..i]
    ensures Goes(actions, p) && Trace(s, actions)
    ensures After(s, actions) == Sys(WithRam(s.m, v.f, s.m.swp.frames[v.t]), s.tasks[p := CopyIn(v, o, PAGE_SIZE)])
    decreases PAGE_SIZE - i
  {
    if i == PAGE_SIZE {
      actions := [];
      assert s.m.ram.frames[v.f] == s.m.swp.frames[v.t];
      assert s.tasks[p := CopyIn(v, o, PAGE_SIZE)] == s.tasks;
    } else {
      CopyInStep(s, p);
      StepSane(s, Go(p));
      var s1 := Step(s, Go(p));
      actions := SoloCopyIn(s1, p, v, o, i + 1);
      TraceCons(s, Go(p), actions);
      actions := [Go(p)] + actions;
    }
  }

  lemma {:induction false} TraceJoin(s: Sys, a: seq<Action>, b: seq<Action>)
    requires Trace(s, a) && Trace(After(s, a), b)
    ensures Trace(s, a + b) && After(s, a + b) == After(After(s, a), b)
    decreases |a|
  {
    if a == [] {
      assert a + b == b;
    } else {
      assert (a + b)[1..] == a[1..] + b;
      TraceJoin(Step(s, a[0]), a[1..], b);
    }
  }

  /** The first two steps of a fault. */
  lemma FaultStarts(s: Sys, p: nat, g: nat) returns (actions: seq<Action>, t: Sys)
    requires Sane(s) && p < |s.tasks| && s.tasks[p] == Idle && CanFault(s.m, p, g)
    ensures Starts(actions, StartFault(p, g), p) && Trace(s, actions) && After(s, actions) == t && Sane(t)
    ensures t == Sys(s.m.(swp := s.m.swp.(free := s.m.swp.free[1..])),
                     s.tasks[p := CopyOut(VarsOf(s.m, p, g), s.m.swp.free[0], 0)])
  {
    var s1 := Step(s, StartFault(p, g));
    StepSane(s, StartFault(p, g));
    t := Step(s1, Go(p));
    StepSane(s1, Go(p));
    assert Trace(t, []);
    TraceCons(s1, Go(p), []);
    TraceCons(s, StartFault(p, g), [Go(p)] + []);
    actions := [StartFault(p, g)] + ([Go(p)] + []);
    assert actions[1..] == [Go(p)];
  }

  /** The steps between and after the copies. */
  lemma FaultTurns(s: Sys, p: nat, v: Vars, o: nat)
    requires Sane(s) && p < |s.tasks| && s.tasks[p] == CopyOut(v, o, PAGE_SIZE)
    ensures Trace(s, [Go(p)]) && Sane(After(s, [Go(p)])) && After(s, [Go(p)]) == Sys(s.m, s.tasks[p := CopyIn(v, o, 0)])
  {
    StepSane(s, Go(p));
    assert [Go(p)][1..] == [];
  }

  function Exchanged(m: Machine, p: nat, v: Vars, o: nat): Machine
    requires IsPage(m, p, v.vic) && IsPage(m, p, v.g)
  {
    SetEntry(SetEntry(m, p, v.vic, Swapped(o), []), p, v.g, Resident(v.f), [v.g])
  }

  lemma FaultEnds(s: Sys, p: nat, v: Vars, o: nat)
    requires Sane(s) && p < |s.tasks| && s.tasks[p] == CopyIn(v, o, PAGE_SIZE)
    ensures IsPage(s.m, p, v.g) && IsPage(s.m, p, v.vic)
    ensures Trace(s, [Go(p)] + ([Go(p)] + []))
    ensures After(s, [Go(p)] + ([Go(p)] + [])) == Sys(Exchanged(s.m, p, v, o), s.tasks[p := Idle])
  {
    assert IsPage(s.m, p, 0) && Fits(s.m, p, s.tasks[p]);
    StepSane(s, Go(p));
    var s1 := Step(s, Go(p));
    assert s1 == Sys(SetEntry(s.m, p, v.vic, Swapped(o), []), s.tasks[p := SetTarget(v)]);
    var s2 := Step(s1, Go(p));
    assert s2.tasks == s.tasks[p := Idle];
    assert Trace(s2, []) && After(s2, []) == s2;
    TraceCons(s1, Go(p), []);
    TraceCons(s, Go(p), [Go(p)] + []);
  }

  /** The machine once the victim is copied out. */
  function CopiedOut(m: Machine, p: nat, g: nat): Machine
    requires CanFault(m, p, g)
  {
    WithSwap(m.(swp := m.swp.(free := m.swp.free[1..])), m.swp.free[0], m.ram.frames[VarsOf(m, p, g).f])
  }

  lemma SoloOut(s: Sys, p: nat, g: nat) returns (actions: seq<Action>, t: Sys)
    requires Sane(s) && p < |s.tasks| && s.tasks[p] == Idle && CanFault(s.m, p, g)
    ensures Starts(actions, StartFault(p, g), p) && Trace(s, actions) && After(s, actions) == t && Sane(t)
    ensures t == Sys(CopiedOut(s.m, p, g), s.tasks[p := CopyIn(VarsOf(s.m, p, g), s.m.swp.free[0], 0)])
  {
    var v, o := VarsOf(s.m, p, g), s.m.swp.free[0];
    var s1, s2, more;
    actions, s1 := FaultStarts(s, p, g);
    more := SoloCopyOut(s1, p, v, o, 0);
    s2 := After(s1, more);
    RunSane(s1, more);
    TraceJoin(s, actions, more);
    StartsJoin(actions, more, StartFault(p, g), p);
    actions := actions + more;
    FaultTurns(s2, p, v, o);
    t := After(s2, [Go(p)]);
    TraceJoin(s, actions, [Go(p)]);
    StartsJoin(actions, [Go(p)], StartFault(p, g), p);
    actions := actions + [Go(p)];
    assert t.tasks == s.tasks[p := CopyIn(v, o, 0)];
  }

  lemma SoloIn(s: Sys, p: nat, v: Vars, o: nat) returns (actions: seq<Action>, t: Sys)
    requires Sane(s) && p < |s.tasks| && s.tasks[p] == CopyIn(v, o, 0)
    ensures v.f < |s.m.ram.frames| && v.t < |s.m.swp.frames|
    ensures IsPage(s.m, p, v.g) && IsPage(s.m, p, v.vic)
    ensures Goes(actions, p) && Trace(s, actions) && After(s, actions) == t
    ensures t == Sys(Exchanged(WithRam(s.m, v.f, s.m.swp.frames[v.t]), p, v, o), s.tasks[p := Idle])
  {
    assert IsPage(s.m, p, 0) && Fits(s.m, p, s.tasks[p]);
    actions := SoloCopyIn(s, p, v, o, 0);
    var s1 := After(s, actions);
    RunSane(s, actions);
    FaultEnds(s1, p, v, o);
    t := After(s1, [Go(p)] + ([Go(p)] + []));
    TraceJoin(s, actions, [Go(p)] + ([Go(p)] + []));
    actions := actions + ([Go(p)] + ([Go(p)] + []));
    assert t.tasks == s.tasks[p := Idle];
  }

  lemma FaultIs(m: Machine, p: nat, g: nat)
    requires CanFault(m, p, g)
    ensures var v, n := VarsOf(m, p, g), CopiedOut(m, p, g);
            Fault(m, p, g) == Exchanged(WithRam(n, v.f, n.swp.frames[v.t]), p, v, m.swp.free[0])
  {
    var v, n := VarsOf(m, p, g), CopiedOut(m, p, g);
    var x, y := Exchanged(WithRam(n, v.f, n.swp.frames[v.t]), p, v, m.swp.free[0]), Fault(m, p, g);
    assert [] + m.mms[p].fifo == m.mms[p].fifo;
    assert x.mms == y.mms;
    assert x.swp == y.swp;
    assert x.ram == y.ram;
  }

  /** A fault that no other process disturbs is the atomic fault. */
  lemma SoloFault(s: Sys, p: nat, g: nat) returns (actions: seq<Action>)
    requires Sane(s) && p < |s.tasks| && s.tasks[p] == Idle && CanFault(s.m, p, g)
    ensures Starts(actions, StartFault(p, g), p)
    ensures Trace(s, actions) && After(s, actions) == Sys(Fault(s.m, p, g), s.tasks)
  {
    var s1, s2, more;
    actions, s1 := SoloOut(s, p, g);
    more, s2 := SoloIn(s1, p, VarsOf(s.m, p, g), s.m.swp.free[0]);
    TraceJoin(s, actions, more);
    StartsJoin(actions, more, StartFault(p, g), p);
    actions := actions + more;
    FaultIs(s.m, p, g);
    assert s2.tasks == s.tasks;
  }

  lemma {:induction false} RunSane(s: Sys, actions: seq<Action>)
    requires Sane(s) && Trace(s, actions)
    ensures Sane(After(s, actions))
    decreases |actions|
  {
    if actions != [] {
      StepSane(s, actions[0]);
      RunSane(Step(s, actions[0]), actions[1..]);
    }
  }

  /** The machine once alloc_pages_range has taken r frames from RAM and w from swap. */
  function Taken(m: Machine, r: nat, w: nat): Machine
    requires r <= |m.ram.free| && w <= |m.swp.free|
  {
    m.(ram := TakeFrames(m.ram, r), swp := TakeFrames(m.swp, w))
  }

  lemma TakeOneMore(d: Device, k: nat)
    requires k < |d.free|
    ensures var taken := TakeFrames(d, k);
            && taken.free != [] && taken.free[0] == d.free[k]
            && [d.free[k]] + Reversed(d.free[..k]) == Reversed(d.free[..k + 1])
            && TakeFrames(d, k + 1) == taken.(free := taken.free[1..], used := [d.free[k]] + taken.used)
  {
    ReversedSnoc(d.free, k);
  }

  /** The task of taking frames, after r from RAM and w from swap. */
  function TakingTask(m: Machine, g: nat, left: nat, r: nat, w: nat): Task
    requires r <= |m.ram.free| && w <= |m.swp.free|
  {
    TryRam(g, left, Reversed(m.ram.free[..r]), Reversed(m.swp.free[..w]))
  }

  /** s is in the middle of taking frames for process p of the machine m. */
  ghost predicate InTaking(s: Sys, m: Machine, p: nat, g: nat, left: nat, r: nat, w: nat) {
    && Sane(s) && p < |s.tasks| && r <= |m.ram.free| && w <= |m.swp.free|
    && s.m == Taken(m, r, w) && s.tasks[p] == TakingTask(m, g, left, r, w)
  }

  /** A round that finds a RAM frame. */
  lemma RamRound(s: Sys, m: Machine, p: nat, g: nat, left: nat, r: nat, w: nat) returns (actions: seq<Action>, t: Sys)
    requires InTaking(s, m, p, g, left, r, w) && left > 0 && r < |m.ram.free|
    ensures Goes(actions, p) && Trace(s, actions) && After(s, actions) == t
    ensures InTaking(t, m, p, g, left - 1, r + 1, w) && t.tasks[p := Idle] == s.tasks[p := Idle]
  {
    TakeOneMore(m.ram, r);
    StepSane(s, Go(p));
    var s1 := Step(s, Go(p));
    StepSane(s1, Go(p));
    t := Step(s1, Go(p));
    assert Trace(t, []) && After(t, []) == t;
    TraceCons(s1, Go(p), []);
    TraceCons(s, Go(p), [Go(p)] + []);
    actions := [Go(p)] + ([Go(p)] + []);
    assert t.m.ram == TakeFrames(m.ram, r + 1);
  }

  /** RAM is exhausted: the same lists, but swap is next. */
  lemma RamFails(s: Sys, m: Machine, p: nat, g: nat, left: nat, r: nat, w: nat) returns (t: Sys)
    requires InTaking(s, m, p, g, left, r, w) && left > 0 && r == |m.ram.free|
    ensures t == Step(s, Go(p)) && Sane(t) && t.m == s.m
    ensures t.tasks == s.tasks[p := TrySwap(g, left, s.tasks[p].rs, s.tasks[p].ws)]
  {
    StepSane(s, Go(p));
    t := Step(s, Go(p));
  }

  /** A round that finds a swap frame. */
  lemma SwapRound(s: Sys, m: Machine, p: nat, g: nat, left: nat, r: nat, w: nat) returns (actions: seq<Action>, t: Sys)
    requires InTaking(s, m, p, g, left, r, w) && left > 0 && r == |m.ram.free| && w < |m.swp.free|
    ensures Goes(actions, p) && Trace(s, actions) && After(s, actions) == t
    ensures InTaking(t, m, p, g, left - 1, r, w + 1) && t.tasks[p := Idle] == s.tasks[p := Idle]
  {
    TakeOneMore(m.swp, w);
    var s1 := RamFails(s, m, p, g, left, r, w);
    StepSane(s1, Go(p));
    var s2 := Step(s1, Go(p));
    StepSane(s2, Go(p));
    t := Step(s2, Go(p));
    assert Trace(t, []) && After(t, []) == t;
    TraceCons(s2, Go(p), []);
    TraceCons(s1, Go(p), [Go(p)] + []);
    TraceCons(s, Go(p), [Go(p)] + ([Go(p)] + []));
    actions := [Go(p)] + ([Go(p)] + ([Go(p)] + []));
    assert t.m.swp == TakeFrames(m.swp, w + 1);
  }

  /** Both devices are exhausted: the mapping is given up. */
  lemma BothFail(s: Sys, m: Machine, p: nat, g: nat, left: nat, r: nat, w: nat)
    requires InTaking(s, m, p, g, left, r, w) && left > 0 && r == |m.ram.free| && w == |m.swp.free|
    ensures Trace(s, [Go(p)] + ([Go(p)] + []))
    ensures After(s, [Go(p)] + ([Go(p)] + [])) == Sys(s.m, s.tasks[p := Idle])
  {
    var s1 := RamFails(s, m, p, g, left, r, w);
    StepSane(s1, Go(p));
    var t := Step(s1, Go(p));
    assert Trace(t, []) && After(t, []) == t;
    TraceCons(s1, Go(p), []);
    TraceCons(s, Go(p), [Go(p)] + []);
    assert t.tasks == s.tasks[p := Idle];
  }

  /** Taking frames for `all` pages has come to its end: all of them, or what there was. */
  ghost predicate TakingOver(t: Sys, m: Machine, p: nat, g: nat, all: nat, r: nat, w: nat) {
    && r == Min(all, |m.ram.free|) && w == Min(all - r, |m.swp.free|)
    && if r + w == all then InTaking(t, m, p, g, 0, r, w) else p < |t.tasks| && t.m == Taken(m, r, w) && t.tasks[p] == Idle
  }

  /** The loop of alloc_pages_range ends with every frame taken, or with both lists empty. */
  lemma {:induction false} SoloTake(s: Sys, m: Machine, p: nat, g: nat, left: nat, r: nat, w: nat)
    returns (actions: seq<Action>, t: Sys, r': nat, w': nat)
    requires InTaking(s, m, p, g, left, r, w) && (w > 0 ==> r == |m.ram.free|)
    ensures Goes(actions, p) && Trace(s, actions) && After(s, actions) == t
    ensures TakingOver(t, m, p, g, r + w + left, r', w') && p < |t.tasks| && t.tasks[p := Idle] == s.tasks[p := Idle]
    decreases left, 1
  {
    if left == 0 {
      actions, t, r', w' := [], s, r, w;
    } else if r < |m.ram.free| {
      actions, t, r', w' := SoloTakeRam(s, m, p, g, left, r, w);
    } else if w < |m.swp.free| {
      actions, t, r', w' := SoloTakeSwap(s, m, p, g, left, r, w);
    } else {
      BothFail(s, m, p, g, left, r, w);
      actions, t, r', w' := [Go(p)] + ([Go(p)] + []), Sys(s.m, s.tasks[p := Idle]), r, w;
    }
  }

  lemma {:induction false} SoloTakeRam(s: Sys, m: Machine, p: nat, g: nat, left: nat, r: nat, w: nat)
    returns (actions: seq<Action>, t: Sys, r': nat, w': nat)
    requires InTaking(s, m, p, g, left, r, w) && (w > 0 ==> r == |m.ram.free|) && left > 0 && r < |m.ram.free|
    ensures Goes(actions, p) && Trace(s, actions) && After(s, actions) == t
    ensures TakingOver(t, m, p, g, r + w + left, r', w') && p < |t.tasks| && t.tasks[p := Idle] == s.tasks[p := Idle]
    decreases left, 0
  {
    var round, s1 := RamRound(s, m, p, g, left, r, w);
    actions, t, r', w' := SoloTake(s1, m, p, g, left - 1, r + 1, w);
    TraceJoin(s, round, actions);
    actions := round + actions;
  }

  lemma {:induction false} SoloTakeSwap(s: Sys, m: Machine, p: nat, g: nat, left: nat, r: nat, w: nat)
    returns (actions: seq<Action>, t: Sys, r': nat, w': nat)
    requires InTaking(s, m, p, g, left, r, w) && left > 0 && r == |m.ram.free| && w < |m.swp.free|
    ensures Goes(actions, p) && Trace(s, actions) && After(s, actions) == t
    ensures TakingOver(t, m, p, g, r + w + left, r', w') && p < |t.tasks| && t.tasks[p := Idle] == s.tasks[p := Idle]
    decreases left, 0
  {
    var round, s1 := SwapRound(s, m, p, g, left, r, w);
    actions, t, r', w' := SoloTake(s1, m, p, g, left - 1, r, w + 1);
    TraceJoin(s, round, actions);
    actions := round + actions;
  }

  /** The machine once entries es are set from page g on. */
  function Mapped(m: Machine, p: nat, g: nat, es: seq<Entry>): Machine
    requires p < |m.mms| && g + |es| <= |m.mms[p].pgd|
  {
    var mm := m.mms[p];
    m.(mms := m.mms[p := mm.(pgd := Splice(mm.pgd, g, es), fifo := Enlisted(g, |es|) + mm.fifo)])
  }

  lemma MappedNext(m: Machine, p: nat, g: nat, es: seq<Entry>)
    requires IsPage(m, p, g) && g + |es| <= MAX_PGN
    ensures es == [] ==> Mapped(m, p, g, es) == m
    ensures es != [] ==> Mapped(SetEntry(m, p, g, es[0], [g + 1]), p, g + 1, es[1..]) == Mapped(m, p, g, es)
  {
    var mm := m.mms[p];
    if es == [] {
      assert Splice(mm.pgd, g, es) == mm.pgd && Enlisted(g, 0) + mm.fifo == mm.fifo;
      assert m.mms[p := mm] == m.mms;
    } else {
      EnlistedTwice(g, 1, |es| - 1);
      assert Enlisted(g, 1) == [g + 1];
      assert Splice(mm.pgd[g := es[0]], g + 1, es[1..]) == Splice(mm.pgd, g, es);
      assert Enlisted(g + 1, |es| - 1) + ([g + 1] + mm.fifo) == Enlisted(g, |es|) + mm.fifo;
    }
  }

  lemma SetStep(s: Sys, p: nat, g: nat, es: seq<Entry>) returns (t: Sys)
    requires Sane(s) && p < |s.tasks| && s.tasks[p] == SetEntries(g, es) && es != []
    ensures IsPage(s.m, p, g) && g + |es| <= MAX_PGN && Sane(t)
    ensures t == Step(s, Go(p)) == Sys(SetEntry(s.m, p, g, es[0], [g + 1]), s.tasks[p := SetEntries(g + 1, es[1..])])
  {
    assert IsPage(s.m, p, 0) && Fits(s.m, p, s.tasks[p]);
    StepSane(s, Go(p));
    t := Step(s, Go(p));
  }

  /** The loops of vmap_page_range. */
  lemma {:induction false} SoloSet(s: Sys, p: nat, g: nat, es: seq<Entry>) returns (actions: seq<Action>)
    requires Sane(s) && p < |s.tasks| && s.tasks[p] == SetEntries(g, es)
    ensures p < |s.m.mms| && g + |es| <= |s.m.mms[p].pgd|
    ensures Goes(actions, p)
    ensures Trace(s, actions) && After(s, actions) == Sys(Mapped(s.m, p, g, es), s.tasks[p := SetEntries(g + |es|, [])])
    decreases |es|
  {
    assert IsPage(s.m, p, 0) && Fits(s.m, p, s.tasks[p]);
    if es == [] {
      actions := [];
      assert Splice(s.m.mms[p].pgd, g, es) == s.m.mms[p].pgd && Enlisted(g, 0) + s.m.mms[p].fifo == s.m.mms[p].fifo;
      assert s.m.mms[p := s.m.mms[p]] == s.m.mms && s.tasks[p := SetEntries(g, [])] == s.tasks;
    } else {
      var t := SetStep(s, p, g, es);
      actions := SoloSet(t, p, g + 1, es[1..]);
      MappedNext(s.m, p, g, es);
      TraceCons(s, Go(p), actions);
      actions := [Go(p)] + actions;
      assert t.tasks[p := SetEntries(g + |es|, [])] == s.tasks[p := SetEntries(g + |es|, [])];
    }
  }

  /** The step to vmap_page_range, with the frames last taken first. */
  lemma TakingEnds(s: Sys, m: Machine, p: nat, g: nat, n: nat, r: nat, w: nat) returns (t: Sys)
    requires InTaking(s, m, p, g, 0, r, w) && r == FromRam(m, n) && w == FromSwap(m, n)
    ensures t == Step(s, Go(p)) == Sys(s.m, s.tasks[p := SetEntries(g, NewEntries(m, n))]) && Sane(t)
  {
    StepSane(s, Go(p));
    t := Step(s, Go(p));
  }

  lemma SettingEnds(s: Sys, p: nat, g: nat)
    requires Sane(s) && p < |s.tasks| && s.tasks[p] == SetEntries(g, [])
    ensures Trace(s, [Go(p)] + []) && After(s, [Go(p)] + []) == Sys(s.m, s.tasks[p := Idle])
  {
    StepSane(s, Go(p));
    var t := Step(s, Go(p));
    assert Trace(t, []) && After(t, []) == t;
    TraceCons(s, Go(p), []);
  }

  lemma SoloSetAll(s: Sys, m: Machine, p: nat, g: nat, n: nat, r: nat, w: nat) returns (actions: seq<Action>)
    requires InTaking(s, m, p, g, 0, r, w) && p < |m.mms| && g + n <= |m.mms[p].pgd|
    requires r == FromRam(m, n) && w == FromSwap(m, n) && r + w == n
    ensures Goes(actions, p)
    ensures Trace(s, actions) && After(s, actions) == Sys(MapRange(m, p, g, n), s.tasks[p := Idle])
  {
    var s1 := TakingEnds(s, m, p, g, n, r, w);
    actions := SoloSet(s1, p, g, NewEntries(m, n));
    var s2 := After(s1, actions);
    RunSane(s1, actions);
    SettingEnds(s2, p, g + n);
    TraceJoin(s1, actions, [Go(p)] + []);
    TraceCons(s, Go(p), actions + ([Go(p)] + []));
    actions := [Go(p)] + (actions + ([Go(p)] + []));
    assert s2.tasks[p := Idle] == s.tasks[p := Idle];
  }

  lemma StartsTaking(s: Sys, p: nat, g: nat, n: nat) returns (t: Sys)
    requires Sane(s) && p < |s.tasks| && s.tasks[p] == Idle && g + n < MAX_PGN
    ensures t == Step(s, StartMap(p, g, n)) && InTaking(t, s.m, p, g, n, 0, 0) && t.tasks == s.tasks[p := t.tasks[p]]
  {
    StepSane(s, StartMap(p, g, n));
    t := Step(s, StartMap(p, g, n));
    assert s.m.ram.free[..0] == [] && s.m.swp.free[..0] == [];
    assert Taken(s.m, 0, 0) == s.m;
  }

  lemma MapOutcome(s: Sys, before: seq<Action>, t: Sys, m: Machine, p: nat, g: nat, n: nat, r: nat, w: nat)
    returns (actions: seq<Action>)
    requires Goes(before, p) && Trace(s, before) && After(s, before) == t
    requires p < |m.mms| && g + n <= |m.mms[p].pgd| && TakingOver(t, m, p, g, n, r, w)
    ensures p < |t.tasks| && Goes(actions, p)
    ensures Trace(s, actions) && After(s, actions) == Sys(MapRange(m, p, g, n), t.tasks[p := Idle])
  {
    if r + w == n {
      actions := SoloSetAll(t, m, p, g, n, r, w);
      TraceJoin(s, before, actions);
      actions := before + actions;
    } else {
      actions := before;
      assert t.tasks[p := Idle] == t.tasks;
    }
  }

  lemma SoloMapFrom(s: Sys, m: Machine, p: nat, g: nat, n: nat) returns (actions: seq<Action>)
    requires InTaking(s, m, p, g, n, 0, 0) && p < |m.mms| && g + n <= |m.mms[p].pgd|
    ensures Goes(actions, p)
    ensures Trace(s, actions) && After(s, actions) == Sys(MapRange(m, p, g, n), s.tasks[p := Idle])
  {
    var before, t, r, w := SoloTake(s, m, p, g, n, 0, 0);
    actions := MapOutcome(s, before, t, m, p, g, n, r, w);
  }

  /** A mapping that no other process disturbs is the atomic one, whether or not there are enough frames. */
  lemma SoloMap(s: Sys, p: nat, g: nat, n: nat) returns (actions: seq<Action>)
    requires Sane(s) && p < |s.tasks| && s.tasks[p] == Idle && g + n < MAX_PGN
    ensures p < |s.m.mms| && g + n <= |s.m.mms[p].pgd| && Starts(actions, StartMap(p, g, n), p)
    ensures Trace(s, actions) && After(s, actions) == Sys(MapRange(s.m, p, g, n), s.tasks)
  {
    assert IsPage(s.m, p, 0);
    var t := StartsTaking(s, p, g, n);
    var more := SoloMapFrom(t, s.m, p, g, n);
    TraceCons(s, StartMap(p, g, n), more);
    actions := [StartMap(p, g, n)] + more;
    assert actions[1..] == more;
    assert t.tasks[p := Idle] == s.tasks;
  }
}

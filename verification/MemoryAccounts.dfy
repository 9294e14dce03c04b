/** What runs do to frames and pages: the boot state, which pages are mapped and listed, how many faults a swap device
    can serve, and where every swap frame is. */
module MemoryAccounts {
  import opened PageEntry
  import opened Regions
  import opened Paging
  import opened MemoryRuns
  import opened Counting

  // ----- boot -----

  /** MEMPHY_format: every frame free, in order. */
  function Formatted(frames: seq<Page>): Device { Device(frames, Upto(|frames|), []) }

  function Boot(ram: seq<Page>, swp: seq<Page>): Machine { Machine(Formatted(ram), Formatted(swp), []) }

  lemma BootInv(ram: seq<Page>, swp: seq<Page>)
    ensures Inv(Boot(ram, swp))
  {
    UptoIs(|ram|);
    UptoIs(|swp|);
  }

  // ----- which pages are mapped and listed -----

  /** Exactly the pages below vm_end are mapped, and every page from 1 up to and including the one past the end is listed:
      vmap_page_range lists each page's successor, so page 0 is listed only once a fault has brought it in. */
  ghost predicate FullyMapped(mm: Mm) {
    && (forall h :: 0 <= h < |mm.pgd| ==> (mm.pgd[h] != Unmapped <==> h * PAGE_SIZE < mm.space.vmEnd))
    && (forall h: nat :: 0 < h && h * PAGE_SIZE <= mm.space.vmEnd ==> h in mm.fifo)
  }

  /** Process q takes no step that runs out of frames or touches an unmapped page. */
  predicate Contained(m: Machine, op: Op, q: nat)
    requires Legal(m, op) && q < |m.mms|
  {
    match op
    case Alloc(p, reg, size) => p == q ==> EnoughFrames(m, Growing(m.mms[p].space, size).count)
    case Read(p, addr) => p == q ==> EntryOf(m, p, addr / PAGE_SIZE) != Unmapped
    case Write(p, addr, _) => p == q ==> EntryOf(m, p, addr / PAGE_SIZE) != Unmapped
    case _ => true
  }

  lemma FaultFullyMapped(m: Machine, p: nat, g: nat)
    requires Inv(m) && CanFault(m, p, g) && EntryOf(m, p, g) != Unmapped && FullyMapped(m.mms[p])
    ensures FullyMapped(Fault(m, p, g).mms[p])
  {
  }

  lemma AllocFullyMapped(m: Machine, p: nat, reg: nat, size: nat)
    requires Inv(m) && Legal(m, Alloc(p, reg, size)) && FullyMapped(m.mms[p])
    requires EnoughFrames(m, Growing(m.mms[p].space, size).count)
    ensures FullyMapped(Step(m, Alloc(p, reg, size)).mms[p])
  {
    var sp, mm := m.mms[p].space, m.mms[p];
    assert MmOk(mm);
    AllocShape(sp, reg, size);
    GrowthExact(sp, reg, size);
    var g, m1 := Growing(sp, size), WithSpace(m, p, AllocIn(sp, reg, size));
    WithSpaceInv(m, p, AllocIn(sp, reg, size));
    if g.count > 0 {
      var mm' := MapRange(m1, p, g.first, g.count).mms[p];
      EnlistedAre(g.first, g.count);
      forall h | 0 <= h < MAX_PGN ensures mm'.pgd[h] != Unmapped <==> h * PAGE_SIZE < mm'.space.vmEnd {
        if g.first <= h < g.first + g.count {
          NewEntryFresh(m1, g.count, h - g.first);
        }
      }
      forall h: nat | 0 < h && h * PAGE_SIZE <= mm'.space.vmEnd ensures h in mm'.fifo {
        assert h > g.first ==> h in Enlisted(g.first, g.count);
      }
    }
  }

  /** The step brings a page in. */
  predicate Faults(m: Machine, op: Op)
    requires Legal(m, op)
  {
    match op
    case Read(p, addr) => CanFault(m, p, addr / PAGE_SIZE)
    case Write(p, addr, _) => CanFault(m, p, addr / PAGE_SIZE)
    case _ => false
  }

  /** Over every such step, the mapped pages of a process are exactly those below its page-aligned break. */
  lemma StepFullyMapped(m: Machine, op: Op, q: nat)
    requires Inv(m) && Legal(m, op) && q < |m.mms| && FullyMapped(m.mms[q]) && Contained(m, op, q)
    ensures q < |Step(m, op).mms| && FullyMapped(Step(m, op).mms[q])
  {
    if op.Alloc? && op.p == q {
      AllocFullyMapped(m, q, op.reg, op.size);
    } else if (op.Read? || op.Write?) && op.p == q && Faults(m, op) {
      FaultFullyMapped(m, q, op.addr / PAGE_SIZE);
    }
  }

  /** Every byte of every live region is then in mapped memory. */
  lemma LiveBytesMapped(m: Machine, p: nat, r: nat, off: nat)
    requires Inv(m) && p < |m.mms| && FullyMapped(m.mms[p]) && Partition(m.mms[p].space)
    requires r < SYMTBL_SIZE && m.mms[p].space.sym[r].start + off < m.mms[p].space.sym[r].end
    ensures var a := m.mms[p].space.sym[r].start + off;
            a < m.mms[p].space.sbrk && a < MAX_PGN * PAGE_SIZE && HasPage(m, p, a / PAGE_SIZE)
  {
    var sp := m.mms[p].space;
    var a := sp.sym[r].start + off;
    assert MmOk(m.mms[p]);
    CountSplit(sp.sym, r, a);
    assert a < sp.sbrk;
    assert EntryOf(m, p, a / PAGE_SIZE) == m.mms[p].pgd[a / PAGE_SIZE];
  }

  /** A fault finds a victim exactly when the process has a resident page other than page 0, or page 0 itself has been
      listed by an earlier fault. */
  lemma VictimIff(m: Machine, p: nat)
    requires Inv(m) && p < |m.mms| && FullyMapped(m.mms[p])
    ensures HasVictim(m, p) <==>
            || (exists h: nat :: 0 < h && Resides(m, p, h))
            || (Resides(m, p, 0) && 0 in m.mms[p].fifo)
  {
    var mm := m.mms[p];
    assert MmOk(mm);
    if HasVictim(m, p) {
      assert Resides(m, p, VictimOf(m, p));
    }
    if h: nat :| Resides(m, p, h) && h in mm.fifo {
      var i :| 0 <= i < |mm.fifo| && mm.fifo[i] == h;
      assert Victim(mm.pgd, mm.fifo) <= i;
    }
    forall h: nat | 0 < h && Resides(m, p, h) ensures h in mm.fifo {
      assert mm.pgd[h] != Unmapped;
    }
  }

  // ----- address spaces over whole runs -----

  /** The calls of process q change its address space as on its own; no fault, failed mapping or other process touches it. */
  lemma StepSpace(m: Machine, op: Op, q: nat)
    requires Inv(m) && Legal(m, op) && q < |m.mms|
    ensures q < |Step(m, op).mms|
    ensures Step(m, op).mms[q].space ==
            if op.Alloc? && op.p == q then AllocIn(m.mms[q].space, op.reg, op.size)
            else if op.Free? && op.p == q then FreeIn(m.mms[q].space, op.reg)
            else m.mms[q].space
  {
  }

  /** What q asks of its space in this step is a call the code gets right. */
  predicate ProperFor(m: Machine, op: Op, q: nat)
    requires Legal(m, op) && q < |m.mms|
  {
    match op
    case Alloc(p, reg, _) => p == q ==> m.mms[q].space.sym[reg].start == m.mms[q].space.sym[reg].end
    case Free(p, reg) => p == q ==> !BadOrder(m.mms[q].space.free, m.mms[q].space.sym[reg])
    case _ => true
  }

  lemma StepPartitionFor(m: Machine, op: Op, q: nat)
    requires Inv(m) && Legal(m, op) && q < |m.mms| && Partition(m.mms[q].space)
    ensures q < |Step(m, op).mms|
    ensures Partition(Step(m, op).mms[q].space) <==> ProperFor(m, op, q)
  {
    StepSpace(m, op, q);
    assert MmOk(m.mms[q]);
    if op.Alloc? && op.p == q {
      AllocKeepsPartitionIff(m.mms[q].space, op.reg, op.size);
    } else if op.Free? && op.p == q {
      FreeKeepsPartitionIff(m.mms[q].space, op.reg);
    }
  }

  /** Every call of q is proper in the state it meets. */
  ghost predicate ProperRunFor(m: Machine, ops: seq<Op>, q: nat)
    requires Inv(m) && LegalRun(m, ops) && q < |m.mms|
    decreases |ops|
  {
    ops == [] ||
    (StepInv(m, ops[0]); StepSpace(m, ops[0], q);
     ProperFor(m, ops[0], q) && ProperRunFor(Step(m, ops[0]), ops[1..], q))
  }

  /** The space of q is partitioned at every point of the run. */
  ghost predicate AlwaysPartitioned(m: Machine, ops: seq<Op>, q: nat)
    requires Inv(m) && LegalRun(m, ops) && q < |m.mms|
    decreases |ops|
  {
    Partition(m.mms[q].space) &&
    (ops == [] || (StepInv(m, ops[0]); StepSpace(m, ops[0], q); AlwaysPartitioned(Step(m, ops[0]), ops[1..], q)))
  }

  /** Over any run of all processes, with faults and with mappings that run out of frames, the regions of q partition its heap at
      every point exactly when every call of q itself is proper. */
  lemma {:induction false} RunPartitionForIff(m: Machine, ops: seq<Op>, q: nat)
    requires Inv(m) && LegalRun(m, ops) && q < |m.mms| && Partition(m.mms[q].space)
    ensures AlwaysPartitioned(m, ops, q) <==> ProperRunFor(m, ops, q)
    ensures AlwaysPartitioned(m, ops, q) ==> q < |Run(m, ops).mms| && Partition(Run(m, ops).mms[q].space)
    decreases |ops|
  {
    if ops != [] {
      StepInv(m, ops[0]);
      StepSpace(m, ops[0], q);
      StepPartitionFor(m, ops[0], q);
      if ProperFor(m, ops[0], q) {
        RunPartitionForIff(Step(m, ops[0]), ops[1..], q);
      } else {
        assert !AlwaysPartitioned(Step(m, ops[0]), ops[1..], q);
      }
    }
  }

  /** Every step of q stays in mapped memory and finds its frames. */
  ghost predicate ContainedRun(m: Machine, ops: seq<Op>, q: nat)
    requires Inv(m) && LegalRun(m, ops) && q < |m.mms|
    decreases |ops|
  {
    ops == [] ||
    (StepInv(m, ops[0]); StepSpace(m, ops[0], q);
     Contained(m, ops[0], q) && ContainedRun(Step(m, ops[0]), ops[1..], q))
  }

  /** Then all of its heap stays mapped, whatever the other processes do. */
  lemma {:induction false} RunKeepsMapped(m: Machine, ops: seq<Op>, q: nat)
    requires Inv(m) && LegalRun(m, ops) && q < |m.mms| && ContainedRun(m, ops, q) && FullyMapped(m.mms[q])
    ensures q < |Run(m, ops).mms| && FullyMapped(Run(m, ops).mms[q])
    decreases |ops|
  {
    if ops != [] {
      StepInv(m, ops[0]);
      StepSpace(m, ops[0], q);
      StepFullyMapped(m, ops[0], q);
      RunKeepsMapped(Step(m, ops[0]), ops[1..], q);
    }
  }

  /** A process starts that way. */
  lemma InitHeap()
    ensures Partition(InitMm().space) && FullyMapped(InitMm())
  {
    InitPartition();
  }

  /** A byte of another live region is mapped, and at another address. */
  lemma OtherRegionByte(m: Machine, p: nat, r: nat, a: nat, s: nat, b: nat)
    requires Inv(m) && p < |m.mms| && FullyMapped(m.mms[p]) && Partition(m.mms[p].space)
    requires r < SYMTBL_SIZE && s < SYMTBL_SIZE && r != s && MmOk(m.mms[p])
    requires In(a, m.mms[p].space.sym[r]) && In(b, m.mms[p].space.sym[s])
    ensures a != b && b in Memory(m, p)
  {
    LiveBytesMapped(m, p, s, b - m.mms[p].space.sym[s].start);
    LiveRegionsDisjoint(m.mms[p].space, r, s, a);
  }

  /** A write to address a of register r's region, through a right frame, on a partitioned and mapped heap: it stores the byte at
      its address, and changes no byte of any other live region of the process, nor of any other process. */
  lemma RegionWrite(m: Machine, p: nat, r: nat, a: nat, v: Byte)
    requires Inv(m) && p < |m.mms| && MmOk(m.mms[p]) && FullyMapped(m.mms[p]) && Partition(m.mms[p].space)
    requires r < SYMTBL_SIZE && In(a, m.mms[p].space.sym[r])
    requires IsPage(m, p, a / PAGE_SIZE) && RightFrame(m, p, a / PAGE_SIZE)
    ensures Legal(m, Write(p, a, v)) && Memory(Step(m, Write(p, a, v)), p) == Memory(m, p)[a := v]
    ensures forall s: nat, b: nat :: s < SYMTBL_SIZE && s != r && In(b, m.mms[p].space.sym[s]) ==>
              && b in Memory(m, p) && b in Memory(Step(m, Write(p, a, v)), p)
              && Memory(Step(m, Write(p, a, v)), p)[b] == Memory(m, p)[b]
    ensures forall q: nat :: q < |m.mms| && q != p ==> Memory(Step(m, Write(p, a, v)), q) == Memory(m, q)
  {
    var op := Write(p, a, v);
    LiveBytesMapped(m, p, r, a - m.mms[p].space.sym[r].start);
    SetValRight(m, p, a, v);
    WriteRefines(m, p, a, v);
    var before, after := Memory(m, p), Memory(Step(m, op), p);
    forall s: nat, b: nat | s < SYMTBL_SIZE && s != r && In(b, m.mms[p].space.sym[s])
      ensures b in before && b in after && after[b] == before[b]
    {
      OtherRegionByte(m, p, r, a, s, b);
    }
    forall q: nat | q < |m.mms| && q != p ensures Memory(Step(m, op), q) == Memory(m, q) {
      RightSpares(m, op, q);
      StepIsolates(m, op, q);
    }
  }

  // ----- how many faults a run can have -----

  lemma StepSwapFree(m: Machine, op: Op)
    requires Inv(m) && Legal(m, op)
    ensures |Step(m, op).swp.free| + (if Faults(m, op) then 1 else 0) <= |m.swp.free|
  {
  }

  ghost function FaultCount(m: Machine, ops: seq<Op>): nat
    requires LegalRun(m, ops)
    decreases |ops|
  {
    if ops == [] then 0
    else (if Faults(m, ops[0]) then 1 else 0) + FaultCount(Step(m, ops[0]), ops[1..])
  }

  /** Every fault uses up a free swap frame for good, so a run has at most as many faults as there were free ones. */
  lemma {:induction false} FaultsBounded(m: Machine, ops: seq<Op>)
    requires Inv(m) && LegalRun(m, ops)
    ensures FaultCount(m, ops) + |Run(m, ops).swp.free| <= |m.swp.free|
    decreases |ops|
  {
    if ops != [] {
      StepSwapFree(m, ops[0]);
      StepInv(m, ops[0]);
      FaultsBounded(Step(m, ops[0]), ops[1..]);
    }
  }

  // ----- where every swap frame is -----

  /** Swap frames no list and no entry names: dropped by a mapping (taken by one that failed, or overwritten by one that
      remapped the page), or retired when a fault brought their page back to RAM. */
  datatype Lost = Lost(dropped: set<nat>, retired: set<nat>)

  ghost predicate Named(m: Machine, o: nat) {
    exists p: nat, g: nat :: IsPage(m, p, g) && EntryOf(m, p, g) == Swapped(o)
  }

  /** Every swap frame is free, named by an entry, dropped or retired: exactly one of the four. */
  ghost predicate Classified(m: Machine, l: Lost) {
    forall o: nat {:trigger Named(m, o)} :: o < |m.swp.frames| ==>
      One(o in m.swp.free) + One(Named(m, o)) + One(o in l.dropped) + One(o in l.retired) == 1
  }

  ghost function Overwritten(m: Machine, p: nat, g: nat, n: nat): set<nat>
    requires p < |m.mms| && g + n <= |m.mms[p].pgd|
  {
    set h | g <= h < g + n && m.mms[p].pgd[h].Swapped? :: m.mms[p].pgd[h].swp
  }

  /** What a step adds to the lost frames. */
  ghost function LostStep(m: Machine, op: Op, l: Lost): Lost
    requires Legal(m, op)
  {
    match op
    case Alloc(p, reg, size) =>
      var g := Growing(m.mms[p].space, size);
      if g.count == 0 then l
      else if EnoughFrames(m, g.count) then l.(dropped := l.dropped + Overwritten(m, p, g.first, g.count))
      else l.(dropped := l.dropped + set o | o in m.swp.free)
    case Spawn => l
    case Free(_, _) => l
    case _ =>
      var e := EntryOf(m, op.p, op.addr / PAGE_SIZE);
      if Faults(m, op) && e.Swapped? then l.(retired := l.retired + {e.swp}) else l
  }

  lemma FaultNamed(m: Machine, p: nat, g: nat, o: nat)
    requires Inv(m) && CanFault(m, p, g)
    ensures Named(Fault(m, p, g), o) <==> o == m.swp.free[0] || (Named(m, o) && EntryOf(m, p, g) != Swapped(o))
  {
    var m', vic := Fault(m, p, g), VictimOf(m, p);
    if q: nat, h: nat :| IsPage(m', q, h) && EntryOf(m', q, h) == Swapped(o) {
      FaultEntries(m, p, g, q, h);
      assert o != m.swp.free[0] ==> EntryOf(m, q, h) == Swapped(o) && EntryOf(m, p, g) != Swapped(o);
    }
    if q: nat, h: nat :| IsPage(m, q, h) && EntryOf(m, q, h) == Swapped(o) && EntryOf(m, p, g) != Swapped(o) {
      FaultEntries(m, p, g, q, h);
    }
    FaultEntries(m, p, g, p, vic);
  }

  lemma FaultClassified(m: Machine, p: nat, g: nat, l: Lost)
    requires Inv(m) && CanFault(m, p, g) && Classified(m, l)
    ensures var e := EntryOf(m, p, g);
            Classified(Fault(m, p, g), if e.Swapped? then l.(retired := l.retired + {e.swp}) else l)
  {
    var m', e := Fault(m, p, g), EntryOf(m, p, g);
    HeadIsFree(m.swp);
    assert m.swp.free == [m.swp.free[0]] + m.swp.free[1..];
    forall o: nat | o < |m'.swp.frames|
      ensures One(o in m'.swp.free) + One(Named(m', o)) + One(o in l.dropped)
              + One(o in l.retired || (e.Swapped? && o == e.swp)) == 1
    {
      FaultNamed(m, p, g, o);
      assert Named(m, o) || !Named(m, o);
      assert e == Swapped(o) ==> Named(m, o);
    }
  }

  lemma MapNamedOnly(m: Machine, p: nat, g: nat, n: nat, o: nat)
    requires Inv(m) && p < |m.mms| && |m.mms[p].pgd| == MAX_PGN && g + n <= MAX_PGN && EnoughFrames(m, n)
    requires Named(MapRange(m, p, g, n), o)
    ensures o in m.swp.free[..FromSwap(m, n)] || (Named(m, o) && o !in Overwritten(m, p, g, n))
  {
    var m' := MapRange(m, p, g, n);
    var q: nat, h: nat :| IsPage(m', q, h) && EntryOf(m', q, h) == Swapped(o);
    assert IsPage(m, q, h);
    MapEntries(m, p, g, n, q, h);
    if q == p && g <= h < g + n {
      NewEntriesAre(m, n, h - g);
    } else {
      NotOverwritten(m, p, g, n, q, h);
    }
  }

  /** An entry outside the range names a frame that none inside does. */
  lemma NotOverwritten(m: Machine, p: nat, g: nat, n: nat, q: nat, h: nat)
    requires Inv(m) && p < |m.mms| && |m.mms[p].pgd| == MAX_PGN && g + n <= MAX_PGN
    requires IsPage(m, q, h) && EntryOf(m, q, h).Swapped? && !(q == p && g <= h < g + n)
    ensures EntryOf(m, q, h).swp !in Overwritten(m, p, g, n)
  {
    forall k | g <= k < g + n ensures m.mms[p].pgd[k] != EntryOf(m, q, h) {
      assert IsPage(m, p, k) && EntryOf(m, p, k) == m.mms[p].pgd[k];
    }
  }

  lemma MapNamedKept(m: Machine, p: nat, g: nat, n: nat, o: nat)
    requires p < |m.mms| && |m.mms[p].pgd| == MAX_PGN && g + n <= MAX_PGN && EnoughFrames(m, n)
    requires Named(m, o) && o !in Overwritten(m, p, g, n)
    ensures Named(MapRange(m, p, g, n), o)
  {
    var q: nat, h: nat :| IsPage(m, q, h) && EntryOf(m, q, h) == Swapped(o);
    MapEntries(m, p, g, n, q, h);
  }

  lemma MapNamedNew(m: Machine, p: nat, g: nat, n: nat, i: nat)
    requires p < |m.mms| && |m.mms[p].pgd| == MAX_PGN && g + n <= MAX_PGN && EnoughFrames(m, n) && i < FromSwap(m, n)
    ensures Named(MapRange(m, p, g, n), m.swp.free[i])
  {
    var m', k := MapRange(m, p, g, n), FromRam(m, n) + FromSwap(m, n) - 1 - i;
    assert IsPage(m, p, g + k);
    MapEntries(m, p, g, n, p, g + k);
    NewEntriesAre(m, n, k);
    assert EntryOf(m', p, g + k) == Swapped(m.swp.free[i]);
  }

  lemma MapNamed(m: Machine, p: nat, g: nat, n: nat, o: nat)
    requires Inv(m) && p < |m.mms| && |m.mms[p].pgd| == MAX_PGN && g + n <= MAX_PGN && EnoughFrames(m, n)
    ensures Named(MapRange(m, p, g, n), o) <==>
            o in m.swp.free[..FromSwap(m, n)] || (Named(m, o) && o !in Overwritten(m, p, g, n))
    ensures o in Overwritten(m, p, g, n) ==> Named(m, o)
  {
    if Named(MapRange(m, p, g, n), o) {
      MapNamedOnly(m, p, g, n, o);
    }
    if Named(m, o) && o !in Overwritten(m, p, g, n) {
      MapNamedKept(m, p, g, n, o);
    }
    if i :| 0 <= i < FromSwap(m, n) && m.swp.free[i] == o {
      MapNamedNew(m, p, g, n, i);
    }
    if h :| g <= h < g + n && m.mms[p].pgd[h] == Swapped(o) {
      assert IsPage(m, p, h) && EntryOf(m, p, h) == Swapped(o);
    }
  }

  lemma MapClassified(m: Machine, p: nat, g: nat, n: nat, l: Lost)
    requires Inv(m) && p < |m.mms| && g + n < MAX_PGN && |m.mms[p].pgd| == MAX_PGN && Classified(m, l)
    ensures Classified(MapRange(m, p, g, n),
                       l.(dropped := l.dropped + if EnoughFrames(m, n) then Overwritten(m, p, g, n) else set o | o in m.swp.free))
  {
    var m', w := MapRange(m, p, g, n), FromSwap(m, n);
    TakeFramesFreeOk(m.swp, w);
    assert m.swp.free == m.swp.free[..w] + m.swp.free[w..];
    forall o: nat | o < |m'.swp.frames|
      ensures One(o in m'.swp.free) + One(Named(m', o)) + One(o in l.retired)
              + One(o in l.dropped || if EnoughFrames(m, n) then o in Overwritten(m, p, g, n) else o in m.swp.free) == 1
    {
      assert Named(m, o) || !Named(m, o);
      if EnoughFrames(m, n) {
        MapNamed(m, p, g, n, o);
      } else {
        SameNamed(m, m', o);
      }
    }
  }

  lemma SameNamed(m: Machine, m': Machine, o: nat)
    requires |m'.mms| == |m.mms| && forall q :: 0 <= q < |m.mms| ==> m'.mms[q].pgd == m.mms[q].pgd
    ensures Named(m', o) <==> Named(m, o)
  {
    if p: nat, g: nat :| IsPage(m, p, g) && EntryOf(m, p, g) == Swapped(o) {
      assert IsPage(m', p, g) && EntryOf(m', p, g) == Swapped(o);
    }
    if p: nat, g: nat :| IsPage(m', p, g) && EntryOf(m', p, g) == Swapped(o) {
      assert IsPage(m, p, g) && EntryOf(m, p, g) == Swapped(o);
    }
  }

  lemma SameClassified(m: Machine, m': Machine, l: Lost)
    requires Classified(m, l) && |m'.mms| == |m.mms| && forall q :: 0 <= q < |m.mms| ==> m'.mms[q].pgd == m.mms[q].pgd
    requires m'.swp.free == m.swp.free && |m'.swp.frames| == |m.swp.frames|
    ensures Classified(m', l)
  {
    forall o: nat | o < |m'.swp.frames| ensures Named(m', o) <==> Named(m, o) {
      SameNamed(m, m', o);
    }
  }

  lemma SpawnClassified(m: Machine, l: Lost)
    requires Classified(m, l)
    ensures Classified(Step(m, Spawn), l)
  {
    var m' := Step(m, Spawn);
    forall o: nat | o < |m'.swp.frames| ensures Named(m', o) <==> Named(m, o) {
      if p: nat, g: nat :| IsPage(m, p, g) && EntryOf(m, p, g) == Swapped(o) {
        assert IsPage(m', p, g) && EntryOf(m', p, g) == Swapped(o);
      }
      if p: nat, g: nat :| IsPage(m', p, g) && EntryOf(m', p, g) == Swapped(o) {
        assert IsPage(m, p, g) && EntryOf(m, p, g) == Swapped(o);
      }
    }
  }

  lemma AllocClassified(m: Machine, p: nat, reg: nat, size: nat, l: Lost)
    requires Inv(m) && Legal(m, Alloc(p, reg, size)) && Classified(m, l)
    ensures Classified(Step(m, Alloc(p, reg, size)), LostStep(m, Alloc(p, reg, size), l))
  {
    var sp := m.mms[p].space;
    assert MmOk(m.mms[p]);
    AllocShape(sp, reg, size);
    GrowthExact(sp, reg, size);
    var g, m1 := Growing(sp, size), WithSpace(m, p, AllocIn(sp, reg, size));
    WithSpaceInv(m, p, AllocIn(sp, reg, size));
    SameClassified(m, m1, l);
    if g.count > 0 {
      assert Overwritten(m1, p, g.first, g.count) == Overwritten(m, p, g.first, g.count);
      MapClassified(m1, p, g.first, g.count, l);
    }
  }

  /** Every step of every process keeps each swap frame in exactly one class. */
  lemma StepClassified(m: Machine, op: Op, l: Lost)
    requires Inv(m) && Legal(m, op) && Classified(m, l)
    ensures Classified(Step(m, op), LostStep(m, op, l))
  {
    if op.Spawn? {
      SpawnClassified(m, l);
    } else if op.Alloc? {
      AllocClassified(m, op.p, op.reg, op.size, l);
    } else if op.Free? {
      SameClassified(m, Step(m, op), l);
    } else {
      if Faults(m, op) {
        FaultClassified(m, op.p, op.addr / PAGE_SIZE, l);
        SameClassified(Fault(m, op.p, op.addr / PAGE_SIZE), Step(m, op), LostStep(m, op, l));
      } else {
        SameClassified(m, Step(m, op), l);
      }
    }
  }

  ghost function LostAfter(m: Machine, ops: seq<Op>, l: Lost): Lost
    requires LegalRun(m, ops)
    decreases |ops|
  {
    if ops == [] then l else LostAfter(Step(m, ops[0]), ops[1..], LostStep(m, ops[0], l))
  }

  /** In every run each swap frame is free, named by exactly one entry, dropped by a mapping, or retired by a swap-in. */
  lemma {:induction false} RunClassified(m: Machine, ops: seq<Op>, l: Lost)
    requires Inv(m) && LegalRun(m, ops) && Classified(m, l)
    ensures Classified(Run(m, ops), LostAfter(m, ops, l))
    decreases |ops|
  {
    if ops != [] {
      StepClassified(m, ops[0], l);
      StepInv(m, ops[0]);
      RunClassified(Step(m, ops[0]), ops[1..], LostStep(m, ops[0], l));
    }
  }

  lemma BootClassified(ram: seq<Page>, swp: seq<Page>)
    ensures Classified(Boot(ram, swp), Lost({}, {}))
  {
    UptoIs(|swp|);
    forall o: nat | o < |swp| ensures o in Upto(|swp|) && !Named(Boot(ram, swp), o) {
      assert Upto(|swp|)[o] == o;
    }
  }

  // ----- a run in which one process writes into another -----

  lemma FirstAlloc(m: Machine, p: nat, size: nat) returns (m': Machine)
    requires Inv(m) && p < |m.mms| && m.mms[p] == InitMm() && 0 < size <= 1024
    ensures Legal(m, Alloc(p, 0, size)) && m' == Step(m, Alloc(p, 0, size)) && Inv(m')
    ensures m' == MapRange(WithSpace(m, p, AllocIn(INIT_SPACE, 0, size)), p, 0, PageAlign(size) / PAGE_SIZE)
  {
    var sp := INIT_SPACE;
    assert sp.free == [SENTINEL] && FirstFit(sp.free, size) == 1;
    assert Growing(sp, size) == Growth(0, PageAlign(size) / PAGE_SIZE);
    m' := Step(m, Alloc(p, 0, size));
    StepInv(m, Alloc(p, 0, size));
  }

  lemma TwoSpawned(ram: seq<Page>, swp: seq<Page>) returns (m2: Machine)
    requires |ram| == 3 && |swp| == 2
    ensures m2 == Step(Step(Boot(ram, swp), Spawn), Spawn) && Inv(m2) && m2.mms == [InitMm(), InitMm()]
    ensures m2.ram.free == [0, 1, 2] && m2.swp.free == [0, 1]
  {
    var m0 := Boot(ram, swp);
    BootInv(ram, swp);
    StepInv(m0, Spawn);
    var m1 := Step(m0, Spawn);
    StepInv(m1, Spawn);
    m2 := Step(m1, Spawn);
    UptoIs(3);
    UptoIs(2);
  }

  lemma OneFrame(m2: Machine) returns (m3: Machine)
    requires Inv(m2) && m2.mms == [InitMm(), InitMm()] && m2.ram.free == [0, 1, 2] && m2.swp.free == [0, 1]
    ensures Legal(m2, Alloc(1, 0, 256)) && m3 == Step(m2, Alloc(1, 0, 256)) && Inv(m3)
    ensures |m3.mms| == 2 && m3.mms[0] == InitMm() && IsPage(m3, 1, 0) && EntryOf(m3, 1, 0) == Resident(0)
    ensures m3.ram.free == [1, 2] && m3.swp.free == [0, 1]
  {
    m3 := FirstAlloc(m2, 1, 256);
    var n2 := WithSpace(m2, 1, AllocIn(INIT_SPACE, 0, 256));
    InitPartition();
    AllocShape(INIT_SPACE, 0, 256);
    WithSpaceInv(m2, 1, AllocIn(INIT_SPACE, 0, 256));
    assert PageAlign(256) / PAGE_SIZE == 1;
    MapExact(n2, 1, 0, 1, 1, 0);
  }

  lemma SecondAlloc(m3: Machine) returns (m: Machine)
    requires Inv(m3) && |m3.mms| == 2 && m3.mms[0] == InitMm() && IsPage(m3, 1, 0) && EntryOf(m3, 1, 0) == Resident(0)
    requires m3.ram.free == [1, 2] && m3.swp.free == [0, 1]
    ensures Legal(m3, Alloc(0, 0, 600)) && m == Step(m3, Alloc(0, 0, 600)) && Inv(m)
    ensures |m.mms| == 2 && IsPage(m, 1, 0) && EntryOf(m, 1, 0) == Resident(0)
    ensures IsPage(m, 0, 2) && EntryOf(m, 0, 2) == Swapped(0) && EntryOf(m, 0, 1) == Resident(1)
    ensures m.mms[0].fifo == [3, 2, 1] && m.swp.free == [1]
    ensures IsPage(m, 0, 3) && EntryOf(m, 0, 3) == Unmapped
  {
    m := FirstAlloc(m3, 0, 600);
    var n3 := WithSpace(m3, 0, AllocIn(INIT_SPACE, 0, 600));
    InitPartition();
    AllocShape(INIT_SPACE, 0, 600);
    WithSpaceInv(m3, 0, AllocIn(INIT_SPACE, 0, 600));
    assert PageAlign(600) / PAGE_SIZE == 3;
    MapExact(n3, 0, 0, 3, 1, 0);
    MapExact(n3, 0, 0, 3, 0, 1);
    MapExact(n3, 0, 0, 3, 0, 2);
    MapExact(n3, 0, 0, 3, 0, 3);
    assert Enlisted(0, 3) == [3, 2, 1];
  }

  lemma ThirdListed(mm: Mm)
    requires |mm.pgd| == MAX_PGN && mm.fifo == [3, 2, 1]
    requires !mm.pgd[3].Resident? && !mm.pgd[2].Resident? && mm.pgd[1].Resident?
    ensures Victim(mm.pgd, mm.fifo) == 2
  {
    var i := Victim(mm.pgd, mm.fifo);
    assert mm.fifo[0] == 3 && mm.fifo[1] == 2 && mm.fifo[2] == 1;
    assert mm.pgd[mm.fifo[2]].Resident?;
  }

  lemma WriteGoesAstray(m: Machine, v: Byte)
    requires Inv(m) && |m.mms| == 2 && IsPage(m, 1, 0) && EntryOf(m, 1, 0) == Resident(0)
    requires IsPage(m, 0, 2) && EntryOf(m, 0, 2) == Swapped(0) && EntryOf(m, 0, 1) == Resident(1)
    requires m.mms[0].fifo == [3, 2, 1] && m.swp.free == [1]
    requires IsPage(m, 0, 3) && EntryOf(m, 0, 3) == Unmapped
    ensures Legal(m, Write(0, 512, v)) && !Spares(m, Write(0, 512, v), 1)
    ensures Legal(m, Read(0, 512)) && Leaks(m, 0, 2, 1)
    ensures var m' := Step(m, Write(0, 512, v));
            && 0 in Memory(m, 1) && 0 in Memory(m', 1) && Memory(m', 1)[0] == v
            && 512 in Memory(m, 0) && 512 in Memory(m', 0) && Memory(m', 0)[512] == Memory(m, 0)[512]
  {
    ThirdListed(m.mms[0]);
    assert VictimOf(m, 0) == 1;
    CanFaultIff(m, 0, 2);
    assert Stored(m, EntryOf(m, 0, 2)) && Stored(m, EntryOf(m, 1, 0));
    assert Resides(m, 1, 0) && HasPage(m, 1, 0);
    WriteHits(m, Write(0, 512, v), 1, 0);
    WriteHits(m, Write(0, 512, v), 0, 512);
  }

  /** The stale frame number breaks isolation in an ordinary run. Two processes share three RAM frames; process 0 writes
      to its own third page, which is in swap; the page is brought in, and the byte lands in the memory of process 1 and
      not in that of process 0. A read there returns a byte of process 1. */
  lemma IsolationCanBreak(ram: seq<Page>, swp: seq<Page>, v: Byte) returns (ops: seq<Op>, m: Machine)
    requires |ram| == 3 && |swp| == 2
    ensures LegalRun(Boot(ram, swp), ops) && m == Run(Boot(ram, swp), ops)
    ensures Legal(m, Write(0, 512, v)) && !Spares(m, Write(0, 512, v), 1)
    ensures Legal(m, Read(0, 512)) && Leaks(m, 0, 2, 1)
    ensures var m' := Step(m, Write(0, 512, v));
            && 0 in Memory(m, 1) && 0 in Memory(m', 1) && Memory(m', 1)[0] == v
            && 512 in Memory(m, 0) && 512 in Memory(m', 0) && Memory(m', 0)[512] == Memory(m, 0)[512]
  {
    var m2 := TwoSpawned(ram, swp);
    var m3 := OneFrame(m2);
    m := SecondAlloc(m3);
    WriteGoesAstray(m, v);
    ops := [Spawn, Spawn, Alloc(1, 0, 256), Alloc(0, 0, 600)];
    var m0 := Boot(ram, swp);
    assert ops[1..] == [Spawn, Alloc(1, 0, 256), Alloc(0, 0, 600)];
    assert ops[1..][1..] == [Alloc(1, 0, 256), Alloc(0, 0, 600)];
    assert [Alloc(1, 0, 256), Alloc(0, 0, 600)][1..] == [Alloc(0, 0, 600)];
    RunOne(m3, Alloc(0, 0, 600));
    RunCons(m2, Alloc(1, 0, 256), [Alloc(0, 0, 600)]);
    RunCons(Step(m0, Spawn), Spawn, ops[1..][1..]);
    RunCons(m0, Spawn, ops[1..]);
  }

  lemma RunOne(m: Machine, op: Op)
    requires Legal(m, op)
    ensures LegalRun(m, [op]) && Run(m, [op]) == Step(m, op)
  {
    assert [op][1..] == [];
  }

  lemma RunCons(m: Machine, op: Op, ops: seq<Op>)
    requires Legal(m, op) && LegalRun(Step(m, op), ops)
    ensures LegalRun(m, [op] + ops) && Run(m, [op] + ops) == Run(Step(m, op), ops)
  {
    assert ([op] + ops)[1..] == ops;
  }

  // ----- a run in which a fault finds no victim -----

  lemma OnlyPageZero(m1: Machine) returns (m: Machine)
    requires Inv(m1) && m1.mms == [InitMm()] && m1.ram.free == [0] && |m1.swp.free| > 0
    ensures Legal(m1, Alloc(0, 0, 512)) && m == Step(m1, Alloc(0, 0, 512)) && Inv(m)
    ensures |m.mms| == 1 && IsPage(m, 0, 0) && Resides(m, 0, 0) && EntryOf(m, 0, 1) == Swapped(m1.swp.free[0])
    ensures !HasVictim(m, 0) && FullyMapped(m.mms[0])
  {
    m := FirstAlloc(m1, 0, 512);
    var n1 := WithSpace(m1, 0, AllocIn(INIT_SPACE, 0, 512));
    InitPartition();
    AllocShape(INIT_SPACE, 0, 512);
    WithSpaceInv(m1, 0, AllocIn(INIT_SPACE, 0, 512));
    assert PageAlign(512) / PAGE_SIZE == 2;
    MapExact(n1, 0, 0, 2, 0, 0);
    MapExact(n1, 0, 0, 2, 0, 1);
    MapExact(n1, 0, 0, 2, 0, 2);
    assert Enlisted(0, 2) == [2, 1];
    assert m.mms[0].fifo == [2, 1] && m.mms[0].fifo[0] == 2 && m.mms[0].fifo[1] == 1;
    InitHeap();
    AllocFullyMapped(m1, 0, 0, 512);
  }

  /** With one RAM frame, a process that has allocated two pages holds page 0 in RAM, and page 0 is not listed: a read of its
      second page finds no victim and fails, although a page could be evicted and swap frames may be free. */
  lemma NoVictimReachable(ram: seq<Page>, swp: seq<Page>) returns (ops: seq<Op>, m: Machine)
    requires |ram| == 1 && |swp| > 0
    ensures LegalRun(Boot(ram, swp), ops) && m == Run(Boot(ram, swp), ops)
    ensures |m.mms| == 1 && FullyMapped(m.mms[0]) && Resides(m, 0, 0) && HasPage(m, 0, 1)
    ensures !HasVictim(m, 0) && GetVal(m, 0, 256) == Fails
  {
    var m0 := Boot(ram, swp);
    BootInv(ram, swp);
    StepInv(m0, Spawn);
    UptoIs(1);
    UptoIs(|swp|);
    var m1 := Step(m0, Spawn);
    m := OnlyPageZero(m1);
    ops := [Spawn, Alloc(0, 0, 512)];
    RunOne(m1, Alloc(0, 0, 512));
    RunCons(m0, Spawn, [Alloc(0, 0, 512)]);
    assert [Spawn] + [Alloc(0, 0, 512)] == ops;
    assert Stored(m, EntryOf(m, 0, 1));
  }
}

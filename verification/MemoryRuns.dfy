/** Whole runs of the paging engine: every process sees a plain map from addresses to bytes. */
module MemoryRuns {
  import opened PageEntry
  import opened Regions
  import opened Paging

  // ----- reads and writes -----

  /** pg_getpage: no victim (-1), undefined behaviour in the source, or the frame number it returns. */
  datatype Lookup = NoVictim | Undefined | Found(m: Machine, fpn: nat)

  /** The entry is decoded as it was before the fault, so after a fault the frame number returned is whatever the
      swap bits of the old entry spell, not the frame the page was just given. */
  function GetPage(m: Machine, p: nat, g: nat): Lookup
    requires IsPage(m, p, g)
  {
    var e := EntryOf(m, p, g);
    if e.Resident? then Found(m, FpnField(e))
    else if !HasVictim(m, p) then NoVictim
    else if CanFault(m, p, g) then Found(Fault(m, p, g), FpnField(e))
    else Undefined
  }

  function StoreByte(m: Machine, f: nat, off: nat, v: Byte): Machine
    requires f < |m.ram.frames| && off < PAGE_SIZE
  {
    m.(ram := m.ram.(frames := m.ram.frames[f := m.ram.frames[f][off := v]]))
  }

  datatype Access<T> = Fails | Wild | Done(value: T)

  /** pg_setval */
  function SetVal(m: Machine, p: nat, addr: nat, v: Byte): Access<Machine>
    requires IsPage(m, p, addr / PAGE_SIZE)
  {
    match GetPage(m, p, addr / PAGE_SIZE)
    case NoVictim => Fails
    case Undefined => Wild
    case Found(m', f) => if f < |m'.ram.frames| then Done(StoreByte(m', f, addr % PAGE_SIZE, v)) else Wild
  }

  /** pg_getval: the machine after the access and the byte read. */
  function GetVal(m: Machine, p: nat, addr: nat): Access<(Machine, Byte)>
    requires IsPage(m, p, addr / PAGE_SIZE)
  {
    match GetPage(m, p, addr / PAGE_SIZE)
    case NoVictim => Fails
    case Undefined => Wild
    case Found(m', f) => if f < |m'.ram.frames| then Done((m', m'.ram.frames[f][addr % PAGE_SIZE])) else Wild
  }

  /** The frame pg_getpage returns is the page's own: the page is resident, or the stale bits happen to spell the
      victim's frame. */
  predicate RightFrame(m: Machine, p: nat, g: nat)
    requires IsPage(m, p, g)
  {
    || EntryOf(m, p, g).Resident?
    || (CanFault(m, p, g) && FpnField(EntryOf(m, p, g)) == EntryOf(m, p, VictimOf(m, p)).fpn)
  }

  /** Whether pg_setval on page g of process p stores into page h of process q: into its own frame if the page is
      resident; after a fault, into whichever page then has the frame number that the stale bits spell. */
  predicate Lands(m: Machine, p: nat, g: nat, q: nat, h: nat)
    requires IsPage(m, p, g) && IsPage(m, q, h)
  {
    var e := EntryOf(m, p, g);
    if e.Resident? then q == p && h == g
    else if !HasVictim(m, p) then false
    else if q == p && h == g then FpnField(e) == EntryOf(m, p, VictimOf(m, p)).fpn
    else !(q == p && h == VictimOf(m, p)) && EntryOf(m, q, h) == Resident(FpnField(e))
  }

  /** m' is m with exactly one byte changed: the one at addr of process p. */
  ghost predicate Writes(m: Machine, m': Machine, p: nat, addr: nat, v: Byte) {
    forall q: nat, h: nat {:trigger HasPage(m', q, h)} {:trigger HasPage(m, q, h)} :: HasPage(m, q, h) ==>
      && HasPage(m', q, h)
      && PageOf(m', q, h) ==
         if q == p && h == addr / PAGE_SIZE then PageOf(m, q, h)[addr % PAGE_SIZE := v] else PageOf(m, q, h)
  }

  /** Soundness does not look at the bytes. */
  lemma SameTables(m: Machine, m': Machine)
    requires Inv(m) && m'.mms == m.mms
    requires m'.ram.free == m.ram.free && m'.ram.used == m.ram.used && |m'.ram.frames| == |m.ram.frames|
    requires m'.swp.free == m.swp.free && |m'.swp.frames| == |m.swp.frames|
    ensures Inv(m')
  {
    forall q: nat, h: nat | IsPage(m', q, h)
      ensures EntryOf(m', q, h) == EntryOf(m, q, h)
      ensures Stored(m', EntryOf(m', q, h)) == Stored(m, EntryOf(m, q, h))
    {
    }
    assert Located(m');
    assert Unshared(m');
  }

  /** Any pg_setval that succeeds, through the right frame or a wrong one, keeps the machine sound. */
  lemma SetValInv(m: Machine, p: nat, addr: nat, v: Byte)
    requires Inv(m) && addr < MAX_PGN * PAGE_SIZE && IsPage(m, p, addr / PAGE_SIZE) && SetVal(m, p, addr, v).Done?
    ensures Inv(SetVal(m, p, addr, v).value)
  {
    var g := addr / PAGE_SIZE;
    if EntryOf(m, p, g).Resident? {
      SameTables(m, SetVal(m, p, addr, v).value);
    } else {
      FaultInv(m, p, g);
      SameTables(Fault(m, p, g), SetVal(m, p, addr, v).value);
    }
  }

  /** What any pg_setval that succeeds does to any mapped page of any process: the byte of the page it lands in, and
      nothing else. */
  lemma SetValExact(m: Machine, p: nat, addr: nat, v: Byte, q: nat, h: nat)
    requires Inv(m) && addr < MAX_PGN * PAGE_SIZE && IsPage(m, p, addr / PAGE_SIZE) && SetVal(m, p, addr, v).Done?
    requires HasPage(m, q, h)
    ensures var m' := SetVal(m, p, addr, v).value;
            && HasPage(m', q, h)
            && PageOf(m', q, h) ==
               if Lands(m, p, addr / PAGE_SIZE, q, h) then PageOf(m, q, h)[addr % PAGE_SIZE := v] else PageOf(m, q, h)
  {
    var g := addr / PAGE_SIZE;
    if !EntryOf(m, p, g).Resident? {
      FaultEntries(m, p, g, q, h);
      FaultKeepsPage(m, p, g, q, h);
    }
  }

  /** Through a right frame a write lands in its own page, and in no other. */
  lemma RightLands(m: Machine, p: nat, g: nat, q: nat, h: nat)
    requires Inv(m) && IsPage(m, p, g) && RightFrame(m, p, g) && IsPage(m, q, h)
    ensures Lands(m, p, g, q, h) <==> q == p && h == g
  {
    if !EntryOf(m, p, g).Resident? {
      assert EntryOf(m, p, VictimOf(m, p)).Resident?;
    }
  }

  /** The write lands where it should. */
  lemma SetValRight(m: Machine, p: nat, addr: nat, v: Byte)
    requires Inv(m) && addr < MAX_PGN * PAGE_SIZE && HasPage(m, p, addr / PAGE_SIZE)
    requires RightFrame(m, p, addr / PAGE_SIZE)
    ensures SetVal(m, p, addr, v).Done?
    ensures Inv(SetVal(m, p, addr, v).value) && Writes(m, SetVal(m, p, addr, v).value, p, addr, v)
  {
    var g := addr / PAGE_SIZE;
    assert Stored(m, EntryOf(m, p, g));
    SetValInv(m, p, addr, v);
    forall q: nat, h: nat | HasPage(m, q, h)
      ensures HasPage(SetVal(m, p, addr, v).value, q, h)
      ensures PageOf(SetVal(m, p, addr, v).value, q, h) ==
              if q == p && h == g then PageOf(m, q, h)[addr % PAGE_SIZE := v] else PageOf(m, q, h)
    {
      SetValExact(m, p, addr, v, q, h);
      RightLands(m, p, g, q, h);
    }
  }

  /** pg_setval stores every byte at its address, and nowhere else, exactly when the frame is right. */
  lemma SetValRightIff(m: Machine, p: nat, addr: nat)
    requires Inv(m) && addr < MAX_PGN * PAGE_SIZE && HasPage(m, p, addr / PAGE_SIZE)
    ensures (forall v: Byte :: SetVal(m, p, addr, v).Done? && Writes(m, SetVal(m, p, addr, v).value, p, addr, v))
            <==> RightFrame(m, p, addr / PAGE_SIZE)
  {
    var g, off := addr / PAGE_SIZE, addr % PAGE_SIZE;
    if RightFrame(m, p, g) {
      forall v: Byte ensures SetVal(m, p, addr, v).Done? && Writes(m, SetVal(m, p, addr, v).value, p, addr, v) {
        SetValRight(m, p, addr, v);
      }
    } else {
      var v: Byte := if PageOf(m, p, g)[off] == 0 then 1 else 0;
      if SetVal(m, p, addr, v).Done? {
        SetValExact(m, p, addr, v, p, g);
        assert PageOf(m, p, g)[off := v] != PageOf(m, p, g);
      }
    }
  }

  /** A read through the right frame returns the page's byte and changes no page. */
  lemma GetValRight(m: Machine, p: nat, addr: nat)
    requires Inv(m) && addr < MAX_PGN * PAGE_SIZE && HasPage(m, p, addr / PAGE_SIZE)
    requires RightFrame(m, p, addr / PAGE_SIZE)
    ensures GetVal(m, p, addr).Done? && GetVal(m, p, addr).value.1 == PageOf(m, p, addr / PAGE_SIZE)[addr % PAGE_SIZE]
  {
    var g := addr / PAGE_SIZE;
    if !EntryOf(m, p, g).Resident? {
      FaultKeepsPage(m, p, g, p, g);
      FaultEntries(m, p, g, p, g);
    }
  }

  /** How an access ends: it fails exactly when its page is not resident and no victim is listed, and is undefined exactly when it
      must fault with no swap frame free, or is given a frame number beyond the device. */
  lemma AccessOutcome(m: Machine, p: nat, addr: nat, v: Byte)
    requires Inv(m) && addr < MAX_PGN * PAGE_SIZE && IsPage(m, p, addr / PAGE_SIZE)
    ensures var e := EntryOf(m, p, addr / PAGE_SIZE);
            var fails := !e.Resident? && !HasVictim(m, p);
            var wild := !fails && ((!e.Resident? && m.swp.free == []) || FpnField(e) >= |m.ram.frames|);
            && (GetVal(m, p, addr).Fails? <==> fails) && (GetVal(m, p, addr).Wild? <==> wild)
            && (SetVal(m, p, addr, v).Fails? <==> fails) && (SetVal(m, p, addr, v).Wild? <==> wild)
  {
    CanFaultIff(m, p, addr / PAGE_SIZE);
  }

  /** The byte any pg_getval that succeeds returns, through a right frame or a wrong one: that of the page it lands in, at its
      own offset; */
  lemma GetValExact(m: Machine, p: nat, addr: nat, q: nat, h: nat)
    requires Inv(m) && addr < MAX_PGN * PAGE_SIZE && IsPage(m, p, addr / PAGE_SIZE) && GetVal(m, p, addr).Done?
    requires HasPage(m, q, h) && Lands(m, p, addr / PAGE_SIZE, q, h)
    ensures GetVal(m, p, addr).value.1 == PageOf(m, q, h)[addr % PAGE_SIZE]
  {
    var g := addr / PAGE_SIZE;
    if !EntryOf(m, p, g).Resident? {
      FaultEntries(m, p, g, q, h);
      FaultKeepsPage(m, p, g, q, h);
    }
  }

  /** and if it lands in no page, that of the frame the stale bits spell, which the fault has left alone unless it brought a
      page never mapped into it. */
  lemma GetValStray(m: Machine, p: nat, addr: nat)
    requires Inv(m) && addr < MAX_PGN * PAGE_SIZE && IsPage(m, p, addr / PAGE_SIZE) && GetVal(m, p, addr).Done?
    requires forall q: nat, h: nat :: HasPage(m, q, h) ==> !Lands(m, p, addr / PAGE_SIZE, q, h)
    ensures var e := EntryOf(m, p, addr / PAGE_SIZE);
            && FpnField(e) < |m.ram.frames|
            && (!Lands(m, p, addr / PAGE_SIZE, p, addr / PAGE_SIZE) ==>
                  GetVal(m, p, addr).value.1 == m.ram.frames[FpnField(e)][addr % PAGE_SIZE])
            && (Lands(m, p, addr / PAGE_SIZE, p, addr / PAGE_SIZE) ==>
                  e == Unmapped && CanFault(m, p, addr / PAGE_SIZE)
                  && GetVal(m, p, addr).value.1 == Contents(Fault(m, p, addr / PAGE_SIZE), Resident(FpnField(e)))[addr % PAGE_SIZE])
  {
    var g := addr / PAGE_SIZE;
    var e := EntryOf(m, p, g);
    if e.Resident? {
      assert Stored(m, e) && HasPage(m, p, g);
    } else {
      assert e.Swapped? ==> Stored(m, e) && HasPage(m, p, g);
      FaultFrames(m, p, g, Resident(FpnField(e)));
    }
  }

  /** A write that succeeds stores its byte at its offset of the frame it is given, owned or not, and changes no other byte of
      either device but by the fault. */
  lemma SetValFrames(m: Machine, p: nat, addr: nat, v: Byte, e: Entry)
    requires addr < MAX_PGN * PAGE_SIZE && IsPage(m, p, addr / PAGE_SIZE) && SetVal(m, p, addr, v).Done? && Stored(m, e)
    ensures var g := addr / PAGE_SIZE; var m' := SetVal(m, p, addr, v).value;
            var m1 := if EntryOf(m, p, g).Resident? then m else Fault(m, p, g);
            && Stored(m1, e) && Stored(m', e)
            && Contents(m', e) ==
               if e == Resident(FpnField(EntryOf(m, p, g))) then Contents(m1, e)[addr % PAGE_SIZE := v] else Contents(m1, e)
  {
    var g := addr / PAGE_SIZE;
    if !EntryOf(m, p, g).Resident? {
      FaultFrames(m, p, g, e);
    }
  }

  /** Machines with the same tables and lists, that is, equal but for the bytes. */
  predicate SameButBytes(m: Machine, n: Machine) {
    && n.mms == m.mms
    && n.ram == m.ram.(frames := n.ram.frames) && |n.ram.frames| == |m.ram.frames|
    && n.swp == m.swp.(frames := n.swp.frames) && |n.swp.frames| == |m.swp.frames|
  }

  /** pg_getval returns the page's byte, whatever bytes memory holds, exactly when the frame is right. */
  lemma GetValRightIff(m: Machine, p: nat, addr: nat)
    requires Inv(m) && addr < MAX_PGN * PAGE_SIZE && HasPage(m, p, addr / PAGE_SIZE)
    ensures (forall n: Machine :: SameButBytes(m, n) ==>
               && HasPage(n, p, addr / PAGE_SIZE) && GetVal(n, p, addr).Done?
               && GetVal(n, p, addr).value.1 == PageOf(n, p, addr / PAGE_SIZE)[addr % PAGE_SIZE])
            <==> RightFrame(m, p, addr / PAGE_SIZE)
  {
    var g, off := addr / PAGE_SIZE, addr % PAGE_SIZE;
    if RightFrame(m, p, g) {
      forall n: Machine | SameButBytes(m, n)
        ensures HasPage(n, p, g) && GetVal(n, p, addr).Done? && GetVal(n, p, addr).value.1 == PageOf(n, p, g)[off]
      {
        SameTables(m, n);
        assert EntryOf(n, p, g) == EntryOf(m, p, g);
        GetValRight(n, p, addr);
      }
    } else {
      assert SameButBytes(m, m);
      var f := FpnField(EntryOf(m, p, g));
      if GetVal(m, p, addr).Done? {
        var v: Byte := if PageOf(m, p, g)[off] == 0 then 1 else 0;
        var n := StoreByte(m, f, off, v);
        assert SameButBytes(m, n) && EntryOf(n, p, g) == EntryOf(m, p, g);
        assert GetVal(n, p, addr).value.1 == v;
      }
    }
  }

  // ----- the operations of a run -----

  /** The instructions of every process, and the loading of a new one. `addr` is the start of a live region plus an
      offset. */
  datatype Op =
    | Spawn
    | Alloc(p: nat, reg: nat, size: nat)
    | Free(p: nat, reg: nat)
    | Read(p: nat, addr: nat)
    | Write(p: nat, addr: nat, v: Byte)

  /** init_mm on a zeroed table: nothing mapped, nothing listed, one empty free region. */
  function InitMm(): Mm { Mm(seq(MAX_PGN, _ => Unmapped), [], INIT_SPACE) }

  function WithSpace(m: Machine, p: nat, sp: Space): Machine
    requires p < |m.mms|
  {
    m.(mms := m.mms[p := m.mms[p].(space := sp)])
  }

  /** __alloc: place the region, then map the pages it grows by. A failed mapping is ignored by the caller. */
  function DoAlloc(m: Machine, p: nat, reg: nat, size: nat): Machine
    requires p < |m.mms| && reg < |m.mms[p].space.sym|
    requires var g := Growing(m.mms[p].space, size); g.first + g.count <= |m.mms[p].pgd|
  {
    var sp := m.mms[p].space;
    var g := Growing(sp, size);
    var m1 := WithSpace(m, p, AllocIn(sp, reg, size));
    if g.count > 0 then MapRange(m1, p, g.first, g.count) else m1
  }

  function DoFree(m: Machine, p: nat, reg: nat): Machine
    requires p < |m.mms| && reg < |m.mms[p].space.sym|
  {
    WithSpace(m, p, FreeIn(m.mms[p].space, reg))
  }

  predicate RoomFor(mm: Mm, size: nat) {
    var g := Growing(mm.space, size);
    g.first + g.count < MAX_PGN == |mm.pgd| && |mm.space.sym| == SYMTBL_SIZE
  }

  /** What the source asks of its callers: a register of the table, an address space below 2^22, no undefined
      behaviour. A read or write may fail, fault, or go through a wrong frame. */
  predicate Legal(m: Machine, op: Op) {
    match op
    case Spawn => true
    case Alloc(p, reg, size) => p < |m.mms| && reg < SYMTBL_SIZE && RoomFor(m.mms[p], size)
    case Free(p, reg) => p < |m.mms| && reg < SYMTBL_SIZE && reg < |m.mms[p].space.sym|
    case Read(p, addr) => addr < MAX_PGN * PAGE_SIZE && IsPage(m, p, addr / PAGE_SIZE) && !GetVal(m, p, addr).Wild?
    case Write(p, addr, v) => addr < MAX_PGN * PAGE_SIZE && IsPage(m, p, addr / PAGE_SIZE) && !SetVal(m, p, addr, v).Wild?
  }

  function Step(m: Machine, op: Op): Machine
    requires Legal(m, op)
  {
    match op
    case Spawn => m.(mms := m.mms + [InitMm()])
    case Alloc(p, reg, size) => DoAlloc(m, p, reg, size)
    case Free(p, reg) => DoFree(m, p, reg)
    case Read(p, addr) => if GetVal(m, p, addr).Done? then GetVal(m, p, addr).value.0 else m
    case Write(p, addr, v) => if SetVal(m, p, addr, v).Done? then SetVal(m, p, addr, v).value else m
  }

  /** Loading adds one process, with nothing mapped, nothing listed and an empty heap, and leaves the others and the devices
      alone. */
  lemma SpawnFresh(m: Machine, q: nat, h: nat)
    ensures var m' := Step(m, Spawn);
            && |m'.mms| == |m.mms| + 1 && m'.ram == m.ram && m'.swp == m.swp
            && (q < |m.mms| ==> m'.mms[q] == m.mms[q])
            && (q == |m.mms| ==> !HasPage(m', q, h) && m'.mms[q].fifo == [] && m'.mms[q].space.sbrk == 0 == m'.mms[q].space.vmEnd)
  {
  }

  // ----- every step keeps the machine sound -----

  lemma WithSpaceInv(m: Machine, p: nat, sp: Space)
    requires Inv(m) && p < |m.mms| && Shape(sp) && sp.vmEnd < MAX_PGN * PAGE_SIZE
    ensures Inv(WithSpace(m, p, sp))
  {
    var m' := WithSpace(m, p, sp);
    forall q: nat, h: nat | IsPage(m', q, h) ensures IsPage(m, q, h) && EntryOf(m', q, h) == EntryOf(m, q, h) {
    }
    assert Located(m');
    assert Unshared(m');
  }

  lemma SpawnInv(m: Machine)
    requires Inv(m)
    ensures Inv(m.(mms := m.mms + [InitMm()]))
  {
    InitPartition();
    var m' := m.(mms := m.mms + [InitMm()]);
    forall q: nat, h: nat | IsPage(m', q, h)
      ensures EntryOf(m', q, h) == if q < |m.mms| then EntryOf(m, q, h) else Unmapped
    {
    }
    assert Located(m');
    assert Unshared(m');
  }

  lemma AllocInv(m: Machine, p: nat, reg: nat, size: nat)
    requires Inv(m) && Legal(m, Alloc(p, reg, size))
    ensures Inv(DoAlloc(m, p, reg, size))
  {
    var sp := m.mms[p].space;
    assert MmOk(m.mms[p]);
    AllocShape(sp, reg, size);
    GrowthExact(sp, reg, size);
    WithSpaceInv(m, p, AllocIn(sp, reg, size));
    var g := Growing(sp, size);
    if g.count > 0 {
      MapInv(WithSpace(m, p, AllocIn(sp, reg, size)), p, g.first, g.count);
    }
  }

  /** Frame lists, entries and break pointers stay sound over every operation of every process. */
  lemma StepInv(m: Machine, op: Op)
    requires Inv(m) && Legal(m, op)
    ensures Inv(Step(m, op))
  {
    match op
    case Spawn => SpawnInv(m);
    case Alloc(p, reg, size) => AllocInv(m, p, reg, size);
    case Free(p, reg) =>
      assert MmOk(m.mms[p]);
      FreeShape(m.mms[p].space, reg);
      WithSpaceInv(m, p, FreeIn(m.mms[p].space, reg));
    case Read(p, addr) =>
      if GetVal(m, p, addr).Done? && !EntryOf(m, p, addr / PAGE_SIZE).Resident? {
        FaultInv(m, p, addr / PAGE_SIZE);
      }
    case Write(p, addr, v) =>
      if SetVal(m, p, addr, v).Done? {
        SetValInv(m, p, addr, v);
      }
  }

  // ----- what a step may change -----

  /** The only pages whose bytes a step may change: those an allocation newly maps, one brought in before it was ever
      mapped, and the one a write lands in. */
  predicate Touches(m: Machine, op: Op, q: nat, h: nat)
    requires Legal(m, op) && IsPage(m, q, h)
  {
    match op
    case Spawn => false
    case Alloc(p, reg, size) =>
      var g := Growing(m.mms[p].space, size);
      q == p && g.first <= h < g.first + g.count
    case Free(p, reg) => false
    case Read(p, addr) => q == p && h == addr / PAGE_SIZE && EntryOf(m, q, h) == Unmapped
    case Write(p, addr, v) =>
      || (q == p && h == addr / PAGE_SIZE && EntryOf(m, q, h) == Unmapped)
      || Lands(m, p, addr / PAGE_SIZE, q, h)
  }

  ghost predicate SamePage(m: Machine, m': Machine, q: nat, h: nat) {
    && (HasPage(m', q, h) <==> HasPage(m, q, h))
    && (HasPage(m, q, h) ==> PageOf(m', q, h) == PageOf(m, q, h))
  }

  lemma FaultSame(m: Machine, p: nat, g: nat, q: nat, h: nat)
    requires Inv(m) && CanFault(m, p, g) && IsPage(m, q, h)
    requires !(q == p && h == g && EntryOf(m, q, h) == Unmapped)
    ensures SamePage(m, Fault(m, p, g), q, h)
  {
    FaultEntries(m, p, g, q, h);
    if HasPage(m, q, h) {
      FaultKeepsPage(m, p, g, q, h);
    } else {
      assert EntryOf(m, q, h) == Unmapped;
    }
  }

  lemma AllocSame(m: Machine, p: nat, reg: nat, size: nat, q: nat, h: nat)
    requires Inv(m) && Legal(m, Alloc(p, reg, size)) && IsPage(m, q, h)
    requires !Touches(m, Alloc(p, reg, size), q, h)
    ensures SamePage(m, DoAlloc(m, p, reg, size), q, h)
  {
    var sp := m.mms[p].space;
    assert MmOk(m.mms[p]);
    AllocShape(sp, reg, size);
    GrowthExact(sp, reg, size);
    var m1 := WithSpace(m, p, AllocIn(sp, reg, size));
    WithSpaceInv(m, p, AllocIn(sp, reg, size));
    assert EntryOf(m1, q, h) == EntryOf(m, q, h);
    var g := Growing(sp, size);
    if g.count > 0 {
      MapEntries(m1, p, g.first, g.count, q, h);
      if HasPage(m1, q, h) {
        MapKeepsPage(m1, p, g.first, g.count, q, h);
      } else {
        assert EntryOf(m1, q, h) == Unmapped;
      }
    }
  }

  /** No step changes the bytes of a page it does not touch: not of the process that takes it, and not of any other. */
  lemma StepSame(m: Machine, op: Op, q: nat, h: nat)
    requires Inv(m) && Legal(m, op) && IsPage(m, q, h) && !Touches(m, op, q, h)
    ensures SamePage(m, Step(m, op), q, h)
  {
    match op
    case Spawn => assert EntryOf(Step(m, op), q, h) == EntryOf(m, q, h);
    case Alloc(p, reg, size) => AllocSame(m, p, reg, size, q, h);
    case Free(p, reg) => assert EntryOf(Step(m, op), q, h) == EntryOf(m, q, h);
    case Read(p, addr) =>
      if GetVal(m, p, addr).Done? && !EntryOf(m, p, addr / PAGE_SIZE).Resident? {
        FaultSame(m, p, addr / PAGE_SIZE, q, h);
      }
    case Write(p, addr, v) => WriteSame(m, p, addr, v, q, h);
  }

  lemma WriteSame(m: Machine, p: nat, addr: nat, v: Byte, q: nat, h: nat)
    requires Inv(m) && Legal(m, Write(p, addr, v)) && IsPage(m, q, h) && !Touches(m, Write(p, addr, v), q, h)
    ensures SamePage(m, Step(m, Write(p, addr, v)), q, h)
  {
    var g := addr / PAGE_SIZE;
    if SetVal(m, p, addr, v).Done? {
      if HasPage(m, q, h) {
        SetValExact(m, p, addr, v, q, h);
      } else {
        assert EntryOf(m, q, h) == Unmapped;
        if !EntryOf(m, p, g).Resident? {
          FaultEntries(m, p, g, q, h);
        }
        assert EntryOf(Step(m, Write(p, addr, v)), q, h) == Unmapped;
      }
    }
  }

  // ----- refinement: each process has a map from addresses to bytes -----

  /** The memory process p sees. */
  ghost function Memory(m: Machine, p: nat): map<nat, Byte> {
    map a: nat | a < MAX_PGN * PAGE_SIZE && HasPage(m, p, a / PAGE_SIZE) :: PageOf(m, p, a / PAGE_SIZE)[a % PAGE_SIZE]
  }

  lemma SameMemory(m: Machine, m': Machine, q: nat)
    requires forall h: nat :: h < MAX_PGN ==> SamePage(m, m', q, h)
    ensures Memory(m', q) == Memory(m, q)
  {
    forall a: nat | a < MAX_PGN * PAGE_SIZE
      ensures HasPage(m', q, a / PAGE_SIZE) <==> HasPage(m, q, a / PAGE_SIZE)
      ensures HasPage(m, q, a / PAGE_SIZE) ==> PageOf(m', q, a / PAGE_SIZE) == PageOf(m, q, a / PAGE_SIZE)
    {
      assert SamePage(m, m', q, a / PAGE_SIZE);
    }
  }

  /** The step keeps away from the memory of q. Only a write can fail to: one that faults, and whose stale bits spell the
      frame of a resident page of q. */
  ghost predicate Spares(m: Machine, op: Op, q: nat)
    requires Legal(m, op)
  {
    op.Write? ==>
      || EntryOf(m, op.p, op.addr / PAGE_SIZE).Resident?
      || !HasVictim(m, op.p)
      || forall h: nat :: Resides(m, q, h) ==> EntryOf(m, q, h).fpn != FpnField(EntryOf(m, op.p, op.addr / PAGE_SIZE))
  }

  function WithValue(op: Op, v: Byte): Op { if op.Write? then op.(v := v) else op }

  /** The step leaves the memory of q as it was, whatever byte it may write. */
  ghost predicate Isolated(m: Machine, op: Op, q: nat)
    requires Legal(m, op)
  {
    forall v: Byte :: Memory(Step(m, WithValue(op, v)), q) == Memory(m, q)
  }

  lemma SparesTouches(m: Machine, op: Op, q: nat, h: nat)
    requires Inv(m) && Legal(m, op) && (op.Spawn? || op.p != q) && Spares(m, op, q) && IsPage(m, q, h)
    ensures !Touches(m, op, q, h)
  {
    if op.Write? && EntryOf(m, q, h).Resident? {
      assert Resides(m, q, h);
    }
  }

  /** Isolation: whatever another process does (or a process being loaded), q keeps its memory. */
  lemma StepIsolates(m: Machine, op: Op, q: nat)
    requires Inv(m) && Legal(m, op) && q < |m.mms| && (op.Spawn? || op.p != q) && Spares(m, op, q)
    ensures Memory(Step(m, op), q) == Memory(m, q)
  {
    assert MmOk(m.mms[q]);
    forall h: nat | h < MAX_PGN ensures SamePage(m, Step(m, op), q, h) {
      SparesTouches(m, op, q, h);
      StepSame(m, op, q, h);
    }
    SameMemory(m, Step(m, op), q);
  }

  /** A write that does not spare q overwrites a byte of it. */
  lemma AstrayWrite(m: Machine, op: Op, q: nat)
    requires Inv(m) && Legal(m, op) && q < |m.mms| && op.Write? && op.p != q && !Spares(m, op, q)
    ensures !Isolated(m, op, q)
  {
    var g, off := op.addr / PAGE_SIZE, op.addr % PAGE_SIZE;
    var h: nat :| Resides(m, q, h) && EntryOf(m, q, h).fpn == FpnField(EntryOf(m, op.p, g));
    assert Stored(m, EntryOf(m, q, h));
    var v: Byte := if PageOf(m, q, h)[off] == 0 then 1 else 0;
    SetValExact(m, op.p, op.addr, v, q, h);
    var a := h * PAGE_SIZE + off;
    assert a / PAGE_SIZE == h && a % PAGE_SIZE == off;
    assert Memory(m, q)[a] == PageOf(m, q, h)[off];
    assert Memory(Step(m, WithValue(op, v)), q)[a] == v;
  }

  /** Isolation holds exactly when the step spares q. */
  lemma StepIsolatesIff(m: Machine, op: Op, q: nat)
    requires Inv(m) && Legal(m, op) && q < |m.mms| && (op.Spawn? || op.p != q)
    ensures Isolated(m, op, q) <==> Spares(m, op, q)
  {
    if Spares(m, op, q) {
      forall v: Byte ensures Memory(Step(m, WithValue(op, v)), q) == Memory(m, q) {
        StepIsolates(m, WithValue(op, v), q);
      }
    } else {
      AstrayWrite(m, op, q);
    }
  }

  /** A free, and a read of any mapped page, resident or not, leave the process's own memory alone. */
  lemma StepKeepsMemory(m: Machine, op: Op)
    requires Inv(m) && Legal(m, op) && (op.Free? || (op.Read? && HasPage(m, op.p, op.addr / PAGE_SIZE)))
    ensures Memory(Step(m, op), op.p) == Memory(m, op.p)
  {
    assert MmOk(m.mms[op.p]);
    forall h: nat | h < MAX_PGN ensures SamePage(m, Step(m, op), op.p, h) {
      StepSame(m, op, op.p, h);
    }
    SameMemory(m, Step(m, op), op.p);
  }

  /** The step stores nothing, or stores through the right frame of a mapped page. */
  predicate Right(m: Machine, op: Op)
    requires Legal(m, op)
  {
    op.Write? ==> HasPage(m, op.p, op.addr / PAGE_SIZE) && RightFrame(m, op.p, op.addr / PAGE_SIZE)
  }

  /** The step stores into address a of process p. */
  predicate Hits(m: Machine, op: Op, p: nat, a: nat)
    requires Legal(m, op)
  {
    && op.Write? && IsPage(m, p, a / PAGE_SIZE)
    && Lands(m, op.p, op.addr / PAGE_SIZE, p, a / PAGE_SIZE) && op.addr % PAGE_SIZE == a % PAGE_SIZE
  }

  /** A write of any kind changes exactly the bytes it hits, in the memory of every process. */
  lemma WriteHits(m: Machine, op: Op, q: nat, a: nat)
    requires Inv(m) && Legal(m, op) && op.Write? && a in Memory(m, q)
    ensures a in Memory(Step(m, op), q)
    ensures Memory(Step(m, op), q)[a] == if Hits(m, op, q, a) then op.v else Memory(m, q)[a]
  {
    if SetVal(m, op.p, op.addr, op.v).Done? {
      SetValExact(m, op.p, op.addr, op.v, q, a / PAGE_SIZE);
    }
  }

  lemma RightWriteAt(m: Machine, op: Op, a: nat)
    requires Inv(m) && Legal(m, op) && op.Write? && Right(m, op) && a < MAX_PGN * PAGE_SIZE
    ensures a in Memory(Step(m, op), op.p) <==> a in Memory(m, op.p)
    ensures a in Memory(m, op.p) ==> Memory(Step(m, op), op.p)[a] == if a == op.addr then op.v else Memory(m, op.p)[a]
  {
    assert IsPage(m, op.p, a / PAGE_SIZE);
    if a in Memory(m, op.p) {
      WriteHits(m, op, op.p, a);
    } else {
      RightLands(m, op.p, op.addr / PAGE_SIZE, op.p, a / PAGE_SIZE);
      WriteSame(m, op.p, op.addr, op.v, op.p, a / PAGE_SIZE);
    }
  }

  /** Then it updates the process's memory at exactly its own address. */
  lemma WriteRefines(m: Machine, p: nat, addr: nat, v: Byte)
    requires Inv(m) && Legal(m, Write(p, addr, v)) && Right(m, Write(p, addr, v))
    ensures Memory(Step(m, Write(p, addr, v)), p) == Memory(m, p)[addr := v]
  {
    var op := Write(p, addr, v);
    var after, before := Memory(Step(m, op), p), Memory(m, p);
    assert addr in before;
    forall a: nat | a < MAX_PGN * PAGE_SIZE
      ensures a in after <==> a in before
      ensures a in before ==> after[a] == if a == addr then v else before[a]
    {
      RightWriteAt(m, op, a);
    }
  }

  /** An allocation keeps every byte outside the pages it grows by. Those pages become part of the memory exactly when
      there are frames for all of them. */
  lemma AllocRefines(m: Machine, p: nat, reg: nat, size: nat, a: nat)
    requires Inv(m) && Legal(m, Alloc(p, reg, size)) && a < MAX_PGN * PAGE_SIZE
    ensures var m', g := Step(m, Alloc(p, reg, size)), Growing(m.mms[p].space, size);
            var grows := g.first * PAGE_SIZE <= a < (g.first + g.count) * PAGE_SIZE;
            && (a in Memory(m', p) <==> a in Memory(m, p) || (grows && EnoughFrames(m, g.count)))
            && (a in Memory(m, p) && (!grows || !EnoughFrames(m, g.count)) ==> Memory(m', p)[a] == Memory(m, p)[a])
  {
    var h := a / PAGE_SIZE;
    var sp := m.mms[p].space;
    assert MmOk(m.mms[p]);
    if !Touches(m, Alloc(p, reg, size), p, h) {
      AllocSame(m, p, reg, size, p, h);
    } else {
      AllocShape(sp, reg, size);
      GrowthExact(sp, reg, size);
      var m1 := WithSpace(m, p, AllocIn(sp, reg, size));
      WithSpaceInv(m, p, AllocIn(sp, reg, size));
      assert EntryOf(m1, p, h) == EntryOf(m, p, h);
      var g := Growing(sp, size);
      MapEntries(m1, p, g.first, g.count, p, h);
      if EnoughFrames(m1, g.count) {
        NewEntryFresh(m1, g.count, h - g.first);
      } else if HasPage(m1, p, h) {
        MapKeepsPage(m1, p, g.first, g.count, p, h);
      } else {
        assert EntryOf(m1, p, h) == Unmapped;
      }
    }
  }

  // ----- runs -----

  ghost predicate LegalRun(m: Machine, ops: seq<Op>)
    decreases |ops|
  {
    ops == [] || (Legal(m, ops[0]) && LegalRun(Step(m, ops[0]), ops[1..]))
  }

  ghost function Run(m: Machine, ops: seq<Op>): Machine
    requires LegalRun(m, ops)
    decreases |ops|
  {
    if ops == [] then m else Run(Step(m, ops[0]), ops[1..])
  }

  /** Whole runs keep the machine sound: RAM frames are free or used, each once; every mapped entry names its own
      frame; every break pointer is the page-aligned end of its heap. */
  lemma {:induction false} RunInv(m: Machine, ops: seq<Op>)
    requires Inv(m) && LegalRun(m, ops)
    ensures Inv(Run(m, ops))
    decreases |ops|
  {
    if ops != [] {
      StepInv(m, ops[0]);
      RunInv(Step(m, ops[0]), ops[1..]);
    }
  }

  ghost predicate Leaves(ops: seq<Op>, q: nat) {
    forall i :: 0 <= i < |ops| ==> ops[i].Spawn? || ops[i].p != q
  }

  lemma StepSpaces(m: Machine, op: Op, q: nat)
    requires Inv(m) && Legal(m, op) && q < |m.mms|
    ensures q < |Step(m, op).mms| && Step(m, op).mms[q].space.vmEnd >= m.mms[q].space.vmEnd
  {
    if op.Alloc? && op.p == q {
      assert MmOk(m.mms[q]);
      GrowthExact(m.mms[q].space, op.reg, op.size);
    }
  }

  /** Every step of the run spares q. */
  ghost predicate SparesRun(m: Machine, ops: seq<Op>, q: nat)
    requires LegalRun(m, ops)
    decreases |ops|
  {
    ops == [] || (Spares(m, ops[0], q) && SparesRun(Step(m, ops[0]), ops[1..], q))
  }

  /** Every step of the run leaves the memory of q as it was, whatever byte it may write. */
  ghost predicate AlwaysIsolated(m: Machine, ops: seq<Op>, q: nat)
    requires LegalRun(m, ops)
    decreases |ops|
  {
    ops == [] || (Isolated(m, ops[0], q) && AlwaysIsolated(Step(m, ops[0]), ops[1..], q))
  }

  /** Isolation over whole runs of the other processes holds exactly when every step spares q; and then nothing they do, in
      any number of steps, changes the memory of q. */
  lemma {:induction false} RunIsolatesIff(m: Machine, ops: seq<Op>, q: nat)
    requires Inv(m) && LegalRun(m, ops) && q < |m.mms| && Leaves(ops, q)
    ensures AlwaysIsolated(m, ops, q) <==> SparesRun(m, ops, q)
    ensures SparesRun(m, ops, q) ==> Memory(Run(m, ops), q) == Memory(m, q)
    decreases |ops|
  {
    if ops != [] {
      assert ops[0].Spawn? || ops[0].p != q;
      StepIsolatesIff(m, ops[0], q);
      if Spares(m, ops[0], q) {
        StepIsolates(m, ops[0], q);
      }
      StepInv(m, ops[0]);
      StepSpaces(m, ops[0], q);
      RunIsolatesIff(Step(m, ops[0]), ops[1..], q);
    }
  }

  /** No step of the run stores into address a of p: neither a write of p to it nor one that goes astray. */
  ghost predicate NeverHits(m: Machine, ops: seq<Op>, p: nat, a: nat)
    requires LegalRun(m, ops)
    decreases |ops|
  {
    ops == [] || (!Hits(m, ops[0], p, a) && NeverHits(Step(m, ops[0]), ops[1..], p, a))
  }

  lemma StepKeepsByte(m: Machine, op: Op, p: nat, a: nat)
    requires Inv(m) && Legal(m, op) && p < |m.mms| && a in Memory(m, p) && a < m.mms[p].space.vmEnd
    requires !Hits(m, op, p, a)
    ensures a in Memory(Step(m, op), p) && Memory(Step(m, op), p)[a] == Memory(m, p)[a]
  {
    if op.Write? {
      WriteHits(m, op, p, a);
    } else {
      assert MmOk(m.mms[p]);
      StepSame(m, op, p, a / PAGE_SIZE);
    }
  }

  /** Over any run of all processes, a byte below vm_end stays until a write hits it. */
  lemma {:induction false} RunKeepsByte(m: Machine, ops: seq<Op>, p: nat, a: nat)
    requires Inv(m) && LegalRun(m, ops) && p < |m.mms| && a in Memory(m, p) && a < m.mms[p].space.vmEnd
    requires NeverHits(m, ops, p, a)
    ensures a in Memory(Run(m, ops), p) && Memory(Run(m, ops), p)[a] == Memory(m, p)[a]
    ensures p < |Run(m, ops).mms|
    decreases |ops|
  {
    if ops != [] {
      StepKeepsByte(m, ops[0], p, a);
      StepInv(m, ops[0]);
      StepSpaces(m, ops[0], p);
      RunKeepsByte(Step(m, ops[0]), ops[1..], p, a);
    }
  }

  /** A read through a right frame returns the last byte written to the address, whatever every process allocated, freed,
      read, wrote or evicted in between, and however often the page itself was moved. */
  lemma ReadsLastWrite(m: Machine, p: nat, a: nat, v: Byte, ops: seq<Op>)
    requires Inv(m) && Legal(m, Write(p, a, v)) && Right(m, Write(p, a, v)) && a < m.mms[p].space.vmEnd
    requires LegalRun(Step(m, Write(p, a, v)), ops) && NeverHits(Step(m, Write(p, a, v)), ops, p, a)
    ensures var last := Run(Step(m, Write(p, a, v)), ops);
            && HasPage(last, p, a / PAGE_SIZE)
            && (RightFrame(last, p, a / PAGE_SIZE) ==> GetVal(last, p, a).Done? && GetVal(last, p, a).value.1 == v)
  {
    var m1 := Step(m, Write(p, a, v));
    StepInv(m, Write(p, a, v));
    StepSpaces(m, Write(p, a, v), p);
    WriteRefines(m, p, a, v);
    RunKeepsByte(m1, ops, p, a);
    RunInv(m1, ops);
    var last := Run(m1, ops);
    if RightFrame(last, p, a / PAGE_SIZE) {
      GetValRight(last, p, a);
    }
  }

  /** Every write of the run goes through a right frame. */
  ghost predicate RightRun(m: Machine, ops: seq<Op>)
    requires LegalRun(m, ops)
    decreases |ops|
  {
    ops == [] || (Right(m, ops[0]) && RightRun(Step(m, ops[0]), ops[1..]))
  }

  ghost predicate NeverWrites(ops: seq<Op>, p: nat, a: nat) {
    forall i :: 0 <= i < |ops| ==> !(ops[i].Write? && ops[i].p == p && ops[i].addr == a)
  }

  lemma RightSpares(m: Machine, op: Op, q: nat)
    requires Inv(m) && Legal(m, op) && Right(m, op) && (op.Spawn? || op.p != q)
    ensures Spares(m, op, q)
  {
    if op.Write? {
      forall h: nat | Resides(m, q, h)
        ensures EntryOf(m, op.p, op.addr / PAGE_SIZE).Resident?
                || EntryOf(m, q, h).fpn != FpnField(EntryOf(m, op.p, op.addr / PAGE_SIZE))
      {
        RightLands(m, op.p, op.addr / PAGE_SIZE, q, h);
      }
    }
  }

  /** In a run of writes through right frames only the writes to an address hit it, and the other processes are spared. */
  lemma {:induction false} RightRunHits(m: Machine, ops: seq<Op>, p: nat, a: nat)
    requires Inv(m) && LegalRun(m, ops) && RightRun(m, ops)
    ensures NeverWrites(ops, p, a) ==> NeverHits(m, ops, p, a)
    ensures Leaves(ops, p) ==> SparesRun(m, ops, p)
    decreases |ops|
  {
    if ops != [] {
      StepInv(m, ops[0]);
      RightRunHits(Step(m, ops[0]), ops[1..], p, a);
      if NeverWrites(ops, p, a) {
        assert !(ops[0].Write? && ops[0].p == p && ops[0].addr == a);
        assert NeverWrites(ops[1..], p, a);
      }
      if Leaves(ops, p) {
        assert ops[0].Spawn? || ops[0].p != p;
        RightSpares(m, ops[0], p);
        assert Leaves(ops[1..], p);
      }
    }
  }

  /** The specification of one byte, without any machine: what stands at address a of p, where b stood before, after ops. */
  function LastByte(b: Byte, ops: seq<Op>, p: nat, a: nat): Byte
    decreases |ops|
  {
    if ops == [] then b
    else LastByte(if ops[0].Write? && ops[0].p == p && ops[0].addr == a then ops[0].v else b, ops[1..], p, a)
  }

  lemma RightStepByte(m: Machine, op: Op, p: nat, a: nat)
    requires Inv(m) && Legal(m, op) && Right(m, op) && p < |m.mms| && a in Memory(m, p) && a < m.mms[p].space.vmEnd
    ensures a in Memory(Step(m, op), p)
    ensures Memory(Step(m, op), p)[a] == if op.Write? && op.p == p && op.addr == a then op.v else Memory(m, p)[a]
  {
    if op.Write? {
      WriteHits(m, op, p, a);
    } else {
      StepKeepsByte(m, op, p, a);
    }
  }

  /** Whole-run refinement: over any run of all processes whose writes go through right frames, every byte of every process is
      the last one written to its address, or the one it started with; and a read through a right frame returns it. Page tables,
      devices, faults and the other processes do not show. */
  lemma {:induction false} RunRefines(m: Machine, ops: seq<Op>, p: nat, a: nat)
    requires Inv(m) && LegalRun(m, ops) && RightRun(m, ops)
    requires p < |m.mms| && a in Memory(m, p) && a < m.mms[p].space.vmEnd
    ensures var last := Run(m, ops);
            && a in Memory(last, p) && Memory(last, p)[a] == LastByte(Memory(m, p)[a], ops, p, a)
            && (RightFrame(last, p, a / PAGE_SIZE) ==>
                  GetVal(last, p, a).Done? && GetVal(last, p, a).value.1 == LastByte(Memory(m, p)[a], ops, p, a))
    decreases |ops|
  {
    if ops == [] {
      if RightFrame(m, p, a / PAGE_SIZE) {
        GetValRight(m, p, a);
      }
    } else {
      RightStepByte(m, ops[0], p, a);
      StepInv(m, ops[0]);
      StepSpaces(m, ops[0], p);
      RunRefines(Step(m, ops[0]), ops[1..], p, a);
    }
  }

  /** Right after a fault the page is resident, so the next access to it finds the right frame. */
  lemma SecondReadRight(m: Machine, p: nat, a: nat)
    requires Inv(m) && Legal(m, Read(p, a)) && GetVal(m, p, a).Done?
    ensures Resides(Step(m, Read(p, a)), p, a / PAGE_SIZE) && RightFrame(Step(m, Read(p, a)), p, a / PAGE_SIZE)
  {
    if !EntryOf(m, p, a / PAGE_SIZE).Resident? {
      FaultInv(m, p, a / PAGE_SIZE);
    }
  }

  // ----- what a read can reveal -----

  /** A page of process q is kept in frame e. */
  ghost predicate Owns(m: Machine, q: nat, e: Entry) { exists h: nat :: HasPage(m, q, h) && EntryOf(m, q, h) == e }

  /** n is m but for the bytes of process q. */
  ghost predicate DiffersIn(m: Machine, n: Machine, q: nat) {
    && SameButBytes(m, n)
    && forall e :: Stored(m, e) && !Owns(m, q, e) ==> Stored(n, e) && Contents(n, e) == Contents(m, e)
  }

  /** What a read shows its process: the byte, or that it failed, and the memory it is left with. */
  ghost function Observed(m: Machine, p: nat, addr: nat): (Access<Byte>, map<nat, Byte>)
    requires Legal(m, Read(p, addr))
  {
    (match GetVal(m, p, addr)
     case Done(r) => Done(r.1)
     case Fails => Fails
     case Wild => Wild,
     Memory(Step(m, Read(p, addr)), p))
  }

  /** A read that faults goes through the frame the stale bits spell, and brings swap frame 0 into a page never mapped. */
  ghost predicate Leaks(m: Machine, p: nat, g: nat, q: nat)
    requires IsPage(m, p, g)
  {
    && CanFault(m, p, g)
    && (|| Owns(m, q, Resident(FpnField(EntryOf(m, p, g))))
        || (EntryOf(m, p, g) == Unmapped && Owns(m, q, Swapped(0))))
  }

  /** The page brought in. */
  lemma BroughtIn(m: Machine, n: Machine, p: nat, g: nat, q: nat)
    requires Inv(m) && DiffersIn(m, n, q) && p != q && CanFault(m, p, g) && !Leaks(m, p, g, q)
    ensures CanFault(n, p, g) && HasPage(Fault(m, p, g), p, g) && HasPage(Fault(n, p, g), p, g)
    ensures PageOf(Fault(n, p, g), p, g) == PageOf(Fault(m, p, g), p, g)
  {
    FaultEntries(m, p, g, p, g);
    FaultEntries(n, p, g, p, g);
    var e, vic := EntryOf(m, p, g), VictimOf(m, p);
    assert EntryOf(m, p, vic).Resident?;
    if !e.Swapped? {
      assert Stored(m, Swapped(0)) && !Owns(m, q, Swapped(0));
    }
  }

  lemma SamePagesAfter(m: Machine, n: Machine, p: nat, g: nat, q: nat, h: nat)
    requires Inv(m) && Inv(n) && DiffersIn(m, n, q) && p != q && CanFault(m, p, g) && !Leaks(m, p, g, q) && IsPage(m, p, h)
    ensures CanFault(n, p, g) && SamePage(Fault(m, p, g), Fault(n, p, g), p, h)
  {
    FaultEntries(m, p, g, p, h);
    if h == g {
      BroughtIn(m, n, p, g, q);
    } else if HasPage(m, p, h) {
      FaultKeepsPage(m, p, g, p, h);
      FaultKeepsPage(n, p, g, p, h);
    } else {
      assert EntryOf(m, p, h) == Unmapped;
      assert EntryOf(Fault(n, p, g), p, h) == EntryOf(Fault(m, p, g), p, h) == Unmapped;
    }
  }

  lemma FaultHides(m: Machine, n: Machine, p: nat, addr: nat, q: nat)
    requires Inv(m) && DiffersIn(m, n, q) && p != q && Legal(m, Read(p, addr))
    requires CanFault(m, p, addr / PAGE_SIZE) && !Leaks(m, p, addr / PAGE_SIZE, q)
    ensures Legal(n, Read(p, addr)) && Observed(n, p, addr) == Observed(m, p, addr)
  {
    var g, off := addr / PAGE_SIZE, addr % PAGE_SIZE;
    var f := FpnField(EntryOf(m, p, g));
    SameTables(m, n);
    assert MmOk(m.mms[p]);
    forall h: nat | h < MAX_PGN ensures SamePage(Fault(m, p, g), Fault(n, p, g), p, h) {
      SamePagesAfter(m, n, p, g, q, h);
    }
    SameMemory(Fault(m, p, g), Fault(n, p, g), p);
    FaultEntries(m, p, g, p, g);
    BroughtIn(m, n, p, g, q);
    if f != EntryOf(m, p, VictimOf(m, p)).fpn {
      assert Stored(m, Resident(f)) && !Owns(m, q, Resident(f));
    }
  }

  lemma ReadHides(m: Machine, n: Machine, p: nat, addr: nat, q: nat)
    requires Inv(m) && DiffersIn(m, n, q) && p != q && Legal(m, Read(p, addr)) && !Leaks(m, p, addr / PAGE_SIZE, q)
    ensures Legal(n, Read(p, addr)) && Observed(n, p, addr) == Observed(m, p, addr)
  {
    var g := addr / PAGE_SIZE;
    if CanFault(m, p, g) {
      FaultHides(m, n, p, addr, q);
    } else {
      assert MmOk(m.mms[p]);
      forall h: nat | h < MAX_PGN ensures SamePage(m, n, p, h) {
        if !HasPage(m, p, h) {
          assert EntryOf(n, p, h) == EntryOf(m, p, h) == Unmapped;
        }
      }
      SameMemory(m, n, p);
    }
  }

  /** A byte of q, read in place. */
  lemma LeaksRam(m: Machine, p: nat, addr: nat, q: nat) returns (n: Machine)
    requires Inv(m) && p != q && Legal(m, Read(p, addr)) && CanFault(m, p, addr / PAGE_SIZE)
    requires Owns(m, q, Resident(FpnField(EntryOf(m, p, addr / PAGE_SIZE))))
    ensures DiffersIn(m, n, q) && Legal(n, Read(p, addr)) && Observed(n, p, addr).0 != Observed(m, p, addr).0
  {
    var g, off := addr / PAGE_SIZE, addr % PAGE_SIZE;
    var f := FpnField(EntryOf(m, p, g));
    var h: nat :| HasPage(m, q, h) && EntryOf(m, q, h) == Resident(f);
    var v: Byte := if m.ram.frames[f][off] == 0 then 1 else 0;
    n := StoreByte(m, f, off, v);
    assert EntryOf(m, p, VictimOf(m, p)) != EntryOf(m, q, h);
    assert GetVal(n, p, addr).value.1 == v;
  }

  function WithSwapZero(m: Machine, page: Page): Machine
    requires |m.swp.frames| > 0
  {
    m.(swp := m.swp.(frames := m.swp.frames[0 := page]))
  }

  lemma SwapZeroDiffers(m: Machine, q: nat, page: Page)
    requires |m.swp.frames| > 0 && Owns(m, q, Swapped(0))
    ensures DiffersIn(m, WithSwapZero(m, page), q)
  {
    var n := WithSwapZero(m, page);
    forall e | Stored(m, e) && !Owns(m, q, e) ensures Stored(n, e) && Contents(n, e) == Contents(m, e) {
      assert e != Swapped(0);
    }
  }

  /** A page of q, brought into a page never mapped. */
  lemma LeaksSwap(m: Machine, p: nat, addr: nat, q: nat) returns (n: Machine)
    requires Inv(m) && p != q && Legal(m, Read(p, addr)) && CanFault(m, p, addr / PAGE_SIZE)
    requires EntryOf(m, p, addr / PAGE_SIZE) == Unmapped && Owns(m, q, Swapped(0))
    ensures DiffersIn(m, n, q) && Legal(n, Read(p, addr)) && Observed(n, p, addr).1 != Observed(m, p, addr).1
  {
    var g, off := addr / PAGE_SIZE, addr % PAGE_SIZE;
    var v: Byte := if m.swp.frames[0][off] == 0 then 1 else 0;
    n := WithSwapZero(m, m.swp.frames[0][off := v]);
    SwapZeroDiffers(m, q, m.swp.frames[0][off := v]);
    ReadBrings(m, p, addr);
    ReadBrings(n, p, addr);
  }

  lemma ReadBrings(m: Machine, p: nat, addr: nat)
    requires Legal(m, Read(p, addr)) && CanFault(m, p, addr / PAGE_SIZE) && |m.swp.frames| > 0 && m.swp.free[0] != 0
    requires EntryOf(m, p, addr / PAGE_SIZE) == Unmapped
    ensures addr in Observed(m, p, addr).1 && Observed(m, p, addr).1[addr] == m.swp.frames[0][addr % PAGE_SIZE]
  {
    FaultEntries(m, p, addr / PAGE_SIZE, p, addr / PAGE_SIZE);
  }

  /** Confidentiality: what a read of p shows p does not depend on the bytes of q exactly when it does not leak: it finds its page
      resident, or no victim, or no page of q is in the frame the stale bits spell nor, for a page never mapped, in swap frame 0. */
  lemma ReadRevealsIff(m: Machine, p: nat, addr: nat, q: nat)
    requires Inv(m) && p != q && Legal(m, Read(p, addr))
    ensures (forall n: Machine :: DiffersIn(m, n, q) ==> Legal(n, Read(p, addr)) && Observed(n, p, addr) == Observed(m, p, addr))
            <==> !Leaks(m, p, addr / PAGE_SIZE, q)
  {
    if !Leaks(m, p, addr / PAGE_SIZE, q) {
      forall n: Machine | DiffersIn(m, n, q) ensures Legal(n, Read(p, addr)) && Observed(n, p, addr) == Observed(m, p, addr) {
        ReadHides(m, n, p, addr, q);
      }
    } else if Owns(m, q, Resident(FpnField(EntryOf(m, p, addr / PAGE_SIZE)))) {
      var n := LeaksRam(m, p, addr, q);
      assert DiffersIn(m, n, q);
    } else {
      var n := LeaksSwap(m, p, addr, q);
      assert DiffersIn(m, n, q);
    }
  }

  // ----- one process at a time -----

  /** The machine as process p sees it: the devices and its own tables. */
  function Alone(m: Machine, p: nat): Machine
    requires p < |m.mms|
  {
    Machine(m.ram, m.swp, [m.mms[p]])
  }

  function PutBack(m: Machine, p: nat, one: Machine): Machine
    requires p < |m.mms| && |one.mms| == 1
  {
    Machine(one.ram, one.swp, m.mms[p := one.mms[0]])
  }

  /** What an operation does on one process's own view is what it does in the whole machine: it reads and writes the tables
      of no other process. */
  lemma FaultLifts(m: Machine, p: nat, g: nat)
    requires IsPage(m, p, g)
    ensures CanFault(m, p, g) <==> CanFault(Alone(m, p), 0, g)
    ensures CanFault(m, p, g) ==> Fault(m, p, g) == PutBack(m, p, Fault(Alone(m, p), 0, g))
  {
    assert EntryOf(Alone(m, p), 0, g) == EntryOf(m, p, g);
  }

  lemma WriteLifts(m: Machine, p: nat, addr: nat, v: Byte)
    requires IsPage(m, p, addr / PAGE_SIZE)
    ensures SetVal(m, p, addr, v).Done? <==> SetVal(Alone(m, p), 0, addr, v).Done?
    ensures SetVal(m, p, addr, v).Wild? <==> SetVal(Alone(m, p), 0, addr, v).Wild?
    ensures SetVal(m, p, addr, v).Done? ==>
              SetVal(m, p, addr, v).value == PutBack(m, p, SetVal(Alone(m, p), 0, addr, v).value)
  {
    FaultLifts(m, p, addr / PAGE_SIZE);
    assert EntryOf(Alone(m, p), 0, addr / PAGE_SIZE) == EntryOf(m, p, addr / PAGE_SIZE);
  }

  lemma ReadLifts(m: Machine, p: nat, addr: nat)
    requires IsPage(m, p, addr / PAGE_SIZE)
    ensures GetVal(m, p, addr).Done? <==> GetVal(Alone(m, p), 0, addr).Done?
    ensures GetVal(m, p, addr).Wild? <==> GetVal(Alone(m, p), 0, addr).Wild?
    ensures GetVal(m, p, addr).Done? ==>
              && GetVal(m, p, addr).value.0 == PutBack(m, p, GetVal(Alone(m, p), 0, addr).value.0)
              && GetVal(m, p, addr).value.1 == GetVal(Alone(m, p), 0, addr).value.1
  {
    FaultLifts(m, p, addr / PAGE_SIZE);
    assert EntryOf(Alone(m, p), 0, addr / PAGE_SIZE) == EntryOf(m, p, addr / PAGE_SIZE);
  }

  lemma FreeLifts(m: Machine, p: nat, reg: nat)
    requires p < |m.mms| && reg < |m.mms[p].space.sym|
    ensures DoFree(m, p, reg) == PutBack(m, p, DoFree(Alone(m, p), 0, reg))
  {
  }

  lemma MapLifts(m: Machine, p: nat, g: nat, n: nat)
    requires p < |m.mms| && g + n <= |m.mms[p].pgd|
    ensures MapRange(m, p, g, n) == PutBack(m, p, MapRange(Alone(m, p), 0, g, n))
  {
    assert NewEntries(m, n) == NewEntries(Alone(m, p), n);
    assert EnoughFrames(m, n) <==> EnoughFrames(Alone(m, p), n);
  }

  lemma AllocLifts(m: Machine, p: nat, reg: nat, size: nat)
    requires Legal(m, Alloc(p, reg, size))
    ensures DoAlloc(m, p, reg, size) == PutBack(m, p, DoAlloc(Alone(m, p), 0, reg, size))
  {
    var g, sp := Growing(m.mms[p].space, size), AllocIn(m.mms[p].space, reg, size);
    var m1 := WithSpace(m, p, sp);
    if g.count > 0 {
      MapLifts(m1, p, g.first, g.count);
    }
  }
}

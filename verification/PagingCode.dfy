/** The paging code as it runs (src/mm.c, src/mm-vm.c): packed entries set in an array, loops over lists, one process at a
    time on the two shared devices. Every method is proved against the functions of Paging and MemoryRuns. */
module PagingCode {
  import opened PageEntry
  import opened Regions
  import opened Paging
  import opened MemoryRuns
  import opened Devices

  /** The page table and page list of a process. */
  class PageMap {
    const pgd: array<bv32>
    var fifo: seq<nat>

    ghost predicate Valid()
      reads this, pgd
    {
      && pgd.Length == MAX_PGN
      && (forall g :: 0 <= g < pgd.Length ==> WellFormed(pgd[g]))
      && (forall i :: 0 <= i < |fifo| ==> fifo[i] < MAX_PGN)
    }

    ghost function Entries(): (es: seq<Entry>)
      reads pgd
      ensures |es| == pgd.Length && forall g :: 0 <= g < |es| ==> es[g] == Decode(pgd[g])
    {
      seq(pgd.Length, g requires 0 <= g < pgd.Length reads pgd => Decode(pgd[g]))
    }

    /** init_mm on zeroed memory. */
    constructor ()
      ensures Valid() && fresh(pgd) && fifo == [] && Entries() == InitMm().pgd
    {
      pgd := new bv32[MAX_PGN](_ => 0);
      fifo := [];
    }

    /** pte_set_fpn on entry g. */
    method SetFpn(g: nat, fpn: nat)
      requires Valid() && g < MAX_PGN && fpn < FPN_LIMIT
      modifies pgd
      ensures Valid() && Entries() == old(Entries())[g := Resident(fpn)]
    {
      SetFpnDecodes(pgd[g], fpn);
      pgd[g] := PteSetFpn(pgd[g], fpn);
    }

    /** pte_set_swap on entry g. */
    method SetSwap(g: nat, swpoff: nat)
      requires Valid() && g < MAX_PGN && swpoff < SWP_LIMIT
      modifies pgd
      ensures Valid() && Entries() == old(Entries())[g := Swapped(swpoff)]
    {
      SetSwapDecodes(pgd[g], swpoff);
      pgd[g] := PteSetSwap(pgd[g], 0, swpoff);
    }

    /** enlist_pgn_node */
    method EnlistPgn(g: nat)
      requires Valid() && g < MAX_PGN
      modifies this`fifo
      ensures Valid() && fifo == [g] + old(fifo)
    {
      fifo := [g] + fifo;
    }

    /** PAGING_PAGE_PRESENT, PAGING_FPN and PAGING_SWP of entry g. */
    method Look(g: nat) returns (present: bool, fpn: nat, swp: nat)
      requires Valid() && g < MAX_PGN
      ensures present <==> Entries()[g].Resident?
      ensures fpn == FpnField(Entries()[g])
      ensures !present ==> swp == SwapSource(Entries()[g])
    {
      FpnOfDecode(pgd[g]);
      present, fpn, swp := PagePresent(pgd[g]), PagingFpn(pgd[g]), PagingSwp(pgd[g]);
    }

    /** find_victim_page */
    method FindVictim() returns (found: bool, pgn: nat)
      requires Valid()
      ensures found <==> Victim(Entries(), fifo) < |fifo|
      ensures found ==> pgn == fifo[Victim(Entries(), fifo)]
    {
      ghost var es := Entries();
      var i := 0;
      while i < |fifo|
        invariant i <= |fifo| && Victim(es, fifo) == i + Victim(es, fifo[i..])
      {
        var present, _, _ := Look(fifo[i]);
        if present {
          return true, fifo[i];
        }
        assert fifo[i..][1..] == fifo[i + 1..];
        i := i + 1;
      }
      found, pgn := false, 0;
    }
  }

  /** The machine that one process sees: the two devices and its own tables. */
  ghost function Seen(ram: MemPhy, swp: MemPhy, pm: PageMap, sp: Space): Machine
    reads ram, ram.storage, swp, swp.storage, pm, pm.pgd
  {
    Machine(ram.View(), swp.View(), [Mm(pm.Entries(), pm.fifo, sp)])
  }

  /** Two devices, of sizes the entries can address. */
  ghost predicate DevicesOk(ram: MemPhy, swp: MemPhy) {
    ram != swp && ram.storage != swp.storage && ram.NumFp() <= FPN_LIMIT && swp.NumFp() <= SWP_LIMIT
  }

  /** The page table is memory of its own. */
  ghost predicate Separate(ram: MemPhy, swp: MemPhy, pm: PageMap) {
    pm.pgd as object != ram.storage as object && pm.pgd as object != swp.storage as object
  }

  /** The two page copies of a fault. */
  method SwapPages(ram: MemPhy, swp: MemPhy, vicfpn: nat, tgtfpn: nat, swpfpn: nat)
    requires DevicesOk(ram, swp) && vicfpn < ram.NumFp() && tgtfpn < swp.NumFp() && swpfpn < swp.NumFp()
    modifies ram.storage, swp.storage
    ensures swp.Frames() == old(swp.Frames())[swpfpn := old(ram.Frames()[vicfpn])]
    ensures ram.Frames() == old(ram.Frames())[vicfpn := swp.Frames()[tgtfpn]]
  {
    SwapCopyPage(ram, vicfpn, swp, swpfpn);
    SwapCopyPage(swp, tgtfpn, ram, vicfpn);
  }

  /** The table updates of a fault. */
  method SwapEntries(pm: PageMap, pgn: nat, vicpgn: nat, vicfpn: nat, swpfpn: nat)
    requires pm.Valid() && pgn < MAX_PGN && vicpgn < MAX_PGN && vicfpn < FPN_LIMIT && swpfpn < SWP_LIMIT
    modifies pm`fifo, pm.pgd
    ensures pm.Valid() && pm.fifo == [pgn] + old(pm.fifo)
    ensures pm.Entries() == old(pm.Entries())[vicpgn := Swapped(swpfpn)][pgn := Resident(vicfpn)]
  {
    pm.SetSwap(vicpgn, swpfpn);
    pm.SetFpn(pgn, vicfpn);
    pm.EnlistPgn(pgn);
  }

  lemma FaultOfOne(m: Machine, g: nat, vic: nat, vicfpn: nat, swpfpn: nat, tgtfpn: nat, mm: Mm)
    requires |m.mms| == 1 && CanFault(m, 0, g)
    requires vic == VictimOf(m, 0) && vicfpn == m.mms[0].pgd[vic].fpn && [swpfpn] <= m.swp.free
    requires tgtfpn == SwapSource(m.mms[0].pgd[g])
    requires mm == Mm(m.mms[0].pgd[vic := Swapped(swpfpn)][g := Resident(vicfpn)], [g] + m.mms[0].fifo, m.mms[0].space)
    ensures var swpFrames := m.swp.frames[swpfpn := m.ram.frames[vicfpn]];
            Fault(m, 0, g) == Machine(m.ram.(frames := m.ram.frames[vicfpn := swpFrames[tgtfpn]]),
                                      m.swp.(frames := swpFrames, free := m.swp.free[1..]), [mm])
  {
  }

  /** The fault path of pg_getpage once a victim is found. */
  method ServeFault(ram: MemPhy, swp: MemPhy, pm: PageMap, pgn: nat, tgtfpn: nat, vicpgn: nat, ghost sp: Space)
    requires DevicesOk(ram, swp) && Separate(ram, swp, pm) && pm.Valid() && pgn < MAX_PGN
    requires CanFault(Seen(ram, swp, pm, sp), 0, pgn)
    requires tgtfpn == SwapSource(pm.Entries()[pgn]) && vicpgn == VictimOf(Seen(ram, swp, pm, sp), 0)
    modifies ram.storage, swp`freeFp, swp.storage, pm`fifo, pm.pgd
    ensures pm.Valid() && Seen(ram, swp, pm, sp) == Fault(old(Seen(ram, swp, pm, sp)), 0, pgn)
  {
    ghost var m := Seen(ram, swp, pm, sp);
    var _, vicfpn, _ := pm.Look(vicpgn);
    var _, swpfpn := swp.GetFreeFp();
    SwapPages(ram, swp, vicfpn, tgtfpn, swpfpn);
    SwapEntries(pm, pgn, vicpgn, vicfpn, swpfpn);
    FaultOfOne(m, pgn, vicpgn, vicfpn, swpfpn, tgtfpn, Mm(pm.Entries(), pm.fifo, sp));
  }

  /** pg_getpage */
  method PgGetPage(ram: MemPhy, swp: MemPhy, pm: PageMap, pgn: nat, ghost sp: Space) returns (code: int, fpn: nat)
    requires DevicesOk(ram, swp) && Separate(ram, swp, pm) && pm.Valid() && pgn < MAX_PGN
    requires GetPage(Seen(ram, swp, pm, sp), 0, pgn) != Undefined
    modifies ram.storage, swp`freeFp, swp.storage, pm`fifo, pm.pgd
    ensures pm.Valid()
    ensures code == 0 || code == -1
    ensures code == 0 <==> GetPage(old(Seen(ram, swp, pm, sp)), 0, pgn).Found?
    ensures code == 0 ==> GetPage(old(Seen(ram, swp, pm, sp)), 0, pgn) == Found(Seen(ram, swp, pm, sp), fpn)
    ensures code != 0 ==> Seen(ram, swp, pm, sp) == old(Seen(ram, swp, pm, sp))
  {
    var present, field, tgtfpn := pm.Look(pgn);
    if !present {
      var found, vicpgn := pm.FindVictim();
      if !found {
        return -1, 0;
      }
      ServeFault(ram, swp, pm, pgn, tgtfpn, vicpgn, sp);
    }
    code, fpn := 0, field;
  }

  /** PAGING_PGN and PAGING_OFFST */
  method SplitAddr(addr: nat) returns (pgn: nat, off: nat)
    requires addr < MAX_PGN * PAGE_SIZE
    ensures pgn == addr / PAGE_SIZE && off == addr % PAGE_SIZE
  {
    AddrSplitsOnBus(addr);
    pgn, off := PagingPgn(addr), PagingOffst(addr);
  }

  /** The physical write of pg_setval. */
  method StorePhy(ram: MemPhy, swp: MemPhy, pm: PageMap, fpn: nat, off: nat, value: Byte, ghost sp: Space)
    requires DevicesOk(ram, swp) && Separate(ram, swp, pm) && pm.Valid() && fpn < ram.NumFp() && off < PAGE_SIZE
    modifies ram.storage
    ensures pm.Valid() && Seen(ram, swp, pm, sp) == StoreByte(old(Seen(ram, swp, pm, sp)), fpn, off, value)
  {
    var phyaddr := fpn * PAGE_SIZE + off;
    ram.Write(phyaddr, value);
  }

  /** The physical read of pg_getval. */
  method LoadPhy(ram: MemPhy, fpn: nat, off: nat) returns (data: Byte)
    requires fpn < ram.NumFp() && off < PAGE_SIZE
    ensures data == ram.View().frames[fpn][off]
  {
    var phyaddr := fpn * PAGE_SIZE + off;
    data := ram.Read(phyaddr);
  }

  /** pg_setval */
  method PgSetVal(ram: MemPhy, swp: MemPhy, pm: PageMap, addr: nat, value: Byte, ghost sp: Space) returns (code: int)
    requires DevicesOk(ram, swp) && Separate(ram, swp, pm) && pm.Valid() && addr < MAX_PGN * PAGE_SIZE
    requires !SetVal(Seen(ram, swp, pm, sp), 0, addr, value).Wild?
    modifies ram.storage, swp`freeFp, swp.storage, pm`fifo, pm.pgd
    ensures pm.Valid()
    ensures code == 0 || code == -1
    ensures code == 0 ==> SetVal(old(Seen(ram, swp, pm, sp)), 0, addr, value) == Done(Seen(ram, swp, pm, sp))
    ensures code != 0 ==> SetVal(old(Seen(ram, swp, pm, sp)), 0, addr, value) == Fails
    ensures code != 0 ==> Seen(ram, swp, pm, sp) == old(Seen(ram, swp, pm, sp))
  {
    var pgn, off := SplitAddr(addr);
    var found, fpn := PgGetPage(ram, swp, pm, pgn, sp);
    if found != 0 {
      return -1;
    }
    StorePhy(ram, swp, pm, fpn, off, value, sp);
    code := 0;
  }

  /** pg_getval */
  method PgGetVal(ram: MemPhy, swp: MemPhy, pm: PageMap, addr: nat, ghost sp: Space) returns (code: int, data: Byte)
    requires DevicesOk(ram, swp) && Separate(ram, swp, pm) && pm.Valid() && addr < MAX_PGN * PAGE_SIZE
    requires !GetVal(Seen(ram, swp, pm, sp), 0, addr).Wild?
    modifies ram.storage, swp`freeFp, swp.storage, pm`fifo, pm.pgd
    ensures pm.Valid()
    ensures code == 0 || code == -1
    ensures code == 0 ==> GetVal(old(Seen(ram, swp, pm, sp)), 0, addr) == Done((Seen(ram, swp, pm, sp), data))
    ensures code != 0 ==> GetVal(old(Seen(ram, swp, pm, sp)), 0, addr) == Fails
    ensures code != 0 ==> Seen(ram, swp, pm, sp) == old(Seen(ram, swp, pm, sp))
  {
    var pgn, off := SplitAddr(addr);
    var found, fpn := PgGetPage(ram, swp, pm, pgn, sp);
    if found != 0 {
      return -1, 0;
    }
    data := LoadPhy(ram, fpn, off);
    code := 0;
  }

  // ----- mapping -----

  /** One round of alloc_pages_range on one device: take the first free frame, push it on the caller's list, note it used. */
  method TakeOne(dev: MemPhy, lst: seq<nat>, ghost d: Device, ghost k: nat) returns (ok: bool, lst': seq<nat>)
    requires k <= |d.free| && dev.View() == TakeFrames(d, k) && lst == Reversed(d.free[..k])
    modifies dev`freeFp, dev`usedFp
    ensures ok <==> k < |d.free|
    ensures ok ==> dev.View() == TakeFrames(d, k + 1) && lst' == Reversed(d.free[..k + 1])
    ensures !ok ==> dev.View() == TakeFrames(d, k) && lst' == lst
  {
    var fpn;
    ok, fpn := dev.GetFreeFp();
    if ok {
      ReversedSnoc(d.free, k);
      lst' := [fpn] + lst;
      dev.PutUsedFp(fpn);
    } else {
      lst' := lst;
    }
  }

  /** alloc_pages_range: RAM frames while there are any, then swap frames; -3000 when both are gone. */
  method AllocPagesRange(ram: MemPhy, swp: MemPhy, n: nat) returns (code: int, frm: seq<nat>, frmSwap: seq<nat>)
    requires ram != swp
    modifies ram`freeFp, ram`usedFp, swp`freeFp, swp`usedFp
    ensures var r := Min(n, |old(ram.freeFp)|); var w := Min(n - r, |old(swp.freeFp)|);
            && ram.View() == TakeFrames(old(ram.View()), r) && frm == Reversed(old(ram.freeFp)[..r])
            && swp.View() == TakeFrames(old(swp.View()), w) && frmSwap == Reversed(old(swp.freeFp)[..w])
            && code == if r + w == n then 0 else -3000
  {
    ghost var d, e := ram.View(), swp.View();
    frm, frmSwap := [], [];
    assert d.free[..0] == [] && e.free[..0] == [];
    for pgit := 0 to n
      invariant ram.View() == TakeFrames(d, Min(pgit, |d.free|)) && frm == Reversed(d.free[..Min(pgit, |d.free|)])
      invariant pgit - Min(pgit, |d.free|) <= |e.free|
      invariant swp.View() == TakeFrames(e, pgit - Min(pgit, |d.free|))
      invariant frmSwap == Reversed(e.free[..pgit - Min(pgit, |d.free|)])
    {
      var ok;
      ok, frm := TakeOne(ram, frm, d, Min(pgit, |d.free|));
      if !ok {
        ok, frmSwap := TakeOne(swp, frmSwap, e, pgit - Min(pgit, |d.free|));
        if !ok {
          return -3000, frm, frmSwap;
        }
      }
    }
    code := 0;
  }

  lemma SpliceNext(es: seq<Entry>, g: nat, all: seq<Entry>, i: nat)
    requires i < |all| && g + |all| <= |es|
    ensures Splice(es, g, all[..i])[g + i := all[i]] == Splice(es, g, all[..i + 1])
  {
  }

  lemma SpliceTwice(es: seq<Entry>, g: nat, a: seq<Entry>, b: seq<Entry>)
    requires g + |a| + |b| <= |es|
    ensures Splice(Splice(es, g, a), g + |a|, b) == Splice(es, g, a + b)
  {
  }

  /** The first loop of vmap_page_range: RAM frames become entries g, g+1, ...; after each the next page number is listed. */
  method MapFrames(pm: PageMap, g: nat, frm: seq<nat>)
    requires pm.Valid() && g + |frm| < MAX_PGN && forall i :: 0 <= i < |frm| ==> frm[i] < FPN_LIMIT
    modifies pm`fifo, pm.pgd
    ensures pm.Valid() && pm.fifo == Enlisted(g, |frm|) + old(pm.fifo)
    ensures pm.Entries() == Splice(old(pm.Entries()), g, Residents(frm))
  {
    ghost var es, fifo, all := pm.Entries(), pm.fifo, Residents(frm);
    assert Splice(es, g, all[..0]) == es;
    var pgit := 0;
    while pgit < |frm|
      invariant pgit <= |frm| && pm.Valid()
      invariant pm.Entries() == Splice(es, g, all[..pgit]) && pm.fifo == Enlisted(g, pgit) + fifo
    {
      SpliceNext(es, g, all, pgit);
      pm.SetFpn(g + pgit, frm[pgit]);
      pgit := pgit + 1;
      pm.EnlistPgn(g + pgit);
    }
    assert all[..pgit] == all;
  }

  /** The second loop: the same for swap frames. */
  method MapSwaps(pm: PageMap, g: nat, frm: seq<nat>)
    requires pm.Valid() && g + |frm| < MAX_PGN && forall i :: 0 <= i < |frm| ==> frm[i] < SWP_LIMIT
    modifies pm`fifo, pm.pgd
    ensures pm.Valid() && pm.fifo == Enlisted(g, |frm|) + old(pm.fifo)
    ensures pm.Entries() == Splice(old(pm.Entries()), g, Swappeds(frm))
  {
    ghost var es, fifo, all := pm.Entries(), pm.fifo, Swappeds(frm);
    assert Splice(es, g, all[..0]) == es;
    var pgit := 0;
    while pgit < |frm|
      invariant pgit <= |frm| && pm.Valid()
      invariant pm.Entries() == Splice(es, g, all[..pgit]) && pm.fifo == Enlisted(g, pgit) + fifo
    {
      SpliceNext(es, g, all, pgit);
      pm.SetSwap(g + pgit, frm[pgit]);
      pgit := pgit + 1;
      pm.EnlistPgn(g + pgit);
    }
    assert all[..pgit] == all;
  }

  /** vmap_page_range */
  method VmapPageRange(pm: PageMap, g: nat, frm: seq<nat>, frmSwap: seq<nat>)
    requires pm.Valid() && g + |frm| + |frmSwap| < MAX_PGN
    requires forall i :: 0 <= i < |frm| ==> frm[i] < FPN_LIMIT
    requires forall i :: 0 <= i < |frmSwap| ==> frmSwap[i] < SWP_LIMIT
    modifies pm`fifo, pm.pgd
    ensures pm.Valid() && pm.fifo == Enlisted(g, |frm| + |frmSwap|) + old(pm.fifo)
    ensures pm.Entries() == Splice(old(pm.Entries()), g, Residents(frm) + Swappeds(frmSwap))
  {
    SpliceTwice(pm.Entries(), g, Residents(frm), Swappeds(frmSwap));
    EnlistedTwice(g, |frm|, |frmSwap|);
    MapFrames(pm, g, frm);
    MapSwaps(pm, g + |frm|, frmSwap);
  }

  lemma FramesInRange(d: Device, k: nat, limit: nat)
    requires FreeOk(d) && k <= |d.free| && |d.frames| <= limit
    ensures forall i :: 0 <= i < |Reversed(d.free[..k])| ==> Reversed(d.free[..k])[i] < limit
  {
    ReversedShape(d.free[..k]);
  }

  lemma MapRangeOfOne(m: Machine, g: nat, n: nat, mm: Mm)
    requires |m.mms| == 1 && g + n <= |m.mms[0].pgd|
    requires if EnoughFrames(m, n)
             then mm == Mm(Splice(m.mms[0].pgd, g, NewEntries(m, n)), Enlisted(g, n) + m.mms[0].fifo, m.mms[0].space)
             else mm == m.mms[0]
    ensures Machine(TakeFrames(m.ram, FromRam(m, n)), TakeFrames(m.swp, FromSwap(m, n)), [mm]) == MapRange(m, 0, g, n)
  {
  }

  /** The frame-taking half of vm_map_ram. */
  method TakeForMap(ram: MemPhy, swp: MemPhy, n: nat, ghost m: Machine) returns (ok: bool, frm: seq<nat>, frmSwap: seq<nat>)
    requires DevicesOk(ram, swp) && ram.View() == m.ram && swp.View() == m.swp && FreeOk(m.ram) && FreeOk(m.swp)
    modifies ram`freeFp, ram`usedFp, swp`freeFp, swp`usedFp
    ensures ram.View() == TakeFrames(m.ram, FromRam(m, n)) && swp.View() == TakeFrames(m.swp, FromSwap(m, n))
    ensures ok <==> EnoughFrames(m, n)
    ensures NewEntries(m, n) == Residents(frm) + Swappeds(frmSwap)
    ensures forall i :: 0 <= i < |frm| ==> frm[i] < FPN_LIMIT
    ensures forall i :: 0 <= i < |frmSwap| ==> frmSwap[i] < SWP_LIMIT
  {
    FramesInRange(m.ram, FromRam(m, n), FPN_LIMIT);
    FramesInRange(m.swp, FromSwap(m, n), SWP_LIMIT);
    var ret;
    ret, frm, frmSwap := AllocPagesRange(ram, swp, n);
    ok := ret != -3000;
  }

  /** vm_map_ram */
  method VmMapRam(ram: MemPhy, swp: MemPhy, pm: PageMap, g: nat, n: nat, ghost sp: Space) returns (code: int)
    requires DevicesOk(ram, swp) && Separate(ram, swp, pm) && pm.Valid() && g + n < MAX_PGN
    requires FreeOk(ram.View()) && FreeOk(swp.View())
    modifies ram`freeFp, ram`usedFp, swp`freeFp, swp`usedFp, pm`fifo, pm.pgd
    ensures pm.Valid() && Seen(ram, swp, pm, sp) == MapRange(old(Seen(ram, swp, pm, sp)), 0, g, n)
    ensures code == if EnoughFrames(old(Seen(ram, swp, pm, sp)), n) then 0 else -1
  {
    ghost var m := Seen(ram, swp, pm, sp);
    var ok, frm, frmSwap := TakeForMap(ram, swp, n, m);
    if ok {
      VmapPageRange(pm, g, frm, frmSwap);
    }
    MapRangeOfOne(m, g, n, Mm(pm.Entries(), pm.fifo, sp));
    code := if ok then 0 else -1;
  }
}

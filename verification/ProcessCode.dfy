/** A process's memory as the code keeps it (src/mm-vm.c): break pointers, symbol table and the linked free list, changed
    in place by __alloc and __free. */
module ProcessCode {
  import opened PageEntry
  import opened Regions
  import opened RegionList
  import opened Paging
  import opened MemoryRuns
  import opened Devices
  import opened PagingCode

  lemma SymUpdated(sp: Space, free: seq<Region>, sym: seq<Region>, reg: nat, size: nat, i: nat, rg: Region)
    requires reg < |sp.sym| && i == FirstFit(sp.free, size) < |sp.free| && free == TakeFrom(sp.free, i, size)
    requires rg == Region(sp.free[i].start, sp.free[i].start + size) && sym == sp.sym[reg := rg]
    ensures Space(sp.sbrk, sp.vmEnd, free, sym) == AllocIn(sp, reg, size)
  {
  }

  class Process {
    const pm: PageMap
    const freerg: FreeList
    const symtbl: array<Region>
    var sbrk: nat
    var vmEnd: nat

    ghost predicate Valid()
      reads this, pm, pm.pgd, freerg, freerg.repr, freerg.nodes, symtbl
    {
      pm.Valid() && freerg.Valid() && symtbl.Length == SYMTBL_SIZE && symtbl as object != pm.pgd as object
    }

    ghost function SpaceView(): Space
      reads this, freerg, freerg.nodes, symtbl
    {
      Space(sbrk, vmEnd, freerg.Contents(), symtbl[..])
    }

    ghost function View(ram: MemPhy, swp: MemPhy): Machine
      reads this, freerg, freerg.nodes, symtbl, ram, ram.storage, swp, swp.storage, pm, pm.pgd
    {
      Seen(ram, swp, pm, SpaceView())
    }

    /** init_mm, on zeroed memory. */
    constructor ()
      ensures Valid() && freerg.Clean() && fresh(pm) && fresh(pm.pgd) && fresh(freerg) && fresh(freerg.repr) && fresh(symtbl)
      ensures Mm(pm.Entries(), pm.fifo, SpaceView()) == InitMm()
    {
      pm := new PageMap();
      freerg := new FreeList();
      symtbl := new Region[SYMTBL_SIZE](_ => SENTINEL);
      sbrk, vmEnd := 0, 0;
    }

    /** The first-fit half of __alloc. */
    method AllocFromFree(rgid: nat, size: nat) returns (found: bool)
      requires Valid() && rgid < SYMTBL_SIZE
      modifies freerg`nodes, freerg`freed, freerg.repr, symtbl
      ensures Valid() && freerg.repr == old(freerg.repr)
      ensures old(freerg.Clean()) ==> freerg.Clean()
      ensures found <==> FirstFit(old(SpaceView()).free, size) < |old(SpaceView()).free|
      ensures found ==> SpaceView() == AllocIn(old(SpaceView()), rgid, size)
      ensures !found ==> SpaceView() == old(SpaceView())
    {
      ghost var sp := SpaceView();
      var rg;
      ghost var k;
      found, rg, k := freerg.TakeFree(size);
      assert symtbl[..] == sp.sym;
      if found {
        ghost var free := freerg.Contents();
        symtbl[rgid] := rg;
        assert freerg.Contents() == free;
        SymUpdated(sp, free, symtbl[..], rgid, size, k, rg);
      }
    }

    /** Moving the break (get_vm_area_node_at_brk and the pointer updates of inc_vma_limit, or the in-page branch) and
        recording the region; the pages still to be mapped are returned. */
    method PlaceAtBreak(rgid: nat, size: nat) returns (first: nat, count: nat)
      requires Valid() && rgid < SYMTBL_SIZE
      requires vmEnd == PageAlign(sbrk) && FirstFit(SpaceView().free, size) == |SpaceView().free|
      modifies this`sbrk, this`vmEnd, symtbl
      ensures Valid() && SpaceView() == AllocIn(old(SpaceView()), rgid, size)
      ensures Growing(old(SpaceView()), size) == Growth(first, count)
    {
      var oldSbrk := sbrk;
      first, count := vmEnd / PAGE_SIZE, 0;
      if size + sbrk > PageAlign(sbrk) || sbrk == vmEnd {
        var incAmt := PageAlign(size + sbrk) - PageAlign(sbrk);
        count := incAmt / PAGE_SIZE;
        sbrk := sbrk + size;
        vmEnd := vmEnd + incAmt;
      } else {
        sbrk := sbrk + size;
      }
      symtbl[rgid] := Region(oldSbrk, oldSbrk + size);
    }

    ghost predicate Apart(ram: MemPhy, swp: MemPhy) {
      && DevicesOk(ram, swp) && Separate(ram, swp, pm)
      && symtbl as object != ram.storage as object && symtbl as object != swp.storage as object
    }

    /** The growing half of __alloc. A failed mapping goes unnoticed, as in the source. */
    method AllocAtBreak(ram: MemPhy, swp: MemPhy, rgid: nat, size: nat)
      requires Valid() && Apart(ram, swp) && rgid < SYMTBL_SIZE && FreeOk(ram.View()) && FreeOk(swp.View())
      requires vmEnd == PageAlign(sbrk) && FirstFit(SpaceView().free, size) == |SpaceView().free|
      requires RoomFor(View(ram, swp).mms[0], size)
      modifies this`sbrk, this`vmEnd, symtbl, pm`fifo, pm.pgd, ram`freeFp, ram`usedFp, swp`freeFp, swp`usedFp
      ensures Valid() && View(ram, swp) == DoAlloc(old(View(ram, swp)), 0, rgid, size)
    {
      ghost var m := View(ram, swp);
      var first, count := PlaceAtBreak(rgid, size);
      assert View(ram, swp) == WithSpace(m, 0, SpaceView());
      if count > 0 {
        var _ := VmMapRam(ram, swp, pm, first, count, SpaceView());
      }
    }

    /** __alloc */
    method AllocReg(ram: MemPhy, swp: MemPhy, rgid: nat, size: nat) returns (addr: nat)
      requires Valid() && Apart(ram, swp) && rgid < SYMTBL_SIZE && FreeOk(ram.View()) && FreeOk(swp.View())
      requires vmEnd == PageAlign(sbrk) && RoomFor(View(ram, swp).mms[0], size)
      modifies this`sbrk, this`vmEnd, freerg`nodes, freerg`freed, freerg.repr, symtbl, pm`fifo, pm.pgd
      modifies ram`freeFp, ram`usedFp, swp`freeFp, swp`usedFp
      ensures Valid() && View(ram, swp) == DoAlloc(old(View(ram, swp)), 0, rgid, size)
      ensures addr == SpaceView().sym[rgid].start
      ensures old(freerg.Clean()) ==> freerg.Clean()
    {
      var found := AllocFromFree(rgid, size);
      if !found {
        AllocAtBreak(ram, swp, rgid, size);
      }
      addr := symtbl[rgid].start;
    }

    /** __free on a register of the table. */
    method FreeAt(rgid: nat)
      requires Valid() && rgid < SYMTBL_SIZE
      modifies freerg, freerg.repr, symtbl
      ensures Valid() && fresh(freerg.repr - old(freerg.repr))
      ensures SpaceView() == FreeIn(old(SpaceView()), rgid)
      ensures old(freerg.Clean()) && ListOk(old(SpaceView()).free) ==>
                (freerg.Clean() <==> !BadOrder(old(SpaceView()).free, old(SpaceView()).sym[rgid]))
    {
      ghost var sp := SpaceView();
      var _ := freerg.EnlistRegion(symtbl[rgid]);
      assert symtbl[..] == sp.sym;
      symtbl[rgid] := SENTINEL;
      assert symtbl[..] == sp.sym[rgid := SENTINEL];
    }

    /** __free. Its test lets register 30 through, one past the symbol table: there the source reads and writes memory that is
        not the table's (`wild`), and the model stops. */
    method FreeReg(rgid: int) returns (code: int, wild: bool)
      requires Valid()
      modifies freerg, freerg.repr, symtbl
      ensures Valid() && fresh(freerg.repr - old(freerg.repr))
      ensures wild <==> rgid == SYMTBL_SIZE
      ensures code == if 0 <= rgid <= SYMTBL_SIZE then 0 else -1
      ensures SpaceView() == if 0 <= rgid < SYMTBL_SIZE then FreeIn(old(SpaceView()), rgid) else old(SpaceView())
      ensures 0 <= rgid < SYMTBL_SIZE && old(freerg.Clean()) && ListOk(old(SpaceView()).free) ==>
                (freerg.Clean() <==> !BadOrder(old(SpaceView()).free, old(SpaceView()).sym[rgid]))
    {
      if rgid < 0 || rgid > SYMTBL_SIZE {
        return -1, false;
      }
      if rgid == symtbl.Length {
        return 0, true;
      }
      FreeAt(rgid);
      code, wild := 0, false;
    }
  }
}

/** Free regions and the break pointer of one process (src/mm-vm.c), on values.

    The free list is a sequence in list order. `init_mm` starts it with an empty (0,0) node, which stays
    last and stops the walk in `enlist_vm_freerg_list`.
 */
module Regions {
  import Bits
  import opened PageEntry

  const SYMTBL_SIZE: nat := 30

  datatype Region = Region(start: nat, end: nat)

  const SENTINEL := Region(0, 0)

  predicate In(a: nat, r: Region) { r.start <= a < r.end }

  function Ind(a: nat, r: Region): nat { if In(a, r) then 1 else 0 }

  /** How many regions of the list hold address a. */
  function Count(l: seq<Region>, a: nat): nat {
    if l == [] then 0 else Ind(a, l[0]) + Count(l[1..], a)
  }

  /** The sentinel is last and every other node is non-empty. */
  ghost predicate ListOk(l: seq<Region>) {
    |l| > 0 && l[|l| - 1] == SENTINEL && forall i :: 0 <= i < |l| - 1 ==> l[i].start < l[i].end
  }

  // ----- the list operations -----

  /** delete_vm_rg_node: copy the next node over the target and drop it; at the tail, empty the node. */
  function Delete(l: seq<Region>, i: nat): seq<Region>
    requires i < |l|
  {
    if i + 1 < |l| then l[..i] + l[i + 1..] else l[i := Region(l[i].end, l[i].end)]
  }

  /** The first node with room for `size`, or |l|. */
  function FirstFit(l: seq<Region>, size: nat): (i: nat)
    ensures i <= |l|
    ensures i < |l| ==> l[i].start + size <= l[i].end
    ensures forall j :: 0 <= j < i ==> l[j].start + size > l[j].end
  {
    if l == [] then 0
    else if l[0].start + size <= l[0].end then 0
    else 1 + FirstFit(l[1..], size)
  }

  /** get_free_vmrg_area once the node is chosen: keep what is left of it, or delete it. */
  function TakeFrom(l: seq<Region>, i: nat, size: nat): seq<Region>
    requires i < |l|
  {
    if l[i].start + size < l[i].end then l[i := Region(l[i].start + size, l[i].end)] else Delete(l, i)
  }

  /** The last node before the first (0,0) node that starts (up) or ends (down) at a, or |l|. */
  function LastStartingAt(l: seq<Region>, a: nat): (i: nat)
    ensures i <= |l|
    ensures i < |l| ==> l[i].start == a && l[i] != SENTINEL
  {
    if l == [] || l[0] == SENTINEL then |l|
    else
      var i := LastStartingAt(l[1..], a);
      if i < |l| - 1 then i + 1 else if l[0].start == a then 0 else |l|
  }

  function LastEndingAt(l: seq<Region>, a: nat): (i: nat)
    ensures i <= |l|
    ensures i < |l| ==> l[i].end == a && l[i] != SENTINEL
  {
    if l == [] || l[0] == SENTINEL then |l|
    else
      var i := LastEndingAt(l[1..], a);
      if i < |l| - 1 then i + 1 else if l[0].end == a then 0 else |l|
  }

  /** Both neighbours are free and the lower one directly follows the upper one in the list. */
  predicate BadOrder(l: seq<Region>, rg: Region) {
    && rg.start < rg.end
    && LastStartingAt(l, rg.end) < |l|
    && LastEndingAt(l, rg.start) == LastStartingAt(l, rg.end) + 1 < |l|
  }

  /** enlist_vm_freerg_list. */
  function Enlist(l: seq<Region>, rg: Region): seq<Region> {
    if rg.start >= rg.end then l
    else EnlistAt(l, rg, LastStartingAt(l, rg.end), LastEndingAt(l, rg.start))
  }

  /** The two deletions of the two-sided merge. In the bad order the first one has already dropped the lower
      neighbour's node, so the second works on a node that is no longer in the list and changes nothing in it. */
  function DeleteBoth(l: seq<Region>, up: nat, down: nat): seq<Region>
    requires up < |l| && down < |l|
  {
    if down == up + 1 then Delete(l, up)
    else Delete(Delete(l, up), if down <= up then down else down - 1)
  }

  /** Enlisting once the walk has found the upper and lower neighbours (|l| for none). */
  function EnlistAt(l: seq<Region>, rg: Region, up: nat, down: nat): seq<Region>
    requires up <= |l| && down <= |l|
  {
    if up < |l| && down < |l| then [Region(l[down].start, l[up].end)] + DeleteBoth(l, up, down)
    else if up < |l| then l[up := Region(rg.start, l[up].end)]
    else if down < |l| then l[down := Region(l[down].start, rg.end)]
    else [rg] + l
  }

  // ----- what the list operations do to every address -----

  lemma {:induction false} CountConcat(l: seq<Region>, m: seq<Region>, a: nat)
    ensures Count(l + m, a) == Count(l, a) + Count(m, a)
  {
    if l == [] {
      assert l + m == m;
    } else {
      assert (l + m)[1..] == l[1..] + m;
      CountConcat(l[1..], m, a);
    }
  }

  lemma CountSplit(l: seq<Region>, i: nat, a: nat)
    requires i < |l|
    ensures Count(l, a) == Count(l[..i], a) + Ind(a, l[i]) + Count(l[i + 1..], a)
  {
    assert l == l[..i] + l[i..] && l[i..][1..] == l[i + 1..];
    CountConcat(l[..i], l[i..], a);
  }

  lemma CountUpdate(l: seq<Region>, i: nat, r: Region, a: nat)
    requires i < |l|
    ensures Count(l[i := r], a) == Count(l, a) - Ind(a, l[i]) + Ind(a, r)
  {
    CountSplit(l, i, a);
    CountSplit(l[i := r], i, a);
    assert l[i := r][..i] == l[..i] && l[i := r][i + 1..] == l[i + 1..];
  }

  /** Copy-next deletion takes away exactly the target's addresses, also at the tail. */
  lemma DeleteCount(l: seq<Region>, i: nat, a: nat)
    requires i < |l|
    ensures Count(Delete(l, i), a) == Count(l, a) - Ind(a, l[i])
  {
    if i + 1 < |l| {
      CountSplit(l, i, a);
      CountConcat(l[..i], l[i + 1..], a);
    } else {
      CountUpdate(l, i, Region(l[i].end, l[i].end), a);
    }
  }

  /** First fit takes exactly the region it hands out, and keeps the sentinel last. */
  lemma TakeCount(l: seq<Region>, i: nat, size: nat, a: nat)
    requires i < |l| && l[i].start + size <= l[i].end
    ensures Count(TakeFrom(l, i, size), a) + Ind(a, Region(l[i].start, l[i].start + size)) == Count(l, a)
  {
    if l[i].start + size < l[i].end {
      CountUpdate(l, i, Region(l[i].start + size, l[i].end), a);
    } else {
      DeleteCount(l, i, a);
    }
  }

  lemma TakeListOk(l: seq<Region>, size: nat)
    requires ListOk(l) && FirstFit(l, size) < |l|
    ensures ListOk(TakeFrom(l, FirstFit(l, size), size))
  {
  }

  lemma UpIsProper(l: seq<Region>, a: nat)
    requires ListOk(l)
    ensures LastStartingAt(l, a) < |l| - 1 || LastStartingAt(l, a) == |l|
    ensures LastEndingAt(l, a) < |l| - 1 || LastEndingAt(l, a) == |l|
  {
  }

  lemma DeleteBothCount(l: seq<Region>, up: nat, down: nat, a: nat)
    requires up < |l| - 1 && down < |l| - 1 && down != up
    ensures Count(DeleteBoth(l, up, down), a) ==
            Count(l, a) - Ind(a, l[up]) - (if down == up + 1 then 0 else Ind(a, l[down]))
  {
    var once := Delete(l, up);
    DeleteCount(l, up, a);
    if down != up + 1 {
      var d := if down <= up then down else down - 1;
      assert once[d] == l[down];
      DeleteCount(once, d, a);
    }
  }

  lemma EnlistAtCount(l: seq<Region>, rg: Region, up: nat, down: nat, a: nat)
    requires up < |l| - 1 || up == |l|
    requires down < |l| - 1 || down == |l|
    requires rg.start < rg.end
    requires up < |l| ==> l[up].start == rg.end && l[up].start < l[up].end
    requires down < |l| ==> l[down].end == rg.start && l[down].start < l[down].end
    ensures Count(EnlistAt(l, rg, up, down), a) == Count(l, a) + Ind(a, rg)
              + if down < |l| && down == up + 1 then Ind(a, l[down]) else 0
  {
    if up < |l| && down < |l| {
      var merged := Region(l[down].start, l[up].end);
      assert Ind(a, merged) == Ind(a, l[down]) + Ind(a, rg) + Ind(a, l[up]);
      DeleteBothCount(l, up, down, a);
      CountConcat([merged], DeleteBoth(l, up, down), a);
    } else if up < |l| {
      CountUpdate(l, up, Region(rg.start, l[up].end), a);
    } else if down < |l| {
      CountUpdate(l, down, Region(l[down].start, rg.end), a);
    } else {
      CountConcat([rg], l, a);
    }
  }

  /** In all four merge cases freeing adds exactly the freed region. In the bad order the lower neighbour
      is then listed twice: on its own and inside the merged node. */
  lemma EnlistCount(l: seq<Region>, rg: Region, a: nat)
    requires ListOk(l) && rg.start < rg.end
    ensures Count(Enlist(l, rg), a) == Count(l, a) + Ind(a, rg)
              + if BadOrder(l, rg) then Ind(a, l[LastEndingAt(l, rg.start)]) else 0
  {
    UpIsProper(l, rg.end);
    UpIsProper(l, rg.start);
    EnlistAtCount(l, rg, LastStartingAt(l, rg.end), LastEndingAt(l, rg.start), a);
  }

  lemma DeleteListOk(l: seq<Region>, i: nat)
    requires ListOk(l) && i < |l| - 1
    ensures ListOk(Delete(l, i))
  {
  }

  lemma PushListOk(l: seq<Region>, rg: Region)
    requires ListOk(l) && rg.start < rg.end
    ensures ListOk([rg] + l)
  {
  }

  lemma DeleteBothListOk(l: seq<Region>, up: nat, down: nat)
    requires ListOk(l) && up < |l| - 1 && down < |l| - 1 && down != up
    ensures ListOk(DeleteBoth(l, up, down))
  {
    DeleteListOk(l, up);
    if down != up + 1 {
      DeleteListOk(Delete(l, up), if down <= up then down else down - 1);
    }
  }

  /** Freeing keeps the sentinel last, so deletion never reaches its tail branch. */
  lemma EnlistListOk(l: seq<Region>, rg: Region)
    requires ListOk(l)
    ensures ListOk(Enlist(l, rg))
  {
    if rg.start < rg.end {
      var up, down := LastStartingAt(l, rg.end), LastEndingAt(l, rg.start);
      UpIsProper(l, rg.end);
      UpIsProper(l, rg.start);
      if up < |l| && down < |l| {
        DeleteBothListOk(l, up, down);
        PushListOk(DeleteBoth(l, up, down), Region(l[down].start, l[up].end));
      } else if up == |l| && down == |l| {
        PushListOk(l, rg);
      }
    }
  }

  // ----- the address space of a process -----

  /** One vm area with its symbol table: sbrk, vm_end, the free list and the live regions by register. */
  datatype Space = Space(sbrk: nat, vmEnd: nat, free: seq<Region>, sym: seq<Region>)

  /** Pages that an allocation asks to have mapped: `count` pages from page number `first`. */
  datatype Growth = Growth(first: nat, count: nat)

  const INIT_SPACE := Space(0, 0, [SENTINEL], seq(SYMTBL_SIZE, _ => SENTINEL))

  function AllocIn(sp: Space, reg: nat, size: nat): (q: Space)
    requires reg < |sp.sym|
    ensures |q.sym| == |sp.sym|
  {
    var i := FirstFit(sp.free, size);
    if i < |sp.free| then
      var s := sp.free[i].start;
      sp.(sym := sp.sym[reg := Region(s, s + size)], free := TakeFrom(sp.free, i, size))
    else
      var grown := sp.(sbrk := sp.sbrk + size, sym := sp.sym[reg := Region(sp.sbrk, sp.sbrk + size)]);
      if NeedsGrowth(sp, size) then
        grown.(vmEnd := sp.vmEnd + PageAlign(size + sp.sbrk) - PageAlign(sp.sbrk))
      else grown
  }

  predicate NeedsGrowth(sp: Space, size: nat) {
    FirstFit(sp.free, size) == |sp.free| && (size + sp.sbrk > PageAlign(sp.sbrk) || sp.sbrk == sp.vmEnd)
  }

  function Growing(sp: Space, size: nat): Growth {
    if NeedsGrowth(sp, size) then
      Growth(sp.vmEnd / PAGE_SIZE, (PageAlign(size + sp.sbrk) - PageAlign(sp.sbrk)) / PAGE_SIZE)
    else Growth(sp.vmEnd / PAGE_SIZE, 0)
  }

  function FreeIn(sp: Space, reg: nat): (q: Space)
    requires reg < |sp.sym|
    ensures |q.sym| == |sp.sym|
  {
    sp.(free := Enlist(sp.free, sp.sym[reg]), sym := sp.sym[reg := SENTINEL])
  }

  /** Holds in every run, whatever registers are used. */
  ghost predicate Shape(sp: Space) {
    && ListOk(sp.free)
    && |sp.sym| == SYMTBL_SIZE
    && (forall r :: 0 <= r < |sp.sym| ==> sp.sym[r].start <= sp.sym[r].end)
    && sp.vmEnd == PageAlign(sp.sbrk)
  }

  /** Every address below sbrk is in exactly one live or free region, and no other address is in any. */
  ghost predicate Partition(sp: Space) {
    forall a: nat :: Count(sp.free, a) + Count(sp.sym, a) == if a < sp.sbrk then 1 else 0
  }

  lemma AllocShape(sp: Space, reg: nat, size: nat)
    requires Shape(sp) && reg < SYMTBL_SIZE
    ensures Shape(AllocIn(sp, reg, size))
  {
    if FirstFit(sp.free, size) < |sp.free| {
      TakeListOk(sp.free, size);
    }
  }

  lemma FreeShape(sp: Space, reg: nat)
    requires Shape(sp) && reg < SYMTBL_SIZE
    ensures Shape(FreeIn(sp, reg))
  {
    EnlistListOk(sp.free, sp.sym[reg]);
  }

  lemma AllocCount(sp: Space, reg: nat, size: nat, a: nat)
    requires Shape(sp) && reg < SYMTBL_SIZE
    ensures var q := AllocIn(sp, reg, size);
            Count(q.free, a) + Count(q.sym, a) ==
            Count(sp.free, a) + Count(sp.sym, a) - Ind(a, sp.sym[reg]) + (if sp.sbrk <= a < q.sbrk then 1 else 0)
  {
    var i := FirstFit(sp.free, size);
    if i < |sp.free| {
      var s := sp.free[i].start;
      TakeCount(sp.free, i, size, a);
      CountUpdate(sp.sym, reg, Region(s, s + size), a);
    } else {
      CountUpdate(sp.sym, reg, Region(sp.sbrk, sp.sbrk + size), a);
    }
  }

  /** An allocation keeps the partition exactly when its register holds no live region. */
  lemma AllocKeepsPartitionIff(sp: Space, reg: nat, size: nat)
    requires Shape(sp) && Partition(sp) && reg < SYMTBL_SIZE
    ensures Partition(AllocIn(sp, reg, size)) <==> sp.sym[reg].start == sp.sym[reg].end
  {
    var q := AllocIn(sp, reg, size);
    forall a: nat
      ensures Count(q.free, a) + Count(q.sym, a) == (if a < q.sbrk then 1 else 0) - Ind(a, sp.sym[reg])
    {
      AllocCount(sp, reg, size, a);
    }
    assert sp.sym[reg].start < sp.sym[reg].end ==> Ind(sp.sym[reg].start, sp.sym[reg]) == 1;
  }

  lemma FreeCount(sp: Space, reg: nat, a: nat)
    requires Shape(sp) && reg < SYMTBL_SIZE
    ensures var q := FreeIn(sp, reg);
            Count(q.free, a) + Count(q.sym, a) == Count(sp.free, a) + Count(sp.sym, a)
              + if BadOrder(sp.free, sp.sym[reg]) then Ind(a, sp.free[LastEndingAt(sp.free, sp.sym[reg].start)]) else 0
  {
    CountUpdate(sp.sym, reg, SENTINEL, a);
    if sp.sym[reg].start < sp.sym[reg].end {
      EnlistCount(sp.free, sp.sym[reg], a);
    }
  }

  /** A free keeps the partition exactly when it does not merge in the bad order. */
  lemma FreeKeepsPartitionIff(sp: Space, reg: nat)
    requires Shape(sp) && Partition(sp) && reg < SYMTBL_SIZE
    ensures Partition(FreeIn(sp, reg)) <==> !BadOrder(sp.free, sp.sym[reg])
  {
    var q := FreeIn(sp, reg);
    forall a: nat
      ensures Count(q.free, a) + Count(q.sym, a) == (if a < q.sbrk then 1 else 0)
                + if BadOrder(sp.free, sp.sym[reg]) then Ind(a, sp.free[LastEndingAt(sp.free, sp.sym[reg].start)]) else 0
    {
      FreeCount(sp, reg, a);
    }
    if BadOrder(sp.free, sp.sym[reg]) {
      UpIsProper(sp.free, sp.sym[reg].start);
      var lower := sp.free[LastEndingAt(sp.free, sp.sym[reg].start)];
      assert Ind(lower.start, lower) == 1;
    }
  }

  // ----- what a call does to the registers and the break -----

  /** An allocation gives its register a region of exactly the size asked for, and leaves every other register alone. With a
      fit it is the front of the first free node with room and the break stays; without one it starts at the break, which
      moves by the size. */
  lemma AllocExact(sp: Space, reg: nat, size: nat)
    requires Shape(sp) && reg < SYMTBL_SIZE
    ensures var q, i := AllocIn(sp, reg, size), FirstFit(sp.free, size);
            && q.sym[reg].end - q.sym[reg].start == size
            && (forall r :: 0 <= r < SYMTBL_SIZE && r != reg ==> q.sym[r] == sp.sym[r])
            && (if i < |sp.free| then q.sym[reg].start == sp.free[i].start && q.sbrk == sp.sbrk && q.vmEnd == sp.vmEnd
                else q.sym[reg].start == sp.sbrk && q.sbrk == sp.sbrk + size && q.free == sp.free)
  {
  }

  /** A free empties its register and leaves every other register and the break alone. */
  lemma FreeExact(sp: Space, reg: nat)
    requires Shape(sp) && reg < SYMTBL_SIZE
    ensures var q := FreeIn(sp, reg);
            && q.sym[reg] == Region(0, 0)
            && (forall r :: 0 <= r < SYMTBL_SIZE && r != reg ==> q.sym[r] == sp.sym[r])
            && q.sbrk == sp.sbrk && q.vmEnd == sp.vmEnd
  {
  }

  // ----- coalescing -----

  /** No listed region starts where another one ends. */
  ghost predicate Coalesced(l: seq<Region>) {
    forall i, j :: 0 <= i < |l| - 1 && 0 <= j < |l| - 1 ==> l[i].end != l[j].start
  }

  /** No address is listed twice. */
  ghost predicate Apart(l: seq<Region>) { forall a: nat :: Count(l, a) <= 1 }

  /** The walk finds the last node that starts at a, if there is one; */
  lemma {:induction false} NoneStarting(l: seq<Region>, a: nat)
    requires ListOk(l)
    ensures forall i :: 0 <= i < |l| - 1 && (LastStartingAt(l, a) == |l| || LastStartingAt(l, a) < i) ==> l[i].start != a
  {
    if |l| > 1 {
      assert l[0] != SENTINEL && ListOk(l[1..]);
      NoneStarting(l[1..], a);
      assert forall i :: 0 < i < |l| - 1 ==> l[i] == l[1..][i - 1];
    }
  }

  /** and the last that ends there. */
  lemma {:induction false} NoneEnding(l: seq<Region>, a: nat)
    requires ListOk(l)
    ensures forall i :: 0 <= i < |l| - 1 && (LastEndingAt(l, a) == |l| || LastEndingAt(l, a) < i) ==> l[i].end != a
  {
    if |l| > 1 {
      assert l[0] != SENTINEL && ListOk(l[1..]);
      NoneEnding(l[1..], a);
      assert forall i :: 0 < i < |l| - 1 ==> l[i] == l[1..][i - 1];
    }
  }

  /** Two different nodes share no address. */
  lemma NodesApart(l: seq<Region>, i: nat, j: nat, a: nat)
    requires Apart(l) && i < |l| && j < |l| && In(a, l[i]) && In(a, l[j])
    ensures i == j
  {
    if i != j {
      CountAtLeast(l, if i < j then i else j, if i < j then j else i, a);
    }
  }

  lemma DeleteMembers(l: seq<Region>, i: nat)
    requires i + 1 < |l|
    ensures |Delete(l, i)| == |l| - 1
    ensures forall j :: 0 <= j < |l| - 1 ==> Delete(l, i)[j] == if j < i then l[j] else l[j + 1]
  {
  }

  /** rg is a node of l, the sentinel apart. */
  ghost predicate Node(l: seq<Region>, rg: Region) { exists k :: 0 <= k < |l| - 1 && l[k] == rg }

  /** Deleting a node leaves the list coalesced. */
  lemma DeleteCoalesced(l: seq<Region>, i: nat)
    requires ListOk(l) && Coalesced(l) && i < |l| - 1
    ensures Coalesced(Delete(l, i)) && ListOk(Delete(l, i))
    ensures forall rg :: Node(Delete(l, i), rg) ==> Node(l, rg)
  {
    DeleteMembers(l, i);
    DeleteListOk(l, i);
    forall rg | Node(Delete(l, i), rg) ensures Node(l, rg) {
      var j :| 0 <= j < |Delete(l, i)| - 1 && Delete(l, i)[j] == rg;
      assert l[if j < i then j else j + 1] == rg;
    }
  }

  /** Putting a region in front, or in the place of a node, that meets no end. */
  lemma PushCoalesced(l: seq<Region>, rg: Region)
    requires |l| > 0 && Coalesced(l) && rg.start < rg.end
    requires forall i :: 0 <= i < |l| - 1 ==> l[i].end != rg.start && l[i].start != rg.end
    ensures Coalesced([rg] + l)
  {
  }

  lemma DeleteBothMembers(l: seq<Region>, up: nat, down: nat)
    requires ListOk(l) && Coalesced(l) && up < |l| - 1 && down < |l| - 1 && down != up
    ensures Coalesced(DeleteBoth(l, up, down)) && ListOk(DeleteBoth(l, up, down))
    ensures forall rg :: Node(DeleteBoth(l, up, down), rg) ==> Node(l, rg)
  {
    DeleteCoalesced(l, up);
    if down != up + 1 {
      var once := Delete(l, up);
      DeleteCoalesced(once, if down <= up then down else down - 1);
    }
  }

  /** Freeing keeps the list coalesced, in all four merge cases and in every list order. */
  lemma EnlistCoalesced(l: seq<Region>, rg: Region)
    requires ListOk(l) && Coalesced(l)
    ensures Coalesced(Enlist(l, rg))
  {
    if rg.start < rg.end {
      var up, down := LastStartingAt(l, rg.end), LastEndingAt(l, rg.start);
      UpIsProper(l, rg.end);
      UpIsProper(l, rg.start);
      if up == |l| {
        NoneStarting(l, rg.end);
      }
      if down == |l| {
        NoneEnding(l, rg.start);
      }
      if up < |l| && down < |l| {
        DeleteBothMembers(l, up, down);
        var b := DeleteBoth(l, up, down);
        forall i | 0 <= i < |b| - 1 ensures b[i].end != l[down].start && b[i].start != l[up].end {
          assert Node(b, b[i]) && Node(l, b[i]);
        }
        PushCoalesced(b, Region(l[down].start, l[up].end));
      } else if up == |l| && down == |l| {
        PushCoalesced(l, rg);
      }
    }
  }

  /** Freeing joins the region with its free neighbours: one node then holds the region and every listed region that ends where
      it starts or starts where it ends. */
  lemma EnlistJoins(l: seq<Region>, rg: Region) returns (i: nat)
    requires ListOk(l) && Apart(l) && rg.start < rg.end
    ensures i < |Enlist(l, rg)| && Enlist(l, rg)[i].start <= rg.start && rg.end <= Enlist(l, rg)[i].end
    ensures forall j :: 0 <= j < |l| - 1 && l[j].end == rg.start ==> Enlist(l, rg)[i].start <= l[j].start
    ensures forall j :: 0 <= j < |l| - 1 && l[j].start == rg.end ==> l[j].end <= Enlist(l, rg)[i].end
  {
    var up, down := LastStartingAt(l, rg.end), LastEndingAt(l, rg.start);
    UpIsProper(l, rg.end);
    UpIsProper(l, rg.start);
    if up == |l| {
      NoneStarting(l, rg.end);
    }
    if down == |l| {
      NoneEnding(l, rg.start);
    }
    i := if up < |l| && down < |l| then 0 else if up < |l| then up else if down < |l| then down else 0;
    forall j | 0 <= j < |l| - 1 && l[j].end == rg.start ensures down < |l| && j == down {
      NodesApart(l, j, down, rg.start - 1);
    }
    forall j | 0 <= j < |l| - 1 && l[j].start == rg.end ensures up < |l| && j == up {
      NodesApart(l, j, up, rg.end);
    }
  }

  lemma DeleteBothIs(l: seq<Region>, up: nat, down: nat)
    requires up < |l| - 1 && down < |l| - 1 && down != up && down != up + 1
    ensures var lo, hi := if up < down then up else down, if up < down then down else up;
            DeleteBoth(l, up, down) == l[..lo] + l[lo + 1..hi] + l[hi + 1..]
  {
    var once := Delete(l, up);
    if up < down {
      assert once[..down - 1] == l[..up] + l[up + 1..down] && once[down..] == l[down + 1..];
    } else {
      assert once[..down] == l[..down] && once[down + 1..] == l[down + 1..up] + l[up + 1..];
    }
  }

  /** l with the node at i, if any, replaced. */
  function Replaced(l: seq<Region>, i: nat, rg: Region): seq<Region>
    requires i < |l|
  {
    l[..i] + [rg] + l[i + 1..]
  }

  lemma ReplacedIs(l: seq<Region>, i: nat, rg: Region)
    requires i < |l|
    ensures l[i := rg] == Replaced(l, i, rg)
  {
  }

  /** Where the joined region goes and what else changes: it takes its one neighbour's place, every other node staying where it
      is; without a neighbour, or in place of two, it goes in front, the other nodes keeping their order. */
  lemma EnlistPlace(l: seq<Region>, rg: Region, up: nat, down: nat)
    requires ListOk(l) && rg.start < rg.end && !BadOrder(l, rg)
    requires up == LastStartingAt(l, rg.end) && down == LastEndingAt(l, rg.start)
    ensures up == |l| && down == |l| ==> Enlist(l, rg) == [rg] + l
    ensures up < |l| && down == |l| ==> Enlist(l, rg) == Replaced(l, up, Region(rg.start, l[up].end))
    ensures up == |l| && down < |l| ==> Enlist(l, rg) == Replaced(l, down, Region(l[down].start, rg.end))
    ensures up < |l| && down < |l| ==>
              var lo, hi := if up < down then up else down, if up < down then down else up;
              lo < hi && Enlist(l, rg) == [Region(l[down].start, l[up].end)] + (l[..lo] + l[lo + 1..hi] + l[hi + 1..])
  {
    UpIsProper(l, rg.end);
    UpIsProper(l, rg.start);
    if up < |l| && down < |l| {
      DeleteBothIs(l, up, down);
    } else if up < |l| {
      ReplacedIs(l, up, Region(rg.start, l[up].end));
    } else if down < |l| {
      ReplacedIs(l, down, Region(l[down].start, rg.end));
    }
  }

  /** First fit leaves every node it does not take from in its place. */
  lemma TakePlace(l: seq<Region>, size: nat)
    requires ListOk(l) && FirstFit(l, size) < |l|
    ensures var i := FirstFit(l, size);
            TakeFrom(l, i, size) ==
            if l[i].start + size < l[i].end then l[..i] + [Region(l[i].start + size, l[i].end)] + l[i + 1..]
            else if i + 1 < |l| then l[..i] + l[i + 1..]
            else l
  {
  }

  /** First fit keeps the list coalesced. */
  lemma TakeCoalesced(l: seq<Region>, i: nat, size: nat)
    requires ListOk(l) && Coalesced(l) && Apart(l) && i < |l| - 1 && l[i].start + size <= l[i].end
    ensures Coalesced(TakeFrom(l, i, size))
  {
    if l[i].start + size < l[i].end {
      forall j | 0 <= j < |l| - 1 && j != i ensures l[j].end != l[i].start + size {
        if l[j].end == l[i].start + size && size > 0 {
          NodesApart(l, i, j, l[j].end - 1);
        }
      }
    } else {
      DeleteCoalesced(l, i);
    }
  }

  /** The n addresses from a on are all in the list. */
  ghost predicate AllListed(l: seq<Region>, a: nat, n: nat) { forall b :: a <= b < a + n ==> Count(l, b) > 0 }

  /** In a coalesced list consecutive free addresses lie in one node. */
  lemma {:induction false} OneNode(l: seq<Region>, a: nat, n: nat) returns (i: nat)
    requires ListOk(l) && Coalesced(l) && Apart(l) && n > 0
    requires AllListed(l, a, n)
    ensures i < |l| && l[i].start <= a && a + n <= l[i].end
  {
    CountFinds(l, a + n - 1);
    var j :| 0 <= j < |l| && In(a + n - 1, l[j]);
    if n == 1 {
      i := j;
    } else {
      i := OneNode(l, a, n - 1);
      if j != i {
        if l[j].start <= a + n - 2 {
          NodesApart(l, i, j, a + n - 2);
        } else if a + n - 1 < l[i].end {
          NodesApart(l, i, j, a + n - 1);
        }
      }
    }
  }

  /** So first fit finds room exactly when there is room: `size` consecutive free addresses. */
  lemma FitIff(l: seq<Region>, size: nat)
    requires ListOk(l) && Coalesced(l) && Apart(l) && size > 0
    ensures FirstFit(l, size) < |l| <==> exists a: nat :: AllListed(l, a, size)
  {
    var k := FirstFit(l, size);
    if k < |l| {
      var a := l[k].start;
      forall b | a <= b < a + size ensures Count(l, b) > 0 {
        CountSplit(l, k, b);
      }
      assert AllListed(l, a, size);
    }
    if a: nat :| AllListed(l, a, size) {
      var i := OneNode(l, a, size);
      assert l[i].start + size <= l[i].end;
    }
  }

  // ----- runs -----

  datatype SpaceOp = AllocRegion(reg: nat, size: nat) | FreeRegion(reg: nat)

  function SpaceStep(sp: Space, op: SpaceOp): Space
    requires op.reg < |sp.sym|
  {
    match op
    case AllocRegion(reg, size) => AllocIn(sp, reg, size)
    case FreeRegion(reg) => FreeIn(sp, reg)
  }

  ghost predicate OpsOk(ops: seq<SpaceOp>) {
    forall i :: 0 <= i < |ops| ==> ops[i].reg < SYMTBL_SIZE
  }

  lemma StepShape(sp: Space, op: SpaceOp)
    requires Shape(sp) && op.reg < SYMTBL_SIZE
    ensures Shape(SpaceStep(sp, op))
  {
    match op
    case AllocRegion(reg, size) => AllocShape(sp, reg, size);
    case FreeRegion(reg) => FreeShape(sp, reg);
  }

  /** The space after ops. */
  ghost function SpaceRun(sp: Space, ops: seq<SpaceOp>): (r: Space)
    requires Shape(sp) && OpsOk(ops)
    ensures Shape(r)
    decreases |ops|
  {
    if ops == [] then sp
    else
      StepShape(sp, ops[0]);
      assert OpsOk(ops[1..]) by { assert forall i :: 0 <= i < |ops| - 1 ==> ops[1..][i] == ops[i + 1]; }
      SpaceRun(SpaceStep(sp, ops[0]), ops[1..])
  }

  /** The call the code gets right: allocate into an empty register, free without the bad merge order. */
  predicate Proper(sp: Space, op: SpaceOp)
    requires op.reg < |sp.sym|
  {
    match op
    case AllocRegion(reg, _) => sp.sym[reg].start == sp.sym[reg].end
    case FreeRegion(reg) => !BadOrder(sp.free, sp.sym[reg])
  }

  lemma StepPartitionIff(sp: Space, op: SpaceOp)
    requires Shape(sp) && Partition(sp) && op.reg < SYMTBL_SIZE
    ensures Partition(SpaceStep(sp, op)) <==> Proper(sp, op)
  {
    match op
    case AllocRegion(reg, size) => AllocKeepsPartitionIff(sp, reg, size);
    case FreeRegion(reg) => FreeKeepsPartitionIff(sp, reg);
  }

  /** Every call of the run is proper in the state it meets. */
  ghost predicate ProperRun(sp: Space, ops: seq<SpaceOp>)
    requires Shape(sp) && OpsOk(ops)
    decreases |ops|
  {
    ops == [] ||
    (StepShape(sp, ops[0]); Proper(sp, ops[0]) && ProperRun(SpaceStep(sp, ops[0]), ops[1..]))
  }

  /** Every space the run passes through is partitioned. */
  ghost predicate AlwaysPartition(sp: Space, ops: seq<SpaceOp>)
    requires Shape(sp) && OpsOk(ops)
    decreases |ops|
  {
    Partition(sp) &&
    (ops == [] || (StepShape(sp, ops[0]); AlwaysPartition(SpaceStep(sp, ops[0]), ops[1..])))
  }

  /** Over any run of allocations and frees, live and free regions partition [0, sbrk) at every point
      exactly when every call of the run is proper. */
  lemma {:induction false} RunPartitionIff(sp: Space, ops: seq<SpaceOp>)
    requires Shape(sp) && Partition(sp) && OpsOk(ops)
    ensures AlwaysPartition(sp, ops) <==> ProperRun(sp, ops)
    decreases |ops|
  {
    if ops != [] {
      StepShape(sp, ops[0]);
      StepPartitionIff(sp, ops[0]);
      if Proper(sp, ops[0]) {
        RunPartitionIff(SpaceStep(sp, ops[0]), ops[1..]);
      } else {
        var next := SpaceStep(sp, ops[0]);
        assert !AlwaysPartition(next, ops[1..]);
      }
    }
  }

  lemma PartitionApart(sp: Space)
    requires Partition(sp)
    ensures Apart(sp.free)
  {
    forall a: nat ensures Count(sp.free, a) <= 1 {
      assert Count(sp.free, a) + Count(sp.sym, a) <= 1;
    }
  }

  lemma StepCoalesced(sp: Space, op: SpaceOp)
    requires Shape(sp) && Partition(sp) && Coalesced(sp.free) && op.reg < SYMTBL_SIZE
    ensures Coalesced(SpaceStep(sp, op).free)
  {
    PartitionApart(sp);
    if op.FreeRegion? {
      EnlistCoalesced(sp.free, sp.sym[op.reg]);
    } else {
      var i := FirstFit(sp.free, op.size);
      if i < |sp.free| {
        if i < |sp.free| - 1 {
          TakeCoalesced(sp.free, i, op.size);
        }
      }
    }
  }

  /** Over any proper run the free list is coalesced, so an allocation moves the break only when no gap of its size is free. */
  lemma {:induction false} RunCoalesced(sp: Space, ops: seq<SpaceOp>)
    requires Shape(sp) && Partition(sp) && OpsOk(ops) && ProperRun(sp, ops) && Coalesced(sp.free)
    ensures Partition(SpaceRun(sp, ops)) && Coalesced(SpaceRun(sp, ops).free)
    decreases |ops|
  {
    if ops != [] {
      StepShape(sp, ops[0]);
      StepPartitionIff(sp, ops[0]);
      StepCoalesced(sp, ops[0]);
      RunCoalesced(SpaceStep(sp, ops[0]), ops[1..]);
    }
  }

  /** How far a run moves the break: by the sizes of the allocations that find no node with room. */
  ghost function Grown(sp: Space, ops: seq<SpaceOp>): nat
    requires Shape(sp) && OpsOk(ops)
    decreases |ops|
  {
    if ops == [] then 0
    else
      StepShape(sp, ops[0]);
      var fits := exists i :: 0 <= i < |sp.free| && ops[0].AllocRegion? && sp.free[i].start + ops[0].size <= sp.free[i].end;
      (if ops[0].AllocRegion? && !fits then ops[0].size else 0) + Grown(SpaceStep(sp, ops[0]), ops[1..])
  }

  lemma {:induction false} BreakIsSum(sp: Space, ops: seq<SpaceOp>)
    requires Shape(sp) && OpsOk(ops)
    ensures SpaceRun(sp, ops).sbrk == sp.sbrk + Grown(sp, ops)
    decreases |ops|
  {
    if ops != [] {
      StepShape(sp, ops[0]);
      if ops[0].AllocRegion? {
        AllocExact(sp, ops[0].reg, ops[0].size);
      } else {
        FreeExact(sp, ops[0].reg);
      }
      BreakIsSum(SpaceStep(sp, ops[0]), ops[1..]);
    }
  }

  /** What the last call on register r asked for: nothing, a size, or that it be empty. */
  datatype Asked = Untouched | Sized(size: nat) | Emptied

  function LastAsked(ops: seq<SpaceOp>, r: nat): Asked {
    if ops == [] then Untouched
    else
      var n := |ops| - 1;
      if ops[n].reg != r then LastAsked(ops[..n], r)
      else if ops[n].AllocRegion? then Sized(ops[n].size)
      else Emptied
  }

  lemma {:induction false} LastAskedFirst(op: SpaceOp, ops: seq<SpaceOp>, r: nat)
    ensures LastAsked([op] + ops, r) ==
            if LastAsked(ops, r) != Untouched then LastAsked(ops, r)
            else if op.reg != r then Untouched
            else if op.AllocRegion? then Sized(op.size) else Emptied
    decreases |ops|
  {
    if ops == [] {
      assert ([op] + ops)[..0] == [];
    } else {
      var n := |ops| - 1;
      assert ([op] + ops)[..n + 1] == [op] + ops[..n] && ([op] + ops)[n + 1] == ops[n];
      LastAskedFirst(op, ops[..n], r);
    }
  }

  /** Over any run a register holds what the last call on it asked for. */
  lemma {:induction false} RegistersKept(sp: Space, ops: seq<SpaceOp>, r: nat)
    requires Shape(sp) && OpsOk(ops) && r < SYMTBL_SIZE
    ensures var rg := SpaceRun(sp, ops).sym[r];
            match LastAsked(ops, r)
            case Untouched => rg == sp.sym[r]
            case Sized(size) => rg.end - rg.start == size
            case Emptied => rg == Region(0, 0)
    decreases |ops|
  {
    if ops != [] {
      StepShape(sp, ops[0]);
      RegistersKept(SpaceStep(sp, ops[0]), ops[1..], r);
      LastAskedFirst(ops[0], ops[1..], r);
      assert [ops[0]] + ops[1..] == ops;
      if ops[0].AllocRegion? {
        AllocExact(sp, ops[0].reg, ops[0].size);
      } else {
        FreeExact(sp, ops[0].reg);
      }
    }
  }

  lemma InitPartition()
    ensures Shape(INIT_SPACE) && Partition(INIT_SPACE)
  {
    forall a: nat ensures Count(INIT_SPACE.sym, a) == 0 {
      EmptyCount(INIT_SPACE.sym, a);
    }
  }

  lemma {:induction false} EmptyCount(l: seq<Region>, a: nat)
    requires forall i :: 0 <= i < |l| ==> l[i] == SENTINEL
    ensures Count(l, a) == 0
  {
    if l != [] {
      EmptyCount(l[1..], a);
    }
  }

  lemma {:induction false} CountAtLeast(l: seq<Region>, i: nat, j: nat, a: nat)
    requires i < j < |l| && In(a, l[i]) && In(a, l[j])
    ensures Count(l, a) >= 2
  {
    CountSplit(l, i, a);
    CountSplit(l[i + 1..], j - i - 1, a);
  }

  /** In a partitioned space no two registers share an address, and no live address is free. */
  lemma LiveRegionsDisjoint(sp: Space, r: nat, s: nat, a: nat)
    requires Partition(sp) && r < |sp.sym| && s < |sp.sym| && r != s && In(a, sp.sym[r])
    ensures !In(a, sp.sym[s])
    ensures forall i :: 0 <= i < |sp.free| ==> !In(a, sp.free[i])
  {
    if In(a, sp.sym[s]) {
      CountAtLeast(sp.sym, if r < s then r else s, if r < s then s else r, a);
    }
    CountSplit(sp.sym, r, a);
    forall i | 0 <= i < |sp.free| ensures !In(a, sp.free[i]) {
      CountSplit(sp.free, i, a);
    }
  }

  lemma ThreeNeighbours() returns (s: Space)
    ensures s == AllocIn(AllocIn(AllocIn(INIT_SPACE, 0, 100), 1, 100), 2, 100)
    ensures s.free == [SENTINEL] && |s.sym| == SYMTBL_SIZE
    ensures s.sym[0] == Region(0, 100) && s.sym[1] == Region(100, 200) && s.sym[2] == Region(200, 300)
    ensures forall r :: 3 <= r < SYMTBL_SIZE ==> s.sym[r] == SENTINEL
  {
    var s1 := AllocIn(INIT_SPACE, 0, 100);
    assert s1.sbrk == 100 && s1.vmEnd == 256 && s1.free == [SENTINEL];
    var s2 := AllocIn(s1, 1, 100);
    assert s2.sbrk == 200 && s2.vmEnd == 256 && s2.free == [SENTINEL];
    s := AllocIn(s2, 2, 100);
  }

  lemma FreedTwice(s3: Space) returns (s: Space)
    requires s3.free == [SENTINEL] && |s3.sym| == SYMTBL_SIZE
    requires s3.sym[0] == Region(0, 100) && s3.sym[1] == Region(100, 200) && s3.sym[2] == Region(200, 300)
    ensures s == FreeIn(FreeIn(FreeIn(s3, 0), 2), 1)
    ensures s.free == [Region(0, 300), Region(0, 100), SENTINEL] && |s.sym| == SYMTBL_SIZE
  {
    var s4 := FreeIn(s3, 0);
    assert s4.free == [Region(0, 100), SENTINEL];
    var s5 := FreeIn(s4, 2);
    assert s5.free == [Region(200, 300), Region(0, 100), SENTINEL];
    assert BadOrder(s5.free, s5.sym[1]);
    s := FreeIn(s5, 1);
  }

  lemma SharedBytes(s6: Space) returns (s: Space)
    requires s6.free == [Region(0, 300), Region(0, 100), SENTINEL] && |s6.sym| == SYMTBL_SIZE
    ensures s == AllocIn(AllocIn(s6, 3, 300), 4, 100)
    ensures s.sym[3] == Region(0, 300) && s.sym[4] == Region(0, 100)
  {
    var s7 := AllocIn(s6, 3, 300);
    assert s7.free == [Region(0, 100), SENTINEL] && s7.sym[3] == Region(0, 300);
    s := AllocIn(s7, 4, 100);
  }

  /** The bad order is an ordinary history: allocate three neighbours, free the first, the last, then the
      middle one. The first region is then free twice, and the next two allocations share its bytes. */
  lemma BadOrderReachable() returns (s3: Space, s6: Space, s8: Space)
    ensures s3 == AllocIn(AllocIn(AllocIn(INIT_SPACE, 0, 100), 1, 100), 2, 100)
    ensures s6 == FreeIn(FreeIn(FreeIn(s3, 0), 2), 1)
    ensures s8 == AllocIn(AllocIn(s6, 3, 300), 4, 100)
    ensures s8.sym[3] == Region(0, 300) && s8.sym[4] == Region(0, 100)
  {
    s3 := ThreeNeighbours();
    s6 := FreedTwice(s3);
    s8 := SharedBytes(s6);
  }

  /** An occupied register is an ordinary history too: two allocations into register 0. The bytes of the first region are
      then below sbrk and in no region, live or free, so no call can ever return them. */
  lemma OccupiedRegisterLoses() returns (s: Space)
    ensures s == AllocIn(AllocIn(INIT_SPACE, 0, 100), 0, 100)
    ensures s.sym[0] == Region(100, 200) && s.sbrk == 200 && !Partition(s)
    ensures forall a: nat :: a < 100 ==> Count(s.free, a) + Count(s.sym, a) == 0
  {
    var s1 := AllocIn(INIT_SPACE, 0, 100);
    assert s1.sbrk == 100 && s1.vmEnd == 256 && s1.free == [SENTINEL];
    s := AllocIn(s1, 0, 100);
    InitPartition();
    AllocShape(INIT_SPACE, 0, 100);
    forall a: nat | a < 100 ensures Count(s.free, a) + Count(s.sym, a) == 0 {
      AllocCount(INIT_SPACE, 0, 100, a);
      AllocCount(s1, 0, 100, a);
      assert Ind(a, s1.sym[0]) == 1;
    }
    assert Count(s.free, 0) + Count(s.sym, 0) == 0;
  }

  // ----- the bound test of pgread and pgwrite -----

  /** The offsets that pgread and pgwrite let through: the size of the region is a signed word, converted to unsigned for the
      comparison with the unsigned offset. */
  predicate Admitted(sp: Space, r: nat, off: nat)
    requires r < |sp.sym|
  {
    off <= (sp.sym[r].end - sp.sym[r].start) % Bits.WORD
  }

  lemma LiveBelowBreak(sp: Space, r: nat)
    requires Partition(sp) && r < |sp.sym| && sp.sym[r].start < sp.sym[r].end
    ensures sp.sym[r].end <= sp.sbrk
  {
    CountSplit(sp.sym, r, sp.sym[r].end - 1);
  }

  /** On a heap of 32-bit addresses the words lose nothing: an offset is admitted exactly when it is at most the size. */
  lemma AdmittedIff(sp: Space, r: nat, off: nat)
    requires Shape(sp) && Partition(sp) && sp.sbrk < Bits.WORD && r < |sp.sym|
    ensures Admitted(sp, r, off) <==> sp.sym[r].start + off <= sp.sym[r].end
  {
    if sp.sym[r].start < sp.sym[r].end {
      LiveBelowBreak(sp, r);
    }
  }

  ghost predicate InLive(sp: Space, a: nat) { exists s :: 0 <= s < |sp.sym| && In(a, sp.sym[s]) }

  ghost predicate InFree(sp: Space, a: nat) { exists i :: 0 <= i < |sp.free| && In(a, sp.free[i]) }

  lemma {:induction false} CountFinds(l: seq<Region>, a: nat)
    ensures Count(l, a) > 0 <==> exists i :: 0 <= i < |l| && In(a, l[i])
  {
    if l != [] {
      CountFinds(l[1..], a);
      if i :| 0 <= i < |l| && In(a, l[i]) {
        assert i > 0 ==> l[1..][i - 1] == l[i];
      }
      if i :| 0 <= i < |l| - 1 && In(a, l[1..][i]) {
        assert l[i + 1] == l[1..][i];
      }
    }
  }

  /** Every address is live, free or at or above sbrk: exactly one of the three. */
  lemma OneOfThree(sp: Space, a: nat)
    requires Partition(sp)
    ensures InLive(sp, a) ==> !InFree(sp, a) && a < sp.sbrk
    ensures InFree(sp, a) ==> a < sp.sbrk
    ensures a < sp.sbrk ==> InLive(sp, a) || InFree(sp, a)
  {
    CountFinds(sp.sym, a);
    CountFinds(sp.free, a);
  }

  /** What an admitted access to a live region reaches: with an offset below the size, a byte of this region and of no other;
      with an offset equal to the size, the first byte of the live or free region that starts there, or the break itself. */
  lemma AdmittedReaches(sp: Space, r: nat, off: nat)
    requires Shape(sp) && Partition(sp) && sp.sbrk < Bits.WORD && r < |sp.sym|
    requires sp.sym[r].start < sp.sym[r].end && Admitted(sp, r, off)
    ensures var size, a := sp.sym[r].end - sp.sym[r].start, sp.sym[r].start + off;
            if off < size then
              && (forall s :: 0 <= s < |sp.sym| ==> (In(a, sp.sym[s]) <==> s == r))
              && (forall i :: 0 <= i < |sp.free| ==> !In(a, sp.free[i]))
            else
              && off == size && a <= sp.sbrk
              && (a == sp.sbrk <==> !InLive(sp, a) && !InFree(sp, a))
              && (forall s :: 0 <= s < |sp.sym| && In(a, sp.sym[s]) ==> s != r && sp.sym[s].start == a)
              && (forall i :: 0 <= i < |sp.free| && In(a, sp.free[i]) ==> sp.free[i].start == a)
  {
    var size, a := sp.sym[r].end - sp.sym[r].start, sp.sym[r].start + off;
    AdmittedIff(sp, r, off);
    LiveBelowBreak(sp, r);
    OneOfThree(sp, a);
    var last := if off < size then a else a - 1;
    forall s | 0 <= s < |sp.sym| && s != r ensures !In(last, sp.sym[s]) {
      LiveRegionsDisjoint(sp, r, s, last);
    }
    CountSplit(sp.sym, r, last);
    forall i | 0 <= i < |sp.free| ensures !In(last, sp.free[i]) {
      CountSplit(sp.free, i, last);
    }
  }

  /** A register without a region lets offset 0 through: the access is to address 0, whoever has it. */
  lemma EmptyRegisterAdmits(sp: Space, r: nat, off: nat)
    requires r < |sp.sym| && sp.sym[r] == SENTINEL
    ensures Admitted(sp, r, off) <==> off == 0
  {
  }

  /** One past the end is admitted, and with two neighbouring regions it is the neighbour's first byte. A register never
      allocated reaches the first byte of the first region. */
  lemma OnePastTheEnd() returns (s: Space)
    ensures s == AllocIn(AllocIn(AllocIn(INIT_SPACE, 0, 100), 1, 100), 2, 100)
    ensures Admitted(s, 0, 100) && In(s.sym[0].start + 100, s.sym[1])
    ensures Admitted(s, 5, 0) && s.sym[5] == SENTINEL && In(s.sym[5].start, s.sym[0])
  {
    s := ThreeNeighbours();
  }

  // ----- the break pointer -----

  /** The branch that leaves vm_end alone never needs a new page, and the other one asks for exactly the
      pages between the old and the new page-aligned break. */
  lemma GrowthExact(sp: Space, reg: nat, size: nat)
    requires Shape(sp) && reg < SYMTBL_SIZE
    ensures var q, g := AllocIn(sp, reg, size), Growing(sp, size);
            && q.vmEnd == PageAlign(q.sbrk)
            && g.first * PAGE_SIZE == sp.vmEnd
            && (g.first + g.count) * PAGE_SIZE == q.vmEnd
            && (NeedsGrowth(sp, size) <==> g.count > 0)
            && (g.count > 0 <==> FirstFit(sp.free, size) == |sp.free| && q.sbrk > sp.vmEnd)
  {
  }
}

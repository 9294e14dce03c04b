/** The paging engine on values (src/mm.c, src/mm-vm.c, src/mm-memphy.c): one RAM device and one swap device
    shared by any number of processes, each with its own page table. */
module Paging {
  import opened PageEntry
  import opened Regions

  type Byte = b: int | -128 <= b < 128

  /** The bytes of one frame. */
  type Page = p: seq<Byte> | |p| == PAGE_SIZE witness seq(PAGE_SIZE, _ => 0)

  /** A storage device: its frames and its free and used frame lists, head first. */
  datatype Device = Device(frames: seq<Page>, free: seq<nat>, used: seq<nat>)

  /** The memory of one process: page table, page list for replacement, address space. */
  datatype Mm = Mm(pgd: seq<Entry>, fifo: seq<nat>, space: Space)

  datatype Machine = Machine(ram: Device, swp: Device, mms: seq<Mm>)

  // ----- what the tables mean -----

  predicate IsPage(m: Machine, p: nat, g: nat) {
    p < |m.mms| && |m.mms[p].pgd| == MAX_PGN && g < MAX_PGN
  }

  function EntryOf(m: Machine, p: nat, g: nat): Entry
    requires IsPage(m, p, g)
  {
    m.mms[p].pgd[g]
  }

  predicate Stored(m: Machine, e: Entry) {
    match e
    case Unmapped => false
    case Resident(f) => f < |m.ram.frames|
    case Swapped(o) => o < |m.swp.frames|
  }

  function Contents(m: Machine, e: Entry): Page
    requires Stored(m, e)
  {
    if e.Resident? then m.ram.frames[e.fpn] else m.swp.frames[e.swp]
  }

  predicate HasPage(m: Machine, p: nat, g: nat) {
    IsPage(m, p, g) && Stored(m, EntryOf(m, p, g))
  }

  /** The bytes of page g of process p, wherever they are kept. */
  function PageOf(m: Machine, p: nat, g: nat): Page
    requires HasPage(m, p, g)
  {
    Contents(m, EntryOf(m, p, g))
  }

  // ----- invariant -----

  /** The free list names each frame at most once, and only frames of the device. */
  ghost predicate FreeOk(d: Device) {
    && (forall i, j :: 0 <= i < j < |d.free| ==> d.free[i] != d.free[j])
    && (forall i :: 0 <= i < |d.free| ==> d.free[i] < |d.frames|)
  }

  /** Free and used lists together name every frame of the device exactly once. */
  ghost predicate Conserved(d: Device) {
    forall f: nat :: multiset(d.free)[f] + multiset(d.used)[f] == if f < |d.frames| then 1 else 0
  }

  ghost predicate MmOk(mm: Mm) {
    && |mm.pgd| == MAX_PGN
    && (forall i :: 0 <= i < |mm.fifo| ==> mm.fifo[i] < MAX_PGN)
    && Shape(mm.space)
    && mm.space.vmEnd < MAX_PGN * PAGE_SIZE
  }

  predicate IsFree(m: Machine, e: Entry) {
    match e
    case Unmapped => false
    case Resident(f) => f in m.ram.free
    case Swapped(o) => o in m.swp.free
  }

  /** Every mapped entry names a frame of its device that is not free. */
  ghost predicate Located(m: Machine) {
    forall p: nat, g: nat {:trigger EntryOf(m, p, g)} :: IsPage(m, p, g) && EntryOf(m, p, g) != Unmapped ==>
      Stored(m, EntryOf(m, p, g)) && !IsFree(m, EntryOf(m, p, g))
  }

  /** No two entries, of one process or of two, name the same frame. */
  ghost predicate Unshared(m: Machine) {
    forall p: nat, g: nat, q: nat, h: nat {:trigger EntryOf(m, p, g), EntryOf(m, q, h)} ::
      IsPage(m, p, g) && IsPage(m, q, h) && EntryOf(m, p, g) != Unmapped && EntryOf(m, p, g) == EntryOf(m, q, h)
      ==> p == q && g == h
  }

  ghost predicate Inv(m: Machine) {
    && Conserved(m.ram) && FreeOk(m.swp)
    && (forall p :: 0 <= p < |m.mms| ==> MmOk(m.mms[p]))
    && Located(m) && Unshared(m)
  }

  // ----- victims and faults -----

  /** find_victim_page: the first listed page that is resident, or |fifo|. */
  function Victim(pgd: seq<Entry>, fifo: seq<nat>): (i: nat)
    ensures i <= |fifo|
    ensures i < |fifo| ==> fifo[i] < |pgd| && pgd[fifo[i]].Resident?
    ensures forall j :: 0 <= j < i ==> fifo[j] < |pgd| ==> !pgd[fifo[j]].Resident?
  {
    if fifo == [] then 0
    else if fifo[0] < |pgd| && pgd[fifo[0]].Resident? then 0
    else 1 + Victim(pgd, fifo[1..])
  }

  predicate HasVictim(m: Machine, p: nat)
    requires p < |m.mms|
  {
    Victim(m.mms[p].pgd, m.mms[p].fifo) < |m.mms[p].fifo|
  }

  function VictimOf(m: Machine, p: nat): nat
    requires p < |m.mms| && HasVictim(m, p)
  {
    m.mms[p].fifo[Victim(m.mms[p].pgd, m.mms[p].fifo)]
  }

  predicate Resides(m: Machine, p: nat, g: nat) {
    IsPage(m, p, g) && EntryOf(m, p, g).Resident?
  }

  /** The swap frame a fault copies from: PAGING_SWP of the entry, which is 0 for an entry never set. */
  function SwapSource(e: Entry): nat {
    match e
    case Swapped(o) => o
    case _ => 0
  }

  /** A fault can be served: there is a victim, a free swap frame, and the frames involved exist. */
  predicate CanFault(m: Machine, p: nat, g: nat) {
    && IsPage(m, p, g) && !EntryOf(m, p, g).Resident?
    && HasVictim(m, p) && |m.swp.free| > 0
    && EntryOf(m, p, VictimOf(m, p)).fpn < |m.ram.frames|
    && m.swp.free[0] < |m.swp.frames|
    && SwapSource(EntryOf(m, p, g)) < |m.swp.frames|
  }

  /** The fault path of pg_getpage: copy the victim out to a free swap frame, copy the target in over it,
      update both entries, enlist the page. */
  function Fault(m: Machine, p: nat, g: nat): Machine
    requires CanFault(m, p, g)
  {
    var mm := m.mms[p];
    var vic := VictimOf(m, p);
    var vicfpn := mm.pgd[vic].fpn;
    var swpfpn := m.swp.free[0];
    var swpFrames := m.swp.frames[swpfpn := m.ram.frames[vicfpn]];
    var ramFrames := m.ram.frames[vicfpn := swpFrames[SwapSource(mm.pgd[g])]];
    Machine(
      m.ram.(frames := ramFrames),
      m.swp.(frames := swpFrames, free := m.swp.free[1..]),
      m.mms[p := mm.(pgd := mm.pgd[vic := Swapped(swpfpn)][g := Resident(vicfpn)], fifo := [g] + mm.fifo)])
  }

  /** The entry of any page after a fault. */
  lemma FaultEntries(m: Machine, p: nat, g: nat, q: nat, h: nat)
    requires CanFault(m, p, g) && IsPage(m, q, h)
    ensures IsPage(Fault(m, p, g), q, h)
    ensures EntryOf(Fault(m, p, g), q, h) ==
            if q == p && h == g then EntryOf(m, p, VictimOf(m, p))
            else if q == p && h == VictimOf(m, p) then Swapped(m.swp.free[0])
            else EntryOf(m, q, h)
  {
  }

  lemma HeadIsFree(d: Device)
    requires FreeOk(d) && |d.free| > 0
    ensures d.free[0] < |d.frames| && d.free[0] !in d.free[1..]
    ensures forall f :: f in d.free[1..] ==> f in d.free
    ensures FreeOk(d.(free := d.free[1..]))
  {
  }

  /** In a sound machine a fault needs only a victim and a free swap frame. */
  lemma CanFaultIff(m: Machine, p: nat, g: nat)
    requires Inv(m) && IsPage(m, p, g)
    ensures CanFault(m, p, g) <==> !EntryOf(m, p, g).Resident? && HasVictim(m, p) && |m.swp.free| > 0
  {
    if !EntryOf(m, p, g).Resident? && HasVictim(m, p) && |m.swp.free| > 0 {
      HeadIsFree(m.swp);
      var e := EntryOf(m, p, VictimOf(m, p));
      assert Stored(m, e);
    }
  }

  /** A fault leaves the bytes of every page of every process as they were. */
  lemma FaultKeepsPage(m: Machine, p: nat, g: nat, q: nat, h: nat)
    requires Inv(m) && CanFault(m, p, g) && HasPage(m, q, h)
    ensures HasPage(Fault(m, p, g), q, h) && PageOf(Fault(m, p, g), q, h) == PageOf(m, q, h)
  {
    FaultEntries(m, p, g, q, h);
    HeadIsFree(m.swp);
    var vic := VictimOf(m, p);
    assert EntryOf(m, p, vic) == m.mms[p].pgd[vic];
    assert EntryOf(m, q, h) != Unmapped && !IsFree(m, EntryOf(m, q, h));
  }

  lemma FaultLocated(m: Machine, p: nat, g: nat)
    requires Inv(m) && CanFault(m, p, g)
    ensures Located(Fault(m, p, g)) && Unshared(Fault(m, p, g))
  {
    var m' := Fault(m, p, g);
    HeadIsFree(m.swp);
    var vic := VictimOf(m, p);
    assert EntryOf(m, p, vic).Resident?;
    forall q: nat, h: nat | IsPage(m', q, h) && EntryOf(m', q, h) != Unmapped
      ensures Stored(m', EntryOf(m', q, h)) && !IsFree(m', EntryOf(m', q, h))
    {
      FaultEntries(m, p, g, q, h);
      assert EntryOf(m, q, h) == EntryOf(m, q, h);
    }
    forall q: nat, h: nat, r: nat, k: nat | IsPage(m', q, h) && IsPage(m', r, k) && EntryOf(m', q, h) != Unmapped
                                            && EntryOf(m', q, h) == EntryOf(m', r, k)
      ensures q == r && h == k
    {
      FaultEntries(m, p, g, q, h);
      FaultEntries(m, p, g, r, k);
      assert !IsFree(m, EntryOf(m, q, h)) && !IsFree(m, EntryOf(m, r, k));
    }
  }

  /** A fault keeps the machine sound: every frame still has at most one owner and the page is now resident. */
  lemma FaultInv(m: Machine, p: nat, g: nat)
    requires Inv(m) && CanFault(m, p, g)
    ensures Inv(Fault(m, p, g)) && Resides(Fault(m, p, g), p, g)
  {
    FaultLocated(m, p, g);
    FaultEntries(m, p, g, p, g);
    HeadIsFree(m.swp);
  }

  /** A fault writes two frames: the victim's bytes go to the free swap frame, and those of the page's swap frame, as it is
      then, to the victim's. Every other frame of both devices is as before. */
  lemma FaultFrames(m: Machine, p: nat, g: nat, e: Entry)
    requires CanFault(m, p, g) && Stored(m, e)
    ensures Stored(Fault(m, p, g), e)
    ensures var f, o, t := EntryOf(m, p, VictimOf(m, p)).fpn, m.swp.free[0], SwapSource(EntryOf(m, p, g));
            Contents(Fault(m, p, g), e) ==
            if e == Swapped(o) then m.ram.frames[f]
            else if e == Resident(f) then (if t == o then m.ram.frames[f] else m.swp.frames[t])
            else Contents(m, e)
  {
  }

  /** The page brought in last is the next victim: replacement is last in, first out. */
  lemma NextVictim(m: Machine, p: nat, g: nat)
    requires CanFault(m, p, g)
    ensures HasVictim(Fault(m, p, g), p) && VictimOf(Fault(m, p, g), p) == g
  {
    var mm := Fault(m, p, g).mms[p];
    assert mm.fifo[0] == g && mm.pgd[g].Resident?;
  }

  // ----- mapping a range of pages -----

  function Min(a: nat, b: nat): nat { if a < b then a else b }

  function Reversed(s: seq<nat>): seq<nat> {
    if s == [] then [] else Reversed(s[1..]) + [s[0]]
  }

  /** n calls of MEMPHY_get_freefp, each followed by MEMPHY_put_usedfp. */
  function TakeFrames(d: Device, n: nat): Device
    requires n <= |d.free|
  {
    d.(free := d.free[n..], used := Reversed(d.free[..n]) + d.used)
  }

  /** How many of n wanted frames alloc_pages_range finds in RAM, and how many more in swap. */
  function FromRam(m: Machine, n: nat): nat { Min(n, |m.ram.free|) }
  function FromSwap(m: Machine, n: nat): nat { Min(n - FromRam(m, n), |m.swp.free|) }

  predicate EnoughFrames(m: Machine, n: nat) { n <= |m.ram.free| + |m.swp.free| }

  function Residents(fs: seq<nat>): (es: seq<Entry>)
    ensures |es| == |fs|
  {
    seq(|fs|, i requires 0 <= i < |fs| => Resident(fs[i]))
  }

  function Swappeds(os: seq<nat>): (es: seq<Entry>)
    ensures |es| == |os|
  {
    seq(|os|, i requires 0 <= i < |os| => Swapped(os[i]))
  }

  /** The entries vmap_page_range sets: the frames alloc_pages_range pushed on its lists, last taken first. */
  function NewEntries(m: Machine, n: nat): (es: seq<Entry>)
    ensures |es| == FromRam(m, n) + FromSwap(m, n)
  {
    ReversedShape(m.ram.free[..FromRam(m, n)]);
    ReversedShape(m.swp.free[..FromSwap(m, n)]);
    Residents(Reversed(m.ram.free[..FromRam(m, n)])) + Swappeds(Reversed(m.swp.free[..FromSwap(m, n)]))
  }

  /** es with the entries from g on replaced by new ones. */
  function Splice(es: seq<Entry>, g: nat, all: seq<Entry>): (r: seq<Entry>)
    requires g + |all| <= |es|
    ensures |r| == |es|
  {
    es[..g] + all + es[g + |all|..]
  }

  /** The page numbers enlisted while n pages from g on are mapped: one past each page, last one first. */
  function Enlisted(g: nat, n: nat): seq<nat> {
    if n == 0 then [] else [g + n] + Enlisted(g, n - 1)
  }

  /** vm_map_ram: take the frames; when there are enough, map them to pages g, g+1, ... of process p. When there
      are not, all frames taken on the way are lost and the page table is left alone. */
  function MapRange(m: Machine, p: nat, g: nat, n: nat): Machine
    requires p < |m.mms| && g + n <= |m.mms[p].pgd|
  {
    var mm := m.mms[p];
    var es := NewEntries(m, n);
    Machine(
      TakeFrames(m.ram, FromRam(m, n)),
      TakeFrames(m.swp, FromSwap(m, n)),
      if EnoughFrames(m, n)
      then m.mms[p := mm.(pgd := Splice(mm.pgd, g, es), fifo := Enlisted(g, n) + mm.fifo)]
      else m.mms)
  }

  lemma {:induction false} ReversedShape(s: seq<nat>)
    ensures |Reversed(s)| == |s| && multiset(Reversed(s)) == multiset(s)
    ensures forall i :: 0 <= i < |s| ==> Reversed(s)[i] == s[|s| - 1 - i]
  {
    if s != [] {
      ReversedShape(s[1..]);
      assert s == [s[0]] + s[1..];
    }
  }

  lemma {:induction false} EnlistedAre(g: nat, n: nat)
    ensures |Enlisted(g, n)| == n
    ensures forall h :: h in Enlisted(g, n) <==> g < h <= g + n
  {
    if n > 0 {
      EnlistedAre(g, n - 1);
    }
  }

  lemma ReversedSnoc(s: seq<nat>, k: nat)
    requires k < |s|
    ensures Reversed(s[..k + 1]) == [s[k]] + Reversed(s[..k])
  {
    ReversedShape(s[..k + 1]);
    ReversedShape(s[..k]);
  }

  lemma {:induction false} EnlistedTwice(g: nat, a: nat, b: nat)
    ensures Enlisted(g + a, b) + Enlisted(g, a) == Enlisted(g, a + b)
  {
    if b > 0 {
      EnlistedTwice(g, a, b - 1);
    }
  }

  lemma TakeFramesConserved(d: Device, n: nat)
    requires Conserved(d) && n <= |d.free|
    ensures Conserved(TakeFrames(d, n))
  {
    ReversedShape(d.free[..n]);
    assert d.free == d.free[..n] + d.free[n..];
  }

  lemma TakeFramesFreeOk(d: Device, n: nat)
    requires FreeOk(d) && n <= |d.free|
    ensures FreeOk(TakeFrames(d, n))
    ensures forall i :: 0 <= i < n ==> d.free[i] !in TakeFrames(d, n).free
    ensures forall f :: f in TakeFrames(d, n).free ==> f in d.free
  {
  }

  lemma ConservedFreeOk(d: Device)
    requires Conserved(d)
    ensures FreeOk(d)
  {
    forall i | 0 <= i < |d.free| ensures d.free[i] < |d.frames| {
      assert d.free[i] in multiset(d.free);
    }
    forall i, j | 0 <= i < j < |d.free| ensures d.free[i] != d.free[j] {
      assert d.free == d.free[..i] + [d.free[i]] + d.free[i + 1..j] + [d.free[j]] + d.free[j + 1..];
      assert d.free[i] == d.free[j] ==> multiset(d.free)[d.free[i]] >= 2;
    }
  }

  /** The k-th mapped page gets the k-th frame in reverse order of the free list: RAM first, then swap. */
  lemma NewEntriesAre(m: Machine, n: nat, k: nat)
    requires k < FromRam(m, n) + FromSwap(m, n)
    ensures var r, w := FromRam(m, n), FromSwap(m, n);
            NewEntries(m, n)[k] ==
            if k < r then Resident(m.ram.free[r - 1 - k]) else Swapped(m.swp.free[w - 1 - (k - r)])
  {
    ReversedShape(m.ram.free[..FromRam(m, n)]);
    ReversedShape(m.swp.free[..FromSwap(m, n)]);
  }

  /** The entry of any page after a mapping. */
  lemma MapEntries(m: Machine, p: nat, g: nat, n: nat, q: nat, h: nat)
    requires IsPage(m, p, 0) && g + n <= MAX_PGN && IsPage(m, q, h)
    ensures IsPage(MapRange(m, p, g, n), q, h)
    ensures EnoughFrames(m, n) ==> |NewEntries(m, n)| == n
    ensures EntryOf(MapRange(m, p, g, n), q, h) ==
            if EnoughFrames(m, n) && q == p && g <= h < g + n then NewEntries(m, n)[h - g] else EntryOf(m, q, h)
  {
  }

  /** A mapped entry is a frame that was free and is so no longer. */
  lemma NewEntryFresh(m: Machine, n: nat, k: nat)
    requires Conserved(m.ram) && FreeOk(m.swp) && k < |NewEntries(m, n)|
    ensures var e, m' := NewEntries(m, n)[k],
                         m.(ram := TakeFrames(m.ram, FromRam(m, n)), swp := TakeFrames(m.swp, FromSwap(m, n)));
            e != Unmapped && IsFree(m, e) && Stored(m', e) && !IsFree(m', e)
  {
    NewEntriesAre(m, n, k);
    ConservedFreeOk(m.ram);
    TakeFramesFreeOk(m.ram, FromRam(m, n));
    TakeFramesFreeOk(m.swp, FromSwap(m, n));
  }

  lemma NewEntriesDistinct(m: Machine, n: nat, j: nat, k: nat)
    requires Conserved(m.ram) && FreeOk(m.swp) && j < |NewEntries(m, n)| && k < |NewEntries(m, n)|
    ensures NewEntries(m, n)[j] == NewEntries(m, n)[k] ==> j == k
  {
    NewEntriesAre(m, n, j);
    NewEntriesAre(m, n, k);
    ConservedFreeOk(m.ram);
  }

  /** Frames already in use stay out of the free lists. */
  lemma StaysOwned(m: Machine, p: nat, g: nat, n: nat, e: Entry)
    requires Conserved(m.ram) && FreeOk(m.swp) && p < |m.mms| && g + n <= |m.mms[p].pgd|
    requires e != Unmapped && Stored(m, e) && !IsFree(m, e)
    ensures Stored(MapRange(m, p, g, n), e) && !IsFree(MapRange(m, p, g, n), e)
    ensures Contents(MapRange(m, p, g, n), e) == Contents(m, e)
  {
    ConservedFreeOk(m.ram);
    TakeFramesFreeOk(m.ram, FromRam(m, n));
    TakeFramesFreeOk(m.swp, FromSwap(m, n));
  }

  lemma MapLocated(m: Machine, p: nat, g: nat, n: nat)
    requires Inv(m) && p < |m.mms| && g + n <= MAX_PGN
    ensures Located(MapRange(m, p, g, n))
  {
    var m' := MapRange(m, p, g, n);
    forall q: nat, h: nat | IsPage(m', q, h) && EntryOf(m', q, h) != Unmapped
      ensures Stored(m', EntryOf(m', q, h)) && !IsFree(m', EntryOf(m', q, h))
    {
      assert IsPage(m, q, h);
      MapEntries(m, p, g, n, q, h);
      if EnoughFrames(m, n) && q == p && g <= h < g + n {
        NewEntryFresh(m, n, h - g);
      } else {
        StaysOwned(m, p, g, n, EntryOf(m, q, h));
      }
    }
  }

  lemma MapUnshared(m: Machine, p: nat, g: nat, n: nat)
    requires Inv(m) && p < |m.mms| && g + n <= MAX_PGN
    ensures Unshared(MapRange(m, p, g, n))
  {
    var m' := MapRange(m, p, g, n);
    forall q: nat, h: nat, r: nat, k: nat | IsPage(m', q, h) && IsPage(m', r, k) && EntryOf(m', q, h) != Unmapped
                                            && EntryOf(m', q, h) == EntryOf(m', r, k)
      ensures q == r && h == k
    {
      assert IsPage(m, q, h) && IsPage(m, r, k);
      MapEntries(m, p, g, n, q, h);
      MapEntries(m, p, g, n, r, k);
      var newQ := EnoughFrames(m, n) && q == p && g <= h < g + n;
      var newR := EnoughFrames(m, n) && r == p && g <= k < g + n;
      if newQ { NewEntryFresh(m, n, h - g); } else { assert !IsFree(m, EntryOf(m, q, h)); }
      if newR { NewEntryFresh(m, n, k - g); } else { assert !IsFree(m, EntryOf(m, r, k)); }
      if newQ && newR { NewEntriesDistinct(m, n, h - g, k - g); }
    }
  }

  /** Mapping keeps the machine sound, also when it runs out of frames. */
  lemma MapInv(m: Machine, p: nat, g: nat, n: nat)
    requires Inv(m) && p < |m.mms| && g + n < MAX_PGN
    ensures Inv(MapRange(m, p, g, n))
  {
    MapLocated(m, p, g, n);
    MapUnshared(m, p, g, n);
    TakeFramesConserved(m.ram, FromRam(m, n));
    TakeFramesFreeOk(m.swp, FromSwap(m, n));
    EnlistedAre(g, n);
    var m' := MapRange(m, p, g, n);
    forall q | 0 <= q < |m'.mms| ensures MmOk(m'.mms[q]) {
      assert MmOk(m.mms[q]);
      if q == p && EnoughFrames(m, n) {
        var fifo := m'.mms[p].fifo;
        forall i | 0 <= i < |fifo| ensures fifo[i] < MAX_PGN {
          assert i < n ==> fifo[i] in Enlisted(g, n);
        }
      }
    }
  }

  /** Pages outside the range keep their bytes. */
  lemma MapKeepsPage(m: Machine, p: nat, g: nat, n: nat, q: nat, h: nat)
    requires Inv(m) && p < |m.mms| && g + n <= MAX_PGN && HasPage(m, q, h)
    requires !(EnoughFrames(m, n) && q == p && g <= h < g + n)
    ensures HasPage(MapRange(m, p, g, n), q, h) && PageOf(MapRange(m, p, g, n), q, h) == PageOf(m, q, h)
  {
    MapEntries(m, p, g, n, q, h);
    StaysOwned(m, p, g, n, EntryOf(m, q, h));
  }

  /** A mapping that finds enough frames maps exactly the n pages: the first min(n, free RAM frames) resident, the
      rest swapped, each to its own frame that was free, in reverse free-list order. Every other entry of every
      process is as before. One that does not find enough leaves every page table alone and both lists empty. */
  lemma MapExact(m: Machine, p: nat, g: nat, n: nat, q: nat, h: nat)
    requires Inv(m) && p < |m.mms| && g + n <= MAX_PGN && IsPage(m, q, h)
    ensures var m', r := MapRange(m, p, g, n), Min(n, |m.ram.free|);
            if n > |m.ram.free| + |m.swp.free| then
              EntryOf(m', q, h) == EntryOf(m, q, h) && m'.ram.free == [] && m'.swp.free == []
            else
              && m'.ram.free == m.ram.free[r..] && m'.swp.free == m.swp.free[n - r..]
              && EntryOf(m', q, h) ==
                 if q == p && g <= h < g + r then Resident(m.ram.free[r - 1 - (h - g)])
                 else if q == p && g + r <= h < g + n then Swapped(m.swp.free[n - 1 - (h - g)])
                 else EntryOf(m, q, h)
  {
    MapEntries(m, p, g, n, q, h);
    if EnoughFrames(m, n) && q == p && g <= h < g + n {
      NewEntriesAre(m, n, h - g);
    }
  }

  /** A mapping changes no byte: a new page holds whatever its frame held. */
  lemma NewPageBytes(m: Machine, p: nat, g: nat, n: nat, h: nat)
    requires Inv(m) && p < |m.mms| && g <= h < g + n <= MAX_PGN && EnoughFrames(m, n)
    ensures var m', r := MapRange(m, p, g, n), Min(n, |m.ram.free|);
            && m'.ram.frames == m.ram.frames && m'.swp.frames == m.swp.frames && HasPage(m', p, h)
            && (h < g + r ==> m.ram.free[r - 1 - (h - g)] < |m.ram.frames|
                              && PageOf(m', p, h) == m.ram.frames[m.ram.free[r - 1 - (h - g)]])
            && (h >= g + r ==> m.swp.free[n - 1 - (h - g)] < |m.swp.frames|
                               && PageOf(m', p, h) == m.swp.frames[m.swp.free[n - 1 - (h - g)]])
  {
    assert IsPage(m, p, h);
    MapExact(m, p, g, n, p, h);
    MapEntries(m, p, g, n, p, h);
    NewEntryFresh(m, n, h - g);
  }

  lemma TakeNotes(d: Device, n: nat)
    requires n <= |d.free|
    ensures multiset(TakeFrames(d, n).free) + multiset(TakeFrames(d, n).used) == multiset(d.free) + multiset(d.used)
  {
    ReversedShape(d.free[..n]);
    assert d.free == d.free[..n] + d.free[n..];
  }

  /** A mapping notes every frame it takes as used, on both devices and also when it fails. */
  lemma MapNotes(m: Machine, p: nat, g: nat, n: nat)
    requires p < |m.mms| && g + n <= |m.mms[p].pgd|
    ensures var m' := MapRange(m, p, g, n);
            && multiset(m'.ram.free) + multiset(m'.ram.used) == multiset(m.ram.free) + multiset(m.ram.used)
            && multiset(m'.swp.free) + multiset(m'.swp.used) == multiset(m.swp.free) + multiset(m.swp.used)
  {
    TakeNotes(m.ram, FromRam(m, n));
    TakeNotes(m.swp, FromSwap(m, n));
  }

  lemma {:induction false} EnlistedAt(g: nat, n: nat, i: nat)
    requires i < n
    ensures i < |Enlisted(g, n)| && Enlisted(g, n)[i] == g + n - i
  {
    if i > 0 {
      EnlistedAt(g, n - 1, i - 1);
    }
  }

  lemma FirstResident(pgd: seq<Entry>, fifo: seq<nat>, i: nat)
    requires i < |fifo| && fifo[i] < |pgd| && pgd[fifo[i]].Resident?
    requires forall j :: 0 <= j < i ==> fifo[j] < |pgd| && !pgd[fifo[j]].Resident?
    ensures Victim(pgd, fifo) == i
  {
  }

  /** The front of the page list after a mapping, last page first, and whether those pages are resident. */
  lemma MapLists(m: Machine, p: nat, g: nat, n: nat, j: nat)
    requires Inv(m) && p < |m.mms| && |m.mms[p].pgd| == MAX_PGN && g + n < MAX_PGN && EnoughFrames(m, n) && j < n
    ensures var mm := MapRange(m, p, g, n).mms[p];
            && j < |mm.fifo| && mm.fifo[j] == g + n - j && |mm.pgd| == MAX_PGN
            && (mm.pgd[g + n - j].Resident? <==> if j == 0 then Resides(m, p, g + n) else n - j < FromRam(m, n))
  {
    EnlistedAt(g, n, j);
    EnlistedAre(g, n);
    assert IsPage(m, p, g + n - j);
    MapExact(m, p, g, n, p, g + n - j);
    assert EntryOf(MapRange(m, p, g, n), p, g + n - j) == MapRange(m, p, g, n).mms[p].pgd[g + n - j];
  }

  /** After a mapping that made at least two pages resident, the last of those is the next victim, unless the page past the
      range, which is listed in front of it, is resident itself: each page is listed by its predecessor. */
  lemma MapVictim(m: Machine, p: nat, g: nat, n: nat)
    requires Inv(m) && p < |m.mms| && |m.mms[p].pgd| == MAX_PGN && g + n < MAX_PGN && EnoughFrames(m, n)
    requires FromRam(m, n) >= 2
    ensures var m' := MapRange(m, p, g, n);
            && HasVictim(m', p)
            && VictimOf(m', p) == if Resides(m, p, g + n) then g + n else g + FromRam(m, n) - 1
  {
    var mm := MapRange(m, p, g, n).mms[p];
    var i := if Resides(m, p, g + n) then 0 else n - FromRam(m, n) + 1;
    forall j | 0 <= j <= i
      ensures j < |mm.fifo| && mm.fifo[j] == g + n - j < |mm.pgd| && (mm.pgd[mm.fifo[j]].Resident? <==> j == i)
    {
      MapLists(m, p, g, n, j);
    }
    FirstResident(mm.pgd, mm.fifo, i);
  }
}

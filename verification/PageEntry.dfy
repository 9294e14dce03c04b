/** Page table entries (src/mm.c, include/mm.h): packed 32-bit words whose fields overlap.

    Bit 31 is the present flag and bit 30 the swapped flag. A resident entry keeps its frame number in
    bits 0-12; a swapped entry keeps a swap type in bits 0-4 and its swap frame in bits 5-25.
 */
module PageEntry {
  import opened Bits

  const PRESENT_MASK: bv32 := 0x8000_0000
  const SWAPPED_MASK: bv32 := 0x4000_0000

  const PAGE_SIZE: nat := 256
  const MAX_PGN: nat := 16384
  /** Frame numbers an entry can hold. */
  const FPN_LIMIT: nat := 0x2000
  const SWP_LIMIT: nat := 0x20_0000

  function FpnMask(): bv32 { GenMask(12, 0) }
  function SwptypMask(): bv32 { GenMask(4, 0) }
  function SwpoffMask(): bv32 { GenMask(25, 5) }

  // ----- the macros and setters -----

  predicate PagePresent(pte: bv32) { pte & PRESENT_MASK != 0 }

  function PagingFpn(pte: bv32): nat { GetVal(pte, FpnMask(), 0) as nat }

  function PagingSwp(pte: bv32): nat { GetVal(pte, SwpoffMask(), 5) as nat }

  function PteSetFpn(pte: bv32, fpn: nat): bv32
    requires fpn < 0x1_0000_0000
  {
    var p1 := SetBit(pte, PRESENT_MASK);
    var p2 := ClrBit(p1, SWAPPED_MASK);
    SetVal(p2, fpn as bv32, FpnMask(), 0)
  }

  function PteSetSwap(pte: bv32, swptyp: nat, swpoff: nat): bv32
    requires swptyp < 0x1_0000_0000 && swpoff < 0x1_0000_0000
  {
    var p1 := ClrBit(pte, PRESENT_MASK);
    var p2 := SetBit(p1, SWAPPED_MASK);
    var p3 := SetVal(p2, swptyp as bv32, SwptypMask(), 0);
    SetVal(p3, swpoff as bv32, SwpoffMask(), 5)
  }

  function PagingPgn(addr: nat): nat
    requires addr < 0x1_0000_0000
  {
    GetVal(addr as bv32, GenMask(21, 8), 8) as nat
  }

  function PagingOffst(addr: nat): nat
    requires addr < 0x1_0000_0000
  {
    GetVal(addr as bv32, GenMask(7, 0), 0) as nat
  }

  /** PAGING_PAGE_ALIGNSZ */
  function PageAlign(sz: nat): nat { (sz + PAGE_SIZE - 1) / PAGE_SIZE * PAGE_SIZE }

  // ----- what an entry means -----

  datatype Entry = Unmapped | Resident(fpn: nat) | Swapped(swp: nat)

  function Decode(pte: bv32): Entry {
    if PagePresent(pte) then Resident(PagingFpn(pte))
    else if pte & SWAPPED_MASK != 0 then Swapped(PagingSwp(pte))
    else Unmapped
  }

  /** The entries the setters leave behind: never touched, resident, or swapped with swap type 0. */
  predicate WellFormed(pte: bv32) {
    pte == 0 || PagePresent(pte) || (pte & SWAPPED_MASK != 0 && pte & SwptypMask() == 0)
  }

  /** What PAGING_FPN makes of an entry, by the entry's meaning. For an entry that is not resident this
      is not a frame of the page: it is whatever the overlapping swap bits spell. */
  function FpnField(e: Entry): nat {
    match e
    case Unmapped => 0
    case Resident(f) => f
    case Swapped(o) => 32 * (o % 256)
  }

  lemma Masks()
    ensures FpnMask() == 0x1FFF && SwptypMask() == 0x1F && SwpoffMask() == 0x3FF_FFE0
    ensures GenMask(21, 8) == 0x3F_FF00 && GenMask(7, 0) == 0xFF
    ensures NBits(256) == 8
  {
  }

  lemma SetFpnBits(pte: bv32, f: bv32)
    ensures var p := SetVal(ClrBit(SetBit(pte, PRESENT_MASK), SWAPPED_MASK), f, 0x1FFF, 0);
            p & PRESENT_MASK != 0 && GetVal(p, 0x1FFF, 0) == f & 0x1FFF
  {
  }

  /** Whatever bits an entry held, setting a frame makes it resident there; frame numbers are kept mod 2^13. */
  lemma SetFpnDecodes(pte: bv32, fpn: nat)
    requires fpn < 0x1_0000_0000
    ensures Decode(PteSetFpn(pte, fpn)) == Resident(fpn % FPN_LIMIT)
    ensures WellFormed(PteSetFpn(pte, fpn))
  {
    Masks();
    RoundTrip(fpn);
    SetFpnBits(pte, fpn as bv32);
    SplitFpn(fpn as bv32, fpn);
  }

  lemma SetSwapFlags(pte: bv32)
    ensures var p := SetVal(SetBit(ClrBit(pte, PRESENT_MASK), SWAPPED_MASK), 0, 0x1F, 0);
            p & 0xC000_0000 == 0x4000_0000 && p & 0x1F == 0
  {
  }

  lemma SetSwapOffset(p: bv32, o: bv32, q: bv32)
    requires p & 0xC000_0000 == 0x4000_0000 && p & 0x1F == 0
    requires q == SetVal(p, o, 0x3FF_FFE0, 5)
    ensures q & 0xC000_0000 == 0x4000_0000 && q & 0x1F == 0
    ensures GetVal(q, 0x3FF_FFE0, 5) == o & 0x1F_FFFF
  {
  }

  lemma SwappedFlags(q: bv32)
    requires q & 0xC000_0000 == 0x4000_0000
    ensures q & PRESENT_MASK == 0 && q & SWAPPED_MASK != 0
  {
  }

  /** Whatever bits an entry held, setting a swap frame (type 0, as every caller does) makes it swapped
      there; swap frames are kept mod 2^21. */
  lemma SetSwapDecodes(pte: bv32, swpoff: nat)
    requires swpoff < 0x1_0000_0000
    ensures Decode(PteSetSwap(pte, 0, swpoff)) == Swapped(swpoff % SWP_LIMIT)
    ensures WellFormed(PteSetSwap(pte, 0, swpoff))
  {
    Masks();
    RoundTrip(swpoff);
    var o := swpoff as bv32;
    SetSwapFlags(pte);
    var p, q := SetVal(SetBit(ClrBit(pte, PRESENT_MASK), SWAPPED_MASK), 0, 0x1F, 0), PteSetSwap(pte, 0, swpoff);
    SetSwapOffset(p, o, q);
    SwappedFlags(q);
    SplitSwpoff(o, swpoff);
  }

  lemma FieldBits(pte: bv32)
    requires pte & 0x1F == 0
    ensures GetVal(pte, 0x1FFF, 0) == (GetVal(pte, 0x3FF_FFE0, 5) << 5) & 0x1FFF
  {
  }

  /** The frame field of every well-formed entry is determined by what the entry means. */
  lemma FpnOfDecode(pte: bv32)
    requires WellFormed(pte)
    ensures PagingFpn(pte) == FpnField(Decode(pte))
    ensures PagePresent(pte) <==> Decode(pte).Resident?
    ensures Decode(pte).Swapped? ==> PagingSwp(pte) == Decode(pte).swp
    ensures Decode(pte).Unmapped? ==> PagingSwp(pte) == 0
  {
    Masks();
    if pte != 0 && !PagePresent(pte) {
      FieldBits(pte);
      var o := GetVal(pte, 0x3FF_FFE0, 5);
      ByteTimes32(o);
      SplitByte(o, o as nat);
    }
  }

  // ----- histories -----

  datatype Setting = ToFrame(fpn: nat) | ToSwap(swpoff: nat)

  predicate InRange(s: Setting) {
    match s
    case ToFrame(f) => f < FPN_LIMIT
    case ToSwap(o) => o < SWP_LIMIT
  }

  function ApplyAll(pte: bv32, history: seq<Setting>): bv32
    requires forall i :: 0 <= i < |history| ==> InRange(history[i])
  {
    if history == [] then pte
    else
      var before, last := ApplyAll(pte, history[..|history| - 1]), history[|history| - 1];
      assert InRange(last);
      match last
      case ToFrame(f) => PteSetFpn(before, f)
      case ToSwap(o) => PteSetSwap(before, 0, o)
  }

  /** After any history of settings, on any initial bits, the entry means exactly what the last call said. */
  lemma HistoryMeansLast(pte: bv32, history: seq<Setting>)
    requires history != []
    requires forall i :: 0 <= i < |history| ==> InRange(history[i])
    ensures WellFormed(ApplyAll(pte, history))
    ensures Decode(ApplyAll(pte, history)) ==
            match history[|history| - 1]
            case ToFrame(f) => Resident(f)
            case ToSwap(o) => Swapped(o)
  {
    var before := ApplyAll(pte, history[..|history| - 1]);
    match history[|history| - 1]
    case ToFrame(f) => SetFpnDecodes(before, f);
    case ToSwap(o) => SetSwapDecodes(before, o);
  }

  /** A frame number survives the page table exactly when it is below 2^13. */
  lemma FpnSurvivesIff(pte: bv32, fpn: nat)
    requires fpn < 0x1_0000_0000
    ensures PagingFpn(PteSetFpn(pte, fpn)) == fpn <==> fpn < FPN_LIMIT
  {
    SetFpnDecodes(pte, fpn);
  }

  // ----- virtual addresses -----

  lemma AddrBits(a: bv32)
    ensures GetVal(a, 0x3F_FF00, 8) == (a >> 8) & 0x3FFF
    ensures GetVal(a, 0xFF, 0) == a & 0xFF
  {
  }

  lemma AddrWord(a: bv32, addr: nat)
    requires addr == a as nat
    ensures GetVal(a, 0x3F_FF00, 8) as nat == addr / PAGE_SIZE % MAX_PGN
    ensures GetVal(a, 0xFF, 0) as nat == addr % PAGE_SIZE
  {
    AddrBits(a);
    SplitByte(a, addr);
    SplitPgn(a >> 8, addr / 256);
  }

  /** An address splits into page and offset, with the page number taken mod 2^14. */
  lemma AddrSplits(addr: nat)
    requires addr < 0x1_0000_0000
    ensures PagingPgn(addr) == addr / PAGE_SIZE % MAX_PGN
    ensures PagingOffst(addr) == addr % PAGE_SIZE
  {
    Masks();
    RoundTrip(addr);
    AddrWord(addr as bv32, addr);
  }

  lemma AddrSplitsOnBus(addr: nat)
    requires addr < MAX_PGN * PAGE_SIZE
    ensures PagingPgn(addr) == addr / PAGE_SIZE && PagingOffst(addr) == addr % PAGE_SIZE
  {
    AddrSplits(addr);
    PageBelow(addr / PAGE_SIZE);
  }

  lemma PageBelow(q: nat)
    requires q < MAX_PGN
    ensures q % MAX_PGN == q
  {
  }

  lemma Recombine(addr: nat, pgn: nat, off: nat)
    requires pgn == addr / PAGE_SIZE % MAX_PGN && off == addr % PAGE_SIZE
    ensures pgn * PAGE_SIZE + off == addr <==> addr < MAX_PGN * PAGE_SIZE
  {
  }

  /** Page and offset recombine to the address exactly on the 22-bit bus. */
  lemma AddrRecombinesIff(addr: nat)
    requires addr < 0x1_0000_0000
    ensures PagingPgn(addr) * PAGE_SIZE + PagingOffst(addr) == addr <==> addr < MAX_PGN * PAGE_SIZE
  {
    AddrSplits(addr);
    Recombine(addr, PagingPgn(addr), PagingOffst(addr));
  }

  /** PAGING_PAGE_ALIGNSZ is the least multiple of the page size that is no smaller. */
  lemma PageAlignIsLeast(sz: nat)
    ensures sz <= PageAlign(sz) < sz + PAGE_SIZE && PageAlign(sz) % PAGE_SIZE == 0
    ensures PageAlign(sz) == sz <==> sz % PAGE_SIZE == 0
  {
  }
}

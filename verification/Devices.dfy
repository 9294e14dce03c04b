/** Storage devices as the code keeps them (src/mm-memphy.c, random-access mode): a byte array and two frame lists changed
    in place, and the page copy of src/mm.c. */
module Devices {
  import opened PageEntry
  import opened Paging
  import opened MemoryAccounts
  import opened Counting

  /** The bytes of a device cut into frames. */
  ghost function FramesOf(bytes: seq<Byte>): (fs: seq<Page>)
    ensures |fs| == |bytes| / PAGE_SIZE
    ensures forall f :: 0 <= f < |fs| ==> fs[f] == bytes[f * PAGE_SIZE..f * PAGE_SIZE + PAGE_SIZE]
  {
    seq(|bytes| / PAGE_SIZE, f requires 0 <= f < |bytes| / PAGE_SIZE => bytes[f * PAGE_SIZE..f * PAGE_SIZE + PAGE_SIZE])
  }

  /** Changing one byte changes one frame. */
  lemma UpdateOneFrame(bytes: seq<Byte>, f: nat, off: nat, data: Byte)
    requires f < |bytes| / PAGE_SIZE && off < PAGE_SIZE
    ensures FramesOf(bytes[f * PAGE_SIZE + off := data]) == FramesOf(bytes)[f := FramesOf(bytes)[f][off := data]]
  {
  }

  /** Replacing the bytes of one frame. */
  lemma ReplaceOneFrame(bytes: seq<Byte>, after: seq<Byte>, f: nat, page: Page)
    requires |after| == |bytes| && f < |bytes| / PAGE_SIZE
    requires after[f * PAGE_SIZE..f * PAGE_SIZE + PAGE_SIZE] == page
    requires forall i :: 0 <= i < |bytes| && !(f * PAGE_SIZE <= i < f * PAGE_SIZE + PAGE_SIZE) ==> after[i] == bytes[i]
    ensures FramesOf(after) == FramesOf(bytes)[f := page]
  {
    forall g | 0 <= g < |bytes| / PAGE_SIZE && g != f ensures FramesOf(after)[g] == FramesOf(bytes)[g] {
    }
  }

  class MemPhy {
    const storage: array<Byte>
    var freeFp: seq<nat>
    var usedFp: seq<nat>

    ghost function NumFp(): nat { storage.Length / PAGE_SIZE }

    ghost function Frames(): (fs: seq<Page>)
      reads storage
      ensures |fs| == NumFp()
    {
      FramesOf(storage[..])
    }

    ghost function View(): Device
      reads this, storage
    {
      Device(Frames(), freeFp, usedFp)
    }

    /** init_memphy and MEMPHY_format: the loop appends each frame to the free list. A device smaller than a page has no
        frame at all. */
    constructor (maxSize: nat)
      ensures fresh(storage) && storage.Length == maxSize
      ensures View() == Formatted(Frames())
    {
      storage := new Byte[maxSize];
      usedFp := [];
      var numfp := maxSize / PAGE_SIZE;
      var list: seq<nat> := [];
      if numfp > 0 {
        list := [0];
        for iter := 1 to numfp
          invariant list == Upto(iter)
        {
          list := list + [iter];
        }
      }
      freeFp := list;
    }

    /** MEMPHY_get_freefp */
    method GetFreeFp() returns (ok: bool, fpn: nat)
      modifies this`freeFp
      ensures ok <==> old(freeFp) != []
      ensures ok ==> [fpn] + freeFp == old(freeFp)
      ensures !ok ==> freeFp == old(freeFp)
    {
      if freeFp == [] {
        return false, 0;
      }
      ok, fpn := true, freeFp[0];
      freeFp := freeFp[1..];
    }

    /** MEMPHY_put_usedfp */
    method PutUsedFp(fpn: nat)
      modifies this`usedFp
      ensures usedFp == [fpn] + old(usedFp)
    {
      usedFp := [fpn] + usedFp;
    }

    /** MEMPHY_read */
    method Read(addr: nat) returns (value: Byte)
      requires addr < storage.Length
      ensures value == storage[addr]
      ensures addr / PAGE_SIZE < NumFp() ==> value == Frames()[addr / PAGE_SIZE][addr % PAGE_SIZE]
    {
      value := storage[addr];
      assert addr / PAGE_SIZE * PAGE_SIZE + addr % PAGE_SIZE == addr;
    }

    /** MEMPHY_write */
    method Write(addr: nat, data: Byte)
      requires addr < storage.Length
      modifies storage
      ensures storage[..] == old(storage[..])[addr := data]
      ensures var f := addr / PAGE_SIZE;
              f < NumFp() ==> Frames() == old(Frames())[f := old(Frames())[f][addr % PAGE_SIZE := data]]
    {
      ghost var bytes := storage[..];
      storage[addr] := data;
      assert storage[..] == bytes[addr := data];
      if addr / PAGE_SIZE < NumFp() {
        assert addr / PAGE_SIZE * PAGE_SIZE + addr % PAGE_SIZE == addr;
        UpdateOneFrame(bytes, addr / PAGE_SIZE, addr % PAGE_SIZE, data);
      }
    }
  }

  /** __swap_cp_page: copy one frame between devices, byte by byte. */
  method SwapCopyPage(src: MemPhy, srcfpn: nat, dst: MemPhy, dstfpn: nat)
    requires src.storage != dst.storage
    requires srcfpn < src.NumFp() && dstfpn < dst.NumFp()
    modifies dst.storage
    ensures dst.Frames() == old(dst.Frames())[dstfpn := src.Frames()[srcfpn]]
    ensures src.Frames() == old(src.Frames())
  {
    ghost var s, d := srcfpn * PAGE_SIZE, dstfpn * PAGE_SIZE;
    for cellidx := 0 to PAGE_SIZE
      invariant forall i :: 0 <= i < dst.storage.Length && !(d <= i < d + cellidx) ==> dst.storage[i] == old(dst.storage[i])
      invariant dst.storage[d..d + cellidx] == src.storage[s..s + cellidx]
      invariant src.storage[..] == old(src.storage[..])
    {
      var addrsrc, addrdst := srcfpn * PAGE_SIZE + cellidx, dstfpn * PAGE_SIZE + cellidx;
      var data := src.Read(addrsrc);
      ghost var done := dst.storage[d..d + cellidx];
      dst.Write(addrdst, data);
      assert dst.storage[d..d + cellidx + 1] == done + [data];
      assert src.storage[s..s + cellidx + 1] == src.storage[s..s + cellidx] + [data];
    }
    ReplaceOneFrame(old(dst.storage[..]), dst.storage[..], dstfpn, src.Frames()[srcfpn]);
  }
}

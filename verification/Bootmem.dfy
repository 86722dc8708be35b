/** mm/bootmem.c: the boot-time page bitmap, and the hand-over of every page that is not
    reserved to the buddy allocator. */
module Bootmem {
  import opened Common
  import opened Words
  import opened BuddyTheory
  import Bitmap
  import Buddy

  const PAGE_SIZE: nat := 4096

  class BootmemData {
    const start: nat       // node_boot_start
    const lowPfn: nat      // node_low_pfn
    const bootmap: array<Byte>

    /** The number of pages of the node. */
    function Pages(): nat
      requires start / PAGE_SIZE <= lowPfn
    {
      lowPfn - start / PAGE_SIZE
    }

    ghost predicate Valid() {
      && start % PAGE_SIZE == 0 && start / PAGE_SIZE <= lowPfn <= 0x10_0000
      && 4 * (Pages() / 32) + 4 <= bootmap.Length
    }

    ghost predicate Reserved(i: nat)
      requires Valid() && i < Pages()
      reads bootmap
    {
      Bitmap.Test(bootmap[..], i)
    }

    constructor (start: nat, lowPfn: nat, bytes: nat)
      requires start % PAGE_SIZE == 0 && start / PAGE_SIZE <= lowPfn <= 0x10_0000
      requires (lowPfn - start / PAGE_SIZE) / 8 + 4 <= bytes
      ensures Valid() && this.start == start && this.lowPfn == lowPfn && fresh(bootmap)
      ensures forall i :: 0 <= i < Pages() ==> !Reserved(i)
    {
      this.start, this.lowPfn := start, lowPfn;
      bootmap := new Byte[bytes](_ => 0);
      new;
      forall i: nat | i / 8 < bytes
        ensures !Bitmap.Test(bootmap[..], i)
      {
        ZeroBits(i % 8);
      }
    }

    /** Reserve every page that a non-empty byte range touches, and no other. */
    method Reserve(addr: nat, size: nat)
      requires Valid() && start <= addr && 0 < size
      requires (addr + size + PAGE_SIZE - 1) / PAGE_SIZE <= lowPfn
      modifies bootmap
      ensures forall i :: 0 <= i < Pages() ==>
        (Reserved(i) <==> old(Reserved(i))
                          || (start + i * PAGE_SIZE < addr + size && addr < start + (i + 1) * PAGE_SIZE))
    {
      var sidx := (addr - start) / PAGE_SIZE;
      var eidx := (addr + size - start + PAGE_SIZE - 1) / PAGE_SIZE;
      Touched(addr, size);
      hide Bitmap.Test;
      for i := sidx to eidx
        invariant forall j :: 0 <= j < Pages() ==> (Reserved(j) <==> old(Reserved(j)) || sidx <= j < i)
      {
        var was := Bitmap.TestAndSetBit(i, bootmap, 0);
      }
    }

    lemma Touched(addr: nat, size: nat)
      requires Valid() && start <= addr && 0 < size
      requires (addr + size + PAGE_SIZE - 1) / PAGE_SIZE <= lowPfn
      ensures var sidx, eidx := (addr - start) / PAGE_SIZE, (addr + size - start + PAGE_SIZE - 1) / PAGE_SIZE;
        && sidx <= eidx <= Pages()
        && forall i :: 0 <= i < Pages() ==>
          (sidx <= i < eidx <==> start + i * PAGE_SIZE < addr + size && addr < start + (i + 1) * PAGE_SIZE)
    {
    }

    ghost function Unreserved(n: nat): set<nat>
      requires Valid() && n <= Pages()
      reads bootmap
    {
      set i: nat | i < n && !Reserved(i)
    }

    lemma UnreservedStep(i: nat)
      requires Valid() && i < Pages()
      ensures i !in Unreserved(i)
      ensures Unreserved(i + 1) == if Reserved(i) then Unreserved(i) else Unreserved(i) + {i}
    {
    }

    /** __free_page of one page that is not free. */
    method FreeOne(zone: Buddy.Zone, page: nat)
      requires zone.Valid() && page < zone.size && page !in zone.Free()
      modifies zone, zone.bitmap
      ensures zone.Valid() && zone.Free() == old(zone.Free()) + {page}
      ensures zone.freePages == old(zone.freePages) + 1
    {
      hide Buddy.State, FreeSet;
      assert Interval(page, Pow2(0)) == {page};
      zone.FreePagesOk(page, 0);
      assert |old(zone.Free()) + {page}| == |old(zone.Free())| + 1;
    }

    /** Free, one page at a time, every page that is not reserved. */
    method FreeAll(zone: Buddy.Zone) returns (total: nat)
      requires Valid() && zone.Valid() && zone.size == Pages()
      requires zone.Free() == {} && zone.bitmap != bootmap
      modifies zone, zone.bitmap
      ensures zone.Valid()
      ensures zone.Free() == Unreserved(Pages())
      ensures total == |zone.Free()| == zone.freePages
      ensures Buddy.Lists(zone.freeList, Unreserved(Pages()))
    {
      hide Bitmap.Test, Buddy.State, FreeSet, Maximal, Pow2;
      total := 0;
      var idx := lowPfn - start / PAGE_SIZE;
      for i := 0 to idx
        invariant zone.Valid()
        invariant bootmap[..] == old(bootmap[..])
        invariant zone.Free() == Unreserved(i)
        invariant total == zone.freePages
      {
        var reserved := Bitmap.TestBit(i, bootmap);
        UnreservedStep(i);
        if !reserved {
          total := total + 1;
          FreeOne(zone, i);
        }
      }
      zone.AllMaximal();
    }
  }
}

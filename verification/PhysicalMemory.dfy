/**
The system-wide bump allocator of memory/physical_memory.c: two usable regions,
a cursor that only moves up, and a page bitmap that marks the reserved prefix.
*/
module PhysicalMemory {

  const PAGE_SIZE_4K: nat := 0x1000

  /** MAX_MEMORY_CAPACITY_IN_GIGABYTE * 1024 * 1024 / 4 / 8 */
  const BITMAP_BYTES: nat := 0x20_0000

  /** Physical addresses stay below 1 TB, what a 40-bit table field can carry. */
  const PHYSICAL_LIMIT: nat := 0x100_0000_0000

  /** The usable memory found at boot: one region below and one above 4 GB. */
  datatype Regions = Regions(addrLow: nat, lengthLow: nat, addrHigh: nat, lengthHigh: nat) {
    predicate InLow(addr: nat) {
      addrLow <= addr < addrLow + lengthLow
    }

    predicate InHigh(addr: nat) {
      addrHigh <= addr < addrHigh + lengthHigh
    }

    /** PHYSICAL_PAGE_VALID */
    predicate PageValid(addr: nat) {
      InLow(addr) || InHigh(addr)
    }

    /** What the memory map guarantees: the regions are ordered and end below the limit. */
    predicate Ordered() {
      && addrLow + lengthLow <= PHYSICAL_LIMIT
      && addrHigh + lengthHigh <= PHYSICAL_LIMIT
      && addrHigh % PAGE_SIZE_4K == 0
      && (lengthHigh == 0 || addrLow + lengthLow <= addrHigh)
    }

    /** Bytes between the end of the low region and the start of the high one. */
    function Hole(): nat {
      if addrLow + lengthLow <= addrHigh then addrHigh - (addrLow + lengthLow) else 0
    }
  }

  type MemoryMap = r: Regions | r.Ordered() witness Regions(0, 0, 0, 0)

  /** A granted run of pages. */
  datatype Block = Block(first: nat, pages: nat) {
    function End(): nat {
      first + PAGE_SIZE_4K * pages
    }

    function LastPage(): int {
      first + PAGE_SIZE_4K * (pages - 1)
    }
  }

  /** A block ends before the next one begins, so no two blocks share a byte. */
  ghost predicate Ascending(blocks: seq<Block>) {
    forall i, j :: 0 <= i < j < |blocks| ==> blocks[i].End() <= blocks[j].first
  }

  ghost predicate GoodBlock(regions: Regions, reservedEnd: nat, cursor: nat, b: Block) {
    && 0 < b.pages
    && b.first % PAGE_SIZE_4K == 0
    && reservedEnd < b.first
    && b.End() <= cursor
    && regions.PageValid(b.first)
    && regions.PageValid(b.first + PAGE_SIZE_4K * (b.pages - 1))
  }

  /** Every byte of the block is usable memory. */
  ghost predicate WhollyUsable(regions: Regions, b: Block) {
    forall addr: nat :: b.first <= addr < b.End() ==> regions.PageValid(addr)
  }

  /**
  A granted block is wholly usable exactly when it ends within the low region, or lies in the high one,
  or the two regions adjoin and it ends within the high one.
  */
  lemma GrantedBlockUsableIff(regions: MemoryMap, reservedEnd: nat, cursor: nat, b: Block)
    requires GoodBlock(regions, reservedEnd, cursor, b)
    ensures var lowEnd, highEnd := regions.addrLow + regions.lengthLow, regions.addrHigh + regions.lengthHigh;
            WhollyUsable(regions, b) <==>
            b.End() <= lowEnd || (b.End() <= highEnd && (regions.addrHigh <= b.first || lowEnd == regions.addrHigh))
  {
    var lowEnd := regions.addrLow + regions.lengthLow;
    if WhollyUsable(regions, b) && lowEnd < b.End() {
      assert regions.PageValid(b.End() - 1);
      if b.first < lowEnd {
        assert regions.PageValid(lowEnd);
      }
    }
  }

  /** A request that spans no more than the hole is wholly usable exactly when its last byte is. */
  lemma SmallRequestUsableIff(regions: MemoryMap, reservedEnd: nat, cursor: nat, b: Block)
    requires GoodBlock(regions, reservedEnd, cursor, b)
    requires PAGE_SIZE_4K * (b.pages - 1) <= regions.Hole()
    ensures WhollyUsable(regions, b) <==> regions.PageValid(b.End() - 1)
  {
    GrantedBlockUsableIff(regions, reservedEnd, cursor, b);
    if regions.InLow(b.first) {
      assert b.End() - PAGE_SIZE_4K < regions.addrHigh || regions.lengthHigh == 0;
    }
  }

  /** So it always is where the regions end on page boundaries. */
  lemma SmallRequestUsable(regions: MemoryMap, reservedEnd: nat, cursor: nat, b: Block)
    requires GoodBlock(regions, reservedEnd, cursor, b)
    requires PAGE_SIZE_4K * (b.pages - 1) <= regions.Hole()
    requires (regions.addrLow + regions.lengthLow) % PAGE_SIZE_4K == 0 && regions.lengthHigh % PAGE_SIZE_4K == 0
    ensures WhollyUsable(regions, b)
  {
    assert regions.PageValid(b.End() - 1) by {
      PageEndsInside(b.first, b.pages - 1, regions.addrLow + regions.lengthLow);
      HighEndAligned(regions);
      PageEndsInside(b.first, b.pages - 1, regions.addrHigh + regions.lengthHigh);
    }
    SmallRequestUsableIff(regions, reservedEnd, cursor, b);
  }

  lemma HighEndAligned(regions: MemoryMap)
    requires regions.lengthHigh % PAGE_SIZE_4K == 0
    ensures (regions.addrHigh + regions.lengthHigh) % PAGE_SIZE_4K == 0
  {
  }

  /** A page that starts below a page boundary ends at or below it. */
  lemma PageEndsInside(first: nat, pages: nat, limit: nat)
    requires first % PAGE_SIZE_4K == 0 && limit % PAGE_SIZE_4K == 0
    ensures first + PAGE_SIZE_4K * pages < limit ==> first + PAGE_SIZE_4K * (pages + 1) <= limit
  {
    var a, b := first / PAGE_SIZE_4K, limit / PAGE_SIZE_4K;
    assert first == PAGE_SIZE_4K * a && limit == PAGE_SIZE_4K * b;
  }

  /** One page past an unaligned region end, and a run of pages over the hole below 4 GB: granted, but not wholly usable. */
  lemma GrantedButUnusable()
    ensures var regions := Regions(0x10_0000, 0xbff0_0800, 0x1_0000_0000, 0);
            regions.Ordered() && GoodBlock(regions, 0x60_0000, 0xc000_1000, Block(0xc000_0000, 1))
            && !WhollyUsable(regions, Block(0xc000_0000, 1))
    ensures var regions := Regions(0x10_0000, 0xbff0_0000, 0x1_0000_0000, 0x4000_0000);
            regions.Ordered() && GoodBlock(regions, 0x60_0000, 0x1_0000_1000, Block(0xbfff_f000, 0x4_0002))
            && !WhollyUsable(regions, Block(0xbfff_f000, 0x4_0002))
  {
    assert !Regions(0x10_0000, 0xbff0_0800, 0x1_0000_0000, 0).PageValid(0xc000_0800);
    assert !Regions(0x10_0000, 0xbff0_0000, 0x1_0000_0000, 0x4000_0000).PageValid(0xc000_0000);
  }

  class PageAllocator {
    const regions: MemoryMap
    const bitmap: array<bv8>
    ghost const reservedEnd: nat
    var currentAvailPage: nat
    ghost var granted: seq<Block>

    /** The invariant of every run: blocks are aligned, ascending and above the reserved prefix. */
    ghost predicate Valid()
      reads this
    {
      && currentAvailPage % PAGE_SIZE_4K == 0
      && reservedEnd < currentAvailPage
      && Ascending(granted)
      && (forall i :: 0 <= i < |granted| ==> GoodBlock(regions, reservedEnd, currentAvailPage, granted[i]))
    }

    /** is_page_free; pages beyond the bitmap are never free. */
    predicate IsPageFree(addr: nat)
      requires bitmap.Length == BITMAP_BYTES
      reads bitmap
    {
      var byteIndex := addr / 0x1000 / 8;
      byteIndex < BITMAP_BYTES && (bitmap[byteIndex] >> ((addr / 0x1000) % 8)) & 1 == 0
    }

    /** physical_page_bitmap_init, given where the kernel image ends. */
    constructor (regions: MemoryMap, imageEnd: nat)
      requires imageEnd % PAGE_SIZE_4K == 0
      requires imageEnd + BITMAP_BYTES <= 8 * PAGE_SIZE_4K * BITMAP_BYTES
      ensures Valid() && granted == [] && this.regions == regions
      ensures reservedEnd == imageEnd + BITMAP_BYTES && currentAvailPage == reservedEnd + PAGE_SIZE_4K
      ensures fresh(bitmap) && bitmap.Length == BITMAP_BYTES
      ensures forall addr: nat :: IsPageFree(addr) <==>
                (reservedEnd <= addr < 8 * PAGE_SIZE_4K * BITMAP_BYTES)
    {
      var basePagesEnd := imageEnd + BITMAP_BYTES;
      this.regions := regions;
      bitmap := new bv8[BITMAP_BYTES](_ => 0);
      reservedEnd := basePagesEnd;
      currentAvailPage := basePagesEnd + PAGE_SIZE_4K;
      granted := [];
      new;
      var page := 0;
      while page < basePagesEnd
        modifies bitmap
        invariant page % PAGE_SIZE_4K == 0 && page <= basePagesEnd
        invariant forall addr: nat :: IsPageFree(addr) <==> page <= addr < 8 * PAGE_SIZE_4K * BITMAP_BYTES
      {
        MarkPageAsOccupied(page);
        page := page + PAGE_SIZE_4K;
      }
    }

    /** mark_page_as_occupied takes exactly the addresses of one page off the free list. */
    method MarkPageAsOccupied(addr: nat)
      requires bitmap.Length == BITMAP_BYTES
      requires addr < 8 * PAGE_SIZE_4K * BITMAP_BYTES
      modifies bitmap
      ensures forall other: nat :: IsPageFree(other) <==>
                old(IsPageFree(other)) && other / PAGE_SIZE_4K != addr / PAGE_SIZE_4K
    {
      var byteIndex := addr / 0x1000 / 8;
      var bit := (addr / 0x1000) % 8;
      bitmap[byteIndex] := bitmap[byteIndex] | (1 << bit);
      ghost var was := old(bitmap[byteIndex]);
      forall other: nat
        ensures IsPageFree(other) <==>
                old(IsPageFree(other)) && other / PAGE_SIZE_4K != addr / PAGE_SIZE_4K
      {
        SetBit(was, bit, (other / 0x1000) % 8);
      }
    }

    /** get_physical_pages: the next free run of pages, or 0 when an end page is unusable. */
    method GetPhysicalPages(pages: nat) returns (first: nat)
      requires Valid()
      requires 0 < pages < 0x8_0000  // beyond, the byte count overflows a C int
      modifies this
      ensures Valid()
      ensures var cursor := old(currentAvailPage);
              var usable := regions.PageValid(cursor) && regions.PageValid(cursor + PAGE_SIZE_4K * (pages - 1));
              && first == (if usable then cursor else 0)
              && granted == (if usable then old(granted) + [Block(first, pages)] else old(granted))
              && (if usable then cursor + PAGE_SIZE_4K * pages <= currentAvailPage else currentAvailPage == cursor)
      // the cursor leaves no usable page behind, and is itself usable as long as any is left
      ensures forall page :: old(currentAvailPage) + PAGE_SIZE_4K * pages <= page < currentAvailPage ==>
                               !regions.PageValid(page)
      ensures first != 0 && (exists page :: currentAvailPage <= page && regions.PageValid(page)) ==>
                regions.PageValid(currentAvailPage)
    {
      var firstPage := currentAvailPage;
      var lastPage := currentAvailPage + PAGE_SIZE_4K * (pages - 1);
      if !regions.PageValid(firstPage) || !regions.PageValid(lastPage) {
        return 0;
      }
      var nextPage := currentAvailPage + PAGE_SIZE_4K * pages;
      if !regions.PageValid(nextPage) && nextPage < regions.addrHigh {
        nextPage := regions.addrHigh;
      }
      currentAvailPage := nextPage;
      granted := granted + [Block(firstPage, pages)];
      return firstPage;
    }
  }

  /** Setting one bit of a byte clears nothing and sets only that bit. */
  lemma SetBit(b: bv8, i: nat, j: nat)
    requires i < 8 && j < 8
    ensures ((b | (1 << i)) >> j) & 1 == 0 <==> (b >> j) & 1 == 0 && i != j
  {
    var bi, bj := i as bv8, j as bv8;
    assert 1 as bv8 << i == 1 << bi && b >> j == b >> bj;
  }
}

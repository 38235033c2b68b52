/** Loading the guest image through the extended page table (vm_monitor/vmx_vmcs.c). */
module GuestImage {
  import opened Bytes
  import opened Frames
  import opened Options
  import opened PageTree
  import opened HostPaging
  import opened Machines
  import opened ExtendedPaging
  import EptHardware

  function ByteAt(m: Memory, addr: nat): Byte {
    ByteOf(m[addr / 0x1000][addr % 0x1000 / 8], addr % 8)
  }

  lemma EightBytes()
    ensures Power256(8) == 0x1_0000_0000_0000_0000
  {
    assert Power256(4) == 0x1_0000_0000;
  }

  function BytesAt(m: Memory, a: nat): (bytes: seq<Byte>)
    ensures |bytes| == 8 && forall k :: 0 <= k < 8 ==> bytes[k] == ByteAt(m, a + k)
  {
    seq<Byte>(8, k requires 0 <= k < 8 => ByteAt(m, a + k))
  }

  /** The quadword whose bytes are those at `a` onwards. */
  function WordAt(m: Memory, a: nat): Word {
    EightBytes();
    LittleEndian(BytesAt(m, a))
  }

  /** The page that a 4096-byte memcpy from `src` leaves behind. */
  function CopiedPage(m: Memory, src: nat): Page {
    seq(512, j requires 0 <= j < 512 => WordAt(m, src + 8 * j))
  }

  lemma AddressInPage(page: nat, i: nat)
    requires i < 0x1000
    ensures (page * 0x1000 + i) / 0x1000 == page && (page * 0x1000 + i) % 0x1000 == i && (page * 0x1000 + i) % 8 == i % 8
  {
    assert (page * 0x1000 + i) == 8 * (page * 0x200 + i / 8) + i % 8;
  }

  lemma CopiedByte(m: Memory, src: nat, page: nat, i: nat)
    requires i < 0x1000
    ensures ByteAt(m[page := CopiedPage(m, src)], page * 0x1000 + i) == ByteAt(m, src + i)
  {
    AddressInPage(page, i);
    var a := src + 8 * (i / 8);
    assert CopiedPage(m, src)[i / 8] == WordAt(m, a);
    ByteOfLittleEndian(BytesAt(m, a), i % 8);
    assert a + i % 8 == src + i;
  }

  /** Only frames of this guest differ between `m0` and `m`. */
  ghost predicate OnlyFrames(m0: Memory, m: Memory, owners: Owners, base: nat) {
    forall p: nat :: m[p] == m0[p] || (p in owners && owners[p].GuestFrame? && owners[p].ept == base)
  }

  /** Writing frames changes no translation, of any guest or of the kernel. */
  lemma FramesCarryNoTables(m0: Memory, m: Memory, owners: Owners, base: nat, root: nat, x: nat)
    requires OnlyFrames(m0, m, owners, base) && Tree(Ept, m0, root, owners)
    ensures Tree(Ept, m, root, owners)
    ensures GuestLeaf(m, root, x) == GuestLeaf(m0, root, x)
    ensures GuestToHost(m, root, x) == GuestToHost(m0, root, x)
  {
    TreeFrame(Ept, m0, m, root, owners, owners);
    WalkDependsOnTables(Ept, m0, m, root, owners, PtNode(x));
    GuestToHostByLeaf(m0, root, x);
    GuestToHostByLeaf(m, root, x);
  }

  /** Byte `i` of guest-physical memory, counted from its second page. */
  function GuestByte(m: Memory, walk: Memory, base: nat, i: nat): Byte {
    ByteAt(m, GuestToHost(walk, base, 0x1000 + i))
  }

  function ImageByte(m: Memory, img: nat, i: nat): Byte {
    ByteAt(m, img + i)
  }

  /** Guest-physical bytes from the second page on are the image's first `n` bytes. */
  ghost predicate Loaded(m: Memory, m0: Memory, base: nat, img: nat, n: nat) {
    forall i: nat :: i < n ==> GuestByte(m, m0, base, i) == ImageByte(m0, img, i)
  }

  /** The image lies in the reserved prefix and fits the guest pages that are backed. */
  ghost predicate ImageFits(m0: Memory, owners: Owners, base: nat, img: nat, hi: nat, pages: nat) {
    && Tree(Ept, m0, base, owners)
    && RamBacked(m0, base, owners, 1, hi) && hi <= 0x10_0000_0000 && pages < hi
    && (forall p :: p in owners ==> img + pages * 0x1000 < p * 0x1000)
  }

  lemma SameFrame(m: Memory, base: nat, owners: Owners, hi: nat, x: nat, y: nat)
    requires RamBacked(m, base, owners, 1, hi)
    requires x < 0x1_0000_0000_0000 && y < 0x1_0000_0000_0000 && 1 <= x / 0x1000 == y / 0x1000 < hi
    ensures GuestToHost(m, base, x) / 0x1000 == GuestToHost(m, base, y) / 0x1000
    ensures GuestToHost(m, base, y) == GuestToHost(m, base, x) / 0x1000 * 0x1000 + y % 0x1000
  {
    RamTranslation(m, base, owners, 1, hi, x);
    RamTranslation(m, base, owners, 1, hi, y);
    SameLeaf(m, base, x, y);
    AddressInPage(EptNext(GuestLeaf(m, base, x)), x % 0x1000);
    AddressInPage(EptNext(GuestLeaf(m, base, x)), y % 0x1000);
  }

  lemma SameLeaf(m: Memory, base: nat, x: nat, y: nat)
    requires x < 0x1_0000_0000_0000 && y < 0x1_0000_0000_0000 && x / 0x1000 == y / 0x1000
    ensures GuestLeaf(m, base, x) == GuestLeaf(m, base, y)
  {
    IndicesNameThePage(x, y);
    Low48(x, y);
  }

  /** `f` is the frame behind the guest page that image page `k` goes to. */
  ghost predicate Target(m0: Memory, owners: Owners, base: nat, f: nat, k: nat) {
    GuestToHost(m0, base, (k + 1) * 0x1000) == f * 0x1000 && f in owners && owners[f] == GuestFrame(base, k + 1)
  }

  lemma TargetOf(m: Memory, base: nat, owners: Owners, hi: nat, k: nat)
    requires RamBacked(m, base, owners, 1, hi) && k + 1 < hi <= 0x10_0000_0000
    ensures Target(m, owners, base, GuestToHost(m, base, (k + 1) * 0x1000) / 0x1000, k)
  {
    AddressInPage(k + 1, 0);
    RamTranslation(m, base, owners, 1, hi, (k + 1) * 0x1000);
  }

  /** A page already copied keeps its bytes, because its frame is another one. */
  lemma OldByteKept(m: Memory, m0: Memory, owners: Owners, base: nat, hi: nat, f: nat, k: nat, page: Page, i: nat)
    requires RamBacked(m0, base, owners, 1, hi) && k + 1 < hi <= 0x10_0000_0000
    requires Target(m0, owners, base, f, k) && i < k * 0x1000
    ensures GuestByte(m[f := page], m0, base, i) == GuestByte(m, m0, base, i)
  {
    var q := i / 0x1000;
    AddressInPage(q + 1, i % 0x1000);
    assert 0x1000 + i == (q + 1) * 0x1000 + i % 0x1000 && q < k;
    RamTranslation(m0, base, owners, 1, hi, 0x1000 + i);
    assert GuestToHost(m0, base, 0x1000 + i) / 0x1000 != f;
  }

  lemma NewByteCopied(m: Memory, m0: Memory, owners: Owners, base: nat, src: nat, hi: nat, f: nat, k: nat, page: Page, i: nat)
    requires RamBacked(m0, base, owners, 1, hi) && k + 1 < hi <= 0x10_0000_0000
    requires Target(m0, owners, base, f, k) && page == CopiedPage(m, src)
    requires k * 0x1000 <= i < (k + 1) * 0x1000
    ensures GuestByte(m[f := page], m0, base, i) == ByteAt(m, src + (i - k * 0x1000))
  {
    var d := i - k * 0x1000;
    assert GuestToHost(m0, base, 0x1000 + i) == f * 0x1000 + d by {
      AddressInPage(k + 1, 0);
      AddressInPage(k + 1, d);
      AddressInPage(f, 0);
      assert 0x1000 + i == (k + 1) * 0x1000 + d;
      SameFrame(m0, base, owners, hi, (k + 1) * 0x1000, (k + 1) * 0x1000 + d);
    }
    CopiedByte(m, src, f, d);
  }

  lemma CopyOnePage(m: Memory, m0: Memory, owners: Owners, base: nat, img: nat, src: nat, hi: nat, pages: nat, f: nat, k: nat,
                    page: Page)
    requires ImageFits(m0, owners, base, img, hi, pages) && k < pages
    requires src == img + k * 0x1000 && page == CopiedPage(m, src)
    requires OnlyFrames(m0, m, owners, base) && Loaded(m, m0, base, img, k * 0x1000)
    requires Target(m0, owners, base, f, k)
    ensures OnlyFrames(m0, m[f := page], owners, base)
    ensures Loaded(m[f := page], m0, base, img, (k + 1) * 0x1000)
  {
    forall i: nat | i < (k + 1) * 0x1000
      ensures GuestByte(m[f := page], m0, base, i) == ImageByte(m0, img, i)
    {
      ByteAfterCopy(m, m0, owners, base, img, src, hi, pages, f, k, page, i);
    }
  }

  lemma ByteAfterCopy(m: Memory, m0: Memory, owners: Owners, base: nat, img: nat, src: nat, hi: nat, pages: nat, f: nat, k: nat,
                      page: Page, i: nat)
    requires ImageFits(m0, owners, base, img, hi, pages) && k < pages
    requires src == img + k * 0x1000 && page == CopiedPage(m, src)
    requires OnlyFrames(m0, m, owners, base) && Target(m0, owners, base, f, k)
    requires i < k * 0x1000 ==> GuestByte(m, m0, base, i) == ImageByte(m0, img, i)
    requires i < (k + 1) * 0x1000
    ensures GuestByte(m[f := page], m0, base, i) == ImageByte(m0, img, i)
  {
    if i < k * 0x1000 {
      OldByteKept(m, m0, owners, base, hi, f, k, page, i);
    } else {
      NewByteCopied(m, m0, owners, base, src, hi, f, k, page, i);
      assert src + (i - k * 0x1000) == img + i;
      ReservedByteKept(m, m0, owners, base, img + i);
    }
  }

  lemma ReservedByteKept(m: Memory, m0: Memory, owners: Owners, base: nat, a: nat)
    requires OnlyFrames(m0, m, owners, base) && forall p :: p in owners ==> a < p * 0x1000
    ensures ByteAt(m, a) == ByteAt(m0, a)
  {
    assert a / 0x1000 * 0x1000 <= a;
    assert a / 0x1000 !in owners;
  }

  /** Pages of 4 KB that cover the image. */
  function ImagePages(img: nat, imgEnd: nat): nat {
    if img < imgEnd then (imgEnd - img + 0xfff) / 0x1000 else 0
  }

  /** One round of the loader's loop; `k` pages are already in place. */
  method CopyPage(mc: Machine, base: nat, imgAddr: nat, guestAddr: nat,
                  ghost m0: Memory, ghost img: nat, ghost hi: nat, ghost pages: nat, ghost k: nat) returns (ok: bool)
    requires ImageFits(m0, mc.owners, base, img, hi, pages) && k < pages
    requires imgAddr == img + k * 0x1000 && guestAddr == (k + 1) * 0x1000
    requires OnlyFrames(m0, mc.mem, mc.owners, base) && Loaded(mc.mem, m0, base, img, k * 0x1000)
    modifies mc`mem
    ensures ok ==> OnlyFrames(m0, mc.mem, mc.owners, base) && Loaded(mc.mem, m0, base, img, (k + 1) * 0x1000)
    ensures !ok ==> mc.mem == old(mc.mem) && SomeFrameLost(mc.mem, mc.pml4Base, mc.owners)
  {
    var host := GuestToHost(mc.mem, base, guestAddr);
    var f := host / 0x1000;
    assert Target(m0, mc.owners, base, f, k) && host == f * 0x1000 by {
      FramesCarryNoTables(m0, mc.mem, mc.owners, base, base, guestAddr);
      TargetOf(m0, base, mc.owners, hi, k);
    }
    if Pa(mc.mem, mc.pml4Base, host) != host {
      assert IsFrame(mc.owners, f) && !IdentityMapped(mc.mem, mc.pml4Base, f);
      return false;
    }
    var page := CopiedPage(mc.mem, imgAddr);
    CopyOnePage(mc.mem, m0, mc.owners, base, img, imgAddr, hi, pages, f, k, page);
    mc.mem := mc.mem[f := page];
    return true;
  }

  ghost predicate IsFrame(owners: Owners, p: nat) {
    p in owners && owners[p].GuestFrame?
  }

  /** The loader's assertion fails for some frame. */
  ghost predicate SomeFrameLost(m: Memory, pml4: nat, owners: Owners) {
    exists p :: IsFrame(owners, p) && !IdentityMapped(m, pml4, p)
  }

  /** It never does: whatever has been copied into frames, each is where the kernel reaches it. */
  lemma NoFrameLost(m0: Memory, m: Memory, owners: Owners, base: nat, pml4: nat, mapped: seq<Mapping>)
    requires HostRefines(m0, pml4, owners, mapped) && OnlyFrames(m0, m, owners, base)
    ensures HostRefines(m, pml4, owners, mapped) && !SomeFrameLost(m, pml4, owners)
  {
    HostUnaffected(m0, owners, m, owners, pml4, mapped);
    forall p | IsFrame(owners, p) ensures IdentityMapped(m, pml4, p) {
      ForeignPagesReached(m, pml4, owners, mapped, p);
    }
  }

  /**
  initialize_vmcs_guest_image: none of its assertions ever fails, and it leaves every image byte at its
  guest-physical address and every translation as it was.
  */
  method LoadGuestImage(mc: Machine, base: nat, img: nat, imgEnd: nat, ghost hi: nat) returns (ok: bool)
    requires mc.Valid() && Tree(Ept, mc.mem, base, mc.owners)
    requires RamBacked(mc.mem, base, mc.owners, 1, hi) && ImagePages(img, imgEnd) < hi <= 0x10_0000_0000
    requires img + ImagePages(img, imgEnd) * 0x1000 <= mc.alloc.reservedEnd
    modifies mc`mem
    ensures ok && mc.Valid() && OnlyFrames(old(mc.mem), mc.mem, mc.owners, base)
    ensures forall x: nat :: GuestToHost(mc.mem, base, x) == GuestToHost(old(mc.mem), base, x)
    ensures forall i: nat :: i < imgEnd - img ==> GuestByte(mc.mem, mc.mem, base, i) == ImageByte(old(mc.mem), img, i)
  {
    var imgAddr, guestAddr := img, 0x1000;
    ghost var k, pages := 0, ImagePages(img, imgEnd);
    ok := true;
    while ok && imgAddr < imgEnd
      invariant k <= pages && imgAddr == img + k * 0x1000 && guestAddr == (k + 1) * 0x1000
      invariant OnlyFrames(old(mc.mem), mc.mem, mc.owners, base)
      invariant Loaded(mc.mem, old(mc.mem), base, img, k * 0x1000)
      invariant !ok ==> SomeFrameLost(mc.mem, mc.pml4Base, mc.owners)
      decreases ok, imgEnd - imgAddr
    {
      ok := CopyPage(mc, base, imgAddr, guestAddr, old(mc.mem), img, hi, pages, k);
      if ok {
        imgAddr, guestAddr, k := imgAddr + 0x1000, guestAddr + 0x1000, k + 1;
      }
    }
    NoFrameLost(old(mc.mem), mc.mem, mc.owners, base, mc.pml4Base, mc.mapped);
    LoadFinished(old(mc.mem), mc.mem, mc.owners, base, img, imgEnd, k);
  }

  lemma LoadFinished(m0: Memory, m: Memory, owners: Owners, base: nat, img: nat, imgEnd: nat, k: nat)
    requires Tree(Ept, m0, base, owners) && OnlyFrames(m0, m, owners, base)
    requires Loaded(m, m0, base, img, k * 0x1000) && imgEnd <= img + k * 0x1000
    ensures forall x: nat :: GuestToHost(m, base, x) == GuestToHost(m0, base, x)
    ensures forall i: nat :: i < imgEnd - img ==> GuestByte(m, m, base, i) == ImageByte(m0, img, i)
  {
    forall x: nat ensures GuestToHost(m, base, x) == GuestToHost(m0, base, x) {
      FramesCarryNoTables(m0, m, owners, base, base, x);
    }
    forall i: nat | i < imgEnd - img ensures GuestByte(m, m, base, i) == ImageByte(m0, img, i) {
      assert GuestByte(m, m0, base, i) == ImageByte(m0, img, i);
    }
  }

  /** Bytes below the allocator's reach are as they were before the guest was set up. */
  lemma ReservedBytesKept(base: nat, m: Memory, o: Owners, m': Memory, o': Owners, limit: nat, a: nat)
    requires OthersKept(base, m, o, m', o') && a < limit && forall p :: p in o' ==> limit < p * 0x1000
    ensures ByteAt(m', a) == ByteAt(m, a)
  {
    assert a / 0x1000 * 0x1000 <= a;
    assert a / 0x1000 !in o';
  }

  /** A frame keeps its bytes, and the guest its translations to it, while an IO page is mapped elsewhere. */
  lemma IoKeepsByte(m: Memory, m': Memory, base: nat, o: Owners, o': Owners, gpa: Word, lo: nat, hi: nat, x: nat)
    requires RamBacked(m, base, o, lo, hi) && gpa < 0x1_0000_0000_0000 && !(lo <= gpa / 0x1000 < hi)
    requires OneLeaf(m, m', base, gpa, LeafWord(0, IoMemory)) && OnlyTree(Ept, base, m, o, m', o')
    requires x < 0x1_0000_0000_0000 && lo <= x / 0x1000 < hi
    ensures GuestToHost(m', base, x) == GuestToHost(m, base, x)
    ensures ByteAt(m', GuestToHost(m', base, x)) == ByteAt(m, GuestToHost(m, base, x))
  {
    RamTranslation(m, base, o, lo, hi, x);
    Low48(gpa, x);
    GuestToHostByLeaf(m, base, x);
    IoTranslation(m, m', base, gpa, x);
    assert OwnFrame(m, base, o, x);
  }

  /** The guest's image is in place, seen through the final tables, as it was in memory `m0`. */
  ghost predicate ImageInPlace(m0: Memory, m: Memory, base: nat, img: nat, imgEnd: nat) {
    forall i: nat :: i < imgEnd - img ==> GuestByte(m, m, base, i) == ImageByte(m0, img, i)
  }

  /**
  initialize_vmcs as far as memory goes: 16 MB and a page of RAM, the image, the video page. On success
  all 4097 pages have frames of their own, the video page traps, and every image byte reads back. It halts
  only where memory has run out or a page it takes for a table or frame is not identity mapped.
  */
  method SetUpGuest(mc: Machine, img: nat, imgEnd: nat) returns (base: Option<nat>)
    requires mc.Valid()
    requires ImagePages(img, imgEnd) < 4097 && img + ImagePages(img, imgEnd) * 0x1000 <= mc.alloc.reservedEnd
    modifies mc`mem, mc`owners, mc.alloc
    ensures base.Some? ==> mc.Valid() && Tree(Ept, mc.mem, base.value, mc.owners)
    ensures base.Some? ==> RamBacked(mc.mem, base.value, mc.owners, 0, 4097)
    ensures base.Some? ==> GuestToHost(mc.mem, base.value, VIDEO_BUFFER_PAGE_FRAME) == NO_TRANSLATION
    ensures base.Some? ==> ProcessorSees(mc.mem, base.value)
    ensures base.Some? ==> ImageInPlace(old(mc.mem), mc.mem, base.value, img, imgEnd)
    ensures base.None? ==> AssertionFails(mc, 0)
  {
    base := SetupBasicPhysicalMemory(mc, 0, 0x100_0000);
    if base.None? {
      return;
    }
    assert RamBacked(mc.mem, base.value, mc.owners, 0, 4097) && PagesThrough(0, 0x100_0000) == 4097;
    var ok := LoadAndMapVideo(mc, base.value, img, imgEnd, old(mc.mem), old(mc.owners));
    if !ok {
      base := None;
    }
  }

  /** The guest may read, write and execute its RAM, and every access to the video page traps. */
  ghost predicate ProcessorSees(m: Memory, base: nat) {
    && (forall x: nat :: x < 4097 * 0x1000 ==>
          EptHardware.Walk(m, base, x) ==
          EptHardware.Allowed(EptHardware.ALL_RIGHTS, EptHardware.WRITE_BACK, true, GuestToHost(m, base, x)))
    && EptHardware.Walk(m, base, VIDEO_BUFFER_PAGE_FRAME) == EptHardware.Misconfiguration
  }

  lemma GuestRuns(m: Memory, m': Memory, base: nat, o': Owners)
    requires Tree(Ept, m', base, o') && RamBacked(m', base, o', 0, 4097)
    requires OneLeaf(m, m', base, VIDEO_BUFFER_PAGE_FRAME, LeafWord(0, IoMemory))
    ensures ProcessorSees(m', base)
  {
    forall x: nat | x < 4097 * 0x1000
      ensures EptHardware.Walk(m', base, x) ==
              EptHardware.Allowed(EptHardware.ALL_RIGHTS, EptHardware.WRITE_BACK, true, GuestToHost(m', base, x))
    {
      EptHardware.RamAccess(m', base, o', 0, 4097, x);
    }
    EptHardware.IoTraps(m, m', base, o', VIDEO_BUFFER_PAGE_FRAME, VIDEO_BUFFER_PAGE_FRAME);
  }

  method LoadAndMapVideo(mc: Machine, base: nat, img: nat, imgEnd: nat, ghost m0: Memory, ghost o0: Owners) returns (ok: bool)
    requires mc.Valid() && Tree(Ept, mc.mem, base, mc.owners) && RamBacked(mc.mem, base, mc.owners, 0, 4097)
    requires ImagePages(img, imgEnd) < 4097 && img + ImagePages(img, imgEnd) * 0x1000 <= mc.alloc.reservedEnd
    requires OthersKept(base, m0, o0, mc.mem, mc.owners) && GuestLeaf(mc.mem, base, VIDEO_BUFFER_PAGE_FRAME) == 0
    modifies mc`mem, mc`owners, mc.alloc
    ensures !ok ==> AssertionFails(mc, 0)
    ensures ok ==> mc.Valid() && Tree(Ept, mc.mem, base, mc.owners) && RamBacked(mc.mem, base, mc.owners, 0, 4097)
    ensures ok ==> GuestToHost(mc.mem, base, VIDEO_BUFFER_PAGE_FRAME) == NO_TRANSLATION && ProcessorSees(mc.mem, base)
    ensures ok ==> ImageInPlace(m0, mc.mem, base, img, imgEnd)
  {
    ok := LoadGuestImage(mc, base, img, imgEnd, 4097);
    ghost var m2, o2 := mc.mem, mc.owners;
    LoadedGuestKept(old(mc.mem), m2, o2, base);
    ImageFromBefore(m0, o0, old(mc.mem), m2, o2, base, img, imgEnd, mc.alloc.reservedEnd);
    ok := SetupIoMemory(mc, base, VIDEO_BUFFER_PAGE_FRAME);
    if ok {
      VideoMapped(m0, m2, mc.mem, o2, mc.owners, base, img, imgEnd);
    }
  }

  lemma VideoMapped(m0: Memory, m: Memory, m': Memory, o: Owners, o': Owners, base: nat, img: nat, imgEnd: nat)
    requires RamBacked(m, base, o, 0, 4097) && ImageInPlace(m0, m, base, img, imgEnd) && ImagePages(img, imgEnd) < 4097
    requires OneLeaf(m, m', base, VIDEO_BUFFER_PAGE_FRAME, LeafWord(0, IoMemory)) && OnlyTree(Ept, base, m, o, m', o')
    requires Tree(Ept, m', base, o')
    ensures RamBacked(m', base, o', 0, 4097) && ProcessorSees(m', base) && ImageInPlace(m0, m', base, img, imgEnd)
    ensures GuestToHost(m', base, VIDEO_BUFFER_PAGE_FRAME) == NO_TRANSLATION
  {
    IoKeepsRam(m, m', base, o, o', VIDEO_BUFFER_PAGE_FRAME, 0, 4097);
    ImageAfterIo(m0, m, m', o, o', base, img, imgEnd);
    GuestRuns(m, m', base, o');
    IoTranslation(m, m', base, VIDEO_BUFFER_PAGE_FRAME, VIDEO_BUFFER_PAGE_FRAME);
  }

  lemma LoadedGuestKept(m: Memory, m': Memory, o: Owners, base: nat)
    requires Tree(Ept, m, base, o) && RamBacked(m, base, o, 0, 4097) && OnlyFrames(m, m', o, base)
    ensures Tree(Ept, m', base, o) && RamBacked(m', base, o, 0, 4097)
    ensures forall x: nat :: GuestLeaf(m', base, x) == GuestLeaf(m, base, x)
  {
    FramesCarryNoTables(m, m', o, base, base, 0);
    forall x: nat ensures GuestLeaf(m', base, x) == GuestLeaf(m, base, x) {
      FramesCarryNoTables(m, m', o, base, base, x);
    }
    forall x: nat | x < 0x1_0000_0000_0000 && 0 <= x / 0x1000 < 4097 ensures OwnFrame(m', base, o, x) {
      assert OwnFrame(m, base, o, x);
    }
  }

  lemma ImageFromBefore(m0: Memory, o0: Owners, m1: Memory, m2: Memory, o: Owners, base: nat, img: nat, imgEnd: nat, limit: nat)
    requires OthersKept(base, m0, o0, m1, o) && ImageInPlace(m1, m2, base, img, imgEnd)
    requires imgEnd <= limit && forall p :: p in o ==> limit < p * 0x1000
    ensures ImageInPlace(m0, m2, base, img, imgEnd)
  {
    forall i: nat | i < imgEnd - img ensures GuestByte(m2, m2, base, i) == ImageByte(m0, img, i) {
      assert GuestByte(m2, m2, base, i) == ImageByte(m1, img, i);
      ReservedBytesKept(base, m0, o0, m1, o, limit, img + i);
    }
  }

  lemma ImageAfterIo(m0: Memory, m: Memory, m': Memory, o: Owners, o': Owners, base: nat, img: nat, imgEnd: nat)
    requires RamBacked(m, base, o, 0, 4097) && ImageInPlace(m0, m, base, img, imgEnd) && ImagePages(img, imgEnd) < 4097
    requires OneLeaf(m, m', base, VIDEO_BUFFER_PAGE_FRAME, LeafWord(0, IoMemory)) && OnlyTree(Ept, base, m, o, m', o')
    ensures ImageInPlace(m0, m', base, img, imgEnd)
  {
    forall i: nat | i < imgEnd - img ensures GuestByte(m', m', base, i) == ImageByte(m0, img, i) {
      ByteInRam(img, imgEnd, i);
      IoKeepsByte(m, m', base, o, o', VIDEO_BUFFER_PAGE_FRAME, 0, 4097, 0x1000 + i);
      assert GuestByte(m, m, base, i) == ImageByte(m0, img, i);
    }
  }

  lemma ByteInRam(img: nat, imgEnd: nat, i: nat)
    requires ImagePages(img, imgEnd) < 4097 && i < imgEnd - img
    ensures (0x1000 + i) / 0x1000 < 4097
  {
  }
}

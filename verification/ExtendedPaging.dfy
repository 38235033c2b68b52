/** Extended page tables: vm_monitor/vmx_ept.c over the same memory, allocator and tree. */
module ExtendedPaging {
  import opened Arithmetic
  import opened Frames
  import opened Options
  import opened PageTree
  import opened PhysicalMemory
  import opened HostPaging
  import opened Machines

  datatype Backing = SystemMemory | IoMemory

  function EptNext(w: Word): nat { w / 0x1000 % 0x1000_0000 }

  /** guestpa_to_hostpa; note that the last test lets an empty leaf through. */
  function GuestToHost(m: Memory, base: nat, gpa: nat): nat {
    var l4 := m[base][Level4Index(gpa)];
    if l4 % 4 == 0 then NO_TRANSLATION else
    var l3 := m[EptNext(l4)][Level3Index(gpa)];
    if l3 % 4 == 0 then NO_TRANSLATION else
    var l2 := m[EptNext(l3)][Level2Index(gpa)];
    if l2 % 4 == 0 then NO_TRANSLATION else
    var l1 := m[EptNext(l2)][Level1Index(gpa)];
    if l1 % 4 == 2 then NO_TRANSLATION else
    EptNext(l1) * 0x1000 + gpa % 0x1000
  }

  /** The leaf entry of a guest page, 0 where there is no page table. */
  function GuestLeaf(m: Memory, base: nat, gpa: nat): Word {
    EntryOf(Ept, m, base, PtNode(gpa), Level1Index(gpa))
  }

  predicate HasPageTable(m: Memory, base: nat, gpa: nat) {
    TableOf(Ept, m, base, PtNode(gpa)).Some?
  }

  lemma GuestToHostByLeaf(m: Memory, base: nat, gpa: nat)
    ensures var leaf := GuestLeaf(m, base, gpa);
            GuestToHost(m, base, gpa) ==
            if !HasPageTable(m, base, gpa) || leaf % 4 == 2 then NO_TRANSLATION
            else EptNext(leaf) * 0x1000 + gpa % 0x1000
  {
    assert TableOf(Ept, m, base, Root) == Some(base);
    var t3 := TableOf(Ept, m, base, PdptNode(gpa));
    var t2 := TableOf(Ept, m, base, PdNode(gpa));
    var t1 := TableOf(Ept, m, base, PtNode(gpa));
  }

  /** The leaf map_ept_page stores; an IO leaf is writable but not readable, a misconfiguration. */
  function LeafWord(phy: Word, backing: Backing): Word {
    if backing.SystemMemory? then phy / 0x1000 % 0x100_0000_0000 * 0x1000 + 0x477 else 0x476
  }

  lemma LeafWordMeaning(phy: Word)
    ensures LeafWord(phy, SystemMemory) % 4 == 3 && EptNext(LeafWord(phy, SystemMemory)) == phy / 0x1000 % 0x1000_0000
    ensures LeafWord(phy, IoMemory) % 4 == 2
  {
    var a := phy / 0x1000;
    var r := a % 0x100_0000_0000;
    assert LeafWord(phy, SystemMemory) / 0x1000 == r;
    DivisionOf(a, 0x1000_0000, a / 0x100_0000_0000 * 0x1000 + r / 0x1000_0000, r % 0x1000_0000);
  }

  /** RAM: readable, writable and fetchable in both modes, write-back whatever the guest's PAT says, below 1 TB. */
  predicate RamLeaf(w: Word) {
    w < 0x100_0000_0000 && w % 8 == 7 && w / 0x400 % 2 == 1 && w / 8 % 8 == 6 && w / 0x40 % 2 == 1
  }

  /** A frame below the 1 TB that the 40-bit field carries comes back unchanged, as RAM. */
  lemma FrameLeaf(c: nat)
    requires c < 0x1000_0000
    ensures RamLeaf(LeafWord(c * 0x1000, SystemMemory)) && EptNext(LeafWord(c * 0x1000, SystemMemory)) == c
  {
    assert c * 0x1000 / 0x1000 == c;
    LeafWordMeaning(c * 0x1000);
    var w := LeafWord(c * 0x1000, SystemMemory);
    DivisionOf(c, 0x100_0000_0000, 0, c);
    assert w == c * 0x1000 + 0x477;
    DivisionOf(w, 8, c * 0x200 + 0x8e, 7);
    DivisionOf(c * 0x200 + 0x8e, 8, c * 0x40 + 0x11, 6);
    DivisionOf(w, 0x40, c * 0x40 + 0x11, 0x37);
    DivisionOf(c * 0x40 + 0x11, 2, c * 0x20 + 8, 1);
    DivisionOf(w, 0x400, c * 4 + 1, 0x77);
    DivisionOf(c * 4 + 1, 2, c * 2, 1);
  }

  ghost predicate IdentityMapped(m: Memory, pml4: nat, page: nat) {
    Pa(m, pml4, page * 0x1000) == page * 0x1000
  }

  /** The assertions in EPT construction that can halt the machine. */
  ghost predicate AssertionFails(mc: Machine, from: nat)
    reads mc, mc.alloc
  {
    || !mc.alloc.regions.PageValid(mc.alloc.currentAvailPage)
    || exists p :: from <= p * 0x1000 < mc.alloc.currentAvailPage && !IdentityMapped(mc.mem, mc.pml4Base, p)
  }

  /** While the boot-time map stands, the assertions fail only once the pages below its ceiling are used up. */
  lemma AssertionsHoldBelowCeiling(mc: Machine, from: nat)
    requires mc.Valid() && IdentityMap(1024) <= mc.mapped && AssertionFails(mc, from)
    ensures !mc.alloc.regions.PageValid(mc.alloc.currentAvailPage) || INITIAL_VA_CEILING < mc.alloc.currentAvailPage
  {
    if p :| from <= p * 0x1000 < mc.alloc.currentAvailPage && !IdentityMapped(mc.mem, mc.pml4Base, p) {
      if p * 0x1000 < INITIAL_VA_CEILING && 0 <= p {
        IdentityPersists(mc.mem, mc.pml4Base, mc.owners, mc.mapped, p * 0x1000);
      }
    }
  }

  /** get_physical_page under the assertion that it is non-zero and identity mapped. */
  method GetIdentityPage(mc: Machine) returns (c: Option<nat>)
    requires mc.Valid()
    modifies mc.alloc
    ensures mc.Valid() && mc.alloc.currentAvailPage >= old(mc.alloc.currentAvailPage)
    ensures c.None? ==> AssertionFails(mc, old(mc.alloc.currentAvailPage))
    ensures c.Some? ==> c.value < 0x1000_0000 && c.value !in mc.owners && old(mc.alloc.currentAvailPage) <= c.value * 0x1000
                        && SentToItself(mc.mapped, c.value)
                        && Granted(c.value, mc.alloc.reservedEnd, mc.alloc.currentAvailPage)
  {
    c := mc.GetPhysicalPage();
    if c.Some? && Pa(mc.mem, mc.pml4Base, c.value * 0x1000) != c.value * 0x1000 {
      assert !IdentityMapped(mc.mem, mc.pml4Base, c.value);
      c := None;
    }
  }

  /** Only an extended page table grew; the kernel's address space is as it was. */
  lemma EptGrowth(base: nat, m: Memory, o: Owners, m': Memory, o': Owners, pml4: nat, mapped: seq<Mapping>)
    requires HostRefines(m, pml4, o, mapped) && OnlyTree(Ept, base, m, o, m', o')
    requires forall p :: p in o' && p !in o ==> SentToItself(mapped, p)
    ensures HostRefines(m', pml4, o', mapped)
    ensures forall x: nat :: Pa(m', pml4, x) == Pa(m, pml4, x)
  {
    forall p | IsTable(Host, pml4, o', p) ensures p in o && m'[p] == m[p] {
    }
    HostUnaffected(m, o, m', o', pml4, mapped);
  }

  /** No leaf changed, and page tables appeared at most for the region of `gpa`. */
  ghost predicate SameLeaves(m: Memory, m': Memory, base: nat, gpa: nat) {
    && (forall x: nat :: GuestLeaf(m', base, x) == GuestLeaf(m, base, x))
    && (forall x: nat :: PtNode(x) != PtNode(gpa) ==> HasPageTable(m', base, x) == HasPageTable(m, base, x))
  }

  lemma SameLeavesTransitive(m: Memory, m1: Memory, m2: Memory, base: nat, gpa: nat)
    requires SameLeaves(m, m1, base, gpa) && SameLeaves(m1, m2, base, gpa)
    ensures SameLeaves(m, m2, base, gpa)
  {
  }

  lemma UpperTableSameLeaves(m: Memory, m': Memory, base: nat, gpa: nat, n: Node, i: Index, w: Word)
    requires Child(n, i) in {PdptNode(gpa), PdNode(gpa), PtNode(gpa)}
    requires OneEntryChanged(Ept, m, m', base, n, i, w)
    requires forall x :: IsNode(x) && x != Child(n, i) ==> TableOf(Ept, m', base, x) == TableOf(Ept, m, base, x)
    ensures SameLeaves(m, m', base, gpa)
  {
    assert n.Depth() < 3;
  }

  /** One of the three upper levels of map_ept_page: the table below an entry, installed on demand. */
  method NextEptLevel(mc: Machine, base: nat, ghost gpa: nat, ghost n: Node, p: nat, i: Index) returns (c: Option<nat>)
    requires mc.Valid() && Tree(Ept, mc.mem, base, mc.owners)
    requires Child(n, i) in {PdptNode(gpa), PdNode(gpa), PtNode(gpa)} && TableOf(Ept, mc.mem, base, n) == Some(p)
    modifies mc`mem, mc`owners, mc.alloc
    ensures mc.Valid() && Tree(Ept, mc.mem, base, mc.owners)
    ensures OnlyTree(Ept, base, old(mc.mem), old(mc.owners), mc.mem, mc.owners)
    ensures SameLeaves(old(mc.mem), mc.mem, base, gpa)
    ensures mc.alloc.currentAvailPage >= old(mc.alloc.currentAvailPage)
    ensures c.None? ==> AssertionFails(mc, old(mc.alloc.currentAvailPage))
    ensures c.Some? ==> TableOf(Ept, mc.mem, base, Child(n, i)) == c
  {
    assert n.Depth() < 3;
    if mc.mem[p][i] % 4 != 0 {
      return Some(EptNext(mc.mem[p][i]));
    }
    c := GetIdentityPage(mc);
    if c.Some? {
      mc.LinkTable(Ept, base, n, p, i, c.value);
      EptGrowth(base, old(mc.mem), old(mc.owners), mc.mem, mc.owners, mc.pml4Base, mc.mapped);
      UpperTableSameLeaves(old(mc.mem), mc.mem, base, gpa, n, i, TableWord(Ept, c.value));
    }
  }

  /** The page table for a guest address, with every table above it. */
  method PageTableFor(mc: Machine, base: nat, gpa: Word) returns (pt: Option<nat>)
    requires mc.Valid() && Tree(Ept, mc.mem, base, mc.owners)
    modifies mc`mem, mc`owners, mc.alloc
    ensures mc.Valid() && Tree(Ept, mc.mem, base, mc.owners)
    ensures OnlyTree(Ept, base, old(mc.mem), old(mc.owners), mc.mem, mc.owners)
    ensures SameLeaves(old(mc.mem), mc.mem, base, gpa)
    ensures mc.alloc.currentAvailPage >= old(mc.alloc.currentAvailPage)
    ensures pt.None? ==> AssertionFails(mc, old(mc.alloc.currentAvailPage))
    ensures pt.Some? ==> TableOf(Ept, mc.mem, base, PtNode(gpa)) == pt
  {
    ghost var m0, o0 := mc.mem, mc.owners;
    var pdpt := NextEptLevel(mc, base, gpa, Root, base, Level4Index(gpa));
    if pdpt.None? {
      return None;
    }
    ghost var m1, o1 := mc.mem, mc.owners;
    var pd := NextEptLevel(mc, base, gpa, PdptNode(gpa), pdpt.value, Level3Index(gpa));
    OnlyTreeTransitive(Ept, base, m0, o0, m1, o1, mc.mem, mc.owners);
    SameLeavesTransitive(m0, m1, mc.mem, base, gpa);
    if pd.None? {
      return None;
    }
    ghost var m2, o2 := mc.mem, mc.owners;
    pt := NextEptLevel(mc, base, gpa, PdNode(gpa), pd.value, Level2Index(gpa));
    OnlyTreeTransitive(Ept, base, m0, o0, m2, o2, mc.mem, mc.owners);
    SameLeavesTransitive(m0, m2, mc.mem, base, gpa);
  }

  /** Exactly the leaf of the page of `gpa` changed, to `leaf`, and its region now has a page table. */
  ghost predicate OneLeaf(m: Memory, m': Memory, base: nat, gpa: nat, leaf: Word) {
    && (forall x: nat :: GuestLeaf(m', base, x) == if SamePage(Size4K, gpa, x) then leaf else GuestLeaf(m, base, x))
    && (forall x: nat :: HasPageTable(m', base, x) == (HasPageTable(m, base, x) || SamePage(Size2M, gpa, x)))
  }

  lemma StoreLeaf(m: Memory, m1: Memory, base: nat, owners1: Owners, gpa: nat, w: Word)
    requires SameLeaves(m, m1, base, gpa) && Tree(Ept, m1, base, owners1)
    requires TableOf(Ept, m1, base, PtNode(gpa)).Some?
    ensures var m' := WriteWord(m1, TableOf(Ept, m1, base, PtNode(gpa)).value, Level1Index(gpa), w);
            Tree(Ept, m', base, owners1) && OneLeaf(m, m', base, gpa, w)
  {
    var m' := WriteWord(m1, TableOf(Ept, m1, base, PtNode(gpa)).value, Level1Index(gpa), w);
    LeafWrite(Ept, m1, base, owners1, PtNode(gpa), Level1Index(gpa), w);
    forall x: nat
      ensures GuestLeaf(m', base, x) == if SamePage(Size4K, gpa, x) then w else GuestLeaf(m, base, x)
      ensures HasPageTable(m', base, x) == (HasPageTable(m, base, x) || SamePage(Size2M, gpa, x))
    {
      IndicesNameThePage(gpa, x);
    }
  }

  /** A leaf can only be there if its page table is. */
  lemma LeafHasTable(m: Memory, m1: Memory, base: nat, gpa: nat)
    requires SameLeaves(m, m1, base, gpa) && GuestLeaf(m, base, gpa) != 0
    ensures OneLeaf(m, m1, base, gpa, GuestLeaf(m, base, gpa))
  {
    forall x: nat
      ensures SamePage(Size4K, gpa, x) ==> GuestLeaf(m1, base, x) == GuestLeaf(m, base, gpa)
      ensures HasPageTable(m1, base, x) == (HasPageTable(m, base, x) || SamePage(Size2M, gpa, x))
    {
      IndicesNameThePage(gpa, x);
    }
  }

  /** map_ept_page: one leaf changes and nothing else of any tree, unless the page is already mapped. */
  method MapEptPage(mc: Machine, base: nat, gpa: Word, phy: Word, backing: Backing) returns (r: Status)
    requires mc.Valid() && Tree(Ept, mc.mem, base, mc.owners)
    modifies mc`mem, mc`owners, mc.alloc
    ensures mc.Valid() && Tree(Ept, mc.mem, base, mc.owners)
    ensures OnlyTree(Ept, base, old(mc.mem), old(mc.owners), mc.mem, mc.owners)
    ensures mc.alloc.currentAvailPage >= old(mc.alloc.currentAvailPage)
    ensures r == Ok || r == Duplication || r == Halted
    ensures r == Halted ==> AssertionFails(mc, old(mc.alloc.currentAvailPage))
    ensures r != Halted ==> (r == Duplication <==> GuestLeaf(old(mc.mem), base, gpa) % 4 != 0)
    ensures r != Halted ==> OneLeaf(old(mc.mem), mc.mem, base, gpa,
                                    if r == Ok then LeafWord(phy, backing) else GuestLeaf(old(mc.mem), base, gpa))
  {
    var pt := PageTableFor(mc, base, gpa);
    if pt.None? {
      return Halted;
    }
    if mc.mem[pt.value][Level1Index(gpa)] % 4 != 0 {
      LeafHasTable(old(mc.mem), mc.mem, base, gpa);
      return Duplication;
    }
    WriteLeaf(mc, base, gpa, pt.value, LeafWord(phy, backing), old(mc.mem), old(mc.owners));
    return Ok;
  }

  /** The store that ends map_ept_page; (m0, o0) is where it began. */
  method WriteLeaf(mc: Machine, base: nat, gpa: Word, pt: nat, leaf: Word, ghost m0: Memory, ghost o0: Owners)
    requires mc.Valid() && Tree(Ept, mc.mem, base, mc.owners) && TableOf(Ept, mc.mem, base, PtNode(gpa)) == Some(pt)
    requires SameLeaves(m0, mc.mem, base, gpa) && OnlyTree(Ept, base, m0, o0, mc.mem, mc.owners)
    modifies mc`mem
    ensures mc.Valid() && Tree(Ept, mc.mem, base, mc.owners)
    ensures OneLeaf(m0, mc.mem, base, gpa, leaf) && OnlyTree(Ept, base, m0, o0, mc.mem, mc.owners)
  {
    StoreLeaf(m0, mc.mem, base, mc.owners, gpa, leaf);
    LeafWriteOnlyTree(Ept, base, mc.mem, mc.owners, PtNode(gpa), Level1Index(gpa), leaf);
    mc.mem := WriteWord(mc.mem, pt, Level1Index(gpa), leaf);
    EptGrowth(base, old(mc.mem), mc.owners, mc.mem, mc.owners, mc.pml4Base, mc.mapped);
    OnlyTreeTransitive(Ept, base, m0, o0, old(mc.mem), mc.owners, mc.mem, mc.owners);
  }

  /** The leaf of guest address `x` is RAM in a frame that belongs to this guest page alone. */
  ghost predicate OwnFrame(m: Memory, base: nat, owners: Owners, x: nat) {
    var leaf := GuestLeaf(m, base, x);
    RamLeaf(leaf) && EptNext(leaf) in owners && owners[EptNext(leaf)] == GuestFrame(base, x / 0x1000)
  }

  /** Guest pages lo..hi have frames of their own. */
  ghost predicate RamBacked(m: Memory, base: nat, owners: Owners, lo: nat, hi: nat) {
    forall x: nat :: x < 0x1_0000_0000_0000 && lo <= x / 0x1000 < hi ==> OwnFrame(m, base, owners, x)
  }

  /** Guest pages lo..hi have frames of their own; no other page below 2^48 has a leaf. */
  ghost predicate Backed(m: Memory, base: nat, owners: Owners, lo: nat, hi: nat) {
    && RamBacked(m, base, owners, lo, hi)
    && (forall x: nat :: x < 0x1_0000_0000_0000 && !(lo <= x / 0x1000 < hi) ==> GuestLeaf(m, base, x) == 0)
  }

  /** Page tables exist exactly for the 2 MB regions that meet the range. */
  ghost predicate TablesFor(m: Memory, base: nat, lo: nat, hi: nat) {
    forall x: nat :: x < 0x1_0000_0000_0000 ==>
      (HasPageTable(m, base, x) <==> RegionMeets(x, lo, hi))
  }

  predicate RegionMeets(x: nat, lo: nat, hi: nat) {
    lo < hi && lo / 512 <= x / 0x20_0000 <= (hi - 1) / 512
  }

  ghost predicate ZeroFrames(m: Memory, base: nat, lo: nat, hi: nat) {
    forall x: nat :: x < 0x1_0000_0000_0000 && lo <= x / 0x1000 < hi ==> m[EptNext(GuestLeaf(m, base, x))] == ZeroPage()
  }

  ghost predicate GuestRam(m: Memory, base: nat, owners: Owners, lo: nat, hi: nat) {
    Tree(Ept, m, base, owners) && Backed(m, base, owners, lo, hi) && TablesFor(m, base, lo, hi)
  }

  lemma Low48(x: nat, y: nat)
    requires x < 0x1_0000_0000_0000 && y < 0x1_0000_0000_0000
    ensures SamePage(Size4K, x, y) <==> x / 0x1000 == y / 0x1000
    ensures SamePage(Size2M, x, y) <==> x / 0x20_0000 == y / 0x20_0000
    ensures x / 0x1000 / 512 == x / 0x20_0000
  {
    InRange(x);
    InRange(y);
  }

  lemma InRange(x: nat)
    requires x < 0x1_0000_0000_0000
    ensures x / 0x1000 % 0x10_0000_0000 == x / 0x1000
    ensures x / 0x20_0000 % 0x800_0000 == x / 0x20_0000
  {
  }

  /** A fresh zeroed frame `c` was mapped at the page of `gpa`. */
  ghost predicate FrameAdded(m: Memory, m': Memory, base: nat, o: Owners, o': Owners, gpa: Word, c: nat) {
    var m1, o1 := m[c := ZeroPage()], o[c := GuestFrame(base, gpa / 0x1000)];
    && Tree(Ept, m, base, o) && c !in o && c < 0x1000_0000 && gpa < 0x1_0000_0000_0000
    && OnlyTree(Ept, base, m1, o1, m', o')
    && OneLeaf(m1, m', base, gpa, LeafWord(c * 0x1000, SystemMemory))
  }

  lemma LeafAfter(m: Memory, m': Memory, base: nat, o: Owners, o': Owners, gpa: Word, c: nat, x: nat)
    requires FrameAdded(m, m', base, o, o', gpa, c) && x < 0x1_0000_0000_0000
    ensures x / 0x1000 == gpa / 0x1000 ==> OwnFrame(m', base, o', x) && m'[EptNext(GuestLeaf(m', base, x))] == ZeroPage()
    ensures x / 0x1000 != gpa / 0x1000 ==> GuestLeaf(m', base, x) == GuestLeaf(m, base, x)
  {
    Low48(gpa, x);
    if x / 0x1000 == gpa / 0x1000 {
      var w := LeafWord(c * 0x1000, SystemMemory);
      assert RamLeaf(w) && EptNext(w) == c by { FrameLeaf(c); }
      assert GuestLeaf(m', base, x) == w;
    } else {
      FreshFrameKeepsLeaves(m, base, o, c, x);
    }
  }

  /** Mapping the next guest page to a fresh zeroed frame extends the guest's RAM by that page. */
  lemma ExtendRam(m: Memory, m': Memory, base: nat, o: Owners, o': Owners, lo: nat, hi: nat, next: nat, gpa: Word, c: nat)
    requires FrameAdded(m, m', base, o, o', gpa, c) && lo <= hi == gpa / 0x1000 && next == hi + 1
    requires Backed(m, base, o, lo, hi) && ZeroFrames(m, base, lo, hi)
    ensures Backed(m', base, o', lo, next) && ZeroFrames(m', base, lo, next)
  {
    forall x: nat | x < 0x1_0000_0000_0000
      ensures lo <= x / 0x1000 < next ==> OwnFrame(m', base, o', x)
      ensures !(lo <= x / 0x1000 < next) ==> GuestLeaf(m', base, x) == 0
      ensures lo <= x / 0x1000 < next ==> m'[EptNext(GuestLeaf(m', base, x))] == ZeroPage()
    {
      LeafAfter(m, m', base, o, o', gpa, c, x);
      if lo <= x / 0x1000 < hi {
        assert OwnFrame(m, base, o, x);
      }
    }
  }

  lemma ExtendTables(m: Memory, m': Memory, base: nat, o: Owners, o': Owners, lo: nat, hi: nat, next: nat, gpa: Word, c: nat)
    requires FrameAdded(m, m', base, o, o', gpa, c) && lo <= hi == gpa / 0x1000 && next == hi + 1
    requires TablesFor(m, base, lo, hi)
    ensures TablesFor(m', base, lo, next)
  {
    forall x: nat | x < 0x1_0000_0000_0000
      ensures HasPageTable(m', base, x) <==> RegionMeets(x, lo, next)
    {
      Low48(gpa, x);
      FreshFrameKeepsLeaves(m, base, o, c, x);
    }
  }

  lemma FreshFrameKeepsLeaves(m: Memory, base: nat, o: Owners, c: nat, x: nat)
    requires Tree(Ept, m, base, o) && c !in o
    ensures GuestLeaf(m[c := ZeroPage()], base, x) == GuestLeaf(m, base, x)
    ensures HasPageTable(m[c := ZeroPage()], base, x) == HasPageTable(m, base, x)
  {
    WalkDependsOnTables(Ept, m, m[c := ZeroPage()], base, o, PtNode(x));
  }

  /** Pages that belonged to others before are theirs still, with the same contents. */
  ghost predicate OthersKept(base: nat, m: Memory, o: Owners, m': Memory, o': Owners) {
    && (forall p :: p in o ==> p in o' && o'[p] == o[p])
    && (forall p :: p in o && !IsTable(Ept, base, o, p) ==> m'[p] == m[p])
    && (forall p: nat :: p !in o' ==> m'[p] == m[p])
  }

  lemma OthersKeptTransitive(base: nat, m: Memory, o: Owners, m1: Memory, o1: Owners, m2: Memory, o2: Owners)
    requires OthersKept(base, m, o, m1, o1) && OthersKept(base, m1, o1, m2, o2)
    ensures OthersKept(base, m, o, m2, o2)
  {
  }

  /** memset a fresh page to zero and hand it to a guest page. */
  method AddFrame(mc: Machine, base: nat, gpa: Word, c: nat)
    requires mc.Valid() && Tree(Ept, mc.mem, base, mc.owners)
    requires c < 0x1000_0000 && c !in mc.owners && SentToItself(mc.mapped, c)
    requires Granted(c, mc.alloc.reservedEnd, mc.alloc.currentAvailPage)
    modifies mc`mem, mc`owners
    ensures mc.Valid() && Tree(Ept, mc.mem, base, mc.owners)
    ensures mc.mem == old(mc.mem)[c := ZeroPage()]
    ensures mc.owners == old(mc.owners)[c := GuestFrame(base, gpa / 0x1000)]
  {
    mc.mem := mc.mem[c := ZeroPage()];
    mc.owners := mc.owners[c := GuestFrame(base, gpa / 0x1000)];
    FreshFrameKeepsTree(old(mc.mem), base, old(mc.owners), c, gpa / 0x1000);
    FreshPageUsed(old(mc.mem), old(mc.owners), mc.mem, mc.owners, mc.pml4Base, mc.mapped, c);
    OneMoreOwner(old(mc.owners), mc.owners, c, GuestFrame(base, gpa / 0x1000), mc.alloc.reservedEnd, mc.alloc.currentAvailPage);
  }

  lemma FreshFrameKeepsTree(m: Memory, base: nat, o: Owners, c: nat, guestPage: nat)
    requires Tree(Ept, m, base, o) && c !in o
    ensures Tree(Ept, m[c := ZeroPage()], base, o[c := GuestFrame(base, guestPage)])
  {
    TreeFrame(Ept, m, m[c := ZeroPage()], base, o, o[c := GuestFrame(base, guestPage)]);
  }

  /** Zeroing a fresh page and giving it to a guest is invisible to the kernel's translations. */
  lemma FreshPageUsed(m: Memory, o: Owners, m': Memory, o': Owners, pml4: nat, mapped: seq<Mapping>, c: nat)
    requires HostRefines(m, pml4, o, mapped) && c !in o && SentToItself(mapped, c)
    requires m' == m[c := ZeroPage()] && c in o' && o' == o[c := o'[c]] && !IsTable(Host, pml4, o', c)
    ensures HostRefines(m', pml4, o', mapped)
  {
    HostUnaffected(m, o, m', o', pml4, mapped);
  }

  /** Zero a fresh page and map the guest page to it. */
  method MapFreshFrame(mc: Machine, base: nat, gpa: Word) returns (c: Option<nat>)
    requires mc.Valid() && Tree(Ept, mc.mem, base, mc.owners)
    requires gpa < 0x1_0000_0000_0000 && GuestLeaf(mc.mem, base, gpa) == 0
    modifies mc`mem, mc`owners, mc.alloc
    ensures mc.Valid() && Tree(Ept, mc.mem, base, mc.owners)
    ensures mc.alloc.currentAvailPage >= old(mc.alloc.currentAvailPage)
    ensures c.None? ==> AssertionFails(mc, old(mc.alloc.currentAvailPage))
    ensures c.Some? ==> FrameAdded(old(mc.mem), mc.mem, base, old(mc.owners), mc.owners, gpa, c.value)
  {
    c := GetIdentityPage(mc);
    if c.Some? {
      AddFrame(mc, base, gpa, c.value);
      FreshFrameKeepsLeaves(old(mc.mem), base, old(mc.owners), c.value, gpa);
      var r := MapEptPage(mc, base, gpa, c.value * 0x1000, SystemMemory);
      if r == Halted {
        c := None;
      }
    }
  }

  /** One round of setup_basic_physical_memory's loop. */
  method BackPage(mc: Machine, base: nat, gpa: Word, ghost from: nat, ghost lo: nat, ghost hi: nat, ghost next: nat,
                  ghost m0: Memory, ghost o0: Owners) returns (ok: bool)
    requires from <= mc.alloc.currentAvailPage
    requires mc.Valid() && gpa < 0x1_0000_0000_0000 && lo <= hi == gpa / 0x1000 && next == hi + 1
    requires GuestRam(mc.mem, base, mc.owners, lo, hi) && ZeroFrames(mc.mem, base, lo, hi)
    requires OthersKept(base, m0, o0, mc.mem, mc.owners)
    modifies mc`mem, mc`owners, mc.alloc
    ensures from <= mc.alloc.currentAvailPage
    ensures mc.Valid()
    ensures ok ==> OthersKept(base, m0, o0, mc.mem, mc.owners)
    ensures ok ==> GuestRam(mc.mem, base, mc.owners, lo, next) && ZeroFrames(mc.mem, base, lo, next)
    ensures !ok ==> AssertionFails(mc, from)
  {
    var c := MapFreshFrame(mc, base, gpa);
    if c.None? {
      return false;
    }
    ExtendRam(old(mc.mem), mc.mem, base, old(mc.owners), mc.owners, lo, hi, next, gpa, c.value);
    ExtendTables(old(mc.mem), mc.mem, base, old(mc.owners), mc.owners, lo, hi, next, gpa, c.value);
    FrameAddedKeepsOthers(old(mc.mem), mc.mem, base, old(mc.owners), mc.owners, gpa, c.value);
    OthersKeptTransitive(base, m0, o0, old(mc.mem), old(mc.owners), mc.mem, mc.owners);
    return true;
  }

  lemma FrameAddedKeepsOthers(m: Memory, m': Memory, base: nat, o: Owners, o': Owners, gpa: Word, c: nat)
    requires FrameAdded(m, m', base, o, o', gpa, c)
    ensures OthersKept(base, m, o, m', o')
  {
    var o1 := o[c := GuestFrame(base, gpa / 0x1000)];
    assert forall p :: p in o ==> p in o1 && o1[p] == o[p];
    assert c in o1;
  }

  /** A zeroed root page is an extended page table without a leaf. */
  method NewEptRoot(mc: Machine, ghost lo: nat) returns (base: Option<nat>)
    requires mc.Valid()
    modifies mc`mem, mc`owners, mc.alloc
    ensures mc.Valid() && mc.alloc.currentAvailPage >= old(mc.alloc.currentAvailPage)
    ensures base.None? ==> AssertionFails(mc, old(mc.alloc.currentAvailPage))
    ensures base.Some? ==> base.value !in old(mc.owners)
                           && OthersKept(base.value, old(mc.mem), old(mc.owners), mc.mem, mc.owners)
                           && GuestRam(mc.mem, base.value, mc.owners, lo, lo)
  {
    base := GetIdentityPage(mc);
    if base.Some? {
      UseAsRoot(mc, base.value, lo);
    }
  }

  method UseAsRoot(mc: Machine, base: nat, ghost lo: nat)
    requires mc.Valid() && base !in mc.owners && SentToItself(mc.mapped, base)
    requires Granted(base, mc.alloc.reservedEnd, mc.alloc.currentAvailPage)
    modifies mc`mem, mc`owners
    ensures mc.Valid() && GuestRam(mc.mem, base, mc.owners, lo, lo)
    ensures OthersKept(base, old(mc.mem), old(mc.owners), mc.mem, mc.owners)
  {
    mc.mem := mc.mem[base := ZeroPage()];
    mc.owners := mc.owners[base := Table(Ept, base, Root)];
    FreshPageUsed(old(mc.mem), old(mc.owners), mc.mem, mc.owners, mc.pml4Base, mc.mapped, base);
    EmptyEpt(mc.mem, base, old(mc.owners), lo);
  }

  lemma EmptyEpt(m: Memory, base: nat, o: Owners, lo: nat)
    requires m[base] == ZeroPage() && RootsOwned(o) && base !in o
    ensures GuestRam(m, base, o[base := Table(Ept, base, Root)], lo, lo)
  {
    var o' := o[base := Table(Ept, base, Root)];
    forall p, i: Index | IsTable(Ept, base, o', p) ensures Linked(Ept, m, base, o', p, i) {
      assert p != base ==> IsTable(Ept, base, o, p);
    }
    forall x: nat ensures !HasPageTable(m, base, x) && GuestLeaf(m, base, x) == 0 {
      assert TableOf(Ept, m, base, Root) == Some(base);
      assert TableOf(Ept, m, base, PdptNode(x)).None?;
      assert TableOf(Ept, m, base, PdNode(x)).None?;
    }
  }

  /** Pages visited by the loop from addr_low through addr_high. */
  function PagesThrough(low: nat, high: nat): nat {
    if low <= high then (high - low) / 0x1000 + 1 else 0
  }

  /**
  setup_basic_physical_memory: a new extended page table under which exactly the guest pages from low
  through high are mapped, each to a zeroed frame of its own.
  */
  method SetupBasicPhysicalMemory(mc: Machine, low: Word, high: Word) returns (base: Option<nat>)
    requires mc.Valid() && high < 0x1_0000_0000_0000
    modifies mc`mem, mc`owners, mc.alloc
    ensures mc.Valid()
    ensures base.None? ==> AssertionFails(mc, old(mc.alloc.currentAvailPage))
    ensures base.Some? ==>
              var lo, hi := low / 0x1000, low / 0x1000 + PagesThrough(low, high);
              && GuestRam(mc.mem, base.value, mc.owners, lo, hi) && ZeroFrames(mc.mem, base.value, lo, hi)
              && base.value !in old(mc.owners)
              && OthersKept(base.value, old(mc.mem), old(mc.owners), mc.mem, mc.owners)
  {
    base := NewEptRoot(mc, low / 0x1000);
    if base.Some? {
      var ok := BackRange(mc, base.value, low, high, old(mc.alloc.currentAvailPage), old(mc.mem), old(mc.owners));
      if !ok {
        base := None;
      }
    }
  }

  /** The loop of setup_basic_physical_memory. */
  method BackRange(mc: Machine, base: nat, low: Word, high: Word, ghost from: nat, ghost m0: Memory, ghost o0: Owners)
    returns (ok: bool)
    requires from <= mc.alloc.currentAvailPage
    requires mc.Valid() && high < 0x1_0000_0000_0000
    requires GuestRam(mc.mem, base, mc.owners, low / 0x1000, low / 0x1000)
    requires OthersKept(base, m0, o0, mc.mem, mc.owners)
    modifies mc`mem, mc`owners, mc.alloc
    ensures mc.Valid()
    ensures !ok ==> AssertionFails(mc, from)
    ensures ok ==>
              var lo, hi := low / 0x1000, low / 0x1000 + PagesThrough(low, high);
              && GuestRam(mc.mem, base, mc.owners, lo, hi) && ZeroFrames(mc.mem, base, lo, hi)
              && OthersKept(base, m0, o0, mc.mem, mc.owners)
  {
    var gpa: nat := low;
    ghost var lo: nat, hi: nat := low / 0x1000, low / 0x1000;
    while gpa <= high
      invariant Reached(low, high, lo, hi, gpa)
      invariant mc.Valid() && from <= mc.alloc.currentAvailPage
      invariant GuestRam(mc.mem, base, mc.owners, lo, hi) && ZeroFrames(mc.mem, base, lo, hi)
      invariant OthersKept(base, m0, o0, mc.mem, mc.owners)
    {
      NextPage(low, high, lo, hi, gpa);
      ghost var next: nat := hi + 1;
      ok := BackPage(mc, base, gpa, from, lo, hi, next, m0, o0);
      if !ok {
        return;
      }
      gpa, hi := gpa + 0x1000, next;
    }
    NextPage(low, high, lo, hi, gpa);
    return true;
  }

  /** The loop stands at `gpa`, in guest page `hi`, having started in page `lo`. */
  predicate Reached(low: nat, high: nat, lo: nat, hi: nat, gpa: nat) {
    lo == low / 0x1000 && lo <= hi && gpa == low + (hi - lo) * 0x1000 && hi - lo <= PagesThrough(low, high)
  }

  lemma NextPage(low: nat, high: nat, lo: nat, hi: nat, gpa: nat)
    requires Reached(low, high, lo, hi, gpa)
    ensures hi == gpa / 0x1000
    ensures if gpa <= high then Reached(low, high, lo, hi + 1, gpa + 0x1000) else hi == lo + PagesThrough(low, high)
  {
    assert (low + (hi - lo) * 0x1000) / 0x1000 == low / 0x1000 + (hi - lo);
  }

  /** A backed address translates into its page's own frame. */
  lemma RamTranslation(m: Memory, base: nat, owners: Owners, lo: nat, hi: nat, x: nat)
    requires RamBacked(m, base, owners, lo, hi)
    requires x < 0x1_0000_0000_0000 && lo <= x / 0x1000 < hi
    ensures var h := GuestToHost(m, base, x);
            && h == EptNext(GuestLeaf(m, base, x)) * 0x1000 + x % 0x1000
            && h != NO_TRANSLATION && h / 0x1000 in owners && owners[h / 0x1000] == GuestFrame(base, x / 0x1000)
  {
    GuestToHostByLeaf(m, base, x);
    assert OwnFrame(m, base, owners, x);
    var f := EptNext(GuestLeaf(m, base, x));
    assert f < 0x1000_0000 && (f * 0x1000 + x % 0x1000) / 0x1000 == f;
  }

  /** Distinct guest addresses, of one guest or of two, never share a host byte, nor a table's page. */
  lemma RamInjective(m: Memory, owners: Owners, base: nat, lo: nat, hi: nat, x: nat, base': nat, lo': nat, hi': nat, y: nat)
    requires RamBacked(m, base, owners, lo, hi) && RamBacked(m, base', owners, lo', hi')
    requires x < 0x1_0000_0000_0000 && lo <= x / 0x1000 < hi
    requires y < 0x1_0000_0000_0000 && lo' <= y / 0x1000 < hi'
    requires base != base' || x != y
    ensures GuestToHost(m, base, x) != GuestToHost(m, base', y)
    ensures base != base' || x / 0x1000 != y / 0x1000 ==> GuestToHost(m, base, x) / 0x1000 != GuestToHost(m, base', y) / 0x1000
    ensures forall k, root :: !IsTable(k, root, owners, GuestToHost(m, base, x) / 0x1000)
  {
    RamTranslation(m, base, owners, lo, hi, x);
    RamTranslation(m, base', owners, lo', hi', y);
  }

  /**
  An address outside the range fails to translate exactly when its whole 2 MB region is outside;
  next to a mapped page it comes back as an offset into host page 0.
  */
  lemma UnbackedTranslation(m: Memory, base: nat, owners: Owners, lo: nat, hi: nat, x: nat)
    requires GuestRam(m, base, owners, lo, hi)
    requires x < 0x1_0000_0000_0000 && !(lo <= x / 0x1000 < hi)
    ensures GuestToHost(m, base, x) == NO_TRANSLATION <==> !RegionMeets(x, lo, hi)
    ensures RegionMeets(x, lo, hi) ==> GuestToHost(m, base, x) == x % 0x1000
  {
    GuestToHostByLeaf(m, base, x);
  }

  /** With the monitor's range of 0 through 16 MB, the first unmapped page translates to host address 0. */
  lemma FirstPageBeyondGuestRam(m: Memory, base: nat, owners: Owners)
    requires GuestRam(m, base, owners, 0, PagesThrough(0, 0x100_0000))
    ensures GuestToHost(m, base, 0x100_1000) == 0
    ensures GuestToHost(m, base, 0x120_0000) == NO_TRANSLATION
  {
    UnbackedTranslation(m, base, owners, 0, 4097, 0x100_1000);
    UnbackedTranslation(m, base, owners, 0, 4097, 0x120_0000);
  }

  /**
  setup_io_memory: the page stops translating. Any other address keeps its translation exactly unless its
  page table is the one this call had to install; then it goes from -1 to an offset into host page 0.
  */
  method SetupIoMemory(mc: Machine, base: nat, gpa: Word) returns (ok: bool)
    requires mc.Valid() && Tree(Ept, mc.mem, base, mc.owners)
    modifies mc`mem, mc`owners, mc.alloc
    ensures mc.Valid() && Tree(Ept, mc.mem, base, mc.owners)
    ensures OnlyTree(Ept, base, old(mc.mem), old(mc.owners), mc.mem, mc.owners)
    ensures !ok ==> AssertionFails(mc, old(mc.alloc.currentAvailPage)) || GuestLeaf(old(mc.mem), base, gpa) % 4 != 0
    ensures ok ==> OneLeaf(old(mc.mem), mc.mem, base, gpa, LeafWord(0, IoMemory))
    ensures ok ==> forall x: nat :: IoEffect(old(mc.mem), mc.mem, base, gpa, x)
  {
    var r := MapEptPage(mc, base, gpa, 0, IoMemory);
    ok := r == Ok;
    if ok {
      forall x: nat ensures IoEffect(old(mc.mem), mc.mem, base, gpa, x) {
        IoTranslation(old(mc.mem), mc.mem, base, gpa, x);
      }
    }
  }

  /** What an IO mapping at `gpa` does to the translation of `x`. */
  ghost predicate IoEffect(m: Memory, m': Memory, base: nat, gpa: nat, x: nat) {
    var before, after := GuestToHost(m, base, x), GuestToHost(m', base, x);
    if SamePage(Size4K, gpa, x) then after == NO_TRANSLATION
    else
      && (after == before <==> HasPageTable(m, base, x) || !SamePage(Size2M, gpa, x))
      && (after != before ==> before == NO_TRANSLATION && after == x % 0x1000)
  }

  lemma IoTranslation(m: Memory, m': Memory, base: nat, gpa: nat, x: nat)
    requires OneLeaf(m, m', base, gpa, LeafWord(0, IoMemory))
    ensures IoEffect(m, m', base, gpa, x)
  {
    GuestToHostByLeaf(m', base, x);
    GuestToHostByLeaf(m, base, x);
  }

  /** The page of guest addresses that the monitor emulates as video memory. */
  const VIDEO_BUFFER_PAGE_FRAME: Word := 0x1_000b_8000

  /** Over the monitor's 16 MB of RAM the video page disturbs its neighbour: unmapped before, host address 0 after. */
  lemma VideoPageDisturbsNeighbour(m: Memory, m': Memory, base: nat, owners: Owners)
    requires GuestRam(m, base, owners, 0, PagesThrough(0, 0x100_0000))
    requires OneLeaf(m, m', base, VIDEO_BUFFER_PAGE_FRAME, LeafWord(0, IoMemory))
    ensures GuestToHost(m', base, VIDEO_BUFFER_PAGE_FRAME) == NO_TRANSLATION
    ensures GuestToHost(m, base, 0x1_000b_9000) == NO_TRANSLATION && GuestToHost(m', base, 0x1_000b_9000) == 0
  {
    UnbackedTranslation(m, base, owners, 0, 4097, 0x1_000b_9000);
    IoTranslation(m, m', base, VIDEO_BUFFER_PAGE_FRAME, 0x1_000b_9000);
    IoTranslation(m, m', base, VIDEO_BUFFER_PAGE_FRAME, VIDEO_BUFFER_PAGE_FRAME);
  }

  /** Guest RAM is untouched by an IO mapping outside it. */
  lemma IoKeepsRam(m: Memory, m': Memory, base: nat, o: Owners, o': Owners, gpa: Word, lo: nat, hi: nat)
    requires RamBacked(m, base, o, lo, hi) && gpa < 0x1_0000_0000_0000 && !(lo <= gpa / 0x1000 < hi)
    requires OneLeaf(m, m', base, gpa, LeafWord(0, IoMemory)) && OnlyTree(Ept, base, m, o, m', o')
    ensures RamBacked(m', base, o', lo, hi)
  {
    forall x: nat | x < 0x1_0000_0000_0000 && lo <= x / 0x1000 < hi ensures OwnFrame(m', base, o', x) {
      assert OwnFrame(m, base, o, x);
      Low48(gpa, x);
    }
  }

  /** Setting up or extending another guest leaves this one's RAM where it was. */
  lemma OtherGuestKeepsRam(m: Memory, m': Memory, base: nat, base': nat, o: Owners, o': Owners, lo: nat, hi: nat)
    requires Tree(Ept, m, base, o) && RamBacked(m, base, o, lo, hi)
    requires OthersKept(base', m, o, m', o') && base' != base
    ensures RamBacked(m', base, o', lo, hi)
    ensures forall x: nat :: GuestToHost(m', base, x) == GuestToHost(m, base, x)
  {
    forall x: nat
      ensures GuestLeaf(m', base, x) == GuestLeaf(m, base, x) && GuestToHost(m', base, x) == GuestToHost(m, base, x)
    {
      WalkDependsOnTables(Ept, m, m', base, o, PtNode(x));
      GuestToHostByLeaf(m, base, x);
      GuestToHostByLeaf(m', base, x);
    }
    forall x: nat | x < 0x1_0000_0000_0000 && lo <= x / 0x1000 < hi ensures OwnFrame(m', base, o', x) {
      assert OwnFrame(m, base, o, x);
    }
  }

  /** Two guests set up one after the other never share a host page. */
  lemma GuestsApart(m: Memory, m': Memory, o: Owners, o': Owners, base: nat, lo: nat, hi: nat, x: nat,
                    base': nat, lo': nat, hi': nat, y: nat)
    requires Tree(Ept, m, base, o) && RamBacked(m, base, o, lo, hi)
    requires base' !in o && OthersKept(base', m, o, m', o') && RamBacked(m', base', o', lo', hi')
    requires x < 0x1_0000_0000_0000 && lo <= x / 0x1000 < hi
    requires y < 0x1_0000_0000_0000 && lo' <= y / 0x1000 < hi'
    ensures GuestToHost(m', base, x) == GuestToHost(m, base, x)
    ensures GuestToHost(m', base, x) / 0x1000 != GuestToHost(m', base', y) / 0x1000
  {
    OtherGuestKeepsRam(m, m', base, base', o, o', lo, hi);
    RamInjective(m', o', base, lo, hi, x, base', lo', hi', y);
  }

  /** Growing one extended page table keeps every other owner's pages. */
  lemma OneTreeKeepsOthers(base: nat, m: Memory, o: Owners, m': Memory, o': Owners)
    requires OnlyTree(Ept, base, m, o, m', o')
    ensures OthersKept(base, m, o, m', o')
  {
  }
}

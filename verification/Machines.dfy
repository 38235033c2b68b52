/** The machine the kernel runs on: physical memory, its allocator and the kernel's page tables. */
module Machines {
  import opened Arithmetic
  import opened Frames
  import opened Options
  import opened PageTree
  import opened PhysicalMemory
  import opened HostPaging

  datatype Status = Ok | Duplication | OutOfMemory | Halted

  /** A page the allocator has handed out: above the reserved prefix and below the cursor. */
  ghost predicate Granted(p: nat, reservedEnd: nat, cursor: nat) {
    reservedEnd < p * 0x1000 < cursor && p < 0x1000_0000
  }

  ghost predicate AllGranted(owners: Owners, reservedEnd: nat, cursor: nat) {
    forall p :: p in owners ==> Granted(p, reservedEnd, cursor)
  }

  ghost predicate RootsOwned(owners: Owners) {
    forall p :: p in owners && owners[p].Table? ==> owners[p].root in owners
  }

  /** From (m, o) to (m', o') only tables of one tree were added or written. */
  ghost predicate OnlyTree(k: Kind, root: nat, m: Memory, o: Owners, m': Memory, o': Owners) {
    && (forall p :: p in o ==> p in o' && o'[p] == o[p])
    && (forall p :: p in o' && p !in o ==> IsTable(k, root, o', p))
    && (forall p: nat :: m'[p] == m[p] || IsTable(k, root, o', p))
  }

  /** The host tables denote exactly the history of successful calls. */
  ghost predicate HostRefines(m: Memory, pml4: nat, owners: Owners, mapped: seq<Mapping>) {
    && Tree(Host, m, pml4, owners)
    && AllPlaced(Host, m, pml4, owners)
    && Disjoint(mapped)
    && ForeignIdentity(pml4, owners, mapped)
    && (forall x: nat :: Pa(m, pml4, x) == Replay(mapped, x))
    && (forall x: nat :: LeavesWritable(m, pml4, x))
    && (forall x: nat :: DirEntry(m, pml4, x) % 2 == 1 ==> RegionUsed(mapped, x, IsLarge(DirEntry(m, pml4, x))))
  }

  /** The kernel reaches a page at its own physical address. */
  predicate SentToItself(mapped: seq<Mapping>, p: nat) {
    Replay(mapped, p * 0x1000) == p * 0x1000
  }

  /** Every page in use other than the kernel's own tables, so every extended table and every guest frame, is sent to itself. */
  ghost predicate ForeignIdentity(pml4: nat, owners: Owners, mapped: seq<Mapping>) {
    forall p :: p in owners && !IsTable(Host, pml4, owners, p) ==> SentToItself(mapped, p)
  }

  /** More tables of the kernel, or more mappings, keep that. */
  lemma ForeignIdentityKept(pml4: nat, o: Owners, o': Owners, mapped: seq<Mapping>)
    requires ForeignIdentity(pml4, o, mapped)
    requires forall p :: p in o ==> p in o' && o'[p] == o[p]
    requires forall p :: p in o' && p !in o ==> IsTable(Host, pml4, o', p) || SentToItself(mapped, p)
    ensures ForeignIdentity(pml4, o', mapped)
  {
    forall p | p in o' && !IsTable(Host, pml4, o', p) ensures SentToItself(mapped, p) {
      if p in o {
        assert !IsTable(Host, pml4, o, p);
      }
    }
  }

  lemma ForeignIdentityPersists(pml4: nat, o: Owners, mapped: seq<Mapping>, later: seq<Mapping>)
    requires ForeignIdentity(pml4, o, mapped) && Disjoint(later) && mapped <= later
    requires forall p :: p in o ==> p < 0x1000_0000
    ensures ForeignIdentity(pml4, o, later)
  {
    forall p | p in o && !IsTable(Host, pml4, o, p) ensures SentToItself(later, p) {
      assert SentToItself(mapped, p);
      TranslationsPersist(mapped, later, p * 0x1000);
    }
  }

  predicate LeavesWritable(m: Memory, pml4: nat, x: nat) {
    && (DirEntry(m, pml4, x) % 2 == 1 ==> KernelWrites(DirEntry(m, pml4, x)))
    && (LeafEntry(m, pml4, x) % 2 == 1 ==> KernelWrites(LeafEntry(m, pml4, x)))
  }

  /** Wherever there is a translation, the processor lets the kernel write. */
  lemma TranslatedIsWritable(m: Memory, pml4: nat, owners: Owners, mapped: seq<Mapping>, x: nat)
    requires HostRefines(m, pml4, owners, mapped) && Pa(m, pml4, x) != NO_TRANSLATION
    ensures WritableWalk(m, pml4, x)
  {
    var l4 := m[pml4][Level4Index(x)];
    var l3 := m[NextTable(l4)][Level3Index(x)];
    var l2 := m[NextTable(l3)][Level2Index(x)];
    assert TableOf(Host, m, pml4, Root) == Some(pml4);
    assert TableOf(Host, m, pml4, PdptNode(x)) == Some(NextTable(l4));
    assert TableOf(Host, m, pml4, PdNode(x)) == Some(NextTable(l3));
    PathAccess(Host, m, pml4, owners, PdptNode(x));
    PathAccess(Host, m, pml4, owners, PdNode(x));
    assert DirEntry(m, pml4, x) == l2 && LeavesWritable(m, pml4, x);
    if !IsLarge(l2) {
      assert TableOf(Host, m, pml4, PtNode(x)) == Some(NextTable(l2));
    }
  }

  /** Some mapping lies in the 2 MB region of `x`, of the given kind. */
  ghost predicate RegionUsed(mapped: seq<Mapping>, x: nat, large: bool) {
    exists i :: 0 <= i < |mapped| && SamePage(Size2M, mapped[i].va, x) && mapped[i].size.Size2M? == large
  }

  ghost predicate LargeCovered(mapped: seq<Mapping>, x: nat) {
    RegionUsed(mapped, x, true)
  }

  /** What the level-2 entry says about the history. */
  lemma DirEntryMeaning(m: Memory, pml4: nat, owners: Owners, mapped: seq<Mapping>, va: nat)
    requires HostRefines(m, pml4, owners, mapped)
    ensures DirEntry(m, pml4, va) % 2 == 1 <==> RegionUsed(mapped, va, true) || RegionUsed(mapped, va, false)
    ensures IsLarge(DirEntry(m, pml4, va)) <==> LargeCovered(mapped, va)
  {
    if i :| 0 <= i < |mapped| && SamePage(Size2M, mapped[i].va, va) {
      var x := mapped[i].va;
      IndicesNameThePage(x, va);
      ReplayOfMapped(mapped, i, x);
      PaByEntries(m, pml4, x);
      if j :| 0 <= j < |mapped| && SamePage(Size2M, mapped[j].va, va) && mapped[j].size.Size2M? == IsLarge(DirEntry(m, pml4, va)) {
        if mapped[i].size.Size2M? != mapped[j].size.Size2M? {
          assert mapped[i].Overlaps(mapped[j]) && mapped[j].Overlaps(mapped[i]);
        }
      }
    }
  }

  lemma UpperEntryChanged(m: Memory, m': Memory, pml4: nat, n: Node, i: Index, w: Word)
    requires n.Depth() < 2 && OneEntryChanged(Host, m, m', pml4, n, i, w)
    ensures forall x: nat :: DirEntry(m', pml4, x) == DirEntry(m, pml4, x)
    ensures forall x: nat :: LeafEntry(m', pml4, x) == LeafEntry(m, pml4, x)
  {
  }

  /** Upper-level tables carry no translation: growing them refines the same history. */
  lemma UpperLevelsInvisible(m: Memory, m': Memory, pml4: nat, owners: Owners, owners': Owners, mapped: seq<Mapping>)
    requires HostRefines(m, pml4, owners, mapped)
    requires Tree(Host, m', pml4, owners') && AllPlaced(Host, m', pml4, owners') && ForeignIdentity(pml4, owners', mapped)
    requires forall x: nat :: DirEntry(m', pml4, x) == DirEntry(m, pml4, x)
    requires forall x: nat :: LeafEntry(m', pml4, x) == LeafEntry(m, pml4, x)
    ensures HostRefines(m', pml4, owners', mapped)
  {
    forall x: nat ensures Pa(m', pml4, x) == Replay(mapped, x) {
      PaByEntries(m, pml4, x);
      PaByEntries(m', pml4, x);
      assert Pa(m, pml4, x) == Replay(mapped, x);
    }
    forall x: nat ensures LeavesWritable(m', pml4, x) {
      assert LeavesWritable(m, pml4, x);
    }
  }

  /** One more leaf, over addresses that had no translation, extends the history by one. */
  lemma HistoryGrows(m: Memory, m': Memory, pml4: nat, owners: Owners, owners': Owners, mapped: seq<Mapping>, mp: Mapping)
    requires HostRefines(m, pml4, owners, mapped)
    requires Tree(Host, m', pml4, owners') && AllPlaced(Host, m', pml4, owners') && ForeignIdentity(pml4, owners', mapped)
    requires forall p :: p in owners' ==> p < 0x1000_0000
    requires forall i :: 0 <= i < |mapped| ==> !mapped[i].Overlaps(mp)
    requires forall x: nat :: Pa(m', pml4, x) == if mp.Covers(x) then mp.Target(x) else Pa(m, pml4, x)
    requires forall x: nat :: DirEntry(m', pml4, x) == DirEntry(m, pml4, x) ||
                              (SamePage(Size2M, mp.va, x) && IsLarge(DirEntry(m', pml4, x)) == mp.size.Size2M?)
    requires forall x: nat :: LeavesWritable(m', pml4, x)
    ensures HostRefines(m', pml4, owners', mapped + [mp])
  {
    var now := mapped + [mp];
    assert now[..|mapped|] == mapped;
    ForeignIdentityPersists(pml4, owners', mapped, now);
    forall x: nat | DirEntry(m', pml4, x) % 2 == 1 ensures RegionUsed(now, x, IsLarge(DirEntry(m', pml4, x))) {
      if DirEntry(m', pml4, x) == DirEntry(m, pml4, x) {
        var i :| 0 <= i < |mapped| && SamePage(Size2M, mapped[i].va, x)
                 && mapped[i].size.Size2M? == IsLarge(DirEntry(m, pml4, x));
        assert now[i] == mapped[i];
      } else {
        assert now[|mapped|] == mp;
      }
    }
    forall x: nat ensures Pa(m', pml4, x) == Replay(now, x) {
      assert Pa(m, pml4, x) == Replay(mapped, x);
    }
  }

  /** The words map_address stores in a leaf. */
  function SmallWord(phy: Word): Word { phy / 0x1000 * 0x1000 + 0x3 }
  function LargeWord(phy: Word): Word { phy / 0x20_0000 * 0x20_0000 + 0x83 }

  lemma SmallLeaf(phy: Word)
    ensures SmallWord(phy) % 2 == 1 && SmallWord(phy) / 0x1000 == phy / 0x1000 && KernelWrites(SmallWord(phy))
  {
    DivisionOf(SmallWord(phy), 8, phy / 0x1000 * 0x200, 3);
  }

  lemma LargeLeaf(phy: Word)
    ensures IsLarge(LargeWord(phy)) && LargeWord(phy) / 0x20_0000 == phy / 0x20_0000 && KernelWrites(LargeWord(phy))
  {
    var w, q := LargeWord(phy), phy / 0x20_0000;
    DivisionOf(w, 8, q * 0x4_0000 + 0x10, 3);
    DivisionOf(w, 0x20_0000, q, 0x83);
    DivisionOf(w, 2, q * 0x10_0000 + 0x41, 1);
    DivisionOf(w, 0x80, q * 0x4000 + 1, 3);
    DivisionOf(q * 0x4000 + 1, 2, q * 0x2000, 1);
  }

  /** `m1` is `m`, perhaps with an empty page table newly linked for the region of `va`. */
  ghost predicate PageTableReady(m: Memory, m1: Memory, pml4: nat, owners1: Owners, va: nat) {
    && Tree(Host, m1, pml4, owners1)
    && AllPlaced(Host, m1, pml4, owners1)
    && TableOf(Host, m1, pml4, PtNode(va)).Some?
    && (forall x: nat :: LeafEntry(m1, pml4, x) == LeafEntry(m, pml4, x))
    && (forall x: nat :: DirEntry(m1, pml4, x) == DirEntry(m, pml4, x) ||
                         (SamePage(Size2M, va, x) && DirEntry(m, pml4, x) % 2 == 0 && !IsLarge(DirEntry(m1, pml4, x))
                          && KernelWrites(DirEntry(m1, pml4, x))))
  }

  /** Storing a 4 KB leaf where the page had none. */
  lemma StoreSmallLeaf(m: Memory, m1: Memory, pml4: nat, owners: Owners, owners1: Owners, mapped: seq<Mapping>, va: nat, phy: Word)
    requires HostRefines(m, pml4, owners, mapped)
    requires PageTableReady(m, m1, pml4, owners1, va)
    requires !LargeCovered(mapped, va) && LeafEntry(m, pml4, va) % 2 == 0
    requires ForeignIdentity(pml4, owners1, mapped) && forall p :: p in owners1 ==> p < 0x1000_0000
    ensures HostRefines(WriteWord(m1, TableOf(Host, m1, pml4, PtNode(va)).value, Level1Index(va), SmallWord(phy)),
                        pml4, owners1, mapped + [Mapping(va, phy, Size4K)])
  {
    var mp := Mapping(va, phy, Size4K);
    var m' := WriteWord(m1, TableOf(Host, m1, pml4, PtNode(va)).value, Level1Index(va), SmallWord(phy));
    LeafWrite(Host, m1, pml4, owners1, PtNode(va), Level1Index(va), SmallWord(phy));
    PlacedAfterWrite(Host, m1, m', pml4, owners1);
    SmallOverlapIff(m, pml4, owners, mapped, va, phy);
    DirEntryMeaning(m, pml4, owners, mapped, va);
    forall x: nat
      ensures Pa(m', pml4, x) == if mp.Covers(x) then mp.Target(x) else Pa(m, pml4, x)
      ensures DirEntry(m', pml4, x) == DirEntry(m1, pml4, x) && LeavesWritable(m', pml4, x)
    {
      assert LeavesWritable(m, pml4, x);
      SmallLeafAt(m, m1, m', pml4, owners1, va, phy, x);
    }
    HistoryGrows(m, m', pml4, owners, owners1, mapped, mp);
  }

  /** What the new leaf means at one address. */
  lemma SmallLeafAt(m: Memory, m1: Memory, m': Memory, pml4: nat, owners1: Owners, va: nat, phy: Word, x: nat)
    requires PageTableReady(m, m1, pml4, owners1, va) && !IsLarge(DirEntry(m, pml4, va)) && LeavesWritable(m, pml4, x)
    requires OneEntryChanged(Host, m1, m', pml4, PtNode(va), Level1Index(va), SmallWord(phy))
    ensures var mp := Mapping(va, phy, Size4K);
            Pa(m', pml4, x) == if mp.Covers(x) then mp.Target(x) else Pa(m, pml4, x)
    ensures DirEntry(m', pml4, x) == DirEntry(m1, pml4, x) && LeavesWritable(m', pml4, x)
  {
    SmallLeaf(phy);
    IndicesNameThePage(va, x);
    PaByEntries(m, pml4, x);
    PaByEntries(m', pml4, x);
  }

  /** A level-1 entry is present exactly when an earlier mapping overlaps the page. */
  lemma SmallOverlapIff(m: Memory, pml4: nat, owners: Owners, mapped: seq<Mapping>, va: nat, phy: Word)
    requires HostRefines(m, pml4, owners, mapped) && !LargeCovered(mapped, va)
    ensures LeafEntry(m, pml4, va) % 2 == 1 <==>
            exists i :: 0 <= i < |mapped| && mapped[i].Overlaps(Mapping(va, phy, Size4K))
  {
    var mp := Mapping(va, phy, Size4K);
    DirEntryMeaning(m, pml4, owners, mapped, va);
    PaByEntries(m, pml4, va);
    ReplayOfUnmapped(mapped, va);
    assert Pa(m, pml4, va) == Replay(mapped, va);
    forall i | 0 <= i < |mapped| ensures mapped[i].Overlaps(mp) <==> mapped[i].Covers(va) {
    }
  }

  /** A level-2 entry is present exactly when an earlier mapping overlaps the region. */
  lemma LargeOverlapIff(m: Memory, pml4: nat, owners: Owners, mapped: seq<Mapping>, va: nat, phy: Word)
    requires HostRefines(m, pml4, owners, mapped)
    ensures DirEntry(m, pml4, va) % 2 == 1 <==>
            exists i :: 0 <= i < |mapped| && mapped[i].Overlaps(Mapping(va, phy, Size2M))
  {
    var mp := Mapping(va, phy, Size2M);
    DirEntryMeaning(m, pml4, owners, mapped, va);
    forall i | 0 <= i < |mapped| ensures mapped[i].Overlaps(mp) <==> SamePage(Size2M, mapped[i].va, va) {
    }
  }

  /** A region whose level-2 entry is absent holds no mapping. */
  lemma AbsentRegionFree(m: Memory, pml4: nat, owners: Owners, mapped: seq<Mapping>, mp: Mapping)
    requires HostRefines(m, pml4, owners, mapped) && DirEntry(m, pml4, mp.va) % 2 == 0
    ensures forall i :: 0 <= i < |mapped| ==> !mapped[i].Overlaps(mp)
  {
    DirEntryMeaning(m, pml4, owners, mapped, mp.va);
    forall i | 0 <= i < |mapped| ensures !mapped[i].Overlaps(mp) {
      IndicesNameThePage(mapped[i].va, mp.va);
    }
  }

  /** Storing a 2 MB leaf in an empty level-2 entry. */
  lemma StoreLargeLeaf(m: Memory, pml4: nat, owners: Owners, mapped: seq<Mapping>, va: nat, phy: Word)
    requires HostRefines(m, pml4, owners, mapped)
    requires TableOf(Host, m, pml4, PdNode(va)).Some? && DirEntry(m, pml4, va) % 2 == 0
    requires forall p :: p in owners ==> p < 0x1000_0000
    ensures HostRefines(WriteWord(m, TableOf(Host, m, pml4, PdNode(va)).value, Level2Index(va), LargeWord(phy)),
                        pml4, owners, mapped + [Mapping(va, phy, Size2M)])
  {
    var mp := Mapping(va, phy, Size2M);
    var m' := WriteWord(m, TableOf(Host, m, pml4, PdNode(va)).value, Level2Index(va), LargeWord(phy));
    LargeLeaf(phy);
    LeafWrite(Host, m, pml4, owners, PdNode(va), Level2Index(va), LargeWord(phy));
    PlacedAfterWrite(Host, m, m', pml4, owners);
    LargeOverlapIff(m, pml4, owners, mapped, va, phy);
    forall x: nat
      ensures Pa(m', pml4, x) == if mp.Covers(x) then mp.Target(x) else Pa(m, pml4, x)
      ensures DirEntry(m', pml4, x) == DirEntry(m, pml4, x) || (SamePage(Size2M, va, x) && IsLarge(DirEntry(m', pml4, x)))
      ensures LeavesWritable(m', pml4, x)
    {
      assert LeavesWritable(m, pml4, x);
      IndicesNameThePage(va, x);
      PaByEntries(m, pml4, x);
      PaByEntries(m', pml4, x);
    }
    HistoryGrows(m, m', pml4, owners, owners, mapped, mp);
  }

  /** How one uncovered call changes the history of successful calls. */
  ghost predicate MapOutcome(before: seq<Mapping>, mp: Mapping, r: Status, after: seq<Mapping>) {
    && after == (if r == Ok then before + [mp] else before)
    && (r == Duplication <==> exists i :: 0 <= i < |before| && before[i].Overlaps(mp))
    && (r == Ok ==> mp.phy % mp.size.Bytes() == 0)
    && (r == Halted ==> mp.phy % mp.size.Bytes() != 0)
  }

  /** Running out of memory for a table happens only where nothing is mapped. */
  lemma OutOfMemoryOutcome(m: Memory, pml4: nat, owners: Owners, mapped: seq<Mapping>, mp: Mapping)
    requires HostRefines(m, pml4, owners, mapped) && DirEntry(m, pml4, mp.va) % 2 == 0
    ensures MapOutcome(mapped, mp, OutOfMemory, mapped)
  {
    AbsentRegionFree(m, pml4, owners, mapped, mp);
  }

  lemma OnlyTreeTransitive(k: Kind, root: nat, m: Memory, o: Owners, m1: Memory, o1: Owners, m2: Memory, o2: Owners)
    requires OnlyTree(k, root, m, o, m1, o1) && OnlyTree(k, root, m1, o1, m2, o2)
    ensures OnlyTree(k, root, m, o, m2, o2)
  {
  }

  lemma InstallOnlyTree(k: Kind, root: nat, m: Memory, o: Owners, n: Node, i: Index, w: Word, c: nat)
    requires Tree(k, m, root, o) && IsNode(n) && TableOf(k, m, root, n).Some? && c !in o
    ensures OnlyTree(k, root, m, o, Linking(m, TableOf(k, m, root, n).value, i, w, c), o[c := Table(k, root, Child(n, i))])
  {
    WalkReachesOwner(k, m, root, o, n);
    var m' := Linking(m, TableOf(k, m, root, n).value, i, w, c);
    forall p: nat ensures m'[p] == m[p] || IsTable(k, root, o[c := Table(k, root, Child(n, i))], p) {
      assert p == c || p == TableOf(k, m, root, n).value || m'[p] == m[p];
    }
  }

  /** From (m, o) to (m', o') the empty table `c` was linked at entry `i` of node `n`, and nothing else of the tree changed. */
  ghost predicate LinkedBelow(k: Kind, root: nat, m: Memory, o: Owners, n: Node, i: Index, c: nat, m': Memory, o': Owners)
    requires c < 0x1000_0000
  {
    && Tree(k, m', root, o') && OnlyTree(k, root, m, o, m', o') && o' == o[c := Table(k, root, Child(n, i))]
    && TableOf(k, m', root, Child(n, i)) == Some(c)
    && (forall x :: IsNode(x) && x != Child(n, i) ==> TableOf(k, m', root, x) == TableOf(k, m, root, x))
    && OneEntryChanged(k, m, m', root, n, i, TableWord(k, c))
    && (AllPlaced(k, m, root, o) ==> AllPlaced(k, m', root, o'))
  }

  /** Everything linking the fresh page `c` below node `n` does to the tree. */
  lemma LinkEffect(k: Kind, root: nat, m: Memory, o: Owners, n: Node, p: nat, i: Index, c: nat, m': Memory, o': Owners)
    requires Tree(k, m, root, o) && IsNode(n) && n.Depth() < 3 && TableOf(k, m, root, n) == Some(p)
    requires Link(k, n.Depth(), m[p][i]).None? && c < 0x1000_0000 && c !in o
    requires m' == Linking(m, p, i, TableWord(k, c), c) && o' == o[c := Table(k, root, Child(n, i))]
    ensures LinkedBelow(k, root, m, o, n, i, c, m', o')
  {
    TableWordLinks(k, n.Depth(), c);
    Install(k, m, root, o, n, i, TableWord(k, c), c);
    InstallOnlyTree(k, root, m, o, n, i, TableWord(k, c), c);
    if AllPlaced(k, m, root, o) {
      ChildUnlinked(k, m, root, n, i);
      PlacedAfterInstall(k, m, m', root, o, n, i, c);
    }
  }

  lemma OneMoreOwner(o: Owners, o': Owners, c: nat, owner: Owner, reservedEnd: nat, cursor: nat)
    requires AllGranted(o, reservedEnd, cursor) && RootsOwned(o) && o' == o[c := owner]
    requires Granted(c, reservedEnd, cursor) && (owner.Table? ==> owner.root in o)
    ensures AllGranted(o', reservedEnd, cursor) && RootsOwned(o')
  {
  }

  lemma LeafWriteOnlyTree(k: Kind, root: nat, m: Memory, o: Owners, n: Node, i: Index, w: Word)
    requires Tree(k, m, root, o) && IsNode(n) && TableOf(k, m, root, n).Some?
    ensures OnlyTree(k, root, m, o, WriteWord(m, TableOf(k, m, root, n).value, i, w), o)
  {
    WalkReachesOwner(k, m, root, o, n);
  }

  lemma DirectoryPresent(m: Memory, pml4: nat, va: nat)
    requires TableOf(Host, m, pml4, PdNode(va)).Some?
    ensures m[pml4][Level4Index(va)] % 2 == 1
    ensures TableOf(Host, m, pml4, PdptNode(va)).Some?
    ensures m[TableOf(Host, m, pml4, PdptNode(va)).value][Level3Index(va)] % 2 == 1
  {
    assert TableOf(Host, m, pml4, Root) == Some(pml4);
    assert TableOf(Host, m, pml4, PdptNode(va)) == Link(Host, 0, m[pml4][Level4Index(va)]);
  }

  lemma LeafNeedsDirectory(m: Memory, pml4: nat, va: nat)
    requires LeafEntry(m, pml4, va) != 0
    ensures DirEntry(m, pml4, va) % 2 == 1
  {
    assert TableOf(Host, m, pml4, PtNode(va)).Some?;
  }

  lemma EmptyRootRefines(m: Memory, pml4: nat)
    requires m[pml4] == ZeroPage()
    ensures HostRefines(m, pml4, map[pml4 := Table(Host, pml4, Root)], [])
  {
    forall x: nat ensures DirEntry(m, pml4, x) == 0 && Pa(m, pml4, x) == NO_TRANSLATION && LeavesWritable(m, pml4, x) {
      assert TableOf(Host, m, pml4, Root) == Some(pml4);
      assert TableOf(Host, m, pml4, PdptNode(x)).None?;
      PaByEntries(m, pml4, x);
    }
  }

  lemma IdentityMapFree(n: nat)
    requires n < 1024
    ensures forall i :: 0 <= i < n ==> !IdentityMap(n)[i].Overlaps(Mapping(n * PAGE_SIZE_2M, n * PAGE_SIZE_2M, Size2M))
  {
    forall i | 0 <= i < n
      ensures !IdentityMap(n)[i].Overlaps(Mapping(n * PAGE_SIZE_2M, n * PAGE_SIZE_2M, Size2M))
    {
      LargePageOf(i, n * PAGE_SIZE_2M);
    }
  }

  lemma NextIdentity(n: nat, r: Status, history: seq<Mapping>)
    requires n < 1024
    requires MapOutcome(IdentityMap(n), Mapping(n * PAGE_SIZE_2M, n * PAGE_SIZE_2M, Size2M), r, history)
    ensures r == OutOfMemory || (r == Ok && history == IdentityMap(n + 1))
  {
    IdentityMapFree(n);
    assert IdentityMap(n) + [Mapping(n * PAGE_SIZE_2M, n * PAGE_SIZE_2M, Size2M)] == IdentityMap(n + 1);
  }

  lemma NewPageTableReady(m: Memory, m1: Memory, pml4: nat, owners1: Owners, va: nat, c: nat)
    requires c < 0x1000_0000 && Tree(Host, m1, pml4, owners1) && AllPlaced(Host, m1, pml4, owners1)
    requires TableOf(Host, m1, pml4, PtNode(va)) == Some(c)
    requires DirEntry(m, pml4, va) % 2 == 0
    requires OneEntryChanged(Host, m, m1, pml4, PdNode(va), Level2Index(va), TableWord(Host, c))
    ensures PageTableReady(m, m1, pml4, owners1, va)
  {
    TableWordLinks(Host, 2, c);
    forall x: nat
      ensures LeafEntry(m1, pml4, x) == LeafEntry(m, pml4, x)
      ensures DirEntry(m1, pml4, x) == DirEntry(m, pml4, x) ||
              (SamePage(Size2M, va, x) && DirEntry(m, pml4, x) % 2 == 0 && !IsLarge(DirEntry(m1, pml4, x))
               && KernelWrites(DirEntry(m1, pml4, x)))
    {
      IndicesNameThePage(va, x);
    }
  }

  /** Writing and handing out pages that are none of the kernel's tables changes no translation of the kernel. */
  lemma HostUnaffected(m: Memory, o: Owners, m': Memory, o': Owners, pml4: nat, mapped: seq<Mapping>)
    requires HostRefines(m, pml4, o, mapped)
    requires forall p :: p in o ==> p in o' && o'[p] == o[p]
    requires forall p :: IsTable(Host, pml4, o', p) ==> p in o && m'[p] == m[p]
    requires forall p :: p in o' && p !in o ==> SentToItself(mapped, p)
    ensures HostRefines(m', pml4, o', mapped)
    ensures forall x: nat :: Pa(m', pml4, x) == Pa(m, pml4, x)
  {
    TreeFrame(Host, m, m', pml4, o, o');
    PlacedElsewhere(Host, m, m', pml4, o, o');
    forall x: nat
      ensures DirEntry(m', pml4, x) == DirEntry(m, pml4, x)
      ensures LeafEntry(m', pml4, x) == LeafEntry(m, pml4, x)
    {
      WalkDependsOnTables(Host, m, m', pml4, o, PdNode(x));
      WalkDependsOnTables(Host, m, m', pml4, o, PtNode(x));
    }
    ForeignIdentityKept(pml4, o, o', mapped);
    UpperLevelsInvisible(m, m', pml4, o, o', mapped);
  }

  /** What map_address does to a 4 KB request under a 2 MB leaf, which it takes for a page-table pointer. */
  ghost predicate CoveredOutcome(m: Memory, pml4: nat, va: nat, phy: Word, r: Status, m': Memory) {
    var pt := NextTable(DirEntry(m, pml4, va));
    && r == (if m[pt][Level1Index(va)] % 2 == 1 then Duplication else if phy % 0x1000 != 0 then Halted else Ok)
    && m' == (if r == Ok then WriteWord(m, pt, Level1Index(va), SmallWord(phy)) else m)
  }

  /** The outcome of any call, from (m0, o0, before) to (m, o, after). */
  ghost predicate CallOutcome(m0: Memory, o0: Owners, before: seq<Mapping>, pml4: nat, va: nat, phy: Word, size: PageSize,
                              r: Status, m: Memory, o: Owners, after: seq<Mapping>) {
    if size.Size4K? && LargeCovered(before, va) then
      && after == before && o == o0
      && CoveredOutcome(m0, pml4, va, phy, r, m)
      && (HostRefines(m, pml4, o, after) <==> r != Ok || !IsTable(Host, pml4, o, NextTable(DirEntry(m0, pml4, va))))
    else
      && (r != Halted ==> HostRefines(m, pml4, o, after))
      && OnlyTree(Host, pml4, m0, o0, m, o)
      && MapOutcome(before, Mapping(va, phy, size), r, after)
  }

  lemma CoveredHasDirectory(m: Memory, pml4: nat, owners: Owners, mapped: seq<Mapping>, va: nat)
    requires HostRefines(m, pml4, owners, mapped)
    ensures LargeCovered(mapped, va) ==> TableOf(Host, m, pml4, PdNode(va)).Some?
  {
    DirEntryMeaning(m, pml4, owners, mapped, va);
  }

  lemma NoDirectoryOutcome(m0: Memory, pml4: nat, o0: Owners, mapped: seq<Mapping>, va: nat, phy: Word, size: PageSize,
                           m: Memory, o: Owners)
    requires HostRefines(m0, pml4, o0, mapped) && TableOf(Host, m0, pml4, PdNode(va)).None?
    requires HostRefines(m, pml4, o, mapped) && OnlyTree(Host, pml4, m0, o0, m, o)
    ensures CallOutcome(m0, o0, mapped, pml4, va, phy, size, OutOfMemory, m, o, mapped)
  {
    CoveredHasDirectory(m0, pml4, o0, mapped, va);
    OutOfMemoryOutcome(m0, pml4, o0, mapped, Mapping(va, phy, size));
  }

  /**
  A 4 KB request under a 2 MB mapping may report success, but unless the large frame happens to
  start with a page table no translation changes: the request takes effect exactly when the large page
  already sent the address there.
  */
  lemma CoveredRequestIgnored(m: Memory, pml4: nat, owners: Owners, mapped: seq<Mapping>, va: nat, phy: Word)
    requires HostRefines(m, pml4, owners, mapped) && LargeCovered(mapped, va)
    requires !IsTable(Host, pml4, owners, NextTable(DirEntry(m, pml4, va)))
    ensures var m' := WriteWord(m, NextTable(DirEntry(m, pml4, va)), Level1Index(va), SmallWord(phy));
            && HostRefines(m', pml4, owners, mapped)
            && (forall x: nat :: Pa(m', pml4, x) == Pa(m, pml4, x))
            && (Pa(m', pml4, va) == Mapping(va, phy, Size4K).Target(va) <==>
                Replay(mapped, va) == Mapping(va, phy, Size4K).Target(va))
  {
    HostUnaffected(m, owners, WriteWord(m, NextTable(DirEntry(m, pml4, va)), Level1Index(va), SmallWord(phy)), owners,
                   pml4, mapped);
  }

  /** If the large frame starts with a page table, the request maps an address nobody asked for instead. */
  lemma CoveredRequestHitsTable(m: Memory, pml4: nat, owners: Owners, mapped: seq<Mapping>, va: nat, phy: Word, y: nat)
    requires HostRefines(m, pml4, owners, mapped) && LargeCovered(mapped, va)
    requires TableOf(Host, m, pml4, PtNode(y)) == Some(NextTable(DirEntry(m, pml4, va)))
    requires Level1Index(y) == Level1Index(va) && m[NextTable(DirEntry(m, pml4, va))][Level1Index(va)] % 2 == 0
    ensures var m' := WriteWord(m, NextTable(DirEntry(m, pml4, va)), Level1Index(va), SmallWord(phy));
            && Pa(m, pml4, y) == NO_TRANSLATION
            && Pa(m', pml4, y) == Mapping(y, phy, Size4K).Target(y)
            && !HostRefines(m', pml4, owners, mapped)
  {
    var m' := WriteWord(m, NextTable(DirEntry(m, pml4, va)), Level1Index(va), SmallWord(phy));
    LeafWrite(Host, m, pml4, owners, PtNode(y), Level1Index(y), SmallWord(phy));
    SmallLeaf(phy);
    PaByEntries(m, pml4, y);
    PaByEntries(m', pml4, y);
    assert Pa(m, pml4, y) == Replay(mapped, y);
  }

  /** A link where there was none leads out of the tree: every table already has another place. */
  lemma ForeignLinkBreaksTree(m: Memory, pml4: nat, owners: Owners, p: nat, i: Index, w: Word)
    requires Tree(Host, m, pml4, owners) && AllPlaced(Host, m, pml4, owners) && IsTable(Host, pml4, owners, p)
    requires owners[p].node.Depth() < 3 && m[p][i] % 2 == 0 && Link(Host, owners[p].node.Depth(), w).Some?
    ensures !Tree(Host, WriteWord(m, p, i, w), pml4, owners)
  {
    var m', n := WriteWord(m, p, i, w), owners[p].node;
    var c := Link(Host, n.Depth(), w).value;
    assert Placed(Host, m, pml4, owners, p);
    assert TableOf(Host, m, pml4, Child(n, i)).None?;
    if IsTable(Host, pml4, owners, c) {
      assert Placed(Host, m, pml4, owners, c);
    }
    assert !Linked(Host, m', pml4, owners, p, i);
  }

  /** The address whose page table and level-1 index these are. */
  lemma AddressOf(n: Node, i: Index) returns (y: nat)
    requires n.Depth() == 3
    ensures PtNode(y) == n && Level1Index(y) == i
  {
    assert n.parent.Depth() == 2 && n.parent.parent.Depth() == 1 && n.parent.parent.parent.Depth() == 0;
    var a, b, c := n.parent.parent.index, n.parent.index, n.index;
    assert n == Child(Child(Child(Root, a), b), c);
    var q := (a * 512 + b) * 512 + c;
    y := (q * 512 + i) * 0x1000;
    DivisionOf(y, 0x1000, q * 512 + i, 0);
    DivisionOf(q * 512 + i, 512, q, i);
    DivisionOf(y, 0x20_0000, q, i * 0x1000);
    DivisionOf(q, 512, a * 512 + b, c);
    DivisionOf(y, 0x4000_0000, a * 512 + b, (c * 512 + i) * 0x1000);
    DivisionOf(a * 512 + b, 512, a, b);
    DivisionOf(y, 0x80_0000_0000, a, ((b * 512 + c) * 512 + i) * 0x1000);
    DivisionOf(a, 512, 0, a);
  }

  /** A covered request that stores its leaf keeps the refinement exactly when the large frame starts with no host table. */
  lemma CoveredRequestKeepsIff(m: Memory, pml4: nat, owners: Owners, mapped: seq<Mapping>, va: nat, phy: Word)
    requires HostRefines(m, pml4, owners, mapped) && LargeCovered(mapped, va)
    requires m[NextTable(DirEntry(m, pml4, va))][Level1Index(va)] % 2 == 0
    ensures HostRefines(WriteWord(m, NextTable(DirEntry(m, pml4, va)), Level1Index(va), SmallWord(phy)), pml4, owners, mapped)
            <==> !IsTable(Host, pml4, owners, NextTable(DirEntry(m, pml4, va)))
  {
    var pt, i := NextTable(DirEntry(m, pml4, va)), Level1Index(va);
    if !IsTable(Host, pml4, owners, pt) {
      CoveredRequestIgnored(m, pml4, owners, mapped, va, phy);
    } else {
      assert Placed(Host, m, pml4, owners, pt);
      if owners[pt].node.Depth() == 3 {
        var y := AddressOf(owners[pt].node, i);
        CoveredRequestHitsTable(m, pml4, owners, mapped, va, phy, y);
      } else {
        SmallWordLinks(phy, owners[pt].node.Depth());
        ForeignLinkBreaksTree(m, pml4, owners, pt, i, SmallWord(phy));
      }
    }
  }

  lemma SmallWordLinks(phy: Word, depth: nat)
    ensures Link(Host, depth, SmallWord(phy)).Some?
  {
    var w := SmallWord(phy);
    DivisionOf(w, 2, phy / 0x1000 * 0x800 + 1, 1);
    DivisionOf(w, 0x80, phy / 0x1000 * 0x20, 3);
    DivisionOf(phy / 0x1000 * 0x20, 2, phy / 0x1000 * 0x10, 0);
  }

  /** The case is no corner: after paging_init every 4 KB request below 2 GB is covered. */
  lemma IdentityCovers(mapped: seq<Mapping>, va: nat)
    requires IdentityMap(1024) <= mapped && va < INITIAL_VA_CEILING
    ensures LargeCovered(mapped, va)
  {
    var i := va / PAGE_SIZE_2M;
    assert mapped[i] == IdentityMap(1024)[i];
    LargePageOf(i, va);
  }

  /** In every valid state the kernel reaches each extended table and guest frame by its physical address. */
  lemma ForeignPagesReached(m: Memory, pml4: nat, owners: Owners, mapped: seq<Mapping>, p: nat)
    requires HostRefines(m, pml4, owners, mapped) && p in owners && !IsTable(Host, pml4, owners, p)
    ensures Pa(m, pml4, p * 0x1000) == p * 0x1000
  {
    assert SentToItself(mapped, p) && Pa(m, pml4, p * 0x1000) == Replay(mapped, p * 0x1000);
  }

  /** The boot-time identity map survives every later history of calls. */
  lemma IdentityPersists(m: Memory, pml4: nat, owners: Owners, mapped: seq<Mapping>, x: nat)
    requires HostRefines(m, pml4, owners, mapped) && IdentityMap(1024) <= mapped
    requires x < INITIAL_VA_CEILING
    ensures Pa(m, pml4, x) == x
  {
    IdentityMapReplay(1024, x);
    TranslationsPersist(IdentityMap(1024), mapped, x);
  }

  lemma IdentityEverywhere(m: Memory, pml4: nat, owners: Owners, mapped: seq<Mapping>)
    requires HostRefines(m, pml4, owners, mapped) && mapped == IdentityMap(1024)
    ensures forall x: nat :: x < 0x1_0000_0000_0000 ==>
                               Pa(m, pml4, x) == if x < INITIAL_VA_CEILING then x else NO_TRANSLATION
  {
    forall x: nat | x < 0x1_0000_0000_0000
      ensures Pa(m, pml4, x) == if x < INITIAL_VA_CEILING then x else NO_TRANSLATION
    {
      IdentityMapReplay(1024, x);
    }
  }

  class Machine {
    const alloc: PageAllocator
    var mem: Memory
    var pml4Base: nat
    ghost var owners: Owners
    ghost var mapped: seq<Mapping>

    /** Every page in use was granted by the allocator and has one owner. */
    ghost predicate Sound()
      reads this, alloc
    {
      && alloc.Valid()
      && AllGranted(owners, alloc.reservedEnd, alloc.currentAvailPage)
      && RootsOwned(owners)
    }

    ghost predicate Valid()
      reads this, alloc
    {
      Sound() && HostRefines(mem, pml4Base, owners, mapped)
    }

    constructor (alloc: PageAllocator, mem: Memory)
      requires alloc.Valid()
      ensures Sound() && this.alloc == alloc && this.mem == mem && owners == map[] && mapped == []
    {
      this.alloc := alloc;
      this.mem := mem;
      pml4Base := 0;
      owners := map[];
      mapped := [];
    }

    /** get_physical_page, as a page number: a page nobody owns, or none. */
    method GetPhysicalPage() returns (c: Option<nat>)
      requires Sound()
      modifies alloc
      ensures Sound()
      ensures c.None? ==> alloc.currentAvailPage == old(alloc.currentAvailPage)
                          && !alloc.regions.PageValid(alloc.currentAvailPage)
      ensures c.Some? ==> c.value * 0x1000 == old(alloc.currentAvailPage) < alloc.currentAvailPage
                          && c.value < 0x1000_0000 && c.value !in owners
                          && Granted(c.value, alloc.reservedEnd, alloc.currentAvailPage)
    {
      var addr := alloc.GetPhysicalPages(1);
      c := if addr == 0 then None else Some(addr / 0x1000);
    }

    /** memset the new table to zero and link it below node `n`. */
    method LinkTable(k: Kind, root: nat, ghost n: Node, p: nat, i: Index, c: nat)
      requires Sound() && Tree(k, mem, root, owners)
      requires IsNode(n) && n.Depth() < 3 && TableOf(k, mem, root, n) == Some(p)
      requires Link(k, n.Depth(), mem[p][i]).None?
      requires c < 0x1000_0000 && c !in owners
      requires Granted(c, alloc.reservedEnd, alloc.currentAvailPage)
      modifies this`mem, this`owners
      ensures Sound() && LinkedBelow(k, root, old(mem), old(owners), n, i, c, mem, owners)
    {
      mem := mem[c := ZeroPage()];
      mem := WriteWord(mem, p, i, TableWord(k, c));
      owners := owners[c := Table(k, root, Child(n, i))];
      LinkEffect(k, root, old(mem), old(owners), n, p, i, c, mem, owners);
      OneMoreOwner(old(owners), owners, c, Table(k, root, Child(n, i)), alloc.reservedEnd, alloc.currentAvailPage);
    }

    /** The table below an upper-level entry, installed on demand; (m0, o0) is where map_address began. */
    method NextLevel(ghost n: Node, p: nat, i: Index, ghost m0: Memory, ghost o0: Owners) returns (c: Option<nat>)
      requires Valid() && n.Depth() < 2 && TableOf(Host, mem, pml4Base, n) == Some(p)
      requires OnlyTree(Host, pml4Base, m0, o0, mem, owners)
      modifies this`mem, this`owners, alloc
      ensures Valid() && OnlyTree(Host, pml4Base, m0, o0, mem, owners)
      ensures c.Some? ==> TableOf(Host, mem, pml4Base, Child(n, i)) == c
      ensures c.None? ==> !alloc.regions.PageValid(alloc.currentAvailPage)
      ensures old(mem[p][i]) % 2 == 1 ==> c.Some? && mem == old(mem) && owners == old(owners)
                                          && alloc.currentAvailPage == old(alloc.currentAvailPage)
      ensures alloc.currentAvailPage >= old(alloc.currentAvailPage)
    {
      if mem[p][i] % 2 == 1 {
        return Some(NextTable(mem[p][i]));
      }
      c := GetPhysicalPage();
      if c.Some? {
        LinkUpper(n, p, i, c.value, m0, o0);
      }
    }

    /** Linking an upper table, which no translation sees. */
    method LinkUpper(ghost n: Node, p: nat, i: Index, c: nat, ghost m0: Memory, ghost o0: Owners)
      requires Valid() && n.Depth() < 2 && TableOf(Host, mem, pml4Base, n) == Some(p) && mem[p][i] % 2 == 0
      requires c < 0x1000_0000 && c !in owners && Granted(c, alloc.reservedEnd, alloc.currentAvailPage)
      requires OnlyTree(Host, pml4Base, m0, o0, mem, owners)
      modifies this`mem, this`owners
      ensures Valid() && OnlyTree(Host, pml4Base, m0, o0, mem, owners)
      ensures TableOf(Host, mem, pml4Base, Child(n, i)) == Some(c)
    {
      LinkTable(Host, pml4Base, n, p, i, c);
      UpperEntryChanged(old(mem), mem, pml4Base, n, i, TableWord(Host, c));
      ForeignIdentityKept(pml4Base, old(owners), owners, mapped);
      UpperLevelsInvisible(old(mem), mem, pml4Base, old(owners), owners, mapped);
      OnlyTreeTransitive(Host, pml4Base, m0, o0, old(mem), old(owners), mem, owners);
    }

    /** The page directory for an address, with the two tables above it, installed on demand. */
    method DirectoryFor(va: Word) returns (pd: Option<nat>)
      requires Valid()
      modifies this`mem, this`owners, alloc
      ensures Valid() && OnlyTree(Host, pml4Base, old(mem), old(owners), mem, owners)
      ensures alloc.currentAvailPage >= old(alloc.currentAvailPage)
      ensures pd.Some? ==> TableOf(Host, mem, pml4Base, PdNode(va)) == pd
      ensures pd.None? ==> !alloc.regions.PageValid(alloc.currentAvailPage)
      ensures old(TableOf(Host, mem, pml4Base, PdNode(va))).Some? ==>
                pd.Some? && mem == old(mem) && owners == old(owners)
                && alloc.currentAvailPage == old(alloc.currentAvailPage)
    {
      if TableOf(Host, mem, pml4Base, PdNode(va)).Some? {
        DirectoryPresent(mem, pml4Base, va);
      }
      var pdpt := NextLevel(Root, pml4Base, Level4Index(va), mem, owners);
      if pdpt.None? {
        return None;
      }
      pd := NextLevel(PdptNode(va), pdpt.value, Level3Index(va), old(mem), old(owners));
    }

    /** The 2 MB branch of map_address. */
    method MapLarge(va: Word, phy: Word, pd: nat) returns (r: Status)
      requires Valid() && TableOf(Host, mem, pml4Base, PdNode(va)) == Some(pd)
      modifies this`mem, this`mapped
      ensures Valid() && r != OutOfMemory
      ensures OnlyTree(Host, pml4Base, old(mem), old(owners), mem, owners)
      ensures MapOutcome(old(mapped), Mapping(va, phy, Size2M), r, mapped)
    {
      LargeOverlapIff(mem, pml4Base, owners, mapped, va, phy);
      if mem[pd][Level2Index(va)] % 2 == 1 {
        return Duplication;
      }
      if phy % PAGE_SIZE_2M != 0 {
        return Halted;
      }
      StoreLarge(va, phy, pd);
      return Ok;
    }

    method StoreLarge(va: Word, phy: Word, pd: nat)
      requires HostRefines(mem, pml4Base, owners, mapped) && DirEntry(mem, pml4Base, va) % 2 == 0
      requires TableOf(Host, mem, pml4Base, PdNode(va)) == Some(pd) && forall p :: p in owners ==> p < 0x1000_0000
      modifies this`mem, this`mapped
      ensures mapped == old(mapped) + [Mapping(va, phy, Size2M)] && HostRefines(mem, pml4Base, owners, mapped)
      ensures OnlyTree(Host, pml4Base, old(mem), owners, mem, owners)
    {
      StoreLargeLeaf(mem, pml4Base, owners, mapped, va, phy);
      LeafWriteOnlyTree(Host, pml4Base, mem, owners, PdNode(va), Level2Index(va), LargeWord(phy));
      mem := WriteWord(mem, pd, Level2Index(va), LargeWord(phy));
      mapped := mapped + [Mapping(va, phy, Size2M)];
    }

    /** The page table below a level-2 entry, installed on demand. */
    method PageTableFor(va: Word, pd: nat) returns (pt: Option<nat>)
      requires Valid() && TableOf(Host, mem, pml4Base, PdNode(va)) == Some(pd)
      requires !LargeCovered(mapped, va)
      modifies this`mem, this`owners, alloc
      ensures Sound() && OnlyTree(Host, pml4Base, old(mem), old(owners), mem, owners)
      ensures alloc.currentAvailPage >= old(alloc.currentAvailPage)
      ensures pt.None? ==> Valid() && !alloc.regions.PageValid(alloc.currentAvailPage)
                           && old(DirEntry(mem, pml4Base, va)) % 2 == 0
      ensures ForeignIdentity(pml4Base, owners, mapped)
      ensures pt.Some? ==>
                PageTableReady(old(mem), mem, pml4Base, owners, va) && TableOf(Host, mem, pml4Base, PtNode(va)) == pt
      ensures old(DirEntry(mem, pml4Base, va)) % 2 == 1 ==> mem == old(mem) && owners == old(owners)
    {
      var i := Level2Index(va);
      DirEntryMeaning(mem, pml4Base, owners, mapped, va);
      if mem[pd][i] % 2 == 1 {
        return Some(NextTable(mem[pd][i]));
      }
      pt := GetPhysicalPage();
      if pt.Some? {
        LinkTable(Host, pml4Base, PdNode(va), pd, i, pt.value);
        NewPageTableReady(old(mem), mem, pml4Base, owners, va, pt.value);
        ForeignIdentityKept(pml4Base, old(owners), owners, mapped);
      }
    }

    /** Store the 4 KB leaf, unless the entry is taken. */
    method FillLeaf(va: Word, phy: Word, pt: nat, ghost m0: Memory, ghost o0: Owners) returns (r: Status)
      requires Sound() && HostRefines(m0, pml4Base, o0, mapped) && !LargeCovered(mapped, va)
      requires ForeignIdentity(pml4Base, owners, mapped)
      requires PageTableReady(m0, mem, pml4Base, owners, va)
      requires TableOf(Host, mem, pml4Base, PtNode(va)) == Some(pt)
      requires DirEntry(m0, pml4Base, va) % 2 == 1 ==> mem == m0 && owners == o0
      modifies this`mem, this`mapped
      ensures r == Ok || r == Duplication ==> HostRefines(mem, pml4Base, owners, mapped)
      ensures OnlyTree(Host, pml4Base, old(mem), owners, mem, owners)
      ensures r != OutOfMemory && MapOutcome(old(mapped), Mapping(va, phy, Size4K), r, mapped)
    {
      ghost var mp := Mapping(va, phy, Size4K);
      assert mem[pt][Level1Index(va)] == LeafEntry(m0, pml4Base, va);
      assert mem[pt][Level1Index(va)] % 2 == 1 <==> exists i :: 0 <= i < |mapped| && mapped[i].Overlaps(mp) by {
        SmallOverlapIff(m0, pml4Base, o0, mapped, va, phy);
      }
      if mem[pt][Level1Index(va)] % 2 == 1 {
        LeafNeedsDirectory(m0, pml4Base, va);
        return Duplication;
      }
      if phy % PAGE_SIZE_4K != 0 {
        return Halted;
      }
      StoreSmall(va, phy, pt, m0, o0);
      return Ok;
    }

    method StoreSmall(va: Word, phy: Word, pt: nat, ghost m0: Memory, ghost o0: Owners)
      requires HostRefines(m0, pml4Base, o0, mapped) && !LargeCovered(mapped, va) && LeafEntry(m0, pml4Base, va) % 2 == 0
      requires ForeignIdentity(pml4Base, owners, mapped) && forall p :: p in owners ==> p < 0x1000_0000
      requires PageTableReady(m0, mem, pml4Base, owners, va)
      requires TableOf(Host, mem, pml4Base, PtNode(va)) == Some(pt)
      modifies this`mem, this`mapped
      ensures mapped == old(mapped) + [Mapping(va, phy, Size4K)] && HostRefines(mem, pml4Base, owners, mapped)
      ensures OnlyTree(Host, pml4Base, old(mem), owners, mem, owners)
    {
      StoreSmallLeaf(m0, mem, pml4Base, o0, owners, mapped, va, phy);
      LeafWriteOnlyTree(Host, pml4Base, mem, owners, PtNode(va), Level1Index(va), SmallWord(phy));
      mem := WriteWord(mem, pt, Level1Index(va), SmallWord(phy));
      mapped := mapped + [Mapping(va, phy, Size4K)];
    }

    /** The 4 KB branch of map_address, where no 2 MB mapping covers the address. */
    method MapSmall(va: Word, phy: Word, pd: nat) returns (r: Status)
      requires Valid() && TableOf(Host, mem, pml4Base, PdNode(va)) == Some(pd)
      requires !LargeCovered(mapped, va)
      modifies this`mem, this`mapped, this`owners, alloc
      ensures Sound() && (r != Halted ==> HostRefines(mem, pml4Base, owners, mapped))
      ensures alloc.currentAvailPage >= old(alloc.currentAvailPage)
      ensures OnlyTree(Host, pml4Base, old(mem), old(owners), mem, owners)
      ensures MapOutcome(old(mapped), Mapping(va, phy, Size4K), r, mapped)
      ensures r == OutOfMemory ==> !alloc.regions.PageValid(alloc.currentAvailPage)
    {
      var pt := PageTableFor(va, pd);
      if pt.None? {
        OutOfMemoryOutcome(old(mem), pml4Base, old(owners), mapped, Mapping(va, phy, Size4K));
        return OutOfMemory;
      }
      ghost var m1, o1 := mem, owners;
      r := FillLeaf(va, phy, pt.value, old(mem), old(owners));
      OnlyTreeTransitive(Host, pml4Base, old(mem), old(owners), m1, o1, mem, owners);
    }

    /** What map_address does below the page directory `pd`, unless a 2 MB mapping covers a 4 KB request. */
    method MapBelow(va: Word, phy: Word, size: PageSize, pd: nat, ghost m0: Memory, ghost o0: Owners) returns (r: Status)
      requires Valid() && TableOf(Host, mem, pml4Base, PdNode(va)) == Some(pd)
      requires !(size.Size4K? && LargeCovered(mapped, va)) && OnlyTree(Host, pml4Base, m0, o0, mem, owners)
      modifies this`mem, this`mapped, this`owners, alloc
      ensures Sound() && (r != Halted ==> HostRefines(mem, pml4Base, owners, mapped))
      ensures alloc.currentAvailPage >= old(alloc.currentAvailPage)
      ensures OnlyTree(Host, pml4Base, m0, o0, mem, owners)
      ensures MapOutcome(old(mapped), Mapping(va, phy, size), r, mapped)
      ensures r == OutOfMemory ==> !alloc.regions.PageValid(alloc.currentAvailPage)
    {
      if size == Size2M {
        r := MapLarge(va, phy, pd);
      } else {
        r := MapSmall(va, phy, pd);
      }
      OnlyTreeTransitive(Host, pml4Base, m0, o0, old(mem), old(owners), mem, owners);
    }

    /** The 4 KB branch of map_address under a 2 MB leaf. */
    method MapCovered(va: Word, phy: Word, pd: nat) returns (r: Status)
      requires Valid() && TableOf(Host, mem, pml4Base, PdNode(va)) == Some(pd) && LargeCovered(mapped, va)
      modifies this`mem
      ensures CoveredOutcome(old(mem), pml4Base, va, phy, r, mem)
      ensures HostRefines(mem, pml4Base, owners, mapped) <==>
              r != Ok || !IsTable(Host, pml4Base, owners, NextTable(DirEntry(old(mem), pml4Base, va)))
    {
      var pt := NextTable(mem[pd][Level2Index(va)]);
      if mem[pt][Level1Index(va)] % 2 == 1 {
        return Duplication;
      }
      if phy % PAGE_SIZE_4K != 0 {
        return Halted;
      }
      CoveredRequestKeepsIff(mem, pml4Base, owners, mapped, va, phy);
      mem := WriteWord(mem, pt, Level1Index(va), SmallWord(phy));
      return Ok;
    }

    /**
    map_address. Unless a 2 MB mapping covers a 4 KB request, success adds exactly this mapping to
    the history, the call is a duplication exactly when an earlier mapping overlaps, and no other
    outcome changes a translation, whatever tables were installed on the way. A covered request
    leaves the history as it was, which the tables go on denoting exactly unless it wrote into one of them.
    */
    method MapAddress(va: Word, phy: Word, size: PageSize) returns (r: Status)
      requires Valid()
      modifies this, alloc
      ensures Sound() && pml4Base == old(pml4Base)
      ensures alloc.currentAvailPage >= old(alloc.currentAvailPage)
      ensures CallOutcome(old(mem), old(owners), old(mapped), pml4Base, va, phy, size, r, mem, owners, mapped)
      ensures r == OutOfMemory ==> !alloc.regions.PageValid(alloc.currentAvailPage)
      ensures size.Size4K? && LargeCovered(old(mapped), va) ==> alloc.currentAvailPage == old(alloc.currentAvailPage)
    {
      CoveredHasDirectory(mem, pml4Base, owners, mapped, va);
      var pd := DirectoryFor(va);
      if pd.None? {
        NoDirectoryOutcome(old(mem), pml4Base, old(owners), mapped, va, phy, size, mem, owners);
        return OutOfMemory;
      }
      r := MapAt(va, phy, size, pd.value, old(mem), old(owners));
    }

    /** What map_address does once the page directory `pd` is there; (m0, o0) is where it began. */
    method MapAt(va: Word, phy: Word, size: PageSize, pd: nat, ghost m0: Memory, ghost o0: Owners) returns (r: Status)
      requires Valid() && TableOf(Host, mem, pml4Base, PdNode(va)) == Some(pd)
      requires OnlyTree(Host, pml4Base, m0, o0, mem, owners) && (LargeCovered(mapped, va) ==> mem == m0 && owners == o0)
      modifies this`mem, this`mapped, this`owners, alloc
      ensures Sound() && alloc.currentAvailPage >= old(alloc.currentAvailPage)
      ensures CallOutcome(m0, o0, old(mapped), pml4Base, va, phy, size, r, mem, owners, mapped)
      ensures r == OutOfMemory ==> !alloc.regions.PageValid(alloc.currentAvailPage)
      ensures size.Size4K? && LargeCovered(old(mapped), va) ==> alloc.currentAvailPage == old(alloc.currentAvailPage)
    {
      assert IsLarge(mem[pd][Level2Index(va)]) <==> LargeCovered(mapped, va) by {
        DirEntryMeaning(mem, pml4Base, owners, mapped, va);
      }
      if size == Size4K && IsLarge(mem[pd][Level2Index(va)]) {
        // not told apart in the source, which follows any present entry
        r := MapCovered(va, phy, pd);
      } else {
        r := MapBelow(va, phy, size, pd, m0, o0);
      }
    }

    /** paging_init: fails only where an allocation fails, else maps the first 2 GB to itself and nothing more. */
    method PagingInit() returns (ok: bool)
      requires Sound() && owners == map[] && mapped == []
      requires alloc.regions.PageValid(alloc.currentAvailPage)  // the root page is taken unchecked
      modifies this, alloc
      ensures ok ==> Valid() && mapped == IdentityMap(1024)
      ensures ok ==> forall x: nat :: x < 0x1_0000_0000_0000 ==>
                       Pa(mem, pml4Base, x) == if x < INITIAL_VA_CEILING then x else NO_TRANSLATION
      ensures !ok ==> !alloc.regions.PageValid(alloc.currentAvailPage)
    {
      NewRoot();
      var virt := 0;
      ghost var n: nat := 0;
      while virt < INITIAL_VA_CEILING
        invariant n <= 1024 && virt == n * PAGE_SIZE_2M
        invariant Valid() && mapped == IdentityMap(n)
      {
        ghost var next: nat := n + 1;
        ok := MapIdentity(virt, n, next);
        if !ok {
          return;
        }
        virt, n := virt + PAGE_SIZE_2M, next;
      }
      IdentityEverywhere(mem, pml4Base, owners, mapped);
      return true;
    }

    /** A zeroed root page with no history. */
    method NewRoot()
      requires Sound() && owners == map[] && mapped == []
      requires alloc.regions.PageValid(alloc.currentAvailPage)
      modifies this, alloc
      ensures Valid() && mapped == []
    {
      var root := GetPhysicalPage();
      pml4Base := root.value;
      mem := mem[pml4Base := ZeroPage()];
      owners := map[pml4Base := Table(Host, pml4Base, Root)];
      EmptyRootRefines(mem, pml4Base);
    }

    /** One round of paging_init's loop. */
    method MapIdentity(virt: Word, ghost n: nat, ghost next: nat) returns (ok: bool)
      requires Valid() && n < 1024 && next == n + 1 && virt == n * PAGE_SIZE_2M && mapped == IdentityMap(n)
      modifies this, alloc
      ensures ok ==> Valid() && mapped == IdentityMap(next)
      ensures !ok ==> !alloc.regions.PageValid(alloc.currentAvailPage)
    {
      var r := MapAddress(virt, virt, Size2M);
      NextIdentity(n, r, mapped);
      ok := r == Ok;
    }
  }
}

/** The kernel's own address space: memory/paging.c over the shared allocator. */
module HostPaging {
  import opened Arithmetic
  import opened Frames
  import opened Options
  import opened PageTree
  import opened PhysicalMemory

  /** The uint64_t -1 that a failed translation returns. */
  const NO_TRANSLATION: nat := 0xffff_ffff_ffff_ffff

  const INITIAL_VA_CEILING: nat := 0x8000_0000
  const PAGE_SIZE_2M: nat := 0x20_0000

  function Level4Index(va: nat): Index { va / 0x80_0000_0000 % 512 }
  function Level3Index(va: nat): Index { va / 0x4000_0000 % 512 }
  function Level2Index(va: nat): Index { va / 0x20_0000 % 512 }
  function Level1Index(va: nat): Index { va / 0x1000 % 512 }

  function PdptNode(va: nat): (n: Node)
    ensures n.Depth() == 1
  {
    Child(Root, Level4Index(va))
  }

  function PdNode(va: nat): (n: Node)
    ensures n.Depth() == 2
  {
    Child(PdptNode(va), Level3Index(va))
  }

  function PtNode(va: nat): (n: Node)
    ensures n.Depth() == 3
  {
    Child(PdNode(va), Level2Index(va))
  }

  /** The frame of a 4 KB leaf: a 52-bit field shifted in place. */
  function SmallFrame(w: Word): nat { w / 0x1000 % 0x100_0000_0000 * 0x1000 }

  /** The frame of a 2 MB leaf: a 43-bit field shifted in place. */
  function LargeFrame(w: Word): nat { w / 0x20_0000 % 0x40_0000 * 0x20_0000 }

  /** pa: the walk, level by level. */
  function Pa(m: Memory, pml4: nat, va: nat): nat {
    var l4 := m[pml4][Level4Index(va)];
    if l4 % 2 == 0 then NO_TRANSLATION else
    var l3 := m[NextTable(l4)][Level3Index(va)];
    if l3 % 2 == 0 then NO_TRANSLATION else
    var l2 := m[NextTable(l3)][Level2Index(va)];
    if IsLarge(l2) then LargeFrame(l2) + va % 0x20_0000 else
    if l2 % 2 == 0 then NO_TRANSLATION else
    var l1 := m[NextTable(l2)][Level1Index(va)];
    if l1 % 2 == 0 then NO_TRANSLATION else
    SmallFrame(l1) + va % 0x1000
  }

  function NextTable(w: Word): nat { w / 0x1000 % 0x100_0000_0000 }

  /** The level-2 and level-1 entries that decide a translation, 0 where a table is missing. */
  function DirEntry(m: Memory, pml4: nat, va: nat): Word {
    EntryOf(Host, m, pml4, PdNode(va), Level2Index(va))
  }

  function LeafEntry(m: Memory, pml4: nat, va: nat): Word {
    EntryOf(Host, m, pml4, PtNode(va), Level1Index(va))
  }

  lemma PaByEntries(m: Memory, pml4: nat, va: nat)
    ensures var dir, leaf := DirEntry(m, pml4, va), LeafEntry(m, pml4, va);
            Pa(m, pml4, va) ==
            if IsLarge(dir) then LargeFrame(dir) + va % 0x20_0000
            else if leaf % 2 == 1 then SmallFrame(leaf) + va % 0x1000
            else NO_TRANSLATION
    ensures IsLarge(DirEntry(m, pml4, va)) ==> LeafEntry(m, pml4, va) == 0
  {
    var t3 := TableOf(Host, m, pml4, PdptNode(va));
    var t2 := TableOf(Host, m, pml4, PdNode(va));
    var t1 := TableOf(Host, m, pml4, PtNode(va));
    assert TableOf(Host, m, pml4, Root) == Some(pml4);
  }

  /** An entry a processor lets the kernel, and the kernel alone, write through. */
  predicate KernelWrites(w: Word) {
    w % 8 == 3
  }

  /** Every entry that a processor meets on the way to an address allows the write. */
  predicate WritableWalk(m: Memory, pml4: nat, va: nat) {
    var l4 := m[pml4][Level4Index(va)];
    var l3 := m[NextTable(l4)][Level3Index(va)];
    var l2 := m[NextTable(l3)][Level2Index(va)];
    KernelWrites(l4) && KernelWrites(l3) && KernelWrites(l2) &&
    (IsLarge(l2) || KernelWrites(m[NextTable(l2)][Level1Index(va)]))
  }

  datatype PageSize = Size4K | Size2M {
    function Bytes(): nat {
      if Size4K? then PAGE_SIZE_4K else PAGE_SIZE_2M
    }
  }

  /** Addresses whose low 48 bits fall in the same page. */
  predicate SamePage(size: PageSize, x: nat, y: nat) {
    if size.Size4K? then x / 0x1000 % 0x10_0000_0000 == y / 0x1000 % 0x10_0000_0000
    else x / 0x20_0000 % 0x800_0000 == y / 0x20_0000 % 0x800_0000
  }

  lemma IndicesNameThePage(x: nat, y: nat)
    ensures SamePage(Size2M, x, y) <==> PtNode(x) == PtNode(y)
    ensures SamePage(Size4K, x, y) <==> PtNode(x) == PtNode(y) && Level1Index(x) == Level1Index(y)
  {
    Digits(x);
    Digits(y);
  }

  /** The four indices are the digits, in base 512, of the page number of the address. */
  lemma Digits(x: nat)
    ensures x / 0x20_0000 % 0x800_0000 ==
            (Level4Index(x) * 512 + Level3Index(x)) * 512 + Level2Index(x)
    ensures x / 0x1000 % 0x10_0000_0000 == x / 0x20_0000 % 0x800_0000 * 512 + Level1Index(x)
  {
    LastDigit(x / 0x1000, 0x800_0000);
    LastDigit(x / 0x20_0000, 0x4_0000);
    LastDigit(x / 0x4000_0000, 512);
    assert x / 0x1000 / 512 == x / 0x20_0000;
    assert x / 0x20_0000 / 512 == x / 0x4000_0000;
    assert x / 0x4000_0000 / 512 == x / 0x80_0000_0000;
  }

  /** A successful call of map_address. */
  datatype Mapping = Mapping(va: nat, phy: nat, size: PageSize) {
    predicate Covers(x: nat) {
      SamePage(size, va, x)
    }

    /** Where a covered address goes: frame plus offset, the frame cut to the width of its field. */
    function Target(x: nat): nat {
      if size.Size4K? then phy / 0x1000 % 0x100_0000_0000 * 0x1000 + x % 0x1000
      else phy / 0x20_0000 % 0x40_0000 * 0x20_0000 + x % 0x20_0000
    }

    predicate Overlaps(other: Mapping) {
      if size.Size2M? || other.size.Size2M? then SamePage(Size2M, va, other.va)
      else SamePage(Size4K, va, other.va)
    }
  }

  /** The partial map that a history of successful calls denotes. */
  function Replay(history: seq<Mapping>, x: nat): nat {
    if history == [] then NO_TRANSLATION
    else if history[|history| - 1].Covers(x) then history[|history| - 1].Target(x)
    else Replay(history[..|history| - 1], x)
  }

  ghost predicate Disjoint(history: seq<Mapping>) {
    forall i, j :: 0 <= i < j < |history| ==> !history[i].Overlaps(history[j])
  }

  /** An aligned address comes back unchanged exactly if it fits its leaf field: 52 bits, or 43 for a 2 MB page. */
  lemma TargetExactIff(mp: Mapping, x: nat)
    requires mp.phy % mp.size.Bytes() == 0
    ensures mp.Target(x) == mp.phy + x % mp.size.Bytes() <==>
            mp.phy < if mp.size.Size4K? then 0x10_0000_0000_0000 else 0x800_0000_0000
  {
    var q, n := mp.phy / mp.size.Bytes(), if mp.size.Size4K? then 0x100_0000_0000 else 0x40_0000;
    assert mp.phy == q * mp.size.Bytes();
    if q < n {
      DivisionOf(q, n, 0, q);
    }
  }

  lemma SharedAddressOverlaps(a: Mapping, b: Mapping, x: nat)
    requires a.Covers(x) && b.Covers(x)
    ensures a.Overlaps(b)
  {
    IndicesNameThePage(a.va, x);
    IndicesNameThePage(b.va, x);
    IndicesNameThePage(a.va, b.va);
  }

  /** Two mappings overlap exactly when they share an address. */
  lemma OverlapIffShared(a: Mapping, b: Mapping)
    ensures a.Overlaps(b) <==> exists x: nat :: a.Covers(x) && b.Covers(x)
  {
    if a.Overlaps(b) {
      var x := if a.size.Size4K? then a.va else b.va;
      assert a.Covers(x) && b.Covers(x);
    }
    if x: nat :| a.Covers(x) && b.Covers(x) {
      SharedAddressOverlaps(a, b, x);
    }
  }

  /** In a disjoint history every mapping keeps answering for all its addresses; order does not matter. */
  lemma {:induction false} ReplayOfMapped(history: seq<Mapping>, i: nat, x: nat)
    requires Disjoint(history) && i < |history| && history[i].Covers(x)
    ensures Replay(history, x) == history[i].Target(x)
  {
    var last := |history| - 1;
    if i < last {
      if history[last].Covers(x) {
        SharedAddressOverlaps(history[i], history[last], x);
      }
      ReplayOfMapped(history[..last], i, x);
    }
  }

  lemma {:induction false} ReplayOfUnmapped(history: seq<Mapping>, x: nat)
    ensures Replay(history, x) == NO_TRANSLATION <==> forall i :: 0 <= i < |history| ==> !history[i].Covers(x)
  {
    if history != [] {
      var last := |history| - 1;
      ReplayOfUnmapped(history[..last], x);
      if !history[last].Covers(x) && Replay(history, x) != NO_TRANSLATION {
        var i :| 0 <= i < last && history[..last][i].Covers(x);
        assert history[i].Covers(x);
      }
    }
  }

  /** Later mappings never change what an earlier one answers. */
  lemma TranslationsPersist(history: seq<Mapping>, later: seq<Mapping>, x: nat)
    requires Disjoint(later) && history <= later
    requires Replay(history, x) != NO_TRANSLATION
    ensures Replay(later, x) == Replay(history, x)
  {
    ReplayOfUnmapped(history, x);
    var i :| 0 <= i < |history| && history[i].Covers(x);
    assert later[i] == history[i];
    assert Disjoint(history) by {
      forall i, j | 0 <= i < j < |history| ensures !history[i].Overlaps(history[j]) {
        assert later[i] == history[i] && later[j] == history[j];
      }
    }
    ReplayOfMapped(history, i, x);
    ReplayOfMapped(later, i, x);
  }

  /** The mappings of paging_init's first `n` rounds. */
  function IdentityMap(n: nat): seq<Mapping> {
    seq(n, i requires 0 <= i < n => Mapping(i * PAGE_SIZE_2M, i * PAGE_SIZE_2M, Size2M))
  }

  /** Identity mapping of `n` large pages: the identity below, no translation above. */
  lemma {:induction false} IdentityMapReplay(n: nat, x: nat)
    requires n <= 1024 && x < 0x1_0000_0000_0000
    ensures Replay(IdentityMap(n), x) == if x < n * PAGE_SIZE_2M then x else NO_TRANSLATION
  {
    if n > 0 {
      var h := IdentityMap(n);
      assert h[..|h| - 1] == IdentityMap(n - 1);
      IdentityMapReplay(n - 1, x);
      LargePageOf(n - 1, x);
    }
  }

  lemma LargePageOf(k: nat, x: nat)
    requires k < 1024 && x < 0x1_0000_0000_0000
    ensures var mp := Mapping(k * PAGE_SIZE_2M, k * PAGE_SIZE_2M, Size2M);
            && (mp.Covers(x) <==> k * PAGE_SIZE_2M <= x < (k + 1) * PAGE_SIZE_2M)
            && (mp.Covers(x) ==> mp.Target(x) == x)
  {
    assert k * PAGE_SIZE_2M / 0x20_0000 == k;
    assert x / 0x20_0000 < 0x800_0000;
  }
}

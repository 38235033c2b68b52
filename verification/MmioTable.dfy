/** The MMIO registry of vm_monitor/vmx_mmio.c. */
module MmioTable {
  import opened Options
  import opened Tables

  const MAX_NR_MMIO_REGIONS: nat := 256
  const LAST_ADDRESS: nat := 0xffff_ffff_ffff_ffff

  /** Addresses low up to but not including high. */
  datatype Region<+O> = Region(low: nat, high: nat, callbacks: Option<O>) {
    predicate Contains(addr: nat) {
      low <= addr < high
    }

    predicate Nested(other: Region) {
      (low <= other.low && high >= other.high) || (other.low <= low && other.high >= high)
    }

    predicate Apart(other: Region) {
      high <= other.low || other.high <= low
    }
  }

  /** mmio_operation_compare; the precondition is what its assertions and its trap demand. */
  function Compare<O>(a: Region<O>, b: Region<O>): int
    requires a.low <= a.high && b.low <= b.high
    requires a.Apart(b) || a.Nested(b)
  {
    if a.high <= b.low then -1
    else if a.low >= b.high then 1
    else 0
  }

  predicate Disjoint<O>(a: Region<O>, b: Region<O>) {
    a.low < a.high && b.low < b.high && (a.high <= b.low || b.high <= a.low)
  }

  /** Non-empty regions in ascending order, none reaching into the next. */
  ghost predicate Layered<O>(s: seq<Region<O>>) {
    && (forall i :: 0 <= i < |s| ==> s[i].low < s[i].high)
    && (forall i, j :: 0 <= i < j < |s| ==> s[i].high <= s[j].low)
  }

  /** At most one region of the table contains an address. */
  lemma OwnerUnique<O>(s: seq<Region<O>>, addr: nat, i: nat, j: nat)
    requires Layered(s) && i < |s| && j < |s| && s[i].Contains(addr) && s[j].Contains(addr)
    ensures i == j
  {
  }

  lemma DisjointOrdered<O(!new)>(elems: set<Region<O>>)
    requires forall x :: x in elems ==> x.low < x.high
    requires forall x, y :: x in elems && y in elems && x != y ==> Disjoint(x, y)
    ensures Orders(Compare, elems)
  {
    forall x, y | x in elems && y in elems ensures Compare.requires(x, y) {
      assert x.low <= x.high && y.low <= y.high && (x.Apart(y) || x.Nested(y));
    }
  }

  lemma InsertionOrdered<O(!new)>(s: seq<Region<O>>, r: Region<O>, elems: set<Region<O>>)
    requires Layered(s) && r.low < r.high && forall i :: 0 <= i < |s| ==> Disjoint(s[i], r)
    requires forall e :: e in elems ==> e in s + [r]
    ensures Orders(Compare, elems)
  {
    forall x, y | x in elems && y in elems && x != y ensures Disjoint(x, y) {
      var u := s + [r];
      var i :| 0 <= i < |u| && u[i] == x;
      var j :| 0 <= j < |u| && u[j] == y;
      assert i < |s| && j < |s| && i < j ==> s[i].high <= s[j].low;
      assert i < |s| && j < |s| && j < i ==> s[j].high <= s[i].low;
    }
    DisjointOrdered(elems);
  }

  /** Comparing a one-byte region never traps and finds the region that holds the byte. */
  lemma ByteCompares<O>(addr: nat, r: Region<O>, target: Region<O>)
    requires r.low < r.high && target.low == addr && target.high == addr + 1
    ensures target.Apart(r) || target.Nested(r)
    ensures Compare(target, r) == if addr < r.low then -1 else if r.high <= addr then 1 else 0
  {
  }

  /** Any ascending arrangement of a layered table and one disjoint region is layered. */
  lemma Insert<O(!new)>(s: seq<Region<O>>, r: Region<O>, t: seq<Region<O>>, elems: set<Region<O>>)
    requires Layered(s) && r.low < r.high && forall i :: 0 <= i < |s| ==> Disjoint(s[i], r)
    requires multiset(t) == multiset(s + [r])
    requires Orders(Compare, elems) && Within(t, elems) && Ascending(t, Compare, elems)
    ensures Layered(t) && forall e :: e in t <==> e in s || e == r
  {
    var u := s + [r];
    RearrangementKeepsPairwise(u, t, Disjoint);
    forall e ensures e in t <==> e in u {
      if e in t { SameElements(t, u, e); }
      if e in u { SameElements(u, t, e); }
    }
    forall i, j | 0 <= i < j < |t| ensures t[i].high <= t[j].low {
      assert Compare(t[i], t[j]) <= 0 && Disjoint(t[i], t[j]);
    }
    forall i | 0 <= i < |t| ensures t[i].low < t[i].high {
      assert t[i] in u;
    }
  }

  /** The converse: a table and a region that reaches into one of its entries have no layered arrangement. */
  lemma LayeredNeedsDisjoint<O(!new)>(s: seq<Region<O>>, r: Region<O>, t: seq<Region<O>>, k: nat)
    requires Layered(s) && r.low < r.high && k < |s|
    requires multiset(t) == multiset(s + [r]) && Layered(t)
    ensures Disjoint(s[k], r)
  {
    var u := s + [r];
    assert u[k] == s[k] && u[|s|] == r;
    if s[k] == r {
      Twice(u, k, |s|);
      var a, b := TwoPositions(t, r);
      assert false;
    }
    SameElements(u, t, s[k]);
    SameElements(u, t, r);
    var a :| 0 <= a < |t| && t[a] == s[k];
    var b :| 0 <= b < |t| && t[b] == r;
    assert if a < b then t[a].high <= t[b].low else t[b].high <= t[a].low;
  }

  /** A one-byte target compares with a layered table as a sorted search expects. */
  lemma ByteOrdered<O>(s: seq<Region<O>>, addr: nat, target: Region<O>)
    requires Layered(s) && target.low == addr && target.high == addr + 1
    ensures forall i :: 0 <= i < |s| ==> Compare.requires(target, s[i])
    ensures forall i :: 0 <= i < |s| ==> (Compare(target, s[i]) == 0 <==> s[i].Contains(addr))
    ensures forall i, j :: 0 <= i < j < |s| && Compare(target, s[i]) <= 0 ==> Compare(target, s[j]) < 0
  {
    forall i | 0 <= i < |s|
      ensures Compare.requires(target, s[i])
      ensures Compare(target, s[i]) == if addr < s[i].low then -1 else if s[i].high <= addr then 1 else 0
    {
      ByteCompares(addr, s[i], target);
    }
  }

  class MmioRegistry<O(==, !new)> {
    const table: array<Region<O>>
    var nrRegions: nat

    ghost predicate Valid()
      reads this, table
    {
      && table.Length == MAX_NR_MMIO_REGIONS && nrRegions <= MAX_NR_MMIO_REGIONS
      && Layered(table[..nrRegions])
    }

    ghost function Regions(): set<Region<O>>
      requires Valid()
      reads this, table
    {
      set r | r in table[..nrRegions]
    }

    constructor ()
      ensures Valid() && Regions() == {} && fresh(table)
    {
      table := new Region<O>[MAX_NR_MMIO_REGIONS](_ => Region(0, 0, None));
      nrRegions := 0;
      new;
      assert table[..nrRegions] == [];
    }

    /**
    search_mmio_callback: the region containing the address, or none if there is none. The only trap
    is at the last 64-bit address, whose one-byte target wraps around, in a non-empty table.
    */
    method Lookup(addr: nat) returns (trap: bool, found: Option<nat>)
      requires Valid() && addr <= LAST_ADDRESS
      ensures trap <==> addr == LAST_ADDRESS && Regions() != {}
      ensures !trap && found.Some? ==> found.value < nrRegions && table[found.value] in Regions() && table[found.value].Contains(addr)
      ensures !trap && found.None? ==> forall r :: r in Regions() ==> !r.Contains(addr)
    {
      ghost var s := table[..nrRegions];
      assert forall i :: 0 <= i < nrRegions ==> s[i] == table[i] && s[i] in s;
      var target := Region(addr, (addr + 1) % 0x1_0000_0000_0000_0000, None);
      if target.high < target.low && nrRegions > 0 {
        assert s[0] in Regions();
        return true, None;
      }
      if nrRegions > 0 {
        ByteOrdered(s, addr, target);
      }
      found := Search(table, nrRegions, Compare, target);
      return false, found;
    }

    /** register_mmio_operation; false stands for its assertions: the low end already covered, or a full table. */
    method Register(r: Region<O>) returns (ok: bool)
      requires Valid() && r.low < r.high && r.high <= LAST_ADDRESS
      requires (exists q :: q in Regions() && q.Contains(r.low)) || (forall q :: q in Regions() ==> Disjoint(q, r))
      modifies this, table
      ensures Valid()
      ensures ok ==> Regions() == old(Regions()) + {r}
      ensures !ok ==> Regions() == old(Regions())
      ensures ok <==> old(nrRegions) < MAX_NR_MMIO_REGIONS && forall q :: q in old(Regions()) ==> Disjoint(q, r)
    {
      var trap, found := Lookup(r.low);
      if found.Some? || nrRegions == MAX_NR_MMIO_REGIONS {
        return false;
      }
      ghost var s := table[..nrRegions];
      assert forall i :: 0 <= i < |s| ==> s[i] in Regions();
      Append(r);
      return true;
    }

    /** A region disjoint from the table goes to the end and is sorted into place. */
    method Append(r: Region<O>)
      requires Valid() && nrRegions < MAX_NR_MMIO_REGIONS && r.low < r.high
      requires forall i :: 0 <= i < nrRegions ==> Disjoint(table[..nrRegions][i], r)
      modifies this`nrRegions, table
      ensures Valid() && nrRegions == old(nrRegions) + 1
      ensures forall e :: e in table[..nrRegions] <==> e in old(table[..nrRegions]) || e == r
    {
      ghost var s := table[..nrRegions];
      table[nrRegions] := r;
      nrRegions := nrRegions + 1;
      assert table[..nrRegions] == s + [r];
      ghost var elems := set e | e in s + [r];
      InsertionOrdered(s, r, elems);
      BubbleSort(table, nrRegions, Compare, elems);
      Insert(s, r, table[..nrRegions], elems);
    }
  }
}

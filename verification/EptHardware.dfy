/**
What a processor does with a guest-physical address (Intel SDM Vol. 3, section 28.2), beside what
guestpa_to_hostpa says of it.
*/
module EptHardware {
  import opened Arithmetic
  import opened Frames
  import opened Options
  import opened PageTree
  import opened HostPaging
  import opened Machines
  import opened ExtendedPaging

  datatype Rights = Rights(read: bool, write: bool, fetch: bool, userFetch: bool) {
    function And(other: Rights): Rights {
      Rights(read && other.read, write && other.write, fetch && other.fetch, userFetch && other.userFetch)
    }
  }

  const ALL_RIGHTS := Rights(true, true, true, true)
  const WRITE_BACK: nat := 6

  /** An access faults, traps as misconfigured, or goes to a host address under the given rights and memory type. */
  datatype Outcome = Violation | Misconfiguration | Allowed(rights: Rights, memoryType: nat, ignorePat: bool, host: nat)

  function RightsOf(w: Word): Rights {
    Rights(w % 2 == 1, w / 2 % 2 == 1, w / 4 % 2 == 1, w / 0x400 % 2 == 1)
  }

  /** Bits 51 to 12. */
  function Frame(w: Word): nat { w / 0x1000 % 0x100_0000_0000 }

  /** An entry that points to a table must not be write-only, and has its reserved bits clear. */
  predicate TableEntryValid(w: Word) {
    w % 4 != 2 && w / 8 % 32 == 0
  }

  /** A leaf must not be write-only and must name a memory type. */
  predicate LeafValid(w: Word) {
    w % 4 != 2 && w / 8 % 8 in {0, 1, 4, 5, 6}
  }

  function LeafOutcome(rights: Rights, leaf: Word, gpa: nat): Outcome {
    if leaf % 8 == 0 then Violation
    else if !LeafValid(leaf) then Misconfiguration
    else Allowed(rights.And(RightsOf(leaf)), leaf / 8 % 8, leaf / 0x40 % 2 == 1, Frame(leaf) * 0x1000 + gpa % 0x1000)
  }

  /** Where the processor is after some levels: at a table with the rights granted so far, or stopped. */
  datatype Progress = At(table: nat, rights: Rights) | Stopped(outcome: Outcome)

  /** Through one entry of an upper level. */
  function Enter(w: Word, rights: Rights): Progress {
    if w % 8 == 0 then Stopped(Violation)
    else if !TableEntryValid(w) then Stopped(Misconfiguration)
    else At(Frame(w), rights.And(RightsOf(w)))
  }

  function Reach(m: Memory, base: nat, n: Node): Progress {
    match n
    case Root => At(base, ALL_RIGHTS)
    case Child(up, i) =>
      match Reach(m, base, up)
      case At(p, rights) => Enter(m[p][i], rights)
      case Stopped(o) => Stopped(o)
  }

  /** The four-level walk for 4 KB pages: the rights are what all levels grant. */
  function Walk(m: Memory, base: nat, gpa: nat): Outcome {
    match Reach(m, base, PtNode(gpa))
    case At(p, rights) => LeafOutcome(rights, m[p][Level1Index(gpa)], gpa)
    case Stopped(o) => o
  }

  /** An entry with full access passes on every right and leads where guestpa_to_hostpa follows it. */
  lemma FullAccessPasses(w: Word)
    requires FullAccess(Ept, w)
    ensures w % 8 != 0 && w % 4 != 0 && TableEntryValid(w) && RightsOf(w) == ALL_RIGHTS && Frame(w) == EptNext(w)
  {
    Bits(w);
    SameFrameNumber(w);
  }

  lemma Bits(w: Word)
    requires w % 8 == 7
    ensures w % 2 == 1 && w / 2 % 2 == 1 && w / 4 % 2 == 1 && w % 4 == 3
  {
    var q := w / 8;
    DivisionOf(w, 2, 4 * q + 3, 1);
    DivisionOf(4 * q + 3, 2, 2 * q + 1, 1);
    DivisionOf(w, 4, 2 * q + 1, 3);
    DivisionOf(2 * q + 1, 2, q, 1);
  }

  lemma SameFrameNumber(w: Word)
    requires w < 0x100_0000_0000
    ensures Frame(w) == EptNext(w)
  {
    var f := w / 0x1000;
    DivisionOf(f, 0x100_0000_0000, 0, f);
    DivisionOf(f, 0x1000_0000, 0, f);
  }

  /** In a tree the processor reaches exactly the tables the monitor's walk reaches, with every right. */
  lemma {:induction false} ReachesTables(m: Memory, base: nat, owners: Owners, n: Node)
    requires Tree(Ept, m, base, owners) && IsNode(n)
    ensures Reach(m, base, n) == match TableOf(Ept, m, base, n)
                                 case Some(p) => At(p, ALL_RIGHTS)
                                 case None => Stopped(Violation)
  {
    if n.Child? {
      ReachesTables(m, base, owners, n.parent);
      match TableOf(Ept, m, base, n.parent) {
        case None =>
        case Some(p) =>
          PathAccess(Ept, m, base, owners, n);
          EntersTable(m[p][n.index], n.parent.Depth());
      }
    }
  }

  lemma EntersTable(w: Word, depth: nat)
    requires if Link(Ept, depth, w).Some? then FullAccess(Ept, w) else Vacant(Ept, w)
    ensures Enter(w, ALL_RIGHTS) == match Link(Ept, depth, w)
                                    case Some(p) => At(p, ALL_RIGHTS)
                                    case None => Stopped(Violation)
  {
    if Link(Ept, depth, w).Some? {
      FullAccessPasses(w);
    }
  }

  /** So its walk is decided by the leaf alone. */
  lemma WalkByLeaf(m: Memory, base: nat, owners: Owners, gpa: nat)
    requires Tree(Ept, m, base, owners)
    ensures Walk(m, base, gpa) ==
            if HasPageTable(m, base, gpa) then LeafOutcome(ALL_RIGHTS, GuestLeaf(m, base, gpa), gpa) else Violation
  {
    ReachesTables(m, base, owners, PtNode(gpa));
  }

  lemma LeafOutcomes(leaf: Word, gpa: nat)
    ensures RamLeaf(leaf) ==>
              LeafOutcome(ALL_RIGHTS, leaf, gpa) == Allowed(ALL_RIGHTS, WRITE_BACK, true, EptNext(leaf) * 0x1000 + gpa % 0x1000)
    ensures leaf == 0 ==> LeafOutcome(ALL_RIGHTS, leaf, gpa) == Violation
    ensures leaf == LeafWord(0, IoMemory) ==> LeafOutcome(ALL_RIGHTS, leaf, gpa) == Misconfiguration
  {
    if RamLeaf(leaf) {
      Bits(leaf);
      SameFrameNumber(leaf);
    }
  }

  /** Guest RAM can be read, written and executed, is cached write-back, and lies where guestpa_to_hostpa says. */
  lemma RamAccess(m: Memory, base: nat, owners: Owners, lo: nat, hi: nat, x: nat)
    requires Tree(Ept, m, base, owners) && RamBacked(m, base, owners, lo, hi)
    requires x < 0x1_0000_0000_0000 && lo <= x / 0x1000 < hi
    ensures Walk(m, base, x) == Allowed(ALL_RIGHTS, WRITE_BACK, true, GuestToHost(m, base, x))
  {
    RamTranslation(m, base, owners, lo, hi, x);
    assert OwnFrame(m, base, owners, x);
    LeafOutcomes(GuestLeaf(m, base, x), x);
    LeafHasPageTable(m, base, x);
    WalkByLeaf(m, base, owners, x);
  }

  lemma LeafHasPageTable(m: Memory, base: nat, x: nat)
    requires GuestLeaf(m, base, x) != 0
    ensures HasPageTable(m, base, x)
  {
  }

  /** An address that is not RAM faults, also where guestpa_to_hostpa answers with host page 0. */
  lemma UnbackedFaults(m: Memory, base: nat, owners: Owners, lo: nat, hi: nat, x: nat)
    requires GuestRam(m, base, owners, lo, hi)
    requires x < 0x1_0000_0000_0000 && !(lo <= x / 0x1000 < hi)
    ensures Walk(m, base, x) == Violation
  {
    assert GuestLeaf(m, base, x) == 0;
    LeafOutcomes(0, x);
    WalkByLeaf(m, base, owners, x);
  }

  /** Every access to an IO page traps as a misconfiguration, which is how the monitor gets to emulate it. */
  lemma IoTraps(m: Memory, m': Memory, base: nat, owners': Owners, gpa: nat, x: nat)
    requires Tree(Ept, m', base, owners') && OneLeaf(m, m', base, gpa, LeafWord(0, IoMemory)) && SamePage(Size4K, gpa, x)
    ensures Walk(m', base, x) == Misconfiguration
  {
    assert GuestLeaf(m', base, x) == LeafWord(0, IoMemory);
    LeafOutcomes(LeafWord(0, IoMemory), x);
    LeafHasPageTable(m', base, x);
    WalkByLeaf(m', base, owners', x);
  }

  /** The leaf of an IO page is write-only and fetchable, of type write-back, over frame 0. */
  lemma IoLeafBits(phy: Word)
    ensures var w := LeafWord(phy, IoMemory);
            RightsOf(w) == Rights(false, true, true, true) && w / 8 % 8 == WRITE_BACK && w / 0x40 % 2 == 1 && Frame(w) == 0
  {
  }

  /** guestpa_to_hostpa tells what the processor does. */
  ghost predicate Agrees(m: Memory, base: nat, x: nat) {
    match Walk(m, base, x)
    case Allowed(_, _, _, host) => GuestToHost(m, base, x) == host
    case _ => GuestToHost(m, base, x) == NO_TRANSLATION
  }

  /** The monitor's walk and the processor's agree exactly on RAM and on 2 MB regions without any. */
  lemma WalksAgreeIff(m: Memory, base: nat, owners: Owners, lo: nat, hi: nat, x: nat)
    requires GuestRam(m, base, owners, lo, hi) && x < 0x1_0000_0000_0000
    ensures Agrees(m, base, x) <==> lo <= x / 0x1000 < hi || !RegionMeets(x, lo, hi)
  {
    if lo <= x / 0x1000 < hi {
      RamAccess(m, base, owners, lo, hi, x);
    } else {
      UnbackedFaults(m, base, owners, lo, hi, x);
      UnbackedTranslation(m, base, owners, lo, hi, x);
    }
  }
}

/**
The four-level radix tree that host page tables and extended page tables share.
A ghost owner map records which tree node each allocated page serves; since a page
has one owner, the tables of all trees are pairwise distinct pages.
*/
module PageTree {
  import opened Arithmetic
  import opened Frames
  import opened Options

  datatype Kind = Host | Ept

  /** A table, named by the indices that lead to it from the root. */
  datatype Node = Root | Child(parent: Node, index: Index) {
    function Depth(): nat {
      match this
      case Root => 0
      case Child(up, _) => up.Depth() + 1
    }
  }

  datatype Owner =
    | Table(kind: Kind, root: nat, node: Node)
    | GuestFrame(ept: nat, guestPage: nat)

  type Owners = map<nat, Owner>

  /** The next-level table an entry points at; a 2 MB leaf points at none. */
  function Link(k: Kind, depth: nat, w: Word): Option<nat> {
    match k
    case Host =>
      if w % 2 == 0 || (depth == 2 && IsLarge(w)) then None
      else Some(w / 0x1000 % 0x100_0000_0000)  // 52-bit field shifted in place by 12
    case Ept =>
      if w % 4 == 0 then None
      else Some(w / 0x1000 % 0x1000_0000)      // 40-bit field shifted in place by 12
  }

  /** A present level-2 host entry with its page_size bit. */
  predicate IsLarge(w: Word) {
    w % 2 == 1 && w / 0x80 % 2 == 1
  }

  /**
  What a processor asks of an entry that leads to a table with full access: present, writable and for the
  kernel alone, with no page-size bit; or readable, writable and fetchable, with the reserved bits clear. Both below 1 TB.
  */
  predicate FullAccess(k: Kind, w: Word) {
    && w < 0x100_0000_0000
    && (match k
        case Host => w % 8 == 3 && w / 0x80 % 2 == 0
        case Ept => w % 8 == 7 && w / 8 % 32 == 0 && w / 0x400 % 2 == 1)
  }

  /** The entry that links a freshly zeroed table: present/writable, or readable/writable/fetchable. */
  function TableWord(k: Kind, page: nat): Word
    requires page < 0x1000_0000
  {
    page * 0x1000 + (if k.Host? then 0x3 else 0x407)
  }

  lemma TableWordLinks(k: Kind, depth: nat, page: nat)
    requires page < 0x1000_0000
    ensures Link(k, depth, TableWord(k, page)) == Some(page)
    ensures TableWord(k, page) % 2 == 1 && FullAccess(k, TableWord(k, page))
  {
    if k.Host? {
      HostTableWord(page);
    } else {
      EptTableWord(page);
    }
  }

  lemma HostTableWord(page: nat)
    requires page < 0x1000_0000
    ensures var w := TableWord(Host, page);
            w % 8 == 3 && w % 2 == 1 && w / 0x80 % 2 == 0 && w / 0x1000 % 0x100_0000_0000 == page
  {
    var w := TableWord(Host, page);
    DivisionOf(w, 2, page * 0x800 + 1, 1);
    DivisionOf(w, 8, page * 0x200, 3);
    DivisionOf(w, 0x80, page * 0x20, 3);
    DivisionOf(page * 0x20, 2, page * 0x10, 0);
    DivisionOf(w, 0x1000, page, 3);
    DivisionOf(page, 0x100_0000_0000, 0, page);
  }

  lemma EptTableWord(page: nat)
    requires page < 0x1000_0000
    ensures var w := TableWord(Ept, page);
            w % 8 == 7 && w % 4 == 3 && w % 2 == 1 && w / 8 % 32 == 0 && w / 0x400 % 2 == 1 && w / 0x1000 % 0x1000_0000 == page
  {
    var w := TableWord(Ept, page);
    DivisionOf(w, 2, page * 0x800 + 0x203, 1);
    DivisionOf(w, 4, page * 0x400 + 0x101, 3);
    DivisionOf(w, 8, page * 0x200 + 0x80, 7);
    DivisionOf(page * 0x200 + 0x80, 32, page * 0x10 + 4, 0);
    DivisionOf(w, 0x400, page * 4 + 1, 7);
    DivisionOf(page * 4 + 1, 2, page * 2, 1);
    DivisionOf(w, 0x1000, page, 0x407);
    DivisionOf(page, 0x1000_0000, 0, page);
  }

  /** The page that holds node `n`'s table, if the walk from the root reaches it. */
  function TableOf(k: Kind, m: Memory, root: nat, n: Node): Option<nat>
  {
    match n
    case Root => Some(root)
    case Child(up, i) =>
      match TableOf(k, m, root, up)
      case None => None
      case Some(p) => Link(k, up.Depth(), m[p][i])
  }

  /** The entry at index `i` of node `n`'s table, 0 where there is no table. */
  function EntryOf(k: Kind, m: Memory, root: nat, n: Node, i: Index): Word {
    match TableOf(k, m, root, n)
    case None => 0
    case Some(p) => m[p][i]
  }

  ghost predicate IsTable(k: Kind, root: nat, owners: Owners, p: nat) {
    p in owners && owners[p].Table? && owners[p].kind == k && owners[p].root == root
  }

  /** Every link out of an owned table gives full access to the owned table of the child node. */
  ghost predicate Linked(k: Kind, m: Memory, root: nat, owners: Owners, p: nat, i: Index)
    requires IsTable(k, root, owners, p)
  {
    var n := owners[p].node;
    n.Depth() < 3 ==>
      match Link(k, n.Depth(), m[p][i])
      case None => Vacant(k, m[p][i])
      case Some(c) => FullAccess(k, m[p][i]) && IsTable(k, root, owners, c) && owners[c].node == Child(n, i)
  }

  /** An upper-level entry without a link: in an extended page table it is zero. */
  predicate Vacant(k: Kind, w: Word) {
    k.Ept? ==> w == 0
  }

  ghost predicate Tree(k: Kind, m: Memory, root: nat, owners: Owners) {
    && root in owners && owners[root] == Table(k, root, Root)
    && (forall p, i: Index :: IsTable(k, root, owners, p) ==> Linked(k, m, root, owners, p, i))
  }

  predicate IsNode(n: Node) {
    n.Depth() <= 3
  }

  /** Walking to a node of the tree ends in the page that node owns. */
  lemma {:induction false} WalkReachesOwner(k: Kind, m: Memory, root: nat, owners: Owners, n: Node)
    requires Tree(k, m, root, owners) && IsNode(n)
    ensures TableOf(k, m, root, n).Some? ==>
              var p := TableOf(k, m, root, n).value;
              IsTable(k, root, owners, p) && owners[p].node == n
  {
    if n.Child? {
      WalkReachesOwner(k, m, root, owners, n.parent);
      if TableOf(k, m, root, n.parent).Some? {
        assert Linked(k, m, root, owners, TableOf(k, m, root, n.parent).value, n.index);
      }
    }
  }

  /** The entry that leads to a table gives full access. */
  lemma PathAccess(k: Kind, m: Memory, root: nat, owners: Owners, n: Node)
    requires Tree(k, m, root, owners) && IsNode(n) && n.Child? && TableOf(k, m, root, n.parent).Some?
    ensures var w := EntryOf(k, m, root, n.parent, n.index);
            if TableOf(k, m, root, n).Some? then FullAccess(k, w) else Vacant(k, w)
  {
    WalkReachesOwner(k, m, root, owners, n.parent);
    assert Linked(k, m, root, owners, TableOf(k, m, root, n.parent).value, n.index);
  }

  /** Two distinct nodes never share a page. */
  lemma TablesDistinct(k: Kind, m: Memory, root: nat, owners: Owners, a: Node, b: Node)
    requires Tree(k, m, root, owners) && IsNode(a) && IsNode(b) && a != b
    requires TableOf(k, m, root, a).Some? && TableOf(k, m, root, b).Some?
    ensures TableOf(k, m, root, a) != TableOf(k, m, root, b)
  {
    WalkReachesOwner(k, m, root, owners, a);
    WalkReachesOwner(k, m, root, owners, b);
  }

  /** The tree's entries are as before, except that entry `i` of node `n` is now `w`. */
  ghost predicate OneEntryChanged(k: Kind, m: Memory, m': Memory, root: nat, n: Node, i: Index, w: Word) {
    forall x, j: Index :: IsNode(x) ==>
      EntryOf(k, m', root, x, j) == if x == n && j == i then w else EntryOf(k, m, root, x, j)
  }

  ghost predicate SameTables(k: Kind, m: Memory, m': Memory, root: nat, owners: Owners) {
    forall p :: IsTable(k, root, owners, p) ==> m'[p] == m[p]
  }

  lemma {:induction false} WalkDependsOnTables(k: Kind, m: Memory, m': Memory, root: nat, owners: Owners, n: Node)
    requires Tree(k, m, root, owners) && IsNode(n)
    requires SameTables(k, m, m', root, owners)
    ensures TableOf(k, m', root, n) == TableOf(k, m, root, n)
    ensures forall i: Index :: EntryOf(k, m', root, n, i) == EntryOf(k, m, root, n, i)
  {
    WalkReachesOwner(k, m, root, owners, n);
    if n.Child? {
      WalkDependsOnTables(k, m, m', root, owners, n.parent);
      WalkReachesOwner(k, m, root, owners, n.parent);
    }
  }

  /** Writing elsewhere, and handing out pages to others, leaves a tree as it was. */
  lemma TreeFrame(k: Kind, m: Memory, m': Memory, root: nat, owners: Owners, owners': Owners)
    requires Tree(k, m, root, owners)
    requires SameTables(k, m, m', root, owners)
    requires forall p :: p in owners ==> p in owners' && owners'[p] == owners[p]
    requires forall p :: IsTable(k, root, owners', p) ==> p in owners
    ensures Tree(k, m', root, owners')
  {
    forall p, i: Index | IsTable(k, root, owners', p)
      ensures Linked(k, m', root, owners', p, i)
    {
      assert Linked(k, m, root, owners, p, i);
    }
  }

  /** Writing an entry that links nowhere, over one that linked nowhere, moves no table. */
  lemma {:induction false} LeafWriteKeepsTables(k: Kind, m: Memory, root: nat, owners: Owners, p: nat, i: Index, w: Word, n: Node)
    requires Tree(k, m, root, owners) && IsNode(n)
    requires IsTable(k, root, owners, p)
    requires var d := owners[p].node.Depth(); d < 3 ==> Link(k, d, m[p][i]).None? && Link(k, d, w).None?
    ensures TableOf(k, WriteWord(m, p, i, w), root, n) == TableOf(k, m, root, n)
  {
    if n.Child? {
      LeafWriteKeepsTables(k, m, root, owners, p, i, w, n.parent);
      WalkReachesOwner(k, m, root, owners, n.parent);
    }
  }

  /** A leaf write changes one entry of one node and nothing else of the tree. */
  lemma LeafWrite(k: Kind, m: Memory, root: nat, owners: Owners, n: Node, i: Index, w: Word)
    requires Tree(k, m, root, owners) && IsNode(n)
    requires TableOf(k, m, root, n).Some?
    requires n.Depth() < 3 ==> Link(k, n.Depth(), EntryOf(k, m, root, n, i)).None? && Link(k, n.Depth(), w).None? && Vacant(k, w)
    ensures var m' := WriteWord(m, TableOf(k, m, root, n).value, i, w);
            && Tree(k, m', root, owners)
            && (forall x :: IsNode(x) ==> TableOf(k, m', root, x) == TableOf(k, m, root, x))
            && OneEntryChanged(k, m, m', root, n, i, w)
  {
    var p := TableOf(k, m, root, n).value;
    var m' := WriteWord(m, p, i, w);
    WalkReachesOwner(k, m, root, owners, n);
    forall q, j: Index | IsTable(k, root, owners, q)
      ensures Linked(k, m', root, owners, q, j)
    {
      assert Linked(k, m, root, owners, q, j);
    }
    forall x | IsNode(x)
      ensures TableOf(k, m', root, x) == TableOf(k, m, root, x)
      ensures forall j: Index ::
                EntryOf(k, m', root, x, j) == if x == n && j == i then w else EntryOf(k, m, root, x, j)
    {
      LeafWriteKeepsTables(k, m, root, owners, p, i, w, x);
      WalkReachesOwner(k, m, root, owners, x);
    }
  }

  /** Memory after page `c` is zeroed and the word `w` stored at entry `i` of page `p`. */
  function Linking(m: Memory, p: nat, i: Index, w: Word, c: nat): Memory {
    WriteWord(m[c := ZeroPage()], p, i, w)
  }

  /** A word that may be installed at a node: it links the fresh page `c`, and nothing was linked there. */
  ghost predicate Installable(k: Kind, m: Memory, root: nat, owners: Owners, n: Node, i: Index, w: Word, c: nat) {
    && IsNode(n) && n.Depth() < 3
    && TableOf(k, m, root, n).Some?
    && Link(k, n.Depth(), EntryOf(k, m, root, n, i)).None?
    && Link(k, n.Depth(), w) == Some(c) && FullAccess(k, w)
    && c !in owners
  }

  lemma {:induction false} InstallAt(k: Kind, m: Memory, root: nat, owners: Owners, n: Node, i: Index, w: Word, c: nat, x: Node)
    requires Tree(k, m, root, owners) && Installable(k, m, root, owners, n, i, w, c) && IsNode(x)
    ensures TableOf(k, Linking(m, TableOf(k, m, root, n).value, i, w, c), root, x) ==
            if x == Child(n, i) then Some(c) else TableOf(k, m, root, x)
  {
    if x.Child? {
      var p, up := TableOf(k, m, root, n).value, x.parent;
      var m' := Linking(m, p, i, w, c);
      InstallAt(k, m, root, owners, n, i, w, c, up);
      if up == Child(n, i) {
        ChildUnlinked(k, m, root, n, i);
        assert p != c by { WalkReachesOwner(k, m, root, owners, n); }
        assert m'[c] == ZeroPage();
      } else if TableOf(k, m, root, up).Some? {
        EntryAfterLinking(k, m, root, owners, n, i, w, c, up, x.index);
      }
    }
  }

  lemma EntryAfterLinking(k: Kind, m: Memory, root: nat, owners: Owners, n: Node, i: Index, w: Word, c: nat, up: Node, j: Index)
    requires Tree(k, m, root, owners) && IsNode(n) && IsNode(up) && c !in owners
    requires TableOf(k, m, root, n).Some? && TableOf(k, m, root, up).Some?
    ensures var q := TableOf(k, m, root, up).value;
            Linking(m, TableOf(k, m, root, n).value, i, w, c)[q][j] == if up == n && j == i then w else m[q][j]
  {
    WalkReachesOwner(k, m, root, owners, n);
    WalkReachesOwner(k, m, root, owners, up);
  }

  lemma ChildUnlinked(k: Kind, m: Memory, root: nat, n: Node, i: Index)
    requires Link(k, n.Depth(), EntryOf(k, m, root, n, i)).None?
    ensures TableOf(k, m, root, Child(n, i)).None?
  {
  }

  /** Linking a fresh zeroed page adds one empty table to the tree and changes one entry. */
  lemma Install(k: Kind, m: Memory, root: nat, owners: Owners, n: Node, i: Index, w: Word, c: nat)
    requires Tree(k, m, root, owners) && Installable(k, m, root, owners, n, i, w, c)
    ensures var m' := Linking(m, TableOf(k, m, root, n).value, i, w, c);
            && Tree(k, m', root, owners[c := Table(k, root, Child(n, i))])
            && (forall x :: IsNode(x) ==>
                  TableOf(k, m', root, x) == if x == Child(n, i) then Some(c) else TableOf(k, m, root, x))
            && OneEntryChanged(k, m, m', root, n, i, w)
  {
    var p := TableOf(k, m, root, n).value;
    var m' := Linking(m, p, i, w, c);
    WalkReachesOwner(k, m, root, owners, n);
    InstallKeepsTree(k, m, root, owners, n, i, w, c);
    ChildUnlinked(k, m, root, n, i);
    forall x | IsNode(x)
      ensures TableOf(k, m', root, x) == if x == Child(n, i) then Some(c) else TableOf(k, m, root, x)
      ensures forall j: Index ::
                EntryOf(k, m', root, x, j) == if x == n && j == i then w else EntryOf(k, m, root, x, j)
    {
      InstallAt(k, m, root, owners, n, i, w, c, x);
      WalkReachesOwner(k, m, root, owners, x);
    }
  }

  lemma InstallKeepsTree(k: Kind, m: Memory, root: nat, owners: Owners, n: Node, i: Index, w: Word, c: nat)
    requires Tree(k, m, root, owners) && Installable(k, m, root, owners, n, i, w, c)
    ensures Tree(k, Linking(m, TableOf(k, m, root, n).value, i, w, c), root,
                 owners[c := Table(k, root, Child(n, i))])
  {
    var p := TableOf(k, m, root, n).value;
    var m' := Linking(m, p, i, w, c);
    var owners' := owners[c := Table(k, root, Child(n, i))];
    WalkReachesOwner(k, m, root, owners, n);
    forall q, j: Index | IsTable(k, root, owners', q)
      ensures Linked(k, m', root, owners', q, j)
    {
      if q != c {
        assert IsTable(k, root, owners, q);
        assert Linked(k, m, root, owners, q, j);
      }
    }
  }

  /** The walk to the node that page `p` serves ends in `p`. */
  ghost predicate Placed(k: Kind, m: Memory, root: nat, owners: Owners, p: nat)
    requires IsTable(k, root, owners, p)
  {
    IsNode(owners[p].node) && TableOf(k, m, root, owners[p].node) == Some(p)
  }

  /** Every table is in use: none was lost from the tree. */
  ghost predicate AllPlaced(k: Kind, m: Memory, root: nat, owners: Owners) {
    forall p :: IsTable(k, root, owners, p) ==> Placed(k, m, root, owners, p)
  }

  lemma PlacedAfterWrite(k: Kind, m: Memory, m': Memory, root: nat, owners: Owners)
    requires AllPlaced(k, m, root, owners)
    requires forall x :: IsNode(x) ==> TableOf(k, m', root, x) == TableOf(k, m, root, x)
    ensures AllPlaced(k, m', root, owners)
  {
    forall p | IsTable(k, root, owners, p) ensures Placed(k, m', root, owners, p) {
      assert Placed(k, m, root, owners, p);
    }
  }

  lemma PlacedElsewhere(k: Kind, m: Memory, m': Memory, root: nat, owners: Owners, owners': Owners)
    requires Tree(k, m, root, owners) && AllPlaced(k, m, root, owners) && SameTables(k, m, m', root, owners)
    requires forall p :: p in owners ==> p in owners' && owners'[p] == owners[p]
    requires forall p :: IsTable(k, root, owners', p) ==> p in owners
    ensures AllPlaced(k, m', root, owners')
  {
    forall p | IsTable(k, root, owners', p) ensures Placed(k, m', root, owners', p) {
      assert Placed(k, m, root, owners, p);
      WalkDependsOnTables(k, m, m', root, owners, owners[p].node);
    }
  }

  lemma PlacedAfterInstall(k: Kind, m: Memory, m': Memory, root: nat, owners: Owners, n: Node, i: Index, c: nat)
    requires AllPlaced(k, m, root, owners) && n.Depth() < 3 && c !in owners
    requires TableOf(k, m, root, Child(n, i)).None?
    requires forall x :: IsNode(x) ==> TableOf(k, m', root, x) == if x == Child(n, i) then Some(c) else TableOf(k, m, root, x)
    ensures AllPlaced(k, m', root, owners[c := Table(k, root, Child(n, i))])
  {
    var owners' := owners[c := Table(k, root, Child(n, i))];
    forall p | IsTable(k, root, owners', p) ensures Placed(k, m', root, owners', p) {
      if p != c {
        assert IsTable(k, root, owners, p);
        assert Placed(k, m, root, owners, p);
      }
    }
  }
}

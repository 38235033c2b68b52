/** The port-I/O registry of vm_monitor/vmx_pio.c. */
module PioTable {
  import opened Options
  import opened Tables

  const MAX_PORTS_SUPPORTED: nat := 256

  datatype PortOp<+O> = PortOp(port: nat, callbacks: Option<O>)

  /** The signed 32-bit value of an unsigned difference. */
  function Int32Difference(x: nat, y: nat): int {
    var d := (x - y) % 0x1_0000_0000;
    if d < 0x8000_0000 then d else d - 0x1_0000_0000
  }

  /** port_ops_compare */
  function Compare<O>(a: PortOp<O>, b: PortOp<O>): int {
    Int32Difference(a.port, b.port)
  }

  /** The comparison orders two 32-bit ports correctly exactly when they are less than 2^31 apart (or one below at 2^31). */
  lemma CompareCorrectIff(x: nat, y: nat)
    requires x < 0x1_0000_0000 && y < 0x1_0000_0000
    ensures (Int32Difference(x, y) < 0 <==> x < y) && (Int32Difference(x, y) == 0 <==> x == y)
            <==> -0x8000_0000 <= x - y < 0x8000_0000
  {
    if x < y {
      assert (x - y) % 0x1_0000_0000 == x - y + 0x1_0000_0000;
    }
  }

  ghost predicate StrictlySorted<O>(s: seq<PortOp<O>>) {
    && (forall i, j :: 0 <= i < j < |s| ==> s[i].port < s[j].port)
    && (forall i :: 0 <= i < |s| ==> s[i].port < 0x8000_0000)
  }

  ghost function AsMap<O(!new)>(s: seq<PortOp<O>>): map<nat, PortOp<O>>
    requires StrictlySorted(s)
  {
    map e | e in s :: e.port := e
  }

  /** The map a history of registrations denotes: for each port the last one. */
  ghost function LastWins<O>(history: seq<PortOp<O>>): map<nat, PortOp<O>> {
    if history == [] then map[]
    else LastWins(history[..|history| - 1])[history[|history| - 1].port := history[|history| - 1]]
  }

  lemma {:induction false} LastWinsMeaning<O>(history: seq<PortOp<O>>, port: nat)
    ensures port in LastWins(history) <==> exists i :: 0 <= i < |history| && history[i].port == port
    ensures port in LastWins(history) ==>
              exists i :: 0 <= i < |history| && history[i].port == port && LastWins(history)[port] == history[i]
                          && forall j :: i < j < |history| ==> history[j].port != port
  {
    if history != [] {
      var last := |history| - 1;
      LastWinsMeaning(history[..last], port);
      if history[last].port == port {
        assert LastWins(history)[port] == history[last];
      } else if port in LastWins(history) {
        var h := history[..last];
        var i :| 0 <= i < |h| && h[i].port == port && LastWins(h)[port] == h[i] && forall j :: i < j < |h| ==> h[j].port != port;
        assert history[i] == h[i];
        forall j | i < j < |history| ensures history[j].port != port {
          if j < last { assert h[j] == history[j]; }
        }
      }
    }
  }

  /** Overwriting the entry of a port keeps the order and updates the map. */
  lemma Overwrite<O(!new)>(s: seq<PortOp<O>>, k: nat, op: PortOp<O>)
    requires StrictlySorted(s) && k < |s| && s[k].port == op.port
    ensures StrictlySorted(s[k := op]) && AsMap(s[k := op]) == AsMap(s)[op.port := op]
  {
    var t := s[k := op];
    assert t[k] == op;
    forall e | e in t ensures e in s || e == op {
    }
    forall e | e in s && e.port != op.port ensures e in t {
      var i :| 0 <= i < |s| && s[i] == e;
      assert t[i] == e;
    }
  }

  predicate DifferentPorts<O>(x: PortOp<O>, y: PortOp<O>) {
    x.port != y.port
  }

  /** Any ascending arrangement of the entries and one new port is strictly sorted and extends the map. */
  lemma Insert<O(!new)>(s: seq<PortOp<O>>, op: PortOp<O>, t: seq<PortOp<O>>, elems: set<PortOp<O>>)
    requires StrictlySorted(s) && op.port < 0x8000_0000 && forall i :: 0 <= i < |s| ==> s[i].port != op.port
    requires multiset(t) == multiset(s + [op])
    requires Orders(Compare, elems) && Within(t, elems) && Tables.Ascending(t, Compare, elems)
    ensures StrictlySorted(t) && AsMap(t) == AsMap(s)[op.port := op]
  {
    var u := s + [op];
    forall e ensures e in t <==> e in u {
      if e in t { SameElements(t, u, e); }
      if e in u { SameElements(u, t, e); }
    }
    RearrangementKeepsPairwise(u, t, DifferentPorts);
    forall i | 0 <= i < |t| ensures t[i].port < 0x8000_0000 {
      assert t[i] in u;
    }
    forall i, j | 0 <= i < j < |t| ensures t[i].port < t[j].port {
      assert Compare(t[i], t[j]) <= 0 && DifferentPorts(t[i], t[j]);
    }
    SameMap(s, op, t);
  }

  lemma SameMap<O(!new)>(s: seq<PortOp<O>>, op: PortOp<O>, t: seq<PortOp<O>>)
    requires StrictlySorted(s) && StrictlySorted(t) && forall i :: 0 <= i < |s| ==> s[i].port != op.port
    requires forall e :: e in t <==> e in s + [op]
    ensures AsMap(t) == AsMap(s)[op.port := op]
  {
    assert forall e :: e in s + [op] <==> e in s || e == op;
  }

  class PioRegistry<O(==, !new)> {
    const table: array<PortOp<O>>
    var nrPorts: nat
    ghost var history: seq<PortOp<O>>

    /** The table is strictly sorted and denotes the registrations so far, the last one winning. */
    ghost predicate Valid()
      reads this, table
    {
      && table.Length == MAX_PORTS_SUPPORTED && nrPorts <= MAX_PORTS_SUPPORTED
      && StrictlySorted(table[..nrPorts])
      && AsMap(table[..nrPorts]) == LastWins(history)
    }

    constructor ()
      ensures Valid() && history == [] && fresh(table)
    {
      table := new PortOp<O>[MAX_PORTS_SUPPORTED](_ => PortOp(0, None));
      nrPorts := 0;
      history := [];
      new;
      assert table[..nrPorts] == [];
    }

    /** search_portio_callback: an index for the port exactly if it was registered. */
    method Lookup(port: nat) returns (found: Option<nat>)
      requires Valid() && port < 0x8000_0000
      ensures found.Some? <==> port in LastWins(history)
      ensures found.Some? ==> found.value < nrPorts && table[found.value] == LastWins(history)[port]
      ensures found.None? ==> forall i :: 0 <= i < nrPorts ==> table[..nrPorts][i].port != port
    {
      var target := PortOp(port, None);
      ghost var s := table[..nrPorts];
      forall i | 0 <= i < nrPorts ensures s[i] == table[i] && Compare(target, table[i]) == port - table[i].port {
        SmallPortsCompare(target, s[i]);
      }
      found := Search(table, nrPorts, Compare, target);
      if found.Some? {
        assert s[found.value] in s;
      }
    }

    /** register_pio_operation; false is the assertion on a full table. */
    method Register(op: PortOp<O>) returns (ok: bool)
      requires Valid() && op.port < 0x8000_0000
      modifies this, table
      ensures Valid() && history == if ok then old(history) + [op] else old(history)
      ensures !ok ==> op.port !in LastWins(history) && nrPorts == MAX_PORTS_SUPPORTED
    {
      var found := Lookup(op.port);
      ghost var s := table[..nrPorts];
      assert (history + [op])[..|history|] == history;
      if found.Some? {
        Overwrite(s, found.value, op);
        table[found.value] := op;
        assert table[..nrPorts] == s[found.value := op];
      } else {
        if nrPorts == MAX_PORTS_SUPPORTED {
          return false;
        }
        Append(op);
      }
      history := history + [op];
      return true;
    }

    /** A port not in the table goes to the end and is sorted into place. */
    method Append(op: PortOp<O>)
      requires table.Length == MAX_PORTS_SUPPORTED && nrPorts < MAX_PORTS_SUPPORTED && op.port < 0x8000_0000
      requires StrictlySorted(table[..nrPorts]) && forall i :: 0 <= i < nrPorts ==> table[..nrPorts][i].port != op.port
      modifies this`nrPorts, table
      ensures nrPorts == old(nrPorts) + 1 && StrictlySorted(table[..nrPorts])
      ensures AsMap(table[..nrPorts]) == AsMap(old(table[..nrPorts]))[op.port := op]
    {
      ghost var s := table[..nrPorts];
      table[nrPorts] := op;
      nrPorts := nrPorts + 1;
      assert table[..nrPorts] == s + [op];
      ghost var elems := set e | e in s + [op];
      PortsOrdered(elems);
      BubbleSort(table, nrPorts, Compare, elems);
      Insert(s, op, table[..nrPorts], elems);
    }
  }

  lemma PortsOrdered<O(!new)>(elems: set<PortOp<O>>)
    requires forall e :: e in elems ==> e.port < 0x8000_0000
    ensures Orders(Compare, elems)
  {
    forall x, y | x in elems && y in elems ensures Compare(x, y) == x.port - y.port {
      SmallPortsCompare(x, y);
    }
  }

  lemma SmallPortsCompare<O>(x: PortOp<O>, y: PortOp<O>)
    requires x.port < 0x8000_0000 && y.port < 0x8000_0000
    ensures Compare(x, y) == x.port - y.port
  {
  }
}

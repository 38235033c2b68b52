/** The control-word fix-ups of vm_monitor/vmx_vmcs.c, with a 32-bit word as its bits, lowest first. */
module VmxControls {

  type Word32 = w: seq<bool> | |w| == 32 witness seq(32, _ => false)

  function Or(a: Word32, b: Word32): Word32 {
    seq(32, i requires 0 <= i < 32 => a[i] || b[i])
  }

  function And(a: Word32, b: Word32): Word32 {
    seq(32, i requires 0 <= i < 32 => a[i] && b[i])
  }

  /** Every bit of a is a bit of b. */
  predicate Contained(a: Word32, b: Word32) {
    And(a, b) == a
  }

  /** validate_vmx_capability: accepts exactly the words between allowed0 and allowed1. */
  method ValidateVmxCapability(target: Word32, allowed0: Word32, allowed1: Word32) returns (ok: bool)
    ensures ok <==> Contained(allowed0, target) && Contained(target, allowed1)
  {
    var idx := 0;
    while idx < 32
      invariant 0 <= idx <= 32
      invariant forall i :: 0 <= i < idx ==> (allowed0[i] ==> target[i]) && (target[i] ==> allowed1[i])
    {
      if (allowed0[idx] && !target[idx]) || (!allowed1[idx] && target[idx]) {
        assert And(allowed0, target)[idx] != allowed0[idx] || And(target, allowed1)[idx] != target[idx];
        return false;
      }
      idx := idx + 1;
    }
    assert And(allowed0, target) == allowed0 && And(target, allowed1) == target;
    return true;
  }

  /** fix_reserved_1_bits */
  method FixReserved1Bits(target: Word32, allowed0: Word32) returns (fixed: Word32)
    ensures fixed == Or(target, allowed0)
  {
    fixed := target;
    var idx := 0;
    while idx < 32
      invariant 0 <= idx <= 32
      invariant forall i :: 0 <= i < 32 ==> fixed[i] == (target[i] || (i < idx && allowed0[i]))
    {
      if allowed0[idx] && !fixed[idx] {
        fixed := fixed[idx := true];
      }
      idx := idx + 1;
    }
  }

  /** fix_reserved_0_bits */
  method FixReserved0Bits(target: Word32, allowed1: Word32) returns (fixed: Word32)
    ensures fixed == And(target, allowed1)
  {
    fixed := target;
    var idx := 0;
    while idx < 32
      invariant 0 <= idx <= 32
      invariant forall i :: 0 <= i < 32 ==> fixed[i] == (target[i] && (i < idx ==> allowed1[i]))
    {
      if !allowed1[idx] && fixed[idx] {
        fixed := fixed[idx := false];
      }
      idx := idx + 1;
    }
  }

  /** What both fix-ups make of a word, in the order the monitor applies them. */
  function Fixed(target: Word32, allowed0: Word32, allowed1: Word32): Word32 {
    And(Or(target, allowed0), allowed1)
  }

  /** A fixed word validates exactly when the capability pair is consistent. */
  lemma FixedValidatesIff(target: Word32, allowed0: Word32, allowed1: Word32)
    ensures Contained(allowed0, Fixed(target, allowed0, allowed1)) && Contained(Fixed(target, allowed0, allowed1), allowed1) <==>
            Contained(allowed0, allowed1)
  {
    var f := Fixed(target, allowed0, allowed1);
    forall i | 0 <= i < 32 ensures And(allowed0, f)[i] == And(allowed0, allowed1)[i] && And(f, allowed1)[i] == f[i] {
    }
    assert And(f, allowed1) == f;
    assert And(allowed0, f) == And(allowed0, allowed1);
  }

  /** The two fix-ups commute exactly when the pair is consistent; doing them twice never changes more. */
  lemma FixUpsCommuteIff(target: Word32, allowed0: Word32, allowed1: Word32)
    ensures Fixed(target, allowed0, allowed1) == Or(And(target, allowed1), allowed0) <==> Contained(allowed0, allowed1)
    ensures Fixed(Fixed(target, allowed0, allowed1), allowed0, allowed1) == Fixed(target, allowed0, allowed1)
  {
    var f, g := Fixed(target, allowed0, allowed1), Or(And(target, allowed1), allowed0);
    assert Fixed(f, allowed0, allowed1) == f;
    forall i | 0 <= i < 32 ensures f[i] == g[i] <==> And(allowed0, allowed1)[i] == allowed0[i] {
    }
    if f == g {
      assert And(allowed0, allowed1) == allowed0;
    } else {
      var i :| 0 <= i < 32 && f[i] != g[i];
      assert And(allowed0, allowed1)[i] != allowed0[i];
    }
  }

  /** A word that already validates is left alone, and no validating word is closer to the target. */
  lemma FixedIsNearest(target: Word32, allowed0: Word32, allowed1: Word32, other: Word32, i: nat)
    requires Contained(allowed0, allowed1) && Contained(allowed0, other) && Contained(other, allowed1) && i < 32
    ensures Fixed(target, allowed0, allowed1)[i] != target[i] ==> other[i] != target[i]
    ensures Fixed(other, allowed0, allowed1) == other
  {
    forall j | 0 <= j < 32 ensures (allowed0[j] ==> other[j]) && (other[j] ==> allowed1[j]) {
      assert And(allowed0, other)[j] == allowed0[j] && And(other, allowed1)[j] == other[j];
    }
    assert Fixed(other, allowed0, allowed1) == other;
    assert And(allowed0, allowed1)[i] == allowed0[i];
  }
}

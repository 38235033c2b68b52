/** The monitor's handlers, on the arrays and fields they update, proved against the delivery state machine. */
module VirtualMachine {
  import opened ByteRing
  import D = InterruptDelivery

  const SCANCODE_BUFFER_LENGTH: nat := 0x32

  class Vm {
    const requests: array<bool>
    const keyboard: Ring
    var masterData: bv8
    var masterInitializing: bool
    var masterOffset: bv8
    var slaveData: bv8
    var slaveInitializing: bool
    var slaveOffset: bv8
    var deliveryPending: bool
    var deliveryVector: nat
    var windowOpen: bool
    var lastTsc: nat
    var threshold: nat

    ghost predicate Shape()
      reads this, keyboard
    {
      requests.Length == D.NR_LINES && keyboard.Valid() && keyboard.ringSize == SCANCODE_BUFFER_LENGTH
    }

    ghost function Lines(): set<nat>
      requires requests.Length == D.NR_LINES
      reads requests
    {
      set l | 0 <= l < D.NR_LINES && requests[l]
    }

    /** The abstract state these fields stand for. */
    ghost function Abs(): D.State
      requires Shape()
      reads this, requests, keyboard, keyboard.buffer
    {
      D.State(
        Lines(), deliveryVector, deliveryPending, windowOpen, keyboard.Contents(),
        D.Pic(masterData, masterInitializing, masterOffset),
        D.Pic(slaveData, slaveInitializing, slaveOffset),
        lastTsc, threshold)
    }

    ghost predicate Valid()
      reads this, requests, keyboard, keyboard.buffer
    {
      Shape() && D.Inv(Abs())
    }

    constructor (threshold: nat)
      ensures Valid() && D.Initial(Abs()) && fresh(requests) && fresh(keyboard) && fresh(keyboard.buffer)
    {
      requests := new bool[D.NR_LINES](_ => false);
      keyboard := new Ring(SCANCODE_BUFFER_LENGTH);
      masterData, masterInitializing, masterOffset := 0xff, false, 0;
      slaveData, slaveInitializing, slaveOffset := 0xff, false, 0;
      deliveryPending, deliveryVector, windowOpen := false, 0, true;
      lastTsc, this.threshold := 0, threshold;
      new;
      assert Abs().lines == {};
    }

    predicate PinMasked(line: nat)
      requires line < D.NR_LINES
      reads this
    {
      (line <= 7 && masterData & (1 << line) != 0) || (line > 7 && slaveData & (1 << (line - 8)) != 0)
    }

    method RaiseInterrupt(line: nat)
      requires Shape() && line < D.NR_LINES
      modifies this`windowOpen, requests
      ensures Shape() && Abs() == D.Raise(old(Abs()), line)
    {
      if PinMasked(line) {
        return;
      }
      requests[line] := true;
      windowOpen := true;
      assert Abs().lines == old(Abs()).lines + {line};
    }

    /** The host timer branch of external_interrupt_sub_handler. */
    method HostTimer(tsc: nat)
      requires Valid()
      modifies this, requests
      ensures Valid() && Abs() == D.Step(old(Abs()), D.Timer(tsc))
    {
      D.StepKeepsInv(Abs(), D.Timer(tsc));
      if lastTsc != 0 && D.ElapsedMs(lastTsc, tsc) >= threshold {
        RaiseInterrupt(0);
      }
      lastTsc := tsc;
    }

    /** The host keyboard branch: enqueue, dropping the code if the ring is full, and raise line 1. */
    method HostKey(code: bv8)
      requires Valid()
      modifies this, requests, keyboard, keyboard.buffer
      ensures Valid() && Abs() == D.Step(old(Abs()), D.Key(code))
    {
      D.StepKeepsInv(Abs(), D.Key(code));
      keyboard.TestsAgree();
      var written := keyboard.Write([code]);
      RaiseInterrupt(1);
    }

    /** keyboard_data_inb */
    method KeyboardDataInb() returns (code: bv8)
      requires Shape()
      ensures code == D.ReadKey(Abs()) && (Abs().keys == [] ==> code == 0)
    {
      keyboard.TestsAgree();
      code := 0;
      if !keyboard.Empty() {
        code := keyboard.Peek();
      }
    }

    method MasterPicOutb(command: bool, byte: bv8)
      requires Valid()
      modifies this
      ensures Valid() && Abs() == D.Step(old(Abs()), if command then D.MasterCommand(byte) else D.MasterData(byte))
    {
      D.StepKeepsInv(Abs(), if command then D.MasterCommand(byte) else D.MasterData(byte));
      if command {
        if byte & 0x10 != 0 {
          masterInitializing := true;
        }
        if byte == 0x20 {
          deliveryPending := false;
        }
      } else {
        masterData := byte;
        if masterInitializing {
          masterOffset := masterData;
          masterInitializing := false;
        }
      }
    }

    method SlavePicOutb(command: bool, byte: bv8)
      requires Valid()
      modifies this
      ensures Valid() && Abs() == D.Step(old(Abs()), if command then D.SlaveCommand(byte) else D.SlaveData(byte))
    {
      D.StepKeepsInv(Abs(), if command then D.SlaveCommand(byte) else D.SlaveData(byte));
      if command {
        if byte & 0x10 != 0 {
          slaveInitializing := true;
        }
        if byte == 0x20 {
          deliveryPending := false;
        }
      } else {
        slaveData := byte;
        if slaveInitializing {
          slaveOffset := slaveData;
          slaveInitializing := false;
        }
      }
    }

    /** Clear the request of the vector delivered last; for the keyboard, drop its code first. */
    method RetireLast()
      requires Valid() && !deliveryPending
      modifies this`deliveryVector, requests, keyboard
      ensures Shape() && Abs() == D.Retire(old(Abs()))
    {
      if deliveryVector == D.INVALID_VECTOR {
        return;
      }
      if deliveryVector == 1 {
        var dropped := keyboard.Read(1);
        keyboard.TestsAgree();
        if keyboard.Empty() {
          requests[1] := false;
          deliveryVector := D.INVALID_VECTOR;
          assert Abs().lines == old(Abs()).lines - {1};
        }
      } else {
        requests[deliveryVector] := false;
        deliveryVector := D.INVALID_VECTOR;
        assert Abs().lines == old(Abs()).lines - {old(deliveryVector)};
      }
    }

    /** interrupt_window_exit_sub_handler; returns the interrupt number injected, if any. */
    method InterruptWindowExit() returns (injected: seq<bv8>)
      requires Valid() && windowOpen
      modifies this, requests, keyboard
      ensures Valid() && Abs() == D.Step(old(Abs()), D.WindowExit)
      ensures |injected| == |D.InjectedBy(old(Abs()), D.WindowExit)|
      ensures injected != [] ==> injected[0] == masterOffset + deliveryVector as bv8
    {
      D.StepKeepsInv(Abs(), D.WindowExit);
      ghost var s := Abs();
      injected := [];
      if !deliveryPending {
        RetireLast();
        ghost var r := Abs();
        injected := DeliverFirst();
        assert Abs() == D.OnWindowExit(s) by {
          assert r == D.Retire(s);
        }
      }
    }

    /** Inject the first request, or close the window if there is none. */
    method DeliverFirst() returns (injected: seq<bv8>)
      requires Shape() && !deliveryPending
      modifies this`deliveryVector, this`deliveryPending, this`windowOpen
      ensures Shape() && Abs() == D.Deliver(old(Abs()))
      ensures |injected| == if deliveryPending then 1 else 0
      ensures injected != [] ==> deliveryVector < D.NR_LINES && injected[0] == masterOffset + deliveryVector as bv8
    {
      injected := [];
      var idx := FirstRequest();
      if idx < D.NR_LINES {
        injected := [masterOffset + idx as bv8];
        deliveryVector := idx;
        deliveryPending := true;
      }
      if !deliveryPending {
        windowOpen := false;
      }
    }

    /** The scan for the first requesting line. */
    method FirstRequest() returns (idx: nat)
      requires Shape()
      ensures idx <= D.NR_LINES
      ensures idx < D.NR_LINES ==> idx in Abs().lines && idx == D.LowestLine(Abs().lines, 0)
      ensures idx == D.NR_LINES ==> Abs().lines == {}
    {
      idx := 0;
      while idx < D.NR_LINES
        invariant idx <= D.NR_LINES && forall l :: 0 <= l < idx ==> !requests[l]
      {
        if requests[idx] {
          assert idx in Abs().lines;
          return;
        }
        idx := idx + 1;
      }
    }
  }
}

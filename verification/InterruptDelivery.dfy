/**
Virtual interrupt delivery as a state machine: request lines, the vector in flight, the
interrupt window, the two PICs and the keyboard queue, under any interleaving of host
interrupts, guest port writes and interrupt-window exits.
*/
module InterruptDelivery {

  const NR_LINES: nat := 15
  const INVALID_VECTOR: nat := 0xff
  const KEYBOARD_LINE: nat := 1
  const CPU_FREQUENCY: nat := 2494254000

  /** Scancodes the keyboard ring can hold: SCANCODE_BUFFER_LENGTH less the free slot. */
  const KEYBOARD_CAPACITY: nat := 0x31

  datatype Pic = Pic(mask: bv8, initializing: bool, offset: bv8)

  datatype State = State(
    lines: set<nat>,
    vector: nat,
    pending: bool,
    window: bool,
    keys: seq<bv8>,
    master: Pic,
    slave: Pic,
    lastTsc: nat,
    threshold: nat)

  datatype Event =
    | Timer(tsc: nat)
    | Key(code: bv8)
    | MasterCommand(byte: bv8)
    | MasterData(byte: bv8)
    | SlaveCommand(byte: bv8)
    | SlaveData(byte: bv8)
    | WindowExit

  /** The state pre_initialize_vmcs and the control-word setup leave: vector 0, everything masked, window open. */
  predicate Initial(s: State) {
    && s.lines == {} && s.vector == 0 && !s.pending && s.window && s.keys == []
    && s.master == Pic(0xff, false, 0) && s.slave == Pic(0xff, false, 0) && s.lastTsc == 0
  }

  /** is_interrupt_pin_masked: the master's mask for lines 0-7, the slave's for the rest. */
  predicate Masked(s: State, line: nat)
    requires line < NR_LINES
  {
    if line <= 7 then BitSet(s.master.mask, line) else BitSet(s.slave.mask, line - 8)
  }

  predicate BitSet(mask: bv8, i: nat)
    requires i < 8
  {
    mask & (1 << i) != 0
  }

  /** The state under the two masks. */
  function UnderMasks(s: State, master: bv8, slave: bv8): State {
    s.(master := s.master.(mask := master), slave := s.slave.(mask := slave))
  }

  /** The masks that stop one line and no other. */
  function MaskOnly(s: State, line: nat): State
    requires line < NR_LINES
  {
    if line < 8 then UnderMasks(s, 1 << line, 0) else UnderMasks(s, 0, 1 << (line - 8))
  }

  /** Each line has a mask bit of its own, which stops that line alone. */
  lemma OneMaskBitPerLine(s: State, line: nat, other: nat)
    requires line < NR_LINES && other < NR_LINES
    ensures Masked(MaskOnly(s, other), line) <==> line == other
  {
    if line < 8 {
      NoBits(line);
      if other < 8 {
        OneBit(line, other);
      }
    } else {
      NoBits(line - 8);
      if other >= 8 {
        OneBit(line - 8, other - 8);
      }
    }
  }

  /** A mask stops what its bits stop one by one: clear masks nothing, full ones everything. */
  lemma MaskIsItsBits(s: State, line: nat, a: bv8, b: bv8, c: bv8, d: bv8)
    requires line < NR_LINES
    ensures !Masked(UnderMasks(s, 0, 0), line) && Masked(UnderMasks(s, 0xff, 0xff), line)
    ensures Masked(UnderMasks(s, a | b, c | d), line) <==>
            Masked(UnderMasks(s, a, c), line) || Masked(UnderMasks(s, b, d), line)
  {
    if line < 8 {
      NoBits(line);
      BitsOfEither(line, a, b);
    } else {
      NoBits(line - 8);
      BitsOfEither(line - 8, c, d);
    }
  }

  lemma NoBits(i: nat)
    requires i < 8
    ensures !BitSet(0, i) && BitSet(0xff, i)
  {
    assert (1 as bv8) << i == (1 as bv8) << (i as bv8);
  }

  lemma BitsOfEither(i: nat, a: bv8, b: bv8)
    requires i < 8
    ensures BitSet(a | b, i) <==> BitSet(a, i) || BitSet(b, i)
  {
    assert (1 as bv8) << i == (1 as bv8) << (i as bv8);
  }

  lemma OneBit(i: nat, j: nat)
    requires i < 8 && j < 8
    ensures BitSet(1 << j, i) <==> i == j
  {
    var k, l := i as bv8, j as bv8;
    assert (1 as bv8) << i == (1 as bv8) << k && (1 as bv8) << j == (1 as bv8) << l;
  }

  /** raise_interrupt */
  function Raise(s: State, line: nat): State
    requires line < NR_LINES
  {
    if Masked(s, line) then s else s.(lines := s.lines + {line}, window := true)
  }

  /** Milliseconds between two time stamps, in 64-bit arithmetic. */
  function ElapsedMs(from: nat, to: nat): nat {
    (to - from) % 0x1_0000_0000_0000_0000 * 1000 % 0x1_0000_0000_0000_0000 / CPU_FREQUENCY
  }

  /** The milliseconds are exact exactly as long as a thousand times the difference fits 64 bits. */
  lemma ElapsedExactIff(from: nat, to: nat)
    requires from <= to < 0x1_0000_0000_0000_0000
    ensures (ElapsedMs(from, to) * CPU_FREQUENCY <= (to - from) * 1000 < (ElapsedMs(from, to) + 1) * CPU_FREQUENCY) <==>
            (to - from) * 1000 < 0x1_0000_0000_0000_0000
  {
    var d, w := (to - from) * 1000, 0x1_0000_0000_0000_0000;
    assert (to - from) % w == to - from;
    var low := d % w;
    var ms := ElapsedMs(from, to);
    assert ms == low / CPU_FREQUENCY;
    assert ms * CPU_FREQUENCY <= low < (ms + 1) * CPU_FREQUENCY;
    if d < w {
      assert low == d;
    } else {
      assert low <= d - w;
    }
  }

  function OnTimer(s: State, tsc: nat): State {
    if s.lastTsc != 0 && ElapsedMs(s.lastTsc, tsc) >= s.threshold
    then Raise(s, 0).(lastTsc := tsc)
    else s.(lastTsc := tsc)
  }

  /** A scancode is queued if there is room, and the keyboard line raised in any case. */
  function OnKey(s: State, code: bv8): State {
    Raise(s.(keys := if |s.keys| < KEYBOARD_CAPACITY then s.keys + [code] else s.keys), KEYBOARD_LINE)
  }

  const PIC_EOI: bv8 := 0x20
  const ICW1_INIT: bv8 := 0x10

  function Command(p: Pic, byte: bv8): Pic {
    if byte & ICW1_INIT != 0 then p.(initializing := true) else p
  }

  function Data(p: Pic, byte: bv8): Pic {
    if p.initializing then Pic(byte, false, byte) else p.(mask := byte)
  }

  function Eoi(s: State, byte: bv8): State {
    if byte == PIC_EOI then s.(pending := false) else s
  }

  /** Retire the vector delivered last; the keyboard line stays up while codes remain. */
  function Retire(s: State): State {
    if s.vector == INVALID_VECTOR then s
    else if s.vector == KEYBOARD_LINE then
      var rest := if s.keys == [] then [] else s.keys[1..];
      if rest == [] then s.(keys := rest, lines := s.lines - {KEYBOARD_LINE}, vector := INVALID_VECTOR)
      else s.(keys := rest)
    else s.(lines := s.lines - {s.vector}, vector := INVALID_VECTOR)
  }

  /** The lowest line at or above `from`. */
  function LowestLine(lines: set<nat>, from: nat): (r: nat)
    requires exists l :: l in lines && from <= l < NR_LINES
    ensures from <= r < NR_LINES && r in lines && forall l :: l in lines && from <= l ==> r <= l
    decreases NR_LINES - from
  {
    if from in lines then from else LowestLine(lines, from + 1)
  }

  /** Put the lowest requesting line in flight, or close the window if there is none. */
  function Deliver(s: State): State {
    if exists l :: l in s.lines && l < NR_LINES
    then s.(vector := LowestLine(s.lines, 0), pending := true)
    else s.(window := false)
  }

  /** interrupt_window_exit_sub_handler */
  function OnWindowExit(s: State): State {
    if s.pending then s else Deliver(Retire(s))
  }

  function Step(s: State, e: Event): State {
    match e
    case Timer(tsc) => OnTimer(s, tsc)
    case Key(code) => OnKey(s, code)
    case MasterCommand(byte) => Eoi(s, byte).(master := Command(s.master, byte))
    case MasterData(byte) => s.(master := Data(s.master, byte))
    case SlaveCommand(byte) => Eoi(s, byte).(slave := Command(s.slave, byte))
    case SlaveData(byte) => s.(slave := Data(s.slave, byte))
    case WindowExit => OnWindowExit(s)
  }

  /** Hardware takes a window exit only while the window is open. */
  predicate Enabled(s: State, e: Event) {
    e.WindowExit? ==> s.window
  }

  predicate Possible(s: State, run: seq<Event>)
    decreases |run|
  {
    run == [] || (Enabled(s, run[0]) && Possible(Step(s, run[0]), run[1..]))
  }

  function Run(s: State, run: seq<Event>): State
    decreases |run|
  {
    if run == [] then s else Run(Step(s, run[0]), run[1..])
  }

  /** keyboard_data_inb: the oldest code, 0 if there is none; the code stays queued. */
  function ReadKey(s: State): bv8 {
    if s.keys == [] then 0 else s.keys[0]
  }

  /** What every reachable state keeps. */
  ghost predicate Inv(s: State) {
    && (forall l :: l in s.lines ==> l < NR_LINES)
    && (s.vector < NR_LINES || s.vector == INVALID_VECTOR)
    && (s.pending ==> s.vector < NR_LINES && s.vector in s.lines)
    && (s.vector == KEYBOARD_LINE ==> KEYBOARD_LINE in s.lines)
    && (KEYBOARD_LINE in s.lines ==> s.keys != [])
    && |s.keys| <= KEYBOARD_CAPACITY
    && (!s.window ==> s.lines == {} && !s.pending)
  }

  lemma StepKeepsInv(s: State, e: Event)
    requires Inv(s) && Enabled(s, e)
    ensures Inv(Step(s, e))
  {
  }

  lemma {:induction false} EveryReachableStateSafe(s: State, run: seq<Event>)
    requires Inv(s) && Possible(s, run)
    ensures Inv(Run(s, run))
    decreases |run|
  {
    if run != [] {
      StepKeepsInv(s, run[0]);
      EveryReachableStateSafe(Step(s, run[0]), run[1..]);
    }
  }

  lemma InitialSafe(s: State)
    requires Initial(s)
    ensures Inv(s)
  {
  }

  // What one event adds to the observable histories.

  function AcceptedBy(s: State, e: Event): seq<bv8> {
    if e.Key? && |s.keys| < KEYBOARD_CAPACITY then [e.code] else []
  }

  function RetiredBy(s: State, e: Event): seq<bv8> {
    if e.WindowExit? && !s.pending && s.vector == KEYBOARD_LINE && s.keys != [] then [s.keys[0]] else []
  }

  function InjectedBy(s: State, e: Event): seq<nat> {
    if e.WindowExit? && !s.pending && OnWindowExit(s).pending then [OnWindowExit(s).vector] else []
  }

  /** The code a guest finds at port 0x60 when the keyboard interrupt just injected reaches it. */
  function PresentedBy(s: State, e: Event): seq<bv8> {
    if InjectedBy(s, e) == [KEYBOARD_LINE] then [ReadKey(Step(s, e))] else []
  }

  predicate IsEoi(e: Event) {
    e == MasterCommand(PIC_EOI) || e == SlaveCommand(PIC_EOI)
  }

  function Accepted(s: State, run: seq<Event>): seq<bv8>
    decreases |run|
  {
    if run == [] then [] else AcceptedBy(s, run[0]) + Accepted(Step(s, run[0]), run[1..])
  }

  function Retired(s: State, run: seq<Event>): seq<bv8>
    decreases |run|
  {
    if run == [] then [] else RetiredBy(s, run[0]) + Retired(Step(s, run[0]), run[1..])
  }

  function Presented(s: State, run: seq<Event>): seq<bv8>
    decreases |run|
  {
    if run == [] then [] else PresentedBy(s, run[0]) + Presented(Step(s, run[0]), run[1..])
  }

  function Injected(s: State, run: seq<Event>): seq<nat>
    decreases |run|
  {
    if run == [] then [] else InjectedBy(s, run[0]) + Injected(Step(s, run[0]), run[1..])
  }

  function EoiCount(run: seq<Event>): nat {
    if run == [] then 0 else (if IsEoi(run[0]) then 1 else 0) + EoiCount(run[1..])
  }

  /** The code of a keyboard interrupt that is in flight. */
  function InFlight(s: State): seq<bv8> {
    if s.vector == KEYBOARD_LINE && s.keys != [] then [s.keys[0]] else []
  }

  lemma StepConservesKeys(s: State, e: Event)
    requires Inv(s) && Enabled(s, e)
    ensures s.keys + AcceptedBy(s, e) == RetiredBy(s, e) + Step(s, e).keys
  {
    if e.WindowExit? && !s.pending {
      assert s.vector == KEYBOARD_LINE ==> s.keys == [s.keys[0]] + s.keys[1..];
    }
  }

  lemma StepConservesInFlight(s: State, e: Event)
    requires Inv(s) && Enabled(s, e)
    ensures InFlight(s) + PresentedBy(s, e) == RetiredBy(s, e) + InFlight(Step(s, e))
  {
    if e.WindowExit? && !s.pending {
      var r := Retire(s);
      assert InFlight(s) == RetiredBy(s, e);
      assert OnWindowExit(s) == Deliver(r);
    }
  }

  /** Keyboard FIFO: what was queued or accepted is exactly what was retired, in order, then what is still queued. */
  lemma {:induction false} KeyboardFifo(s: State, run: seq<Event>)
    requires Inv(s) && Possible(s, run)
    ensures s.keys + Accepted(s, run) == Retired(s, run) + Run(s, run).keys
    decreases |run|
  {
    if run != [] {
      var e, next := run[0], Step(s, run[0]);
      StepKeepsInv(s, e);
      StepConservesKeys(s, e);
      KeyboardFifo(next, run[1..]);
      Chain(s.keys, AcceptedBy(s, e), RetiredBy(s, e), next.keys,
            Accepted(next, run[1..]), Retired(next, run[1..]), Run(s, run).keys);
    }
  }

  /** Exactly once: every code presented by an injection is retired once, in the same order, and nothing else is. */
  lemma {:induction false} PresentedExactlyOnce(s: State, run: seq<Event>)
    requires Inv(s) && Possible(s, run)
    ensures InFlight(s) + Presented(s, run) == Retired(s, run) + InFlight(Run(s, run))
    decreases |run|
  {
    if run != [] {
      var e, next := run[0], Step(s, run[0]);
      StepKeepsInv(s, e);
      StepConservesInFlight(s, e);
      PresentedExactlyOnce(next, run[1..]);
      Chain(InFlight(s), PresentedBy(s, e), RetiredBy(s, e), InFlight(next),
            Presented(next, run[1..]), Retired(next, run[1..]), InFlight(Run(s, run)));
    }
  }

  /** Two conservation steps compose. */
  lemma Chain<T>(a: seq<T>, in1: seq<T>, out1: seq<T>, b: seq<T>, in2: seq<T>, out2: seq<T>, c: seq<T>)
    requires a + in1 == out1 + b && b + in2 == out2 + c
    ensures a + (in1 + in2) == (out1 + out2) + c
  {
    assert a + (in1 + in2) == (a + in1) + in2;
    assert (out1 + b) + in2 == out1 + (b + in2);
    assert out1 + (out2 + c) == (out1 + out2) + c;
  }

  /** Until the guest's EOI nothing else is injected, the same vector stays in flight, and port 0x60 reads the same code. */
  lemma {:induction false} InFlightUntilEoi(s: State, run: seq<Event>)
    requires Inv(s) && Possible(s, run) && s.pending && EoiCount(run) == 0
    ensures Injected(s, run) == [] && Run(s, run).pending && Run(s, run).vector == s.vector
    ensures s.vector == KEYBOARD_LINE ==> ReadKey(Run(s, run)) == ReadKey(s)
    decreases |run|
  {
    if run != [] {
      StepKeepsInv(s, run[0]);
      InFlightUntilEoi(Step(s, run[0]), run[1..]);
    }
  }

  /** Injections and EOIs alternate: never more injections than EOIs, one more if none was pending at first. */
  lemma {:induction false} InjectionsNeedEois(s: State, run: seq<Event>)
    ensures |Injected(s, run)| <= EoiCount(run) + (if s.pending then 0 else 1)
    decreases |run|
  {
    if run != [] {
      InjectionsNeedEois(Step(s, run[0]), run[1..]);
    }
  }

  /**
  A raised line survives the guest's next EOI and window exit unless it is the very vector being retired
  there, and, for the keyboard, its last code; whether or not that vector was still in service.
  */
  lemma RaisedLineSurvivesIff(s: State, line: nat)
    requires Inv(s) && line < NR_LINES && !Masked(s, line)
    requires line == KEYBOARD_LINE ==> s.keys != []
    ensures line in OnWindowExit(Eoi(Raise(s, line), PIC_EOI)).lines <==>
            s.vector != line || (line == KEYBOARD_LINE && |s.keys| > 1)
  {
  }

  /** A tick that comes while the previous one is in service leaves no request behind. */
  lemma TickInServiceLost(s: State, tsc: nat)
    requires Inv(s) && s.pending && s.vector == 0
    ensures var run := [Timer(tsc), MasterCommand(PIC_EOI), WindowExit];
            Possible(s, run) && 0 !in Run(s, run).lines
  {
    var e := MasterCommand(PIC_EOI);
    var s1 := Step(s, Timer(tsc));
    var s2 := Step(s1, e);
    assert s1.window && s1.vector == 0 && s2.window && s2.vector == 0 && !s2.pending;
    RunOfThree(s, Timer(tsc), e, WindowExit);
  }

  lemma RunOfThree(s: State, a: Event, b: Event, c: Event)
    requires Enabled(s, a) && Enabled(Step(s, a), b) && Enabled(Step(Step(s, a), b), c)
    ensures Possible(s, [a, b, c]) && Run(s, [a, b, c]) == Step(Step(Step(s, a), b), c)
    ensures Injected(s, [a, b, c]) == InjectedBy(s, a) + InjectedBy(Step(s, a), b) + InjectedBy(Step(Step(s, a), b), c)
  {
    var s1 := Step(s, a);
    var s2 := Step(s1, b);
    First(s, a, [b, c]);
    First(s1, b, [c]);
    First(s2, c, []);
    assert [a] + [b, c] == [a, b, c] && [b] + [c] == [b, c] && [c] + [] == [c];
  }

  /** A run is its first event and then the rest. */
  lemma First(s: State, e: Event, rest: seq<Event>)
    ensures Possible(s, [e] + rest) <==> Enabled(s, e) && Possible(Step(s, e), rest)
    ensures Run(s, [e] + rest) == Run(Step(s, e), rest)
    ensures Injected(s, [e] + rest) == InjectedBy(s, e) + Injected(Step(s, e), rest)
  {
    assert ([e] + rest)[1..] == rest;
  }

  /**
  A timer tick raised before the first window exit is lost: the initial vector is 0 rather than
  invalid, so that exit retires line 0 instead of delivering it.
  */
  lemma EarlyTimerTickLost(s: State, tsc: nat)
    requires Initial(s) && ElapsedMs(1, tsc) >= s.threshold
    ensures var run := [MasterData(0), Timer(1), Timer(tsc), WindowExit];
            Possible(s, run) && Injected(s, run) == [] && Quiet(Run(s, run))
    ensures Run(s, [MasterData(0), Timer(1), Timer(tsc)]).lines == {0}
  {
    var s1 := Step(s, MasterData(0));
    var s2 := Step(s1, Timer(1));
    var s3 := Step(s2, Timer(tsc));
    assert s3.lines == {0} && s3.vector == 0 && !s3.pending && s3.window;
    assert Retire(s3).lines == {};
    RunOfThree(s, MasterData(0), Timer(1), Timer(tsc));
    RunOfThree(s1, Timer(1), Timer(tsc), WindowExit);
    First(s, MasterData(0), [Timer(1), Timer(tsc), WindowExit]);
    assert [MasterData(0)] + [Timer(1), Timer(tsc), WindowExit] == [MasterData(0), Timer(1), Timer(tsc), WindowExit];
  }

  // Draining: with no further raises the guest acknowledges and takes window exits.

  function Round(s: State): State {
    if s.window then OnWindowExit(Eoi(s, PIC_EOI)) else s
  }

  function Rounds(s: State, n: nat): State
    decreases n
  {
    if n == 0 then s else Rounds(Round(s), n - 1)
  }

  function Measure(s: State): nat {
    |s.lines| + |s.keys|
  }

  predicate Quiet(s: State) {
    !s.window && s.lines == {} && !s.pending
  }

  /** A round that completes a delivery strictly shrinks lines plus queued codes, and ends pending or quiet. */
  lemma RoundShrinks(s: State)
    requires Inv(s) && s.pending
    ensures Inv(Round(s)) && Measure(Round(s)) < Measure(s)
    ensures Round(s).pending || Quiet(Round(s))
  {
    var t := Eoi(s, PIC_EOI);
    var r := Retire(t);
    if s.vector == KEYBOARD_LINE && |s.keys| > 1 {
      assert r.lines == s.lines && |r.keys| == |s.keys| - 1;
    } else {
      assert r.lines == s.lines - {s.vector} && |r.lines| == |s.lines| - 1;
    }
  }

  lemma {:induction false} QuietStays(s: State, n: nat)
    requires Quiet(s)
    ensures Rounds(s, n) == s
  {
    if n > 0 {
      QuietStays(s, n - 1);
    }
  }

  lemma {:induction false} PendingDrains(s: State, n: nat)
    requires Inv(s) && s.pending && Measure(s) <= n
    ensures Quiet(Rounds(s, n))
    decreases n
  {
    RoundShrinks(s);
    if Round(s).pending {
      PendingDrains(Round(s), n - 1);
    } else {
      QuietStays(Round(s), n - 1);
    }
  }

  /** From every reachable state the window closes with no line set within lines + codes + 1 rounds. */
  lemma Drains(s: State)
    requires Inv(s)
    ensures Quiet(Rounds(s, Measure(s) + 1))
  {
    if s.pending {
      PendingDrains(s, Measure(s) + 1);
    } else if s.window {
      StepKeepsInv(s, WindowExit);
      var r := Round(s);
      assert Inv(r) && r == OnWindowExit(s);
      RetireShrinks(s);
      if r.pending {
        PendingDrains(r, Measure(s));
      } else {
        QuietStays(r, Measure(s));
      }
    } else {
      QuietStays(s, Measure(s) + 1);
    }
  }

  lemma RetireShrinks(s: State)
    requires Inv(s)
    ensures Measure(Retire(s)) <= Measure(s)
  {
    var r := Retire(s);
    assert r.lines <= s.lines;
    Subset(r.lines, s.lines);
  }

  lemma Subset(a: set<nat>, b: set<nat>)
    requires a <= b
    ensures |a| <= |b|
  {
    assert b == a + (b - a);
  }

  // Draining under every schedule without raises.

  predicate NoRaise(run: seq<Event>) {
    forall i :: 0 <= i < |run| ==> !run[i].Timer? && !run[i].Key?
  }

  /** How many injections are still due: lines plus codes, less the one already injected. */
  function Due(s: State): int {
    if s.vector in s.lines then Measure(s) - 1 else Measure(s)
  }

  lemma RetireMeetsDue(s: State)
    requires Inv(s)
    ensures Measure(Retire(s)) <= Due(s)
  {
    RetireShrinks(s);
    var r := Retire(s);
    if s.vector in s.lines && !(s.vector == KEYBOARD_LINE && |s.keys| > 1) {
      assert r.lines == s.lines - {s.vector} && |r.lines| == |s.lines| - 1;
    }
  }

  /** A window exit with nothing pending uses up one due injection or leaves the machine quiet. */
  lemma ExitProgress(s: State)
    requires Inv(s) && s.window && !s.pending
    ensures var t := OnWindowExit(s);
            if t.pending then Due(t) < Due(s) && |InjectedBy(s, WindowExit)| == 1
            else Quiet(t) && InjectedBy(s, WindowExit) == []
  {
    StepKeepsInv(s, WindowExit);
    RetireMeetsDue(s);
  }

  lemma {:induction false} QuietWithoutRaises(s: State, run: seq<Event>)
    requires Quiet(s) && Possible(s, run) && NoRaise(run)
    ensures Quiet(Run(s, run)) && Injected(s, run) == []
    decreases |run|
  {
    if run != [] {
      assert forall i :: 0 <= i < |run[1..]| ==> run[1..][i] == run[i + 1];
      QuietWithoutRaises(Step(s, run[0]), run[1..]);
    }
  }

  /** An event other than an effective window exit injects nothing and changes nothing that is due. */
  lemma IdleStep(s: State, e: Event)
    requires Inv(s) && Enabled(s, e) && !e.Timer? && !e.Key? && (e.WindowExit? ==> s.pending)
    ensures Due(Step(s, e)) == Due(s) && InjectedBy(s, e) == []
    ensures Step(s, e).pending == (s.pending && !IsEoi(e))
  {
  }

  /** Window exits that follow an EOI since the last such exit; `armed` says whether there was one. */
  function Acknowledged(run: seq<Event>, armed: bool): nat
    decreases |run|
  {
    if run == [] then 0
    else if run[0].WindowExit? && armed then 1 + Acknowledged(run[1..], false)
    else Acknowledged(run[1..], armed || IsEoi(run[0]))
  }

  /**
  In every run without raises at most Due injections happen, and a run with more acknowledged
  window exits than that has closed the window with no line set.
  */
  lemma {:induction false} EveryScheduleDrains(s: State, run: seq<Event>, armed: bool)
    requires Inv(s) && Possible(s, run) && NoRaise(run) && (armed ==> !s.pending)
    ensures |Injected(s, run)| <= Due(s)
    ensures Acknowledged(run, armed) > Due(s) ==> Quiet(Run(s, run))
    decreases |run|
  {
    if run == [] {
      NothingOwed(s);
    } else {
      var e, t, rest := run[0], Step(s, run[0]), run[1..];
      assert forall i :: 0 <= i < |rest| ==> rest[i] == run[i + 1];
      StepKeepsInv(s, e);
      if e.WindowExit? && !s.pending {
        ExitProgress(s);
        if t.pending {
          EveryScheduleDrains(t, rest, false);
        } else {
          QuietWithoutRaises(t, rest);
          NothingOwed(s);
        }
      } else {
        IdleStep(s, e);
        EveryScheduleDrains(t, rest, armed || IsEoi(e));
      }
    }
  }

  lemma NothingOwed(s: State)
    requires Inv(s)
    ensures Due(s) >= 0
  {
    if s.vector in s.lines {
      assert s.lines != {};
    }
  }

  // What single events do.

  /** A key press raises the keyboard line and opens the window, unless the line is masked. */
  lemma KeyRaises(s: State, code: bv8)
    requires s.master.mask & 2 == 0
    ensures KEYBOARD_LINE in Step(s, Key(code)).lines && Step(s, Key(code)).window
  {
  }

  /** A timer interrupt raises line 0 exactly if enough time has passed since the last one and the line is not masked. */
  lemma TimerRaisesIff(s: State, tsc: nat)
    requires 0 !in s.lines
    ensures 0 in Step(s, Timer(tsc)).lines <==>
            s.lastTsc != 0 && ElapsedMs(s.lastTsc, tsc) >= s.threshold && s.master.mask & 1 == 0
    ensures 0 in Step(s, Timer(tsc)).lines ==> Step(s, Timer(tsc)).window
    ensures Step(s, Timer(tsc)).lastTsc == tsc
  {
  }

  /** At first every line is masked. */
  lemma InitiallyDeaf(s: State, line: nat)
    requires Initial(s) && line < NR_LINES
    ensures Raise(s, line) == s
  {
    MaskIsItsBits(s, line, 0, 0, 0, 0);
  }

  /** A window exit injects the lowest line that is still requesting. */
  lemma LowestLineFirst(s: State)
    requires Inv(s) && !s.pending
    ensures var t := OnWindowExit(s);
            if t.lines == {} then InjectedBy(s, WindowExit) == []
            else exists v :: InjectedBy(s, WindowExit) == [v] && v in t.lines && forall l :: l in t.lines ==> v <= l
  {
    var t := OnWindowExit(s);
    if t.lines != {} {
      assert InjectedBy(s, WindowExit) == [t.vector];
    }
  }

  /** The initialisation sequence: the first data byte is the vector offset, the next the mask, which alone changes after. */
  lemma PicInitialisation(p: Pic, icw1: bv8, other: bv8, offset: bv8, mask: bv8)
    requires icw1 & 0x10 != 0
    ensures Command(Command(p, icw1), other) == Command(p, icw1)
    ensures other & 0x10 == 0 ==> Command(p, other) == p
    ensures var q := Data(Data(Command(p, icw1), offset), mask);
            q.offset == offset && q.mask == mask && !q.initializing
    ensures Data(Command(p, icw1), offset).mask == offset
    ensures !p.initializing ==> Data(p, mask) == Pic(mask, false, p.offset)
  {
  }

  /** What an event has nothing to do with stays as it was. */
  lemma StepFrame(s: State, e: Event)
    ensures e.Timer? || e.Key? || e.WindowExit? ==> Step(s, e).master == s.master && Step(s, e).slave == s.slave
    ensures e.MasterCommand? || e.MasterData? ==> Step(s, e).slave == s.slave
    ensures e.SlaveCommand? || e.SlaveData? ==> Step(s, e).master == s.master
    ensures !e.Timer? && !e.Key? && !e.WindowExit? ==>
              Step(s, e).lines == s.lines && Step(s, e).vector == s.vector && Step(s, e).window == s.window
    ensures !e.Key? && !e.WindowExit? ==> Step(s, e).keys == s.keys
    ensures !e.Timer? ==> Step(s, e).lastTsc == s.lastTsc
    ensures Step(s, e).threshold == s.threshold
  {
  }

  // Liveness: what was accepted is presented.

  /** No key arrives while its line is masked. */
  predicate KeysHeard(s: State, run: seq<Event>)
    decreases |run|
  {
    run == [] || ((run[0].Key? ==> !Masked(s, KEYBOARD_LINE)) && KeysHeard(Step(s, run[0]), run[1..]))
  }

  /** Queued codes have their line up. */
  predicate Announced(s: State) {
    s.keys != [] ==> KEYBOARD_LINE in s.lines
  }

  lemma StepKeepsAnnounced(s: State, e: Event)
    requires Inv(s) && Enabled(s, e) && Announced(s) && (e.Key? ==> !Masked(s, KEYBOARD_LINE))
    ensures Announced(Step(s, e))
  {
  }

  lemma {:induction false} RunKeepsAnnounced(s: State, run: seq<Event>)
    requires Inv(s) && Possible(s, run) && Announced(s) && KeysHeard(s, run)
    ensures Announced(Run(s, run)) && Inv(Run(s, run))
    decreases |run|
  {
    if run != [] {
      StepKeepsInv(s, run[0]);
      StepKeepsAnnounced(s, run[0]);
      RunKeepsAnnounced(Step(s, run[0]), run[1..]);
    }
  }

  lemma {:induction false} SilentRun(s: State, run: seq<Event>)
    requires NoRaise(run)
    ensures Accepted(s, run) == [] && KeysHeard(s, run)
    decreases |run|
  {
    if run != [] {
      assert forall i :: 0 <= i < |run[1..]| ==> run[1..][i] == run[i + 1];
      SilentRun(Step(s, run[0]), run[1..]);
    }
  }

  /**
  Every code is presented: if no key arrives while masked, and after some run `before` enough acknowledged
  window exits follow without raises, then the codes in flight and presented are exactly the codes queued
  and accepted, each once and in order, and nothing is left.
  */
  lemma EveryKeyPresented(s: State, before: seq<Event>, after: seq<Event>)
    requires Inv(s) && Announced(s) && Possible(s, before) && KeysHeard(s, before)
    requires var t := Run(s, before); Possible(t, after) && NoRaise(after) && Acknowledged(after, false) > Due(t)
    ensures var t := Run(s, before);
            InFlight(s) + Presented(s, before) + Presented(t, after) == s.keys + Accepted(s, before)
    ensures Quiet(Run(Run(s, before), after)) && Run(Run(s, before), after).keys == []
  {
    var t := Run(s, before);
    RunKeepsAnnounced(s, before);
    SilentRun(t, after);
    RunKeepsAnnounced(t, after);
    EveryScheduleDrains(t, after, false);
    KeyboardFifo(s, before);
    PresentedExactlyOnce(s, before);
    KeyboardFifo(t, after);
    PresentedExactlyOnce(t, after);
    AllPresented(InFlight(s), Presented(s, before), Retired(s, before), InFlight(t), Presented(t, after), Retired(t, after),
                 s.keys + Accepted(s, before), t.keys);
  }

  lemma AllPresented<T>(f: seq<T>, p1: seq<T>, r1: seq<T>, g: seq<T>, p2: seq<T>, r2: seq<T>, all: seq<T>, left: seq<T>)
    requires f + p1 == r1 + g && g + p2 == r2 && all == r1 + left && left == r2
    ensures f + p1 + p2 == all
  {
    assert (r1 + g) + p2 == r1 + (g + p2);
  }

  /** The condition is needed: codes queued without their line stay queued through every run in which no other key arrives. */
  lemma {:induction false} UnannouncedNeverPresented(s: State, run: seq<Event>)
    requires Inv(s) && !Announced(s) && Possible(s, run) && forall i :: 0 <= i < |run| ==> !run[i].Key?
    ensures Presented(s, run) == [] && Run(s, run).keys == s.keys && !Announced(Run(s, run))
    decreases |run|
  {
    if run != [] {
      assert forall i :: 0 <= i < |run[1..]| ==> run[1..][i] == run[i + 1];
      StepKeepsInv(s, run[0]);
      UnannouncedNeverPresented(Step(s, run[0]), run[1..]);
    }
  }

  /** A key that finds its line masked and the ring empty leaves such a state. */
  lemma MaskedKeyUnannounced(s: State, code: bv8)
    requires Inv(s) && Masked(s, KEYBOARD_LINE) && s.keys == []
    ensures Step(s, Key(code)).keys == [code] && !Announced(Step(s, Key(code)))
  {
  }
}

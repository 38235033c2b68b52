/**
The spinlock of x86_64/spinlock.c under every interleaving of its atomic steps, on any number of CPUs
whose ids stay below the 0xff that marks a lock without owner.
*/
module Spinlock {

  const NO_OWNER: nat := 0xff

  /** Where a CPU is; `held` says whether it entered release as the holder. */
  datatype Pc =
    | Idle
    | Spinning               // about to exchange 1 into the lock
    | Won                    // the exchange returned 0; owner not yet written
    | Holding
    | CheckOwner(held: bool) // first half of release's first assertion
    | CheckLock(held: bool)  // second half
    | ResetOwner(held: bool)
    | Unlock(held: bool)     // about to exchange 0, asserting that 1 comes back
    | Halted                 // an assertion failed

  datatype State = State(lock: nat, owner: nat, pcs: seq<Pc>)

  /** What an idle or holding CPU decides to do; other steps follow by themselves. */
  datatype Action = Acquire | Release | Continue

  datatype Event = Event(cpu: nat, action: Action)

  /** What spinlock_init leaves, with every CPU outside. */
  predicate Fresh(s: State) {
    s.lock == 0 && s.owner == NO_OWNER && forall c :: 0 <= c < |s.pcs| ==> s.pcs[c] == Idle
  }

  predicate Initial(s: State) {
    Fresh(s) && |s.pcs| <= NO_OWNER
  }

  function Goto(s: State, c: nat, pc: Pc): State
    requires c < |s.pcs|
  {
    s.(pcs := s.pcs[c := pc])
  }

  /** One atomic step of one CPU; a CPU with nothing to do stays put. Any CPU may call release. */
  function Step(s: State, e: Event): State {
    if e.cpu >= |s.pcs| then s
    else
      var c := e.cpu;
      match s.pcs[c]
      case Idle =>
        if e.action == Acquire then Goto(s, c, Spinning)
        else if e.action == Release then Goto(s, c, CheckOwner(false))
        else s
      case Spinning => Goto(s.(lock := 1), c, if s.lock == 0 then Won else Spinning)
      case Won => Goto(s.(owner := c), c, Holding)
      case Holding => if e.action == Release then Goto(s, c, CheckOwner(true)) else s
      case CheckOwner(held) => Goto(s, c, if s.owner == c then CheckLock(held) else Halted)
      case CheckLock(held) => Goto(s, c, if s.lock == 1 then ResetOwner(held) else Halted)
      case ResetOwner(held) => Goto(s.(owner := NO_OWNER), c, Unlock(held))
      case Unlock(held) => Goto(s.(lock := 0), c, if s.lock == 1 then Idle else Halted)
      case Halted => s
  }

  function Run(s: State, run: seq<Event>): State
    decreases |run|
  {
    if run == [] then s else Run(Step(s, run[0]), run[1..])
  }

  /** Between the winning exchange and the releasing one. */
  predicate InSection(pc: Pc) {
    pc == Won || pc == Holding || (!pc.Idle? && !pc.Spinning? && !pc.Halted? && pc.held)
  }

  /** The owner field names this CPU. */
  predicate Owns(pc: Pc) {
    InSection(pc) && pc != Won && !pc.Unlock?
  }

  /** At most one CPU is in the section. */
  ghost predicate Exclusive(s: State) {
    forall c, d :: 0 <= c < |s.pcs| && 0 <= d < |s.pcs| && InSection(s.pcs[c]) && InSection(s.pcs[d]) ==> c == d
  }

  /** The lock word says whether there is one. */
  ghost predicate LockWord(s: State) {
    (s.lock == 0 || s.lock == 1) && (s.lock == 1 <==> exists c :: 0 <= c < |s.pcs| && InSection(s.pcs[c]))
  }

  /** The owner field names the owner, or nobody. */
  ghost predicate OwnerField(s: State) {
    && (forall c :: 0 <= c < |s.pcs| ==> (s.owner == c <==> Owns(s.pcs[c])))
    && (s.owner == NO_OWNER || s.owner < |s.pcs|)
  }

  /** Only a holder gets past the first check of release. */
  ghost predicate OnlyHoldersRelease(s: State) {
    forall c :: 0 <= c < |s.pcs| ==> s.pcs[c] !in {CheckLock(false), ResetOwner(false), Unlock(false)}
  }

  ghost predicate Inv(s: State) {
    |s.pcs| <= NO_OWNER && Exclusive(s) && LockWord(s) && OwnerField(s) && OnlyHoldersRelease(s)
  }

  lemma InitialSafe(s: State)
    requires Initial(s)
    ensures Inv(s)
  {
  }

  lemma StepMovesOne(s: State, e: Event)
    requires e.cpu < |s.pcs|
    ensures |Step(s, e).pcs| == |s.pcs| && forall d :: 0 <= d < |s.pcs| && d != e.cpu ==> Step(s, e).pcs[d] == s.pcs[d]
  {
  }

  lemma StepKeepsExclusion(s: State, e: Event)
    requires Inv(s) && e.cpu < |s.pcs|
    ensures Exclusive(Step(s, e)) && OnlyHoldersRelease(Step(s, e))
  {
    StepMovesOne(s, e);
    if InSection(s.pcs[e.cpu]) {
      assert s.lock == 1;
    }
  }

  lemma StepKeepsLockWord(s: State, e: Event)
    requires Inv(s) && e.cpu < |s.pcs|
    ensures LockWord(Step(s, e))
  {
    StepMovesOne(s, e);
    var t, c := Step(s, e), e.cpu;
    if s.lock == 1 {
      var d :| 0 <= d < |s.pcs| && InSection(s.pcs[d]);
      assert d != c ==> InSection(t.pcs[d]);
    }
    assert InSection(t.pcs[c]) ==> t.lock == 1;
    forall d | 0 <= d < |t.pcs| && InSection(t.pcs[d]) ensures t.lock == 1 {
      assert d != c ==> InSection(s.pcs[d]);
    }
    assert t.lock == 1 ==> s.lock == 1 || InSection(t.pcs[c]);
  }

  lemma StepKeepsOwnerField(s: State, e: Event)
    requires Inv(s) && e.cpu < |s.pcs|
    ensures OwnerField(Step(s, e))
  {
    StepMovesOne(s, e);
    if InSection(s.pcs[e.cpu]) {
      assert s.lock == 1;
    }
  }

  lemma StepKeepsInv(s: State, e: Event)
    requires Inv(s)
    ensures Inv(Step(s, e))
  {
    if e.cpu < |s.pcs| {
      StepKeepsExclusion(s, e);
      StepKeepsLockWord(s, e);
      StepKeepsOwnerField(s, e);
    }
  }

  /** Mutual exclusion and an honest owner field, in every run of up to 255 CPUs. */
  lemma {:induction false} EveryRunSafe(s: State, run: seq<Event>)
    requires Inv(s)
    ensures Inv(Run(s, run))
    ensures Run(s, run).lock == 0 ==> Run(s, run).owner == NO_OWNER
    decreases |run|
  {
    if run != [] {
      StepKeepsInv(s, run[0]);
      EveryRunSafe(Step(s, run[0]), run[1..]);
    } else if s.owner < |s.pcs| {
      assert Owns(s.pcs[s.owner]);
    }
  }

  /** A holder's release never fails an assertion; anyone else's always fails the first. */
  lemma ReleaseHaltsIffStray(s: State, c: nat)
    requires Inv(s) && c < |s.pcs|
    requires s.pcs[c].CheckOwner? || s.pcs[c].CheckLock? || s.pcs[c].Unlock?
    ensures Step(s, Event(c, Continue)).pcs[c] == Halted <==> s.pcs[c] == CheckOwner(false)
  {
    if s.pcs[c] != CheckOwner(false) {
      assert InSection(s.pcs[c]);
    }
  }

  /** Nobody enters while a CPU is in the section: its exchange can only come back 1. */
  lemma NoEntryWhileHeld(s: State, holder: nat, c: nat)
    requires Inv(s) && holder < |s.pcs| && InSection(s.pcs[holder]) && c < |s.pcs| && s.pcs[c] == Spinning
    ensures Step(s, Event(c, Continue)).pcs[c] == Spinning && Step(s, Event(c, Continue)).lock == s.lock
  {
  }

  /** A spinning CPU wins a free lock with its next exchange, and then names itself the owner. */
  lemma SpinnerWinsFreeLock(s: State, c: nat)
    requires Inv(s) && c < |s.pcs| && s.pcs[c] == Spinning && s.lock == 0
    ensures var t := Run(s, [Event(c, Continue), Event(c, Continue)]);
            t == s.(lock := 1, owner := c, pcs := s.pcs[c := Holding])
  {
    var go := Event(c, Continue);
    First(s, go, [go]);
    First(Step(s, go), go, []);
    assert [go] + [] == [go] && [go] + [go] == [go, go];
    assert s.pcs[c := Won][c := Holding] == s.pcs[c := Holding];
  }

  /** A holder's release runs to its end without stopping, and leaves the lock free, without owner, and the CPU outside. */
  lemma ReleaseFreesLock(s: State, c: nat)
    requires Inv(s) && c < |s.pcs| && s.pcs[c] == Holding
    ensures Run(s, Releasing(c)) == s.(lock := 0, owner := NO_OWNER, pcs := s.pcs[c := Idle])
  {
    var go := Event(c, Continue);
    assert InSection(s.pcs[c]) && Owns(s.pcs[c]);
    var s1 := Step(s, Event(c, Release));
    var s2 := Step(s1, go);
    var s3 := Step(s2, go);
    var s4 := Step(s3, go);
    assert s4 == s.(owner := NO_OWNER, pcs := s.pcs[c := Unlock(true)]);
    First(s, Event(c, Release), [go, go, go, go]);
    First(s1, go, [go, go, go]);
    First(s2, go, [go, go]);
    First(s3, go, [go]);
    First(s4, go, []);
    assert [go] + [] == [go] && [go] + [go] == [go, go] && [go] + [go, go] == [go, go, go];
    assert [go] + [go, go, go] == [go, go, go, go] && [Event(c, Release)] + [go, go, go, go] == Releasing(c);
    assert s.pcs[c := Unlock(true)][c := Idle] == s.pcs[c := Idle];
  }

  /** The steps of spinlock_release_raw on one CPU. */
  function Releasing(c: nat): seq<Event> {
    [Event(c, Release), Event(c, Continue), Event(c, Continue), Event(c, Continue), Event(c, Continue)]
  }

  /** How many steps a holder's release has left. */
  function StepsLeft(pc: Pc): nat {
    match pc
    case CheckOwner(_) => 4
    case CheckLock(_) => 3
    case ResetOwner(_) => 2
    case Unlock(_) => 1
    case _ => 0
  }

  function StepsOf(run: seq<Event>, c: nat): nat {
    if run == [] then 0 else (if run[0].cpu == c then 1 else 0) + StepsOf(run[1..], c)
  }

  /** Whatever the other CPUs do in between, a holder that has entered release is outside after its own steps. */
  lemma {:induction false} ReleaseCompletes(s: State, run: seq<Event>, c: nat)
    requires Inv(s) && c < |s.pcs| && (InSection(s.pcs[c]) || StepsOf(run, c) == 0) && StepsOf(run, c) == StepsLeft(s.pcs[c])
    ensures |Run(s, run).pcs| == |s.pcs| && Run(s, run).pcs[c] == if StepsLeft(s.pcs[c]) == 0 then s.pcs[c] else Idle
    decreases |run|
  {
    if run != [] {
      var e, t := run[0], Step(s, run[0]);
      StepKeepsInv(s, e);
      if e.cpu < |s.pcs| {
        StepMovesOne(s, e);
      }
      if e.cpu == c {
        ReleaseStep(s, e.action, c);
      }
      ReleaseCompletes(t, run[1..], c);
    }
  }

  lemma ReleaseStep(s: State, action: Action, c: nat)
    requires Inv(s) && c < |s.pcs| && InSection(s.pcs[c]) && StepsLeft(s.pcs[c]) > 0
    ensures var t := Step(s, Event(c, action));
            if s.pcs[c].Unlock? then t.pcs[c] == Idle && t.lock == 0 && t.owner == NO_OWNER
            else StepsLeft(t.pcs[c]) == StepsLeft(s.pcs[c]) - 1 && InSection(t.pcs[c])
  {
    assert s.lock == 1;
    if s.pcs[c].Unlock? {
      forall d | 0 <= d < |s.pcs| ensures !Owns(s.pcs[d]) {
        assert InSection(s.pcs[d]) ==> d == c;
      }
      assert s.owner < |s.pcs| ==> Owns(s.pcs[s.owner]);
    }
  }

  /** Hand-over: once the holder has released, any waiting CPU gets the lock with its next two steps. */
  lemma HandOver(s: State, holder: nat, c: nat)
    requires Inv(s) && holder < |s.pcs| && s.pcs[holder] == Holding && c < |s.pcs| && s.pcs[c] == Spinning
    ensures Run(Run(s, Releasing(holder)), [Event(c, Continue), Event(c, Continue)]) ==
            s.(lock := 1, owner := c, pcs := s.pcs[holder := Idle][c := Holding])
  {
    ReleaseFreesLock(s, holder);
    EveryRunSafe(s, Releasing(holder));
    SpinnerWinsFreeLock(Run(s, Releasing(holder)), c);
  }

  /** A CPU outside that asks for the lock starts spinning; one that releases it stray halts. */
  lemma OutsideCalls(s: State, c: nat)
    requires Inv(s) && c < |s.pcs| && s.pcs[c] == Idle
    ensures Step(s, Event(c, Acquire)) == s.(pcs := s.pcs[c := Spinning])
    ensures Run(s, [Event(c, Release), Event(c, Continue)]) == s.(pcs := s.pcs[c := Halted])
  {
    var release, go := Event(c, Release), Event(c, Continue);
    assert !Owns(s.pcs[c]);
    First(s, release, [go]);
    First(Step(s, release), go, []);
    assert [go] + [] == [go] && [release] + [go] == [release, go];
    assert s.pcs[c := CheckOwner(false)][c := Halted] == s.pcs[c := Halted];
  }

  /**
  The bound on ids is needed: a CPU numbered 0xff passes for the owner while the winner of the lock has
  not yet written its own id, and its stray release opens the lock under that winner.
  */
  lemma StrayReleaseByLastId(s: State)
    requires Fresh(s) && NO_OWNER < |s.pcs|
    ensures var go, c := Event(0, Continue), Event(NO_OWNER, Continue);
            var t := Run(s, [Event(0, Acquire), go, Event(NO_OWNER, Release), c, c, c, c]);
            t.lock == 0 && |t.pcs| == |s.pcs| && InSection(t.pcs[0])
  {
    var go, c, release := Event(0, Continue), Event(NO_OWNER, Continue), Event(NO_OWNER, Release);
    var s1 := Step(s, Event(0, Acquire));
    var s2 := Step(s1, go);
    assert s2.lock == 1 && s2.owner == NO_OWNER && s2.pcs[0] == Won && s2.pcs[NO_OWNER] == Idle;
    var s3 := Step(s2, release);
    var s4 := Step(s3, c);
    var s5 := Step(s4, c);
    var s6 := Step(s5, c);
    assert s6.lock == 1 && s6.pcs[0] == Won && s6.pcs[NO_OWNER] == Unlock(false);
    var s7 := Step(s6, c);
    First(s, Event(0, Acquire), [go, release, c, c, c, c]);
    First(s1, go, [release, c, c, c, c]);
    First(s2, release, [c, c, c, c]);
    First(s3, c, [c, c, c]);
    First(s4, c, [c, c]);
    First(s5, c, [c]);
    First(s6, c, []);
    assert [c] + [] == [c] && [c] + [c] == [c, c] && [c] + [c, c] == [c, c, c] && [c] + [c, c, c] == [c, c, c, c];
    assert [release] + [c, c, c, c] == [release, c, c, c, c] && [go] + [release, c, c, c, c] == [go, release, c, c, c, c];
    assert [Event(0, Acquire)] + [go, release, c, c, c, c] == [Event(0, Acquire), go, release, c, c, c, c];
  }

  /** A run is its first event and then the rest. */
  lemma First(s: State, e: Event, rest: seq<Event>)
    ensures Run(s, [e] + rest) == Run(Step(s, e), rest)
  {
    assert ([e] + rest)[1..] == rest;
  }
}

// Scoped stubs on the process-wide handler registry (src/core/bus_testing.rs):
// one lock, one guard a stub, and the order in which a guard lets go.
module BusGuard {
  import opened Prelude

  datatype Handler = Production(name: string) | Stub(session: nat)

  type Registry = map<string, Handler>

  /** A restore closure re-registers the production handlers of some methods. */
  function AfterRestore(handlers: Registry, restores: set<string>): Registry {
    handlers + map m | m in restores :: Production(m)
  }

  // ------------------------------------------------------------------
  // The registry, the lock and the guard
  // ------------------------------------------------------------------

  /** What happened to the lock and the registry, in order. */
  datatype Event =
    | LockTaken(session: nat)
    | StubRegistered(session: nat)
    | ClosureRan(session: nat)
    | LockReleased(session: nat)

  class NativeBus {
    var handlers: Registry
    var lockedBy: Option<nat>
    ghost var history: seq<Event>

    constructor (production: set<string>)
      ensures handlers == map m | m in production :: Production(m)
      ensures lockedBy.None? && history == []
    {
      handlers := map m | m in production :: Production(m);
      lockedBy, history := None, [];
    }
  }

  class MockBusGuard {
    const bus: NativeBus
    const session: nat
    var restore: Option<set<string>>

    constructor (bus: NativeBus, session: nat, restores: set<string>)
      ensures this.bus == bus && this.session == session && restore == Some(restores)
    {
      this.bus, this.session := bus, session;
      restore := Some(restores);
    }

    /** Runs the closure, once, and only while this guard still holds the lock. */
    method TakeAndRunRestore()
      requires bus.lockedBy == Some(session)
      modifies this, bus`handlers, bus`history
      ensures restore.None?
      ensures bus.handlers ==
        if old(restore).Some? then AfterRestore(old(bus.handlers), old(restore).value) else old(bus.handlers)
      ensures bus.history == old(bus.history) + if old(restore).Some? then [ClosureRan(session)] else []
    {
      var taken := restore;
      restore := None;
      if taken.Some? {
        bus.history := bus.history + [ClosureRan(session)];
        bus.handlers := bus.handlers + map m | m in taken.value :: Production(m);
      }
    }

    /** Dropping the guard: the drop body first, the lock field after it. */
    method Drop()
      requires bus.lockedBy == Some(session)
      modifies this, bus
      ensures restore.None? && bus.lockedBy.None?
      ensures bus.handlers ==
        if old(restore).Some? then AfterRestore(old(bus.handlers), old(restore).value) else old(bus.handlers)
      ensures bus.history == old(bus.history)
        + (if old(restore).Some? then [ClosureRan(session)] else []) + [LockReleased(session)]
    {
      TakeAndRunRestore();
      bus.lockedBy, bus.history := None, bus.history + [LockReleased(session)];
    }
  }

  /** Once the lock is granted: register the stub, then hand out the guard. */
  method MockBusStub(bus: NativeBus, session: nat, name: string, restores: set<string>) returns (guard: MockBusGuard)
    requires bus.lockedBy.None?
    modifies bus
    ensures fresh(guard) && guard.bus == bus && guard.session == session && guard.restore == Some(restores)
    ensures bus.lockedBy == Some(session) && bus.handlers == old(bus.handlers)[name := Stub(session)]
    ensures bus.history == old(bus.history) + [LockTaken(session), StubRegistered(session)]
  {
    bus.lockedBy := Some(session);
    bus.handlers := bus.handlers[name := Stub(session)];
    bus.history := bus.history + [LockTaken(session), StubRegistered(session)];
    guard := new MockBusGuard(bus, session, restores);
  }

  /** A whole scope leaves no trace when its closure restores its own method. */
  method StubScope(bus: NativeBus, session: nat, name: string, restores: set<string>)
    requires bus.lockedBy.None? && name in restores
    requires forall m | m in bus.handlers :: bus.handlers[m] == Production(m)
    modifies bus
    ensures bus.lockedBy.None? && bus.handlers.Keys == old(bus.handlers).Keys + restores
    ensures forall m | m in bus.handlers :: bus.handlers[m] == Production(m)
    ensures bus.history == old(bus.history)
      + [LockTaken(session), StubRegistered(session), ClosureRan(session), LockReleased(session)]
  {
    var guard := MockBusStub(bus, session, name, restores);
    assert bus.handlers[name] == Stub(session);
    guard.Drop();
  }

  // ------------------------------------------------------------------
  // All interleavings
  // ------------------------------------------------------------------

  /**
   * What a caller wants the lock for: a stub with a restore closure, which may
   * or may not be able to panic part way, or real handlers registered up front.
   */
  datatype Kind =
    | StubKind(name: string, restores: set<string>, mayPanic: bool)
    | RealKind(registers: set<string>)

  datatype Phase = Waiting | Locked | Live | Restored | Unlocked | Done | Cancelled

  datatype Session = Session(kind: Kind, phase: Phase, restoreRuns: nat)

  datatype State = State(handlers: Registry, lock: Option<nat>, sessions: map<nat, Session>)

  /**
   * The kinds of session callers may open, the methods with production handlers
   * at start, and whether guards restore before they unlock, as the drop body
   * does, or after.
   */
  datatype System = System(kinds: set<Kind>, initial: set<string>, restoreFirst: bool)

  /**
   * A guard goes out of scope normally or by unwinding; its drop body is the
   * same. A panic while registering gives the lock up with nothing registered; a
   * panic in the closure leaves the methods in `done` re-registered, and the
   * unwinding goes on to the lock.
   */
  datatype Step =
    | Request(id: nat, kind: Kind)
    | Cancel(id: nat)
    | Acquire(id: nat)
    | Install(id: nat)
    | InstallPanics(id: nat)
    | RunRestore(id: nat)
    | RestorePanics(id: nat, done: set<string>)
    | Unlock(id: nat)

  function Init(sys: System): State {
    State(map m | m in sys.initial :: Production(m), None, map[])
  }

  predicate In(s: State, id: nat, phase: Phase) {
    id in s.sessions && s.sessions[id].phase == phase
  }

  predicate Restorable(sys: System, s: State, id: nat) {
    (if sys.restoreFirst then In(s, id, Live) else In(s, id, Unlocked)) && s.sessions[id].kind.StubKind?
  }

  predicate Enabled(sys: System, s: State, step: Step) {
    match step
    case Request(id, kind) => id !in s.sessions && kind in sys.kinds
    case Cancel(id) => In(s, id, Waiting)
    case Acquire(id) => In(s, id, Waiting) && s.lock.None?
    case Install(id) => In(s, id, Locked)
    case InstallPanics(id) => In(s, id, Locked)
    case RunRestore(id) => Restorable(sys, s, id)
    case RestorePanics(id, done) =>
      && Restorable(sys, s, id)
      && s.sessions[id].kind.mayPanic && done <= s.sessions[id].kind.restores
    case Unlock(id) =>
      if sys.restoreFirst then In(s, id, Restored) || (In(s, id, Live) && s.sessions[id].kind.RealKind?)
      else In(s, id, Live)
  }

  function Installed(handlers: Registry, id: nat, kind: Kind): Registry {
    match kind
    case StubKind(name, _, _) => handlers[name := Stub(id)]
    case RealKind(registers) => AfterRestore(handlers, registers)
  }

  /** The closure of a session is used up, having re-registered the methods in `done`. */
  function Ran(sys: System, s: State, id: nat, done: set<string>): State
    requires Restorable(sys, s, id)
  {
    var session := s.sessions[id];
    s.(handlers := AfterRestore(s.handlers, done),
       sessions := s.sessions[id := session.(phase := if sys.restoreFirst then Restored else Done,
                                             restoreRuns := session.restoreRuns + 1)])
  }

  function Apply(sys: System, s: State, step: Step): State
    requires Enabled(sys, s, step)
  {
    match step
    case Request(id, kind) => s.(sessions := s.sessions[id := Session(kind, Waiting, 0)])
    case Cancel(id) => s.(sessions := s.sessions[id := s.sessions[id].(phase := Cancelled)])
    case Acquire(id) => s.(lock := Some(id), sessions := s.sessions[id := s.sessions[id].(phase := Locked)])
    case Install(id) =>
      s.(handlers := Installed(s.handlers, id, s.sessions[id].kind),
         sessions := s.sessions[id := s.sessions[id].(phase := Live)])
    case InstallPanics(id) => s.(lock := None, sessions := s.sessions[id := s.sessions[id].(phase := Cancelled)])
    case RunRestore(id) => Ran(sys, s, id, s.sessions[id].kind.restores)
    case RestorePanics(id, done) => Ran(sys, s, id, done)
    case Unlock(id) =>
      var session := s.sessions[id];
      s.(lock := None,
         sessions := s.sessions[id := session.(
           phase := if sys.restoreFirst || session.kind.RealKind? then Done else Unlocked)])
  }

  ghost predicate Next(sys: System, s: State, s': State) {
    exists step :: Enabled(sys, s, step) && s' == Apply(sys, s, step)
  }

  ghost predicate IsRun(sys: System, run: seq<State>) {
    && run != [] && run[0] == Init(sys)
    && forall i | 0 < i < |run| :: Next(sys, run[i - 1], run[i])
  }

  predicate Holding(phase: Phase) {
    phase == Locked || phase == Live || phase == Restored
  }

  /** The closure passed with a stub puts the stubbed method back, and gets that far. */
  predicate Honest(kind: Kind) {
    kind.StubKind? ==> kind.name in kind.restores && !kind.mayPanic
  }

  ghost predicate AllHonest(sys: System) {
    forall k | k in sys.kinds :: Honest(k)
  }

  /** Session `id` holds a live stub for method `m`. */
  predicate Stubs(s: State, id: nat, m: string) {
    In(s, id, Live) && s.sessions[id].kind.StubKind? && s.sessions[id].kind.name == m
  }

  /** Session `id` is over with its stub for `m`, and its closure was not to be relied on. */
  predicate LeftBehind(s: State, id: nat, m: string) {
    && id in s.sessions && s.sessions[id].phase in {Restored, Done}
    && s.sessions[id].kind.StubKind? && s.sessions[id].kind.name == m && !Honest(s.sessions[id].kind)
  }

  /** Every registered method has its production handler. */
  ghost predicate AllProduction(s: State) {
    forall m | m in s.handlers :: s.handlers[m] == Production(m)
  }

  /** A registered method has its production handler, its live stub, or one some bad closure left. */
  predicate Accounted(s: State, m: string)
    requires m in s.handlers
  {
    match s.handlers[m]
    case Production(name) => name == m
    case Stub(id) => Stubs(s, id, m) || LeftBehind(s, id, m)
  }

  ghost predicate StubbedRegistered(s: State) {
    forall id | id in s.sessions && s.sessions[id].kind.StubKind? && s.sessions[id].phase in {Live, Restored, Done} ::
      s.sessions[id].kind.name in s.handlers
  }

  ghost predicate LiveResolves(s: State) {
    forall id: nat, m | Stubs(s, id, m) :: m in s.handlers && s.handlers[m] == Stub(id)
  }

  ghost predicate ClosuresRunOnce(s: State) {
    forall id | id in s.sessions :: s.sessions[id].restoreRuns ==
      if s.sessions[id].kind.StubKind? && s.sessions[id].phase in {Restored, Done} then 1 else 0
  }

  ghost predicate Inv(sys: System, s: State) {
    && (forall id | id in s.sessions :: s.sessions[id].kind in sys.kinds && s.sessions[id].phase != Unlocked)
    && (forall id | id in s.sessions :: Holding(s.sessions[id].phase) <==> s.lock == Some(id))
    && (s.lock.Some? ==> s.lock.value in s.sessions)
    && (forall m | m in s.handlers :: Accounted(s, m))
    && LiveResolves(s) && StubbedRegistered(s) && ClosuresRunOnce(s)
  }

  lemma InstallKeepsInv(sys: System, s: State, id: nat)
    requires sys.restoreFirst && Inv(sys, s) && Enabled(sys, s, Install(id))
    ensures Inv(sys, Apply(sys, s, Install(id)))
  {
    assert s.lock == Some(id);
    var s' := Apply(sys, s, Install(id));
    forall m | m in s'.handlers ensures Accounted(s', m) {
      if m in s.handlers && s'.handlers[m] == s.handlers[m] {
        assert Accounted(s, m);
      }
    }
  }

  /** Running the closure, whole or in part: unless it is whole, it was not honest. */
  lemma RestoreKeepsInv(sys: System, s: State, id: nat, done: set<string>)
    requires sys.restoreFirst && Inv(sys, s) && Restorable(sys, s, id)
    requires Honest(s.sessions[id].kind) ==> done == s.sessions[id].kind.restores
    ensures Inv(sys, Ran(sys, s, id, done))
  {
    assert s.lock == Some(id);
    var s' := Ran(sys, s, id, done);
    forall m | m in s'.handlers ensures Accounted(s', m) {
      if m !in done {
        assert Accounted(s, m);
      }
    }
  }

  /** The lock is given up by a session with no live stub. */
  lemma ReleaseKeepsInv(sys: System, s: State, id: nat, step: Step)
    requires sys.restoreFirst && Inv(sys, s) && Enabled(sys, s, step) && step in {Unlock(id), InstallPanics(id)}
    ensures Inv(sys, Apply(sys, s, step))
  {
    assert s.lock == Some(id);
    var s' := Apply(sys, s, step);
    forall m | m in s'.handlers ensures Accounted(s', m) {
      assert Accounted(s, m);
    }
  }

  /** Asking for the lock, giving up the wait, and getting it touch no handler. */
  lemma WaitKeepsInv(sys: System, s: State, step: Step)
    requires sys.restoreFirst && Inv(sys, s) && Enabled(sys, s, step)
    requires step.Request? || step.Cancel? || step.Acquire?
    ensures Inv(sys, Apply(sys, s, step))
  {
    var s' := Apply(sys, s, step);
    forall m | m in s'.handlers ensures Accounted(s', m) {
      assert Accounted(s, m);
    }
    assert forall id: nat, m :: Stubs(s', id, m) <==> Stubs(s, id, m);
  }

  lemma NextKeepsInv(sys: System, s: State, step: Step)
    requires sys.restoreFirst && Inv(sys, s) && Enabled(sys, s, step)
    ensures Inv(sys, Apply(sys, s, step))
  {
    hide Inv;
    match step
    case Install(id) => InstallKeepsInv(sys, s, id);
    case RunRestore(id) => RestoreKeepsInv(sys, s, id, s.sessions[id].kind.restores);
    case RestorePanics(id, done) => RestoreKeepsInv(sys, s, id, done);
    case Unlock(id) => ReleaseKeepsInv(sys, s, id, step);
    case InstallPanics(id) => ReleaseKeepsInv(sys, s, id, step);
    case _ => WaitKeepsInv(sys, s, step);
  }

  lemma {:induction false} RunsKeepInv(sys: System, run: seq<State>, i: nat)
    requires sys.restoreFirst && IsRun(sys, run) && i < |run|
    ensures Inv(sys, run[i])
  {
    if i == 0 {
    } else {
      RunsKeepInv(sys, run, i - 1);
      assert Next(sys, run[i - 1], run[i]);
      var step :| Enabled(sys, run[i - 1], step) && run[i] == Apply(sys, run[i - 1], step);
      NextKeepsInv(sys, run[i - 1], step);
    }
  }

  /**
   * In every interleaving, panics and cancellations included: at most one stub
   * is live and its method resolves to it; a closure has run once when its
   * session is over and never before its guard is dropped; every method ever
   * stubbed stays registered; and whenever the lock is free, the only handlers
   * that are not production ones are stubs whose own closure was not honest.
   */
  lemma GuardsAreSafe(sys: System, run: seq<State>, i: nat)
    requires sys.restoreFirst && IsRun(sys, run) && i < |run|
    ensures var s := run[i];
      && (forall a, b | In(s, a, Live) && In(s, b, Live) :: a == b)
      && LiveResolves(s) && ClosuresRunOnce(s) && StubbedRegistered(s)
      && (s.lock.None? ==> forall m | m in s.handlers ::
            s.handlers[m] == Production(m) || (s.handlers[m].Stub? && LeftBehind(s, s.handlers[m].session, m)))
  {
    RunsKeepInv(sys, run, i);
    var s := run[i];
    forall m | m in s.handlers && s.lock.None?
      ensures s.handlers[m] == Production(m) || (s.handlers[m].Stub? && LeftBehind(s, s.handlers[m].session, m))
    {
      assert Accounted(s, m);
    }
  }

  function Last(run: seq<State>): State
    requires run != []
  {
    run[|run| - 1]
  }

  /** A run goes on with any enabled step. */
  lemma Extend(sys: System, run: seq<State>, step: Step) returns (longer: seq<State>)
    requires IsRun(sys, run) && Enabled(sys, Last(run), step)
    ensures IsRun(sys, longer) && Last(longer) == Apply(sys, Last(run), step)
  {
    longer := run + [Apply(sys, Last(run), step)];
    forall i | 0 < i < |longer| ensures Next(sys, longer[i - 1], longer[i]) {
      if i < |run| {
        assert Next(sys, run[i - 1], run[i]);
      } else {
        assert Enabled(sys, longer[i - 1], step);
      }
    }
  }

  /** One session from start to end, its closure running whole or stopping at once. */
  lemma SoloRun(sys: System, kind: Kind, panics: bool) returns (run: seq<State>)
    requires sys.restoreFirst && kind in sys.kinds && kind.StubKind? && (panics ==> kind.mayPanic)
    ensures IsRun(sys, run) && Last(run).lock.None?
    ensures Last(run).handlers ==
      AfterRestore(Init(sys).handlers[kind.name := Stub(0)], if panics then {} else kind.restores)
  {
    run := [Init(sys)];
    run := Extend(sys, run, Request(0, kind));
    run := Extend(sys, run, Acquire(0));
    run := Extend(sys, run, Install(0));
    run := Extend(sys, run, if panics then RestorePanics(0, {}) else RunRestore(0));
    run := Extend(sys, run, Unlock(0));
  }

  /**
   * A free lock means a clean registry in every run exactly when every caller's
   * closure restores the method it stubs and cannot panic.
   */
  lemma CleanWhenFreeIff(sys: System)
    requires sys.restoreFirst
    ensures AllHonest(sys) <==>
      forall run: seq<State>, i | IsRun(sys, run) && 0 <= i < |run| && run[i].lock.None? :: AllProduction(run[i])
  {
    if AllHonest(sys) {
      forall run: seq<State>, i | IsRun(sys, run) && 0 <= i < |run| && run[i].lock.None? ensures AllProduction(run[i]) {
        GuardsAreSafe(sys, run, i);
        RunsKeepInv(sys, run, i);
      }
    } else {
      var kind :| kind in sys.kinds && !Honest(kind);
      var run := SoloRun(sys, kind, kind.mayPanic);
      var last := Last(run);
      assert kind.name in last.handlers && last.handlers[kind.name] == Stub(0);
      assert !AllProduction(last);
    }
  }

  /**
   * Unlocking before restoring would break this even with honest closures: the
   * next stub goes live, and the late restore takes it away.
   */
  lemma UnlockFirstIsUnsafe(name: string) returns (sys: System, run: seq<State>, id: nat)
    ensures AllHonest(sys) && !sys.restoreFirst && IsRun(sys, run)
    ensures var s := Last(run);
      Stubs(s, id, name) && s.lock == Some(id) && name in s.handlers && s.handlers[name] == Production(name)
  {
    var kind := StubKind(name, {name}, false);
    sys, id := System({kind}, {name}, false), 1;
    run := [Init(sys)];
    run := Extend(sys, run, Request(0, kind));
    run := Extend(sys, run, Request(1, kind));
    run := Extend(sys, run, Acquire(0));
    run := Extend(sys, run, Install(0));
    run := Extend(sys, run, Unlock(0));
    run := Extend(sys, run, Acquire(1));
    run := Extend(sys, run, Install(1));
    run := Extend(sys, run, RunRestore(0));
  }
}

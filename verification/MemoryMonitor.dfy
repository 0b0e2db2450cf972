/** The load-linked/store-conditional monitor as a state machine. A move is one atomic
    step of one thread, so a sequence of moves is an interleaving of the threads' calls. */
module MemoryMonitor {
  import opened Addresses
  import opened Common

  type Thread = int

  datatype Call =
    | Lock
    | Unlock
    | AcquireMonitor(addr: Address)
    | LockMonitor(addr: Address)
    | UnlockMonitor(addr: Address)
    | Notify(addr: Address)

  /** Where a thread stands inside a call. */
  datatype Pc =
    | Idle
    | Comparing(call: Call) // in Lock, about to read locked_thread_ without the mutex
    | Waiting(call: Call) // in Lock, about to take the mutex
    | Storing(call: Call) // in Lock, about to store locked_thread_
    | Inside(call: Call) // past Lock
    | Leaving(call: Call) // in Unlock, about to read locked_thread_
    | Clearing(call: Call) // in Unlock, about to clear locked_thread_
    | Releasing(call: Call) // in Unlock, about to release the mutex
    | Returning(call: Call) // past Unlock

  /** What happened to the monitors, oldest first. */
  datatype Event =
    | Took(thread: Thread, addr: Address)
    | Began(thread: Thread, addr: Address) // Notify has been called
    | Dropped(thread: Thread, addr: Address) // Notify has removed the other threads' monitors
    | Returned(thread: Thread, addr: Address) // Notify has returned
    | Checked(thread: Thread, addr: Address, ok: bool) // LockMonitor has decided

  /** A call that has returned; LockMonitor's result, true for the others. */
  datatype Result = Result(call: Call, ok: bool)

  datatype State = State(
    mutex: Option<Thread>,
    lockedThread: Option<Thread>,
    monitors: map<Thread, Address>,
    pcs: map<Thread, Pc>,
    results: map<Thread, Result>,
    history: seq<Event>)

  datatype Move = Move(thread: Thread, call: Call)

  const INITIAL := State(None, None, map[], map[], map[], [])

  function PcOf(s: State, t: Thread): (pc: Pc) {
    if t in s.pcs then s.pcs[t] else Idle
  }

  function At(s: State, t: Thread, pc: Pc): (r: State) {
    s.(pcs := s.pcs[t := pc])
  }

  /** The call returns. */
  function Finish(s: State, t: Thread, call: Call, ok: bool): (r: State) {
    At(s.(results := s.results[t := Result(call, ok)]), t, Idle)
  }

  function Log(s: State, e: Event): (r: State) {
    s.(history := s.history + [e])
  }

  /** What is left of the monitors after thread t reports a write to addr. */
  function Remaining(monitors: map<Thread, Address>, t: Thread, addr: Address): (r: map<Thread, Address>) {
    map u | u in monitors && (u == t || monitors[u] != addr) :: monitors[u]
  }

  /** The body of a call, once past Lock. */
  function Body(s: State, t: Thread, call: Call): (r: State) {
    match call
    case AcquireMonitor(addr) =>
      At(Log(s.(monitors := s.monitors[t := addr]), Took(t, addr)), t, Leaving(call))
    case LockMonitor(addr) =>
      if t in s.monitors && s.monitors[t] == addr then Finish(Log(s, Checked(t, addr, true)), t, call, true)
      else At(Log(s, Checked(t, addr, false)), t, Leaving(call))
    case Notify(addr) =>
      At(Log(s.(monitors := Remaining(s.monitors, t, addr)), Dropped(t, addr)), t, Leaving(call))
    case _ => Finish(s, t, call, true)
  }

  function Start(s: State, t: Thread, call: Call): (r: State) {
    match call
    case Unlock => At(s, t, Leaving(call))
    case UnlockMonitor(_) => At(s, t, Leaving(call))
    case Notify(addr) => At(Log(s, Began(t, addr)), t, Comparing(call))
    case _ => At(s, t, Comparing(call))
  }

  function Return(s: State, t: Thread, call: Call): (r: State) {
    match call
    case Notify(addr) => Finish(Log(s, Returned(t, addr)), t, call, true)
    case _ => Finish(s, t, call, !call.LockMonitor?)
  }

  /** One step of a thread. An idle thread starts the call; a thread waiting for a taken
      mutex stays where it is. */
  function Step(s: State, m: Move): (r: State) {
    var t := m.thread;
    match PcOf(s, t)
    case Idle => Start(s, t, m.call)
    case Comparing(call) => At(s, t, if s.lockedThread == Some(t) then Inside(call) else Waiting(call))
    case Waiting(call) => if s.mutex.None? then At(s.(mutex := Some(t)), t, Storing(call)) else s
    case Storing(call) => At(s.(lockedThread := Some(t)), t, Inside(call))
    case Inside(call) => Body(s, t, call)
    case Leaving(call) => At(s, t, if s.lockedThread == Some(t) then Clearing(call) else Returning(call))
    case Clearing(call) => At(s.(lockedThread := None), t, Releasing(call))
    case Releasing(call) => At(s.(mutex := None), t, Returning(call))
    case Returning(call) => Return(s, t, call)
  }

  function Run(moves: seq<Move>): (s: State) {
    if moves == [] then INITIAL else Step(Run(moves[..|moves| - 1]), moves[|moves| - 1])
  }

  // ----- What every step keeps -----

  /** What a thread's position says about the lock. */
  ghost predicate Placed(s: State, t: Thread) {
    match PcOf(s, t)
    case Idle => (s.mutex == Some(t) <==> s.lockedThread == Some(t)) && (s.mutex == Some(t) <==> KeptLock(s, t))
    case Comparing(call) => Locks(call) && (s.mutex == Some(t) ==> s.lockedThread == Some(t))
    case Waiting(call) => Locks(call) && s.mutex != Some(t)
    case Storing(call) => Locks(call) && s.mutex == Some(t) && s.lockedThread == None
    case Inside(call) => Locks(call) && s.lockedThread == Some(t)
    case Leaving(call) => !call.Lock? && (s.mutex == Some(t) ==> s.lockedThread == Some(t))
    case Clearing(call) => !call.Lock? && s.lockedThread == Some(t)
    case Releasing(call) => !call.Lock? && s.mutex == Some(t) && s.lockedThread == None
    case Returning(call) => !call.Lock? && s.mutex != Some(t)
  }

  ghost predicate Locks(call: Call) {
    !call.Unlock? && !call.UnlockMonitor?
  }

  /** The thread's latest call was one that returns with the lock. */
  ghost predicate KeptLock(s: State, t: Thread) {
    t in s.results && (s.results[t].call.Lock? || (s.results[t].call.LockMonitor? && s.results[t].ok))
  }

  /** Nobody is in locked_thread_ without the mutex, and everybody stands accordingly. */
  ghost predicate LockInvariant(s: State) {
    LockFields(s) && forall t: Thread :: Placed(s, t)
  }

  /** The address thread t has a monitor on, according to what happened so far. */
  ghost function Armed(h: seq<Event>, t: Thread): (a: Option<Address>) {
    if h == [] then None else
      var before := Armed(h[..|h| - 1], t);
      match h[|h| - 1]
      case Took(u, addr) => if u == t then Some(addr) else before
      case Dropped(u, addr) => if u != t && before == Some(addr) then None else before
      case _ => before
  }

  ghost function MonitorOf(s: State, t: Thread): (a: Option<Address>) {
    if t in s.monitors then Some(s.monitors[t]) else None
  }

  ghost predicate MonitorInvariant(s: State) {
    && (forall t: Thread :: MonitorOf(s, t) == Armed(s.history, t))
    && forall i :: 0 <= i < |s.history| ==> CheckRight(s.history, i)
  }

  /** A decision of LockMonitor agrees with what happened before it. */
  ghost predicate CheckRight(h: seq<Event>, i: nat)
    requires i < |h|
  {
    h[i].Checked? ==> (h[i].ok <==> Armed(h[..i], h[i].thread) == Some(h[i].addr))
  }

  ghost predicate LockFields(s: State) {
    && (forall t: Thread :: s.lockedThread == Some(t) ==> s.mutex == Some(t))
    && (s.mutex.None? ==> s.lockedThread.None?)
  }

  lemma MoverPlaced(s: State, m: Move)
    requires LockFields(s) && Placed(s, m.thread)
    ensures LockFields(Step(s, m)) && Placed(Step(s, m), m.thread)
  {
    match PcOf(s, m.thread) {
      case Idle => hide Body, Return;
      case Inside(call) => hide Start, Return;
      case Returning(call) => hide Start, Body;
      case _ => hide Start, Body, Return;
    }
  }

  /** A step leaves the other threads where they are. */
  lemma StepFrame(s: State, m: Move, t: Thread)
    requires t != m.thread
    ensures PcOf(Step(s, m), t) == PcOf(s, t) && KeptLock(Step(s, m), t) == KeptLock(s, t)
  {
    hide Start, Body, Return, KeptLock;
    match PcOf(s, m.thread) {
      case Idle => StartFrame(s, m.thread, m.call, t);
      case Inside(call) => BodyFrame(s, m.thread, call, t);
      case Returning(call) => ReturnFrame(s, m.thread, call, t);
      case _ => ResultsFrame(s, Step(s, m), t);
    }
  }

  lemma ResultsFrame(s: State, s': State, t: Thread)
    requires s'.results == s.results
    ensures KeptLock(s', t) == KeptLock(s, t)
  {
  }

  lemma StartFrame(s: State, u: Thread, call: Call, t: Thread)
    requires t != u
    ensures PcOf(Start(s, u, call), t) == PcOf(s, t) && KeptLock(Start(s, u, call), t) == KeptLock(s, t)
  {
  }

  lemma BodyFrame(s: State, u: Thread, call: Call, t: Thread)
    requires t != u
    ensures PcOf(Body(s, u, call), t) == PcOf(s, t) && KeptLock(Body(s, u, call), t) == KeptLock(s, t)
  {
  }

  lemma ReturnFrame(s: State, u: Thread, call: Call, t: Thread)
    requires t != u
    ensures PcOf(Return(s, u, call), t) == PcOf(s, t) && KeptLock(Return(s, u, call), t) == KeptLock(s, t)
  {
  }

  lemma StepLock(s: State, m: Move)
    ensures LockChange(s, Step(s, m), m)
  {
  }

  /** The lock changes hands only by taking, storing, clearing and releasing. */
  ghost predicate LockChange(s: State, s': State, m: Move) {
    var pc := PcOf(s, m.thread);
    && (s'.mutex == if pc.Waiting? && s.mutex.None? then Some(m.thread) else if pc.Releasing? then None else s.mutex)
    && (s'.lockedThread == if pc.Storing? then Some(m.thread) else if pc.Clearing? then None else s.lockedThread)
  }

  lemma OtherPlaced(s: State, m: Move, t: Thread)
    requires LockFields(s) && Placed(s, m.thread) && Placed(s, t) && t != m.thread
    ensures Placed(Step(s, m), t)
  {
    StepFrame(s, m, t);
    StepLock(s, m);
    hide Step, KeptLock;
    var s' := Step(s, m);
    assert s.mutex == Some(t) <==> s'.mutex == Some(t);
    assert s.mutex == Some(t) ==> s'.lockedThread == s.lockedThread;
  }

  lemma StepKeepsLock(s: State, m: Move)
    requires LockInvariant(s)
    ensures LockInvariant(Step(s, m))
  {
    hide Step, Placed;
    MoverPlaced(s, m);
    forall t: Thread ensures Placed(Step(s, m), t) {
      if t != m.thread {
        OtherPlaced(s, m, t);
      }
    }
  }

  lemma LogKeeps(s: State, s': State, e: Event)
    requires MonitorInvariant(s) && s'.history == s.history + [e]
    requires forall t: Thread :: MonitorOf(s', t) == Armed(s'.history, t)
    requires e.Checked? ==> (e.ok <==> MonitorOf(s, e.thread) == Some(e.addr))
    ensures MonitorInvariant(s')
  {
    var h, h' := s.history, s'.history;
    forall i: nat | i < |h'| ensures CheckRight(h', i) {
      if i < |h| {
        assert h'[..i] == h[..i] && h'[i] == h[i];
        assert CheckRight(h, i);
      } else {
        assert h'[..i] == h;
      }
    }
  }

  lemma BodyKeepsMonitors(s: State, t: Thread, call: Call)
    requires MonitorInvariant(s)
    ensures MonitorInvariant(Body(s, t, call))
  {
    hide Armed, CheckRight;
    var s' := Body(s, t, call);
    if s'.history != s.history {
      forall u: Thread ensures MonitorOf(s', u) == Armed(s'.history, u) {
        assert MonitorOf(s, u) == Armed(s.history, u);
        BodyArmed(s, t, call, u);
      }
      LogKeeps(s, s', s'.history[|s.history|]);
    } else {
      SameMonitors(s, s');
    }
  }

  lemma BodyArmed(s: State, t: Thread, call: Call, u: Thread)
    requires MonitorOf(s, u) == Armed(s.history, u)
    ensures MonitorOf(Body(s, t, call), u) == Armed(Body(s, t, call).history, u)
  {
    var h := Body(s, t, call).history;
    assert h == s.history || h[..|h| - 1] == s.history;
  }

  lemma SameMonitors(s: State, s': State)
    requires MonitorInvariant(s) && s'.history == s.history && s'.monitors == s.monitors
    ensures MonitorInvariant(s')
  {
    forall t: Thread ensures MonitorOf(s', t) == Armed(s'.history, t) {
      assert MonitorOf(s, t) == Armed(s.history, t);
    }
  }

  lemma OtherEventKeepsMonitors(s: State, s': State, e: Event)
    requires MonitorInvariant(s) && s'.monitors == s.monitors && s'.history == s.history + [e]
    requires e.Began? || e.Returned?
    ensures MonitorInvariant(s')
  {
    assert s'.history[..|s'.history| - 1] == s.history;
    forall u: Thread ensures MonitorOf(s', u) == Armed(s'.history, u) {
      assert MonitorOf(s, u) == Armed(s.history, u);
    }
    LogKeeps(s, s', e);
  }

  lemma StepKeepsMonitors(s: State, m: Move)
    requires MonitorInvariant(s)
    ensures MonitorInvariant(Step(s, m))
  {
    hide MonitorInvariant;
    var t := m.thread;
    match PcOf(s, t) {
      case Idle =>
        if m.call.Notify? {
          OtherEventKeepsMonitors(s, Step(s, m), Began(t, m.call.addr));
        } else {
          SameMonitors(s, Step(s, m));
        }
      case Inside(call) => BodyKeepsMonitors(s, t, call);
      case Returning(call) =>
        if call.Notify? {
          OtherEventKeepsMonitors(s, Step(s, m), Returned(t, call.addr));
        } else {
          SameMonitors(s, Step(s, m));
        }
      case _ => SameMonitors(s, Step(s, m));
    }
  }

  /** The last thing that happened to a Notify of thread t. */
  ghost function Phase(h: seq<Event>, t: Thread): (e: Option<Event>) {
    if h == [] then None else
      var e := h[|h| - 1];
      if e.thread == t && (e.Began? || e.Dropped? || e.Returned?) then Some(e) else Phase(h[..|h| - 1], t)
  }

  /** How far a Notify under way has come, by the thread's position. */
  ghost function Due(pc: Pc, t: Thread): (e: Option<Event>) {
    if pc.Idle? || !pc.call.Notify? then None
    else if pc.Comparing? || pc.Waiting? || pc.Storing? || pc.Inside? then Some(Began(t, pc.call.addr))
    else Some(Dropped(t, pc.call.addr))
  }

  ghost predicate Phased(s: State, t: Thread) {
    Due(PcOf(s, t), t).Some? ==> Phase(s.history, t) == Due(PcOf(s, t), t)
  }

  ghost predicate ReturnRight(h: seq<Event>, i: nat)
    requires i < |h|
  {
    h[i].Returned? ==> Phase(h[..i], h[i].thread) == Some(Dropped(h[i].thread, h[i].addr))
  }

  ghost predicate NotifyInvariant(s: State) {
    (forall t: Thread :: Phased(s, t)) && forall i :: 0 <= i < |s.history| ==> ReturnRight(s.history, i)
  }

  /** The event that a step writes, if any. */
  ghost function EventOf(s: State, m: Move): (e: Option<Event>) {
    var t := m.thread;
    match PcOf(s, t)
    case Idle => if m.call.Notify? then Some(Began(t, m.call.addr)) else None
    case Inside(AcquireMonitor(addr)) => Some(Took(t, addr))
    case Inside(LockMonitor(addr)) => Some(Checked(t, addr, t in s.monitors && s.monitors[t] == addr))
    case Inside(Notify(addr)) => Some(Dropped(t, addr))
    case Returning(Notify(addr)) => Some(Returned(t, addr))
    case _ => None
  }

  lemma StepLogs(s: State, m: Move)
    ensures Step(s, m).history == s.history + if EventOf(s, m).Some? then [EventOf(s, m).value] else []
    ensures EventOf(s, m).Some? ==> EventOf(s, m).value.thread == m.thread
  {
  }

  /** What a step does to its own thread's Notify. */
  lemma StepDue(s: State, m: Move)
    ensures var t, e := m.thread, EventOf(s, m);
      var was, now := Due(PcOf(s, t), t), Due(PcOf(Step(s, m), t), t);
      && (now.Some? ==> now == e || (e == None && now == was))
      && (e.Some? && e.value.Returned? ==> was == Some(Dropped(t, e.value.addr)))
  {
  }

  lemma PhaseAfter(h: seq<Event>, e: Event, t: Thread)
    ensures Phase(h + [e], t) == if e.thread == t && (e.Began? || e.Dropped? || e.Returned?) then Some(e) else Phase(h, t)
  {
    assert (h + [e])[..|h + [e]| - 1] == h;
  }

  lemma OtherPhased(s: State, m: Move, t: Thread)
    requires Phased(s, t) && t != m.thread
    ensures Phased(Step(s, m), t)
  {
    StepLogs(s, m);
    StepFrame(s, m, t);
    hide Step, Phase, EventOf;
    if EventOf(s, m).Some? {
      PhaseAfter(s.history, EventOf(s, m).value, t);
    } else {
      assert s.history + [] == s.history;
    }
  }

  lemma MoverPhased(s: State, m: Move)
    requires Phased(s, m.thread)
    ensures Phased(Step(s, m), m.thread)
  {
    StepLogs(s, m);
    StepDue(s, m);
    DueEvents(PcOf(Step(s, m), m.thread), m.thread);
    hide Step, Phase, Due, EventOf;
    if EventOf(s, m).Some? {
      PhaseAfter(s.history, EventOf(s, m).value, m.thread);
    } else {
      assert s.history + [] == s.history;
    }
  }

  lemma DueEvents(pc: Pc, t: Thread)
    ensures Due(pc, t).Some? ==> Due(pc, t).value.thread == t && (Due(pc, t).value.Began? || Due(pc, t).value.Dropped?)
  {
  }

  lemma StepKeepsNotify(s: State, m: Move)
    requires NotifyInvariant(s)
    ensures NotifyInvariant(Step(s, m))
  {
    var h, h' := s.history, Step(s, m).history;
    StepLogs(s, m);
    StepDue(s, m);
    MoverPhased(s, m);
    forall t: Thread ensures Phased(Step(s, m), t) {
      if t != m.thread {
        OtherPhased(s, m, t);
      }
    }
    assert Phased(s, m.thread);
    hide Step, Phase, EventOf;
    forall i: nat | i < |h'| ensures ReturnRight(h', i) {
      assert h'[..|h|] == h;
      if i < |h| {
        assert h'[..i] == h[..i] && h'[i] == h[i];
        assert ReturnRight(h, i);
      }
    }
  }

  /** Every state of every interleaving. */
  lemma {:induction false} RunKeeps(moves: seq<Move>)
    ensures LockInvariant(Run(moves)) && MonitorInvariant(Run(moves)) && NotifyInvariant(Run(moves))
    decreases |moves|
  {
    hide LockInvariant, MonitorInvariant, NotifyInvariant, Step;
    if moves == [] {
      InitialKeeps();
    } else {
      var s, m := Run(moves[..|moves| - 1]), moves[|moves| - 1];
      RunKeeps(moves[..|moves| - 1]);
      StepKeepsLock(s, m);
      StepKeepsMonitors(s, m);
      StepKeepsNotify(s, m);
    }
  }

  lemma InitialKeeps()
    ensures LockInvariant(INITIAL) && MonitorInvariant(INITIAL) && NotifyInvariant(INITIAL)
  {
  }

  // ----- What the monitor promises -----

  /** Thread t took its latest monitor at j, on addr, and no other thread's Notify has
      dropped it since. */
  ghost predicate ArmedSince(h: seq<Event>, j: nat, t: Thread, addr: Address) {
    && j < |h| && h[j] == Took(t, addr)
    && forall k :: j < k < |h| ==> !Disturbs(h[k], t, addr)
  }

  ghost predicate Disturbs(e: Event, t: Thread, addr: Address) {
    (e.Took? && e.thread == t) || (e.Dropped? && e.thread != t && e.addr == addr)
  }

  lemma {:induction false} ArmedMeans(h: seq<Event>, t: Thread, addr: Address)
    ensures Armed(h, t) == Some(addr) <==> exists j: nat :: ArmedSince(h, j, t, addr)
    decreases |h|
  {
    if h != [] {
      var init, e := h[..|h| - 1], h[|h| - 1];
      ArmedMeans(init, t, addr);
      if e == Took(t, addr) {
        assert ArmedSince(h, |h| - 1, t, addr);
      } else {
        forall j: nat | j < |h| ensures ArmedSince(h, j, t, addr) <==> ArmedSince(init, j, t, addr) && !Disturbs(e, t, addr) {
          SinceLonger(h, j, t, addr);
        }
      }
    }
  }

  lemma SinceLonger(h: seq<Event>, j: nat, t: Thread, addr: Address)
    requires h != [] && h[|h| - 1] != Took(t, addr)
    ensures ArmedSince(h, j, t, addr) <==> ArmedSince(h[..|h| - 1], j, t, addr) && !Disturbs(h[|h| - 1], t, addr)
  {
    var init := h[..|h| - 1];
    if ArmedSince(h, j, t, addr) {
      assert j < |h| - 1;
      assert forall k :: j < k < |init| ==> init[k] == h[k];
    }
    if ArmedSince(init, j, t, addr) && !Disturbs(h[|h| - 1], t, addr) {
      forall k | j < k < |h| ensures !Disturbs(h[k], t, addr) {
        assert k < |init| ==> init[k] == h[k];
      }
    }
  }

  /** A LockMonitor decides for success just when the thread's latest monitor is on the
      address and no other thread's Notify has dropped it since. */
  lemma CheckExact(moves: seq<Move>, i: nat)
    requires i < |Run(moves).history| && Run(moves).history[i].Checked?
    ensures var h := Run(moves).history;
      h[i].ok <==> exists j: nat :: ArmedSince(h[..i], j, h[i].thread, h[i].addr)
  {
    RunKeeps(moves);
    var h := Run(moves).history;
    assert CheckRight(h, i);
    ArmedMeans(h[..i], h[i].thread, h[i].addr);
  }

  lemma {:induction false} PhaseMeans(h: seq<Event>, t: Thread, e: Event) returns (d: nat)
    requires Phase(h, t) == Some(e)
    ensures d < |h| && h[d] == e
    ensures forall k :: d < k < |h| ==> !(h[k].Began? && h[k].thread == t)
    decreases |h|
  {
    if h[|h| - 1].thread == t && (h[|h| - 1].Began? || h[|h| - 1].Dropped? || h[|h| - 1].Returned?) {
      d := |h| - 1;
    } else {
      d := PhaseMeans(h[..|h| - 1], t, e);
      assert forall k :: d < k < |h| - 1 ==> h[..|h| - 1][k] == h[k];
    }
  }

  /** A Notify drops the monitors between its call and its return. */
  lemma NotifyTakesEffect(moves: seq<Move>, b: nat, r: nat) returns (d: nat)
    requires b < r < |Run(moves).history|
    requires var h := Run(moves).history; h[r].Returned? && h[b] == Began(h[r].thread, h[r].addr)
    ensures var h := Run(moves).history; b < d < r && h[d] == Dropped(h[r].thread, h[r].addr)
  {
    RunKeeps(moves);
    var h := Run(moves).history;
    assert ReturnRight(h, r);
    d := PhaseMeans(h[..r], h[r].thread, Dropped(h[r].thread, h[r].addr));
    assert h[..r][b] == h[b];
  }

  /** A Notify by another thread, called and returned between a thread's AcquireMonitor
      and its LockMonitor, makes the LockMonitor fail unless the monitor is taken anew. */
  lemma NotifiedSince(moves: seq<Move>, j: nat, b: nat, r: nat, i: nat)
    requires j < b < r < i < |Run(moves).history|
    requires var h := Run(moves).history;
      && h[i].Checked? && h[j] == Took(h[i].thread, h[i].addr)
      && h[b] == Began(h[r].thread, h[i].addr) && h[r] == Returned(h[r].thread, h[i].addr)
      && h[r].thread != h[i].thread
      && forall k :: j < k < i ==> !(h[k].Took? && h[k].thread == h[i].thread)
    ensures !Run(moves).history[i].ok
  {
    var h := Run(moves).history;
    var d := NotifyTakesEffect(moves, b, r);
    CheckExact(moves, i);
    var before := h[..i];
    assert before[d] == h[d] && before[j] == h[j];
    assert forall k :: j < k < i ==> before[k] == h[k];
    assert forall j': nat :: ArmedSince(before, j', h[i].thread, h[i].addr) ==> j' <= j && Disturbs(before[d], h[i].thread, h[i].addr);
  }

  /** The unlocked comparison in Lock finds the thread exactly when it has the mutex, so a
      thread never waits for a mutex it holds. */
  lemma UnlockedReadHarmless(moves: seq<Move>, t: Thread)
    ensures var s := Run(moves);
      && (s.lockedThread == Some(t) ==> s.mutex == Some(t))
      && (PcOf(s, t).Comparing? ==> (s.lockedThread == Some(t) <==> s.mutex == Some(t)))
      && (PcOf(s, t).Waiting? ==> s.mutex != Some(t))
  {
    RunKeeps(moves);
    assert Placed(Run(moves), t);
  }

  /** Between calls, a thread has the lock exactly if its latest call was Lock or a
      LockMonitor that succeeded: every other call returns without it. */
  lemma LockHeldBetweenCalls(moves: seq<Move>, t: Thread)
    requires PcOf(Run(moves), t).Idle?
    ensures Run(moves).mutex == Some(t) <==> KeptLock(Run(moves), t)
    ensures Run(moves).mutex == Some(t) <==> Run(moves).lockedThread == Some(t)
  {
    RunKeeps(moves);
    assert Placed(Run(moves), t);
  }

  /** Only t ever stores t. */
  lemma OnlyOwnerStores(s: State, m: Move, t: Thread)
    requires s.lockedThread != Some(t) && Step(s, m).lockedThread == Some(t)
    ensures m.thread == t && PcOf(s, t).Storing?
  {
  }

  lemma RunMore(moves: seq<Move>, m: Move)
    ensures Run(moves + [m]) == Step(Run(moves), m)
  {
    assert (moves + [m])[..|moves + [m]| - 1] == moves;
  }

  /** Until the owner moves again, nobody else takes the lock or touches a monitor. */
  lemma {:induction false} Exclusive(moves: seq<Move>, more: seq<Move>, t: Thread)
    requires Run(moves).lockedThread == Some(t)
    requires forall i :: 0 <= i < |more| ==> more[i].thread != t
    ensures var s, s' := Run(moves), Run(moves + more);
      s'.lockedThread == Some(t) && s'.mutex == Some(t) && s'.monitors == s.monitors && PcOf(s', t) == PcOf(s, t)
    decreases |more|
  {
    hide Run, Step, LockInvariant, MonitorInvariant, NotifyInvariant;
    if more == [] {
      assert moves + more == moves;
      RunKeeps(moves);
      UnlockedReadHarmless(moves, t);
    } else {
      var init, m := more[..|more| - 1], more[|more| - 1];
      Exclusive(moves, init, t);
      assert moves + more == (moves + init) + [m];
      RunMore(moves + init, m);
      RunKeeps(moves + init);
      OthersKeepOut(Run(moves + init), m, t);
    }
  }

  lemma OthersKeepOut(s: State, m: Move, t: Thread)
    requires LockInvariant(s) && s.lockedThread == Some(t) && m.thread != t
    ensures var s' := Step(s, m);
      s'.lockedThread == Some(t) && s'.mutex == Some(t) && s'.monitors == s.monitors && PcOf(s', t) == PcOf(s, t)
  {
    assert Placed(s, m.thread);
  }

  // ----- A Notify that returns late -----

  ghost function Times(m: Move, n: nat): (moves: seq<Move>) {
    seq(n, i => m)
  }

  /** n steps of one thread. */
  ghost function Turn(s: State, m: Move, n: nat): (r: State) {
    if n == 0 then s else Step(Turn(s, m, n - 1), m)
  }

  lemma {:induction false} RunTurn(moves: seq<Move>, m: Move, n: nat)
    ensures Run(moves + Times(m, n)) == Turn(Run(moves), m, n)
    decreases n
  {
    if n == 0 {
      assert moves + Times(m, n) == moves;
    } else {
      RunTurn(moves, m, n - 1);
      assert moves + Times(m, n) == (moves + Times(m, n - 1)) + [m];
      RunMore(moves + Times(m, n - 1), m);
    }
  }

  ghost predicate Unlocked(s: State) {
    s.mutex.None? && s.lockedThread.None?
  }

  /** Four steps bring an idle thread into the body of a call that locks. */
  lemma TurnInside(s: State, m: Move)
    requires Unlocked(s) && PcOf(s, m.thread).Idle?
    requires m.call.AcquireMonitor? || m.call.LockMonitor? || m.call.Notify?
    ensures var t := Turn(s, m, 4);
      && PcOf(t, m.thread) == Inside(m.call) && t.mutex == t.lockedThread == Some(m.thread)
      && t.monitors == s.monitors && (forall u :: u != m.thread ==> PcOf(t, u) == PcOf(s, u))
      && t.history == s.history + if m.call.Notify? then [Began(m.thread, m.call.addr)] else []
  {
    assert Turn(s, m, 1) == Step(s, m);
    assert Turn(s, m, 2) == Step(Turn(s, m, 1), m);
    assert Turn(s, m, 3) == Step(Turn(s, m, 2), m);
    assert Turn(s, m, 4) == Step(Turn(s, m, 3), m);
  }

  /** Three more release the mutex. */
  lemma TurnOut(s: State, m: Move)
    requires PcOf(s, m.thread) == Leaving(m.call) && s.mutex == s.lockedThread == Some(m.thread)
    ensures var t := Turn(s, m, 3);
      && PcOf(t, m.thread) == Returning(m.call) && Unlocked(t)
      && t.monitors == s.monitors && t.history == s.history
      && (forall u :: u != m.thread ==> PcOf(t, u) == PcOf(s, u))
  {
    assert Turn(s, m, 1) == Step(s, m);
    assert Turn(s, m, 2) == Step(Turn(s, m, 1), m);
    assert Turn(s, m, 3) == Step(Turn(s, m, 2), m);
  }

  /** That another thread's Notify returns between AcquireMonitor and LockMonitor does not
      by itself make the LockMonitor fail: the Notify may have taken effect before. */
  lemma LateReturn() returns (moves: seq<Move>)
    ensures Run(moves).history == [Began(1, 0), Dropped(1, 0), Took(0, 0), Returned(1, 0), Checked(0, 0, true)]
  {
    hide Run, Turn, Step;
    var n, a, l := Move(1, Notify(0)), Move(0, AcquireMonitor(0)), Move(0, LockMonitor(0));
    moves := [];
    RunStart();
    moves := Called(moves, n);
    moves := Called(moves, a);
    moves := Finished(moves, a);
    moves := Finished(moves, n);
    moves := Entered(moves, l);
  }

  lemma RunStart()
    ensures Run([]) == INITIAL
  {
  }

  /** A thread enters a call and runs its body. */
  lemma Entered(before: seq<Move>, m: Move) returns (moves: seq<Move>)
    requires Unlocked(Run(before)) && PcOf(Run(before), m.thread).Idle?
    requires m.call.AcquireMonitor? || m.call.LockMonitor? || m.call.Notify?
    ensures exists s ::
      && PcOf(s, m.thread) == Inside(m.call) && s.mutex == s.lockedThread == Some(m.thread)
      && s.monitors == Run(before).monitors && (forall u :: u != m.thread ==> PcOf(s, u) == PcOf(Run(before), u))
      && s.history == Run(before).history + (if m.call.Notify? then [Began(m.thread, m.call.addr)] else [])
      && Run(moves) == Body(s, m.thread, m.call)
  {
    hide Run, Turn, Body;
    TurnInside(Run(before), m);
    RunTurn(before, m, 4);
    moves := before + Times(m, 4) + [m];
    RunMore(before + Times(m, 4), m);
  }

  /** A whole AcquireMonitor or Notify, up to its return. */
  lemma Called(before: seq<Move>, m: Move) returns (moves: seq<Move>)
    requires Unlocked(Run(before)) && PcOf(Run(before), m.thread).Idle?
    requires m.call.AcquireMonitor? || m.call.Notify?
    ensures var s, t := Run(before), Run(moves);
      && Unlocked(t) && PcOf(t, m.thread) == Returning(m.call)
      && (forall u :: u != m.thread ==> PcOf(t, u) == PcOf(s, u))
      && t.monitors == (if m.call.Notify? then Remaining(s.monitors, m.thread, m.call.addr)
                        else s.monitors[m.thread := m.call.addr])
      && t.history == s.history + (if m.call.Notify? then [Began(m.thread, m.call.addr), Dropped(m.thread, m.call.addr)]
                                   else [Took(m.thread, m.call.addr)])
  {
    hide Run, Turn, Step;
    moves := Entered(before, m);
    TurnOut(Run(moves), m);
    RunTurn(moves, m, 3);
    moves := moves + Times(m, 3);
  }

  lemma Finished(before: seq<Move>, m: Move) returns (moves: seq<Move>)
    requires PcOf(Run(before), m.thread) == Returning(m.call)
    ensures var s, t := Run(before), Run(moves);
      && t.mutex == s.mutex && t.lockedThread == s.lockedThread && t.monitors == s.monitors
      && PcOf(t, m.thread).Idle? && (forall u :: u != m.thread ==> PcOf(t, u) == PcOf(s, u))
      && t.history == s.history + if m.call.Notify? then [Returned(m.thread, m.call.addr)] else []
  {
    RunMore(before, m);
    moves := before + [m];
    hide Run;
  }
}

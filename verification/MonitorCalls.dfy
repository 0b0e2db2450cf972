/** The monitor's calls and what they return: every call a thread makes is answered, in
    order, and has exactly the effects its answer stands for. */
module MonitorCalls {
  import opened Addresses
  import opened Common
  import opened MemoryMonitor

  // ----- Calls, answers and effects -----

  /** The calls of thread t, in order. */
  ghost function Calls(moves: seq<Move>, t: Thread): (r: seq<Call>) {
    if moves == [] then [] else
      var init, m := moves[..|moves| - 1], moves[|moves| - 1];
      Calls(init, t) + if m.thread == t && PcOf(Run(init), t).Idle? then [m.call] else []
  }

  /** What thread t's calls have returned, in order. */
  ghost function Returns(moves: seq<Move>, t: Thread): (r: seq<Result>) {
    if moves == [] then [] else
      var init := moves[..|moves| - 1];
      var s, s' := Run(init), Run(moves);
      Returns(init, t) + if !PcOf(s, t).Idle? && PcOf(s', t).Idle? && t in s'.results then [s'.results[t]] else []
  }

  /** What a call that has returned did to the monitors. */
  ghost function Effects(t: Thread, r: Result): (h: seq<Event>) {
    match r.call
    case AcquireMonitor(addr) => [Took(t, addr)]
    case LockMonitor(addr) => [Checked(t, addr, r.ok)]
    case Notify(addr) => [Began(t, addr), Dropped(t, addr), Returned(t, addr)]
    case _ => []
  }

  ghost function AllEffects(t: Thread, rs: seq<Result>): (h: seq<Event>) {
    if rs == [] then [] else AllEffects(t, rs[..|rs| - 1]) + Effects(t, rs[|rs| - 1])
  }

  /** What a call under way has done so far: past its body, all but returning, and if it is
      a LockMonitor it has failed. */
  ghost function SoFar(t: Thread, pc: Pc): (h: seq<Event>) {
    if pc.Idle? then []
    else if pc.Comparing? || pc.Waiting? || pc.Storing? || pc.Inside? then
      if pc.call.Notify? then [Began(t, pc.call.addr)] else []
    else if pc.call.Notify? then [Began(t, pc.call.addr), Dropped(t, pc.call.addr)]
    else Effects(t, Result(pc.call, false))
  }

  /** The events of thread t. */
  ghost function Own(h: seq<Event>, t: Thread): (r: seq<Event>) {
    if h == [] then [] else Own(h[..|h| - 1], t) + if h[|h| - 1].thread == t then [h[|h| - 1]] else []
  }

  // ----- One step -----

  lemma StepResults(s: State, m: Move, t: Thread)
    requires t != m.thread
    ensures PcOf(Step(s, m), t) == PcOf(s, t)
    ensures t in Step(s, m).results <==> t in s.results
    ensures t in s.results ==> Step(s, m).results[t] == s.results[t]
  {
    StepFrame(s, m, t);
    match PcOf(s, m.thread) {
      case Idle => hide Body, Return;
      case Inside(call) => hide Start, Return;
      case Returning(call) => hide Start, Body;
      case _ => hide Start, Body, Return;
    }
  }

  /** A step goes on with the thread's call, or ends it with an answer whose effects are
      what the call has done by then. */
  ghost predicate Continues(s: State, m: Move) {
    var t, s' := m.thread, Step(s, m);
    var pc, pc' := PcOf(s, t), PcOf(s', t);
    var call := if pc.Idle? then m.call else pc.call;
    var done := SoFar(t, pc) + if EventOf(s, m).Some? then [EventOf(s, m).value] else [];
    if pc'.Idle? then
      && !pc.Idle? && t in s'.results && s'.results[t].call == call && Effects(t, s'.results[t]) == done
      && (call.LockMonitor? || s'.results[t].ok)
    else
      && pc'.call == call && SoFar(t, pc') == done
      && s'.results == s.results
  }

  lemma StepContinues(s: State, m: Move)
    requires Placed(s, m.thread)
    ensures Continues(s, m)
  {
    hide Continues;
    match PcOf(s, m.thread) {
      case Idle => StartContinues(s, m);
      case Inside(call) => BodyContinues(s, m);
      case Leaving(call) => ReturnContinues(s, m);
      case Clearing(call) => ReturnContinues(s, m);
      case Releasing(call) => ReturnContinues(s, m);
      case Returning(call) => ReturnContinues(s, m);
      case _ => LockContinues(s, m);
    }
  }

  lemma StartContinues(s: State, m: Move)
    requires PcOf(s, m.thread).Idle?
    ensures Continues(s, m)
  {
    hide Body, Return;
  }

  lemma LockContinues(s: State, m: Move)
    requires var pc := PcOf(s, m.thread); pc.Comparing? || pc.Waiting? || pc.Storing?
    ensures Continues(s, m)
  {
    hide Start, Body, Return;
  }

  lemma BodyContinues(s: State, m: Move)
    requires PcOf(s, m.thread).Inside? && Locks(PcOf(s, m.thread).call)
    ensures Continues(s, m)
  {
    hide Start, Return;
  }

  lemma ReturnContinues(s: State, m: Move)
    requires var pc := PcOf(s, m.thread); pc.Leaving? || pc.Clearing? || pc.Releasing? || pc.Returning?
    requires !PcOf(s, m.thread).call.Lock?
    ensures Continues(s, m)
  {
    hide Start, Body;
  }

  // ----- Every run -----

  ghost predicate Answered(s: State, t: Thread, calls: seq<Call>, rs: seq<Result>) {
    var pc := PcOf(s, t);
    && |calls| == |rs| + (if pc.Idle? then 0 else 1)
    && (forall k :: 0 <= k < |rs| ==> rs[k].call == calls[k] && (rs[k].call.LockMonitor? || rs[k].ok))
    && (!pc.Idle? ==> calls[|rs|] == pc.call)
    && (t in s.results <==> rs != []) && (rs != [] ==> s.results[t] == rs[|rs| - 1])
    && Own(s.history, t) == AllEffects(t, rs) + SoFar(t, pc)
  }

  /** In every interleaving each thread's calls are answered in order, and its events are
      exactly the effects of the answers it has got, and what its call under way has done. */
  lemma {:induction false} CallsAnswered(moves: seq<Move>, t: Thread)
    ensures Answered(Run(moves), t, Calls(moves, t), Returns(moves, t))
    decreases |moves|
  {
    hide Step, EventOf, Continues, Answered, LockInvariant, MonitorInvariant, NotifyInvariant;
    if moves == [] {
      NothingAsked(t);
    } else {
      var init, m := moves[..|moves| - 1], moves[|moves| - 1];
      CallsAnswered(init, t);
      RunKeeps(init);
      if m.thread == t {
        OwnStep(Run(init), m, Calls(init, t), Returns(init, t));
      } else {
        OthersStep(Run(init), m, t, Calls(init, t), Returns(init, t));
      }
    }
  }

  lemma NothingAsked(t: Thread)
    ensures Answered(INITIAL, t, [], [])
  {
  }

  lemma {:induction false} OwnAfter(h: seq<Event>, e: Option<Event>, t: Thread)
    ensures Own(h + (if e.Some? then [e.value] else []), t) ==
      Own(h, t) + if e.Some? && e.value.thread == t then [e.value] else []
  {
    if e.Some? {
      assert (h + [e.value])[..|h + [e.value]| - 1] == h;
    } else {
      assert h + [] == h;
    }
  }

  lemma OthersStep(s: State, m: Move, t: Thread, calls: seq<Call>, rs: seq<Result>)
    requires m.thread != t && Answered(s, t, calls, rs)
    ensures PcOf(Step(s, m), t) == PcOf(s, t) && Answered(Step(s, m), t, calls + [], rs + [])
  {
    hide Step, EventOf, Own, AllEffects, SoFar;
    StepResults(s, m, t);
    StepLogs(s, m);
    OwnAfter(s.history, EventOf(s, m), t);
    assert calls + [] == calls && rs + [] == rs && Own(s.history, t) + [] == Own(s.history, t);
  }

  lemma OwnStep(s: State, m: Move, calls: seq<Call>, rs: seq<Result>)
    requires LockInvariant(s) && Answered(s, m.thread, calls, rs)
    ensures var t, s' := m.thread, Step(s, m);
      Answered(s', t, calls + (if PcOf(s, t).Idle? then [m.call] else []),
               rs + if !PcOf(s, t).Idle? && PcOf(s', t).Idle? && t in s'.results then [s'.results[t]] else [])
  {
    assert Placed(s, m.thread);
    hide LockInvariant, Placed;
    var t, s' := m.thread, Step(s, m);
    StepContinues(s, m);
    StepLogs(s, m);
    OwnAfter(s.history, EventOf(s, m), t);
    hide Step, EventOf, Continues, Answered, Own;
    assert calls + [] == calls && rs + [] == rs;
    ContinuesMeans(s, m);
    if PcOf(s', t).Idle? {
      CallEnds(s, m, calls, rs);
    } else {
      CallGoesOn(s, m, calls, rs);
    }
  }

  lemma ContinuesMeans(s: State, m: Move)
    requires Continues(s, m)
    ensures var t, s' := m.thread, Step(s, m); PcOf(s', t).Idle? ==> !PcOf(s, t).Idle? && t in s'.results
  {
    hide Step, EventOf;
  }

  ghost predicate OwnGrows(s: State, m: Move) {
    Own(Step(s, m).history, m.thread) == Own(s.history, m.thread) + if EventOf(s, m).Some? then [EventOf(s, m).value] else []
  }

  lemma CallEnds(s: State, m: Move, calls: seq<Call>, rs: seq<Result>)
    requires Answered(s, m.thread, calls, rs) && Continues(s, m) && OwnGrows(s, m) && PcOf(Step(s, m), m.thread).Idle?
    ensures Answered(Step(s, m), m.thread, calls, rs + [Step(s, m).results[m.thread]])
  {
    hide Step, EventOf, Own, AllEffects, SoFar, Effects;
    var t, s' := m.thread, Step(s, m);
    var r, e := s'.results[t], if EventOf(s, m).Some? then [EventOf(s, m).value] else [];
    EffectsSnoc(t, rs, r);
    Associate(AllEffects(t, rs), SoFar(t, PcOf(s, t)), e);
    assert Own(s'.history, t) == AllEffects(t, rs + [r]) + SoFar(t, Idle);
    assert forall k :: 0 <= k < |rs| ==> (rs + [r])[k] == rs[k];
  }

  lemma {:induction false} EffectsSnoc(t: Thread, rs: seq<Result>, r: Result)
    ensures AllEffects(t, rs + [r]) + SoFar(t, Idle) == AllEffects(t, rs) + Effects(t, r)
  {
    assert (rs + [r])[..|rs + [r]| - 1] == rs;
  }

  lemma Associate(a: seq<Event>, b: seq<Event>, c: seq<Event>)
    ensures a + b + c == a + (b + c)
  {
  }

  lemma CallGoesOn(s: State, m: Move, calls: seq<Call>, rs: seq<Result>)
    requires Answered(s, m.thread, calls, rs) && Continues(s, m) && OwnGrows(s, m) && !PcOf(Step(s, m), m.thread).Idle?
    ensures Answered(Step(s, m), m.thread, calls + (if PcOf(s, m.thread).Idle? then [m.call] else []), rs)
  {
    hide Step, EventOf, Own, AllEffects, SoFar, Effects;
    var t, e := m.thread, if EventOf(s, m).Some? then [EventOf(s, m).value] else [];
    assert calls + [] == calls;
    Associate(AllEffects(t, rs), SoFar(t, PcOf(s, t)), e);
  }

  // ----- What LockMonitor returns -----

  lemma {:induction false} LastOwn(h: seq<Event>, t: Thread) returns (i: nat)
    requires Own(h, t) != []
    ensures i < |h| && h[i].thread == t && h[i] == Own(h, t)[|Own(h, t)| - 1]
    ensures forall k :: i < k < |h| ==> h[k].thread != t
    decreases |h|
  {
    if h[|h| - 1].thread == t {
      i := |h| - 1;
    } else {
      i := LastOwn(h[..|h| - 1], t);
      assert forall k :: i < k < |h| - 1 ==> h[..|h| - 1][k] == h[k];
    }
  }

  /** LockMonitor returns true if and only if, when it decided, the thread's latest monitor
      was on the address and no other thread's Notify had dropped it since. */
  lemma LockMonitorExact(moves: seq<Move>, t: Thread) returns (i: nat)
    requires var s := Run(moves); PcOf(s, t).Idle? && t in s.results && s.results[t].call.LockMonitor?
    ensures var h, r := Run(moves).history, Run(moves).results[t];
      && i < |h| && h[i] == Checked(t, r.call.addr, r.ok) && (forall k :: i < k < |h| ==> h[k].thread != t)
      && (r.ok <==> exists j: nat :: ArmedSince(h[..i], j, t, r.call.addr))
  {
    hide Run, Returns, Calls, Own, ArmedSince;
    CallsAnswered(moves, t);
    LastAnswer(Run(moves), t, Calls(moves, t), Returns(moves, t));
    i := LastOwn(Run(moves).history, t);
    CheckExact(moves, i);
  }

  /** The last event of a thread that has come back from LockMonitor is its check. */
  lemma LastAnswer(s: State, t: Thread, calls: seq<Call>, rs: seq<Result>)
    requires Answered(s, t, calls, rs) && PcOf(s, t).Idle? && t in s.results && s.results[t].call.LockMonitor?
    ensures var h, r := Own(s.history, t), s.results[t]; h != [] && h[|h| - 1] == Checked(t, r.call.addr, r.ok)
  {
    hide Own, PcOf;
    assert AllEffects(t, rs) == AllEffects(t, rs[..|rs| - 1]) + Effects(t, s.results[t]);
  }

  /** A thread that LockMonitor has told true still has its monitor. */
  ghost predicate Guarded(s: State, t: Thread) {
    PcOf(s, t).Idle? && t in s.results && s.results[t].call.LockMonitor? && s.results[t].ok ==>
      MonitorOf(s, t) == Some(s.results[t].call.addr)
  }

  lemma StepGuards(s: State, m: Move, t: Thread)
    requires LockInvariant(s) && Guarded(s, t)
    ensures Guarded(Step(s, m), t)
  {
    assert Placed(s, t) && Placed(s, m.thread);
    if m.thread == t {
      match PcOf(s, t) {
        case Idle => hide Body, Return;
        case Inside(call) => hide Start, Return;
        case Returning(call) => hide Start, Body;
        case _ => hide Start, Body, Return;
      }
    } else {
      StepResults(s, m, t);
      if s.lockedThread == Some(t) {
        OthersKeepOut(s, m, t);
      }
      hide Step;
    }
  }

  lemma {:induction false} RunGuards(moves: seq<Move>, t: Thread)
    ensures Guarded(Run(moves), t)
    decreases |moves|
  {
    if moves != [] {
      var init := moves[..|moves| - 1];
      RunGuards(init, t);
      RunKeeps(init);
      hide Step, LockInvariant, MonitorInvariant, NotifyInvariant, Guarded;
      StepGuards(Run(init), moves[|moves| - 1], t);
    }
  }

  /** From a LockMonitor that returns true until the thread's next step, whatever the other
      threads do, it has the lock and its monitor is on the address: nothing comes between
      the check and the store. */
  lemma LockMonitorLocks(moves: seq<Move>, more: seq<Move>, t: Thread, addr: Address)
    requires var s := Run(moves); PcOf(s, t).Idle? && t in s.results && s.results[t] == Result(LockMonitor(addr), true)
    requires forall i :: 0 <= i < |more| ==> more[i].thread != t
    ensures var s := Run(moves + more); s.mutex == s.lockedThread == Some(t) && MonitorOf(s, t) == Some(addr)
  {
    hide Run;
    LockHeldBetweenCalls(moves, t);
    RunGuards(moves, t);
    Exclusive(moves, more, t);
  }

  // ----- Progress -----

  /** How many steps at most a call still takes. */
  ghost function StepsLeft(pc: Pc): (n: nat) {
    match pc
    case Idle => 0
    case Comparing(_) => 8
    case Waiting(_) => 7
    case Storing(_) => 6
    case Inside(_) => 5
    case Leaving(_) => 4
    case Clearing(_) => 3
    case Releasing(_) => 2
    case Returning(_) => 1
  }

  /** A step brings the thread's call nearer to its end, unless another thread has the
      mutex it waits for. */
  lemma StepAdvances(s: State, m: Move)
    requires LockInvariant(s) && !PcOf(s, m.thread).Idle?
    ensures var s' := Step(s, m);
      || StepsLeft(PcOf(s', m.thread)) < StepsLeft(PcOf(s, m.thread))
      || (PcOf(s, m.thread).Waiting? && s.mutex.Some? && s.mutex != Some(m.thread) && s' == s)
  {
    assert Placed(s, m.thread);
    match PcOf(s, m.thread) {
      case Inside(call) => hide Start, Return;
      case Returning(call) => hide Start, Body;
      case _ => hide Start, Body, Return;
    }
  }

  /** While nobody else has the mutex, a call returns within eight steps of its thread. */
  lemma {:induction false} CallReturns(moves: seq<Move>, m: Move) returns (n: nat)
    requires var s := Run(moves); s.mutex.None? || s.mutex == Some(m.thread)
    ensures n <= StepsLeft(PcOf(Run(moves), m.thread)) <= 8 && PcOf(Run(moves + Times(m, n)), m.thread).Idle?
    decreases StepsLeft(PcOf(Run(moves), m.thread))
  {
    if PcOf(Run(moves), m.thread).Idle? {
      n := 0;
      assert moves + Times(m, n) == moves;
    } else {
      hide Run, Step, LockInvariant, MonitorInvariant, NotifyInvariant;
      RunKeeps(moves);
      StepAdvances(Run(moves), m);
      StepLock(Run(moves), m);
      RunMore(moves, m);
      var k := CallReturns(moves + [m], m);
      n := k + 1;
      assert moves + Times(m, n) == moves + [m] + Times(m, k);
    }
  }
}

/** What is in a translation: the operations of the instructions on a path through the
    guest code, in order, and a return. */
module BlockPath {
  import opened Addresses
  import opened BlockTranslate
  import opened Common

  // ----- What actions do -----

  /** Emitting, setting a level and setting the mode each give one operation. */
  ghost function Ops(acts: seq<Action>): (r: seq<Ir>) {
    if acts == [] then [] else
      Ops(acts[..|acts| - 1]) +
      match acts[|acts| - 1]
      case Emit(op) => [Op(op)]
      case SetLevel(f, l) => [SetCpuFeature(f, l)]
      case SetMode(m) => [SetCpuMode(m)]
      case _ => []
  }

  ghost function Asks(acts: seq<Action>): (r: set<nat>) {
    set k | 0 <= k < |acts| && acts[k].GetLevel? :: acts[k].feature
  }

  ghost function LevelsAfter(acts: seq<Action>, levels: map<nat, nat>): (r: map<nat, nat>) {
    if acts == [] then levels else
      var before := LevelsAfter(acts[..|acts| - 1], levels);
      match acts[|acts| - 1]
      case SetLevel(f, l) => before[f := l]
      case _ => before
  }

  /** The mode set last; unknown for good once it has been unknown. */
  ghost function ModeAfter(acts: seq<Action>, mode: Option<nat>): (r: Option<nat>) {
    if acts == [] then mode else
      var before := ModeAfter(acts[..|acts| - 1], mode);
      match acts[|acts| - 1]
      case SetMode(m) => if before.None? then None else m
      case _ => before
  }

  /** What the actions that ask for a level are told. */
  ghost function Answers(acts: seq<Action>, levels: map<nat, nat>): (r: seq<nat>) {
    if acts == [] then [] else
      var init := acts[..|acts| - 1];
      Answers(init, levels) +
      match acts[|acts| - 1]
      case GetLevel(f) => if f in LevelsAfter(init, levels) then [LevelsAfter(init, levels)[f]] else []
      case _ => []
  }

  /** A feature has the level it was set to last. */
  lemma {:induction false} LastLevel(acts: seq<Action>, levels: map<nat, nat>, k: nat)
    requires k < |acts| && acts[k].SetLevel? && forall i :: k < i < |acts| ==> !Sets(acts[i], acts[k].feature)
    ensures acts[k].feature in LevelsAfter(acts, levels) && LevelsAfter(acts, levels)[acts[k].feature] == acts[k].level
    decreases |acts|
  {
    if k < |acts| - 1 {
      LastLevel(acts[..|acts| - 1], levels, k);
      assert !Sets(acts[|acts| - 1], acts[k].feature);
    }
  }

  /** A feature that is not set keeps its level. */
  lemma {:induction false} KeptLevel(acts: seq<Action>, levels: map<nat, nat>, f: nat)
    requires forall i :: 0 <= i < |acts| ==> !Sets(acts[i], f)
    ensures f in LevelsAfter(acts, levels) <==> f in levels
    ensures f in levels ==> LevelsAfter(acts, levels)[f] == levels[f]
    decreases |acts|
  {
    if acts != [] {
      KeptLevel(acts[..|acts| - 1], levels, f);
      assert !Sets(acts[|acts| - 1], f);
    }
  }

  ghost predicate Sets(a: Action, f: nat) {
    a.SetLevel? && a.feature == f
  }

  // ----- One instruction -----

  /** The translator chooses these actions, one after the other, and every level it asks for
      is there. */
  ghost predicate Chosen(insn: Insn, acts: seq<Action>, levels: map<nat, nat>)
    requires insn.Insn?
  {
    |acts| <= insn.steps && forall i :: 0 <= i < |acts| ==> ChosenAt(insn, acts, levels, i)
  }

  ghost predicate ChosenAt(insn: Insn, acts: seq<Action>, levels: map<nat, nat>, i: nat)
    requires insn.Insn? && i < |acts|
  {
    && acts[i] == insn.act(i, Answers(acts[..i], levels)) != Stop
    && (acts[i].GetLevel? ==> acts[i].feature in LevelsAfter(acts[..i], levels))
  }

  /** ... and then it has done. */
  ghost predicate Finishes(insn: Insn, acts: seq<Action>, levels: map<nat, nat>)
    requires insn.Insn?
  {
    Chosen(insn, acts, levels) && (|acts| == insn.steps || insn.act(|acts|, Answers(acts, levels)) == Stop)
  }

  /** ... and then it asks for a level that is not there. */
  ghost predicate Faults(insn: Insn, acts: seq<Action>, levels: map<nat, nat>)
    requires insn.Insn?
  {
    && Chosen(insn, acts, levels) && |acts| < insn.steps
    && var a := insn.act(|acts|, Answers(acts, levels)); a.GetLevel? && a.feature !in LevelsAfter(acts, levels)
  }

  ghost function After(s: State, acts: seq<Action>): (r: State) {
    State(LevelsAfter(acts, s.levels), s.asked + Asks(acts), s.featuresValid && InvalidateFeatures !in acts,
          ModeAfter(acts, s.mode), s.ir + Ops(acts))
  }

  lemma {:induction false} AfterSnoc(s: State, acts: seq<Action>, a: Action)
    requires a != Stop
    ensures var t, r := After(s, acts), After(s, acts + [a]);
      match a
      case Emit(op) => r == Emitted(t, Op(op))
      case GetLevel(f) => r == t.(asked := t.asked + {f})
      case SetLevel(f, l) => r == Emitted(t.(levels := t.levels[f := l]), SetCpuFeature(f, l))
      case InvalidateFeatures => r == t.(featuresValid := false)
      case SetMode(m) => r == Moded(t, m)
  {
    var more := acts + [a];
    assert more[..|more| - 1] == acts;
    AsksSnoc(acts, a);
    assert InvalidateFeatures in more <==> InvalidateFeatures in acts || a == InvalidateFeatures;
    assert forall op :: s.ir + (Ops(acts) + [op]) == s.ir + Ops(acts) + [op];
    assert Ops(acts) + [] == Ops(acts);
  }

  lemma AsksSnoc(acts: seq<Action>, a: Action)
    ensures Asks(acts + [a]) == Asks(acts) + if a.GetLevel? then {a.feature} else {}
  {
    var more := acts + [a];
    forall f | f in Asks(acts) ensures f in Asks(more) {
      var k :| 0 <= k < |acts| && acts[k].GetLevel? && acts[k].feature == f;
      assert more[k] == acts[k];
    }
    if a.GetLevel? {
      assert more[|acts|] == a;
    }
  }

  lemma {:induction false} AnswersSnoc(acts: seq<Action>, a: Action, levels: map<nat, nat>)
    requires a.GetLevel? ==> a.feature in LevelsAfter(acts, levels)
    ensures Answers(acts + [a], levels) == Answers(acts, levels) + if a.GetLevel? then [LevelsAfter(acts, levels)[a.feature]] else []
  {
    assert (acts + [a])[..|acts + [a]| - 1] == acts;
  }

  /** Chosen actions are performed one by one. */
  lemma {:induction false} ChosenRun(insn: Insn, acts: seq<Action>, s: State)
    requires insn.Insn? && Chosen(insn, acts, s.levels)
    ensures RunBody(insn, 0, [], s) == RunBody(insn, |acts|, Answers(acts, s.levels), After(s, acts))
    decreases |acts|
  {
    if acts == [] {
      assert s.ir + [] == s.ir && After(s, []) == s;
    } else {
      var init, a := acts[..|acts| - 1], acts[|acts| - 1];
      ChosenInit(insn, acts, s.levels);
      ChosenRun(insn, init, s);
      assert ChosenAt(insn, acts, s.levels, |init|) && acts[..|init|] == init && acts == init + [a];
      hide LevelsAfter, ModeAfter, Ops, Asks, Answers, Chosen;
      AfterSnoc(s, init, a);
      AnswersSnoc(init, a, s.levels);
      assert Answers(init, s.levels) + [] == Answers(init, s.levels);
    }
  }

  lemma ChosenInit(insn: Insn, acts: seq<Action>, levels: map<nat, nat>)
    requires insn.Insn? && acts != [] && Chosen(insn, acts, levels)
    ensures Chosen(insn, acts[..|acts| - 1], levels)
  {
    var init := acts[..|acts| - 1];
    hide LevelsAfter, Answers;
    forall i | 0 <= i < |init| ensures ChosenAt(insn, init, levels, i) {
      assert ChosenAt(insn, acts, levels, i) && init[..i] == acts[..i];
    }
  }

  /** For a translator that performs a list of actions, the IR grows by exactly their
      operations in order, and levels, mode and the features asked for are as the list says;
      if it asks for a level that is not there, the translation faults. */
  lemma BodyPerforms(insn: Insn, acts: seq<Action>, s: State)
    requires insn.Insn?
    ensures Finishes(insn, acts, s.levels) ==> RunBody(insn, 0, [], s) == Done(After(s, acts), true)
    ensures Faults(insn, acts, s.levels) ==> RunBody(insn, 0, [], s) == Fault
  {
    hide After, Answers;
    if Chosen(insn, acts, s.levels) {
      ChosenRun(insn, acts, s);
      AfterLevels(s, acts);
    }
  }

  lemma AfterLevels(s: State, acts: seq<Action>)
    ensures After(s, acts).levels == LevelsAfter(acts, s.levels)
  {
  }

  /** Every translator performs some list of actions. */
  lemma EveryBodyPerforms(insn: Insn, levels: map<nat, nat>) returns (acts: seq<Action>)
    requires insn.Insn?
    ensures Finishes(insn, acts, levels) || Faults(insn, acts, levels)
  {
    hide LevelsAfter, Answers;
    acts := [];
    while |acts| < insn.steps
      invariant Chosen(insn, acts, levels)
      decreases insn.steps - |acts|
    {
      var a := insn.act(|acts|, Answers(acts, levels));
      if a == Stop || (a.GetLevel? && a.feature !in LevelsAfter(acts, levels)) {
        return;
      }
      var more := acts + [a];
      forall i | 0 <= i < |more| ensures ChosenAt(insn, more, levels, i) {
        assert more[..i] == acts[..i];
        if i < |acts| {
          assert ChosenAt(insn, acts, levels, i);
        } else {
          assert acts[..i] == acts;
        }
      }
      acts := more;
    }
  }

  // ----- Paths -----

  /** What a translation starts from. */
  datatype Job = Job(code: Code, chaining: bool, features: map<nat, nat>, mode: nat, address: Address)

  type Decoded = i: Insn | i.Insn? witness Insn(0, false, false, Jump(false, false, 0), 0, (i, answers) => Stop)

  /** An instruction on the path, with the actions its translator performs. */
  datatype Visit = Visit(pc: Address, insn: Decoded, acts: seq<Action>)

  /** How a path ends: it may not go on, or with an instruction that ends the block, with one
      that cannot be decoded, or with one whose translator faults. */
  datatype Ending = Closed | Final(v: Visit) | Undecodable | Faulting(acts: seq<Action>)

  ghost function Acts(path: seq<Visit>): (r: seq<Action>) {
    if path == [] then [] else Acts(path[..|path| - 1]) + path[|path| - 1].acts
  }

  /** Where a path goes on: behind the last instruction or, if that ended a block, at the
      target of its jump. */
  ghost function NextPc(j: Job, path: seq<Visit>): (r: Address) {
    if path == [] then j.address else
      var v := path[|path| - 1];
      if v.insn.endOfBlock then v.insn.jump.target else Add(v.pc, v.insn.length)
  }

  /** How many instructions it has had since its last jump. */
  ghost function Count(path: seq<Visit>): (n: nat) {
    if path == [] || path[|path| - 1].insn.endOfBlock then 0 else Count(path[..|path| - 1]) + 1
  }

  /** The addresses it has jumped to, and the first one. */
  ghost function Heads(j: Job, path: seq<Visit>): (r: set<Address>) {
    {j.address} + set k | 0 <= k < |path| && path[k].insn.endOfBlock :: path[k].insn.jump.target
  }

  ghost function LevelsNow(j: Job, path: seq<Visit>): (r: map<nat, nat>) {
    LevelsAfter(Acts(path), j.features)
  }

  ghost function ModeNow(j: Job, path: seq<Visit>): (r: Option<nat>) {
    ModeAfter(Acts(path), Some(j.mode))
  }

  /** It goes on while it is on the page, for 32 instructions, and while mode and features
      are known. The page's base is kept in 32 bits. */
  ghost predicate Open(j: Job, path: seq<Visit>) {
    && PageBase(NextPc(j, path)) == PageBase(j.address) % TWO_32 && Count(path) < MAX_COUNT
    && ModeNow(j, path).Some? && InvalidateFeatures !in Acts(path)
  }

  ghost predicate Visits(j: Job, path: seq<Visit>, v: Visit) {
    && Open(j, path) && v.pc == NextPc(j, path) && v.insn == j.code(v.pc, ModeNow(j, path).value)
    && Finishes(v.insn, v.acts, LevelsNow(j, path))
  }

  /** A jump is followed if it is direct, unconditional, on the page and leads to a new head. */
  ghost predicate Merges(j: Job, path: seq<Visit>, v: Visit) {
    && j.chaining && !v.insn.predicated && ModeNow(j, path + [v]).Some?
    && !v.insn.jump.indirect && !v.insn.jump.conditional && PageIndex(v.insn.jump.target) == PageIndex(v.pc)
    && v.insn.jump.target !in Heads(j, path)
  }

  ghost predicate Walk(j: Job, path: seq<Visit>) {
    forall k :: 0 <= k < |path| ==> GoesOn(j, path, k)
  }

  ghost predicate GoesOn(j: Job, path: seq<Visit>, k: nat)
    requires k < |path|
  {
    Visits(j, path[..k], path[k]) && (path[k].insn.endOfBlock ==> Merges(j, path[..k], path[k]))
  }

  ghost predicate Ends(j: Job, path: seq<Visit>, e: Ending) {
    match e
    case Closed => !Open(j, path)
    case Final(v) => Visits(j, path, v) && v.insn.endOfBlock && !Merges(j, path, v)
    case Undecodable => Open(j, path) && j.code(NextPc(j, path), ModeNow(j, path).value).Invalid?
    case Faulting(acts) =>
      && Open(j, path)
      && var insn := j.code(NextPc(j, path), ModeNow(j, path).value); insn.Insn? && Faults(insn, acts, LevelsNow(j, path))
  }

  /** The translation that goes with a path: the operations on it and one return, and the
      features asked for on it, at the levels they had to begin with. */
  ghost function Along(j: Job, path: seq<Visit>, e: Ending): (t: Translation) {
    var acts := if e.Final? then Acts(path + [e.v]) else Acts(path);
    if e.Undecodable? then Failed
    else if e.Faulting? || !(Asks(acts) <= j.features.Keys) then Thrown
    else Translated(Ops(acts) + [Ret], map f | f in Asks(acts) :: j.features[f])
  }

  // ----- A block is what is on its path -----

  ghost function StateOn(j: Job, path: seq<Visit>): (s: State) {
    After(Initial(j.features, j.mode), Acts(path))
  }

  ghost function BlockFrom(j: Job, path: seq<Visit>): (r: Outcome)
    requires Count(path) <= MAX_COUNT
  {
    RunBlock(j.code, j.chaining, StateOn(j, path), NextPc(j, path), PageBase(j.address) % TWO_32, Count(path), Heads(j, path))
  }

  lemma {:induction false} OpsConcat(a: seq<Action>, b: seq<Action>)
    ensures Ops(a + b) == Ops(a) + Ops(b)
    decreases |b|
  {
    if b == [] {
      assert a + b == a;
    } else {
      OpsConcat(a, b[..|b| - 1]);
      assert (a + b)[..|a + b| - 1] == a + b[..|b| - 1];
    }
  }

  lemma {:induction false} LevelsConcat(a: seq<Action>, b: seq<Action>, levels: map<nat, nat>)
    ensures LevelsAfter(a + b, levels) == LevelsAfter(b, LevelsAfter(a, levels))
    decreases |b|
  {
    if b == [] {
      assert a + b == a;
    } else {
      LevelsConcat(a, b[..|b| - 1], levels);
      assert (a + b)[..|a + b| - 1] == a + b[..|b| - 1];
    }
  }

  lemma {:induction false} ModeConcat(a: seq<Action>, b: seq<Action>, mode: Option<nat>)
    ensures ModeAfter(a + b, mode) == ModeAfter(b, ModeAfter(a, mode))
    decreases |b|
  {
    if b == [] {
      assert a + b == a;
    } else {
      ModeConcat(a, b[..|b| - 1], mode);
      assert (a + b)[..|a + b| - 1] == a + b[..|b| - 1];
    }
  }

  lemma {:induction false} AsksConcat(a: seq<Action>, b: seq<Action>)
    ensures Asks(a + b) == Asks(a) + Asks(b)
    decreases |b|
  {
    if b == [] {
      assert a + b == a;
    } else {
      var init := b[..|b| - 1];
      AsksConcat(a, init);
      AsksSnoc(a + init, b[|b| - 1]);
      AsksSnoc(init, b[|b| - 1]);
      assert a + b == a + init + [b[|b| - 1]] && b == init + [b[|b| - 1]];
    }
  }

  lemma AfterConcat(s: State, a: seq<Action>, b: seq<Action>)
    ensures After(s, a + b) == After(After(s, a), b)
  {
    OpsConcat(a, b);
    LevelsConcat(a, b, s.levels);
    ModeConcat(a, b, s.mode);
    AsksConcat(a, b);
    hide Ops, LevelsAfter, ModeAfter, Asks;
    assert s.ir + (Ops(a) + Ops(b)) == s.ir + Ops(a) + Ops(b);
  }

  lemma {:induction false} PathSnoc(j: Job, path: seq<Visit>, v: Visit)
    ensures Acts(path + [v]) == Acts(path) + v.acts
    ensures NextPc(j, path + [v]) == if v.insn.endOfBlock then v.insn.jump.target else Add(v.pc, v.insn.length)
    ensures Count(path + [v]) == if v.insn.endOfBlock then 0 else Count(path) + 1
    ensures Heads(j, path + [v]) == Heads(j, path) + if v.insn.endOfBlock then {v.insn.jump.target} else {}
    ensures StateOn(j, path + [v]) == After(StateOn(j, path), v.acts)
  {
    var more := path + [v];
    assert more[..|more| - 1] == path;
    AfterConcat(Initial(j.features, j.mode), Acts(path), v.acts);
    forall a | a in Heads(j, path) && a != j.address ensures a in Heads(j, more) {
      var k :| 0 <= k < |path| && path[k].insn.endOfBlock && path[k].insn.jump.target == a;
      assert more[k] == path[k];
    }
    assert more[|path|] == v;
  }

  lemma StateParts(j: Job, path: seq<Visit>)
    ensures var s := StateOn(j, path);
      && s.levels == LevelsNow(j, path) && s.mode == ModeNow(j, path) && s.asked == Asks(Acts(path))
      && s.featuresValid == (InvalidateFeatures !in Acts(path)) && s.ir == Ops(Acts(path))
  {
  }

  /** An instruction on the path is the next one of the block. */
  lemma VisitRuns(j: Job, path: seq<Visit>, v: Visit)
    requires Visits(j, path, v)
    ensures Count(path + [v]) <= MAX_COUNT
    ensures BlockFrom(j, path) ==
      if v.insn.endOfBlock && !Merges(j, path, v) then Done(Emitted(StateOn(j, path + [v]), Ret), true)
      else BlockFrom(j, path + [v])
  {
    hide StateOn, Acts, ModeNow, LevelsNow, Count, NextPc, Heads, Finishes, After, RunBody, RunBlock, PageBase, Add;
    PathSnoc(j, path, v);
    StateParts(j, path);
    StateParts(j, path + [v]);
    BodyPerforms(v.insn, v.acts, StateOn(j, path));
    BlockStep(j, path, v);
    assert Heads(j, path) + {} == Heads(j, path);
  }

  /** The next turn of a block whose next instruction is translated. */
  lemma BlockStep(j: Job, path: seq<Visit>, v: Visit)
    requires Open(j, path) && v.pc == NextPc(j, path) && v.insn == j.code(v.pc, ModeNow(j, path).value)
    requires StateOn(j, path).mode == ModeNow(j, path) && StateOn(j, path).featuresValid
    requires RunBody(v.insn, 0, [], StateOn(j, path)).Done?
    ensures var s, page, heads := RunBody(v.insn, 0, [], StateOn(j, path)).state, PageBase(j.address) % TWO_32, Heads(j, path);
      BlockFrom(j, path) ==
        if !v.insn.endOfBlock then RunBlock(j.code, j.chaining, s, Add(v.pc, v.insn.length), page, Count(path) + 1, heads)
        else if CanMerge(v.insn, v.pc, s, j.chaining) && v.insn.jump.target !in heads then
          RunBlock(j.code, j.chaining, s, v.insn.jump.target, page, 0, heads + {v.insn.jump.target})
        else Done(Emitted(s, Ret), true)
  {
    hide StateOn, Acts, ModeNow, Count, NextPc, Heads, RunBody, PageBase, Add;
    if v.insn.endOfBlock && PageIndex(v.insn.jump.target) == PageIndex(v.pc) && v.insn.jump.target !in Heads(j, path) {
      HeadsGrow(v.pc, v.insn.jump.target, PageBase(j.address) % TWO_32, Heads(j, path));
    }
  }

  ghost function OutcomeOf(j: Job, path: seq<Visit>, e: Ending): (r: Outcome) {
    if e.Faulting? then Fault
    else Done(Emitted(StateOn(j, if e.Final? then path + [e.v] else path), Ret), !e.Undecodable?)
  }

  lemma EndRuns(j: Job, path: seq<Visit>, e: Ending)
    requires Ends(j, path, e) && Count(path) <= MAX_COUNT
    ensures BlockFrom(j, path) == OutcomeOf(j, path, e)
  {
    StateParts(j, path);
    hide StateOn, Acts, ModeNow, LevelsNow, Count, NextPc, Heads, After, RunBody, PageBase, Add, Faults, Visits, Merges;
    if e.Final? {
      VisitRuns(j, path, e.v);
    } else if e.Faulting? {
      BodyPerforms(j.code(NextPc(j, path), ModeNow(j, path).value), e.acts, StateOn(j, path));
    }
  }

  lemma {:induction false} WalkRuns(j: Job, path: seq<Visit>)
    requires Walk(j, path)
    ensures Count(path) <= MAX_COUNT && BlockFrom(j, path) == BlockFrom(j, [])
    decreases |path|
  {
    if path != [] {
      var init, v := path[..|path| - 1], path[|path| - 1];
      assert GoesOn(j, path, |init|) && path[..|init|] == init && path == init + [v];
      forall k | 0 <= k < |init| ensures GoesOn(j, init, k) {
        assert GoesOn(j, path, k) && init[..k] == path[..k];
      }
      hide GoesOn, Visits, Merges, BlockFrom;
      WalkRuns(j, init);
      VisitRuns(j, init, v);
    }
  }

  /** A translation is what is on its path through the code. */
  lemma TranslatesAlong(j: Job, path: seq<Visit>, e: Ending)
    requires Walk(j, path) && Ends(j, path, e)
    ensures Translate(j.code, j.chaining, j.features, j.mode, j.address) == Along(j, path, e)
  {
    WalkRuns(j, path);
    EndRuns(j, path, e);
    Beginning(j);
    var all := if e.Final? then path + [e.v] else path;
    StateParts(j, all);
    hide Walk, Ends, BlockFrom, StateOn, Acts, Ops, Asks, RunBlock;
  }

  lemma Beginning(j: Job)
    ensures Count([]) == 0 && Translate(j.code, j.chaining, j.features, j.mode, j.address) == Attached(j.features, BlockFrom(j, []))
  {
    assert StateOn(j, []) == Initial(j.features, j.mode);
    assert Heads(j, []) == {j.address};
    hide RunBlock;
  }

  /** Every translation has a path. */
  lemma EveryBlockHasPath(j: Job) returns (path: seq<Visit>, e: Ending)
    ensures Walk(j, path) && Ends(j, path, e)
  {
    path, e := PathFrom(j, []);
  }

  lemma {:induction false} PathFrom(j: Job, before: seq<Visit>) returns (path: seq<Visit>, e: Ending)
    requires Walk(j, before) && Count(before) <= MAX_COUNT
    ensures Walk(j, path) && Ends(j, path, e)
    decreases Page(PageBase(j.address) % TWO_32) - Heads(j, before), MAX_COUNT - Count(before)
  {
    hide Walk, Count, ModeNow, LevelsNow, Finishes, Faults, Heads, NextPc, PageBase, Acts, Page;
    path := before;
    if !Open(j, path) {
      return path, Closed;
    }
    var pc := NextPc(j, path);
    var insn := j.code(pc, ModeNow(j, path).value);
    if insn.Invalid? {
      return path, Undecodable;
    }
    var acts := EveryBodyPerforms(insn, LevelsNow(j, path));
    if Faults(insn, acts, LevelsNow(j, path)) {
      return path, Faulting(acts);
    }
    var v := Visit(pc, insn, acts);
    if insn.endOfBlock && !Merges(j, path, v) {
      return path, Final(v);
    }
    PathSnoc(j, path, v);
    WalkSnoc(j, path, v);
    if insn.endOfBlock {
      HeadsGrow(pc, insn.jump.target, PageBase(j.address) % TWO_32, Heads(j, path));
    } else {
      assert Heads(j, path) + {} == Heads(j, path);
    }
    path, e := PathFrom(j, path + [v]);
  }

  lemma WalkSnoc(j: Job, path: seq<Visit>, v: Visit)
    requires Walk(j, path) && Visits(j, path, v) && (v.insn.endOfBlock ==> Merges(j, path, v))
    ensures Walk(j, path + [v])
  {
    hide Visits, Merges;
    var more := path + [v];
    forall k | 0 <= k < |more| ensures GoesOn(j, more, k) {
      if k < |path| {
        assert GoesOn(j, path, k) && more[..k] == path[..k];
      } else {
        assert more[..k] == path;
      }
    }
  }
}

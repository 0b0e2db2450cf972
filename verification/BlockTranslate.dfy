/** Building the IR of a block of guest code, and when a translation made under one set
    of processor feature levels may be used under another. */
module BlockTranslate {
  import opened Addresses
  import opened Common

  const MAX_COUNT := 32
  const TWO_32 := 0x1_0000_0000

  datatype Ir = Op(op: nat) | SetCpuFeature(feature: nat, level: nat) | SetCpuMode(mode: Option<nat>) | Ret

  /** What an instruction's translator can do. It sees feature levels only as answers. */
  datatype Action =
    | Stop
    | Emit(op: nat)
    | GetLevel(feature: nat)
    | SetLevel(feature: nat, level: nat)
    | InvalidateFeatures
    | SetMode(mode: Option<nat>) // None: not a constant

  datatype Jump = Jump(indirect: bool, conditional: bool, target: Address)

  /** A decoded instruction, with its translator: the i-th action, given the answers to the
      levels it has asked for, in at most that many steps. */
  datatype Insn =
    | Invalid
    | Insn(length: nat, endOfBlock: bool, predicated: bool, jump: Jump, steps: nat, act: (nat, seq<nat>) -> Action)

  /** The guest code as decoded at an address in an ISA mode. */
  type Code = (Address, nat) -> Insn

  datatype State = State(
    levels: map<nat, nat>,
    asked: set<nat>,
    featuresValid: bool,
    mode: Option<nat>,
    ir: seq<Ir>)

  /** Fault: a level was asked for that the processor does not have. */
  datatype Outcome = Done(state: State, ok: bool) | Fault

  function Emitted(s: State, op: Ir): (r: State) {
    s.(ir := s.ir + [op])
  }

  /** The rest of an instruction's translation, from its i-th action. */
  function RunBody(insn: Insn, i: nat, answers: seq<nat>, s: State): (r: Outcome)
    requires insn.Insn?
    decreases insn.steps - i
  {
    if i >= insn.steps then Done(s, true) else
      match insn.act(i, answers)
      case Stop => Done(s, true)
      case Emit(op) => RunBody(insn, i + 1, answers, Emitted(s, Op(op)))
      case GetLevel(f) =>
        if f in s.levels then RunBody(insn, i + 1, answers + [s.levels[f]], s.(asked := s.asked + {f})) else Fault
      case SetLevel(f, l) =>
        RunBody(insn, i + 1, answers, Emitted(s.(levels := s.levels[f := l]), SetCpuFeature(f, l)))
      case InvalidateFeatures => RunBody(insn, i + 1, answers, s.(featuresValid := false))
      case SetMode(m) => RunBody(insn, i + 1, answers, Moded(s, m))
  }

  /** SetIsaMode: a mode that has become unknown stays so. */
  function Moded(s: State, m: Option<nat>): (r: State) {
    Emitted(s.(mode := if s.mode.Some? then m else None), SetCpuMode(m))
  }

  predicate CanMerge(insn: Insn, pc: Address, s: State, chaining: bool)
    requires insn.Insn?
  {
    && chaining && !insn.predicated && s.mode.Some?
    && !insn.jump.indirect && !insn.jump.conditional
    && PageIndex(insn.jump.target) == PageIndex(pc)
  }

  ghost function Page(base: nat): (r: set<int>) {
    set a | base <= a < base + PAGE_SIZE && OnPage(a, base)
  }

  ghost predicate OnPage(a: int, base: nat) {
    base <= a < base + PAGE_SIZE
  }

  /** Following a merged jump stays on the page and adds a new head. */
  lemma HeadsGrow(pc: Address, target: Address, page: nat, heads: set<Address>)
    requires PageBase(pc) == page < TWO_32 && PageIndex(target) == PageIndex(pc) && target !in heads
    ensures PageBase(target) % TWO_32 == page
    ensures Page(page) - (heads + {target}) < Page(page) - heads
  {
    assert OnPage(target, page);
    assert target in Page(page) - heads;
  }

  /** The rest of a block, from pc. */
  function RunBlock(code: Code, chaining: bool, s: State, pc: Address, page: nat, count: nat, heads: set<Address>): (r: Outcome)
    requires page < TWO_32 && count <= MAX_COUNT
    decreases Page(page) - heads, MAX_COUNT - count
  {
    if !(PageBase(pc) == page && count < MAX_COUNT && s.mode.Some? && s.featuresValid) then Done(Emitted(s, Ret), true) else
      var insn := code(pc, s.mode.value);
      if insn.Invalid? then Done(Emitted(s, Ret), false) else
        var r := RunBody(insn, 0, [], s);
        if r.Fault? then Fault
        else if !insn.endOfBlock then RunBlock(code, chaining, r.state, Add(pc, insn.length), page, count + 1, heads)
        else if CanMerge(insn, pc, r.state, chaining) && insn.jump.target !in heads then
          HeadsGrow(pc, insn.jump.target, page, heads);
          RunBlock(code, chaining, r.state, insn.jump.target, PageBase(insn.jump.target) % TWO_32, 0, heads + {insn.jump.target})
        else Done(Emitted(r.state, Ret), true)
  }

  // ----- Two runs -----

  /** Two states that differ at most in the levels of features outside f. */
  ghost predicate Alike(s: State, t: State, fs: set<nat>) {
    && s.asked == t.asked && s.featuresValid == t.featuresValid && s.mode == t.mode && s.ir == t.ir
    && forall f :: f in fs ==> (f in s.levels <==> f in t.levels) && (f in s.levels ==> s.levels[f] == t.levels[f])
  }

  ghost predicate SameOutcome(r: Outcome, r': Outcome, fs: set<nat>) {
    r.Done? && r'.Done? && r.ok == r'.ok && Alike(r.state, r'.state, fs)
  }

  lemma {:induction false} BodyAsks(insn: Insn, i: nat, answers: seq<nat>, s: State)
    requires insn.Insn? && RunBody(insn, i, answers, s).Done?
    ensures s.asked <= RunBody(insn, i, answers, s).state.asked
    decreases insn.steps - i
  {
    if i < insn.steps {
      match insn.act(i, answers) {
        case Stop =>
        case Emit(op) => BodyAsks(insn, i + 1, answers, Emitted(s, Op(op)));
        case GetLevel(f) => BodyAsks(insn, i + 1, answers + [s.levels[f]], s.(asked := s.asked + {f}));
        case SetLevel(f, l) => BodyAsks(insn, i + 1, answers, Emitted(s.(levels := s.levels[f := l]), SetCpuFeature(f, l)));
        case InvalidateFeatures => BodyAsks(insn, i + 1, answers, s.(featuresValid := false));
        case SetMode(m) => BodyAsks(insn, i + 1, answers, Moded(s, m));
      }
    }
  }

  /** An instruction is translated alike if the levels it asks for are alike. */
  lemma {:induction false} BodyReuse(insn: Insn, i: nat, answers: seq<nat>, s: State, t: State, fs: set<nat>)
    requires insn.Insn? && Alike(s, t, fs) && RunBody(insn, i, answers, s).Done?
    requires RunBody(insn, i, answers, s).state.asked <= fs
    ensures SameOutcome(RunBody(insn, i, answers, s), RunBody(insn, i, answers, t), fs)
    decreases insn.steps - i
  {
    if i < insn.steps {
      match insn.act(i, answers) {
        case Stop =>
        case Emit(op) => BodyReuse(insn, i + 1, answers, Emitted(s, Op(op)), Emitted(t, Op(op)), fs);
        case GetLevel(f) =>
          var s', t' := s.(asked := s.asked + {f}), t.(asked := t.asked + {f});
          BodyAsks(insn, i + 1, answers + [s.levels[f]], s');
          BodyReuse(insn, i + 1, answers + [s.levels[f]], s', t', fs);
        case SetLevel(f, l) =>
          var op := SetCpuFeature(f, l);
          var s', t' := s.(levels := s.levels[f := l]), t.(levels := t.levels[f := l]);
          BodyReuse(insn, i + 1, answers, Emitted(s', op), Emitted(t', op), fs);
        case InvalidateFeatures => BodyReuse(insn, i + 1, answers, s.(featuresValid := false), t.(featuresValid := false), fs);
        case SetMode(m) => BodyReuse(insn, i + 1, answers, Moded(s, m), Moded(t, m), fs);
      }
    }
  }

  lemma {:induction false} BlockAsks(code: Code, chaining: bool, s: State, pc: Address, page: nat, count: nat, heads: set<Address>)
    requires page < TWO_32 && count <= MAX_COUNT && RunBlock(code, chaining, s, pc, page, count, heads).Done?
    ensures s.asked <= RunBlock(code, chaining, s, pc, page, count, heads).state.asked
    decreases Page(page) - heads, MAX_COUNT - count
  {
    if PageBase(pc) == page && count < MAX_COUNT && s.mode.Some? && s.featuresValid {
      var insn := code(pc, s.mode.value);
      if insn.Insn? {
        BodyAsks(insn, 0, [], s);
        var r := RunBody(insn, 0, [], s);
        if !insn.endOfBlock {
          BlockAsks(code, chaining, r.state, Add(pc, insn.length), page, count + 1, heads);
        } else if CanMerge(insn, pc, r.state, chaining) && insn.jump.target !in heads {
          HeadsGrow(pc, insn.jump.target, page, heads);
          BlockAsks(code, chaining, r.state, insn.jump.target, page, 0, heads + {insn.jump.target});
        }
      }
    }
  }

  lemma {:induction false} BlockReuse(
    code: Code, chaining: bool, s: State, t: State, pc: Address, page: nat, count: nat, heads: set<Address>, fs: set<nat>)
    requires page < TWO_32 && count <= MAX_COUNT && Alike(s, t, fs)
    requires RunBlock(code, chaining, s, pc, page, count, heads).Done?
    requires RunBlock(code, chaining, s, pc, page, count, heads).state.asked <= fs
    ensures SameOutcome(RunBlock(code, chaining, s, pc, page, count, heads), RunBlock(code, chaining, t, pc, page, count, heads), fs)
    decreases Page(page) - heads, MAX_COUNT - count
  {
    if PageBase(pc) == page && count < MAX_COUNT && s.mode.Some? && s.featuresValid {
      var insn := code(pc, s.mode.value);
      if insn.Insn? {
        var r := RunBody(insn, 0, [], s);
        InstructionReuse(code, chaining, s, t, pc, page, count, heads, fs);
        var r' := RunBody(insn, 0, [], t);
        if !insn.endOfBlock {
          BlockReuse(code, chaining, r.state, r'.state, Add(pc, insn.length), page, count + 1, heads, fs);
        } else if CanMerge(insn, pc, r.state, chaining) && insn.jump.target !in heads {
          HeadsGrow(pc, insn.jump.target, page, heads);
          BlockReuse(code, chaining, r.state, r'.state, insn.jump.target, page, 0, heads + {insn.jump.target}, fs);
        }
      }
    }
  }

  /** The first instruction of the rest of a block. */
  lemma InstructionReuse(
    code: Code, chaining: bool, s: State, t: State, pc: Address, page: nat, count: nat, heads: set<Address>, fs: set<nat>)
    requires page < TWO_32 && count < MAX_COUNT && Alike(s, t, fs)
    requires PageBase(pc) == page && s.mode.Some? && s.featuresValid && code(pc, s.mode.value).Insn?
    requires RunBlock(code, chaining, s, pc, page, count, heads).Done?
    requires RunBlock(code, chaining, s, pc, page, count, heads).state.asked <= fs
    ensures var insn := code(pc, s.mode.value);
      SameOutcome(RunBody(insn, 0, [], s), RunBody(insn, 0, [], t), fs)
  {
    var insn := code(pc, s.mode.value);
    var r := RunBody(insn, 0, [], s);
    if !insn.endOfBlock {
      BlockAsks(code, chaining, r.state, Add(pc, insn.length), page, count + 1, heads);
    } else if CanMerge(insn, pc, r.state, chaining) && insn.jump.target !in heads {
      HeadsGrow(pc, insn.jump.target, page, heads);
      BlockAsks(code, chaining, r.state, insn.jump.target, page, 0, heads + {insn.jump.target});
    }
    BodyReuse(insn, 0, [], s, t, fs);
  }

  // ----- Whole translations -----

  datatype Translation = Translated(ir: seq<Ir>, required: map<nat, nat>) | Failed | Thrown

  function Initial(features: map<nat, nat>, mode: nat): (s: State) {
    State(features, {}, true, Some(mode), [])
  }

  /** translate_block up to the IR, with the features it attaches: those asked for, at the
      levels they had to begin with. */
  function Translate(code: Code, chaining: bool, features: map<nat, nat>, mode: nat, address: Address): (r: Translation) {
    Attached(features, RunBlock(code, chaining, Initial(features, mode), address, PageBase(address) % TWO_32, 0, {address}))
  }

  function Attached(features: map<nat, nat>, r: Outcome): (t: Translation) {
    if r.Fault? then Thrown
    else if !r.ok then Failed
    else if r.state.asked <= features.Keys then Translated(r.state.ir, map f | f in r.state.asked :: features[f])
    else Thrown
  }

  ghost predicate Accepts(required: map<nat, nat>, features: map<nat, nat>) {
    forall f :: f in required ==> f in features && features[f] == required[f]
  }

  /** A translation that is accepted under other feature levels is the one that would be
      made afresh under them. */
  lemma TranslationReuse(
    code: Code, chaining: bool, features: map<nat, nat>, features': map<nat, nat>, mode: nat, address: Address)
    requires Translate(code, chaining, features, mode, address).Translated?
    requires Accepts(Translate(code, chaining, features, mode, address).required, features')
    ensures Translate(code, chaining, features', mode, address) == Translate(code, chaining, features, mode, address)
  {
    var s, t := Initial(features, mode), Initial(features', mode);
    var page := PageBase(address) % TWO_32;
    var r := RunBlock(code, chaining, s, address, page, 0, {address});
    var required := Translate(code, chaining, features, mode, address).required;
    assert required.Keys == r.state.asked;
    BlockReuse(code, chaining, s, t, address, page, 0, {address}, r.state.asked);
    assert r.state.asked <= features'.Keys;
  }

  /** At and above four gigabytes the page comparison always fails. */
  lemma NothingTranslated(code: Code, chaining: bool, features: map<nat, nat>, mode: nat, address: Address)
    requires address >= TWO_32
    ensures Translate(code, chaining, features, mode, address) == Translated([Ret], map[])
  {
    var s := Initial(features, mode);
    assert PageBase(address) >= TWO_32;
    assert RunBlock(code, chaining, s, address, PageBase(address) % TWO_32, 0, {address}) == Done(Emitted(s, Ret), true);
  }

  /** Below, the code is looked at: where it cannot be decoded, translation fails. */
  lemma FirstInstructionSeen(chaining: bool, features: map<nat, nat>, mode: nat, address: Address)
    requires address < TWO_32
    ensures Translate((a, m) => Invalid, chaining, features, mode, address) == Failed
  {
    var code: Code := (a, m) => Invalid;
    var s := Initial(features, mode);
    assert PageBase(address) % TWO_32 == PageBase(address);
    assert RunBlock(code, chaining, s, address, PageBase(address), 0, {address}) == Done(Emitted(s, Ret), false);
  }

  /** The translation is a bare return whatever the code if and only if the address does not
      fit 32 bits. */
  lemma HighAddresses(chaining: bool, features: map<nat, nat>, mode: nat, address: Address)
    ensures (forall code: Code :: Translate(code, chaining, features, mode, address) == Translated([Ret], map[]))
            <==> address >= TWO_32
  {
    if address >= TWO_32 {
      forall code: Code ensures Translate(code, chaining, features, mode, address) == Translated([Ret], map[]) {
        NothingTranslated(code, chaining, features, mode, address);
      }
    } else {
      FirstInstructionSeen(chaining, features, mode, address);
    }
  }

  // ----- The translator -----

  class Translator {
    var levels: map<nat, nat>
    var initial: map<nat, nat>
    var asked: set<nat>
    var featuresValid: bool
    var mode: Option<nat>
    var ir: seq<Ir>
    const chaining: bool

    constructor (chaining: bool)
      ensures this.chaining == chaining
    {
      this.chaining := chaining;
      levels, initial, asked, featuresValid, mode, ir := map[], map[], {}, false, None, [];
    }

    ghost function View(): (s: State)
      reads this
    {
      State(levels, asked, featuresValid, mode, ir)
    }

    method SetFeatureLevel(feature: nat, level: nat)
      modifies this`levels, this`ir
      ensures levels == old(levels)[feature := level] && ir == old(ir) + [SetCpuFeature(feature, level)]
    {
      levels := levels[feature := level];
      ir := ir + [SetCpuFeature(feature, level)];
    }

    method GetFeatureLevel(feature: nat) returns (level: Option<nat>)
      modifies this`asked
      ensures asked == old(asked) + {feature}
      ensures level == if feature in levels then Some(levels[feature]) else None
    {
      asked := asked + {feature};
      if feature !in levels {
        return None;
      }
      level := Some(levels[feature]);
    }

    /** A constant sets the mode but does not make it known again. */
    method SetIsaMode(m: Option<nat>)
      modifies this`mode, this`ir
      ensures View() == Moded(old(View()), m)
    {
      if mode.Some? {
        mode := m;
      }
      ir := ir + [SetCpuMode(m)];
    }

    /** translate_instruction; false when it throws. */
    method EmitInstruction(insn: Insn) returns (ok: bool)
      requires insn.Insn?
      modifies this`levels, this`asked, this`featuresValid, this`mode, this`ir
      ensures ok <==> RunBody(insn, 0, [], old(View())).Done?
      ensures ok ==> RunBody(insn, 0, [], old(View())) == Done(View(), true)
    {
      var i, answers := 0, [];
      while i < insn.steps && insn.act(i, answers) != Stop
        invariant RunBody(insn, i, answers, View()) == RunBody(insn, 0, [], old(View()))
        decreases insn.steps - i
      {
        match insn.act(i, answers) {
          case Emit(op) => ir := ir + [Op(op)];
          case GetLevel(f) =>
            var level := GetFeatureLevel(f);
            if level.None? {
              return false;
            }
            answers := answers + [level.value];
          case SetLevel(f, l) => SetFeatureLevel(f, l);
          case InvalidateFeatures => featuresValid := false;
          case SetMode(m) =>
            SetIsaMode(m);
        }
        i := i + 1;
      }
      return true;
    }

    /** None when it throws. */
    method EmitBlock(code: Code, address: Address, heads: set<Address>) returns (success: Option<bool>)
      requires address in heads
      modifies this`levels, this`asked, this`featuresValid, this`mode, this`ir
      ensures var r := RunBlock(code, chaining, old(View()), address, PageBase(address) % TWO_32, 0, heads);
        if success.Some? then r == Done(View(), success.value) else r == Fault
      decreases Page(PageBase(address) % TWO_32) - heads
    {
      var pc, page, count := address, PageBase(address) % TWO_32, 0;
      var ok := true;
      while PageBase(pc) == page && count < MAX_COUNT && mode.Some? && featuresValid
        invariant 0 <= count <= MAX_COUNT
        invariant RunBlock(code, chaining, View(), pc, page, count, heads) ==
          RunBlock(code, chaining, old(View()), address, page, 0, heads)
        decreases MAX_COUNT - count
      {
        var insn := code(pc, mode.value);
        if insn.Invalid? {
          ok := false;
          break;
        }
        var done := EmitInstruction(insn);
        if !done {
          return None;
        }
        if insn.endOfBlock {
          if CanMerge(insn, pc, State(levels, asked, featuresValid, mode, ir), chaining) && insn.jump.target !in heads {
            HeadsGrow(pc, insn.jump.target, page, heads);
            success := EmitBlock(code, insn.jump.target, heads + {insn.jump.target});
            return;
          }
          break;
        }
        count := count + 1;
        pc := Add(pc, insn.length);
      }
      ir := ir + [Ret];
      return Some(ok);
    }

    method InitialiseFeatures(features: map<nat, nat>)
      modifies this`levels, this`initial, this`asked, this`featuresValid
      ensures levels == initial == features && asked == {} && featuresValid
    {
      asked := {};
      levels := features;
      initial := levels;
      featuresValid := true;
    }

    /** The features asked for, at the levels they had to begin with; None when one of them
        had none. */
    method AttachFeatures() returns (required: Option<map<nat, nat>>)
      ensures required.Some? <==> asked <= initial.Keys
      ensures required.Some? ==> required.value.Keys == asked
      ensures required.Some? ==> forall f :: f in asked ==> required.value[f] == initial[f]
    {
      var rest, txln: map<nat, nat> := asked, map[];
      while rest != {}
        invariant rest <= asked && txln.Keys == asked - rest && txln.Keys <= initial.Keys
        invariant forall f :: f in txln ==> txln[f] == initial[f]
        decreases rest
      {
        var f :| f in rest;
        if f !in initial {
          return None;
        }
        txln := txln[f := initial[f]];
        rest := rest - {f};
      }
      return Some(txln);
    }

    method TranslateBlock(code: Code, features: map<nat, nat>, isaMode: nat, address: Address) returns (r: Translation)
      modifies this
      ensures r == Translate(code, chaining, features, isaMode, address)
    {
      ir := [];
      InitialiseFeatures(features);
      mode := Some(isaMode);
      assert View() == Initial(features, isaMode);
      var success := EmitBlock(code, address, {address});
      if success.None? {
        return Thrown;
      }
      if !success.value {
        return Failed;
      }
      var required := AttachFeatures();
      if required.None? {
        return Thrown;
      }
      r := Translated(ir, required.value);
      assert required.value == map f | f in asked :: features[f];
    }
  }

  /** The required features in the order of their ids: true when all have the required
      level; otherwise the first that does not decides, false for another level and None,
      an exception, for none at all. */
  method FeaturesValid(required: seq<(nat, nat)>, features: map<nat, nat>) returns (r: Option<bool>)
    ensures r == Some(true) <==> forall i :: 0 <= i < |required| ==> Has(features, required[i])
    ensures r != Some(true) ==> exists i :: 0 <= i < |required| && Decides(required, features, i) &&
                                            (r == None <==> required[i].0 !in features)
  {
    var i := 0;
    while i < |required|
      invariant 0 <= i <= |required|
      invariant forall k :: 0 <= k < i ==> Has(features, required[k])
    {
      if required[i].0 !in features {
        assert Decides(required, features, i);
        return None;
      }
      if features[required[i].0] != required[i].1 {
        assert Decides(required, features, i);
        return Some(false);
      }
      i := i + 1;
    }
    return Some(true);
  }

  ghost predicate Has(features: map<nat, nat>, r: (nat, nat)) {
    r.0 in features && features[r.0] == r.1
  }

  ghost predicate Decides(required: seq<(nat, nat)>, features: map<nat, nat>, i: nat)
    requires i < |required|
  {
    !Has(features, required[i]) && forall k :: 0 <= k < i ==> Has(features, required[k])
  }

  /** The list a translation's required features are kept in. */
  ghost predicate Lists(required: seq<(nat, nat)>, m: map<nat, nat>) {
    && (forall i :: 0 <= i < |required| ==> required[i].0 in m && m[required[i].0] == required[i].1)
    && forall f :: f in m ==> (f, m[f]) in required
  }

  lemma ValidAccepts(required: seq<(nat, nat)>, m: map<nat, nat>, features: map<nat, nat>)
    requires Lists(required, m)
    ensures Accepts(m, features) <==> forall i :: 0 <= i < |required| ==> Has(features, required[i])
  {
    if forall i :: 0 <= i < |required| ==> Has(features, required[i]) {
      forall f | f in m ensures f in features && features[f] == m[f] {
        var i :| 0 <= i < |required| && required[i] == (f, m[f]);
        assert Has(features, required[i]);
      }
    }
  }

  /** The check that stands before a stored translation is used: where it passes, the
      translation is the one that would be made afresh. */
  method CheckReuse(
    code: Code, chaining: bool, features: map<nat, nat>, features': map<nat, nat>, mode: nat, address: Address,
    required: seq<(nat, nat)>)
    returns (r: Option<bool>)
    requires Translate(code, chaining, features, mode, address).Translated?
    requires Lists(required, Translate(code, chaining, features, mode, address).required)
    ensures r == Some(true) <==> Accepts(Translate(code, chaining, features, mode, address).required, features')
    ensures r == Some(true) ==>
      Translate(code, chaining, features', mode, address) == Translate(code, chaining, features, mode, address)
  {
    hide Translate;
    r := FeaturesValid(required, features');
    ValidAccepts(required, Translate(code, chaining, features, mode, address).required, features');
    if r == Some(true) {
      TranslationReuse(code, chaining, features, features', mode, address);
    }
  }
}

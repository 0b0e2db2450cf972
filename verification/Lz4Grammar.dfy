/** Which inputs the two decoders accept, with which output, and where they give up on the
    others: a grammar of the input that says nothing of how a decoder goes about it. */
module Lz4Grammar {
  import opened Common
  import opened Lz4Format

  /** LZ4_uncompress, LZ4_uncompress_unknownOutputSize */
  datatype Decoder = Known | Bounded

  /** A sequence in the input: the token at `at`, `run` literals from `lit` on, the offset
      behind them, and the bytes of the match length up to `end`. */
  datatype Turn = Turn(at: nat, lit: nat, run: nat, offset: nat, length: nat, end: nat)

  /** How an input ends: with literals, with a match that fills the output, with nothing at
      all, with a fault, or with a length that overflows. */
  datatype Verdict = Literals(consumed: nat) | Filled(consumed: nat) | Nothing | Faulty(pos: nat) | TooLong

  datatype Parse = Parse(turns: seq<Turn>, last: Turn, verdict: Verdict)

  // ----- The grammar -----

  /** A length below 15 is its nibble. For others bytes follow, all but the last of them 255,
      and the length is 15 and their sum. The bounded decoder also takes a length that the
      end of the input cuts short. */
  ghost predicate Spells(d: Decoder, src: seq<byte>, nibble: nat, from: nat, length: nat, to: nat) {
    if nibble < 15 then length == nibble && to == from
    else Terminated(d, src, from, length, to) || (d.Bounded? && CutShort(src, from, length, to))
  }

  ghost predicate Terminated(d: Decoder, src: seq<byte>, from: nat, length: nat, to: nat) {
    && from < to && (d.Bounded? ==> to <= |src|)
    && (forall k :: from <= k < to - 1 ==> Peek(src, k) == 255) && Peek(src, to - 1) != 255
    && length == 15 + 255 * (to - 1 - from) + Peek(src, to - 1)
  }

  ghost predicate CutShort(src: seq<byte>, from: nat, length: nat, to: nat) {
    from <= to == |src| && (forall k :: from <= k < to ==> Peek(src, k) == 255) && length == 15 + 255 * (to - from)
  }

  /** The token and the literals. */
  ghost predicate RunAt(d: Decoder, src: seq<byte>, t: Turn) {
    (d.Bounded? ==> t.at < |src|) && Spells(d, src, Peek(src, t.at) / 16, t.at + 1, t.run, t.lit)
  }

  ghost predicate OffsetAt(src: seq<byte>, t: Turn) {
    t.offset == Peek(src, t.lit + t.run) + 256 * Peek(src, t.lit + t.run + 1)
  }

  ghost predicate LengthAt(d: Decoder, src: seq<byte>, t: Turn) {
    Spells(d, src, Peek(src, t.at) % 16, t.lit + t.run + 2, t.length, t.end)
  }

  /** After b bytes of output, the literals fit what there is of input and output. */
  ghost predicate RunFits(d: Decoder, src: seq<byte>, limit: nat, b: nat, t: Turn) {
    t.run < INT_LIMIT && b + t.run <= limit && (d.Bounded? ==> t.lit + t.run <= |src|)
  }

  /** Too near an end for a match to follow. */
  ghost predicate NearEnd(d: Decoder, src: seq<byte>, limit: nat, b: nat, t: Turn) {
    b + t.run > limit - COPYLENGTH || (d.Bounded? && t.lit + t.run > |src| - COPYLENGTH)
  }

  /** A match follows the literals, and refers to output that there is. */
  ghost predicate Matched(d: Decoder, src: seq<byte>, limit: nat, b: nat, t: Turn) {
    && RunAt(d, src, t) && RunFits(d, src, limit, b, t) && !NearEnd(d, src, limit, b, t)
    && OffsetAt(src, t) && t.offset <= b + t.run && LengthAt(d, src, t)
  }

  function Size(turns: seq<Turn>): (n: nat) {
    if turns == [] then 0 else
      Size(turns[..|turns| - 1]) + turns[|turns| - 1].run + turns[|turns| - 1].length + MINMATCH
  }

  function Position(turns: seq<Turn>): (n: nat) {
    if turns == [] then 0 else turns[|turns| - 1].end
  }

  /** One sequence behind another, and none of them fills the output. */
  ghost predicate Follow(d: Decoder, src: seq<byte>, limit: nat, turns: seq<Turn>) {
    forall k :: 0 <= k < |turns| ==> GoesOn(d, src, limit, turns, k)
  }

  ghost predicate GoesOn(d: Decoder, src: seq<byte>, limit: nat, turns: seq<Turn>, k: nat)
    requires k < |turns|
  {
    var t, b := turns[k], Size(turns[..k]);
    && t.at == Position(turns[..k]) && Matched(d, src, limit, b, t) && t.length < INT_LIMIT
    && b + t.run + t.length + MINMATCH < limit
  }

  ghost predicate Ends(d: Decoder, src: seq<byte>, limit: nat, b: nat, t: Turn, v: Verdict) {
    RunAt(d, src, t) &&
    match v
    case Literals(consumed) =>
      RunFits(d, src, limit, b, t) && NearEnd(d, src, limit, b, t) && consumed == t.lit + t.run && (d.Bounded? ==> consumed == |src|)
    case Filled(consumed) =>
      Matched(d, src, limit, b, t) && t.length < INT_LIMIT && b + t.run + t.length + MINMATCH == limit && consumed == t.end
    case Nothing => false
    case Faulty(pos) =>
      || (t.run < INT_LIMIT && !RunFits(d, src, limit, b, t) && pos == t.lit)
      || (d.Bounded? && RunFits(d, src, limit, b, t) && NearEnd(d, src, limit, b, t) && t.lit + t.run < |src| && pos == t.lit + t.run)
      || (RunFits(d, src, limit, b, t) && !NearEnd(d, src, limit, b, t) && OffsetAt(src, t) && t.offset > b + t.run
          && pos == t.lit + t.run + 2)
      || (Matched(d, src, limit, b, t) && t.length < INT_LIMIT && b + t.run + t.length + MINMATCH > limit && pos == t.end)
    case TooLong => t.run >= INT_LIMIT || (Matched(d, src, limit, b, t) && t.length >= INT_LIMIT)
  }

  ghost predicate Parses(d: Decoder, src: seq<byte>, limit: nat, p: Parse) {
    && Follow(d, src, limit, p.turns)
    && if p.verdict.Nothing? then d.Bounded? && Position(p.turns) == |src|
       else p.last.at == Position(p.turns) && Ends(d, src, limit, Size(p.turns), p.last, p.verdict)
  }

  // ----- The output -----

  /** After b bytes of output, the literals of a sequence come from the input and every byte
      of its match from `offset` back; with offset 0 nothing is said of them. */
  ghost predicate Copied(src: seq<byte>, t: Turn, b: nat, out: seq<byte>) {
    && b + t.run + t.length + MINMATCH <= |out| && t.offset <= b + t.run
    && (forall j :: b <= j < b + t.run ==> out[j] == Peek(src, t.lit + (j - b)))
    && (t.offset > 0 ==> forall j :: b + t.run <= j < b + t.run + t.length + MINMATCH ==> out[j] == out[j - t.offset])
  }

  ghost predicate Holds(src: seq<byte>, turns: seq<Turn>, out: seq<byte>) {
    Size(turns) <= |out| && forall k :: 0 <= k < |turns| ==> Copied(src, turns[k], Size(turns[..k]), out)
  }

  ghost predicate Plain(turns: seq<Turn>) {
    forall k :: 0 <= k < |turns| ==> turns[k].offset > 0
  }

  /** The outcome that goes with a parse. */
  ghost predicate Answers(src: seq<byte>, p: Parse, o: Outcome) {
    match p.verdict
    case Literals(consumed) =>
      && o.Done? && o.consumed == consumed && o.exact == Plain(p.turns)
      && |o.out| == Size(p.turns) + p.last.run && Holds(src, p.turns, o.out)
      && forall j :: Size(p.turns) <= j < |o.out| ==> o.out[j] == Peek(src, p.last.lit + (j - Size(p.turns)))
    case Filled(consumed) =>
      && o.Done? && o.consumed == consumed && o.exact == Plain(p.turns + [p.last])
      && |o.out| == Size(p.turns + [p.last]) && Holds(src, p.turns + [p.last], o.out)
    case Nothing =>
      && o.Done? && o.consumed == |src| && o.exact == Plain(p.turns)
      && |o.out| == Size(p.turns) && Holds(src, p.turns, o.out)
    case Faulty(pos) => o == Fault(pos)
    case TooLong => o == Overflow
  }

  // ----- Lengths -----

  ghost function Read(d: Decoder, src: seq<byte>, nibble: nat, from: nat): (r: (nat, nat))
    requires d.Bounded? ==> from <= |src|
  {
    if d.Known? then ReadLength(src, nibble, from) else ReadBoundedLength(src, nibble, from)
  }

  lemma {:induction false} ExtensionSpells(d: Decoder, src: seq<byte>, from: nat)
    requires d.Bounded? ==> from <= |src|
    ensures var (n, to) := if d.Known? then ReadExtension(src, from) else ReadBoundedExtension(src, from);
      Spells(d, src, 15, from, 15 + n, to)
    decreases |src| - from
  {
    if from < |src| && src[from] == 255 {
      ExtensionSpells(d, src, from + 1);
    }
  }

  /** No two lengths are spelled alike. */
  lemma SpellsOne(d: Decoder, src: seq<byte>, from: nat, n: nat, to: nat, n': nat, to': nat)
    requires Spells(d, src, 15, from, n, to) && Spells(d, src, 15, from, n', to')
    ensures n == n' && to == to'
  {
  }

  /** What a decoder reads as a length is what is spelled there. */
  lemma ReadSpells(d: Decoder, src: seq<byte>, nibble: nat, from: nat, n: nat, to: nat)
    requires nibble < 16 && (d.Bounded? ==> from <= |src|)
    ensures Spells(d, src, nibble, from, n, to) <==> Read(d, src, nibble, from) == (n, to)
  {
    if nibble == 15 {
      ExtensionSpells(d, src, from);
      var r := Read(d, src, nibble, from);
      if Spells(d, src, nibble, from, n, to) {
        SpellsOne(d, src, from, n, to, r.0, r.1);
      }
    }
  }

  // ----- One turn -----

  function Decode(d: Decoder, src: seq<byte>, ip: nat, out: seq<byte>, exact: bool, limit: nat): (o: Outcome)
    requires |out| <= limit && (d.Bounded? ==> ip <= |src|)
  {
    if d.Known? then DecodeKnown(src, ip, out, exact, limit) else DecodeBounded(src, ip, out, exact, limit)
  }

  function StepOf(d: Decoder, src: seq<byte>, ip: nat, out: seq<byte>, exact: bool, limit: nat): (r: Step)
    requires |out| <= limit && (d.Bounded? ==> ip < |src|)
  {
    if d.Known? then KnownStep(src, ip, out, exact, limit) else BoundedStep(src, ip, out, exact, limit)
  }

  ghost function WithRun(src: seq<byte>, t: Turn, out: seq<byte>): (r: seq<byte>)
    ensures |r| == |out| + t.run
  {
    out + PeekSlice(src, t.lit, t.run)
  }

  lemma SliceIsPeek(src: seq<byte>, t: Turn)
    requires t.lit + t.run <= |src|
    ensures src[t.lit..t.lit + t.run] == PeekSlice(src, t.lit, t.run)
  {
  }

  lemma SpellsIn(d: Decoder, src: seq<byte>, nibble: nat, from: nat, n: nat, to: nat)
    requires Spells(d, src, nibble, from, n, to) && (d.Bounded? ==> from <= |src|)
    ensures from <= to && (d.Bounded? ==> to <= |src|)
  {
  }

  /** Up to the literals, a turn does what the grammar says of them. */
  lemma RunSteps(d: Decoder, src: seq<byte>, limit: nat, t: Turn, out: seq<byte>, exact: bool)
    requires |out| <= limit && RunAt(d, src, t)
    ensures var r := StepOf(d, src, t.at, out, exact, limit);
      && (t.run >= INT_LIMIT ==> r == Stop(Overflow))
      && (t.run < INT_LIMIT && !RunFits(d, src, limit, |out|, t) ==> r == Stop(Fault(t.lit)))
      && (RunFits(d, src, limit, |out|, t) && NearEnd(d, src, limit, |out|, t) ==>
            r == if d.Bounded? && t.lit + t.run < |src| then Stop(Fault(t.lit + t.run))
                 else Stop(Done(t.lit + t.run, WithRun(src, t, out), exact)))
      && (RunFits(d, src, limit, |out|, t) && !NearEnd(d, src, limit, |out|, t) ==>
            r == if d.Known? then KnownMatch(src, t.lit + t.run, Peek(src, t.at) % 16, WithRun(src, t, out), exact, limit)
                 else BoundedMatch(src, t.lit + t.run, Peek(src, t.at) % 16, WithRun(src, t, out), exact, limit))
  {
    hide ReadLength, ReadBoundedLength, KnownMatch, BoundedMatch, Spells, PeekSlice;
    ReadSpells(d, src, Peek(src, t.at) / 16, t.at + 1, t.run, t.lit);
    if d.Bounded? && RunFits(d, src, limit, |out|, t) {
      SliceIsPeek(src, t);
    }
  }

  /** Behind the literals, it does what the grammar says of offset and length. */
  lemma MatchSteps(d: Decoder, src: seq<byte>, limit: nat, t: Turn, out: seq<byte>, exact: bool)
    requires |out| <= limit && RunAt(d, src, t) && OffsetAt(src, t)
    requires RunFits(d, src, limit, |out|, t) && !NearEnd(d, src, limit, |out|, t)
    ensures var r, out' := StepOf(d, src, t.at, out, exact, limit), WithRun(src, t, out);
      && (t.offset > |out'| ==> r == Stop(Fault(t.lit + t.run + 2)))
      && (t.offset <= |out'| && LengthAt(d, src, t) ==>
            r == if t.length >= INT_LIMIT then Stop(Overflow) else MatchStep(out', t.offset, t.length, exact, t.end, limit))
  {
    hide StepOf, RunAt, Read, Spells, WithRun, MatchStep;
    RunSteps(d, src, limit, t, out, exact);
    ReadSpells(d, src, Peek(src, t.at) % 16, t.lit + t.run + 2, t.length, t.end);
    ReadDef(d, src, Peek(src, t.at) % 16, t.lit + t.run + 2);
    hide ReadLength, ReadBoundedLength;
  }

  lemma ReadDef(d: Decoder, src: seq<byte>, nibble: nat, from: nat)
    requires d.Bounded? ==> from <= |src|
    ensures Read(d, src, nibble, from) == if d.Known? then ReadLength(src, nibble, from) else ReadBoundedLength(src, nibble, from)
  {
  }

  // ----- Whole inputs -----

  lemma {:induction false} MatchCopies(out: seq<byte>, offset: nat, n: nat)
    requires offset <= |out|
    ensures var r := AppendMatch(out, offset, n);
      && (forall j :: 0 <= j < |out| ==> r[j] == out[j])
      && (offset > 0 ==> forall j :: |out| <= j < |r| ==> r[j] == r[j - offset])
    decreases n
  {
    if offset > 0 && n > 0 {
      MatchCopies(out, offset, n - 1);
      var r, r' := CopyMatch(out, offset, n - 1), CopyMatch(out, offset, n);
      assert AppendMatch(out, offset, n - 1) == r && r' == r + [r[|r| - offset]];
      forall j | |out| <= j < |r'| ensures r'[j] == r'[j - offset] {
        assert r'[j - offset] == r[j - offset];
        if j < |r| {
          assert r[j] == r[j - offset];
        }
      }
    }
  }

  lemma SizeSnoc(turns: seq<Turn>, t: Turn)
    ensures Size(turns + [t]) == Size(turns) + t.run + t.length + MINMATCH && Position(turns + [t]) == t.end
    ensures forall k :: 0 <= k <= |turns| ==> (turns + [t])[..k] == turns[..k]
    ensures Plain(turns + [t]) <==> Plain(turns) && t.offset > 0
  {
    assert (turns + [t])[..|turns + [t]| - 1] == turns;
    if Plain(turns + [t]) {
      assert (turns + [t])[|turns|] == t;
      assert forall k :: 0 <= k < |turns| ==> (turns + [t])[k] == turns[k];
    }
  }

  lemma HoldsLonger(src: seq<byte>, turns: seq<Turn>, out: seq<byte>, out': seq<byte>)
    requires Holds(src, turns, out) && |out| <= |out'| && forall j :: 0 <= j < |out| ==> out'[j] == out[j]
    ensures Holds(src, turns, out')
  {
    forall k | 0 <= k < |turns| ensures Copied(src, turns[k], Size(turns[..k]), out') {
      assert Copied(src, turns[k], Size(turns[..k]), out);
    }
  }

  /** One more sequence in the output. */
  lemma HoldsSnoc(src: seq<byte>, turns: seq<Turn>, t: Turn, out: seq<byte>)
    requires Holds(src, turns, out) && |out| == Size(turns) && t.offset <= |out| + t.run
    ensures var out' := AppendMatch(WithRun(src, t, out), t.offset, t.length + MINMATCH);
      Holds(src, turns + [t], out') && |out'| == Size(turns + [t])
  {
    var out' := AppendMatch(WithRun(src, t, out), t.offset, t.length + MINMATCH);
    TurnCopied(src, t, out);
    SizeSnoc(turns, t);
    hide AppendMatch, Size, WithRun, Copied;
    HoldsLonger(src, turns, out, out');
    var more := turns + [t];
    forall k | 0 <= k < |more| ensures Copied(src, more[k], Size(more[..k]), out') {
      if k == |turns| {
        assert more[..k] == turns;
      } else {
        assert more[..k] == turns[..k] && more[k] == turns[k];
      }
    }
  }

  lemma TurnCopied(src: seq<byte>, t: Turn, out: seq<byte>)
    requires t.offset <= |out| + t.run
    ensures var out' := AppendMatch(WithRun(src, t, out), t.offset, t.length + MINMATCH);
      Copied(src, t, |out|, out') && forall j :: 0 <= j < |out| ==> out'[j] == out[j]
  {
    MatchCopies(WithRun(src, t, out), t.offset, t.length + MINMATCH);
    RunCopies(src, t, out);
    hide AppendMatch, WithRun;
  }

  lemma RunCopies(src: seq<byte>, t: Turn, out: seq<byte>)
    ensures var r := WithRun(src, t, out);
      && (forall j :: 0 <= j < |out| ==> r[j] == out[j])
      && (forall j :: |out| <= j < |r| ==> r[j] == Peek(src, t.lit + (j - |out|)))
  {
  }

  lemma DecodeDef(d: Decoder, src: seq<byte>, ip: nat, out: seq<byte>, exact: bool, limit: nat)
    requires |out| <= limit && (d.Bounded? ==> ip < |src|)
    ensures match StepOf(d, src, ip, out, exact, limit)
      case Stop(o) => Decode(d, src, ip, out, exact, limit) == o
      case Next(ip', out', exact') =>
        Decode(d, src, ip, out, exact, limit) == Decode(d, src, ip', out', exact', limit)
  {
    hide KnownStep, BoundedStep;
  }

  lemma MatchStepDef(out: seq<byte>, t: Turn, exact: bool, limit: nat)
    requires t.offset <= |out|
    ensures var r := AppendMatch(out, t.offset, t.length + MINMATCH);
      MatchStep(out, t.offset, t.length, exact, t.end, limit) ==
        if |r| > limit then Stop(Fault(t.end))
        else if |r| == limit then Stop(Done(t.end, r, exact && t.offset > 0))
        else Next(t.end, r, exact && t.offset > 0)
  {
  }

  /** Sequences that follow each other are decoded one by one. */
  lemma {:induction false} FollowDecodes(d: Decoder, src: seq<byte>, limit: nat, turns: seq<Turn>) returns (out: seq<byte>)
    requires Follow(d, src, limit, turns)
    ensures |out| == Size(turns) <= limit && Holds(src, turns, out) && (d.Bounded? ==> Position(turns) <= |src|)
    ensures Decode(d, src, 0, [], true, limit) == Decode(d, src, Position(turns), out, Plain(turns), limit)
    decreases |turns|
  {
    if turns == [] {
      out := [];
    } else {
      var init, t := turns[..|turns| - 1], turns[|turns| - 1];
      assert turns == init + [t];
      SizeSnoc(init, t);
      assert GoesOn(d, src, limit, turns, |init|) && turns[..|init|] == init;
      FollowInit(d, src, limit, turns);
      hide Follow, Spells, MatchStep, AppendMatch, WithRun, Size, Position, Decode, StepOf, Plain, Holds;
      var before := FollowDecodes(d, src, limit, init);
      MatchSteps(d, src, limit, t, before, Plain(init));
      DecodeDef(d, src, t.at, before, Plain(init), limit);
      MatchStepDef(WithRun(src, t, before), t, Plain(init), limit);
      HoldsSnoc(src, init, t, before);
      out := AppendMatch(WithRun(src, t, before), t.offset, t.length + MINMATCH);
      EndIn(d, src, t);
    }
  }

  lemma EndIn(d: Decoder, src: seq<byte>, t: Turn)
    requires LengthAt(d, src, t) && (d.Bounded? ==> t.lit + t.run + 2 <= |src|)
    ensures t.lit + t.run + 2 <= t.end && (d.Bounded? ==> t.end <= |src|)
  {
  }

  lemma FollowInit(d: Decoder, src: seq<byte>, limit: nat, turns: seq<Turn>)
    requires turns != [] && Follow(d, src, limit, turns)
    ensures Follow(d, src, limit, turns[..|turns| - 1])
  {
    hide Matched;
    var init := turns[..|turns| - 1];
    forall k | 0 <= k < |init| ensures GoesOn(d, src, limit, init, k) {
      assert GoesOn(d, src, limit, turns, k) && init[..k] == turns[..k];
    }
  }

  /** A decoder answers every input as the grammar says. */
  lemma DecodesAsParsed(d: Decoder, src: seq<byte>, limit: nat, p: Parse)
    requires Parses(d, src, limit, p)
    ensures Answers(src, p, Decode(d, src, 0, [], true, limit))
  {
    hide Follow, Spells, Size, Position, Holds, Plain, Decode, StepOf, MatchStep, WithRun, AppendMatch;
    var out := FollowDecodes(d, src, limit, p.turns);
    var t, exact := p.last, Plain(p.turns);
    if p.verdict.Nothing? {
      NothingLeft(src, out, exact, limit);
    } else {
      RunSteps(d, src, limit, t, out, exact);
      DecodeDef(d, src, t.at, out, exact, limit);
      if p.verdict.Literals? {
        RunCopies(src, t, out);
        HoldsLonger(src, p.turns, out, WithRun(src, t, out));
      } else if RunFits(d, src, limit, |out|, t) && !NearEnd(d, src, limit, |out|, t) && OffsetAt(src, t) {
        MatchSteps(d, src, limit, t, out, exact);
        if t.offset <= |out| + t.run {
          MatchStepDef(WithRun(src, t, out), t, exact, limit);
          HoldsSnoc(src, p.turns, t, out);
          SizeSnoc(p.turns, t);
        }
      }
    }
  }

  lemma NothingLeft(src: seq<byte>, out: seq<byte>, exact: bool, limit: nat)
    requires |out| <= limit
    ensures Decode(Bounded, src, |src|, out, exact, limit) == Done(|src|, out, exact)
  {
  }

  /** What comes next in the input: the end, or a sequence. */
  lemma NextTurn(d: Decoder, src: seq<byte>, limit: nat, ip: nat, b: nat) returns (t: Turn, v: Option<Verdict>)
    requires b <= limit && (d.Bounded? ==> ip < |src|)
    ensures t.at == ip
    ensures v.Some? ==> Ends(d, src, limit, b, t, v.value)
    ensures v.None? ==> Matched(d, src, limit, b, t) && t.length < INT_LIMIT && b + t.run + t.length + MINMATCH < limit
    ensures v.None? ==> ip < t.end && (d.Bounded? ==> t.end <= |src|)
  {
    hide Spells, Read;
    var (run, lit) := Read(d, src, Peek(src, ip) / 16, ip + 1);
    t := Turn(ip, lit, run, 0, 0, 0);
    ReadSpells(d, src, Peek(src, ip) / 16, ip + 1, run, lit);
    SpellsIn(d, src, Peek(src, ip) / 16, ip + 1, run, lit);
    if run >= INT_LIMIT {
      v := Some(TooLong);
    } else if !RunFits(d, src, limit, b, t) {
      v := Some(Faulty(lit));
    } else if NearEnd(d, src, limit, b, t) {
      v := Some(if d.Bounded? && lit + run < |src| then Faulty(lit + run) else Literals(lit + run));
    } else {
      t, v := NextMatch(d, src, limit, b, t);
    }
  }

  lemma NextMatch(d: Decoder, src: seq<byte>, limit: nat, b: nat, t0: Turn) returns (t: Turn, v: Option<Verdict>)
    requires RunAt(d, src, t0) && RunFits(d, src, limit, b, t0) && !NearEnd(d, src, limit, b, t0)
    ensures t.at == t0.at && (v.Some? ==> Ends(d, src, limit, b, t, v.value))
    ensures v.None? ==> Matched(d, src, limit, b, t) && t.length < INT_LIMIT && b + t.run + t.length + MINMATCH < limit
    ensures v.None? ==> t.lit + t.run < t.end && (d.Bounded? ==> t.end <= |src|) && t.lit == t0.lit && t.run == t0.run
  {
    hide Spells, Read;
    var i := t0.lit + t0.run;
    var (length, end) := Read(d, src, Peek(src, t0.at) % 16, i + 2);
    t := t0.(offset := Peek(src, i) + 256 * Peek(src, i + 1), length := length, end := end);
    ReadSpells(d, src, Peek(src, t.at) % 16, i + 2, length, end);
    SpellsIn(d, src, Peek(src, t.at) % 16, i + 2, length, end);
    var n := b + t.run + length + MINMATCH;
    if t.offset > b + t.run {
      v := Some(Faulty(i + 2));
    } else if length >= INT_LIMIT {
      v := Some(TooLong);
    } else {
      v := if n > limit then Some(Faulty(end)) else if n == limit then Some(Filled(end)) else None;
    }
  }

  lemma FollowSnoc(d: Decoder, src: seq<byte>, limit: nat, turns: seq<Turn>, t: Turn)
    requires Follow(d, src, limit, turns) && t.at == Position(turns) && Matched(d, src, limit, Size(turns), t)
    requires t.length < INT_LIMIT && Size(turns) + t.run + t.length + MINMATCH < limit
    ensures Follow(d, src, limit, turns + [t])
  {
    hide Matched;
    var more := turns + [t];
    forall k | 0 <= k < |more| ensures GoesOn(d, src, limit, more, k) {
      assert more[..k] == turns[..k];
      if k == |turns| {
        assert turns[..k] == turns;
      } else {
        assert GoesOn(d, src, limit, turns, k);
      }
    }
  }

  /** The grammar says something of every input. */
  lemma EveryInputParses(d: Decoder, src: seq<byte>, limit: nat) returns (p: Parse)
    ensures Parses(d, src, limit, p)
  {
    hide Matched, Ends, Follow, Size, Position;
    var turns: seq<Turn> := [];
    NoTurns(d, src, limit);
    while d.Known? || Position(turns) < |src|
      invariant Follow(d, src, limit, turns) && Size(turns) <= limit && (d.Bounded? ==> Position(turns) <= |src|)
      decreases limit - Size(turns)
    {
      var t, v := NextTurn(d, src, limit, Position(turns), Size(turns));
      if v.Some? {
        EndsSomehow(d, src, limit, Size(turns), t, v.value);
        return Parse(turns, t, v.value);
      }
      FollowSnoc(d, src, limit, turns, t);
      SizeSnoc(turns, t);
      turns := turns + [t];
    }
    p := Parse(turns, Turn(0, 0, 0, 0, 0, 0), Nothing);
  }

  lemma NoTurns(d: Decoder, src: seq<byte>, limit: nat)
    ensures Follow(d, src, limit, []) && Size([]) == 0 && Position([]) == 0
  {
  }

  lemma EndsSomehow(d: Decoder, src: seq<byte>, limit: nat, b: nat, t: Turn, v: Verdict)
    requires Ends(d, src, limit, b, t, v)
    ensures !v.Nothing?
  {
  }

  /** Exactly which inputs a decoder accepts, and at which position it finds which others
      faulty. */
  lemma AcceptsExactly(d: Decoder, src: seq<byte>, limit: nat)
    ensures Decode(d, src, 0, [], true, limit).Done? <==>
      exists p :: Parses(d, src, limit, p) && (p.verdict.Literals? || p.verdict.Filled? || p.verdict.Nothing?)
    ensures forall pos :: Decode(d, src, 0, [], true, limit) == Fault(pos) <==>
      exists p :: Parses(d, src, limit, p) && p.verdict == Faulty(pos)
  {
    hide Parses, Decode, Holds, Plain, Size;
    var p := EveryInputParses(d, src, limit);
    forall q | Parses(d, src, limit, q) ensures Answers(src, q, Decode(d, src, 0, [], true, limit)) {
      DecodesAsParsed(d, src, limit, q);
    }
  }

  /** LZ4_uncompress succeeds only with an output that leaves no room for another match. */
  lemma KnownAccepts(src: seq<byte>, osize: nat)
    requires DecodeKnown(src, 0, [], true, osize).Done?
    ensures |DecodeKnown(src, 0, [], true, osize).out| > osize - COPYLENGTH
  {
    hide Follow, Spells, DecodeKnown;
    var p := EveryInputParses(Known, src, osize);
    DecodesAsParsed(Known, src, osize, p);
    SizeSnoc(p.turns, p.last);
    hide Size;
  }

  /** LZ4_uncompress_unknownOutputSize succeeds only at the end of the input or with a full
      output. */
  lemma BoundedAccepts(src: seq<byte>, capacity: nat)
    requires DecodeBounded(src, 0, [], true, capacity).Done?
    ensures var o := DecodeBounded(src, 0, [], true, capacity); o.consumed == |src| || |o.out| == capacity
  {
    hide Follow, Spells, DecodeBounded;
    var p := EveryInputParses(Bounded, src, capacity);
    DecodesAsParsed(Bounded, src, capacity, p);
    SizeSnoc(p.turns, p.last);
    hide Size;
  }
}

/**
 * "Stricter, never blind": an `#if` whose expression is not evaluated keeps all its arms. Whatever the
 * compiler makes of such groups, no live line is lost, unless a name changed inside one is tested afterwards.
 */
module PreprocessorReadings {
  import opened Collections
  import opened Preprocessor
  import opened PreprocessorTree

  /** A reading of the unknown groups: which arm of the group opened at a token is live (0 is the first); any other number, none. */
  type Reading = nat -> int

  /** The lines a compiler keeps that evaluates every `#if` group as the reading says. */
  function Read(b: Block, live: bool, defs: set<string>, plats: set<string>, pick: Reading, at: nat): Result {
    match b
    case Nil => Result([], defs)
    case Line(text, rest) =>
      var r := Read(rest, live, defs, plats, pick, at + 1);
      Result([if live then text else ""] + r.out, r.defs)
    case Change(d, rest) =>
      var r := Read(rest, live, if live then Changed(defs, d) else defs, plats, pick, at + 1);
      Result([""] + r.out, r.defs)
    case Stray(_, rest) =>
      var r := Read(rest, live, defs, plats, pick, at + 1);
      Result([""] + r.out, r.defs)
    case Group(head, body, arms, rest) =>
      var first := live && (if head.kind.If? then pick(at) == 0 else Holds(head, defs, plats));
      var inner := Read(body, first, defs, plats, pick, at + 1);
      var next := at + 1 + |Flatten(body)|;
      var others := ReadArms(arms, live, first, if head.kind.If? then Some(pick(at) - 1) else None, inner.defs, plats, pick, next);
      var r := Read(rest, live, others.defs, plats, pick, next + |FlattenArms(arms)|);
      Result([""] + inner.out + others.out + r.out, r.defs)
  }

  /** `chosen` counts down to the live arm of an unknown group; it is `None` in a known one. */
  function ReadArms(arms: Arms, live: bool, taken: bool, chosen: Option<int>, defs: set<string>, plats: set<string>,
                    pick: Reading, at: nat): Result
  {
    match arms
    case Unclosed => Result([], defs)
    case Closed(_) => Result([""], defs)
    case Arm(head, body, more) =>
      var arm := if chosen.Some? then live && chosen.value == 0 else ArmLive(head, live, taken, false, defs);
      var inner := Read(body, arm, defs, plats, pick, at + 1);
      var others := ReadArms(more, live, taken || arm, if chosen.Some? then Some(chosen.value - 1) else None,
                             inner.defs, plats, pick, at + 1 + |Flatten(body)|);
      Result([""] + inner.out + others.out, others.defs)
  }

  // ------------------------------------------------ names changed and tested

  /** The names in `changed`, and those a block defines or undefines inside an `#if` group. */
  function ChangedUnderIf(b: Block, under: bool, changed: set<string>): set<string> {
    match b
    case Nil => changed
    case Line(_, rest) => ChangedUnderIf(rest, under, changed)
    case Change(d, rest) => ChangedUnderIf(rest, under, if under && d.arg != "" then changed + {d.arg} else changed)
    case Stray(_, rest) => ChangedUnderIf(rest, under, changed)
    case Group(head, body, arms, rest) =>
      var inner := under || head.kind.If?;
      ChangedUnderIf(rest, under, ChangedUnderIfArms(arms, inner, ChangedUnderIf(body, inner, changed)))
  }

  function ChangedUnderIfArms(arms: Arms, under: bool, changed: set<string>): set<string> {
    match arms
    case Unclosed => changed
    case Closed(_) => changed
    case Arm(_, body, more) => ChangedUnderIfArms(more, under, ChangedUnderIf(body, under, changed))
  }

  /** No condition the gate evaluates tests a name that was changed before it inside an `#if` group. */
  predicate TestsUnchanged(b: Block, under: bool, changed: set<string>) {
    match b
    case Nil => true
    case Line(_, rest) => TestsUnchanged(rest, under, changed)
    case Change(d, rest) => TestsUnchanged(rest, under, if under && d.arg != "" then changed + {d.arg} else changed)
    case Stray(_, rest) => TestsUnchanged(rest, under, changed)
    case Group(head, body, arms, rest) =>
      var inner := under || head.kind.If?;
      var behindBody := ChangedUnderIf(body, inner, changed);
      && (head.kind.Ifdef? || head.kind.Ifndef? ==> head.arg !in changed)
      && TestsUnchanged(body, inner, changed)
      && ArmsTestUnchanged(arms, head.kind.If?, inner, behindBody)
      && TestsUnchanged(rest, under, ChangedUnderIfArms(arms, inner, behindBody))
  }

  predicate ArmsTestUnchanged(arms: Arms, unknown: bool, under: bool, changed: set<string>) {
    match arms
    case Unclosed => true
    case Closed(_) => true
    case Arm(head, body, more) =>
      && (!head.kind.Else? && !unknown ==> head.arg !in changed)
      && TestsUnchanged(body, under, changed)
      && ArmsTestUnchanged(more, unknown, under, ChangedUnderIf(body, under, changed))
  }

  // -------------------------------------------------------- over-approximation

  /** The two sets of definitions differ in these names at most. */
  ghost predicate AgreeBut(d: set<string>, e: set<string>, changed: set<string>) {
    forall x :: x !in changed ==> (x in d <==> x in e)
  }

  /** `a` is `b` with some lines blanked. */
  ghost predicate Blanked(a: seq<string>, b: seq<string>) {
    |a| == |b| && forall i :: 0 <= i < |a| ==> a[i] == b[i] || a[i] == ""
  }

  /** A reading's result is covered by the gate's. */
  ghost predicate Covered(r: Result, kept: Result, changed: set<string>) {
    Blanked(r.out, kept.out) && AgreeBut(r.defs, kept.defs, changed)
  }

  lemma CoveredJoin(a: seq<string>, b: seq<string>, r: Result, kept: Result, changed: set<string>)
    requires Blanked(a, b) && Covered(r, kept, changed)
    ensures Blanked(a + r.out, b + kept.out)
  {
  }

  lemma BlankedSame(a: seq<string>)
    ensures Blanked(a, a)
  {
  }

  /**
   * Outside `#if` groups both agree on what is live; inside, the reading may have less live. They disagree on
   * names changed inside an `#if` group at most, and no condition tests one of these afterwards.
   */
  lemma {:induction false} ReadCovered(b: Block, live: bool, kept: bool, under: bool, d: set<string>, e: set<string>,
                                       plats: set<string>, pick: Reading, at: nat, changed: set<string>)
    requires TestsUnchanged(b, under, changed) && AgreeBut(d, e, changed)
    requires live == kept || (under && !live)
    ensures Covered(Read(b, live, d, plats, pick, at), Eval(b, kept, e, plats), ChangedUnderIf(b, under, changed))
    decreases b, 1
  {
    if b.Group? {
      ReadGroupCovered(b, live, kept, under, d, e, plats, pick, at, changed);
    } else if !b.Nil? {
      var d', e' := if b.Change? && live then Changed(d, b.d) else d, if b.Change? && kept then Changed(e, b.d) else e;
      var line, lineKept := if b.Line? && live then [b.text] else [""], if b.Line? && kept then [b.text] else [""];
      var changed' := if b.Change? && under && b.d.arg != "" then changed + {b.d.arg} else changed;
      assert Blanked(line, lineKept);
      assert AgreeBut(d', e', changed');
      ReadCovered(b.rest, live, kept, under, d', e', plats, pick, at + 1, changed');
      CoveredJoin(line, lineKept, Read(b.rest, live, d', plats, pick, at + 1), Eval(b.rest, kept, e', plats),
                  ChangedUnderIf(b.rest, under, changed'));
    }
  }

  lemma {:induction false} ReadGroupCovered(b: Block, live: bool, kept: bool, under: bool, d: set<string>, e: set<string>,
                                            plats: set<string>, pick: Reading, at: nat, changed: set<string>)
    requires b.Group? && TestsUnchanged(b, under, changed) && AgreeBut(d, e, changed)
    requires live == kept || (under && !live)
    ensures Covered(Read(b, live, d, plats, pick, at), Eval(b, kept, e, plats), ChangedUnderIf(b, under, changed))
    decreases b, 0
  {
    var Group(head, body, arms, rest) := b;
    var unknown := head.kind.If?;
    var first := live && (if unknown then pick(at) == 0 else Holds(head, d, plats));
    var firstKept := kept && Holds(head, e, plats);
    var chosen := if unknown then Some(pick(at) - 1) else None;
    var next := at + 1 + |Flatten(body)|;
    var inner, innerKept := Read(body, first, d, plats, pick, at + 1), Eval(body, firstKept, e, plats);
    var others := ReadArms(arms, live, first, chosen, inner.defs, plats, pick, next);
    var othersKept := EvalArms(arms, kept, firstKept, unknown, innerKept.defs, plats);
    var last := Read(rest, live, others.defs, plats, pick, next + |FlattenArms(arms)|);
    var lastKept := Eval(rest, kept, othersKept.defs, plats);
    var behindBody := ChangedUnderIf(body, under || unknown, changed);
    var behindArms := ChangedUnderIfArms(arms, under || unknown, behindBody);
    assert first == firstKept || ((under || unknown) && !first);
    assert TestsUnchanged(body, under || unknown, changed) && ArmsTestUnchanged(arms, unknown, under || unknown, behindBody)
        && TestsUnchanged(rest, under, behindArms);
    assert ChangedUnderIf(b, under, changed) == ChangedUnderIf(rest, under, behindArms);
    assert Read(b, live, d, plats, pick, at) == Result([""] + inner.out + others.out + last.out, last.defs);
    assert Eval(b, kept, e, plats) == Result([""] + innerKept.out + othersKept.out + lastKept.out, lastKept.defs);
    hide Blanked, AgreeBut, Holds, TestsUnchanged, ArmsTestUnchanged, ChangedUnderIf, ChangedUnderIfArms,
         Read, ReadArms, Eval, EvalArms;
    ReadCovered(body, first, firstKept, under || unknown, d, e, plats, pick, at + 1, changed);
    ReadArmsCovered(arms, live, kept, first, firstKept, under || unknown, chosen, inner.defs, innerKept.defs,
                    plats, pick, next, behindBody);
    ReadCovered(rest, live, kept, under, others.defs, othersKept.defs, plats, pick, next + |FlattenArms(arms)|, behindArms);
    BlankedSame([""]);
    CoveredJoin([""], [""], inner, innerKept, behindBody);
    CoveredJoin([""] + inner.out, [""] + innerKept.out, others, othersKept, behindArms);
    CoveredJoin([""] + inner.out + others.out, [""] + innerKept.out + othersKept.out, last, lastKept,
                ChangedUnderIf(b, under, changed));
  }

  lemma {:induction false} ReadArmsCovered(arms: Arms, live: bool, kept: bool, taken: bool, takenKept: bool, under: bool,
                                           chosen: Option<int>, d: set<string>, e: set<string>, plats: set<string>,
                                           pick: Reading, at: nat, changed: set<string>)
    requires ArmsTestUnchanged(arms, chosen.Some?, under, changed) && AgreeBut(d, e, changed)
    requires live == kept || (under && !live)
    requires chosen.Some? ==> under
    requires chosen.None? ==> taken == takenKept || (under && !live)
    ensures Covered(ReadArms(arms, live, taken, chosen, d, plats, pick, at),
                    EvalArms(arms, kept, takenKept, chosen.Some?, e, plats), ChangedUnderIfArms(arms, under, changed))
    decreases arms, 0
  {
    if arms.Arm? {
      var Arm(head, body, more) := arms;
      var arm := if chosen.Some? then live && chosen.value == 0 else ArmLive(head, live, taken, false, d);
      var armKept := ArmLive(head, kept, takenKept, chosen.Some?, e);
      var chosen' := if chosen.Some? then Some(chosen.value - 1) else None;
      var next := at + 1 + |Flatten(body)|;
      var inner, innerKept := Read(body, arm, d, plats, pick, at + 1), Eval(body, armKept, e, plats);
      var others := ReadArms(more, live, taken || arm, chosen', inner.defs, plats, pick, next);
      var othersKept := EvalArms(more, kept, takenKept || armKept, chosen.Some?, innerKept.defs, plats);
      var behindBody := ChangedUnderIf(body, under, changed);
      assert arm == armKept || (under && !arm);
      assert TestsUnchanged(body, under, changed) && ArmsTestUnchanged(more, chosen.Some?, under, behindBody);
      assert ChangedUnderIfArms(arms, under, changed) == ChangedUnderIfArms(more, under, behindBody);
      assert ReadArms(arms, live, taken, chosen, d, plats, pick, at) == Result([""] + inner.out + others.out, others.defs);
      assert EvalArms(arms, kept, takenKept, chosen.Some?, e, plats)
          == Result([""] + innerKept.out + othersKept.out, othersKept.defs);
      hide Blanked, AgreeBut, TestsUnchanged, ArmsTestUnchanged, ChangedUnderIf, ChangedUnderIfArms,
           Read, ReadArms, Eval, EvalArms;
      ReadCovered(body, arm, armKept, under, d, e, plats, pick, at + 1, changed);
      ReadArmsCovered(more, live, kept, taken || arm, takenKept || armKept, under, chosen', inner.defs, innerKept.defs,
                      plats, pick, next, behindBody);
      BlankedSame([""]);
      CoveredJoin([""], [""], inner, innerKept, behindBody);
      CoveredJoin([""] + inner.out, [""] + innerKept.out, others, othersKept, ChangedUnderIfArms(arms, under, changed));
    }
  }

  /**
   * Over-approximation. If no condition tests a name that was changed before it inside an `#if` group, then under
   * every reading of the `#if` groups the live lines are among the lines `active_lines` keeps.
   */
  lemma NeverBlind(lines: seq<string>, classify: Classifier, defs: set<string>, plats: set<string>, pick: Reading)
    requires TestsUnchanged(Parse(Lex(lines, classify, false)), false, {})
    ensures Blanked(Read(Parse(Lex(lines, classify, false)), true, defs, plats, pick, 0).out,
                    Machine(Begin(defs), Lex(lines, classify, false), plats).out)
  {
    var b := Parse(Lex(lines, classify, false));
    ReadCovered(b, true, true, false, defs, defs, plats, pick, 0, {});
    ActiveLinesMeaning(lines, classify, defs, plats);
  }

  /** In particular if nothing at all is defined or undefined inside an `#if` group. */
  lemma {:induction false} NothingChangedUnderIf(b: Block, under: bool)
    requires ChangedUnderIf(b, under, {}) == {}
    ensures TestsUnchanged(b, under, {})
    decreases b
  {
    match b
    case Nil =>
    case Line(_, rest) => NothingChangedUnderIf(rest, under);
    case Change(d, rest) =>
      ChangedGrows(rest, under, if under && d.arg != "" then {d.arg} else {});
      assert {} + {d.arg} == {d.arg};
      NothingChangedUnderIf(rest, under);
    case Stray(_, rest) => NothingChangedUnderIf(rest, under);
    case Group(head, body, arms, rest) =>
      var inner := under || head.kind.If?;
      ChangedArmsGrow(arms, inner, ChangedUnderIf(body, inner, {}));
      ChangedGrows(rest, under, ChangedUnderIfArms(arms, inner, ChangedUnderIf(body, inner, {})));
      NothingChangedUnderIf(body, inner);
      NothingChangedUnderIfArms(arms, head.kind.If?, inner);
      NothingChangedUnderIf(rest, under);
  }

  lemma {:induction false} NothingChangedUnderIfArms(arms: Arms, unknown: bool, under: bool)
    requires ChangedUnderIfArms(arms, under, {}) == {}
    ensures ArmsTestUnchanged(arms, unknown, under, {})
    decreases arms
  {
    if arms.Arm? {
      ChangedArmsGrow(arms.more, under, ChangedUnderIf(arms.body, under, {}));
      NothingChangedUnderIf(arms.body, under);
      NothingChangedUnderIfArms(arms.more, unknown, under);
    }
  }

  lemma {:induction false} ChangedGrows(b: Block, under: bool, changed: set<string>)
    ensures changed <= ChangedUnderIf(b, under, changed)
    decreases b
  {
    match b
    case Nil =>
    case Line(_, rest) => ChangedGrows(rest, under, changed);
    case Change(d, rest) => ChangedGrows(rest, under, if under && d.arg != "" then changed + {d.arg} else changed);
    case Stray(_, rest) => ChangedGrows(rest, under, changed);
    case Group(head, body, arms, rest) =>
      var inner := under || head.kind.If?;
      ChangedGrows(body, inner, changed);
      ChangedArmsGrow(arms, inner, ChangedUnderIf(body, inner, changed));
      ChangedGrows(rest, under, ChangedUnderIfArms(arms, inner, ChangedUnderIf(body, inner, changed)));
  }

  lemma {:induction false} ChangedArmsGrow(arms: Arms, under: bool, changed: set<string>)
    ensures changed <= ChangedUnderIfArms(arms, under, changed)
    decreases arms
  {
    if arms.Arm? {
      ChangedGrows(arms.body, under, changed);
      ChangedArmsGrow(arms.more, under, ChangedUnderIf(arms.body, under, changed));
    }
  }

  /** A file that defines `name` under an `#if` and keeps `text` only where `name` is not defined. */
  function DefineUnderIf(name: string, text: string): Block {
    Group(Directive(If, ""), Change(Directive(Define, name), Nil), Closed(Directive(Endif, "")),
          Group(Directive(Ifndef, name), Line(text, Nil), Closed(Directive(Endif, "")), Nil))
  }

  lemma DefineUnderIfKept(name: string, text: string, defs: set<string>, plats: set<string>)
    requires name != ""
    ensures Eval(DefineUnderIf(name, text), true, defs, plats).out == ["", "", "", "", "", ""]
  {
    var b := DefineUnderIf(name, text);
    assert Eval(b.body, true, defs, plats) == Result([""], defs + {name});
    assert Eval(b.rest.body, false, defs + {name}, plats) == Result([""], defs + {name});
    assert Eval(b.rest, true, defs + {name}, plats).out == ["", "", ""];
  }

  lemma DefineUnderIfRead(name: string, text: string, defs: set<string>, plats: set<string>, pick: Reading)
    requires name != ""
    ensures Read(DefineUnderIf(name, text), true, defs, plats, pick, 0).out
         == ["", "", "", "", if pick(0) != 0 && name !in defs then text else "", ""]
  {
    var b := DefineUnderIf(name, text);
    var after := if pick(0) == 0 then defs + {name} else defs;
    assert Flatten(b.body) == [Dir(Directive(Define, name))];
    assert Read(b.body, pick(0) == 0, defs, plats, pick, 1) == Result([""], after);
    assert Read(b.rest.body, name !in after, after, plats, pick, 4) == Result([if name !in after then text else ""], after);
    assert Read(b.rest, true, after, plats, pick, 3).out == ["", if name !in after then text else "", ""];
  }

  lemma DefineUnderIfShape(name: string, text: string)
    ensures WellFormed(DefineUnderIf(name, text), false)
  {
    var b := DefineUnderIf(name, text);
    assert Whole(b.body) && WellFormed(b.body, true) && WellFormedArms(b.arms);
    assert Whole(b.rest.body) && WellFormed(b.rest.body, true) && WellFormedArms(b.rest.arms);
    assert WellFormed(b.rest, false);
  }

  lemma ReadingsBlinded(name: string, text: string, defs: set<string>, plats: set<string>)
    requires name != "" && text != ""
    ensures (forall pick :: Blanked(Read(DefineUnderIf(name, text), true, defs, plats, pick, 0).out,
                                    Eval(DefineUnderIf(name, text), true, defs, plats).out))
       <==> name in defs
  {
    hide Read, Eval;
    var b := DefineUnderIf(name, text);
    DefineUnderIfKept(name, text, defs, plats);
    forall pick: Reading { DefineUnderIfRead(name, text, defs, plats, pick); }
    if name !in defs {
      var never: Reading := at => 1;
      DefineUnderIfRead(name, text, defs, plats, never);
      assert Read(b, true, defs, plats, never, 0).out[4] == text;
      assert !Blanked(Read(b, true, defs, plats, never, 0).out, Eval(b, true, defs, plats).out);
    }
  }

  /**
   * The condition is needed: every file that lexes to this shape loses a line under some reading exactly when
   * the target does not define the name.
   */
  lemma DefineUnderIfBlinds(lines: seq<string>, classify: Classifier, name: string, text: string,
                            defs: set<string>, plats: set<string>)
    requires name != "" && text != "" && Lex(lines, classify, false) == Flatten(DefineUnderIf(name, text))
    ensures (forall pick :: Blanked(Read(Parse(Lex(lines, classify, false)), true, defs, plats, pick, 0).out,
                                    Machine(Begin(defs), Lex(lines, classify, false), plats).out))
       <==> name in defs
  {
    hide Read, Eval, Parse, Lex, Machine, Flatten, WellFormed, DefineUnderIf, Blanked;
    DefineUnderIfShape(name, text);
    ParseRoundTrip(DefineUnderIf(name, text));
    ActiveLinesMeaning(lines, classify, defs, plats);
    ReadingsBlinded(name, text, defs, plats);
  }

  // --------------------------------------------------------- arms of one group

  function NumLive(arms: Arms, live: bool, taken: bool, unknown: bool, defs: set<string>, plats: set<string>): nat {
    match arms
    case Unclosed => 0
    case Closed(_) => 0
    case Arm(head, body, more) =>
      var arm := ArmLive(head, live, taken, unknown, defs);
      (if arm then 1 else 0) + NumLive(more, live, taken || arm, unknown, Eval(body, arm, defs, plats).defs, plats)
  }

  predicate HasElse(arms: Arms) {
    arms.Arm? && (arms.head.kind.Else? || HasElse(arms.more))
  }

  /** A known group has at most one live arm, and exactly one when it is live and has an `#else`. */
  lemma {:induction false} AtMostOneArm(arms: Arms, live: bool, taken: bool, defs: set<string>, plats: set<string>)
    requires taken ==> live
    ensures var n := NumLive(arms, live, taken, false, defs, plats) + if taken then 1 else 0;
            n <= 1 && (live && HasElse(arms) ==> n == 1) && (!live ==> n == 0)
    decreases arms
  {
    if arms.Arm? {
      var arm := ArmLive(arms.head, live, taken, false, defs);
      AtMostOneArm(arms.more, live, taken || arm, Eval(arms.body, arm, defs, plats).defs, plats);
    }
  }
}

/** What each directive means, told from its kind, its name, the names defined and the platforms of the target. */
module PreprocessorForms {
  import opened Collections
  import opened Preprocessor
  import opened PreprocessorTree

  /** Whether the head of a group whose condition is known holds. */
  ghost predicate Known(head: Directive, defs: set<string>, plats: set<string>, holds: bool) {
    || (head.kind == Ifdef && holds == (head.arg in defs))
    || (head.kind == Ifndef && holds == (head.arg !in defs))
    || (head.kind == Ifplat && holds == (head.arg in plats))
  }

  /** The inside of a group: it has no group of its own that is cut off. */
  ghost predicate Inside(b: Block) { WellFormed(b, true) && Whole(b) }

  predicate Ends(d: Directive) { d.kind == Endif || d.kind == Endplat }

  /** What the machine outputs over some lines; it ends where it began but for the definitions. */
  ghost predicate Outputs(c: Config, toks: seq<Token>, plats: set<string>, out: seq<string>, defs: set<string>) {
    Machine(c, toks, plats) == Config(c.active, c.stack, defs, c.out + out)
  }

  /** A group runs as its evaluation says. */
  lemma GroupRuns(c: Config, head: Directive, body: Block, arms: Arms, plats: set<string>)
    requires Inside(body) && WellFormedArms(arms) && WholeArms(arms) && head.Opens()
    ensures var r := Eval(Group(head, body, arms, Nil), c.active, c.defs, plats);
            Outputs(c, [Dir(head)] + Flatten(body) + FlattenArms(arms), plats, r.out, r.defs)
  {
    var b := Group(head, body, arms, Nil);
    MachineRunsBlock(c, b, true, plats);
    assert Flatten(b) == [Dir(head)] + Flatten(body) + FlattenArms(arms);
  }

  lemma Nothing(live: bool, defs: set<string>, plats: set<string>, out: seq<string>)
    ensures Eval(Nil, live, defs, plats) == Result([], defs) && out + [] == out
  {
  }

  /** Text is kept in a live arm and blanked in one that is not. */
  lemma {:induction false} TextRuns(c: Config, lines: seq<string>, plats: set<string>)
    ensures Outputs(c, Texts(lines), plats, if c.active then lines else Blanks(|lines|), c.defs)
    decreases |lines|
  {
    if lines == [] {
      assert c.out + [] == c.out && Blanks(0) == [];
    } else {
      var line := if c.active then lines[0] else "";
      assert Texts(lines) == [Text(lines[0])] + Texts(lines[1..]);
      MachineFirst(c, Text(lines[0]), Texts(lines[1..]), plats);
      TextRuns(c.(out := c.out + [line]), lines[1..], plats);
      assert Blanks(|lines|) == [""] + Blanks(|lines| - 1);
      var rest := if c.active then lines[1..] else Blanks(|lines| - 1);
      assert c.out + [line] + rest == c.out + ([line] + rest);
      assert lines == [lines[0]] + lines[1..];
    }
  }

  function Texts(lines: seq<string>): seq<Token> { seq(|lines|, i requires 0 <= i < |lines| => Text(lines[i])) }

  function Blanks(n: nat): seq<string> { seq(n, i => "") }

  /** `#define` and `#undef` with a name change that name where they are live, and nothing else. */
  lemma DefineRuns(c: Config, name: string, plats: set<string>)
    ensures Outputs(c, [Dir(Directive(Define, name))], plats, [""],
                    if c.active && name != "" then c.defs + {name} else c.defs)
    ensures Outputs(c, [Dir(Directive(Undef, name))], plats, [""],
                    if c.active && name != "" then c.defs - {name} else c.defs)
  {
    MachineFirst(c, Dir(Directive(Define, name)), [], plats);
    MachineFirst(c, Dir(Directive(Undef, name)), [], plats);
    assert [Dir(Directive(Define, name))] + [] == [Dir(Directive(Define, name))];
    assert [Dir(Directive(Undef, name))] + [] == [Dir(Directive(Undef, name))];
  }

  /** `#ifdef n`, `#ifndef n` and `#ifplat p`: the lines inside live exactly when n is, or is not, defined, or p is a platform. */
  lemma KnownGroup(c: Config, head: Directive, holds: bool, body: Block, last: Directive, plats: set<string>)
    requires Known(head, c.defs, plats, holds) && Inside(body) && Ends(last)
    ensures var r := Eval(body, c.active && holds, c.defs, plats);
            Outputs(c, [Dir(head)] + Flatten(body) + [Dir(last)], plats, [""] + r.out + [""], r.defs)
  {
    GroupRuns(c, head, body, Closed(last), plats);
    var r := Eval(body, c.active && holds, c.defs, plats);
    Nothing(c.active, r.defs, plats, [""] + r.out + [""]);
  }

  /** `#if`, whatever its expression, keeps the lines inside. */
  lemma UnknownGroup(c: Config, head: Directive, body: Block, last: Directive, plats: set<string>)
    requires head.kind == If && Inside(body) && Ends(last)
    ensures var r := Eval(body, c.active, c.defs, plats);
            Outputs(c, [Dir(head)] + Flatten(body) + [Dir(last)], plats, [""] + r.out + [""], r.defs)
  {
    GroupRuns(c, head, body, Closed(last), plats);
    var r := Eval(body, c.active, c.defs, plats);
    Nothing(c.active, r.defs, plats, [""] + r.out + [""]);
  }

  /** The lines of a group of three arms. */
  function ThreeArms(head: Directive, first: Block, elif: Directive, second: Block, otherwise: Directive, third: Block,
                     last: Directive): seq<Token>
  {
    [Dir(head)] + Flatten(first)
    + ([Dir(elif)] + Flatten(second) + ([Dir(otherwise)] + Flatten(third) + [Dir(last)]))
  }

  lemma ThreeArmsShape(head: Directive, first: Block, elif: Directive, second: Block, otherwise: Directive, third: Block,
                       last: Directive)
    ensures var arms := Arm(elif, second, Arm(otherwise, third, Closed(last)));
            [Dir(head)] + Flatten(first) + FlattenArms(arms) == ThreeArms(head, first, elif, second, otherwise, third, last)
  {
    var arms := Arm(elif, second, Arm(otherwise, third, Closed(last)));
    assert FlattenArms(arms.more) == [Dir(otherwise)] + Flatten(third) + [Dir(last)];
    assert FlattenArms(arms) == [Dir(elif)] + Flatten(second) + FlattenArms(arms.more);
  }

  /** Of a known group the first arm whose condition holds is live, an `#elif n` holds when n is defined, an `#else` always. */
  lemma KnownArms(c: Config, head: Directive, holds: bool, first: Block, elif: Directive, second: Block,
                  otherwise: Directive, third: Block, last: Directive, plats: set<string>)
    requires Known(head, c.defs, plats, holds) && elif.kind == Elif && otherwise.kind == Else && Ends(last)
    requires Inside(first) && Inside(second) && Inside(third)
    ensures var r1 := Eval(first, c.active && holds, c.defs, plats);
            var r2 := Eval(second, c.active && !holds && elif.arg in r1.defs, r1.defs, plats);
            var r3 := Eval(third, c.active && !holds && elif.arg !in r1.defs, r2.defs, plats);
            Outputs(c, ThreeArms(head, first, elif, second, otherwise, third, last), plats,
                    [""] + r1.out + ([""] + r2.out + ([""] + r3.out + [""])), r3.defs)
  {
    var arms := Arm(elif, second, Arm(otherwise, third, Closed(last)));
    var r1 := Eval(first, c.active && holds, c.defs, plats);
    var r2 := Eval(second, c.active && !holds && elif.arg in r1.defs, r1.defs, plats);
    var r3 := Eval(third, c.active && !holds && elif.arg !in r1.defs, r2.defs, plats);
    ThreeArmsShape(head, first, elif, second, otherwise, third, last);
    GroupRuns(c, head, first, arms, plats);
    GroupEval(c.active, head, holds, first, arms, c.defs, plats);
    hide Eval, EvalArms, ArmLive;
    ArmEval(c.active, c.active && holds, elif, second, arms.more, r1.defs, plats);
    ArmEval(c.active, (c.active && holds) || (c.active && !holds && elif.arg in r1.defs), otherwise, third, Closed(last), r2.defs, plats);
    LastEval(last, c.active, c.active, r3.defs, plats);
    LastEval(last, c.active, (c.active && holds) || (c.active && !holds && elif.arg in r1.defs), r3.defs, plats);
  }

  lemma GroupEval(live: bool, head: Directive, holds: bool, first: Block, arms: Arms, defs: set<string>, plats: set<string>)
    requires Known(head, defs, plats, holds)
    ensures var r := Eval(first, live && holds, defs, plats);
            var others := EvalArms(arms, live, live && holds, false, r.defs, plats);
            Eval(Group(head, first, arms, Nil), live, defs, plats) == Result([""] + r.out + others.out, others.defs)
  {
    var r := Eval(first, live && holds, defs, plats);
    var others := EvalArms(arms, live, live && holds, false, r.defs, plats);
    Nothing(live, others.defs, plats, [""] + r.out + others.out);
  }

  lemma ArmEval(live: bool, taken: bool, head: Directive, body: Block, more: Arms, defs: set<string>, plats: set<string>)
    requires head.kind == Elif || head.kind == Else
    ensures var arm := live && !taken && (head.kind == Else || head.arg in defs);
            var r := Eval(body, arm, defs, plats);
            var others := EvalArms(more, live, taken || arm, false, r.defs, plats);
            EvalArms(Arm(head, body, more), live, taken, false, defs, plats) == Result([""] + r.out + others.out, others.defs)
  {
  }

  lemma LastEval(last: Directive, live: bool, taken: bool, defs: set<string>, plats: set<string>)
    ensures EvalArms(Closed(last), live, taken, false, defs, plats) == Result([""], defs)
  {
  }

  /** Of an `#if` group every arm is live. */
  lemma UnknownArms(c: Config, head: Directive, first: Block, elif: Directive, second: Block,
                    otherwise: Directive, third: Block, last: Directive, plats: set<string>)
    requires head.kind == If && elif.kind == Elif && otherwise.kind == Else && Ends(last)
    requires Inside(first) && Inside(second) && Inside(third)
    ensures var r1 := Eval(first, c.active, c.defs, plats);
            var r2 := Eval(second, c.active, r1.defs, plats);
            var r3 := Eval(third, c.active, r2.defs, plats);
            Outputs(c, ThreeArms(head, first, elif, second, otherwise, third, last), plats,
                    [""] + r1.out + ([""] + r2.out + ([""] + r3.out + [""])), r3.defs)
  {
    var arms := Arm(elif, second, Arm(otherwise, third, Closed(last)));
    ThreeArmsShape(head, first, elif, second, otherwise, third, last);
    GroupRuns(c, head, first, arms, plats);
    var r1 := Eval(first, c.active, c.defs, plats);
    var r2 := Eval(second, c.active, r1.defs, plats);
    var r3 := Eval(third, c.active, r2.defs, plats);
    var out := [""] + r1.out + ([""] + r2.out + ([""] + r3.out + [""]));
    Nothing(c.active, r3.defs, plats, out);
    assert EvalArms(arms.more, c.active, c.active, true, r2.defs, plats) == Result([""] + r3.out + [""], r3.defs);
    assert EvalArms(arms, c.active, c.active, true, r1.defs, plats) == Result([""] + r2.out + ([""] + r3.out + [""]), r3.defs);
    assert Eval(Group(head, first, arms, Nil), c.active, c.defs, plats) == Result(out + [], r3.defs) by {
      assert [""] + r1.out + ([""] + r2.out + ([""] + r3.out + [""])) + [] == out + [];
    }
  }

  /** An arm or an end without a group does nothing. */
  lemma StrayRuns(c: Config, d: Directive, plats: set<string>)
    requires c.stack == [] && (d.kind == Elif || d.kind == Else || d.kind == Endif || d.kind == Endplat)
    ensures Outputs(c, [Dir(d)], plats, [""], c.defs)
  {
    MachineFirst(c, Dir(d), [], plats);
    assert [Dir(d)] + [] == [Dir(d)];
  }

  // ------------------------------------------------------------- whole files

  /** A file that is one known group: for a target its text is kept exactly when the head holds for the target. */
  lemma FileOfOneGroup(lines: seq<string>, classify: Classifier, head: Directive, holds: bool, text: string, last: Directive,
                       defs: set<string>, plats: set<string>)
    requires Known(head, defs, plats, holds) && Ends(last)
    requires Lex(lines, classify, false) == [Dir(head), Text(text), Dir(last)]
    ensures Machine(Begin(defs), Lex(lines, classify, false), plats).out == ["", if holds then text else "", ""]
  {
    var body := Line(text, Nil);
    assert Flatten(body) == [Text(text)];
    assert Lex(lines, classify, false) == [Dir(head)] + Flatten(body) + [Dir(last)];
    KnownGroup(Begin(defs), head, holds, body, last, plats);
    assert Eval(body, holds, defs, plats).out == [if holds then text else ""];
  }

  /** A definition reaches a later `#ifdef`, and its removal too. */
  lemma DefinedLater(defs: set<string>, plats: set<string>, name: string, text: string, last: Directive, removed: bool)
    requires name != "" && Ends(last)
    ensures var group := [Dir(Directive(Ifdef, name))] + Flatten(Line(text, Nil)) + [Dir(last)];
            Machine(Begin(defs), [Dir(Directive(if removed then Undef else Define, name))] + group, plats).out
            == ["", "", if removed then "" else text, ""]
  {
    var d, body := Directive(if removed then Undef else Define, name), Line(text, Nil);
    var group := [Dir(Directive(Ifdef, name))] + Flatten(body) + [Dir(last)];
    MachineAppend(Begin(defs), [Dir(d)], group, plats);
    DefineRuns(Begin(defs), name, plats);
    var c := Machine(Begin(defs), [Dir(d)], plats);
    KnownGroup(c, Directive(Ifdef, name), !removed, body, last, plats);
    assert Eval(body, !removed, c.defs, plats).out == [if removed then "" else text];
  }
}

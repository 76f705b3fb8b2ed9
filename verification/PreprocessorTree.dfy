/**
 * The meaning of a preprocessed file: a recursive evaluator over nested conditional groups, and the proof
 * that the stack machine of `active_lines` computes it on every file.
 */
module PreprocessorTree {
  import opened Collections
  import opened Preprocessor

  /** Lines, `#define`/`#undef`, directives outside any group (ignored), and conditional groups. */
  datatype Block =
    | Nil
    | Line(text: string, rest: Block)
    | Change(d: Directive, rest: Block)
    | Stray(d: Directive, rest: Block)
    | Group(head: Directive, body: Block, arms: Arms, rest: Block)

  /** The `#elif`/`#else` arms of a group, up to its end or to the end of the file. */
  datatype Arms = Unclosed | Closed(last: Directive) | Arm(head: Directive, body: Block, more: Arms)

  function Flatten(b: Block): seq<Token> {
    match b
    case Nil => []
    case Line(text, rest) => [Text(text)] + Flatten(rest)
    case Change(d, rest) => [Dir(d)] + Flatten(rest)
    case Stray(d, rest) => [Dir(d)] + Flatten(rest)
    case Group(head, body, arms, rest) => [Dir(head)] + Flatten(body) + FlattenArms(arms) + Flatten(rest)
  }

  function FlattenArms(arms: Arms): seq<Token> {
    match arms
    case Unclosed => []
    case Closed(last) => [Dir(last)]
    case Arm(head, body, more) => [Dir(head)] + Flatten(body) + FlattenArms(more)
  }

  // --------------------------------------------------------------- evaluator

  datatype Result = Result(out: seq<string>, defs: set<string>)

  /** Whether the arm `head` is live, given that its group is, and whether an earlier arm already was. */
  predicate ArmLive(head: Directive, live: bool, taken: bool, unknown: bool, defs: set<string>) {
    live && (unknown || (!taken && (head.kind.Else? || head.arg in defs)))
  }

  /** The kept lines of a block that is live or not, with the definitions in force after it. */
  function Eval(b: Block, live: bool, defs: set<string>, plats: set<string>): Result {
    match b
    case Nil => Result([], defs)
    case Line(text, rest) =>
      var r := Eval(rest, live, defs, plats);
      Result([if live then text else ""] + r.out, r.defs)
    case Change(d, rest) =>
      var r := Eval(rest, live, if live then Changed(defs, d) else defs, plats);
      Result([""] + r.out, r.defs)
    case Stray(_, rest) =>
      var r := Eval(rest, live, defs, plats);
      Result([""] + r.out, r.defs)
    case Group(head, body, arms, rest) =>
      var first := live && Holds(head, defs, plats);
      var inner := Eval(body, first, defs, plats);
      var others := EvalArms(arms, live, first, head.kind.If?, inner.defs, plats);
      var r := Eval(rest, live, others.defs, plats);
      Result([""] + inner.out + others.out + r.out, r.defs)
  }

  function EvalArms(arms: Arms, live: bool, taken: bool, unknown: bool, defs: set<string>, plats: set<string>): Result {
    match arms
    case Unclosed => Result([], defs)
    case Closed(_) => Result([""], defs)
    case Arm(head, body, more) =>
      var arm := ArmLive(head, live, taken, unknown, defs);
      var inner := Eval(body, arm, defs, plats);
      var others := EvalArms(more, live, taken || arm, unknown, inner.defs, plats);
      Result([""] + inner.out + others.out, others.defs)
  }

  // --------------------------------------------------------- well-formedness

  /** No group of the block runs into the end of the file. */
  predicate Whole(b: Block) {
    match b
    case Nil => true
    case Line(_, rest) => Whole(rest)
    case Change(_, rest) => Whole(rest)
    case Stray(_, rest) => Whole(rest)
    case Group(_, body, arms, rest) => Whole(body) && WholeArms(arms) && Whole(rest)
  }

  predicate WholeArms(arms: Arms) {
    match arms
    case Unclosed => false
    case Closed(_) => true
    case Arm(_, body, more) => Whole(body) && WholeArms(more)
  }

  /** The shape of a file: the right directive in each place, and nothing after a group cut off by the end. */
  predicate WellFormed(b: Block, nested: bool) {
    match b
    case Nil => true
    case Line(_, rest) => WellFormed(rest, nested)
    case Change(d, rest) => (d.kind.Define? || d.kind.Undef?) && WellFormed(rest, nested)
    case Stray(d, rest) => !nested && (d.NextArm() || d.Closes()) && WellFormed(rest, nested)
    case Group(head, body, arms, rest) =>
      && head.Opens() && WellFormed(body, true) && WellFormedArms(arms) && WellFormed(rest, nested)
      && (Whole(body) || arms == Unclosed)
      && ((Whole(body) && WholeArms(arms)) || rest == Nil)
  }

  predicate WellFormedArms(arms: Arms) {
    match arms
    case Unclosed => true
    case Closed(last) => last.Closes()
    case Arm(head, body, more) =>
      head.NextArm() && WellFormed(body, true) && WellFormedArms(more) && (Whole(body) || more == Unclosed)
  }

  // ------------------------------------------------------------- joined sequences

  /** A named concatenation, so that long chains are reassociated one step at a time. */
  ghost predicate Joined<T>(whole: seq<T>, front: seq<T>, back: seq<T>) { whole == front + back }

  lemma JoinFront<T>(a: seq<T>, x: seq<T>, b: seq<T>, y: seq<T>, c: seq<T>)
    requires Joined(a, x, b) && Joined(b, y, c)
    ensures Joined(a, x + y, c)
  {
  }

  lemma JoinBack<T>(a: seq<T>, b: seq<T>, x: seq<T>, c: seq<T>, y: seq<T>)
    requires Joined(b, a, x) && Joined(c, b, y)
    ensures Joined(c, a, x + y)
  {
  }

  lemma JoinNothing<T>(a: seq<T>)
    ensures Joined(a, a, [])
  {
  }

  lemma JoinHead<T>(a: seq<T>)
    requires a != []
    ensures Joined(a, [a[0]], a[1..])
  {
  }

  // ------------------------------------------------------------------ parser

  predicate AtArmEnd(toks: seq<Token>) {
    toks == [] || (toks[0].Dir? && (toks[0].d.NextArm() || toks[0].d.Closes()))
  }

  /** Reads a block; inside a group it stops before the directive that ends the arm. */
  function ParseBlock(toks: seq<Token>, nested: bool): (r: (Block, seq<Token>))
    ensures |r.1| <= |toks| && AtArmEnd(r.1) && (!nested ==> r.1 == [])
    decreases |toks|, 1
  {
    if toks == [] then (Nil, [])
    else if toks[0].Text? then
      var (rest, left) := ParseBlock(toks[1..], nested);
      (Line(toks[0].line, rest), left)
    else
      var d := toks[0].d;
      if d.Opens() then
        var (body, left1) := ParseBlock(toks[1..], true);
        var (arms, left2) := ParseArms(left1);
        var (rest, left3) := ParseBlock(left2, nested);
        (Group(d, body, arms, rest), left3)
      else if d.kind.Define? || d.kind.Undef? then
        var (rest, left) := ParseBlock(toks[1..], nested);
        (Change(d, rest), left)
      else if nested then (Nil, toks)
      else
        var (rest, left) := ParseBlock(toks[1..], nested);
        (Stray(d, rest), left)
  }

  function ParseArms(toks: seq<Token>): (r: (Arms, seq<Token>))
    requires AtArmEnd(toks)
    ensures |r.1| <= |toks|
    decreases |toks|, 0
  {
    if toks == [] then (Unclosed, [])
    else if toks[0].d.Closes() then (Closed(toks[0].d), toks[1..])
    else
      var (body, left1) := ParseBlock(toks[1..], true);
      var (more, left2) := ParseArms(left1);
      (Arm(toks[0].d, body, more), left2)
  }

  /** The structure of a file. */
  function Parse(toks: seq<Token>): Block { ParseBlock(toks, false).0 }

  ghost predicate BlockParsed(toks: seq<Token>, nested: bool, b: Block, left: seq<Token>) {
    Joined(toks, Flatten(b), left) && WellFormed(b, nested) && (Whole(b) || left == [])
  }

  /** Every token sequence is the flattening of its parse, and the parse is well formed. */
  lemma {:induction false} ParseBlockFlattens(toks: seq<Token>, nested: bool)
    ensures BlockParsed(toks, nested, ParseBlock(toks, nested).0, ParseBlock(toks, nested).1)
    decreases |toks|, 1
  {
    if toks == [] {
      JoinNothing(toks);
    } else if toks[0].Dir? && toks[0].d.Opens() {
      ParseGroupFlattens(toks, nested);
    } else if !nested || toks[0].Text? || toks[0].d.kind.Define? || toks[0].d.kind.Undef? {
      var (rest, left) := ParseBlock(toks[1..], nested);
      ParseBlockFlattens(toks[1..], nested);
      hide Joined;
      JoinHead(toks);
      JoinFront(toks, [toks[0]], toks[1..], Flatten(rest), left);
    }
  }

  lemma {:induction false} ParseGroupFlattens(toks: seq<Token>, nested: bool)
    requires toks != [] && toks[0].Dir? && toks[0].d.Opens()
    ensures BlockParsed(toks, nested, ParseBlock(toks, nested).0, ParseBlock(toks, nested).1)
    decreases |toks|, 0
  {
    var (body, left1) := ParseBlock(toks[1..], true);
    var (arms, left2) := ParseArms(left1);
    var (rest, left3) := ParseBlock(left2, nested);
    assert ParseBlock(toks, nested) == (Group(toks[0].d, body, arms, rest), left3);
    assert left1 == [] ==> arms == Unclosed && left2 == [];
    assert left2 == [] ==> rest == Nil && left3 == [];
    hide ParseBlock, ParseArms, Joined;
    ParseBlockFlattens(toks[1..], true);
    ParseArmsFlattens(left1);
    ParseBlockFlattens(left2, nested);
    JoinHead(toks);
    JoinFront(toks, [Dir(toks[0].d)], toks[1..], Flatten(body), left1);
    JoinFront(toks, [Dir(toks[0].d)] + Flatten(body), left1, FlattenArms(arms), left2);
    JoinFront(toks, [Dir(toks[0].d)] + Flatten(body) + FlattenArms(arms), left2, Flatten(rest), left3);
  }

  lemma {:induction false} ParseArmsFlattens(toks: seq<Token>)
    requires AtArmEnd(toks)
    ensures var (arms, left) := ParseArms(toks);
            Joined(toks, FlattenArms(arms), left) && WellFormedArms(arms) && (WholeArms(arms) || left == [])
    decreases |toks|, 0
  {
    if toks != [] && !toks[0].d.Closes() {
      var (body, left1) := ParseBlock(toks[1..], true);
      var (more, left2) := ParseArms(left1);
      assert ParseArms(toks) == (Arm(toks[0].d, body, more), left2);
      assert left1 == [] ==> more == Unclosed && left2 == [];
      hide ParseBlock, ParseArms, Joined;
      ParseBlockFlattens(toks[1..], true);
      ParseArmsFlattens(left1);
      JoinHead(toks);
      JoinFront(toks, [Dir(toks[0].d)], toks[1..], Flatten(body), left1);
      JoinFront(toks, [Dir(toks[0].d)] + Flatten(body), left1, FlattenArms(more), left2);
    }
  }

  lemma ParseFlattens(toks: seq<Token>)
    ensures Flatten(Parse(toks)) == toks && WellFormed(Parse(toks), false)
  {
    ParseBlockFlattens(toks, false);
    assert Flatten(Parse(toks)) + [] == Flatten(Parse(toks));
  }

  /** The parse is the only structure: a well-formed block is what its own lines parse to. */
  lemma {:induction false} ParseUnique(b: Block, nested: bool, left: seq<Token>)
    requires WellFormed(b, nested) && AtArmEnd(left) && (nested || left == []) && (Whole(b) || left == [])
    ensures ParseBlock(Flatten(b) + left, nested) == (b, left)
    decreases b, 1
  {
    if b.Nil? {
      assert Flatten(b) + left == left;
    } else if b.Group? {
      ParseGroupUnique(b, nested, left);
    } else {
      var t := if b.Line? then Text(b.text) else Dir(b.d);
      assert Flatten(b) + left == [t] + (Flatten(b.rest) + left);
      assert ([t] + (Flatten(b.rest) + left))[1..] == Flatten(b.rest) + left;
      ParseUnique(b.rest, nested, left);
    }
  }

  /** Splits what follows the directive that opens a group or an arm. */
  lemma HeadSplit(t: Token, a: seq<Token>, b: seq<Token>, c: seq<Token>, whole: seq<Token>)
    requires whole == [t] + a + b + c
    ensures whole[0] == t && whole[1..] == a + (b + c)
  {
  }

  lemma {:induction false} ParseGroupUnique(b: Block, nested: bool, left: seq<Token>)
    requires b.Group? && WellFormed(b, nested) && AtArmEnd(left) && (nested || left == []) && (Whole(b) || left == [])
    ensures ParseBlock(Flatten(b) + left, nested) == (b, left)
    decreases b, 0
  {
    var Group(head, body, arms, rest) := b;
    var toks, left2 := Flatten(b) + left, Flatten(rest) + left;
    assert toks == [Dir(head)] + Flatten(body) + FlattenArms(arms) + left2;
    HeadSplit(Dir(head), Flatten(body), FlattenArms(arms), left2, toks);
    ArmsBegin(arms, left2);
    assert !WholeArms(arms) ==> left2 == [];
    assert ParseBlock(toks, nested) ==
      var (body', left1) := ParseBlock(toks[1..], true);
      var (arms', after) := ParseArms(left1);
      var (rest', end) := ParseBlock(after, nested);
      (Group(head, body', arms', rest'), end);
    hide ParseBlock, ParseArms;
    ParseUnique(body, true, FlattenArms(arms) + left2);
    ParseArmsUnique(arms, left2);
    ParseUnique(rest, nested, left);
  }

  lemma ArmsBegin(arms: Arms, left: seq<Token>)
    requires WellFormedArms(arms) && (WholeArms(arms) || left == [])
    ensures AtArmEnd(FlattenArms(arms) + left) && (arms.Unclosed? ==> FlattenArms(arms) + left == [])
  {
  }

  lemma {:induction false} ParseArmsUnique(arms: Arms, left: seq<Token>)
    requires WellFormedArms(arms) && (WholeArms(arms) || left == [])
    ensures AtArmEnd(FlattenArms(arms) + left) && ParseArms(FlattenArms(arms) + left) == (arms, left)
    decreases arms, 0
  {
    var toks := FlattenArms(arms) + left;
    ArmsBegin(arms, left);
    if arms.Closed? {
      assert toks[1..] == left;
    } else if arms.Arm? {
      var Arm(head, body, more) := arms;
      assert toks == [Dir(head)] + Flatten(body) + FlattenArms(more) + left;
      HeadSplit(Dir(head), Flatten(body), FlattenArms(more), left, toks);
      ArmsBegin(more, left);
      assert ParseArms(toks) ==
        var (body', left1) := ParseBlock(toks[1..], true);
        var (more', end) := ParseArms(left1);
        (Arm(head, body', more'), end);
      hide ParseBlock, ParseArms;
      ParseUnique(body, true, FlattenArms(more) + left);
      ParseArmsUnique(more, left);
    }
  }

  lemma ParseRoundTrip(b: Block)
    requires WellFormed(b, false)
    ensures Parse(Flatten(b)) == b
  {
    assert Flatten(b) + [] == Flatten(b);
    ParseUnique(b, false, []);
  }

  // -------------------------------------------------------------- refinement

  lemma {:induction false} MachineAppend(c: Config, a: seq<Token>, b: seq<Token>, plats: set<string>)
    ensures Machine(c, a + b, plats) == Machine(Machine(c, a, plats), b, plats)
    decreases |a|
  {
    if a == [] {
      assert a + b == b;
    } else {
      assert (a + b)[1..] == a[1..] + b;
      MachineAppend(Step(c, a[0], plats), a[1..], b, plats);
    }
  }

  lemma MachineFirst(c: Config, t: Token, b: seq<Token>, plats: set<string>)
    ensures Machine(c, [t] + b, plats) == Machine(Step(c, t, plats), b, plats)
  {
    assert ([t] + b)[1..] == b;
  }

  /** What the machine must have reached after a block that evaluates to `r`. */
  ghost predicate Reached(c: Config, end: Config, r: Result, whole: bool) {
    && Joined(end.out, c.out, r.out) && end.defs == r.defs
    && (whole ==> end.active == c.active && end.stack == c.stack)
  }

  /** Running the machine over a block keeps the lines the evaluator keeps and restores the surrounding state. */
  lemma {:induction false} MachineRunsBlock(c: Config, b: Block, nested: bool, plats: set<string>)
    requires WellFormed(b, nested) && (nested || c.stack == [])
    ensures Reached(c, Machine(c, Flatten(b), plats), Eval(b, c.active, c.defs, plats), Whole(b))
    decreases b, 1
  {
    if b.Nil? {
      JoinNothing(c.out);
    } else if b.Group? {
      MachineRunsGroup(c, b, nested, plats);
    } else {
      var t := if b.Line? then Text(b.text) else Dir(b.d);
      var c1 := Step(c, t, plats);
      assert c1.active == c.active && c1.stack == c.stack;
      assert Joined(c1.out, c.out, if b.Line? && c.active then [b.text] else [""]);
      MachineFirst(c, t, Flatten(b.rest), plats);
      hide Machine, Joined;
      MachineRunsBlock(c1, b.rest, nested, plats);
      JoinBack(c.out, c1.out, if b.Line? && c.active then [b.text] else [""],
               Machine(c1, Flatten(b.rest), plats).out, Eval(b.rest, c.active, c1.defs, plats).out);
    }
  }

  lemma StepOpens(c: Config, head: Directive, plats: set<string>)
    requires head.Opens()
    ensures var arm := c.active && Holds(head, c.defs, plats);
            Step(c, Dir(head), plats)
            == Config(arm, c.stack + [Frame(c.active, arm, head.kind.If?)], c.defs, c.out + [""])
  {
  }

  lemma StepArm(c: Config, stack: seq<Frame>, f: Frame, head: Directive, plats: set<string>)
    requires head.NextArm() && c.stack == stack + [f]
    ensures var arm := ArmLive(head, f.parent, f.taken, f.unknown, c.defs);
            Step(c, Dir(head), plats)
            == Config(arm, stack + [Frame(f.parent, f.taken || arm, f.unknown)], c.defs, c.out + [""])
  {
  }

  lemma GroupChain(c: Config, head: Directive, body: seq<Token>, arms: seq<Token>, rest: seq<Token>, plats: set<string>)
    ensures Machine(c, [Dir(head)] + body + arms + rest, plats)
         == Machine(Machine(Machine(Step(c, Dir(head), plats), body, plats), arms, plats), rest, plats)
  {
    hide Step;
    assert [Dir(head)] + body + arms + rest == [Dir(head)] + (body + (arms + rest));
    MachineFirst(c, Dir(head), body + (arms + rest), plats);
    MachineAppend(Step(c, Dir(head), plats), body, arms + rest, plats);
    MachineAppend(Machine(Step(c, Dir(head), plats), body, plats), arms, rest, plats);
  }

  lemma {:induction false} MachineRunsGroup(c: Config, b: Block, nested: bool, plats: set<string>)
    requires b.Group? && WellFormed(b, nested) && (nested || c.stack == [])
    ensures Reached(c, Machine(c, Flatten(b), plats), Eval(b, c.active, c.defs, plats), Whole(b))
    decreases b, 0
  {
    var Group(head, body, arms, rest) := b;
    var c1 := Step(c, Dir(head), plats);
    var c2 := Machine(c1, Flatten(body), plats);
    var c3 := Machine(c2, FlattenArms(arms), plats);
    var c4 := Machine(c3, Flatten(rest), plats);
    var inner := Eval(body, c1.active, c.defs, plats);
    var others := EvalArms(arms, c.active, c1.active, head.kind.If?, inner.defs, plats);
    var after := Eval(rest, c.active, others.defs, plats);
    GroupChain(c, head, Flatten(body), FlattenArms(arms), Flatten(rest), plats);
    StepOpens(c, head, plats);
    assert Joined(c1.out, c.out, [""]);
    hide Machine, Step, Holds, Joined;
    MachineRunsBlock(c1, body, true, plats);
    if Whole(body) {
      MachineRunsArms(c2, c.stack, Frame(c.active, c1.active, head.kind.If?), arms, plats);
    } else {
      MachineRunsNothing(c2, plats);
    }
    if Whole(body) && WholeArms(arms) {
      MachineRunsBlock(c3, rest, nested, plats);
    } else {
      MachineRunsNothing(c3, plats);
    }
    JoinBack(c.out, c1.out, [""], c2.out, inner.out);
    JoinBack(c.out, c2.out, [""] + inner.out, c3.out, others.out);
    JoinBack(c.out, c3.out, [""] + inner.out + others.out, c4.out, after.out);
  }

  lemma MachineRunsNothing(c: Config, plats: set<string>)
    ensures Machine(c, [], plats) == c && Joined(c.out, c.out, [])
  {
  }

  /** The same for the arms of the group on top of the stack. */
  lemma {:induction false} MachineRunsArms(c: Config, stack: seq<Frame>, f: Frame, arms: Arms, plats: set<string>)
    requires WellFormedArms(arms) && c.stack == stack + [f]
    ensures Reached(c.(active := f.parent, stack := stack), Machine(c, FlattenArms(arms), plats),
                    EvalArms(arms, f.parent, f.taken, f.unknown, c.defs, plats), WholeArms(arms))
    decreases arms, 0
  {
    match arms
    case Unclosed => MachineRunsNothing(c, plats);
    case Closed(last) =>
      MachineFirst(c, Dir(last), [], plats);
      assert [Dir(last)] + [] == FlattenArms(arms);
      assert (stack + [f])[..|stack|] == stack;
    case Arm(head, body, more) =>
      var c1 := Step(c, Dir(head), plats);
      var c2 := Machine(c1, Flatten(body), plats);
      var c3 := Machine(c2, FlattenArms(more), plats);
      var inner := Eval(body, c1.active, c.defs, plats);
      var others := EvalArms(more, f.parent, f.taken || c1.active, f.unknown, inner.defs, plats);
      GroupChain(c, head, Flatten(body), FlattenArms(more), [], plats);
      assert [Dir(head)] + Flatten(body) + FlattenArms(more) + [] == FlattenArms(arms);
      MachineRunsNothing(c3, plats);
      StepArm(c, stack, f, head, plats);
      assert Joined(c1.out, c.out, [""]);
      hide Machine, Step, ArmLive, Joined;
      MachineRunsBlock(c1, body, true, plats);
      if Whole(body) {
        MachineRunsArms(c2, stack, Frame(f.parent, f.taken || c1.active, f.unknown), more, plats);
      } else {
        MachineRunsNothing(c2, plats);
      }
      JoinBack(c.out, c1.out, [""], c2.out, inner.out);
      JoinBack(c.out, c2.out, [""] + inner.out, c3.out, others.out);
  }

  /** On every file the stack machine keeps exactly the lines the recursive evaluator keeps. */
  lemma ActiveLinesMeaning(lines: seq<string>, classify: Classifier, defs: set<string>, plats: set<string>)
    ensures var kept := Machine(Begin(defs), Lex(lines, classify, false), plats).out;
            kept == Eval(Parse(Lex(lines, classify, false)), true, defs, plats).out && |kept| == |lines|
  {
    var toks := Lex(lines, classify, false);
    ParseFlattens(toks);
    MachineRunsBlock(Begin(defs), Parse(toks), false, plats);
    LineCount(Parse(toks), true, defs, plats);
  }

  lemma {:induction false} LineCount(b: Block, live: bool, defs: set<string>, plats: set<string>)
    ensures |Eval(b, live, defs, plats).out| == |Flatten(b)|
    decreases b
  {
    match b
    case Nil =>
    case Line(_, rest) => LineCount(rest, live, defs, plats);
    case Change(d, rest) => LineCount(rest, live, if live then Changed(defs, d) else defs, plats);
    case Stray(_, rest) => LineCount(rest, live, defs, plats);
    case Group(head, body, arms, rest) =>
      var first := live && Holds(head, defs, plats);
      var inner := Eval(body, first, defs, plats);
      LineCount(body, first, defs, plats);
      ArmsLineCount(arms, live, first, head.kind.If?, inner.defs, plats);
      LineCount(rest, live, EvalArms(arms, live, first, head.kind.If?, inner.defs, plats).defs, plats);
  }

  lemma {:induction false} ArmsLineCount(arms: Arms, live: bool, taken: bool, unknown: bool, defs: set<string>, plats: set<string>)
    ensures |EvalArms(arms, live, taken, unknown, defs, plats).out| == |FlattenArms(arms)|
    decreases arms
  {
    if arms.Arm? {
      var arm := ArmLive(arms.head, live, taken, unknown, defs);
      LineCount(arms.body, arm, defs, plats);
      ArmsLineCount(arms.more, live, taken || arm, unknown, Eval(arms.body, arm, defs, plats).defs, plats);
    }
  }
}

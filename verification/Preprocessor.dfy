/**
 * scripts/check-lib-symbols.py: `active_lines`, the line-by-line evaluation of preprocessor conditionals.
 *
 * The directive pattern is a parameter: `classify` maps a line to the directive it matches, if any.
 */
module Preprocessor {
  import opened Collections

  datatype Kind = Ifdef | Ifndef | Ifplat | If | Elif | Else | Endif | Endplat | Define | Undef

  datatype Directive = Directive(kind: Kind, arg: string)
  {
    predicate Opens() { kind.Ifdef? || kind.Ifndef? || kind.Ifplat? || kind.If? }

    predicate NextArm() { kind.Elif? || kind.Else? }

    predicate Closes() { kind.Endif? || kind.Endplat? }
  }

  type Classifier = string -> Option<Directive>

  /** A line once the string state has been settled: text, or a directive. */
  datatype Token = Text(line: string) | Dir(d: Directive)

  // -------------------------------------------------------- string scanning

  /** End of a character literal whose quote was at j - 1: the closing quote, or past the end. */
  function CharEnd(L: string, j: nat): (e: nat)
    ensures e >= j
    decreases |L| - j
  {
    if j >= |L| || L[j] == '\'' then j else CharEnd(L, j + if L[j] == '\\' then 2 else 1)
  }

  /** Whether a string is still open after reading `L` from position `i`. */
  function StringOpen(L: string, i: nat, inStr: bool): bool
    decreases |L| - i
  {
    if i >= |L| then inStr
    else if inStr then
      if L[i] == '\\' then StringOpen(L, i + 2, true) else StringOpen(L, i + 1, L[i] != '"')
    else if L[i] == '"' then StringOpen(L, i + 1, true)
    else if L[i] == '\'' then StringOpen(L, CharEnd(L, i + 1) + 1, false)
    else if L[i] == '#' then false
    else StringOpen(L, i + 1, false)
  }

  /** Pass 1: which lines are directives. It depends on the string state alone, never on the target. */
  function Lex(lines: seq<string>, classify: Classifier, inStr: bool): (toks: seq<Token>)
    ensures |toks| == |lines|
  {
    if lines == [] then []
    else if !inStr && classify(lines[0]).Some? then
      [Dir(classify(lines[0]).value)] + Lex(lines[1..], classify, false)
    else
      [Text(lines[0])] + Lex(lines[1..], classify, StringOpen(lines[0], 0, inStr))
  }

  // ------------------------------------------------------- the stack machine

  datatype Frame = Frame(parent: bool, taken: bool, unknown: bool)

  datatype Config = Config(active: bool, stack: seq<Frame>, defs: set<string>, out: seq<string>)

  predicate Holds(d: Directive, defs: set<string>, plats: set<string>) {
    match d.kind
    case Ifdef => d.arg in defs
    case Ifndef => d.arg !in defs
    case Ifplat => d.arg in plats
    case _ => true
  }

  function Changed(defs: set<string>, d: Directive): set<string> {
    if d.arg == "" then defs else if d.kind.Define? then defs + {d.arg} else defs - {d.arg}
  }

  function StepDirective(c: Config, d: Directive, plats: set<string>): Config {
    if d.Opens() then
      var arm := c.active && Holds(d, c.defs, plats);
      c.(active := arm, stack := c.stack + [Frame(c.active, arm, d.kind.If?)])
    else if d.NextArm() && c.stack != [] then
      var n := |c.stack| - 1;
      var Frame(parent, taken, unknown) := c.stack[n];
      var arm := if unknown then parent else parent && !taken && (d.kind.Else? || d.arg in c.defs);
      c.(active := arm, stack := c.stack[n := Frame(parent, taken || arm, unknown)])
    else if d.Closes() && c.stack != [] then
      c.(active := c.stack[|c.stack| - 1].parent, stack := c.stack[..|c.stack| - 1])
    else if (d.kind.Define? || d.kind.Undef?) && c.active then
      c.(defs := Changed(c.defs, d))
    else c
  }

  function Step(c: Config, t: Token, plats: set<string>): Config {
    match t
    case Text(line) => c.(out := c.out + [if c.active then line else ""])
    case Dir(d) => var next := StepDirective(c, d, plats); next.(out := c.out + [""])
  }

  function Machine(c: Config, toks: seq<Token>, plats: set<string>): Config
    decreases |toks|
  {
    if toks == [] then c else Machine(Step(c, toks[0], plats), toks[1..], plats)
  }

  function Begin(defs: set<string>): Config { Config(true, [], defs, []) }

  // ------------------------------------------------------------ the program

  method ScanLine(L: string, wasInStr: bool) returns (inStr: bool)
    ensures inStr == StringOpen(L, 0, wasInStr)
  {
    inStr := wasInStr;
    var i, n := 0, |L|;
    while i < n
      invariant 0 <= i
      invariant StringOpen(L, 0, wasInStr) == StringOpen(L, i, inStr)
      decreases n - i
    {
      var ch := L[i];
      if inStr {
        if ch == '\\' {
          i := i + 2;
          continue;
        }
        if ch == '"' { inStr := false; }
      } else if ch == '"' {
        inStr := true;
      } else if ch == '\'' {
        var j := i + 1;
        while j < n && L[j] != '\''
          invariant i < j && CharEnd(L, i + 1) == CharEnd(L, j)
          decreases n - j
        {
          j := j + if L[j] == '\\' then 2 else 1;
        }
        i := j;
      } else if ch == '#' {
        return;
      }
      i := i + 1;
    }
  }

  /** The whole of `active_lines`, fused into one pass as the script has it. */
  method ActiveLines(lines: seq<string>, classify: Classifier, targetDefs: set<string>, plats: set<string>)
    returns (out: seq<string>)
    ensures out == Machine(Begin(targetDefs), Lex(lines, classify, false), plats).out
  {
    var defs, stack, active, inStr := targetDefs, [], true, false;
    out := [];
    ghost var goal := Machine(Begin(targetDefs), Lex(lines, classify, false), plats);
    for k := 0 to |lines|
      invariant goal == Machine(Config(active, stack, defs, out), Lex(lines[k..], classify, inStr), plats)
    {
      assert lines[k..][0] == lines[k] && lines[k..][1..] == lines[k + 1..];
      var L := lines[k];
      var m := if inStr then None else classify(L);
      ghost var rest := Lex(lines[k + 1..], classify, if m.Some? then false else StringOpen(L, 0, inStr));
      assert Lex(lines[k..], classify, inStr)[1..] == rest;
      if m.Some? {
        var d := m.value;
        if d.kind in {Ifdef, Ifndef, Ifplat, If} {
          var arm := active && Holds(d, defs, plats);
          stack := stack + [Frame(active, arm, d.kind == If)];
          active := arm;
        } else if d.kind in {Elif, Else} && stack != [] {
          var Frame(parent, taken, unknown) := stack[|stack| - 1];
          var arm;
          if unknown {
            arm := parent;
          } else {
            arm := parent && !taken && (d.kind == Else || d.arg in defs);
          }
          stack := stack[|stack| - 1 := Frame(parent, taken || arm, unknown)];
          active := arm;
        } else if d.kind in {Endif, Endplat} && stack != [] {
          active := stack[|stack| - 1].parent;
          stack := stack[..|stack| - 1];
        } else if d.kind == Define && active && d.arg != "" {
          defs := defs + {d.arg};
        } else if d.kind == Undef && active && d.arg != "" {
          defs := defs - {d.arg};
        }
        out := out + [""];
      } else {
        out := out + [if active then L else ""];
        inStr := ScanLine(L, inStr);
      }
    }
  }

  // ------------------------------------------------- strings spanning lines

  /** A string body with its quotes and backslashes escaped. */
  function Escape(s: string): string {
    if s == [] then []
    else (if s[0] == '"' || s[0] == '\\' then ['\\', s[0]] else [s[0]]) + Escape(s[1..])
  }

  /** Reading starts afresh at position i. */
  lemma {:induction false} CharEndShift(p: string, L: string, j: nat)
    ensures CharEnd(p + L, |p| + j) == |p| + CharEnd(L, j)
    decreases |L| - j
  {
    if j < |L| && L[j] != '\'' {
      CharEndShift(p, L, j + if L[j] == '\\' then 2 else 1);
    }
  }

  lemma {:induction false} StringOpenShift(p: string, L: string, i: nat, inStr: bool)
    ensures StringOpen(p + L, |p| + i, inStr) == StringOpen(L, i, inStr)
    decreases |L| - i
  {
    if i < |L| {
      assert (p + L)[|p| + i] == L[i];
      if inStr {
        StringOpenShift(p, L, if L[i] == '\\' then i + 2 else i + 1, L[i] == '\\' || L[i] != '"');
      } else if L[i] == '\'' {
        CharEndShift(p, L, i + 1);
        StringOpenShift(p, L, CharEnd(L, i + 1) + 1, false);
      } else if L[i] != '#' {
        StringOpenShift(p, L, i + 1, L[i] == '"');
      }
    }
  }

  /** Inside a string, an escaped body never closes it, whatever it contains. */
  lemma {:induction false} EscapedBodyStaysOpen(s: string, rest: string)
    ensures StringOpen(Escape(s) + rest, 0, true) == StringOpen(rest, 0, true)
  {
    if s == [] {
      assert Escape(s) + rest == rest;
    } else {
      var head := if s[0] == '"' || s[0] == '\\' then ['\\', s[0]] else [s[0]];
      var tail := Escape(s[1..]) + rest;
      assert Escape(s) + rest == head + tail;
      StringOpenShift(head, tail, 0, true);
      EscapedBodyStaysOpen(s[1..], rest);
    }
  }

  /** A complete string literal, with any contents, is transparent to the scan of a line. */
  lemma LiteralIsTransparent(s: string, rest: string)
    ensures StringOpen("\"" + Escape(s) + "\"" + rest, 0, false) == StringOpen(rest, 0, false)
  {
    var closing := "\"" + rest;
    assert "\"" + Escape(s) + "\"" + rest == "\"" + (Escape(s) + closing);
    StringOpenShift("\"", Escape(s) + closing, 0, true);
    EscapedBodyStaysOpen(s, closing);
    StringOpenShift("\"", rest, 0, false);
  }

  /** A literal left open at the end of a line keeps the next lines data. */
  lemma OpenLiteralContinues(s: string)
    ensures StringOpen("\"" + Escape(s), 0, false)
  {
    StringOpenShift("\"", Escape(s), 0, true);
    EscapedBodyStaysOpen(s, "");
    assert Escape(s) + "" == Escape(s);
  }

  /** Inside a string only the quote and the backslash matter, and a backslash at the end keeps it open. */
  lemma InsideString(c: char, rest: string)
    ensures StringOpen("\"" + rest, 0, true) == StringOpen(rest, 0, false)
    ensures c != '"' && c != '\\' ==> StringOpen([c] + rest, 0, true) == StringOpen(rest, 0, true)
    ensures StringOpen(['\\', c] + rest, 0, true) == StringOpen(rest, 0, true)
    ensures StringOpen("\\", 0, true) && StringOpen("", 0, true)
  {
    StringOpenShift("\"", rest, 0, false);
    StringOpenShift([c], rest, 0, true);
    StringOpenShift(['\\', c], rest, 0, true);
  }

  /** Outside, a quote opens a string, a comment ends the line, and other characters say nothing. */
  lemma OutsideString(c: char, rest: string)
    ensures StringOpen("\"" + rest, 0, false) == StringOpen(rest, 0, true)
    ensures !StringOpen("#" + rest, 0, false) && !StringOpen("", 0, false)
    ensures c != '"' && c != '#' && c != '\'' ==> StringOpen([c] + rest, 0, false) == StringOpen(rest, 0, false)
  {
    StringOpenShift("\"", rest, 0, true);
    StringOpenShift([c], rest, 0, false);
  }

  /** The body of a character literal with its quotes and backslashes escaped. */
  function EscapeChar(s: string): string {
    if s == [] then []
    else (if s[0] == '\'' || s[0] == '\\' then ['\\', s[0]] else [s[0]]) + EscapeChar(s[1..])
  }

  lemma {:induction false} CharEndEscaped(s: string, rest: string)
    ensures CharEnd(EscapeChar(s) + rest, 0) == |EscapeChar(s)| + CharEnd(rest, 0)
  {
    if s == [] {
      assert EscapeChar(s) + rest == rest;
    } else {
      var head := if s[0] == '\'' || s[0] == '\\' then ['\\', s[0]] else [s[0]];
      var tail := EscapeChar(s[1..]) + rest;
      assert EscapeChar(s) + rest == head + tail;
      CharEndShift(head, tail, 0);
      CharEndEscaped(s[1..], rest);
    }
  }

  /** A character literal, with a quote in it or not, is transparent too; one that is not closed ends the line. */
  lemma CharIsTransparent(s: string, rest: string)
    ensures StringOpen("'" + EscapeChar(s) + "'" + rest, 0, false) == StringOpen(rest, 0, false)
    ensures !StringOpen("'" + EscapeChar(s), 0, false)
  {
    var L, body := "'" + EscapeChar(s) + "'" + rest, EscapeChar(s);
    assert L == "'" + (body + ("'" + rest)) && L == ("'" + body + "'") + rest;
    CharEndEscaped(s, "'" + rest);
    CharEndShift("'", body + ("'" + rest), 0);
    assert CharEnd(L, 1) == 1 + |body|;
    StringOpenShift("'" + body + "'", rest, 0, false);
    CharEndEscaped(s, "");
    CharEndShift("'", body, 0);
    assert body + "" == body;
  }

  // ----------------------------------------------- which lines are directives

  /** Whether a string is open at the start of line i: directives are skipped, every other line is scanned. */
  function OpenBefore(lines: seq<string>, classify: Classifier, i: nat): bool
    requires i <= |lines|
    decreases i, 0
  {
    i > 0 && !DirectiveAt(lines, classify, i - 1) && StringOpen(lines[i - 1], 0, OpenBefore(lines, classify, i - 1))
  }

  predicate DirectiveAt(lines: seq<string>, classify: Classifier, i: nat)
    requires i < |lines|
    decreases i, 1
  {
    classify(lines[i]).Some? && !OpenBefore(lines, classify, i)
  }

  lemma {:induction false} LexFrom(lines: seq<string>, classify: Classifier, k: nat, i: nat)
    requires k <= i < |lines|
    ensures Lex(lines[k..], classify, OpenBefore(lines, classify, k))[i - k]
         == if DirectiveAt(lines, classify, i) then Dir(classify(lines[i]).value) else Text(lines[i])
    decreases i - k
  {
    assert lines[k..][0] == lines[k] && lines[k..][1..] == lines[k + 1..];
    if k < i {
      LexFrom(lines, classify, k + 1, i);
    }
  }

  /** A line is a directive exactly when it matches and no string is open at its start. */
  lemma LexAt(lines: seq<string>, classify: Classifier, i: nat)
    requires i < |lines|
    ensures Lex(lines, classify, false)[i]
         == if DirectiveAt(lines, classify, i) then Dir(classify(lines[i]).value) else Text(lines[i])
  {
    assert lines[0..] == lines;
    LexFrom(lines, classify, 0, i);
  }

  lemma {:induction false} MachineLine(c: Config, toks: seq<Token>, plats: set<string>, i: nat)
    requires i < |toks|
    ensures var out := Machine(c, toks, plats).out;
            && |out| == |c.out| + |toks| && c.out <= out
            && (out[|c.out| + i] == "" || toks[i] == Text(out[|c.out| + i]))
    decreases |toks|
  {
    var next := Step(c, toks[0], plats);
    if i > 0 {
      MachineLine(next, toks[1..], plats, i - 1);
    } else if |toks| > 1 {
      MachineLine(next, toks[1..], plats, 0);
      assert Machine(c, toks, plats).out[|c.out|] == next.out[|c.out|];
    } else {
      assert Machine(c, toks, plats) == Machine(next, toks[1..], plats) == next;
    }
  }

  /** For every target alike, a directive line is blanked and any other line is kept as it is or blanked. */
  lemma TargetsAgreeOnDirectives(lines: seq<string>, classify: Classifier, defs: set<string>, plats: set<string>, i: nat)
    requires i < |lines|
    ensures var out := Machine(Begin(defs), Lex(lines, classify, false), plats).out;
            && |out| == |lines|
            && (out[i] == "" || (out[i] == lines[i] && !DirectiveAt(lines, classify, i)))
  {
    hide Machine, Lex;
    LexAt(lines, classify, i);
    MachineLine(Begin(defs), Lex(lines, classify, false), plats, i);
  }
}

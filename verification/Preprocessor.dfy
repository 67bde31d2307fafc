/**
  The conditional-inclusion preprocessor of the bytecode-support checker. The checker runs a
  stack machine over classified lines; here that machine is related to a tree of conditional
  groups: it accepts exactly the printings of trees and selects the first true group of each.
*/
module Preprocessor {
  import opened Basics

  datatype Directive = Plain | If(arg: string) | Ifdef(arg: string) | Ifndef(arg: string)
                     | Elif(arg: string) | Else | Endif

  /** A source line with its terminator, already matched against the directive pattern. */
  datatype Line = Line(raw: string, dir: Directive)

  /** The expression evaluator; None is the ValueError of an unsupported expression. */
  type Evaluator = string -> Option<bool>

  const MACRO: string := "PY_VERSION_HEX"

  predicate Opens(d: Directive) { d.If? || d.Ifdef? || d.Ifndef? }

  predicate Continues(d: Directive) { d.Elif? || d.Else? }

  /** The condition of a group; #else always holds. */
  function Condition(eval: Evaluator, d: Directive): Option<bool> {
    match d
    case If(a) => eval(a)
    case Elif(a) => eval(a)
    case Ifdef(a) => Some(a == MACRO)
    case Ifndef(a) => Some(a != MACRO)
    case _ => Some(true)
  }

  // ----- the stack machine

  datatype Entry = Entry(parentActive: bool, taken: bool)

  datatype Machine = Machine(active: bool, stack: seq<Entry>, output: seq<Line>)

  const Start := Machine(true, [], [])

  function Top(m: Machine): Entry
    requires m.stack != []
  {
    m.stack[|m.stack| - 1]
  }

  function Pop(m: Machine): seq<Entry>
    requires m.stack != []
  {
    m.stack[..|m.stack| - 1]
  }

  function StepLine(eval: Evaluator, m: Machine, line: Line): Result<Machine> {
    var d := line.dir;
    if d.Plain? then
      Ok(if m.active then m.(output := m.output + [line]) else m)
    else if Opens(d) then
      match Condition(eval, d)
      case None => Err("unsupported preprocessor expression")
      case Some(c) => Ok(m.(stack := m.stack + [Entry(m.active, c)], active := m.active && c))
    else if d.Elif? then
      if m.stack == [] then Err("#elif without #if") else
      match Condition(eval, d)
      case None => Err("unsupported preprocessor expression")
      case Some(c) =>
        Ok(m.(stack := Pop(m) + [Entry(Top(m).parentActive, Top(m).taken || c)],
              active := Top(m).parentActive && !Top(m).taken && c))
    else if d.Else? then
      if m.stack == [] then Err("#else without #if") else
      Ok(m.(stack := Pop(m) + [Entry(Top(m).parentActive, true)],
            active := Top(m).parentActive && !Top(m).taken))
    else
      if m.stack == [] then Err("#endif without #if") else
      Ok(m.(stack := Pop(m), active := Top(m).parentActive))
  }

  function Run(eval: Evaluator, m: Machine, lines: seq<Line>): Result<Machine>
    decreases |lines|
  {
    if lines == [] then Ok(m) else
    match StepLine(eval, m, lines[0])
    case Ok(m') => Run(eval, m', lines[1..])
    case Err(e) => Err(e)
  }

  function Preprocess(eval: Evaluator, lines: seq<Line>): Result<seq<Line>> {
    match Run(eval, Start, lines)
    case Err(e) => Err(e)
    case Ok(m) => if m.stack == [] then Ok(m.output) else Err("unterminated preprocessor conditional")
  }

  /** The checker's loop over the lines. */
  method PreprocessLines(eval: Evaluator, lines: seq<Line>) returns (r: Result<seq<Line>>)
    ensures r == Preprocess(eval, lines)
  {
    var active := true;
    var stack: seq<Entry> := [];
    var output: seq<Line> := [];
    for i := 0 to |lines|
      invariant Run(eval, Machine(active, stack, output), lines[i..]) == Run(eval, Start, lines)
    {
      var line := lines[i];
      assert lines[i..][1..] == lines[i + 1..];
      if line.dir.Plain? {
        if active { output := output + [line]; }
        continue;
      }
      if Opens(line.dir) {
        var condition := Condition(eval, line.dir);
        if condition.None? { return Err("unsupported preprocessor expression"); }
        stack := stack + [Entry(active, condition.value)];
        active := active && condition.value;
      } else if line.dir.Elif? {
        if stack == [] { return Err("#elif without #if"); }
        var top := stack[|stack| - 1];
        var condition := Condition(eval, line.dir);
        if condition.None? { return Err("unsupported preprocessor expression"); }
        active := top.parentActive && !top.taken && condition.value;
        stack := stack[..|stack| - 1] + [Entry(top.parentActive, top.taken || condition.value)];
      } else if line.dir.Else? {
        if stack == [] { return Err("#else without #if"); }
        var top := stack[|stack| - 1];
        active := top.parentActive && !top.taken;
        stack := stack[..|stack| - 1] + [Entry(top.parentActive, true)];
      } else {
        if stack == [] { return Err("#endif without #if"); }
        var top := stack[|stack| - 1];
        stack := stack[..|stack| - 1];
        active := top.parentActive;
      }
    }
    assert lines[|lines|..] == [];
    if stack != [] { return Err("unterminated preprocessor conditional"); }
    return Ok(output);
  }

  // ----- trees of conditional groups

  datatype Tree =
    | Nil
    | Leaf(line: Line, rest: Tree)
    | Cond(open: Line, body: Tree, alts: Alts, close: Line, rest: Tree)

  datatype Alts = NoAlts | Alt(line: Line, body: Tree, more: Alts)

  predicate WellFormed(t: Tree) {
    match t
    case Nil => true
    case Leaf(line, rest) => line.dir.Plain? && WellFormed(rest)
    case Cond(open, body, alts, close, rest) =>
      Opens(open.dir) && close.dir.Endif? && WellFormed(body) && WellFormedAlts(alts) && WellFormed(rest)
  }

  predicate WellFormedAlts(a: Alts) {
    match a
    case NoAlts => true
    case Alt(line, body, more) => Continues(line.dir) && WellFormed(body) && WellFormedAlts(more)
  }

  /** The lines of a tree, followed by `tail`. */
  function Print(t: Tree, tail: seq<Line>): seq<Line> {
    match t
    case Nil => tail
    case Leaf(line, rest) => [line] + Print(rest, tail)
    case Cond(open, body, alts, close, rest) => [open] + Print(body, PrintAlts(alts, [close] + Print(rest, tail)))
  }

  function PrintAlts(a: Alts, tail: seq<Line>): seq<Line> {
    match a
    case NoAlts => tail
    case Alt(line, body, more) => [line] + Print(body, PrintAlts(more, tail))
  }

  /** Every condition has a value, also in groups that are skipped: the checker evaluates them all. */
  predicate Evaluates(eval: Evaluator, t: Tree) {
    match t
    case Nil => true
    case Leaf(_, rest) => Evaluates(eval, rest)
    case Cond(open, body, alts, _, rest) =>
      Condition(eval, open.dir).Some? && Evaluates(eval, body) && EvaluatesAlts(eval, alts) && Evaluates(eval, rest)
  }

  predicate EvaluatesAlts(eval: Evaluator, a: Alts) {
    match a
    case NoAlts => true
    case Alt(line, body, more) =>
      Condition(eval, line.dir).Some? && Evaluates(eval, body) && EvaluatesAlts(eval, more)
  }

  /** The meaning of a tree: of each conditional, the first group whose condition holds. */
  function Select(eval: Evaluator, t: Tree): seq<Line> {
    match t
    case Nil => []
    case Leaf(line, rest) => [line] + Select(eval, rest)
    case Cond(open, body, alts, _, rest) =>
      (if Condition(eval, open.dir) == Some(true) then Select(eval, body) else SelectAlts(eval, alts))
          + Select(eval, rest)
  }

  function SelectAlts(eval: Evaluator, a: Alts): seq<Line> {
    match a
    case NoAlts => []
    case Alt(line, body, more) =>
      if Condition(eval, line.dir) == Some(true) then Select(eval, body) else SelectAlts(eval, more)
  }

  // ----- the machine computes the meaning of trees

  function Emit(m: Machine, text: seq<Line>): Machine {
    if m.active then m.(output := m.output + text) else m
  }

  lemma EmitTwice(m: Machine, x: seq<Line>, y: seq<Line>)
    ensures Emit(Emit(m, x), y) == Emit(m, x + y) && Emit(m, []) == m
  {
    assert m.output + x + y == m.output + (x + y);
  }

  /** One line, then the rest. */
  lemma RunCons(eval: Evaluator, m: Machine, line: Line, tail: seq<Line>)
    ensures var step := StepLine(eval, m, line);
      Run(eval, m, [line] + tail) == if step.Ok? then Run(eval, step.value, tail) else Err(step.message)
  {
    assert ([line] + tail)[1..] == tail;
  }

  /** Running over a printed tree adds its selection if active, nothing otherwise, and leaves the stack alone. */
  lemma {:induction false} RunTree(eval: Evaluator, t: Tree, m: Machine, tail: seq<Line>)
    requires WellFormed(t)
    ensures Evaluates(eval, t) ==> Run(eval, m, Print(t, tail)) == Run(eval, Emit(m, Select(eval, t)), tail)
    ensures !Evaluates(eval, t) ==> Run(eval, m, Print(t, tail)).Err?
    decreases t, 1
  {
    match t
    case Nil =>
      EmitTwice(m, [], []);
    case Leaf(line, rest) =>
      RunCons(eval, m, line, Print(rest, tail));
      RunTree(eval, rest, Emit(m, [line]), tail);
      EmitTwice(m, [line], Select(eval, rest));
    case Cond(open, body, alts, close, rest) =>
      RunCond(eval, t, m, Print(rest, tail));
      if Condition(eval, open.dir).Some? {
        var chosen := Chosen(eval, open, body, alts);
        RunTree(eval, rest, Emit(m, chosen), tail);
        EmitTwice(m, chosen, Select(eval, rest));
      }
  }

  function Chosen(eval: Evaluator, open: Line, body: Tree, alts: Alts): seq<Line> {
    if Condition(eval, open.dir) == Some(true) then Select(eval, body) else SelectAlts(eval, alts)
  }

  /** One conditional, from its #if to its #endif. */
  lemma {:induction false} RunCond(eval: Evaluator, t: Tree, m: Machine, tail: seq<Line>)
    requires t.Cond? && WellFormed(t)
    ensures var lines := [t.open] + Print(t.body, PrintAlts(t.alts, [t.close] + tail));
      if Condition(eval, t.open.dir).Some? && Evaluates(eval, t.body) && EvaluatesAlts(eval, t.alts)
      then Run(eval, m, lines) == Run(eval, Emit(m, Chosen(eval, t.open, t.body, t.alts)), tail)
      else Run(eval, m, lines).Err?
    decreases t, 0
  {
    var Cond(open, body, alts, close, _) := t;
    var after := PrintAlts(alts, [close] + tail);
    RunCons(eval, m, open, Print(body, after));
    var c := Condition(eval, open.dir);
    if c.Some? {
      var m1 := Machine(m.active && c.value, m.stack + [Entry(m.active, c.value)], m.output);
      RunTree(eval, body, m1, after);
      var m2 := Emit(m1, Select(eval, body));
      RunAlts(eval, alts, m2, close, tail);
      assert Pop(m2) == m.stack && Top(m2) == Entry(m.active, c.value);
      assert m2.output + [] == m2.output;
      assert Leave(m2, SelectAlts(eval, alts)) == Emit(m, Chosen(eval, open, body, alts));
    }
  }

  /** What leaving a conditional makes of the machine, given what its remaining alternatives select. */
  function Leave(m: Machine, text: seq<Line>): Machine
    requires m.stack != []
  {
    Machine(Top(m).parentActive, Pop(m), m.output + (if Top(m).parentActive && !Top(m).taken then text else []))
  }

  /** From the first alternative to the #endif: at most one more group is selected, if none was taken before. */
  lemma {:induction false} RunAlts(eval: Evaluator, a: Alts, m: Machine, close: Line, tail: seq<Line>)
    requires WellFormedAlts(a) && m.stack != [] && close.dir.Endif?
    ensures var lines := PrintAlts(a, [close] + tail);
      if EvaluatesAlts(eval, a) then Run(eval, m, lines) == Run(eval, Leave(m, SelectAlts(eval, a)), tail)
      else Run(eval, m, lines).Err?
    decreases a
  {
    match a
    case NoAlts =>
      RunCons(eval, m, close, tail);
      assert m.output + [] == m.output;
    case Alt(line, body, more) =>
      var after := PrintAlts(more, [close] + tail);
      RunCons(eval, m, line, Print(body, after));
      var c := Condition(eval, line.dir);
      if c.Some? {
        var m1 := NextGroup(m, c.value);
        assert StepLine(eval, m, line) == Ok(m1);
        RunTree(eval, body, m1, after);
        RunAlts(eval, more, Emit(m1, Select(eval, body)), close, tail);
        LeaveAfterGroup(m, c.value, Select(eval, body), SelectAlts(eval, more));
      }
  }

  /** The machine at the start of a further group of the conditional on top of the stack. */
  function NextGroup(m: Machine, condition: bool): Machine
    requires m.stack != []
  {
    var e := Top(m);
    Machine(e.parentActive && !e.taken && condition, Pop(m) + [Entry(e.parentActive, e.taken || condition)], m.output)
  }

  lemma LeaveAfterGroup(m: Machine, condition: bool, body: seq<Line>, more: seq<Line>)
    requires m.stack != []
    ensures Leave(Emit(NextGroup(m, condition), body), more) == Leave(m, if condition then body else more)
  {
    var m2 := Emit(NextGroup(m, condition), body);
    assert Pop(m2) == Pop(m);
    assert m.output + [] == m.output && m2.output + [] == m2.output;
  }

  /** On the printing of a tree the preprocessor returns the selection, or fails if some condition has no value. */
  lemma PreprocessPrinted(eval: Evaluator, t: Tree)
    requires WellFormed(t)
    ensures Evaluates(eval, t) ==> Preprocess(eval, Print(t, [])) == Ok(Select(eval, t))
    ensures !Evaluates(eval, t) ==> Preprocess(eval, Print(t, [])).Err?
  {
    RunTree(eval, t, Start, []);
    assert [] + Select(eval, t) == Select(eval, t);
  }

  // ----- every accepted line list is the printing of one tree

  predicate AtBoundary(lines: seq<Line>) {
    lines == [] || Continues(lines[0].dir) || lines[0].dir.Endif?
  }

  /** Recursive descent: the longest prefix that prints a tree, and what is left. */
  function ParseTree(lines: seq<Line>): (r: Option<(Tree, seq<Line>)>)
    ensures r.Some? ==> |r.value.1| <= |lines| && AtBoundary(r.value.1)
    decreases |lines|, 0
  {
    if AtBoundary(lines) then Some((Nil, lines))
    else if lines[0].dir.Plain? then
      match ParseTree(lines[1..])
      case None => None
      case Some((t, rest)) => Some((Leaf(lines[0], t), rest))
    else
      match ParseTree(lines[1..])
      case None => None
      case Some((body, rest1)) =>
        match ParseAlts(rest1)
        case None => None
        case Some((alts, rest2)) =>
          match ParseTree(rest2[1..])
          case None => None
          case Some((t, rest)) => Some((Cond(lines[0], body, alts, rest2[0], t), rest))
  }

  /** The alternatives of an open conditional; fails if there is no #endif after them. */
  function ParseAlts(lines: seq<Line>): (r: Option<(Alts, seq<Line>)>)
    requires AtBoundary(lines)
    ensures r.Some? ==> r.value.1 != [] && |r.value.1| <= |lines| && r.value.1[0].dir.Endif?
    decreases |lines|, 1
  {
    if lines == [] then None
    else if lines[0].dir.Endif? then Some((NoAlts, lines)) else
    match ParseTree(lines[1..])
    case None => None
    case Some((body, rest1)) =>
      match ParseAlts(rest1)
      case None => None
      case Some((more, rest)) => Some((Alt(lines[0], body, more), rest))
  }

  lemma {:induction false} ParseTreeSound(lines: seq<Line>)
    ensures var r := ParseTree(lines); r.Some? ==> WellFormed(r.value.0) && lines == Print(r.value.0, r.value.1)
    decreases |lines|, 0
  {
    if !AtBoundary(lines) {
      assert lines == [lines[0]] + lines[1..];
      ParseTreeSound(lines[1..]);
      if Opens(lines[0].dir) && ParseTree(lines[1..]).Some? {
        var rest1 := ParseTree(lines[1..]).value.1;
        ParseAltsSound(rest1);
        if ParseAlts(rest1).Some? {
          var rest2 := ParseAlts(rest1).value.1;
          assert rest2 == [rest2[0]] + rest2[1..];
          ParseTreeSound(rest2[1..]);
        }
      }
    }
  }

  lemma {:induction false} ParseAltsSound(lines: seq<Line>)
    requires AtBoundary(lines)
    ensures var r := ParseAlts(lines); r.Some? ==> WellFormedAlts(r.value.0) && lines == PrintAlts(r.value.0, r.value.1)
    decreases |lines|, 1
  {
    if lines != [] && Continues(lines[0].dir) {
      assert lines == [lines[0]] + lines[1..];
      ParseTreeSound(lines[1..]);
      if ParseTree(lines[1..]).Some? {
        ParseAltsSound(ParseTree(lines[1..]).value.1);
      }
    }
  }

  /** Parsing inverts printing, so the tree of a line list is unique. */
  lemma {:induction false} ParsePrint(t: Tree, tail: seq<Line>)
    requires WellFormed(t) && AtBoundary(tail)
    ensures ParseTree(Print(t, tail)) == Some((t, tail))
    decreases t
  {
    match t
    case Nil =>
    case Leaf(line, rest) =>
      assert Print(t, tail)[1..] == Print(rest, tail);
      ParsePrint(rest, tail);
    case Cond(open, body, alts, close, rest) =>
      var after := [close] + Print(rest, tail);
      assert Print(t, tail)[1..] == Print(body, PrintAlts(alts, after));
      ParsePrintAlts(alts, after);
      ParsePrint(body, PrintAlts(alts, after));
      assert after[1..] == Print(rest, tail);
      ParsePrint(rest, tail);
  }

  lemma {:induction false} ParsePrintAlts(a: Alts, tail: seq<Line>)
    requires WellFormedAlts(a) && tail != [] && tail[0].dir.Endif?
    ensures AtBoundary(PrintAlts(a, tail)) && ParseAlts(PrintAlts(a, tail)) == Some((a, tail))
    decreases a
  {
    match a
    case NoAlts =>
    case Alt(line, body, more) =>
      assert PrintAlts(a, tail)[1..] == Print(body, PrintAlts(more, tail));
      ParsePrintAlts(more, tail);
      ParsePrint(body, PrintAlts(more, tail));
  }

  /** Where the parser gives up, the machine fails or is left with an open conditional. */
  lemma {:induction false} UnparsedIsRejected(eval: Evaluator, lines: seq<Line>, m: Machine)
    requires ParseTree(lines).None?
    ensures var r := Run(eval, m, lines); r.Ok? ==> |r.value.stack| > |m.stack|
    decreases |lines|, 0
  {
    var step := StepLine(eval, m, lines[0]);
    if step.Ok? {
      var first := ParseTree(lines[1..]);
      if first.None? {
        UnparsedIsRejected(eval, lines[1..], step.value);
      } else {
        var (body, rest1) := first.value;
        ParseTreeSound(lines[1..]);
        RunTree(eval, body, step.value, rest1);
        UnparsedAltsAreRejected(eval, rest1, Emit(step.value, Select(eval, body)));
      }
    }
  }

  lemma {:induction false} UnparsedAltsAreRejected(eval: Evaluator, lines: seq<Line>, m: Machine)
    requires AtBoundary(lines) && m.stack != []
    requires ParseAlts(lines).None? || ParseTree(ParseAlts(lines).value.1[1..]).None?
    ensures var r := Run(eval, m, lines); r.Ok? ==> |r.value.stack| >= |m.stack|
    decreases |lines|, 1
  {
    if lines != [] {
      var step := StepLine(eval, m, lines[0]);
      if step.Ok? {
        var first := ParseTree(lines[1..]);
        if lines[0].dir.Endif? || first.None? {
          UnparsedIsRejected(eval, lines[1..], step.value);
        } else {
          ParseTreeSound(lines[1..]);
          RunTree(eval, first.value.0, step.value, first.value.1);
          UnparsedAltsAreRejected(eval, first.value.1, Emit(step.value, Select(eval, first.value.0)));
        }
      }
    }
  }

  lemma StrayDirectiveIsRejected(eval: Evaluator, lines: seq<Line>, m: Machine)
    requires AtBoundary(lines) && lines != [] && m.stack == []
    ensures Run(eval, m, lines).Err?
  {
  }

  /** The accepting tree of a line list, if there is one. */
  ghost predicate IsTreeOf(eval: Evaluator, t: Tree, lines: seq<Line>) {
    WellFormed(t) && Evaluates(eval, t) && Print(t, []) == lines
  }

  /**
    The preprocessor accepts a line list exactly when it is the printing of some tree all of
    whose conditions have a value, that tree is unique, and its selection is the output.
  */
  lemma AcceptsExactlyTrees(eval: Evaluator, lines: seq<Line>)
    ensures Preprocess(eval, lines).Ok? <==> exists t :: IsTreeOf(eval, t, lines)
    ensures forall t :: IsTreeOf(eval, t, lines) ==>
      Preprocess(eval, lines) == Ok(Select(eval, t)) && ParseTree(lines) == Some((t, []))
  {
    forall t | IsTreeOf(eval, t, lines)
      ensures Preprocess(eval, lines) == Ok(Select(eval, t)) && ParseTree(lines) == Some((t, []))
    {
      PreprocessPrinted(eval, t);
      ParsePrint(t, []);
    }
    var r := ParseTree(lines);
    ParseTreeSound(lines);
    if r.None? {
      UnparsedIsRejected(eval, lines, Start);
    } else {
      var (t, rest) := r.value;
      RunTree(eval, t, Start, rest);
      if rest != [] {
        StrayDirectiveIsRejected(eval, rest, Emit(Start, Select(eval, t)));
      } else if Evaluates(eval, t) {
        assert IsTreeOf(eval, t, lines);
      }
    }
  }

  // ----- pieces of line lists

  lemma {:induction false} RunAppend(eval: Evaluator, m: Machine, a: seq<Line>, b: seq<Line>)
    ensures var r := Run(eval, m, a); Run(eval, m, a + b) == if r.Ok? then Run(eval, r.value, b) else r
    decreases |a|
  {
    if a == [] {
      assert a + b == b;
    } else {
      assert (a + b)[1..] == a[1..] + b;
      var step := StepLine(eval, m, a[0]);
      if step.Ok? { RunAppend(eval, step.value, a[1..], b); }
    }
  }

  /** Lines that are accepted by themselves add, inside any other lines, what they select if the place is active. */
  lemma RunSelected(eval: Evaluator, m: Machine, lines: seq<Line>)
    requires Preprocess(eval, lines).Ok?
    ensures Run(eval, m, lines) == Ok(Emit(m, Preprocess(eval, lines).value))
  {
    AcceptsExactlyTrees(eval, lines);
    var t :| IsTreeOf(eval, t, lines);
    RunTree(eval, t, m, []);
  }

  // ----- idempotence

  ghost predicate AllPlain(lines: seq<Line>) {
    forall i :: 0 <= i < |lines| ==> lines[i].dir.Plain?
  }

  lemma {:induction false} PlainIsKept(eval: Evaluator, lines: seq<Line>, m: Machine)
    requires AllPlain(lines) && m.active
    ensures Run(eval, m, lines) == Ok(m.(output := m.output + lines))
    decreases |lines|
  {
    if lines == [] {
      assert m.output + lines == m.output;
    } else {
      PlainIsKept(eval, lines[1..], m.(output := m.output + [lines[0]]));
      assert m.output + [lines[0]] + lines[1..] == m.output + lines;
    }
  }

  lemma {:induction false} OutputIsPlain(eval: Evaluator, lines: seq<Line>, m: Machine)
    requires AllPlain(m.output)
    ensures var r := Run(eval, m, lines); r.Ok? ==> AllPlain(r.value.output)
    decreases |lines|
  {
    if lines != [] && StepLine(eval, m, lines[0]).Ok? {
      OutputIsPlain(eval, lines[1..], StepLine(eval, m, lines[0]).value);
    }
  }

  /** What was selected once is selected again unchanged, under any evaluator. */
  lemma Idempotent(eval: Evaluator, again: Evaluator, lines: seq<Line>)
    ensures Preprocess(eval, lines).Ok? ==>
      Preprocess(again, Preprocess(eval, lines).value) == Preprocess(eval, lines)
  {
    OutputIsPlain(eval, lines, Start);
    var r := Preprocess(eval, lines);
    if r.Ok? {
      PlainIsKept(again, r.value, Start);
      assert [] + r.value == r.value;
    }
  }
}

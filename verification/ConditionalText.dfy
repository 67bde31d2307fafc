/**
  What the preprocessor selects, said of source text alone: of a conditional the first group
  whose condition holds, of a sequence of texts the selections one after the other, of a text
  without directives the text itself. Together these give the selection of every properly
  nested text whose directives are written in the usual form.
*/
module ConditionalText {
  import opened Basics
  import opened Text
  import opened Preprocessor
  import opened SourceLines

  /** Letters are word characters, white space is not. */
  ghost predicate Sane(word: WordClass) {
    HasLetters(word) && forall c :: IsSpace(c) ==> !word(c)
  }

  /** A condition as it is written on a directive line: stripped, and on one line. */
  ghost predicate IsArgument(e: string) {
    Strip(e) == e && forall i :: 0 <= i < |e| ==> !EndsLine(e[i])
  }

  /** Empty, or ended by a line break. */
  predicate Ended(x: string) { x == [] || EndsLine(x[|x| - 1]) }

  function Directive(keyword: string, argument: string): string {
    "#" + (keyword + (" " + (argument + "\n")))
  }

  /** The rest of a conditional behind its first group. */
  datatype Chain = End | ElseThen(body: string) | ElifThen(condition: string, body: string, more: Chain)

  function PrintChain(c: Chain): string {
    match c
    case End => "#endif\n"
    case ElseThen(body) => "#else\n" + (body + "#endif\n")
    case ElifThen(e, body, more) => Directive("elif", e) + (body + PrintChain(more))
  }

  /** The groups are complete lines and properly nested. */
  ghost predicate IsGroup(word: WordClass, eval: Evaluator, body: string) {
    Ended(body) && Selected(word, eval, body).Ok?
  }

  ghost predicate IsChain(word: WordClass, eval: Evaluator, c: Chain) {
    match c
    case End => true
    case ElseThen(body) => IsGroup(word, eval, body)
    case ElifThen(e, body, more) => IsArgument(e) && IsGroup(word, eval, body) && IsChain(word, eval, more)
  }

  /** What is selected if the first group is not; None if a condition has no value, needed or not. */
  function Alternative(word: WordClass, eval: Evaluator, c: Chain): Option<string> {
    match c
    case End => Some("")
    case ElseThen(body) => ValueOf(Selected(word, eval, body))
    case ElifThen(e, body, more) =>
      if eval(e).None? || Alternative(word, eval, more).None? then None
      else if eval(e).value then ValueOf(Selected(word, eval, body))
      else Alternative(word, eval, more)
  }

  function ValueOf(r: Result<string>): Option<string> {
    match r case Ok(x) => Some(x) case Err(_) => None
  }

  // ----- lines of a text put together

  lemma {:induction false} LineEndExtends(x: string, y: string)
    requires x != [] && LineEnd(x) < |x|
    ensures LineEnd(x + y) == LineEnd(x)
    decreases |x|
  {
    var s := x + y;
    assert s[0] == x[0] && s[1] == x[1];
    if !EndsLine(x[0]) {
      assert s[1..] == x[1..] + y;
      LineEndExtends(x[1..], y);
    }
  }

  lemma FirstLineOfTwo(x: string, y: string)
    requires x != [] && Ended(x) && !Fuses(x, y)
    ensures LineEnd(x + y) == LineEnd(x)
    ensures Ended(x[LineEnd(x)..]) && !Fuses(x[LineEnd(x)..], y)
  {
    hide LineEnd, EndsLine;
    if LineEnd(x) < |x| { LineEndExtends(x, y); } else { LineEndOfJoin(x, y); }
  }

  lemma SplitCons(s: string, n: nat)
    requires s != [] && n == LineEnd(s)
    ensures SplitLines(s) == [s[..n]] + SplitLines(s[n..])
  {
  }

  lemma {:induction false} SplitOfTwo(x: string, y: string)
    requires Ended(x) && !Fuses(x, y)
    ensures SplitLines(x + y) == SplitLines(x) + SplitLines(y)
    decreases |x|
  {
    if x == [] {
      assert x + y == y;
    } else {
      hide *;
      var n := LineEnd(x);
      FirstLineOfTwo(x, y);
      SplitOfTwo(x[n..], y);
      CutInTwo(x, y, n);
      SplitCons(x + y, n);
      SplitCons(x, n);
      Regroup(x[..n], SplitLines(x[n..]), SplitLines(y));
    }
  }

  lemma CutInTwo(x: string, y: string, n: nat)
    requires n <= |x|
    ensures (x + y)[..n] == x[..n] && (x + y)[n..] == x[n..] + y
  {
  }

  lemma Regroup(first: string, a: seq<string>, b: seq<string>)
    ensures [first] + (a + b) == ([first] + a) + b
  {
  }

  lemma LinesOfTwo(word: WordClass, x: string, y: string)
    requires Ended(x) && !Fuses(x, y)
    ensures Lines(word, x + y) == Lines(word, x) + Lines(word, y)
  {
    hide Classify;
    SplitOfTwo(x, y);
  }

  lemma {:induction false} TextOfTwo(a: seq<Line>, b: seq<Line>)
    ensures Join(Raws(a + b)) == Join(Raws(a)) + Join(Raws(b))
    decreases |a|
  {
    if a == [] {
      assert a + b == b;
    } else {
      assert Raws(a)[1..] == Raws(a[1..]) && Raws(a + b)[1..] == Raws(a[1..] + b);
      TextOfTwo(a[1..], b);
    }
  }

  /** The selection of two texts, one after the other, is that of the first followed by that of the second. */
  lemma SelectedOfTwo(word: WordClass, eval: Evaluator, x: string, y: string)
    requires IsGroup(word, eval, x) && Selected(word, eval, y).Ok? && !Fuses(x, y)
    ensures Selected(word, eval, x + y) == Ok(Selected(word, eval, x).value + Selected(word, eval, y).value)
  {
    hide Lines;
    LinesOfTwo(word, x, y);
    var a, b := Lines(word, x), Lines(word, y);
    RunAppend(eval, Start, a, b);
    RunSelected(eval, Start, a);
    var m := Emit(Start, Preprocess(eval, a).value);
    RunSelected(eval, m, b);
    assert Preprocess(eval, a + b) == Ok(Preprocess(eval, a).value + Preprocess(eval, b).value) by {
      assert Start.output + Preprocess(eval, a).value == Preprocess(eval, a).value;
    }
    TextOfTwo(Preprocess(eval, a).value, Preprocess(eval, b).value);
  }

  // ----- directive lines

  lemma {:induction false} OneLine(t: string)
    requires forall i :: 0 <= i < |t| ==> !EndsLine(t[i])
    ensures LineEnd(t + "\n") == |t| + 1
    decreases |t|
  {
    if t != [] {
      assert (t + "\n")[1..] == t[1..] + "\n";
      OneLine(t[1..]);
    }
  }

  lemma {:induction false} NewlineEnds(t: string)
    requires forall i :: 0 <= i < |t| ==> !EndsLine(t[i])
    ensures UpToNewline(t + "\n") == t
    decreases |t|
  {
    if t != [] {
      assert (t + "\n")[1..] == t[1..] + "\n";
      NewlineEnds(t[1..]);
    }
  }

  lemma KeywordIsLetters(keyword: string)
    requires keyword in KEYWORDS
    ensures keyword != [] && forall i :: 0 <= i < |keyword| ==> 'a' <= keyword[i] <= 'z'
  {
  }

  lemma SplitOneLine(u: string)
    requires forall i :: 0 <= i < |u| ==> !EndsLine(u[i])
    ensures SplitLines(u + "\n") == [u + "\n"]
  {
    OneLine(u);
    hide LineEnd;
    var l := u + "\n";
    assert l[..LineEnd(l)] == l;
    assert l[LineEnd(l)..] == [];
  }

  /** The keyword is found where it was written, and the argument is what follows it, stripped. */
  lemma DirectiveIsRead(word: WordClass, keyword: string, t: string)
    requires Sane(word) && keyword in KEYWORDS && (t == [] || t[0] == ' ')
    requires forall i :: 0 <= i < |t| ==> !EndsLine(t[i])
    ensures var l := "#" + (keyword + (t + "\n"));
      && DirectiveMatch(word, l, 0, 1, keyword)
      && SkipSpaces(l, 0) == 0 && SkipSpaces(l, 1) == 1 && Argument(l, 1 + |keyword|) == Strip(t)
  {
    hide Strip, SkipSpaces;
    var l := "#" + (keyword + (t + "\n"));
    KeywordIsLetters(keyword);
    assert l[1..1 + |keyword|] == keyword;
    assert l[1 + |keyword|] == (t + "\n")[0];
    assert KeywordAt(word, l, 1, keyword);
    assert DirectiveMatch(word, l, 0, 1, keyword);
    MatchStarts(word, l, 0, 1, keyword);
    assert l[1 + |keyword|..] == t + "\n";
    NewlineEnds(t);
  }

  /** A directive line is one line, and its kind is that of its keyword. */
  lemma DirectiveLine(word: WordClass, keyword: string, t: string)
    requires Sane(word) && keyword in KEYWORDS && (t == [] || t[0] == ' ')
    requires forall i :: 0 <= i < |t| ==> !EndsLine(t[i])
    ensures var l := "#" + (keyword + (t + "\n"));
      && Lines(word, l) == [Line(l, Classify(word, l))]
      && !Classify(word, l).Plain? && KeywordOf(Classify(word, l)) == keyword
  {
    hide Classify, KeywordOf, DirectiveMatch;
    var l := "#" + (keyword + (t + "\n"));
    var u := "#" + (keyword + t);
    KeywordIsLetters(keyword);
    assert l == u + "\n";
    SplitOneLine(u);
    DirectiveIsRead(word, keyword, t);
    ClassifyExactly(word, l);
  }

  /** The argument of a classified line is what is read behind its keyword. */
  lemma ArgumentIsRead(word: WordClass, l: string)
    requires SkipSpaces(l, 0) == 0 && |l| >= 1 && SkipSpaces(l, 1) == 1
    ensures match Classify(word, l)
      case If(a) => |l| >= 3 && a == Argument(l, 3)
      case Ifdef(a) => |l| >= 6 && a == Argument(l, 6)
      case Ifndef(a) => |l| >= 7 && a == Argument(l, 7)
      case Elif(a) => |l| >= 5 && a == Argument(l, 5)
      case _ => true
  {
    hide Argument, SkipSpaces;
  }

  /** The kind of a directive is known from its keyword. */
  lemma KindOfKeyword(d: Preprocessor.Directive, keyword: string)
    requires !d.Plain? && KeywordOf(d) == keyword
    ensures (keyword == "if" <==> d.If?) && (keyword == "ifdef" <==> d.Ifdef?) && (keyword == "ifndef" <==> d.Ifndef?)
    ensures (keyword == "elif" <==> d.Elif?) && (keyword == "else" <==> d.Else?) && (keyword == "endif" <==> d.Endif?)
  {
    assert "elif"[1] == 'l' && "else"[1] == 'l' && "elif"[2] == 'i' && "else"[2] == 's';
    assert "ifdef"[0] == 'i' && "endif"[0] == 'e';
  }

  lemma StripSpace(e: string)
    ensures Strip(" " + e) == Strip(e)
  {
    assert (" " + e)[1..] == e;
  }

  /** The opening directive of a conditional. */
  function Opening(keyword: string, e: string): Preprocessor.Directive
    requires keyword in {"if", "ifdef", "ifndef", "elif"}
  {
    if keyword == "if" then If(e) else if keyword == "ifdef" then Ifdef(e)
    else if keyword == "ifndef" then Ifndef(e) else Elif(e)
  }

  lemma ConditionLine(word: WordClass, keyword: string, e: string)
    requires Sane(word) && keyword in {"if", "ifdef", "ifndef", "elif"} && IsArgument(e)
    ensures Lines(word, Directive(keyword, e)) == [Line(Directive(keyword, e), Opening(keyword, e))]
  {
    hide Classify, Argument, SkipSpaces, Strip, DirectiveMatch, Sane;
    var l := Directive(keyword, e);
    assert l == "#" + (keyword + ((" " + e) + "\n")) by { assert " " + (e + "\n") == (" " + e) + "\n"; }
    DirectiveLine(word, keyword, " " + e);
    DirectiveIsRead(word, keyword, " " + e);
    ArgumentIsRead(word, l);
    KindOfKeyword(Classify(word, l), keyword);
    StripSpace(e);
  }

  lemma BareLine(word: WordClass, keyword: string)
    requires Sane(word) && (keyword == "else" || keyword == "endif")
    ensures var l := "#" + (keyword + "\n");
      Lines(word, l) == [Line(l, if keyword == "else" then Else else Endif)]
  {
    var l := "#" + (keyword + "\n");
    hide Classify, Argument, SkipSpaces, Strip, DirectiveMatch, Sane;
    assert "" + "\n" == "\n";
    DirectiveLine(word, keyword, "");
    KindOfKeyword(Classify(word, l), keyword);
  }

  // ----- conditionals

  /** Alternative, on lines. */
  function AlternativeLines(word: WordClass, eval: Evaluator, c: Chain): Option<seq<Line>> {
    match c
    case End => Some([])
    case ElseThen(body) => GroupLines(word, eval, body)
    case ElifThen(e, body, more) =>
      if eval(e).None? || AlternativeLines(word, eval, more).None? then None
      else if eval(e).value then GroupLines(word, eval, body)
      else AlternativeLines(word, eval, more)
  }

  function GroupLines(word: WordClass, eval: Evaluator, body: string): Option<seq<Line>> {
    match Preprocess(eval, Lines(word, body)) case Ok(x) => Some(x) case Err(_) => None
  }

  lemma {:induction false} AlternativeIsText(word: WordClass, eval: Evaluator, c: Chain)
    ensures match AlternativeLines(word, eval, c)
      case None => Alternative(word, eval, c) == None
      case Some(lines) => Alternative(word, eval, c) == Some(Join(Raws(lines)))
    decreases c
  {
    hide Lines;
    if c.ElifThen? { AlternativeIsText(word, eval, c.more); }
    if c.End? { assert Raws([]) == []; }
  }

  lemma ChainStarts(c: Chain)
    ensures PrintChain(c) != [] && PrintChain(c)[0] == '#'
  {
  }

  /** One group from its directive line on: the machine enters it, runs it, and goes on. */
  lemma GroupRuns(word: WordClass, eval: Evaluator, m: Machine, line: Line, m': Machine, body: string, rest: seq<Line>)
    requires StepLine(eval, m, line) == Ok(m') && Selected(word, eval, body).Ok?
    ensures GroupLines(word, eval, body).Some?
    ensures Run(eval, m, [line] + (Lines(word, body) + rest)) ==
      Run(eval, Emit(m', GroupLines(word, eval, body).value), rest)
  {
    hide StepLine, Lines;
    RunCons(eval, m, line, Lines(word, body) + rest);
    RunSelected(eval, m', Lines(word, body));
    RunAppend(eval, m', Lines(word, body), rest);
  }

  lemma ThreeParts(word: WordClass, line: string, body: string, rest: string)
    requires Ended(line) && line != [] && line[|line| - 1] == '\n' && Ended(body) && rest != [] && rest[0] == '#'
    ensures Lines(word, line + (body + rest)) == Lines(word, line) + (Lines(word, body) + Lines(word, rest))
  {
    hide Lines;
    assert (body + rest)[0] == if body == [] then rest[0] else body[0];
    LinesOfTwo(word, line, body + rest);
    LinesOfTwo(word, body, rest);
  }

  lemma {:induction false} ChainRuns(word: WordClass, eval: Evaluator, c: Chain, m: Machine)
    requires Sane(word) && IsChain(word, eval, c) && m.stack != []
    ensures var r := Run(eval, m, Lines(word, PrintChain(c)));
      match AlternativeLines(word, eval, c)
      case None => r.Err?
      case Some(lines) => r == Ok(Leave(m, lines))
    decreases c
  {
    match c
    case End => EndRuns(word, eval, m);
    case ElseThen(body) => ElseRuns(word, eval, m, body);
    case ElifThen(e, body, more) =>
      var line := Line(Directive("elif", e), Elif(e));
      ConditionLine(word, "elif", e);
      ChainStarts(more);
      ThreeParts(word, Directive("elif", e), body, PrintChain(more));
      ElifRuns(word, eval, m, e, body, Lines(word, PrintChain(more)));
      if eval(e).Some? {
        var m' := Emit(NextGroup(m, eval(e).value), GroupLines(word, eval, body).value);
        ChainRuns(word, eval, more, m');
        if AlternativeLines(word, eval, more).Some? {
          LeaveAfterGroup(m, eval(e).value, GroupLines(word, eval, body).value,
            AlternativeLines(word, eval, more).value);
        }
      }
  }

  lemma EndRuns(word: WordClass, eval: Evaluator, m: Machine)
    requires Sane(word) && m.stack != []
    ensures Run(eval, m, Lines(word, "#endif\n")) == Ok(Leave(m, []))
  {
    hide Lines, Classify;
    assert "#" + ("endif" + "\n") == "#endif\n";
    BareLine(word, "endif");
    assert [Line("#endif\n", Endif)][1..] == [];
    assert m.output + [] == m.output;
  }

  lemma ElseRuns(word: WordClass, eval: Evaluator, m: Machine, body: string)
    requires Sane(word) && m.stack != [] && IsGroup(word, eval, body)
    ensures GroupLines(word, eval, body).Some?
    ensures Run(eval, m, Lines(word, "#else\n" + (body + "#endif\n"))) ==
      Ok(Leave(m, GroupLines(word, eval, body).value))
  {
    hide Lines, Run, Sane, Selected;
    ThreeParts(word, "#else\n", body, "#endif\n");
    assert "#" + ("else" + "\n") == "#else\n";
    BareLine(word, "else");
    var line := Line("#else\n", Else);
    GroupRuns(word, eval, m, line, NextGroup(m, true), body, Lines(word, "#endif\n"));
    var m' := Emit(NextGroup(m, true), GroupLines(word, eval, body).value);
    EndRuns(word, eval, m');
    LeaveAfterGroup(m, true, GroupLines(word, eval, body).value, []);
  }

  lemma ElifRuns(word: WordClass, eval: Evaluator, m: Machine, e: string, body: string, rest: seq<Line>)
    requires m.stack != [] && IsGroup(word, eval, body)
    ensures GroupLines(word, eval, body).Some?
    ensures var r := Run(eval, m, [Line(Directive("elif", e), Elif(e))] + (Lines(word, body) + rest));
      if eval(e).None? then r.Err?
      else r == Run(eval, Emit(NextGroup(m, eval(e).value), GroupLines(word, eval, body).value), rest)
  {
    hide Lines, Run;
    var line := Line(Directive("elif", e), Elif(e));
    if eval(e).Some? {
      GroupRuns(word, eval, m, line, NextGroup(m, eval(e).value), body, rest);
    } else {
      RunCons(eval, m, line, Lines(word, body) + rest);
    }
  }

  /** Whether the first group of a conditional is selected; None if its condition has no value. */
  function Holds(eval: Evaluator, keyword: string, e: string): Option<bool> {
    if keyword == "if" then eval(e)
    else if keyword == "ifdef" then Some(e == "PY_VERSION_HEX")
    else Some(e != "PY_VERSION_HEX")
  }

  lemma OpeningRuns(word: WordClass, eval: Evaluator, keyword: string, e: string, body: string, rest: seq<Line>)
    requires keyword in {"if", "ifdef", "ifndef"} && IsGroup(word, eval, body)
    ensures GroupLines(word, eval, body).Some?
    ensures var r := Run(eval, Start, [Line(Directive(keyword, e), Opening(keyword, e))] + (Lines(word, body) + rest));
      match Holds(eval, keyword, e)
      case None => r.Err?
      case Some(c) => r == Run(eval, Emit(Machine(c, [Entry(true, c)], []), GroupLines(word, eval, body).value), rest)
  {
    hide Lines, Run;
    var line := Line(Directive(keyword, e), Opening(keyword, e));
    var c := Holds(eval, keyword, e);
    if c.Some? {
      assert Start.stack + [Entry(true, c.value)] == [Entry(true, c.value)];
      GroupRuns(word, eval, Start, line, Machine(c.value, [Entry(true, c.value)], []), body, rest);
    } else {
      RunCons(eval, Start, line, Lines(word, body) + rest);
    }
  }

  /**
    A conditional from text to text. If some condition has no value it is an error; otherwise
    the first group is selected if its condition holds, and what follows decides if not.
  */
  lemma ConditionalSelects(word: WordClass, eval: Evaluator, keyword: string, e: string, body: string, c: Chain)
    requires Sane(word) && keyword in {"if", "ifdef", "ifndef"} && IsArgument(e)
    requires IsGroup(word, eval, body) && IsChain(word, eval, c)
    ensures var r := Selected(word, eval, Directive(keyword, e) + (body + PrintChain(c)));
      if Holds(eval, keyword, e).None? || Alternative(word, eval, c).None? then r.Err?
      else if Holds(eval, keyword, e).value then r == Selected(word, eval, body)
      else r == Ok(Alternative(word, eval, c).value)
  {
    hide Lines, Run, Sane, IsChain, IsArgument, PrintChain, Alternative, AlternativeLines, Classify, Holds;
    ConditionLine(word, keyword, e);
    ChainStarts(c);
    ThreeParts(word, Directive(keyword, e), body, PrintChain(c));
    OpeningRuns(word, eval, keyword, e, body, Lines(word, PrintChain(c)));
    AlternativeIsText(word, eval, c);
    var holds := Holds(eval, keyword, e);
    if holds.Some? {
      var text := GroupLines(word, eval, body).value;
      var m := Emit(Machine(holds.value, [Entry(true, holds.value)], []), text);
      ChainRuns(word, eval, c, m);
      if AlternativeLines(word, eval, c).Some? {
        LeavesConditional(holds.value, text, AlternativeLines(word, eval, c).value);
      }
    }
  }

  lemma LeavesConditional(taken: bool, text: seq<Line>, other: seq<Line>)
    ensures Leave(Emit(Machine(taken, [Entry(true, taken)], []), text), other) ==
      Machine(true, [], if taken then text else other)
  {
    assert [] + text == text && text + [] == text && [] + other == other;
  }

  /** A text in which no line is matched by the directive pattern is selected as it is. */
  lemma PlainSelectsItself(word: WordClass, eval: Evaluator, s: string)
    requires HasLetters(word)
    requires forall l, j: nat, k: nat, keyword :: l in SplitLines(s) ==> !DirectiveMatch(word, l, j, k, keyword)
    ensures Selected(word, eval, s) == Ok(s)
  {
    forall i | 0 <= i < |SplitLines(s)| ensures Classify(word, SplitLines(s)[i]).Plain? {
      ClassifyExactly(word, SplitLines(s)[i]);
      assert SplitLines(s)[i] in SplitLines(s);
    }
    PlainTextIsKept(word, eval, s);
  }

  /** The usual case: a condition, a group, and another group if it does not hold. */
  lemma IfElseSelects(word: WordClass, eval: Evaluator, e: string, yes: string, no: string)
    requires Sane(word) && IsArgument(e) && IsGroup(word, eval, yes) && IsGroup(word, eval, no)
    ensures var r := Selected(word, eval, "#if " + (e + ("\n" + (yes + ("#else\n" + (no + "#endif\n"))))));
      match eval(e)
      case None => r.Err?
      case Some(true) => r == Selected(word, eval, yes)
      case Some(false) => r == Selected(word, eval, no)
  {
    hide Selected;
    var rest := "#else\n" + (no + "#endif\n");
    assert "#if " + (e + ("\n" + (yes + rest))) == Directive("if", e) + (yes + rest);
    ConditionalSelects(word, eval, "if", e, yes, ElseThen(no));
  }
}

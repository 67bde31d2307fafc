/**
  From source text to the classified lines the preprocessor works on, and back: splitting at
  line boundaries (terminators are kept), the directive pattern, and joining what was
  selected. Joining can fuse a lone carriage return with a line feed that followed a dropped
  line, so splitting again need not give the same lines; it does give the same selection.
*/
module SourceLines {
  import opened Basics
  import opened Text
  import opened Preprocessor

  // ----- lines

  /** Where `str.splitlines` breaks lines. */
  predicate EndsLine(c: char) {
    || '\n' <= c <= '\r' || '\U{1C}' <= c <= '\U{1E}' || c == '\U{85}' || c == '\U{2028}' || c == '\U{2029}'
  }

  /** The line breaks one by one; each is white space. */
  lemma LineBreaksAre(c: char)
    ensures EndsLine(c) <==> c in "\n\U{0B}\U{0C}\r\U{1C}\U{1D}\U{1E}\U{85}\U{2028}\U{2029}"
    ensures EndsLine(c) ==> IsSpace(c)
  {
  }

  /** Length of the first line with its terminator; a carriage return and a line feed are one. */
  function LineEnd(s: string): (n: nat)
    requires s != []
    ensures 1 <= n <= |s|
  {
    if s[0] == '\r' && |s| > 1 && s[1] == '\n' then 2
    else if EndsLine(s[0]) || |s| == 1 then 1
    else 1 + LineEnd(s[1..])
  }

  /** `s.splitlines(keepends=True)` */
  function SplitLines(s: string): seq<string> {
    if s == [] then [] else [s[..LineEnd(s)]] + SplitLines(s[LineEnd(s)..])
  }

  function Join(lines: seq<string>): string {
    if lines == [] then "" else lines[0] + Join(lines[1..])
  }

  predicate IsLine(l: string) { l != [] && LineEnd(l) == |l| }

  /** A line with its terminator. */
  predicate Complete(l: string) { IsLine(l) && EndsLine(l[|l| - 1]) }

  ghost predicate AreLines(ls: seq<string>) {
    forall i :: 0 <= i < |ls| ==> IsLine(ls[i]) && (i < |ls| - 1 ==> Complete(ls[i]))
  }

  lemma {:induction false} FirstLine(s: string)
    requires s != []
    ensures IsLine(s[..LineEnd(s)])
    ensures LineEnd(s) < |s| ==> Complete(s[..LineEnd(s)])
    decreases |s|
  {
    var n := LineEnd(s);
    if !EndsLine(s[0]) && |s| > 1 {
      FirstLine(s[1..]);
      assert s[..n][1..] == s[1..][..n - 1];
      assert n < |s| ==> s[..n][n - 1] == s[1..][..n - 1][n - 2];
    }
  }

  /** Splitting loses nothing, and every line but the last has its terminator. */
  lemma {:induction false} SplitKeeps(s: string)
    ensures Join(SplitLines(s)) == s && AreLines(SplitLines(s))
    decreases |s|
  {
    if s != [] {
      var n := LineEnd(s);
      FirstLine(s);
      SplitKeeps(s[n..]);
      assert s == s[..n] + s[n..];
      assert SplitLines(s)[1..] == SplitLines(s[n..]);
    }
  }

  // ----- splitting what was joined

  predicate Fuses(l: string, rest: string) {
    l != [] && l[|l| - 1] == '\r' && rest != [] && rest[0] == '\n'
  }

  /** In a joined text the first line ends where it did, or one further if it fuses. */
  lemma {:induction false} LineEndOfJoin(l: string, rest: string)
    requires IsLine(l) && (Complete(l) || rest == [])
    ensures LineEnd(l + rest) == if Fuses(l, rest) then |l| + 1 else |l|
    decreases |l|
  {
    if rest == [] {
      assert l + rest == l;
    } else if |l| > 1 && !EndsLine(l[0]) {
      LineEndOfJoin(l[1..], rest);
      assert (l + rest)[1..] == l[1..] + rest;
    }
  }

  /** Lines with each lone carriage return fused with a line feed behind it. */
  function Fused(ls: seq<string>): seq<string> {
    if |ls| < 2 then ls
    else if Fuses(ls[0], ls[1]) then [ls[0] + "\n"] + Fused(ls[2..])
    else [ls[0]] + Fused(ls[1..])
  }

  lemma JoinStarts(ls: seq<string>)
    requires AreLines(ls)
    ensures ls == [] <==> Join(ls) == []
    ensures ls != [] ==> Join(ls)[0] == ls[0][0]
  {
  }

  lemma {:induction false} SplitOfJoin(ls: seq<string>)
    requires AreLines(ls)
    ensures SplitLines(Join(ls)) == Fused(ls)
    decreases |ls|
  {
    if ls != [] {
      var rest := Join(ls[1..]);
      JoinStarts(ls[1..]);
      LineEndOfJoin(ls[0], rest);
      var s := ls[0] + rest;
      if Fuses(ls[0], rest) {
        assert ls[1][0] == '\n' && ls[1] == "\n";
        assert ls[1..][1..] == ls[2..];
        assert s == (ls[0] + "\n") + Join(ls[2..]);
        assert s[..|ls[0]| + 1] == ls[0] + "\n" && s[|ls[0]| + 1..] == Join(ls[2..]);
        SplitOfJoin(ls[2..]);
      } else {
        assert s[..|ls[0]|] == ls[0] && s[|ls[0]|..] == rest;
        SplitOfJoin(ls[1..]);
      }
    }
  }

  // ----- the directive pattern

  /** Which characters `\w` matches, for `\b`. */
  type WordClass = char -> bool

  /** The keyword as a word that ends there. */
  predicate KeywordAt(word: WordClass, l: string, k: nat, keyword: string) {
    OccursAt(l, keyword, k) && (k + |keyword| < |l| ==> !word(l[k + |keyword|]))
  }

  const KEYWORDS: seq<string> := ["if", "ifdef", "ifndef", "elif", "else", "endif"]

  function UpToNewline(s: string): string {
    if s == [] || s[0] == '\n' then [] else [s[0]] + UpToNewline(s[1..])
  }

  /** The stripped rest of the line behind the keyword. */
  function Argument(l: string, from: nat): string
    requires from <= |l|
  {
    Strip(UpToNewline(l[from..]))
  }

  function Classify(word: WordClass, l: string): Directive {
    var j := SkipSpaces(l, 0);
    if j == |l| || l[j] != '#' then Plain else
    var k := SkipSpaces(l, j + 1);
    if KeywordAt(word, l, k, "if") then If(Argument(l, k + 2))
    else if KeywordAt(word, l, k, "ifdef") then Ifdef(Argument(l, k + 5))
    else if KeywordAt(word, l, k, "ifndef") then Ifndef(Argument(l, k + 6))
    else if KeywordAt(word, l, k, "elif") then Elif(Argument(l, k + 4))
    else if KeywordAt(word, l, k, "else") then Else
    else if KeywordAt(word, l, k, "endif") then Endif
    else Plain
  }

  /** A match of the directive pattern, for some way to divide the line. */
  ghost predicate DirectiveMatch(word: WordClass, l: string, j: nat, k: nat, keyword: string) {
    && j < k && AllSpaces(l, 0, j) && j < |l| && l[j] == '#' && AllSpaces(l, j + 1, k)
    && keyword in KEYWORDS && KeywordAt(word, l, k, keyword)
  }

  function KeywordOf(d: Directive): string
    requires !d.Plain?
  {
    match d
    case If(_) => "if"
    case Ifdef(_) => "ifdef"
    case Ifndef(_) => "ifndef"
    case Elif(_) => "elif"
    case Else => "else"
    case Endif => "endif"
  }

  lemma MatchStarts(word: WordClass, l: string, j: nat, k: nat, keyword: string)
    requires DirectiveMatch(word, l, j, k, keyword)
    ensures SkipSpaces(l, 0) == j && SkipSpaces(l, j + 1) == k
  {
    SpacesEnd(l, 0, j);
    assert l[k..k + |keyword|][0] == l[k];
    SpacesEnd(l, j + 1, k);
  }

  lemma KeywordChars(word: WordClass, l: string, k: nat, keyword: string, i: nat)
    requires KeywordAt(word, l, k, keyword) && i < |keyword|
    ensures k + i < |l| && l[k + i] == keyword[i]
  {
    assert l[k..k + |keyword|][i] == l[k + i];
  }

  ghost predicate HasLetters(word: WordClass) {
    forall c :: 'a' <= c <= 'z' ==> word(c)
  }

  lemma ShorterEndsEarlier(word: WordClass, l: string, k: nat, a: string, b: string)
    requires KeywordAt(word, l, k, a) && KeywordAt(word, l, k, b)
    ensures forall i :: 0 <= i < |a| && i < |b| ==> a[i] == b[i]
    ensures |a| < |b| ==> !word(b[|a|])
  {
    forall i: nat | i < |a| && i < |b| ensures a[i] == b[i] {
      KeywordChars(word, l, k, a, i);
      KeywordChars(word, l, k, b, i);
    }
    if |a| < |b| { KeywordChars(word, l, k, b, |a|); }
  }

  /** At most one keyword ends as a word at any place. */
  lemma KeywordIsUnique(word: WordClass, l: string, k: nat, a: string, b: string)
    requires HasLetters(word) && a in KEYWORDS && b in KEYWORDS
    requires KeywordAt(word, l, k, a) && KeywordAt(word, l, k, b)
    ensures a == b
  {
    hide KeywordAt;
    ShorterEndsEarlier(word, l, k, a, b);
    ShorterEndsEarlier(word, l, k, b, a);
  }

  lemma DirectiveIsFound(word: WordClass, l: string, j: nat, k: nat, keyword: string)
    requires DirectiveMatch(word, l, j, k, keyword)
    ensures !Classify(word, l).Plain?
  {
    MatchStarts(word, l, j, k, keyword);
    hide KeywordAt, SkipSpaces, AllSpaces;
  }

  lemma FoundMatches(word: WordClass, l: string)
    requires !Classify(word, l).Plain?
    ensures DirectiveMatch(word, l, SkipSpaces(l, 0), SkipSpaces(l, SkipSpaces(l, 0) + 1), KeywordOf(Classify(word, l)))
  {
    hide KeywordAt;
  }

  /** A line is a directive exactly when the pattern matches it, and the keyword of any match is its kind. */
  lemma ClassifyExactly(word: WordClass, l: string)
    requires HasLetters(word)
    ensures !Classify(word, l).Plain? <==> exists j: nat, k: nat, keyword :: DirectiveMatch(word, l, j, k, keyword)
    ensures forall j: nat, k: nat, keyword :: DirectiveMatch(word, l, j, k, keyword) ==>
      !Classify(word, l).Plain? && KeywordOf(Classify(word, l)) == keyword
  {
    hide Classify, KeywordAt, SkipSpaces, AllSpaces;
    if !Classify(word, l).Plain? { FoundMatches(word, l); }
    forall j: nat, k: nat, keyword | DirectiveMatch(word, l, j, k, keyword)
      ensures !Classify(word, l).Plain? && KeywordOf(Classify(word, l)) == keyword
    {
      DirectiveIsFound(word, l, j, k, keyword);
      MatchStarts(word, l, j, k, keyword);
      KeywordIsUnique(word, l, k, keyword, KeywordOf(Classify(word, l)));
    }
  }

  lemma MatchInLine(word: WordClass, l: string, j: nat, k: nat, keyword: string)
    requires DirectiveMatch(word, l + "\n", j, k, keyword)
    ensures DirectiveMatch(word, l, j, k, keyword)
  {
    var t := l + "\n";
    KeywordChars(word, t, k, keyword, |keyword| - 1);
    assert k + |keyword| <= |l|;
    assert forall i :: 0 <= i < |l| ==> t[i] == l[i];
    assert l[k..k + |keyword|] == t[k..k + |keyword|];
  }

  /** A line feed behind a line makes no directive of it. */
  lemma PlainStaysPlain(word: WordClass, l: string)
    requires Classify(word, l).Plain?
    ensures Classify(word, l + "\n").Plain?
  {
    hide Classify, KeywordAt, SkipSpaces, AllSpaces;
    var t := l + "\n";
    if !Classify(word, t).Plain? {
      FoundMatches(word, t);
      var j := SkipSpaces(t, 0);
      var k := SkipSpaces(t, j + 1);
      var keyword := KeywordOf(Classify(word, t));
      MatchInLine(word, l, j, k, keyword);
      DirectiveIsFound(word, l, j, k, keyword);
    }
  }

  // ----- preprocessing a text

  /** The lines of a text as the preprocessor sees them. */
  function Lines(word: WordClass, s: string): seq<Line> {
    var ls := SplitLines(s);
    seq(|ls|, i requires 0 <= i < |ls| => Line(ls[i], Classify(word, ls[i])))
  }

  function Raws(lines: seq<Line>): seq<string> {
    seq(|lines|, i requires 0 <= i < |lines| => lines[i].raw)
  }

  /** `_preprocess_cpp_311`, from text to text. */
  method PreprocessText(word: WordClass, eval: Evaluator, source: string) returns (r: Result<string>)
    ensures r == Selected(word, eval, source)
  {
    var output := PreprocessLines(eval, Lines(word, source));
    if output.Err? { return Err(output.message); }
    return Ok(Join(Raws(output.value)));
  }

  function Selected(word: WordClass, eval: Evaluator, source: string): Result<string> {
    match Preprocess(eval, Lines(word, source))
    case Err(e) => Err(e)
    case Ok(lines) => Ok(Join(Raws(lines)))
  }

  ghost predicate Classified(word: WordClass, lines: seq<Line>) {
    forall i :: 0 <= i < |lines| ==> lines[i].dir == Classify(word, lines[i].raw)
  }

  ghost predicate AllComplete(lines: seq<Line>) {
    forall i :: 0 <= i < |lines| ==> Complete(lines[i].raw)
  }

  lemma StepAppends(eval: Evaluator, m: Machine, line: Line)
    requires StepLine(eval, m, line).Ok?
    ensures var m' := StepLine(eval, m, line).value; m'.output == m.output || m'.output == m.output + [line]
  {
  }

  /** What is selected from lines are lines again: only the last may lack its terminator. */
  lemma {:induction false} OutputAreLines(word: WordClass, eval: Evaluator, lines: seq<Line>, m: Machine)
    requires AreLines(Raws(lines)) && Classified(word, lines)
    requires AllComplete(m.output) && Classified(word, m.output)
    ensures var r := Run(eval, m, lines); r.Ok? ==> AreLines(Raws(r.value.output)) && Classified(word, r.value.output)
    decreases |lines|
  {
    hide StepLine, Classify, LineEnd;
    if lines != [] && StepLine(eval, m, lines[0]).Ok? {
      var m' := StepLine(eval, m, lines[0]).value;
      StepAppends(eval, m, lines[0]);
      assert Raws(lines)[0] == lines[0].raw;
      if |lines| == 1 {
        assert Run(eval, m', lines[1..]) == Ok(m');
      } else {
        assert Raws(lines[1..]) == Raws(lines)[1..];
        OutputAreLines(word, eval, lines[1..], m');
      }
    }
  }

  lemma {:induction false} FusedIsPlain(word: WordClass, ls: seq<string>)
    requires forall i :: 0 <= i < |ls| ==> Classify(word, ls[i]).Plain?
    ensures forall i :: 0 <= i < |Fused(ls)| ==> Classify(word, Fused(ls)[i]).Plain?
    decreases |ls|
  {
    hide Classify;
    if |ls| >= 2 {
      if Fuses(ls[0], ls[1]) {
        PlainStaysPlain(word, ls[0]);
        FusedIsPlain(word, ls[2..]);
      } else {
        FusedIsPlain(word, ls[1..]);
      }
    }
  }

  /** A text without directives is selected as it is. */
  lemma PlainTextIsKept(word: WordClass, eval: Evaluator, s: string)
    requires forall i :: 0 <= i < |SplitLines(s)| ==> Classify(word, SplitLines(s)[i]).Plain?
    ensures Selected(word, eval, s) == Ok(s)
  {
    hide Classify;
    var lines := Lines(word, s);
    PlainIsKept(eval, lines, Start);
    assert [] + lines == lines;
    assert Raws(lines) == SplitLines(s);
    SplitKeeps(s);
  }

  /** Preprocessing the preprocessed text again changes nothing, under any evaluator. */
  lemma SelectedTwice(word: WordClass, eval: Evaluator, again: Evaluator, source: string)
    ensures var r := Selected(word, eval, source); r.Ok? ==> Selected(word, again, r.value) == r
  {
    hide Classify, StepLine;
    var lines := Lines(word, source);
    var r := Preprocess(eval, lines);
    if r.Ok? {
      SplitKeeps(source);
      assert Raws(lines) == SplitLines(source);
      OutputAreLines(word, eval, lines, Start);
      OutputIsPlain(eval, lines, Start);
      var raws := Raws(r.value);
      SplitOfJoin(raws);
      FusedIsPlain(word, raws);
      PlainTextIsKept(word, again, Join(raws));
    }
  }
}

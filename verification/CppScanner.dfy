/**
  The C++ scanning helpers of the bytecode-support checker: the masker that blanks comments
  and quoted literals in place, the brace matcher, and the collector of top-level cases of
  the one opcode switch in a function.
*/
module CppScanner {
  import opened Basics
  import opened Text
  import opened Preprocessor
  import opened SourceLines

  // ----- tokens to blank: the regular expression, tried at the head of the text

  /** Length of the text up to the end of the line. */
  function LineLength(s: string): (n: nat)
    ensures n <= |s|
  {
    if s == [] || s[0] == '\r' || s[0] == '\n' then 0 else 1 + LineLength(s[1..])
  }

  /** Length of the text up to and including the first "star slash". */
  function CommentLength(s: string): (r: Option<nat>)
    ensures r.Some? ==> 2 <= r.value <= |s|
  {
    if |s| < 2 then None
    else if s[0] == '*' && s[1] == '/' then Some(2)
    else match CommentLength(s[1..])
         case None => None
         case Some(n) => Some(n + 1)
  }

  /** Length of the text up to and including the closing quote; a backslash takes the next character with it. */
  function QuoteLength(s: string, q: char): (r: Option<nat>)
    ensures r.Some? ==> 1 <= r.value <= |s|
    decreases |s|
  {
    if s == [] then None
    else if s[0] == q then Some(1)
    else if s[0] == '\\' then
      (if |s| < 2 then None
       else match QuoteLength(s[2..], q)
            case None => None
            case Some(n) => Some(n + 2))
    else match QuoteLength(s[1..], q)
         case None => None
         case Some(n) => Some(n + 1)
  }

  /** A line comment ends before the first line break, or with the text. */
  lemma {:induction false} LineEndsFirst(s: string)
    ensures forall i :: 0 <= i < LineLength(s) ==> s[i] != '\r' && s[i] != '\n'
    ensures LineLength(s) < |s| ==> s[LineLength(s)] == '\r' || s[LineLength(s)] == '\n'
    decreases |s|
  {
    if s != [] && s[0] != '\r' && s[0] != '\n' {
      LineEndsFirst(s[1..]);
      assert forall i :: 1 <= i < |s| ==> s[i] == s[1..][i - 1];
    }
  }

  predicate ClosesComment(s: string, i: nat) {
    i + 1 < |s| && s[i] == '*' && s[i + 1] == '/'
  }

  /** A block comment ends with the first "star slash" after its opening, and has no end if there is none. */
  lemma {:induction false} CommentEndsFirst(s: string)
    ensures CommentLength(s).Some? ==> ClosesComment(s, CommentLength(s).value - 2)
    ensures forall i: nat :: ClosesComment(s, i) ==> CommentLength(s).Some? && CommentLength(s).value <= i + 2
    decreases |s|
  {
    if |s| >= 2 && !ClosesComment(s, 0) {
      CommentEndsFirst(s[1..]);
      assert forall i: nat :: 1 <= i < |s| ==> (ClosesComment(s, i) <==> ClosesComment(s[1..], i - 1));
    }
  }

  /** A character is escaped if an unescaped backslash precedes it. */
  predicate Escaped(s: string, i: nat)
    requires i <= |s|
  {
    i > 0 && s[i - 1] == '\\' && !Escaped(s, i - 1)
  }

  lemma {:induction false} EscapedInSuffix(s: string, k: nat, i: nat)
    requires k + i <= |s| && !Escaped(s, k)
    ensures Escaped(s[k..], i) == Escaped(s, k + i)
    decreases i
  {
    if i > 0 { EscapedInSuffix(s, k, i - 1); }
  }

  ghost predicate ClosesQuote(s: string, q: char, i: nat) {
    i < |s| && s[i] == q && !Escaped(s, i)
  }

  /** A literal ends at the first quote that is not escaped, and has no end if there is none. */
  lemma {:induction false} QuoteEndsFirst(s: string, q: char)
    requires q != '\\'
    ensures QuoteLength(s, q).Some? ==> ClosesQuote(s, q, QuoteLength(s, q).value - 1)
    ensures forall i: nat :: ClosesQuote(s, q, i) ==> QuoteLength(s, q).Some? && QuoteLength(s, q).value <= i + 1
    decreases |s|
  {
    if s != [] && s[0] != q {
      var k := if s[0] == '\\' then 2 else 1;
      if k <= |s| {
        assert Escaped(s, 1) == (s[0] == '\\');
        assert !Escaped(s, k);
        QuoteEndsFirst(s[k..], q);
        assert forall i: nat :: i < k ==> !ClosesQuote(s, q, i);
        forall i: nat | k <= i < |s| ensures ClosesQuote(s, q, i) <==> ClosesQuote(s[k..], q, i - k) {
          EscapedInSuffix(s, k, i - k);
        }
      }
    }
  }

  function TokenLength(s: string): (r: Option<nat>)
    requires s != []
    ensures r.Some? ==> 1 <= r.value <= |s|
  {
    if |s| >= 2 && s[0] == '/' && s[1] == '/' then Some(2 + LineLength(s[2..]))
    else if |s| >= 2 && s[0] == '/' && s[1] == '*' then
      match CommentLength(s[2..])
      case None => None
      case Some(n) => Some(n + 2)
    else if s[0] == '"' || s[0] == '\'' then
      match QuoteLength(s[1..], s[0])
      case None => None
      case Some(n) => Some(n + 1)
    else None
  }

  // ----- masking

  function BlankChar(c: char): char {
    if c == '\n' then '\n' else ' '
  }

  function Blank(s: string): string {
    seq(|s|, i requires 0 <= i < |s| => BlankChar(s[i]))
  }

  /** How far one step of the substitution moves: over a token, or over one ordinary character. */
  function Stride(s: string): (n: nat)
    requires s != []
    ensures 1 <= n <= |s|
  {
    match TokenLength(s)
    case Some(n) => n
    case None => 1
  }

  function MaskHead(s: string): (r: string)
    requires s != []
    ensures |r| == Stride(s)
  {
    if TokenLength(s).Some? then Blank(s[..Stride(s)]) else [s[0]]
  }

  function Mask(s: string): string {
    if s == [] then [] else MaskHead(s) + Mask(s[Stride(s)..])
  }

  /** The masked text has the same length, keeps every newline where it is, and adds none. */
  lemma {:induction false} MaskKeepsOffsets(s: string)
    ensures |Mask(s)| == |s|
    ensures forall i :: 0 <= i < |s| ==> Mask(s)[i] == s[i] || Mask(s)[i] == BlankChar(s[i])
    ensures forall i :: 0 <= i < |s| ==> (Mask(s)[i] == '\n' <==> s[i] == '\n')
    decreases |s|
  {
    if s != [] {
      var n := Stride(s);
      MaskKeepsOffsets(s[n..]);
      forall i | 0 <= i < |s|
        ensures (Mask(s)[i] == s[i] || Mask(s)[i] == BlankChar(s[i])) && (Mask(s)[i] == '\n' <==> s[i] == '\n')
      {
        if i >= n { assert Mask(s)[i] == Mask(s[n..])[i - n] && s[i] == s[n..][i - n]; }
      }
    }
  }

  /** The substitution stops at q: no token reaches across it. */
  ghost predicate Boundary(s: string, q: nat)
    decreases |s|
  {
    q == 0 || (s != [] && Stride(s) <= q && Boundary(s[Stride(s)..], q - Stride(s)))
  }

  lemma {:induction false} LineLengthOfPrefix(s: string, q: nat)
    requires LineLength(s) <= q <= |s|
    ensures LineLength(s[..q]) == LineLength(s)
    decreases |s|
  {
    if s != [] && q > 0 && s[0] != '\r' && s[0] != '\n' {
      assert s[..q][1..] == s[1..][..q - 1];
      LineLengthOfPrefix(s[1..], q - 1);
    }
  }

  lemma {:induction false} CommentLengthOfPrefix(s: string, q: nat)
    requires q <= |s|
    ensures CommentLength(s[..q]) ==
      if CommentLength(s).Some? && CommentLength(s).value <= q then CommentLength(s) else None
    decreases |s|
  {
    if q >= 2 && !(s[0] == '*' && s[1] == '/') {
      assert s[..q][1..] == s[1..][..q - 1];
      CommentLengthOfPrefix(s[1..], q - 1);
    }
  }

  lemma {:induction false} QuoteLengthOfPrefix(s: string, c: char, q: nat)
    requires q <= |s|
    ensures QuoteLength(s[..q], c) ==
      if QuoteLength(s, c).Some? && QuoteLength(s, c).value <= q then QuoteLength(s, c) else None
    decreases |s|
  {
    if q > 0 && s[0] != c {
      if s[0] != '\\' {
        assert s[..q][1..] == s[1..][..q - 1];
        QuoteLengthOfPrefix(s[1..], c, q - 1);
      } else if q >= 2 {
        assert s[..q][2..] == s[2..][..q - 2];
        QuoteLengthOfPrefix(s[2..], c, q - 2);
      }
    }
  }

  /** Cutting the text after the current token, or ordinary character, does not change it. */
  lemma StrideOfPrefix(s: string, q: nat)
    requires s != [] && Stride(s) <= q <= |s|
    ensures s[..q] != [] && Stride(s[..q]) == Stride(s) && MaskHead(s[..q]) == MaskHead(s)
  {
    var p := s[..q];
    if q >= 2 {
      assert p[2..] == s[2..][..q - 2];
      if s[0] == '/' && s[1] == '/' { LineLengthOfPrefix(s[2..], q - 2); }
      if s[0] == '/' && s[1] == '*' { CommentLengthOfPrefix(s[2..], q - 2); }
    }
    assert p[1..] == s[1..][..q - 1];
    if s[0] == '"' || s[0] == '\'' { QuoteLengthOfPrefix(s[1..], s[0], q - 1); }
    assert p[..Stride(s)] == s[..Stride(s)];
  }

  /** Masking is local: cut at a boundary, the two parts are masked independently. */
  lemma {:induction false} MaskSplits(x: string, y: string)
    requires Boundary(x + y, |x|)
    ensures Mask(x + y) == Mask(x) + Mask(y)
    decreases |x|
  {
    var s := x + y;
    if x == [] {
      assert s == y;
    } else {
      var n := Stride(s);
      assert s[..|x|] == x;
      StrideOfPrefix(s, |x|);
      assert s[n..] == x[n..] + y;
      MaskSplits(x[n..], y);
      Associative(MaskHead(s), Mask(x[n..]), Mask(y));
    }
  }

  lemma Associative(x: string, y: string, z: string)
    ensures x + (y + z) == (x + y) + z
  {
  }

  lemma MiddleOf(x: string, y: string, z: string)
    ensures (x + (y + z))[|x|..|x| + |y|] == y
  {
  }

  /** A character that survives masking other than as a blank is its own step of the scan. */
  lemma {:induction false} KeptIsBoundary(s: string, i: nat)
    requires i < |Mask(s)| && Mask(s)[i] != ' ' && Mask(s)[i] != '\n'
    ensures Boundary(s, i) && Boundary(s, i + 1) && i < |s| && s[i] == Mask(s)[i]
    decreases |s|
  {
    MaskKeepsOffsets(s);
    var n := Stride(s);
    hide TokenLength;
    if i >= n {
      assert Mask(s)[i] == Mask(s[n..])[i - n];
      KeptIsBoundary(s[n..], i - n);
      assert s[n..][i - n] == s[i];
      assert Boundary(s[n..], i + 1 - n);
    } else {
      assert Mask(s)[i] == MaskHead(s)[i];
      assert TokenLength(s).None?;
      assert i == 0 && Boundary(s[1..], 0);
    }
  }

  // ----- what is masked, said of the text alone

  predicate BreaksLine(c: char) { c == '\r' || c == '\n' }

  /** t is a line comment, ended by the line break at which rest begins or by the end of the text. */
  ghost predicate IsLineComment(t: string, rest: string) {
    && |t| >= 2 && t[0] == '/' && t[1] == '/'
    && (forall i :: 0 <= i < |t| ==> !BreaksLine(t[i]))
    && (rest == [] || BreaksLine(rest[0]))
  }

  /** t is a block comment up to its first closing mark, which does not overlap the opening one. */
  ghost predicate IsBlockComment(t: string) {
    && |t| >= 4 && t[0] == '/' && t[1] == '*' && t[|t| - 2] == '*' && t[|t| - 1] == '/'
    && forall i :: 2 <= i < |t| - 2 ==> !(t[i] == '*' && t[i + 1] == '/')
  }

  /** t is a string or character literal up to the first quote of its kind that is not escaped. */
  ghost predicate IsLiteral(t: string) {
    && |t| >= 2 && (t[0] == '"' || t[0] == '\'') && t[|t| - 1] == t[0] && !Escaped(t, |t| - 1)
    && forall i :: 1 <= i < |t| - 1 && t[i] == t[0] ==> Escaped(t, i)
  }

  ghost predicate IsToken(t: string, rest: string) {
    IsLineComment(t, rest) || IsBlockComment(t) || IsLiteral(t)
  }

  lemma LineCommentIsFound(t: string, rest: string)
    requires IsLineComment(t, rest)
    ensures TokenLength(t + rest) == Some(|t|)
  {
    var s := t + rest;
    var u := s[2..];
    LineEndsFirst(u);
    assert forall i :: 0 <= i < |t| - 2 ==> u[i] == t[i + 2];
    assert rest != [] ==> u[|t| - 2] == rest[0];
  }

  lemma BlockCommentIsFound(t: string, rest: string)
    requires IsBlockComment(t)
    ensures TokenLength(t + rest) == Some(|t|)
  {
    var s := t + rest;
    var u := s[2..];
    CommentEndsFirst(u);
    assert forall i :: 0 <= i < |t| - 2 ==> u[i] == t[i + 2];
    assert ClosesComment(u, |t| - 4);
  }

  lemma {:induction false} EscapedInPrefix(t: string, rest: string, i: nat)
    requires i <= |t|
    ensures Escaped(t + rest, i) == Escaped(t, i)
    decreases i
  {
    if i > 0 { EscapedInPrefix(t, rest, i - 1); }
  }

  /** Behind its opening quote, a literal's quotes are escaped as in the whole. */
  lemma QuotesOfLiteral(s: string, i: nat)
    requires s != [] && (s[0] == '"' || s[0] == '\'') && 1 <= i < |s|
    ensures ClosesQuote(s[1..], s[0], i - 1) <==> s[i] == s[0] && !Escaped(s, i)
  {
    assert !Escaped(s, 1);
    EscapedInSuffix(s, 1, i - 1);
  }

  lemma LiteralIsFound(t: string, rest: string)
    requires IsLiteral(t)
    ensures TokenLength(t + rest) == Some(|t|)
  {
    var s := t + rest;
    QuoteEndsFirst(s[1..], s[0]);
    forall k: nat | k < |t| - 1 ensures ClosesQuote(s[1..], s[0], k) <==> k == |t| - 2 {
      EscapedInPrefix(t, rest, k + 1);
      QuotesOfLiteral(s, k + 1);
    }
    assert ClosesQuote(s[1..], s[0], |t| - 2);
  }

  lemma TokenIsFound(t: string, rest: string)
    requires IsToken(t, rest)
    ensures TokenLength(t + rest) == Some(|t|)
  {
    if IsLineComment(t, rest) { LineCommentIsFound(t, rest); }
    else if IsBlockComment(t) { BlockCommentIsFound(t, rest); }
    else { LiteralIsFound(t, rest); }
  }

  /** What the scanner takes for a token is one. */
  lemma FoundIsToken(s: string)
    requires s != [] && TokenLength(s).Some?
    ensures var n := TokenLength(s).value; IsToken(s[..n], s[n..])
  {
    var n := TokenLength(s).value;
    var t, rest := s[..n], s[n..];
    if |s| >= 2 && s[0] == '/' && s[1] == '/' {
      LineEndsFirst(s[2..]);
      forall i | 0 <= i < |t| ensures !BreaksLine(t[i]) { if i >= 2 { assert t[i] == s[2..][i - 2]; } }
      assert rest != [] ==> rest[0] == s[2..][n - 2];
      assert IsLineComment(t, rest);
    } else if s[0] == '/' {
      CommentEndsFirst(s[2..]);
      assert ClosesComment(s[2..], n - 4);
      forall i | 2 <= i < |t| - 2 ensures !(t[i] == '*' && t[i + 1] == '/') {
        assert !ClosesComment(s[2..], i - 2);
      }
      assert IsBlockComment(t);
    } else {
      QuoteEndsFirst(s[1..], s[0]);
      assert s == t + rest;
      forall k: nat | k < |t| - 1
        ensures ClosesQuote(s[1..], s[0], k) <==> t[k + 1] == t[0] && !Escaped(t, k + 1)
      {
        EscapedInPrefix(t, rest, k + 1);
        QuotesOfLiteral(s, k + 1);
      }
      assert ClosesQuote(s[1..], s[0], n - 2);
      forall i | 1 <= i < |t| - 1 && t[i] == t[0] ensures Escaped(t, i) { assert !ClosesQuote(s[1..], s[0], i - 1); }
      assert IsLiteral(t);
    }
  }

  /** m is t with every character but newlines replaced by a space. */
  ghost predicate IsBlanked(t: string, m: string) {
    |m| == |t| && forall i :: 0 <= i < |t| ==> m[i] == if t[i] == '\n' then '\n' else ' '
  }

  lemma {:induction false} BoundaryMovesOn(x: string, y: string)
    requires Boundary(x + y, |x|) && y != []
    ensures Boundary(x + y, |x| + Stride(y))
    decreases |x|
  {
    var s := x + y;
    if x == [] {
      assert s == y;
      assert Boundary(s[Stride(s)..], 0);
    } else {
      assert s[Stride(s)..] == x[Stride(s)..] + y;
      BoundaryMovesOn(x[Stride(s)..], y);
    }
  }

  lemma TokenAtStart(t: string, y: string)
    requires IsToken(t, y)
    ensures t + y != [] && Stride(t + y) == |t| && IsBlanked(t, Blank(t)) && Mask(t + y) == Blank(t) + Mask(y)
  {
    TokenIsFound(t, y);
    assert (t + y)[..|t|] == t && (t + y)[|t|..] == y;
  }

  /** A comment or literal that starts where no other reaches across is blanked, whole. */
  lemma TokenIsMasked(x: string, t: string, y: string)
    requires Boundary(x + (t + y), |x|) && IsToken(t, y)
    ensures exists m :: IsBlanked(t, m) && Mask(x + (t + y)) == Mask(x) + (m + Mask(y))
    ensures Boundary(x + (t + y), |x| + |t|)
  {
    hide Mask, Boundary, IsToken, IsBlanked, Stride;
    TokenAtStart(t, y);
    MaskSplits(x, t + y);
    BoundaryMovesOn(x, t + y);
  }

  lemma OrdinaryAtStart(c: char, y: string)
    requires forall n :: 1 <= n <= 1 + |y| ==> !IsToken(([c] + y)[..n], ([c] + y)[n..])
    ensures Stride([c] + y) == 1 && Mask([c] + y) == [c] + Mask(y)
  {
    hide IsToken;
    var s := [c] + y;
    if TokenLength(s).Some? { FoundIsToken(s); }
    assert TokenLength(s).None?;
    assert s[1..] == y;
  }

  /** A character at which none starts is kept. */
  lemma OrdinaryIsKept(x: string, c: char, y: string)
    requires Boundary(x + ([c] + y), |x|)
    requires forall n :: 1 <= n <= 1 + |y| ==> !IsToken(([c] + y)[..n], ([c] + y)[n..])
    ensures Mask(x + ([c] + y)) == Mask(x) + ([c] + Mask(y))
    ensures Boundary(x + ([c] + y), |x| + 1)
  {
    hide Mask, Boundary, IsToken, Stride;
    OrdinaryAtStart(c, y);
    MaskSplits(x, [c] + y);
    BoundaryMovesOn(x, [c] + y);
  }

  /** Behind one boundary, the later boundaries of the whole are boundaries of the rest. */
  lemma {:induction false} BoundaryOfRest(x: string, y: string, k: nat)
    requires Boundary(x + y, |x|) && Boundary(x + y, |x| + k)
    ensures Boundary(y, k)
    decreases |x|
  {
    hide Stride;
    var s := x + y;
    if x == [] {
      assert s == y;
    } else {
      var n := Stride(s);
      assert s[n..] == x[n..] + y;
      BoundaryOfRest(x[n..], y, k);
    }
  }

  /** Masking commutes with slicing between two boundaries. */
  lemma MaskMiddle(x: string, y: string, z: string)
    requires Boundary(x + (y + z), |x|) && Boundary(x + (y + z), |x| + |y|)
    ensures |Mask(x + (y + z))| == |x| + |y| + |z|
    ensures Mask(x + (y + z))[|x|..|x| + |y|] == Mask(y)
  {
    hide Mask, Boundary;
    BoundaryOfRest(x, y + z, |y|);
    SplitLengths(x, y, z);
    MiddleOf(Mask(x), Mask(y), Mask(z));
  }

  lemma SplitLengths(x: string, y: string, z: string)
    requires Boundary(x + (y + z), |x|) && Boundary(y + z, |y|)
    ensures Mask(x + (y + z)) == Mask(x) + (Mask(y) + Mask(z))
    ensures |Mask(x)| == |x| && |Mask(y)| == |y| && |Mask(z)| == |z|
  {
    hide Mask, Boundary;
    MaskSplits(x, y + z);
    MaskSplits(y, z);
    MaskKeepsOffsets(x);
    MaskKeepsOffsets(y);
    MaskKeepsOffsets(z);
  }

  lemma CutInThree(s: string, a: nat, b: nat)
    requires a <= b <= |s|
    ensures s == s[..a] + (s[a..b] + s[b..])
  {
  }

  /**
    Masking a slice cut between two unmasked braces equals slicing the masked whole, so the
    checker may mask an extracted body again.
  */
  lemma MaskOfBody(s: string, a: nat, b: nat)
    requires a < b < |Mask(s)| && Mask(s)[a] == '{' && Mask(s)[b] == '}'
    ensures |Mask(s)| == |s| && Mask(s[a + 1..b]) == Mask(s)[a + 1..b]
  {
    hide Mask, Boundary;
    assert |Mask(s)| == |s| by { MaskKeepsOffsets(s); }
    assert Boundary(s, a + 1) by { KeptIsBoundary(s, a); }
    assert Boundary(s, b) by { KeptIsBoundary(s, b); }
    CutInThree(s, a + 1, b);
    MaskMiddle(s[..a + 1], s[a + 1..b], s[b..]);
  }

  // ----- braces

  function Weight(c: char): int {
    if c == '{' then 1 else if c == '}' then -1 else 0
  }

  /** Opening minus closing braces in m[lo..hi]. */
  function Depth(m: string, lo: nat, hi: nat): int
    requires hi <= |m|
    decreases hi
  {
    if hi <= lo then 0 else Depth(m, lo, hi - 1) + Weight(m[hi - 1])
  }

  ghost predicate FirstOpen(m: string, start: nat, open: nat) {
    start <= open < |m| && m[open] == '{' && forall k :: start <= k < open ==> m[k] != '{'
  }

  /** close is where the brace at open is closed: the depth returns to zero there and not before. */
  ghost predicate Closes(m: string, open: nat, close: nat) {
    open < close < |m| && Depth(m, open, close + 1) == 0 && forall k :: open < k <= close ==> Depth(m, open, k) > 0
  }

  /** How often c occurs in m[lo..hi]. */
  function Count(m: string, c: char, lo: nat, hi: nat): nat
    requires hi <= |m|
    decreases hi
  {
    if hi <= lo then 0 else Count(m, c, lo, hi - 1) + if m[hi - 1] == c then 1 else 0
  }

  lemma {:induction false} DepthCounts(m: string, lo: nat, hi: nat)
    requires hi <= |m|
    ensures Depth(m, lo, hi) == Count(m, '{', lo, hi) - Count(m, '}', lo, hi)
    decreases hi
  {
    if lo < hi { DepthCounts(m, lo, hi - 1); }
  }

  /** Up to every place in (open, close] more braces were opened than closed. */
  ghost predicate MoreOpened(m: string, open: nat, close: nat)
    requires close < |m|
  {
    forall k: nat | open < k <= close :: Count(m, '{', open, k) > Count(m, '}', open, k)
  }

  /**
    From an opening brace to where it is closed as many braces are closed as opened, and fewer
    at every place between.
  */
  lemma ClosesByCounting(m: string, open: nat, close: nat)
    requires open < close < |m|
    ensures Closes(m, open, close) <==>
      Count(m, '{', open, close + 1) == Count(m, '}', open, close + 1) && MoreOpened(m, open, close)
  {
    hide Depth, Count;
    DepthCounts(m, open, close + 1);
    forall k: nat | open < k <= close && Closes(m, open, close)
      ensures Count(m, '{', open, k) > Count(m, '}', open, k)
    {
      DepthCounts(m, open, k);
    }
    forall k: nat | open < k <= close && MoreOpened(m, open, close) ensures Depth(m, open, k) > 0 {
      DepthCounts(m, open, k);
    }
  }

  ghost predicate BracePair(m: string, start: nat, open: nat, close: nat) {
    FirstOpen(m, start, open) && Closes(m, open, close)
  }

  lemma BracePairIsUnique(m: string, start: nat, open: nat, close: nat, open': nat, close': nat)
    requires BracePair(m, start, open, close) && BracePair(m, start, open', close')
    ensures open == open' && close == close'
  {
  }

  /** r is the text between the first opening brace at or after start and its closing brace, if they exist. */
  ghost predicate IsBracedBody(source: string, start: nat, r: Result<string>) {
    && |Mask(source)| == |source|
    && (r.Ok? <==> exists open: nat, close: nat :: BracePair(Mask(source), start, open, close))
    && (forall open: nat, close: nat :: BracePair(Mask(source), start, open, close) ==>
        r == Ok(source[open + 1..close]))
  }

  /** Where the brace at open is closed, by counting. */
  method FindClose(m: string, open: nat) returns (close: Option<nat>)
    requires open < |m| && m[open] == '{'
    ensures close.Some? ==> Closes(m, open, close.value)
    ensures close.None? ==> forall k: nat :: !Closes(m, open, k)
  {
    var depth := 1;
    for pos := open + 1 to |m|
      invariant depth == Depth(m, open, pos)
      invariant forall k :: open < k <= pos ==> Depth(m, open, k) > 0
    {
      if m[pos] == '{' {
        depth := depth + 1;
      } else if m[pos] == '}' {
        depth := depth - 1;
        if depth == 0 { return Some(pos); }
      }
    }
    return None;
  }

  lemma BracePairsDecided(m: string, start: nat, open: nat, close: nat)
    requires BracePair(m, start, open, close)
    ensures forall o: nat, c: nat :: BracePair(m, start, o, c) ==> o == open && c == close
  {
    forall o: nat, c: nat | BracePair(m, start, o, c) ensures o == open && c == close {
      BracePairIsUnique(m, start, open, close, o, c);
    }
  }

  /** The brace matcher; braces inside comments and literals do not count. */
  method FindBracedBody(source: string, start: nat) returns (r: Result<string>)
    ensures IsBracedBody(source, start, r)
  {
    MaskKeepsOffsets(source);
    var masked := Mask(source);
    var open := Find(masked, "{", start);
    FirstOpenIsFound(masked, start);
    if open.None? { return Err("opening brace not found"); }
    var close := FindClose(masked, open.value);
    if close.None? { return Err("closing brace not found"); }
    assert BracePair(masked, start, open.value, close.value);
    BracePairsDecided(masked, start, open.value, close.value);
    return Ok(source[open.value + 1..close.value]);
  }

  lemma FirstOpenIsFound(m: string, start: nat)
    ensures forall k: nat :: FirstOpen(m, start, k) <==> Find(m, "{", start) == Some(k)
  {
    forall i: nat | start <= i < |m| ensures OccursAt(m, "{", i) <==> m[i] == '{' {
      assert m[i..i + 1] == [m[i]];
    }
  }

  /** Position of the first occurrence of pat in m at or after i. */
  function Find(m: string, pat: string, i: nat): (r: Option<nat>)
    ensures r.Some? ==> i <= r.value && OccursAt(m, pat, r.value)
    ensures forall k: nat :: i <= k && OccursAt(m, pat, k) ==> r.Some? && r.value <= k
    decreases |m| - i
  {
    if i + |pat| > |m| then None
    else if OccursAt(m, pat, i) then Some(i)
    else if i < |m| then Find(m, pat, i + 1)
    else None
  }

  /** r is the body of the function whose signature first occurs outside comments and literals, if it has one. */
  ghost predicate IsFunctionBody(source: string, signature: string, r: Result<string>) {
    match Find(Mask(source), signature, 0)
    case None => r.Err?
    case Some(at) => IsBracedBody(source, at + |signature|, r)
  }

  /** The body of the function whose signature first occurs outside comments and literals. */
  method FunctionBody(source: string, signature: string) returns (r: Result<string>)
    ensures IsFunctionBody(source, signature, r)
  {
    hide Mask, IsBracedBody;
    var at := Find(Mask(source), signature, 0);
    if at.None? { return Err("function not found"); }
    r := FindBracedBody(source, at.value + |signature|);
  }

  // ----- case labels

  predicate IsUpper(c: char) { 'A' <= c <= 'Z' }

  predicate IsNameChar(c: char) { IsUpper(c) || '0' <= c <= '9' || c == '_' }

  /** The characters of a name one by one; it begins with a letter. */
  lemma NameCharsAre(c: char)
    ensures IsUpper(c) <==> c in "ABCDEFGHIJKLMNOPQRSTUVWXYZ"
    ensures IsNameChar(c) <==> c in "ABCDEFGHIJKLMNOPQRSTUVWXYZ0123456789_"
  {
  }

  function SkipName(m: string, i: nat): (j: nat)
    requires i <= |m|
    ensures i <= j <= |m| && forall k :: i <= k < j ==> IsNameChar(m[k])
    decreases |m| - i
  {
    if i < |m| && IsNameChar(m[i]) then SkipName(m, i + 1) else i
  }

  datatype Label = Label(name: string, end: nat)

  /** The label `case NAME:` starting at i, as a word of its own. */
  function CaseAt(word: WordClass, m: string, i: nat): (r: Option<Label>)
    ensures r.Some? ==> i + 4 < r.value.end <= |m|
  {
    if i + 4 > |m| || m[i..i + 4] != "case" || (i > 0 && word(m[i - 1])) then None else
    var j := SkipSpaces(m, i + 4);
    if j == i + 4 || j == |m| || !IsUpper(m[j]) then None else
    var k := SkipName(m, j);
    var l := SkipSpaces(m, k);
    if l < |m| && m[l] == ':' then Some(Label(m[j..k], l + 1)) else None
  }

  /** m[lo..hi] is an upper-case letter followed by upper-case letters, digits and underscores. */
  ghost predicate IsName(m: string, lo: nat, hi: nat) {
    lo < hi <= |m| && IsUpper(m[lo]) && forall k :: lo <= k < hi ==> IsNameChar(m[k])
  }

  /** A match of the label pattern with its name at m[j..k], for some way to divide the text. */
  ghost predicate LabelMatch(word: WordClass, m: string, i: nat, j: nat, k: nat, end: nat) {
    && OccursAt(m, "case", i) && (i > 0 ==> !word(m[i - 1]))
    && i + 4 < j && AllSpaces(m, i + 4, j)
    && IsName(m, j, k)
    && k < end <= |m| && AllSpaces(m, k, end - 1) && m[end - 1] == ':'
  }

  lemma {:induction false} NameEnds(m: string, i: nat, j: nat)
    requires i <= j <= |m| && (forall k :: i <= k < j ==> IsNameChar(m[k])) && (j < |m| ==> !IsNameChar(m[j]))
    ensures SkipName(m, i) == j
    decreases |m| - i
  {
    if i < j { NameEnds(m, i + 1, j); }
  }

  lemma MatchIsFound(word: WordClass, m: string, i: nat, j: nat, k: nat, end: nat)
    requires LabelMatch(word, m, i, j, k, end)
    ensures CaseAt(word, m, i) == Some(Label(m[j..k], end))
  {
    SpacesEnd(m, i + 4, j);
    assert !IsNameChar(m[k]);
    NameEnds(m, j, k);
    SpacesEnd(m, k, end - 1);
  }

  /** The scanner finds a label where the pattern matches, and then the only match there is. */
  lemma CaseAtExactly(word: WordClass, m: string, i: nat)
    ensures forall j: nat, k: nat, end: nat :: LabelMatch(word, m, i, j, k, end) ==>
      CaseAt(word, m, i) == Some(Label(m[j..k], end))
    ensures CaseAt(word, m, i).Some? ==> exists j: nat, k: nat ::
      LabelMatch(word, m, i, j, k, CaseAt(word, m, i).value.end) && m[j..k] == CaseAt(word, m, i).value.name
  {
    forall j: nat, k: nat, end: nat | LabelMatch(word, m, i, j, k, end)
      ensures CaseAt(word, m, i) == Some(Label(m[j..k], end))
    {
      MatchIsFound(word, m, i, j, k, end);
    }
    if CaseAt(word, m, i).Some? {
      var j := SkipSpaces(m, i + 4);
      var k := SkipName(m, j);
      assert k > j;
      assert LabelMatch(word, m, i, j, k, CaseAt(word, m, i).value.end);
    }
  }

  /** Names of the labels at brace depth zero. */
  ghost function TopLevelCases(word: WordClass, m: string): set<string> {
    CasesBefore(word, m, |m|)
  }

  ghost function CasesBefore(word: WordClass, m: string, n: nat): set<string>
    requires n <= |m|
  {
    set i | 0 <= i < n && CaseAt(word, m, i).Some? && Depth(m, 0, i) == 0 :: CaseAt(word, m, i).value.name
  }

  /** A label with this name, before which as many braces were closed as opened. */
  ghost predicate IsFreeLabel(word: WordClass, m: string, i: nat, name: string) {
    && i < |m| && CaseAt(word, m, i).Some? && CaseAt(word, m, i).value.name == name
    && Count(m, '{', 0, i) == Count(m, '}', 0, i)
  }

  /** A label is collected exactly when as many braces were closed as opened before it. */
  lemma TopLevelCasesAre(word: WordClass, m: string, name: string)
    ensures name in TopLevelCases(word, m) <==> exists i :: 0 <= i < |m| && IsFreeLabel(word, m, i, name)
  {
    hide CaseAt, Depth, Count;
    forall i | 0 <= i <= |m| ensures Depth(m, 0, i) == Count(m, '{', 0, i) - Count(m, '}', 0, i) {
      DepthCounts(m, 0, i);
    }
    if name in TopLevelCases(word, m) {
      var i :| 0 <= i < |m| && CaseAt(word, m, i).Some? && Depth(m, 0, i) == 0 && CaseAt(word, m, i).value.name == name;
      assert IsFreeLabel(word, m, i, name);
    }
  }

  /** Inside a label there is no brace and no further label begins. */
  lemma LabelIsPlain(word: WordClass, m: string, i: nat)
    requires CaseAt(word, m, i).Some?
    ensures forall k :: i <= k < CaseAt(word, m, i).value.end ==> Weight(m[k]) == 0
    ensures forall k :: i < k < CaseAt(word, m, i).value.end ==> CaseAt(word, m, k).None?
  {
    hide CaseAt;
    forall x | i <= x < CaseAt(word, m, i).value.end ensures Weight(m[x]) == 0 && (i < x ==> CaseAt(word, m, x).None?) {
      CharOfLabel(word, m, i, x);
      if i < x { LabelStartsWithC(word, m, x); }
    }
  }

  lemma CharOfLabel(word: WordClass, m: string, i: nat, x: nat)
    requires CaseAt(word, m, i).Some? && i <= x < CaseAt(word, m, i).value.end
    ensures Weight(m[x]) == 0 && (i < x ==> m[x] != 'c')
  {
    assert m[i..i + 4][0] == 'c' && m[i..i + 4][1] == 'a' && m[i..i + 4][2] == 's' && m[i..i + 4][3] == 'e';
  }

  lemma LabelStartsWithC(word: WordClass, m: string, x: nat)
    requires x < |m| && m[x] != 'c'
    ensures CaseAt(word, m, x).None?
  {
    if x + 4 <= |m| { assert m[x..x + 4][0] != "case"[0]; }
  }

  lemma {:induction false} DepthOverPlain(m: string, lo: nat, mid: nat, hi: nat)
    requires lo <= mid <= hi <= |m| && forall k :: mid <= k < hi ==> Weight(m[k]) == 0
    ensures Depth(m, lo, hi) == Depth(m, lo, mid)
    decreases hi
  {
    if mid < hi { DepthOverPlain(m, lo, mid, hi - 1); }
  }

  lemma NoLabelsBetween(word: WordClass, m: string, i: nat, j: nat)
    requires i <= j <= |m| && forall k :: i <= k < j ==> CaseAt(word, m, k).None?
    ensures CasesBefore(word, m, i) == CasesBefore(word, m, j)
  {
  }

  /** Count the braces up to the next label, or to the end. */
  method NextLabel(word: WordClass, m: string, pos: nat, depth: int) returns (at: nat, depth': int)
    requires pos <= |m| && depth == Depth(m, 0, pos)
    ensures pos <= at <= |m| && depth' == Depth(m, 0, at)
    ensures at < |m| ==> CaseAt(word, m, at).Some?
    ensures CasesBefore(word, m, at) == CasesBefore(word, m, pos)
  {
    at, depth' := pos, depth;
    while at < |m| && CaseAt(word, m, at).None?
      invariant pos <= at <= |m| && depth' == Depth(m, 0, at)
      invariant forall k :: pos <= k < at ==> CaseAt(word, m, k).None?
    {
      depth' := depth' + Weight(m[at]);
      at := at + 1;
    }
    NoLabelsBetween(word, m, pos, at);
  }

  /** The checker's loop over the labels, counting braces only between one label's end and the next one's start. */
  method CollectCases(word: WordClass, m: string) returns (cases: set<string>)
    ensures cases == TopLevelCases(word, m)
  {
    cases := {};
    var depth := 0;
    var pos := 0;
    while true
      invariant 0 <= pos <= |m|
      invariant depth == Depth(m, 0, pos)
      invariant cases == CasesBefore(word, m, pos)
      decreases |m| - pos
    {
      var at, depth' := NextLabel(word, m, pos, depth);
      if at == |m| { return; }
      var found := CaseAt(word, m, at).value;
      LabelIsPlain(word, m, at);
      DepthOverPlain(m, 0, at, found.end);
      CasesAfterLabel(word, m, at);
      if depth' == 0 { cases := cases + {found.name}; }
      pos, depth := found.end, depth';
    }
  }

  lemma CasesAfterLabel(word: WordClass, m: string, i: nat)
    requires i < |m| && CaseAt(word, m, i).Some?
    ensures CasesBefore(word, m, CaseAt(word, m, i).value.end) ==
      CasesBefore(word, m, i) + if Depth(m, 0, i) == 0 then {CaseAt(word, m, i).value.name} else {}
  {
    LabelIsPlain(word, m, i);
    NoLabelsBetween(word, m, i + 1, CaseAt(word, m, i).value.end);
  }

  // ----- the unique opcode switch

  /** The switch pattern: the end of a match starting at the given position. */
  type Matcher = (string, nat) -> Option<nat>

  /** Starts of the successive non-overlapping matches. */
  function SwitchStarts(m: string, sw: Matcher, from: nat): seq<nat>
    requires from <= |m|
    decreases |m| - from
  {
    if from == |m| then []
    else match sw(m, from)
         case Some(e) => if from < e <= |m| then [from] + SwitchStarts(m, sw, e) else SwitchStarts(m, sw, from + 1)
         case None => SwitchStarts(m, sw, from + 1)
  }

  /** The pattern matches something at p. */
  predicate MatchesAt(m: string, sw: Matcher, p: nat) {
    p < |m| && sw(m, p).Some? && p < sw(m, p).value <= |m|
  }

  ghost predicate NoMatchIn(m: string, sw: Matcher, lo: nat, hi: nat) {
    forall p: nat :: lo <= p < hi ==> !MatchesAt(m, sw, p)
  }

  lemma {:induction false} NoStartIff(m: string, sw: Matcher, from: nat)
    requires from <= |m|
    ensures SwitchStarts(m, sw, from) == [] <==> NoMatchIn(m, sw, from, |m|)
    decreases |m| - from
  {
    if from < |m| {
      if MatchesAt(m, sw, from) {
        assert !NoMatchIn(m, sw, from, |m|);
      } else {
        NoStartIff(m, sw, from + 1);
      }
    }
  }

  lemma IsSingleton(x: nat, rest: seq<nat>, p: nat)
    ensures [x] + rest == [p] <==> x == p && rest == []
  {
    if [x] + rest == [p] {
      assert ([x] + rest)[0] == x;
      assert |rest| == 0;
    }
  }

  /** The pattern is found once, at p, exactly if it matches there and neither before nor behind that match. */
  lemma {:induction false} OneStartIff(m: string, sw: Matcher, from: nat, p: nat)
    requires from <= |m|
    ensures SwitchStarts(m, sw, from) == [p] <==>
      && from <= p && MatchesAt(m, sw, p)
      && NoMatchIn(m, sw, from, p) && NoMatchIn(m, sw, sw(m, p).value, |m|)
    decreases |m| - from
  {
    if from < |m| {
      if MatchesAt(m, sw, from) {
        var e := sw(m, from).value;
        NoStartIff(m, sw, e);
        assert SwitchStarts(m, sw, from) == [from] + SwitchStarts(m, sw, e);
        IsSingleton(from, SwitchStarts(m, sw, e), p);
        assert NoMatchIn(m, sw, from, p) && from <= p ==> p == from;
      } else {
        OneStartIff(m, sw, from + 1, p);
      }
    }
  }

  /** The switch body, in the masked text of the function body. */
  ghost predicate SwitchBody(body: string, sw: Matcher, open: nat, close: nat) {
    var starts := SwitchStarts(Mask(body), sw, 0);
    |starts| == 1 && BracePair(Mask(body), starts[0], open, close)
  }

  /** r is the set of names of the labels at depth zero of the one opcode switch of body, if its braces match. */
  ghost predicate AreSwitchCases(word: WordClass, body: string, sw: Matcher, r: Result<set<string>>) {
    && (r.Ok? <==> exists open: nat, close: nat :: SwitchBody(body, sw, open, close))
    && (forall open: nat, close: nat :: SwitchBody(body, sw, open, close) ==>
          close < |Mask(body)| && r == Ok(TopLevelCases(word, Mask(body)[open + 1..close])))
  }

  lemma ClosesAtBrace(m: string, open: nat, close: nat)
    requires Closes(m, open, close)
    ensures m[close] == '}'
  {
    assert Depth(m, open, close) > 0;
  }

  /**
    The case collector is exact: it succeeds precisely when there is one opcode switch whose
    braces match, and then returns precisely the names of the labels at brace depth zero
    between those braces, read off the masked function body.
  */
  method SwitchCases(word: WordClass, body: string, sw: Matcher) returns (r: Result<set<string>>)
    ensures AreSwitchCases(word, body, sw, r)
  {
    var masked := Mask(body);
    var switches := SwitchStarts(masked, sw, 0);
    if |switches| != 1 { return Err("expected one opcode switch"); }
    var switchBody := FindBracedBody(body, switches[0]);
    if switchBody.Err? {
      return Err(switchBody.message);
    }
    var cases := CollectCases(word, Mask(switchBody.value));
    r := Ok(cases);
    forall open: nat, close: nat | SwitchBody(body, sw, open, close)
      ensures close < |masked| && cases == TopLevelCases(word, masked[open + 1..close])
    {
      ClosesAtBrace(masked, open, close);
      MaskOfBody(body, open, close);
    }
    ghost var open: nat, close: nat :| BracePair(masked, switches[0], open, close);
    assert SwitchBody(body, sw, open, close);
  }

  /** r holds the cases of the one opcode switch in what the preprocessor selects from the text. */
  ghost predicate AreSelectedCases(word: WordClass, eval: Evaluator, text: string, sw: Matcher,
      r: Result<set<string>>)
  {
    match Selected(word, eval, text)
    case Err(_) => r.Err?
    case Ok(selected) => AreSwitchCases(word, selected, sw, r)
  }

  /** The whole of _opcode_switch_cases: select the 3.11 arms, then collect the cases. */
  method OpcodeSwitchCases(word: WordClass, eval: Evaluator, text: string, sw: Matcher) returns (r: Result<set<string>>)
    ensures AreSelectedCases(word, eval, text, sw, r)
  {
    var selected := PreprocessText(word, eval, text);
    if selected.Err? { return Err(selected.message); }
    r := SwitchCases(word, selected.value, sw);
  }
}

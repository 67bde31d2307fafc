/** String helpers with the meaning Python gives them. */
module Text {

  predicate StartsWith(s: string, prefix: string) {
    |prefix| <= |s| && s[..|prefix|] == prefix
  }

  predicate OccursAt(s: string, part: string, i: nat) {
    i + |part| <= |s| && s[i..i + |part|] == part
  }

  /** `part in s` */
  predicate Contains(s: string, part: string) {
    exists i: nat :: i <= |s| && OccursAt(s, part, i)
  }

  function Elements(names: seq<string>): set<string> {
    set x | x in names
  }

  /** `c.isspace()`, which is also what `\s` matches and `strip` removes. */
  predicate IsSpace(c: char) {
    || '\t' <= c <= '\r' || '\U{1C}' <= c <= ' ' || c == '\U{85}' || c == '\U{A0}' || c == '\U{1680}'
    || '\U{2000}' <= c <= '\U{200A}' || c == '\U{2028}' || c == '\U{2029}' || c == '\U{202F}'
    || c == '\U{205F}' || c == '\U{3000}'
  }

  /** The white space characters one by one. */
  lemma WhiteSpaceIs(c: char)
    ensures IsSpace(c) <==>
      || c in "\t\n\U{0B}\U{0C}\r\U{1C}\U{1D}\U{1E}\U{1F} \U{85}\U{A0}\U{1680}"
      || c in "\U{2000}\U{2001}\U{2002}\U{2003}\U{2004}\U{2005}\U{2006}\U{2007}\U{2008}\U{2009}\U{200A}"
      || c in "\U{2028}\U{2029}\U{202F}\U{205F}\U{3000}"
  {
  }

  function SkipSpaces(m: string, i: nat): (j: nat)
    requires i <= |m|
    ensures i <= j <= |m| && forall k :: i <= k < j ==> IsSpace(m[k])
    decreases |m| - i
  {
    if i < |m| && IsSpace(m[i]) then SkipSpaces(m, i + 1) else i
  }

  ghost predicate AllSpaces(m: string, lo: nat, hi: nat) {
    lo <= hi <= |m| && forall k :: lo <= k < hi ==> IsSpace(m[k])
  }

  lemma {:induction false} SpacesEnd(m: string, i: nat, j: nat)
    requires AllSpaces(m, i, j) && (j < |m| ==> !IsSpace(m[j]))
    ensures SkipSpaces(m, i) == j
    decreases |m| - i
  {
    if i < j { SpacesEnd(m, i + 1, j); }
  }

  lemma {:induction false} SkipSpacesStops(m: string, i: nat)
    requires i <= |m|
    ensures SkipSpaces(m, i) < |m| ==> !IsSpace(m[SkipSpaces(m, i)])
    decreases |m| - i
  {
    if i < |m| && IsSpace(m[i]) { SkipSpacesStops(m, i + 1); }
  }

  function StripLeft(s: string): string {
    if s != [] && IsSpace(s[0]) then StripLeft(s[1..]) else s
  }

  function StripRight(s: string): string {
    if s != [] && IsSpace(s[|s| - 1]) then StripRight(s[..|s| - 1]) else s
  }

  /** `s.strip()` */
  function Strip(s: string): string { StripRight(StripLeft(s)) }

  predicate IsBlankText(s: string) { forall i :: 0 <= i < |s| ==> IsSpace(s[i]) }

  lemma {:induction false} StripLeftExactly(s: string) returns (l: string)
    ensures s == l + StripLeft(s) && IsBlankText(l) && (StripLeft(s) != [] ==> !IsSpace(StripLeft(s)[0]))
    decreases |s|
  {
    l := "";
    if s != [] && IsSpace(s[0]) {
      var k := StripLeftExactly(s[1..]);
      l := [s[0]] + k;
      assert s == [s[0]] + s[1..];
    }
  }

  lemma {:induction false} StripRightExactly(s: string) returns (r: string)
    ensures s == StripRight(s) + r && IsBlankText(r)
    ensures StripRight(s) != [] ==> StripRight(s)[0] == s[0] && !IsSpace(StripRight(s)[|StripRight(s)| - 1])
    decreases |s|
  {
    r := "";
    if s != [] && IsSpace(s[|s| - 1]) {
      var k := StripRightExactly(s[..|s| - 1]);
      r := k + [s[|s| - 1]];
      assert s == s[..|s| - 1] + [s[|s| - 1]];
    }
  }

  /** Stripping removes white space at both ends, and all of it. */
  lemma StripExactly(s: string) returns (l: string, r: string)
    ensures s == l + (Strip(s) + r) && IsBlankText(l) && IsBlankText(r)
    ensures Strip(s) != [] ==> !IsSpace(Strip(s)[0]) && !IsSpace(Strip(s)[|Strip(s)| - 1])
  {
    l := StripLeftExactly(s);
    r := StripRightExactly(StripLeft(s));
  }

  /** `s.split(separator)` */
  function Split(s: string, separator: char): (parts: seq<string>)
    ensures parts != []
  {
    if s == [] then [""]
    else
      var rest := Split(s[1..], separator);
      if s[0] == separator then [""] + rest else [[s[0]] + rest[0]] + rest[1..]
  }

  /** The order of strings by code points. */
  predicate LexLe(a: string, b: string) {
    a == [] || (b != [] && (a[0] < b[0] || (a[0] == b[0] && LexLe(a[1..], b[1..]))))
  }

  lemma {:induction false} LexTotal(a: string, b: string)
    ensures LexLe(a, b) || LexLe(b, a)
    decreases |a|
  {
    if a != [] && b != [] { LexTotal(a[1..], b[1..]); }
  }

  lemma {:induction false} LexAntisymmetric(a: string, b: string)
    requires LexLe(a, b) && LexLe(b, a)
    ensures a == b
    decreases |a|
  {
    if a != [] {
      LexAntisymmetric(a[1..], b[1..]);
      assert a == [a[0]] + a[1..] && b == [b[0]] + b[1..];
    }
  }

  lemma {:induction false} LexTransitive(a: string, b: string, c: string)
    requires LexLe(a, b) && LexLe(b, c)
    ensures LexLe(a, c)
    decreases |a|
  {
    if a != [] && a[0] == b[0] && b[0] == c[0] { LexTransitive(a[1..], b[1..], c[1..]); }
  }

  lemma PrefixesOfOneString(s: string, a: string, b: string)
    requires StartsWith(s, a) && StartsWith(s, b) && |a| == |b|
    ensures a == b
  {
  }
}

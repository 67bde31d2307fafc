/**
  Release tags: their grammar, the sort key, and the choice of the previous release among
  the tags merged into the current commit. The key's order is compared with the precedence
  rules of section 11 of Semantic Versioning 2.0.0, written down independently. The pattern
  accepts decimal digits of any script behind a first ASCII digit; which they are is a
  parameter.
*/
module ReleaseTag {
  import opened Basics
  import opened Text

  // ----- numbers without leading zeros

  predicate IsDigit(c: char) { '0' <= c <= '9' }

  /** The value of a decimal digit of any script; `\d` matches all of them. */
  type Digits = char -> Option<nat>

  predicate IsAscii(c: char) { c < '\U{80}' }

  predicate Ascii(s: string) { forall i :: 0 <= i < |s| ==> IsAscii(s[i]) }

  /** Digits have values below ten, and among the ASCII characters they are the usual ones. */
  ghost predicate Unicode(u: Digits) {
    && (forall c :: u(c).Some? ==> u(c).value < 10)
    && (forall c :: IsAscii(c) ==> u(c) == if IsDigit(c) then Some(DigitValue(c)) else None)
  }

  function DigitChar(d: nat): char
    requires d < 10
  {
    '0' + d as char
  }

  function DigitValue(c: char): nat
    requires IsDigit(c)
  {
    (c - '0') as nat
  }

  function PrintNat(n: nat): (s: string)
    ensures s != [] && forall i :: 0 <= i < |s| ==> IsDigit(s[i])
    ensures s[0] == '0' ==> |s| == 1 && n == 0
  {
    if n < 10 then [DigitChar(n)] else PrintNat(n / 10) + [DigitChar(n % 10)]
  }

  /** The value of a text of decimal digits, as int() reads it. */
  function ReadNat(u: Digits, s: string): nat {
    if s == [] then 0
    else ReadNat(u, s[..|s| - 1]) * 10 + if u(s[|s| - 1]).Some? then u(s[|s| - 1]).value else 0
  }

  lemma {:induction false} ReadPrint(u: Digits, n: nat)
    requires Unicode(u)
    ensures ReadNat(u, PrintNat(n)) == n
    decreases n
  {
    var s := PrintNat(n);
    if n < 10 {
      assert s[..|s| - 1] == [];
    } else {
      ReadPrint(u, n / 10);
      assert s[..|s| - 1] == PrintNat(n / 10);
    }
  }

  lemma {:induction false} PrintRead(u: Digits, s: string)
    requires Unicode(u)
    requires s != [] && (forall i :: 0 <= i < |s| ==> IsDigit(s[i])) && (s[0] == '0' ==> |s| == 1)
    ensures PrintNat(ReadNat(u, s)) == s
    ensures s[0] != '0' ==> ReadNat(u, s) > 0
    decreases |s|
  {
    var pre, d := s[..|s| - 1], DigitValue(s[|s| - 1]);
    if |s| == 1 {
      assert pre == [];
      assert s == [DigitChar(d)];
    } else {
      PrintRead(u, pre);
      assert ReadNat(u, s) / 10 == ReadNat(u, pre) && ReadNat(u, s) % 10 == d;
      assert s == pre + [DigitChar(d)];
    }
  }

  function DigitCount(u: Digits, s: string): (k: nat)
    ensures k <= |s| && (forall i :: 0 <= i < k ==> u(s[i]).Some?) && (k < |s| ==> u(s[k]).None?)
  {
    if s == [] || u(s[0]).None? then 0 else 1 + DigitCount(u, s[1..])
  }

  /** The number at the head of the text and what follows it; its first digit is ASCII, and zero only if it is alone. */
  function Number(u: Digits, s: string): Option<(nat, string)> {
    var k := DigitCount(u, s);
    if k == 0 || !IsDigit(s[0]) || (k > 1 && s[0] == '0') then None else Some((ReadNat(u, s[..k]), s[k..]))
  }

  predicate StartsNoDigit(u: Digits, s: string) { s == [] || u(s[0]).None? }

  lemma {:induction false} DigitCountOf(u: Digits, ds: string, tail: string)
    requires (forall i :: 0 <= i < |ds| ==> u(ds[i]).Some?) && StartsNoDigit(u, tail)
    ensures DigitCount(u, ds + tail) == |ds|
    decreases |ds|
  {
    if ds == [] {
      assert ds + tail == tail;
    } else {
      assert (ds + tail)[1..] == ds[1..] + tail;
      DigitCountOf(u, ds[1..], tail);
    }
  }

  lemma NumberPrint(u: Digits, n: nat, tail: string)
    requires Unicode(u)
    requires StartsNoDigit(u, tail)
    ensures Number(u, PrintNat(n) + tail) == Some((n, tail))
  {
    var ds := PrintNat(n);
    DigitCountOf(u, ds, tail);
    assert (ds + tail)[..|ds|] == ds && (ds + tail)[|ds|..] == tail;
    ReadPrint(u, n);
  }

  /** An ASCII number is the printing of its value. */
  lemma NumberSound(u: Digits, s: string)
    requires Unicode(u) && Ascii(s) && Number(u, s).Some?
    ensures s == PrintNat(Number(u, s).value.0) + Number(u, s).value.1 && Ascii(Number(u, s).value.1)
  {
    var k := DigitCount(u, s);
    forall i | 0 <= i < k ensures IsDigit(s[i]) { assert IsAscii(s[i]); }
    PrintRead(u, s[..k]);
    assert s == s[..k] + s[k..];
  }

  // ----- tags

  datatype Kind = Alpha | Beta | Rc

  datatype Pre = Pre(kind: Kind, num: nat)

  datatype Tag = Tag(major: nat, minor: nat, patch: nat, pre: Option<Pre>)

  function KindName(k: Kind): string {
    match k case Alpha => "alpha" case Beta => "beta" case Rc => "rc"
  }

  function PrintPre(p: Option<Pre>): string {
    match p
    case None => ""
    case Some(Pre(kind, num)) => "-" + (KindName(kind) + ("." + PrintNat(num)))
  }

  function PrintTag(t: Tag): string {
    "v" + (PrintNat(t.major) + ("." + (PrintNat(t.minor) + ("." + (PrintNat(t.patch) + PrintPre(t.pre))))))
  }

  /** The text after a literal prefix. */
  function After(s: string, prefix: string): Option<string> {
    if StartsWith(s, prefix) then Some(s[|prefix|..]) else None
  }

  function ParseKind(s: string): Option<(Kind, string)> {
    if After(s, "alpha").Some? then Some((Alpha, After(s, "alpha").value))
    else if After(s, "beta").Some? then Some((Beta, After(s, "beta").value))
    else if After(s, "rc").Some? then Some((Rc, After(s, "rc").value))
    else None
  }

  /** The optional pre-release part, which must be all there is. */
  function ParsePre(u: Digits, s: string): Option<Option<Pre>> {
    if s == "" then Some(None) else
    match After(s, "-")
    case None => None
    case Some(r1) =>
      match ParseKind(r1)
      case None => None
      case Some((kind, r2)) =>
        match After(r2, ".")
        case None => None
        case Some(r3) =>
          match Number(u, r3)
          case None => None
          case Some((num, rest)) => if rest == "" then Some(Some(Pre(kind, num))) else None
  }

  /** A number followed by a dot. */
  function NumberDot(u: Digits, s: string): Option<(nat, string)> {
    match Number(u, s)
    case None => None
    case Some((n, r)) =>
      match After(r, ".")
      case None => None
      case Some(rest) => Some((n, rest))
  }

  function ParseTag(u: Digits, s: string): Option<Tag> {
    match After(s, "v")
    case None => None
    case Some(r0) =>
      match NumberDot(u, r0)
      case None => None
      case Some((major, r1)) =>
        match NumberDot(u, r1)
        case None => None
        case Some((minor, r2)) =>
          match Number(u, r2)
          case None => None
          case Some((patch, r3)) =>
            match ParsePre(u, r3)
            case None => None
            case Some(pre) => Some(Tag(major, minor, patch, pre))
  }

  lemma AfterPrefix(prefix: string, rest: string)
    ensures After(prefix + rest, prefix) == Some(rest)
  {
    assert (prefix + rest)[..|prefix|] == prefix && (prefix + rest)[|prefix|..] == rest;
  }

  lemma KindPrint(k: Kind, rest: string)
    ensures ParseKind(KindName(k) + rest) == Some((k, rest))
  {
    AfterPrefix(KindName(k), rest);
    var s := KindName(k) + rest;
    match k
    case Alpha =>
    case Beta => assert s[0] == 'b'; assert |s| >= 5 ==> s[..5][0] == 'b';
    case Rc => assert s[0] == 'r'; assert |s| >= 5 ==> s[..5][0] == 'r'; assert |s| >= 4 ==> s[..4][0] == 'r';
  }

  lemma PrePrint(u: Digits, p: Option<Pre>)
    requires Unicode(u)
    ensures ParsePre(u, PrintPre(p)) == Some(p) && StartsNoDigit(u, PrintPre(p))
  {
    if p.Some? {
      var Pre(kind, num) := p.value;
      AfterPrefix("-", KindName(kind) + ("." + PrintNat(num)));
      KindPrint(kind, "." + PrintNat(num));
      AfterPrefix(".", PrintNat(num));
      NumberPrint(u, num, "");
      assert PrintNat(num) + "" == PrintNat(num);
    }
  }

  lemma NumberDotPrint(u: Digits, n: nat, rest: string)
    requires Unicode(u)
    ensures NumberDot(u, PrintNat(n) + ("." + rest)) == Some((n, rest))
  {
    NumberPrint(u, n, "." + rest);
    AfterPrefix(".", rest);
  }

  /** Printing and parsing: every tag is read back from its text. */
  lemma ParsePrintTag(u: Digits, t: Tag)
    requires Unicode(u)
    ensures ParseTag(u, PrintTag(t)) == Some(t)
  {
    var p3 := PrintNat(t.patch) + PrintPre(t.pre);
    var p2 := PrintNat(t.minor) + ("." + p3);
    AfterPrefix("v", PrintNat(t.major) + ("." + p2));
    NumberDotPrint(u, t.major, p2);
    NumberDotPrint(u, t.minor, p3);
    PrePrint(u, t.pre);
    NumberPrint(u, t.patch, PrintPre(t.pre));
  }

  lemma AfterAscii(s: string, prefix: string)
    requires Ascii(s) && After(s, prefix).Some?
    ensures s == prefix + After(s, prefix).value && Ascii(After(s, prefix).value)
  {
  }

  lemma PreSound(u: Digits, s: string)
    requires Unicode(u) && Ascii(s) && ParsePre(u, s).Some?
    ensures PrintPre(ParsePre(u, s).value) == s
  {
    if s != "" {
      AfterAscii(s, "-");
      var r1 := After(s, "-").value;
      var (kind, r2) := ParseKind(r1).value;
      AfterAscii(r1, KindName(kind));
      AfterAscii(r2, ".");
      var r3 := After(r2, ".").value;
      NumberSound(u, r3);
      assert PrintNat(Number(u, r3).value.0) + "" == PrintNat(Number(u, r3).value.0);
    }
  }

  lemma NumberDotSound(u: Digits, s: string)
    requires Unicode(u) && Ascii(s) && NumberDot(u, s).Some?
    ensures s == PrintNat(NumberDot(u, s).value.0) + ("." + NumberDot(u, s).value.1) && Ascii(NumberDot(u, s).value.1)
  {
    NumberSound(u, s);
    AfterAscii(Number(u, s).value.1, ".");
  }

  lemma PrintedIsAscii(t: Tag)
    ensures Ascii(PrintTag(t))
  {
    assert Ascii(PrintPre(t.pre)) by {
      if t.pre.Some? { assert Ascii(KindName(t.pre.value.kind)) && Ascii(PrintNat(t.pre.value.num)); }
    }
    assert Ascii(PrintNat(t.major)) && Ascii(PrintNat(t.minor)) && Ascii(PrintNat(t.patch));
  }

  /**
    Parsing and printing: an accepted text is the printing of its tag exactly when it is
    ASCII, so a tag has one ASCII text.
  */
  lemma PrintParsedTag(u: Digits, s: string)
    requires Unicode(u) && ParseTag(u, s).Some?
    ensures PrintTag(ParseTag(u, s).value) == s <==> Ascii(s)
  {
    PrintedIsAscii(ParseTag(u, s).value);
    if Ascii(s) {
      AfterAscii(s, "v");
      var r0 := After(s, "v").value;
      NumberDotSound(u, r0);
      var r1 := NumberDot(u, r0).value.1;
      NumberDotSound(u, r1);
      var r2 := NumberDot(u, r1).value.1;
      NumberSound(u, r2);
      PreSound(u, Number(u, r2).value.1);
    }
  }

  /** A digit of another script gives some tag a second text. */
  lemma SecondText(u: Digits, c: char) returns (s: string)
    requires Unicode(u) && u(c).Some? && !IsAscii(c)
    ensures !Ascii(s) && ParseTag(u, s).Some? && s != PrintTag(ParseTag(u, s).value)
  {
    s := "v" + (['1', c] + ("." + ("0" + ("." + ("0" + "")))));
    assert s[2] == c;
    AfterPrefix("v", ['1', c] + ("." + ("0" + ("." + ("0" + "")))));
    DigitsThenRest(u, ['1', c], "." + ("0" + ("." + ("0" + ""))));
    AfterPrefix(".", "0" + ("." + ("0" + "")));
    DigitsThenRest(u, "0", "." + ("0" + ""));
    AfterPrefix(".", "0" + "");
    DigitsThenRest(u, "0", "");
    PrintedIsAscii(ParseTag(u, s).value);
  }

  lemma DigitsThenRest(u: Digits, ds: string, rest: string)
    requires Unicode(u) && ds != [] && (forall i :: 0 <= i < |ds| ==> u(ds[i]).Some?) && StartsNoDigit(u, rest)
    requires IsDigit(ds[0]) && (ds[0] == '0' ==> |ds| == 1)
    ensures Number(u, ds + rest).Some? && Number(u, ds + rest).value.1 == rest
  {
    DigitCountOf(u, ds, rest);
    assert (ds + rest)[|ds|..] == rest;
  }

  // ----- the sort key

  type Key = seq<nat>

  function KindOrder(k: Kind): nat {
    match k case Alpha => 0 case Beta => 1 case Rc => 2
  }

  /** Pre-releases rank 0, releases rank 1 above all of them. */
  function TagKey(t: Tag): (k: Key)
    ensures |k| == 6
  {
    match t.pre
    case Some(Pre(kind, num)) => [t.major, t.minor, t.patch, 0, KindOrder(kind), num]
    case None => [t.major, t.minor, t.patch, 1, 3, 0]
  }

  /** The order of tuples. */
  predicate KeyLess(a: Key, b: Key) {
    b != [] && (a == [] || a[0] < b[0] || (a[0] == b[0] && KeyLess(a[1..], b[1..])))
  }

  lemma {:induction false} KeyTrichotomy(a: Key, b: Key)
    ensures KeyLess(a, b) || a == b || KeyLess(b, a)
    ensures !(KeyLess(a, b) && KeyLess(b, a)) && !KeyLess(a, a)
    decreases |a|
  {
    if a != [] {
      KeyTrichotomy(a[1..], a[1..]);
      if b != [] {
        KeyTrichotomy(a[1..], b[1..]);
        assert a == [a[0]] + a[1..] && b == [b[0]] + b[1..];
      }
    }
  }

  lemma {:induction false} KeyTransitive(a: Key, b: Key, c: Key)
    requires KeyLess(a, b) && KeyLess(b, c)
    ensures KeyLess(a, c)
    decreases |a|
  {
    if a != [] && a[0] == b[0] == c[0] { KeyTransitive(a[1..], b[1..], c[1..]); }
  }

  lemma KeyInjective(a: Tag, b: Tag)
    requires TagKey(a) == TagKey(b)
    ensures a == b
  {
    var k, l := TagKey(a), TagKey(b);
    assert k[0] == l[0] && k[1] == l[1] && k[2] == l[2] && k[3] == l[3] && k[4] == l[4] && k[5] == l[5];
  }

  // ----- section 11 of Semantic Versioning 2.0.0

  datatype Ident = Numeric(n: nat) | Alphanumeric(text: string)

  /** The dot-separated identifiers of the pre-release part. */
  function Identifiers(t: Tag): seq<Ident> {
    match t.pre
    case None => []
    case Some(Pre(kind, num)) => [Alphanumeric(KindName(kind)), Numeric(num)]
  }

  /** Numeric identifiers compare numerically, others in ASCII order, numeric ones come first. */
  predicate IdentLess(x: Ident, y: Ident) {
    match (x, y)
    case (Numeric(m), Numeric(n)) => m < n
    case (Numeric(_), Alphanumeric(_)) => true
    case (Alphanumeric(_), Numeric(_)) => false
    case (Alphanumeric(s), Alphanumeric(t)) => s != t && LexLe(s, t)
  }

  /** Left to right until a difference is found; a larger set of fields wins if all before are equal. */
  predicate IdentsLess(xs: seq<Ident>, ys: seq<Ident>) {
    if ys == [] then false
    else if xs == [] then true
    else IdentLess(xs[0], ys[0]) || (xs[0] == ys[0] && IdentsLess(xs[1..], ys[1..]))
  }

  /** Precedence: major, minor, patch; then a pre-release is below the release; then the identifiers. */
  predicate Precedes(a: Tag, b: Tag) {
    if a.major != b.major then a.major < b.major
    else if a.minor != b.minor then a.minor < b.minor
    else if a.patch != b.patch then a.patch < b.patch
    else if a.pre.None? then false
    else if b.pre.None? then true
    else IdentsLess(Identifiers(a), Identifiers(b))
  }

  lemma KindsInOrder(a: Kind, b: Kind)
    ensures KindOrder(a) < KindOrder(b) <==> KindName(a) != KindName(b) && LexLe(KindName(a), KindName(b))
    ensures KindName(a) == KindName(b) <==> a == b
  {
    assert "alpha"[0] == 'a' && "beta"[0] == 'b' && "rc"[0] == 'r';
  }

  lemma KeyLessUnfolded(a: Key, b: Key)
    requires |a| == |b| == 6
    ensures KeyLess(a, b) <==>
      if a[0] != b[0] then a[0] < b[0]
      else if a[1] != b[1] then a[1] < b[1]
      else if a[2] != b[2] then a[2] < b[2]
      else if a[3] != b[3] then a[3] < b[3]
      else if a[4] != b[4] then a[4] < b[4]
      else a[5] < b[5]
  {
    assert a[0..] == a && b[0..] == b && a[6..] == [] && b[6..] == [];
    KeyLessStep(a, b, 0);
    KeyLessStep(a, b, 1);
    KeyLessStep(a, b, 2);
    KeyLessStep(a, b, 3);
    KeyLessStep(a, b, 4);
    KeyLessStep(a, b, 5);
  }

  lemma KeyLessStep(a: Key, b: Key, i: nat)
    requires i < |a| == |b|
    ensures KeyLess(a[i..], b[i..]) <==> a[i] < b[i] || (a[i] == b[i] && KeyLess(a[i + 1..], b[i + 1..]))
  {
    assert a[i..][1..] == a[i + 1..] && b[i..][1..] == b[i + 1..];
  }

  /** The key orders tags as section 11 does. */
  lemma KeyOrderIsPrecedence(a: Tag, b: Tag)
    ensures KeyLess(TagKey(a), TagKey(b)) <==> Precedes(a, b)
  {
    KeyLessUnfolded(TagKey(a), TagKey(b));
    if a.pre.Some? && b.pre.Some? {
      KindsInOrder(a.pre.value.kind, b.pre.value.kind);
      var xs, ys := Identifiers(a), Identifiers(b);
      assert xs[1..] == [Numeric(a.pre.value.num)] && ys[1..] == [Numeric(b.pre.value.num)];
      assert IdentsLess(xs[1..], ys[1..]) <==> a.pre.value.num < b.pre.value.num;
    }
  }

  // ----- the previous release

  /** A valid tag that precedes the current one. */
  predicate Lower(u: Digits, tag: string, current: Tag) {
    ParseTag(u, tag).Some? && Precedes(ParseTag(u, tag).value, current)
  }

  ghost predicate Listed(lines: seq<string>, tag: string) {
    exists i :: 0 <= i < |lines| && Strip(lines[i]) == tag
  }

  /** A valid tag among the merged ones that comes before the current one. */
  ghost predicate Eligible(u: Digits, lines: seq<string>, current: Tag, tag: string) {
    Listed(lines, tag) && Lower(u, tag, current)
  }

  predicate TagPrecedes(u: Digits, a: string, b: string) {
    ParseTag(u, a).Some? && ParseTag(u, b).Some? && Precedes(ParseTag(u, a).value, ParseTag(u, b).value)
  }

  /** The same tag in a text that comes first by code points; never both ASCII. */
  predicate TwinBefore(u: Digits, a: string, b: string) {
    ParseTag(u, a).Some? && ParseTag(u, a) == ParseTag(u, b) && a != b && LexLe(a, b)
  }

  /** tag is eligible and every other eligible tag precedes it, or is the same tag in a text that comes first. */
  ghost predicate IsPrevious(u: Digits, lines: seq<string>, current: Tag, tag: string) {
    && Eligible(u, lines, current, tag)
    && forall other :: Eligible(u, lines, current, other) && other != tag ==>
         TagPrecedes(u, other, tag) || TwinBefore(u, other, tag)
  }

  function KeyOf(u: Digits, tag: string): Key {
    if ParseTag(u, tag).Some? then TagKey(ParseTag(u, tag).value) else []
  }

  datatype Candidate = Candidate(key: Key, tag: string)

  /** Pairs compare by key, then by tag. */
  predicate PairLess(c: Candidate, d: Candidate) {
    KeyLess(c.key, d.key) || (c.key == d.key && c.tag != d.tag && LexLe(c.tag, d.tag))
  }

  lemma PairTransitive(a: Candidate, b: Candidate, c: Candidate)
    requires PairLess(a, b) && PairLess(b, c)
    ensures PairLess(a, c)
  {
    KeyTrichotomy(b.key, b.key);
    if a.key == b.key && b.key == c.key {
      LexTransitive(a.tag, b.tag, c.tag);
      if a.tag == c.tag { LexAntisymmetric(a.tag, b.tag); }
    } else if KeyLess(a.key, b.key) && KeyLess(b.key, c.key) {
      KeyTransitive(a.key, b.key, c.key);
    }
  }

  /** The greatest of the collected pairs. */
  method MaxCandidate(candidates: seq<Candidate>) returns (best: Candidate)
    requires candidates != []
    ensures best in candidates
    ensures forall c :: c in candidates && c != best ==> PairLess(c, best)
  {
    best := candidates[0];
    for i := 1 to |candidates|
      invariant best in candidates
      invariant forall j :: 0 <= j < i && candidates[j] != best ==> PairLess(candidates[j], best)
    {
      var c := candidates[i];
      if PairLess(best, c) {
        forall j | 0 <= j < i && candidates[j] != best ensures PairLess(candidates[j], c) {
          PairTransitive(candidates[j], best, c);
        }
        best := c;
      } else {
        KeyTrichotomy(best.key, c.key);
        LexTotal(best.tag, c.tag);
      }
    }
  }

  lemma KeysDecide(u: Digits, a: string, b: string)
    requires ParseTag(u, a).Some? && ParseTag(u, b).Some?
    ensures KeyOf(u, a) == KeyOf(u, b) <==> ParseTag(u, a) == ParseTag(u, b)
    ensures KeyLess(KeyOf(u, a), KeyOf(u, b)) <==> TagPrecedes(u, a, b)
  {
    KeyOrderIsPrecedence(ParseTag(u, a).value, ParseTag(u, b).value);
    if KeyOf(u, a) == KeyOf(u, b) { KeyInjective(ParseTag(u, a).value, ParseTag(u, b).value); }
  }

  /**
    Among ASCII texts there are no twins, so the previous release strictly follows every other
    one below the current tag.
  */
  lemma AsciiHasNoTwins(u: Digits, a: string, b: string)
    requires Unicode(u) && Ascii(a) && Ascii(b)
    ensures !TwinBefore(u, a, b)
  {
    if TwinBefore(u, a, b) {
      PrintParsedTag(u, a);
      PrintParsedTag(u, b);
    }
  }

  /** One listed tag: skip it if it is empty, the current one, invalid or not lower. */
  function Consider(u: Digits, tag: string, current: string, currentTag: Tag): Option<Candidate> {
    if tag == "" || tag == current || ParseTag(u, tag).None? then None
    else if KeyLess(KeyOf(u, tag), TagKey(currentTag)) then Some(Candidate(KeyOf(u, tag), tag))
    else None
  }

  lemma ConsiderExactly(u: Digits, tag: string, current: string, currentTag: Tag)
    requires ParseTag(u, current) == Some(currentTag)
    ensures Consider(u, tag, current, currentTag) ==
      if Lower(u, tag, currentTag) then Some(Candidate(KeyOf(u, tag), tag)) else None
  {
    KeyTrichotomy(TagKey(currentTag), TagKey(currentTag));
    KeyOrderIsPrecedence(currentTag, currentTag);
    if ParseTag(u, tag).Some? { KeyOrderIsPrecedence(ParseTag(u, tag).value, currentTag); }
  }

  /** The loop over the listing. */
  method CollectCandidates(lines: seq<string>, consider: string -> Option<Candidate>)
    returns (candidates: seq<Candidate>)
    ensures forall c :: c in candidates <==> exists i :: 0 <= i < |lines| && consider(Strip(lines[i])) == Some(c)
  {
    candidates := [];
    for n := 0 to |lines|
      invariant forall c :: c in candidates <==> exists i :: 0 <= i < n && consider(Strip(lines[i])) == Some(c)
    {
      var tag := Strip(lines[n]);
      if consider(tag).Some? { candidates := candidates + [consider(tag).value]; }
    }
  }

  lemma CandidatesAreEligible(u: Digits, lines: seq<string>, current: string, currentTag: Tag,
      candidates: seq<Candidate>)
    requires ParseTag(u, current) == Some(currentTag)
    requires forall c :: c in candidates <==>
      exists i :: 0 <= i < |lines| && Consider(u, Strip(lines[i]), current, currentTag) == Some(c)
    ensures forall c :: c in candidates ==> c.key == KeyOf(u, c.tag) && Eligible(u, lines, currentTag, c.tag)
    ensures forall tag :: Eligible(u, lines, currentTag, tag) ==> Candidate(KeyOf(u, tag), tag) in candidates
  {
    forall c | c in candidates ensures c.key == KeyOf(u, c.tag) && Eligible(u, lines, currentTag, c.tag) {
      var i :| 0 <= i < |lines| && Consider(u, Strip(lines[i]), current, currentTag) == Some(c);
      ConsiderExactly(u, Strip(lines[i]), current, currentTag);
    }
    forall tag | Eligible(u, lines, currentTag, tag) ensures Candidate(KeyOf(u, tag), tag) in candidates {
      ConsiderExactly(u, tag, current, currentTag);
    }
  }

  /**
    The greatest valid merged tag strictly below the current one, or "" if there is none or
    the tags cannot be listed; an invalid current tag is an error. The order of the list,
    repetitions and invalid entries do not matter. Of two texts of that tag, which cannot
    both be ASCII, it is the one that comes last by code points.
  */
  method PreviousReleaseTag(u: Digits, current: string, listing: Option<seq<string>>) returns (r: Result<string>)
    ensures r.Err? <==> ParseTag(u, current).None?
    ensures r.Ok? && listing.None? ==> r.value == ""
    ensures r.Ok? && listing.Some? ==>
      var t := ParseTag(u, current).value;
      if r.value == "" then forall tag :: !Eligible(u, listing.value, t, tag)
      else IsPrevious(u, listing.value, t, r.value)
  {
    var parsed := ParseTag(u, current);
    if parsed.None? { return Err("invalid release tag"); }
    if listing.None? { return Ok(""); }
    var candidates := CollectCandidates(listing.value, tag => Consider(u, tag, current, parsed.value));
    CandidatesAreEligible(u, listing.value, current, parsed.value, candidates);
    if candidates == [] { return Ok(""); }
    var best := MaxCandidate(candidates);
    forall other | Eligible(u, listing.value, parsed.value, other) && other != best.tag
      ensures TagPrecedes(u, other, best.tag) || TwinBefore(u, other, best.tag)
    {
      KeysDecide(u, other, best.tag);
      assert Candidate(KeyOf(u, other), other) != best;
    }
    return Ok(best.tag);
  }

  /** There is at most one previous release, and it depends only on which tags are listed. */
  lemma PreviousIsUnique(u: Digits, lines: seq<string>, lines': seq<string>, current: Tag, a: string, b: string)
    requires forall tag :: Listed(lines, tag) <==> Listed(lines', tag)
    requires IsPrevious(u, lines, current, a) && IsPrevious(u, lines', current, b)
    ensures a == b
  {
    assert Eligible(u, lines, current, b) && Eligible(u, lines', current, a);
    KeysDecide(u, a, b);
    KeysDecide(u, b, a);
    KeyTrichotomy(KeyOf(u, a), KeyOf(u, b));
    if a != b && TwinBefore(u, a, b) && TwinBefore(u, b, a) { LexAntisymmetric(a, b); }
  }
}

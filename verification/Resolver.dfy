/**
  The resolver that maps a junit class name to the requested test module it belongs to:
  longest requested dotted prefix first, then a table of aliases, then the first component
  that looks like a test module. Answers are memoised.
*/
module Resolver {
  import opened Basics
  import opened Text

  function Normalize(name: string): string {
    if StartsWith(name, "test.") then name[5..] else name
  }

  /** A requested name with its normalised form. */
  datatype Request = Request(norm: string, name: string)

  const ALIASES: seq<(string, string)> := [
    ("unittest.test.testmock", "test_unittest"),
    ("ctypes.test", "test_ctypes"),
    ("datetimetester", "test_datetime"),
    ("test_profile", "test_cprofile"),
    ("builtins", "test_builtin"),
    ("enum", "test_enum")
  ]

  /** The class name is the module itself or lies below it. */
  predicate Under(cls: string, prefix: string) {
    cls == prefix || StartsWith(cls, prefix + ".")
  }

  // ----- the order in which requests are tried

  /** Longer normalised names first; among equals, the order of (normalised name, name) pairs. */
  predicate Before(p: Request, q: Request) {
    |p.norm| > |q.norm| ||
    (|p.norm| == |q.norm| && if p.norm == q.norm then LexLe(p.name, q.name) else LexLe(p.norm, q.norm))
  }

  lemma BeforeTotal(p: Request, q: Request)
    ensures Before(p, q) || Before(q, p)
  {
    LexTotal(p.norm, q.norm);
    LexTotal(p.name, q.name);
  }

  lemma BeforeAntisymmetric(p: Request, q: Request)
    requires Before(p, q) && Before(q, p)
    ensures p == q
  {
    if p.norm == q.norm { LexAntisymmetric(p.name, q.name); } else { LexAntisymmetric(p.norm, q.norm); }
  }

  lemma BeforeTransitive(p: Request, q: Request, r: Request)
    requires Before(p, q) && Before(q, r)
    ensures Before(p, r)
  {
    if |p.norm| == |r.norm| {
      if p.norm == q.norm == r.norm {
        LexTransitive(p.name, q.name, r.name);
      } else {
        if p.norm == r.norm { LexAntisymmetric(p.norm, q.norm); }
        if p.norm != q.norm && q.norm != r.norm { LexTransitive(p.norm, q.norm, r.norm); }
      }
    }
  }

  ghost predicate Sorted(s: seq<Request>) {
    forall i, j :: 0 <= i < j < |s| ==> Before(s[i], s[j])
  }

  function Insert(p: Request, s: seq<Request>): (r: seq<Request>)
    ensures forall q :: q in r <==> q == p || q in s
  {
    if s == [] then [p]
    else if Before(p, s[0]) then [p] + s
    else [s[0]] + Insert(p, s[1..])
  }

  lemma {:induction false} InsertSorted(p: Request, s: seq<Request>)
    requires Sorted(s)
    ensures Sorted(Insert(p, s))
    decreases |s|
  {
    var r := Insert(p, s);
    if s != [] && Before(p, s[0]) {
      forall j | 0 < j < |r| ensures Before(r[0], r[j]) {
        if j > 1 { BeforeTransitive(p, s[0], s[j - 1]); }
      }
    } else if s != [] {
      BeforeTotal(p, s[0]);
      InsertSorted(p, s[1..]);
      forall j | 0 < j < |r| ensures Before(r[0], r[j]) {
        assert r[j] in Insert(p, s[1..]);
        if r[j] != p {
          assert r[j] in s[1..];
        }
      }
    }
  }

  /** The two sorts of the source in one: by pair, then stably by descending length. */
  function SortRequests(requested: seq<string>): (r: seq<Request>)
    ensures forall q :: q in r <==>
      exists i :: 0 <= i < |requested| && q == Request(Normalize(requested[i]), requested[i])
  {
    if requested == [] then []
    else
      var rest := SortRequests(requested[1..]);
      assert forall i :: 1 <= i < |requested| ==> requested[i] == requested[1..][i - 1];
      Insert(Request(Normalize(requested[0]), requested[0]), rest)
  }

  lemma {:induction false} SortRequestsSorted(requested: seq<string>)
    ensures Sorted(SortRequests(requested))
    decreases |requested|
  {
    if requested != [] {
      SortRequestsSorted(requested[1..]);
      InsertSorted(Request(Normalize(requested[0]), requested[0]), SortRequests(requested[1..]));
    }
  }

  // ----- the specification, without a cache

  function FirstMatch(order: seq<Request>, cls: string): Option<string> {
    if order == [] then None
    else if Under(cls, order[0].norm) then Some(order[0].name)
    else FirstMatch(order[1..], cls)
  }

  function FirstAlias(aliases: seq<(string, string)>, targets: set<string>, cls: string): Option<string> {
    if aliases == [] then None
    else if aliases[0].1 in targets && Under(cls, aliases[0].0) then Some(aliases[0].1)
    else FirstAlias(aliases[1..], targets, cls)
  }

  function FirstTestPart(parts: seq<string>): Option<string> {
    if parts == [] then None
    else if StartsWith(parts[0], "test_") then Some(parts[0])
    else FirstTestPart(parts[1..])
  }

  /** What a normalised class name resolves to. */
  function Resolved(order: seq<Request>, targets: set<string>, cls: string): string {
    if FirstMatch(order, cls).Some? then FirstMatch(order, cls).value
    else if FirstAlias(ALIASES, targets, cls).Some? then FirstAlias(ALIASES, targets, cls).value
    else if FirstTestPart(Split(cls, '.')).Some? then FirstTestPart(Split(cls, '.')).value
    else if cls != "" then cls else "unknown"
  }

  class ModuleResolver {
    const byLength: seq<Request>
    const aliasTargets: set<string>
    var cache: map<string, string>

    ghost predicate Valid()
      reads this
    {
      Sorted(byLength) && forall cls :: cls in cache ==> cache[cls] == Resolved(byLength, aliasTargets, cls)
    }

    constructor (requested: seq<string>, available: Option<seq<string>>)
      ensures Valid() && cache == map[]
      ensures byLength == SortRequests(requested)
      ensures aliasTargets == Elements(if available.Some? then available.value else requested)
    {
      SortRequestsSorted(requested);
      byLength := SortRequests(requested);
      aliasTargets := Elements(if available.Some? then available.value else requested);
      cache := map[];
    }

    /** Whatever was resolved before, the answer is the uncached one; the cache only grows. */
    method Resolve(classname: string) returns (r: string)
      requires Valid()
      modifies this
      ensures Valid() && r == Resolved(byLength, aliasTargets, Normalize(classname))
      ensures forall cls :: cls in old(cache) ==> cls in cache && cache[cls] == old(cache)[cls]
    {
      var cls := Normalize(classname);
      if cls in cache { return cache[cls]; }
      r := Search(cls);
      cache := cache[cls := r];
    }

    method Search(cls: string) returns (r: string)
      ensures r == Resolved(byLength, aliasTargets, cls)
    {
      for i := 0 to |byLength|
        invariant FirstMatch(byLength[i..], cls) == FirstMatch(byLength, cls)
      {
        assert byLength[i..][1..] == byLength[i + 1..];
        if Under(cls, byLength[i].norm) { return byLength[i].name; }
      }
      for i := 0 to |ALIASES|
        invariant FirstAlias(ALIASES[i..], aliasTargets, cls) == FirstAlias(ALIASES, aliasTargets, cls)
      {
        assert ALIASES[i..][1..] == ALIASES[i + 1..];
        if ALIASES[i].1 in aliasTargets && Under(cls, ALIASES[i].0) { return ALIASES[i].1; }
      }
      var parts := Split(cls, '.');
      for i := 0 to |parts|
        invariant FirstTestPart(parts[i..]) == FirstTestPart(parts)
      {
        assert parts[i..][1..] == parts[i + 1..];
        if StartsWith(parts[i], "test_") { return parts[i]; }
      }
      return if cls != "" then cls else "unknown";
    }
  }

  // ----- the longest prefix wins

  /** name is requested, covers cls, and no requested name covering cls comes before it. */
  ghost predicate Wins(requested: seq<string>, cls: string, name: string) {
    && name in requested && Under(cls, Normalize(name))
    && forall other :: other in requested && Under(cls, Normalize(other)) ==>
         Before(Request(Normalize(name), name), Request(Normalize(other), other))
  }

  ghost predicate FirstAmong(order: seq<Request>, cls: string, p: Request) {
    && p in order && Under(cls, p.norm)
    && forall q :: q in order && Under(cls, q.norm) && q != p ==> Before(p, q)
  }

  lemma {:induction false} FirstMatchIsFirst(order: seq<Request>, cls: string)
    requires Sorted(order)
    ensures match FirstMatch(order, cls)
      case None => forall q :: q in order ==> !Under(cls, q.norm)
      case Some(name) => exists p: Request :: p.name == name && FirstAmong(order, cls, p)
    decreases |order|
  {
    if order != [] {
      FirstMatchIsFirst(order[1..], cls);
      assert order == [order[0]] + order[1..];
      if Under(cls, order[0].norm) {
        assert FirstAmong(order, cls, order[0]) by {
          assert order[0] in order;
          FirstOfSorted(order);
        }
      } else if FirstMatch(order[1..], cls).Some? {
        var p: Request :| p.name == FirstMatch(order, cls).value && FirstAmong(order[1..], cls, p);
        FirstAmongTail(order, cls, p);
      }
    }
  }

  lemma FirstAmongTail(order: seq<Request>, cls: string, p: Request)
    requires order != [] && !Under(cls, order[0].norm) && FirstAmong(order[1..], cls, p)
    ensures FirstAmong(order, cls, p)
  {
    assert order == [order[0]] + order[1..];
  }

  lemma FirstOfSorted(order: seq<Request>)
    requires Sorted(order) && order != []
    ensures forall q :: q in order && q != order[0] ==> Before(order[0], q)
  {
    forall q | q in order && q != order[0] ensures Before(order[0], q) {
      var k :| 0 <= k < |order| && order[k] == q;
    }
  }

  lemma WinnerIsUnique(requested: seq<string>, cls: string, a: string, b: string)
    requires Wins(requested, cls, a) && Wins(requested, cls, b)
    ensures a == b
  {
    BeforeAntisymmetric(Request(Normalize(a), a), Request(Normalize(b), b));
  }

  lemma UnderStarts(cls: string, prefix: string)
    requires Under(cls, prefix)
    ensures StartsWith(cls, prefix)
  {
    if cls != prefix {
      assert cls[..|prefix|] == (prefix + ".")[..|prefix|] == prefix;
    }
  }

  /** The longest requested name covering the class wins; a shorter one only if no longer one covers it. */
  lemma WinnerIsLongest(requested: seq<string>, cls: string, name: string, other: string)
    requires Wins(requested, cls, name) && other in requested && Under(cls, Normalize(other))
    ensures |Normalize(other)| < |Normalize(name)| || Normalize(other) == Normalize(name)
  {
    hide Normalize;
    UnderStarts(cls, Normalize(name));
    UnderStarts(cls, Normalize(other));
    if |Normalize(other)| == |Normalize(name)| {
      PrefixesOfOneString(cls, Normalize(name), Normalize(other));
    }
  }

  /**
    A requested name that covers the class wins before any alias; the answer is the unique
    winner, and without one it is decided by the alias table and the class name alone.
  */
  lemma LongestPrefixFirst(requested: seq<string>, targets: set<string>, cls: string)
    ensures match FirstMatch(SortRequests(requested), cls)
      case Some(name) => Wins(requested, cls, name) && Resolved(SortRequests(requested), targets, cls) == name
      case None => forall name :: name in requested ==> !Under(cls, Normalize(name))
  {
    var order := SortRequests(requested);
    SortRequestsSorted(requested);
    FirstMatchIsFirst(order, cls);
    forall name | name in requested ensures Request(Normalize(name), name) in order {
      var i :| 0 <= i < |requested| && requested[i] == name;
      assert Request(Normalize(name), name) == Request(Normalize(requested[i]), requested[i]);
    }
    var r := FirstMatch(order, cls);
    if r.Some? {
      var p: Request :| p.name == r.value && FirstAmong(order, cls, p);
      BeforeTotal(p, p);
      assert p == Request(Normalize(p.name), p.name);
    }
  }

  // ----- without a requested name

  /** The entry at i is the first alias that covers the class and whose target is available. */
  ghost predicate IsFirstAlias(aliases: seq<(string, string)>, targets: set<string>, cls: string, i: nat) {
    && i < |aliases| && aliases[i].1 in targets && Under(cls, aliases[i].0)
    && forall j :: 0 <= j < i ==> !(aliases[j].1 in targets && Under(cls, aliases[j].0))
  }

  lemma {:induction false} FirstAliasExactly(aliases: seq<(string, string)>, targets: set<string>, cls: string)
    ensures forall i: nat :: IsFirstAlias(aliases, targets, cls, i) ==>
      FirstAlias(aliases, targets, cls) == Some(aliases[i].1)
    ensures (forall i: nat :: !IsFirstAlias(aliases, targets, cls, i)) ==> FirstAlias(aliases, targets, cls) == None
    decreases |aliases|
  {
    if aliases != [] {
      FirstAliasExactly(aliases[1..], targets, cls);
      if aliases[0].1 in targets && Under(cls, aliases[0].0) {
        assert IsFirstAlias(aliases, targets, cls, 0);
      } else {
        forall i: nat
          ensures IsFirstAlias(aliases, targets, cls, i + 1) <==> IsFirstAlias(aliases[1..], targets, cls, i)
        {
          if IsFirstAlias(aliases[1..], targets, cls, i) {
            forall j | 0 <= j < i + 1 ensures !(aliases[j].1 in targets && Under(cls, aliases[j].0)) {
              if j > 0 { assert aliases[j] == aliases[1..][j - 1]; }
            }
          }
          if IsFirstAlias(aliases, targets, cls, i + 1) {
            forall j | 0 <= j < i ensures aliases[1..][j] == aliases[j + 1] { }
          }
        }
        assert !IsFirstAlias(aliases, targets, cls, 0);
        forall i: nat | IsFirstAlias(aliases, targets, cls, i)
          ensures FirstAlias(aliases, targets, cls) == Some(aliases[i].1)
        {
          assert IsFirstAlias(aliases[1..], targets, cls, i - 1);
          assert aliases[1..][i - 1] == aliases[i];
        }
      }
    }
  }

  ghost predicate IsFirstTestPart(parts: seq<string>, i: nat) {
    && i < |parts| && StartsWith(parts[i], "test_")
    && forall j :: 0 <= j < i ==> !StartsWith(parts[j], "test_")
  }

  lemma {:induction false} FirstTestPartExactly(parts: seq<string>)
    ensures forall i: nat :: IsFirstTestPart(parts, i) ==> FirstTestPart(parts) == Some(parts[i])
    ensures (forall i: nat :: !IsFirstTestPart(parts, i)) ==> FirstTestPart(parts) == None
    decreases |parts|
  {
    if parts != [] {
      FirstTestPartExactly(parts[1..]);
      if StartsWith(parts[0], "test_") {
        assert IsFirstTestPart(parts, 0);
      } else {
        forall i: nat | IsFirstTestPart(parts[1..], i) ensures IsFirstTestPart(parts, i + 1) {
          forall j | 0 <= j < i + 1 ensures !StartsWith(parts[j], "test_") {
            if j > 0 { assert parts[j] == parts[1..][j - 1]; }
          }
        }
        forall i: nat | IsFirstTestPart(parts, i) ensures FirstTestPart(parts) == Some(parts[i]) {
          assert IsFirstTestPart(parts[1..], i - 1) by {
            forall j | 0 <= j < i - 1 ensures parts[1..][j] == parts[j + 1] { }
          }
          assert parts[1..][i - 1] == parts[i];
        }
      }
    }
  }

  /**
    The first covering alias with an available target is the answer, whatever the parts of
    the name; without one, the first part that starts with "test_"; without that, the name
    itself, or "unknown" if it is empty.
  */
  ghost predicate FallsBackTo(aliases: seq<(string, string)>, targets: set<string>, cls: string, r: string) {
    var parts := Split(cls, '.');
    && (forall i: nat :: IsFirstAlias(aliases, targets, cls, i) ==> r == aliases[i].1)
    && ((forall i: nat :: !IsFirstAlias(aliases, targets, cls, i)) ==>
          && (forall i: nat :: IsFirstTestPart(parts, i) ==> r == parts[i])
          && ((forall i: nat :: !IsFirstTestPart(parts, i)) ==> r == if |cls| == 0 then "unknown" else cls))
  }

  lemma FallsBack(aliases: seq<(string, string)>, targets: set<string>, cls: string, r: string)
    requires r == if FirstAlias(aliases, targets, cls).Some? then FirstAlias(aliases, targets, cls).value
                  else if FirstTestPart(Split(cls, '.')).Some? then FirstTestPart(Split(cls, '.')).value
                  else if cls != "" then cls else "unknown"
    ensures FallsBackTo(aliases, targets, cls, r)
  {
    hide FirstAlias, FirstTestPart, IsFirstAlias, IsFirstTestPart, Split;
    FirstAliasExactly(aliases, targets, cls);
    FirstTestPartExactly(Split(cls, '.'));
  }

  /** With no requested name covering the class, the aliases, the parts and the name decide, in this order. */
  lemma FallbackInOrder(requested: seq<string>, targets: set<string>, cls: string)
    requires forall name :: name in requested ==> !Under(cls, Normalize(name))
    ensures FallsBackTo(ALIASES, targets, cls, Resolved(SortRequests(requested), targets, cls))
  {
    hide FallsBackTo, FirstAlias, FirstTestPart, Split, SortRequests, Under;
    LongestPrefixFirst(requested, targets, cls);
    FallsBack(ALIASES, targets, cls, Resolved(SortRequests(requested), targets, cls));
  }

  // ----- dotted names

  lemma {:induction false} SplitAtDot(x: string, y: string)
    ensures Split(x + ("." + y), '.') == Split(x, '.') + Split(y, '.')
    decreases |x|
  {
    var s := x + ("." + y);
    if x == [] {
      assert s == "." + y && s[1..] == y;
    } else {
      assert s[1..] == x[1..] + ("." + y);
      SplitAtDot(x[1..], y);
    }
  }

  function JoinDots(parts: seq<string>): string
    requires parts != []
  {
    if |parts| == 1 then parts[0] else parts[0] + ("." + JoinDots(parts[1..]))
  }

  lemma {:induction false} JoinOfSplit(s: string)
    ensures JoinDots(Split(s, '.')) == s
    decreases |s|
  {
    if s != [] {
      JoinOfSplit(s[1..]);
      var rest := Split(s[1..], '.');
      assert s == [s[0]] + s[1..];
      if s[0] == '.' {
        assert Split(s, '.')[1..] == rest;
      } else {
        assert Split(s, '.')[1..] == rest[1..];
      }
    }
  }

  lemma {:induction false} JoinPrefix(p: seq<string>, q: seq<string>)
    requires p != [] && q != []
    ensures JoinDots(p + q) == JoinDots(p) + ("." + JoinDots(q))
    decreases |p|
  {
    if |p| == 1 {
      assert (p + q)[1..] == q;
    } else {
      assert (p + q)[1..] == p[1..] + q;
      JoinPrefix(p[1..], q);
    }
  }

  /** A class lies under a name exactly when its dotted components begin with those of the name. */
  lemma UnderIsByComponents(cls: string, prefix: string)
    ensures Under(cls, prefix) <==> Split(prefix, '.') <= Split(cls, '.')
  {
    if Under(cls, prefix) && cls != prefix {
      var rest := cls[|prefix| + 1..];
      assert cls == prefix + ("." + rest) by { assert cls[..|prefix| + 1] == prefix + "."; }
      SplitAtDot(prefix, rest);
    }
    if Split(prefix, '.') <= Split(cls, '.') {
      JoinOfSplit(prefix);
      JoinOfSplit(cls);
      var p := Split(prefix, '.');
      var q := Split(cls, '.')[|p|..];
      assert Split(cls, '.') == p + q;
      if q != [] {
        JoinPrefix(p, q);
        assert cls[..|prefix| + 1] == prefix + ".";
      } else {
        assert p + q == p;
      }
    }
  }

  /** Exactly one leading "test." is dropped. */
  lemma NormalizeDropsTest(x: string)
    ensures Normalize("test." + x) == x
    ensures (forall y :: x != "test." + y) ==> Normalize(x) == x
  {
    assert ("test." + x)[..5] == "test." && ("test." + x)[5..] == x;
    if StartsWith(x, "test.") { assert x == "test." + x[5..]; }
  }

  /** A class of test_profile belongs to test_profile if that was requested, and to test_cprofile if only that was. */
  lemma ProfileBelongsToItself(rest: string, requested: seq<string>)
    requires forall name :: name in requested ==> name == "test_profile" || name == "test_cprofile"
    ensures var cls := "test_profile." + rest;
      var r := Resolved(SortRequests(requested), Elements(requested), cls);
      && ("test_profile" in requested ==> r == "test_profile")
      && ("test_profile" !in requested && "test_cprofile" in requested ==> r == "test_cprofile")
  {
    var cls := "test_profile." + rest;
    ProfileNames(rest);
    hide Under, Normalize, SortRequests, FirstMatch, Before;
    LongestPrefixFirst(requested, Elements(requested), cls);
    if "test_profile" in requested {
      assert Wins(requested, cls, "test_profile") by {
        BeforeTotal(Request("test_profile", "test_profile"), Request("test_profile", "test_profile"));
      }
      var first := FirstMatch(SortRequests(requested), cls);
      if first.Some? { WinnerIsUnique(requested, cls, "test_profile", first.value); }
    } else if "test_cprofile" in requested {
      FallbackInOrder(requested, Elements(requested), cls);
      assert IsFirstAlias(ALIASES, Elements(requested), cls, 3);
    }
  }

  lemma ProfileNames(rest: string)
    ensures Normalize("test_profile") == "test_profile" && Normalize("test_cprofile") == "test_cprofile"
    ensures Under("test_profile." + rest, "test_profile") && !Under("test_profile." + rest, "test_cprofile")
  {
    var cls := "test_profile." + rest;
    assert "test_profile"[4] == '_' && "test_cprofile"[4] == '_' && "test."[4] == '.';
    assert "test_profile"[..5][4] == '_' && "test_cprofile"[..5][4] == '_';
    assert cls[..13] == "test_profile" + ".";
    assert cls[5] == 'p';
    assert |cls| >= 14 ==> cls[..14][5] == 'p' && ("test_cprofile" + ".")[5] == 'c';
  }

  /** The order and multiplicity of the requests do not matter. */
  lemma OrderIndependent(a: seq<string>, b: seq<string>, targets: set<string>, cls: string)
    requires forall x :: x in a <==> x in b
    ensures Resolved(SortRequests(a), targets, cls) == Resolved(SortRequests(b), targets, cls)
  {
    LongestPrefixFirst(a, targets, cls);
    LongestPrefixFirst(b, targets, cls);
    var ra, rb := FirstMatch(SortRequests(a), cls), FirstMatch(SortRequests(b), cls);
    if ra.Some? && rb.Some? {
      assert Wins(b, cls, ra.value);
      WinnerIsUnique(b, cls, ra.value, rb.value);
    }
  }
}

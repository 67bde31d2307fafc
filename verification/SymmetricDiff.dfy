/**
  The two comparisons of test results of a stock and a modified interpreter. diff_results
  looks for regressions; diff_results_symmetric demands identical results up to a frozen
  list of allowed differences, and the gate built on it is green or red.
*/
module SymmetricDiff {
  import opened Basics
  import opened Text
  import Resolver

  /** One arm's results; an absent section reads as empty. */
  datatype Arm = Arm(modules: map<string, string>, cases: map<string, string>, diagnostics: map<string, string>)

  datatype Sides = Sides(stock: string, execute: string)

  type Differences = map<string, Sides>

  const MODULE_TAG: string := "<module> "
  const DIAGNOSTIC_TAG: string := "<diagnostic> "

  function GetOr(m: map<string, string>, key: string, default: string): string {
    if key in m then m[key] else default
  }

  /** The order in which a set of keys is visited; the source sorts, and what follows holds for any order. */
  type Order = set<string> -> seq<string>

  ghost predicate IsOrder(order: Order) {
    forall s, x :: x in order(s) <==> x in s
  }

  // ----- the differences

  type Entry = Option<(string, Sides)>

  function ModuleEntry(a: Arm, b: Arm, mod: string): Entry {
    var av, bv := GetOr(a.modules, mod, "missing"), GetOr(b.modules, mod, "missing");
    if av != bv then Some((MODULE_TAG + mod, Sides(av, bv))) else None
  }

  function CaseEntry(a: Arm, b: Arm, key: string): Entry {
    var sa, sb := GetOr(a.cases, key, "missing"), GetOr(b.cases, key, "missing");
    if sa != sb then Some((key, Sides(sa, sb)))
    else if sa == "pass" then None
    else
      var da, db := GetOr(a.diagnostics, key, ""), GetOr(b.diagnostics, key, "");
      if da != db then Some((DIAGNOSTIC_TAG + key, Sides(da, db))) else None
  }

  function Collect(entry: string -> Entry, keys: seq<string>, acc: Differences): Differences {
    if keys == [] then acc
    else Collect(entry, keys[1..], Put(acc, entry(keys[0])))
  }

  function Put(acc: Differences, e: Entry): Differences {
    if e.Some? then acc[e.value.0 := e.value.1] else acc
  }

  function Diff(a: Arm, b: Arm, order: Order): Differences {
    Collect(CaseEntries(a, b), order(a.cases.Keys + b.cases.Keys),
      Collect(ModuleEntries(a, b), order(a.modules.Keys + b.modules.Keys), map[]))
  }

  /** Keys of `m` whose value the other map does not repeat. */
  function Unmatched(m: Differences, other: Differences): set<string> {
    set key | key in m && !(key in other && other[key] == m[key])
  }

  datatype Report = Report(differences: Differences, unexpected: set<string>, stale: set<string>)

  method DiffResultsSymmetric(a: Arm, b: Arm, allowed: Differences, order: Order) returns (r: Report)
    ensures r.differences == Diff(a, b, order)
    ensures r.unexpected == Unmatched(r.differences, allowed)
    ensures r.stale == Unmatched(allowed, r.differences)
  {
    var differences: Differences := map[];
    var modules := order(a.modules.Keys + b.modules.Keys);
    ghost var moduleEntry := ModuleEntries(a, b);
    for i := 0 to |modules|
      invariant Collect(moduleEntry, modules[i..], differences) == Collect(moduleEntry, modules, map[])
    {
      var mod := modules[i];
      assert modules[i..][1..] == modules[i + 1..];
      var averdict, bverdict := GetOr(a.modules, mod, "missing"), GetOr(b.modules, mod, "missing");
      if averdict != bverdict {
        differences := differences[MODULE_TAG + mod := Sides(averdict, bverdict)];
      }
    }
    assert modules[|modules|..] == [];
    ghost var afterModules := differences;
    var cases := order(a.cases.Keys + b.cases.Keys);
    ghost var caseEntry := CaseEntries(a, b);
    for i := 0 to |cases|
      invariant Collect(caseEntry, cases[i..], differences) == Collect(caseEntry, cases, afterModules)
    {
      var key := cases[i];
      assert cases[i..][1..] == cases[i + 1..];
      var astate, bstate := GetOr(a.cases, key, "missing"), GetOr(b.cases, key, "missing");
      if astate != bstate {
        differences := differences[key := Sides(astate, bstate)];
        continue;
      }
      if astate == "pass" { continue; }
      var adiag, bdiag := GetOr(a.diagnostics, key, ""), GetOr(b.diagnostics, key, "");
      if adiag != bdiag {
        differences := differences[DIAGNOSTIC_TAG + key := Sides(adiag, bdiag)];
      }
    }
    assert cases[|cases|..] == [];
    r := Report(differences, Unmatched(differences, allowed), Unmatched(allowed, differences));
  }

  // ----- exactness

  /** Some visited key makes an entry at k. */
  ghost predicate Makes(entry: string -> Entry, keys: seq<string>, k: string) {
    exists x :: x in keys && entry(x).Some? && entry(x).value.0 == k
  }

  function At(m: Differences, k: string): Option<Sides> {
    if k in m then Some(m[k]) else None
  }

  /** If all entries made at k carry v, then k ends with v when some entry is made there, and as before otherwise. */
  lemma {:induction false} CollectAt(entry: string -> Entry, keys: seq<string>, acc: Differences, k: string, v: Sides)
    requires forall x :: x in keys && entry(x).Some? && entry(x).value.0 == k ==> entry(x).value.1 == v
    ensures At(Collect(entry, keys, acc), k) == if Makes(entry, keys, k) then Some(v) else At(acc, k)
    decreases |keys|
  {
    if keys != [] {
      assert keys == [keys[0]] + keys[1..];
      CollectAt(entry, keys[1..], Put(acc, entry(keys[0])), k, v);
    }
  }

  lemma {:induction false} CollectKeys(entry: string -> Entry, keys: seq<string>, acc: Differences, k: string)
    ensures k in Collect(entry, keys, acc) <==> k in acc || Makes(entry, keys, k)
    decreases |keys|
  {
    if keys != [] {
      assert keys == [keys[0]] + keys[1..];
      CollectKeys(entry, keys[1..], Put(acc, entry(keys[0])), k);
    }
  }

  function ModuleEntries(a: Arm, b: Arm): string -> Entry { mod => ModuleEntry(a, b, mod) }

  function CaseEntries(a: Arm, b: Arm): string -> Entry { key => CaseEntry(a, b, key) }

  lemma DiffKeys(a: Arm, b: Arm, order: Order, k: string)
    ensures k in Diff(a, b, order) <==>
      || Makes(ModuleEntries(a, b), order(a.modules.Keys + b.modules.Keys), k)
      || Makes(CaseEntries(a, b), order(a.cases.Keys + b.cases.Keys), k)
  {
    var modules := Collect(ModuleEntries(a, b), order(a.modules.Keys + b.modules.Keys), map[]);
    CollectKeys(ModuleEntries(a, b), order(a.modules.Keys + b.modules.Keys), map[], k);
    CollectKeys(CaseEntries(a, b), order(a.cases.Keys + b.cases.Keys), modules, k);
  }

  /** No entry is made: each module, state and failing diagnostic reads the same in both arms. */
  ghost predicate Agree(a: Arm, b: Arm) {
    && (forall mod :: GetOr(a.modules, mod, "missing") == GetOr(b.modules, mod, "missing"))
    && (forall key :: GetOr(a.cases, key, "missing") == GetOr(b.cases, key, "missing"))
    && (forall key :: key in a.cases.Keys + b.cases.Keys && GetOr(a.cases, key, "missing") != "pass" ==>
          GetOr(a.diagnostics, key, "") == GetOr(b.diagnostics, key, ""))
  }

  ghost predicate NoEntries(a: Arm, b: Arm) {
    && (forall mod :: mod in a.modules.Keys + b.modules.Keys ==> ModuleEntry(a, b, mod).None?)
    && (forall key :: key in a.cases.Keys + b.cases.Keys ==> CaseEntry(a, b, key).None?)
  }

  lemma AgreeMeansNoEntries(a: Arm, b: Arm)
    ensures Agree(a, b) <==> NoEntries(a, b)
  {
    if NoEntries(a, b) {
      forall mod ensures GetOr(a.modules, mod, "missing") == GetOr(b.modules, mod, "missing") {
        if mod in a.modules.Keys + b.modules.Keys { assert ModuleEntry(a, b, mod).None?; }
      }
      forall key ensures GetOr(a.cases, key, "missing") == GetOr(b.cases, key, "missing") {
        if key in a.cases.Keys + b.cases.Keys { assert CaseEntry(a, b, key).None?; }
      }
      forall key | key in a.cases.Keys + b.cases.Keys && GetOr(a.cases, key, "missing") != "pass"
        ensures GetOr(a.diagnostics, key, "") == GetOr(b.diagnostics, key, "")
      {
        assert CaseEntry(a, b, key).None?;
      }
    }
  }

  /** The symmetric judge is exact: no differences exactly when the arms agree. */
  lemma EmptyIffAgree(a: Arm, b: Arm, order: Order)
    requires IsOrder(order)
    ensures Diff(a, b, order) == map[] <==> Agree(a, b)
  {
    AgreeMeansNoEntries(a, b);
    if Diff(a, b, order) == map[] {
      forall mod | mod in a.modules.Keys + b.modules.Keys ensures ModuleEntry(a, b, mod).None? {
        if ModuleEntry(a, b, mod).Some? {
          assert ModuleEntries(a, b)(mod) == ModuleEntry(a, b, mod);
          DiffKeys(a, b, order, ModuleEntry(a, b, mod).value.0);
        }
      }
      forall key | key in a.cases.Keys + b.cases.Keys ensures CaseEntry(a, b, key).None? {
        if CaseEntry(a, b, key).Some? {
          assert CaseEntries(a, b)(key) == CaseEntry(a, b, key);
          DiffKeys(a, b, order, CaseEntry(a, b, key).value.0);
        }
      }
    } else {
      var k :| k in Diff(a, b, order);
      DiffKeys(a, b, order, k);
    }
  }

  ghost predicate NoneMissing(m: map<string, string>) {
    forall k :: k in m ==> m[k] != "missing"
  }

  lemma CompletedMapsEqual(m: map<string, string>, n: map<string, string>)
    requires NoneMissing(m) && NoneMissing(n)
    ensures (forall k :: GetOr(m, k, "missing") == GetOr(n, k, "missing")) <==> m == n
  {
    if forall k :: GetOr(m, k, "missing") == GetOr(n, k, "missing") {
      forall k ensures k in m <==> k in n {
        assert GetOr(m, k, "missing") == GetOr(n, k, "missing");
      }
      forall k | k in m ensures m[k] == n[k] {
        assert GetOr(m, k, "missing") == GetOr(n, k, "missing");
      }
    }
  }

  /**
    If no arm records the literal state "missing", agreement is equality of the modules, of the
    cases and of what failing cases say.
  */
  lemma AgreeIffEqual(a: Arm, b: Arm)
    requires NoneMissing(a.modules) && NoneMissing(b.modules) && NoneMissing(a.cases) && NoneMissing(b.cases)
    ensures Agree(a, b) <==>
      && a.modules == b.modules && a.cases == b.cases
      && forall key :: key in a.cases && a.cases[key] != "pass" ==>
          GetOr(a.diagnostics, key, "") == GetOr(b.diagnostics, key, "")
  {
    CompletedMapsEqual(a.modules, b.modules);
    CompletedMapsEqual(a.cases, b.cases);
  }

  // ----- contents

  ghost predicate Untagged(m: map<string, string>) {
    forall k :: k in m ==> !StartsWith(k, MODULE_TAG) && !StartsWith(k, DIAGNOSTIC_TAG)
  }

  lemma TagsCancel(tag: string, x: string, y: string)
    ensures StartsWith(tag + x, tag) && (tag + x)[|tag|..] == x && (tag + x == tag + y <==> x == y)
  {
    assert (tag + x)[|tag|..] == x && (tag + y)[|tag|..] == y;
  }

  lemma TagsDiffer(x: string)
    ensures !StartsWith(DIAGNOSTIC_TAG + x, MODULE_TAG) && !StartsWith(MODULE_TAG + x, DIAGNOSTIC_TAG)
  {
    assert (DIAGNOSTIC_TAG + x)[..|MODULE_TAG|][1] == 'd';
    if |MODULE_TAG + x| >= |DIAGNOSTIC_TAG| {
      assert (MODULE_TAG + x)[..|DIAGNOSTIC_TAG|][1] == 'm';
    }
  }

  /** A module's verdict difference is recorded under its tagged name, and nothing else is. */
  lemma ModuleRecorded(a: Arm, b: Arm, order: Order, mod: string)
    requires IsOrder(order) && Untagged(a.cases) && Untagged(b.cases)
    ensures At(Diff(a, b, order), "<module> " + mod) ==
      if GetOr(a.modules, mod, "missing") != GetOr(b.modules, mod, "missing")
      then Some(Sides(GetOr(a.modules, mod, "missing"), GetOr(b.modules, mod, "missing"))) else None
  {
    var k := MODULE_TAG + mod;
    var moduleKeys, caseKeys := order(a.modules.Keys + b.modules.Keys), order(a.cases.Keys + b.cases.Keys);
    forall x | x in caseKeys && CaseEntries(a, b)(x).Some? ensures CaseEntries(a, b)(x).value.0 != k {
      TagsCancel(MODULE_TAG, mod, mod);
      TagsDiffer(x);
    }
    forall x | x in moduleKeys && ModuleEntries(a, b)(x).Some? && ModuleEntries(a, b)(x).value.0 == k ensures x == mod {
      TagsCancel(MODULE_TAG, x, mod);
    }
    var v := Sides(GetOr(a.modules, mod, "missing"), GetOr(b.modules, mod, "missing"));
    CollectAt(ModuleEntries(a, b), moduleKeys, map[], k, v);
    CollectAt(CaseEntries(a, b), caseKeys, Collect(ModuleEntries(a, b), moduleKeys, map[]), k, v);
    if ModuleEntry(a, b, mod).Some? {
      assert mod in moduleKeys && ModuleEntries(a, b)(mod) == ModuleEntry(a, b, mod);
    }
  }

  /** A case's state difference is recorded under the case id itself. */
  lemma CaseRecorded(a: Arm, b: Arm, order: Order, key: string)
    requires IsOrder(order) && !StartsWith(key, MODULE_TAG) && !StartsWith(key, DIAGNOSTIC_TAG)
    ensures At(Diff(a, b, order), key) ==
      if GetOr(a.cases, key, "missing") != GetOr(b.cases, key, "missing")
      then Some(Sides(GetOr(a.cases, key, "missing"), GetOr(b.cases, key, "missing"))) else None
  {
    var moduleKeys, caseKeys := order(a.modules.Keys + b.modules.Keys), order(a.cases.Keys + b.cases.Keys);
    forall x | x in moduleKeys && ModuleEntries(a, b)(x).Some? ensures ModuleEntries(a, b)(x).value.0 != key {
      TagsCancel(MODULE_TAG, x, x);
    }
    forall x | x in caseKeys && CaseEntries(a, b)(x).Some? && CaseEntries(a, b)(x).value.0 == key ensures x == key {
      TagsCancel(DIAGNOSTIC_TAG, x, x);
    }
    var v := Sides(GetOr(a.cases, key, "missing"), GetOr(b.cases, key, "missing"));
    CollectAt(ModuleEntries(a, b), moduleKeys, map[], key, v);
    assert forall x :: x in caseKeys && CaseEntries(a, b)(x).Some? && CaseEntries(a, b)(x).value.0 == key ==>
      DIAGNOSTIC_TAG + x != key;
    CollectAt(CaseEntries(a, b), caseKeys, Collect(ModuleEntries(a, b), moduleKeys, map[]), key, v);
    if GetOr(a.cases, key, "missing") != GetOr(b.cases, key, "missing") {
      assert key in caseKeys && CaseEntries(a, b)(key) == CaseEntry(a, b, key);
    }
  }

  /**
    The same verdict for another reason is recorded under the tagged case id, only for a case
    that ran and did not pass.
  */
  lemma DiagnosticRecorded(a: Arm, b: Arm, order: Order, key: string)
    requires IsOrder(order) && Untagged(a.cases) && Untagged(b.cases)
    ensures At(Diff(a, b, order), "<diagnostic> " + key) ==
      if key in a.cases.Keys + b.cases.Keys
         && GetOr(a.cases, key, "missing") == GetOr(b.cases, key, "missing") && GetOr(a.cases, key, "missing") != "pass"
         && GetOr(a.diagnostics, key, "") != GetOr(b.diagnostics, key, "")
      then Some(Sides(GetOr(a.diagnostics, key, ""), GetOr(b.diagnostics, key, ""))) else None
  {
    var k := DIAGNOSTIC_TAG + key;
    var moduleKeys, caseKeys := order(a.modules.Keys + b.modules.Keys), order(a.cases.Keys + b.cases.Keys);
    forall x | x in moduleKeys && ModuleEntries(a, b)(x).Some? ensures ModuleEntries(a, b)(x).value.0 != k {
      TagsCancel(DIAGNOSTIC_TAG, key, key);
      TagsDiffer(x);
    }
    forall x | x in caseKeys && CaseEntries(a, b)(x).Some? && CaseEntries(a, b)(x).value.0 == k
      ensures x == key && k != x
    {
      TagsCancel(DIAGNOSTIC_TAG, key, x);
    }
    var v := Sides(GetOr(a.diagnostics, key, ""), GetOr(b.diagnostics, key, ""));
    CollectAt(ModuleEntries(a, b), moduleKeys, map[], k, v);
    CollectAt(CaseEntries(a, b), caseKeys, Collect(ModuleEntries(a, b), moduleKeys, map[]), k, v);
    if key in caseKeys { assert CaseEntries(a, b)(key) == CaseEntry(a, b, key); }
  }

  lemma SameLookups(m: Differences, n: Differences)
    requires forall k :: At(m, k) == At(n, k)
    ensures m == n
  {
    forall k ensures k in m <==> k in n { assert At(m, k) == At(n, k); }
    forall k | k in m ensures m[k] == n[k] { assert At(m, k) == At(n, k); }
  }

  /** With untagged case ids the order in which results are visited does not matter. */
  lemma OrderDoesNotMatter(a: Arm, b: Arm, order: Order, order': Order)
    requires IsOrder(order) && IsOrder(order') && Untagged(a.cases) && Untagged(b.cases)
    ensures Diff(a, b, order) == Diff(a, b, order')
  {
    forall k ensures At(Diff(a, b, order), k) == At(Diff(a, b, order'), k) {
      if StartsWith(k, MODULE_TAG) {
        assert k == MODULE_TAG + k[|MODULE_TAG|..];
        ModuleRecorded(a, b, order, k[|MODULE_TAG|..]);
        ModuleRecorded(a, b, order', k[|MODULE_TAG|..]);
      } else if StartsWith(k, DIAGNOSTIC_TAG) {
        assert k == DIAGNOSTIC_TAG + k[|DIAGNOSTIC_TAG|..];
        DiagnosticRecorded(a, b, order, k[|DIAGNOSTIC_TAG|..]);
        DiagnosticRecorded(a, b, order', k[|DIAGNOSTIC_TAG|..]);
      } else {
        CaseRecorded(a, b, order, k);
        CaseRecorded(a, b, order', k);
      }
    }
    SameLookups(Diff(a, b, order), Diff(a, b, order'));
  }

  // ----- the gate

  /** The gate of the execute lane: green when nothing is unexpected and nothing allowed is stale. */
  predicate Green(r: Report) { r.unexpected == {} && r.stale == {} }

  lemma UnmatchedBothWays(m: Differences, n: Differences)
    ensures Unmatched(m, n) == {} && Unmatched(n, m) == {} <==> m == n
  {
    if Unmatched(m, n) == {} && Unmatched(n, m) == {} {
      forall k ensures k in m <==> k in n { assert k !in Unmatched(m, n) && k !in Unmatched(n, m); }
      forall k | k in m ensures m[k] == n[k] { assert k !in Unmatched(m, n); }
    }
  }

  /** The judge part of the gate, and the recording of a new baseline. */
  method ExecuteGate(a: Arm, b: Arm, baseline: Differences, order: Order, writeBaseline: bool)
    returns (exitCode: int, recorded: Option<Differences>)
    ensures writeBaseline ==> exitCode == 0 && recorded == Some(Diff(a, b, order))
    ensures !writeBaseline ==> recorded.None? && (exitCode == 0 <==> Diff(a, b, order) == baseline)
  {
    var report := DiffResultsSymmetric(a, b, baseline, order);
    if writeBaseline { return 0, Some(report.differences); }
    UnmatchedBothWays(report.differences, baseline);
    return if Green(report) then 0 else 1, None;
  }

  /** A freshly recorded baseline re-judges green. */
  method RecordThenJudge(a: Arm, b: Arm, baseline: Differences, order: Order) returns (exitCode: int)
    ensures exitCode == 0
  {
    var _, recorded := ExecuteGate(a, b, baseline, order, true);
    var code, _ := ExecuteGate(a, b, recorded.value, order, false);
    return code;
  }

  // ----- swapping the arms

  function SwapEntry(e: Entry): Entry {
    if e.Some? then Some((e.value.0, Sides(e.value.1.execute, e.value.1.stock))) else None
  }

  function SwapSides(m: Differences): Differences {
    map k | k in m :: Sides(m[k].execute, m[k].stock)
  }

  lemma {:induction false} CollectSwapped(entry: string -> Entry, entry': string -> Entry, keys: seq<string>,
      acc: Differences)
    requires forall x :: entry'(x) == SwapEntry(entry(x))
    ensures Collect(entry', keys, SwapSides(acc)) == SwapSides(Collect(entry, keys, acc))
    decreases |keys|
  {
    if keys != [] {
      assert SwapSides(Put(acc, entry(keys[0]))) == Put(SwapSides(acc), entry'(keys[0]));
      CollectSwapped(entry, entry', keys[1..], Put(acc, entry(keys[0])));
    }
  }

  /** Exchanging the arms exchanges the sides of every difference and changes nothing else. */
  lemma SwappingArms(a: Arm, b: Arm, order: Order)
    ensures Diff(b, a, order) == SwapSides(Diff(a, b, order))
  {
    assert a.modules.Keys + b.modules.Keys == b.modules.Keys + a.modules.Keys;
    assert a.cases.Keys + b.cases.Keys == b.cases.Keys + a.cases.Keys;
    var moduleKeys, caseKeys := order(a.modules.Keys + b.modules.Keys), order(a.cases.Keys + b.cases.Keys);
    var empty: Differences := map[];
    assert SwapSides(empty) == empty;
    CollectSwapped(ModuleEntries(a, b), ModuleEntries(b, a), moduleKeys, empty);
    CollectSwapped(CaseEntries(a, b), CaseEntries(b, a), caseKeys, Collect(ModuleEntries(a, b), moduleKeys, empty));
  }

  // ----- the regression comparison

  datatype RegressionReport = RegressionReport(
    moduleRegressions: Differences, moduleWarnings: Differences, caseRegressions: Differences)

  predicate LostVerdict(v: string) {
    v == "fail" || v == "skip" || v == "crash" || v == "no_result" || v == "missing"
  }

  /** The module as a whole has no result, so its vanished cases are not repeated one by one. */
  predicate Silent(modules: map<string, string>, mod: string) {
    mod in modules && (modules[mod] == "no_result" || modules[mod] == "missing" || modules[mod] == "skip")
  }

  function HomeModule(names: seq<string>, key: string): string {
    Resolver.Resolved(Resolver.SortRequests(names), Elements(names), Resolver.Normalize(key))
  }

  function ModuleChange(a: Arm, b: Arm, mod: string): Option<Sides> {
    if mod in a.modules && a.modules[mod] != GetOr(b.modules, mod, "missing")
    then Some(Sides(a.modules[mod], GetOr(b.modules, mod, "missing"))) else None
  }

  predicate IsModuleRegression(v: Sides) { v.stock == "pass" && LostVerdict(v.execute) }

  /** A passing case regressed if it now fails, errs or is skipped, or vanished from a module that still reports. */
  predicate CaseRegressed(a: Arm, b: Arm, names: seq<string>, key: string) {
    key in a.cases && a.cases[key] == "pass" &&
    var state := GetOr(b.cases, key, "missing");
    || state == "failure" || state == "error" || state == "skipped"
    || (state == "missing" && !Silent(b.modules, HomeModule(names, key)))
  }

  function RegressionAt(a: Arm, b: Arm, mod: string): Option<Sides> {
    var c := ModuleChange(a, b, mod);
    if c.Some? && IsModuleRegression(c.value) then c else None
  }

  function WarningAt(a: Arm, b: Arm, mod: string): Option<Sides> {
    var c := ModuleChange(a, b, mod);
    if c.Some? && !IsModuleRegression(c.value) then c else None
  }

  function CaseRegressionAt(a: Arm, b: Arm, names: seq<string>, key: string): Option<Sides> {
    if CaseRegressed(a, b, names, key) then Some(Sides("pass", GetOr(b.cases, key, "missing"))) else None
  }

  /** A module whose verdict differs in the other arm, where it may be absent. */
  ghost predicate ModuleChanged(a: Arm, b: Arm, mod: string, s: Sides) {
    && mod in a.modules && s.stock == a.modules[mod] && s.execute != s.stock
    && if mod in b.modules then s.execute == b.modules[mod] else s.execute == "missing"
  }

  /** It passed, and now does not run to an end, is skipped or is absent. */
  ghost predicate ModuleRegressed(s: Sides) {
    s.stock == "pass" && s.execute in {"fail", "skip", "crash", "no_result", "missing"}
  }

  /**
    A case that passed and now fails, errs or is skipped; or is gone, from a module that is
    not itself gone or skipped.
  */
  ghost predicate CaseLost(a: Arm, b: Arm, home: string, key: string, s: Sides) {
    && key in a.cases && a.cases[key] == "pass" && s.stock == "pass"
    && if key in b.cases && b.cases[key] != "missing"
       then s.execute == b.cases[key] && s.execute in {"failure", "error", "skipped"}
       else s.execute == "missing" && (home in b.modules ==> b.modules[home] !in {"no_result", "missing", "skip"})
  }

  ghost predicate IsRegressionReport(a: Arm, b: Arm, names: seq<string>, r: RegressionReport) {
    && (forall mod, s :: At(r.moduleRegressions, mod) == Some(s) <==> ModuleChanged(a, b, mod, s) && ModuleRegressed(s))
    && (forall mod, s :: At(r.moduleWarnings, mod) == Some(s) <==> ModuleChanged(a, b, mod, s) && !ModuleRegressed(s))
    && (forall key, s :: At(r.caseRegressions, key) == Some(s) <==> CaseLost(a, b, HomeModule(names, key), key, s))
  }

  lemma ReportIsExact(a: Arm, b: Arm, names: seq<string>, r: RegressionReport)
    requires forall mod :: At(r.moduleRegressions, mod) == RegressionAt(a, b, mod)
    requires forall mod :: At(r.moduleWarnings, mod) == WarningAt(a, b, mod)
    requires forall key :: At(r.caseRegressions, key) == CaseRegressionAt(a, b, names, key)
    ensures IsRegressionReport(a, b, names, r)
  {
    hide HomeModule, CaseRegressed, CaseRegressionAt, CaseLost;
    forall mod, s ensures ModuleChange(a, b, mod) == Some(s) <==> ModuleChanged(a, b, mod, s) { }
    forall key, s
      ensures CaseRegressionAt(a, b, names, key) == Some(s) <==> CaseLost(a, b, HomeModule(names, key), key, s)
    {
      CaseLostExactly(a, b, names, key, s);
    }
  }

  lemma CaseLostExactly(a: Arm, b: Arm, names: seq<string>, key: string, s: Sides)
    ensures CaseRegressionAt(a, b, names, key) == Some(s) <==> CaseLost(a, b, HomeModule(names, key), key, s)
  {
    hide HomeModule;
  }

  method DiffResults(a: Arm, b: Arm, names: seq<string>) returns (r: RegressionReport)
    requires Elements(names) == a.modules.Keys
    ensures IsRegressionReport(a, b, names, r)
  {
    var regressions: Differences, warnings: Differences := map[], map[];
    var todo := a.modules.Keys;
    while todo != {}
      invariant todo <= a.modules.Keys
      invariant forall mod :: At(regressions, mod) == if mod in todo then None else RegressionAt(a, b, mod)
      invariant forall mod :: At(warnings, mod) == if mod in todo then None else WarningAt(a, b, mod)
      decreases |todo|
    {
      var mod :| mod in todo;
      todo := todo - {mod};
      var averdict, bverdict := a.modules[mod], GetOr(b.modules, mod, "missing");
      if averdict != bverdict {
        var entry := Sides(averdict, bverdict);
        if averdict == "pass" && LostVerdict(bverdict) {
          regressions := regressions[mod := entry];
        } else {
          warnings := warnings[mod := entry];
        }
      }
    }
    var caseRegressions := CollectCaseRegressions(a, b, names);
    r := RegressionReport(regressions, warnings, caseRegressions);
    ReportIsExact(a, b, names, r);
  }

  method CollectCaseRegressions(a: Arm, b: Arm, names: seq<string>) returns (caseRegressions: Differences)
    ensures forall key :: At(caseRegressions, key) == CaseRegressionAt(a, b, names, key)
  {
    caseRegressions := map[];
    var resolver := new Resolver.ModuleResolver(names, None);
    var cases := a.cases.Keys;
    while cases != {}
      invariant cases <= a.cases.Keys
      invariant resolver.Valid() && fresh(resolver)
      invariant forall key ::
        At(caseRegressions, key) == if key in cases then None else CaseRegressionAt(a, b, names, key)
      decreases |cases|
    {
      var key :| key in cases;
      cases := cases - {key};
      if a.cases[key] != "pass" { continue; }
      var bstate := GetOr(b.cases, key, "missing");
      if bstate == "failure" || bstate == "error" || bstate == "skipped" {
        caseRegressions := caseRegressions[key := Sides("pass", bstate)];
      } else if bstate == "missing" {
        var home := resolver.Resolve(key);
        if !Silent(b.modules, home) {
          caseRegressions := caseRegressions[key := Sides("pass", bstate)];
        }
      }
    }
  }

  /** Arms the symmetric judge finds no difference between have no regression and no warning either. */
  lemma NoDifferencesNoRegressions(a: Arm, b: Arm, order: Order, names: seq<string>)
    requires IsOrder(order) && Diff(a, b, order) == map[]
    ensures forall mod :: RegressionAt(a, b, mod).None? && WarningAt(a, b, mod).None?
    ensures forall key :: CaseRegressionAt(a, b, names, key).None?
  {
    EmptyIffAgree(a, b, order);
    forall mod ensures RegressionAt(a, b, mod).None? && WarningAt(a, b, mod).None? {
      assert GetOr(a.modules, mod, "missing") == GetOr(b.modules, mod, "missing");
    }
    forall key ensures CaseRegressionAt(a, b, names, key).None? {
      assert GetOr(a.cases, key, "missing") == GetOr(b.cases, key, "missing");
    }
  }
}

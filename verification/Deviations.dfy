/**
  Approval of registered deviations on top of the symmetric comparison: the comparer of the
  execution report and the one of the autocompile penetration report. A registered deviation
  must reproduce exactly and its diagnostic must carry a fingerprint; a module-level summary
  is excused only by concrete case differences of that module.
*/
module Deviations {
  import opened Basics
  import opened Text
  import opened SymmetricDiff

  datatype Verdict = Fail | ReviewRequired | PassWithDeviations | Pass

  predicate Passes(v: Verdict) { v.Pass? || v.PassWithDeviations? }

  /** A registered deviation, and whether the executed arm's diagnostic fits its fingerprint. */
  datatype Registration = Registration(testcase: string, sides: Sides, fits: bool)

  /** The allow-list of a dictionary comprehension: the last registration of a testcase counts. */
  function Allowed(regs: seq<Registration>): Differences {
    if regs == [] then map[]
    else
      var last := regs[|regs| - 1];
      Allowed(regs[..|regs| - 1])[last.testcase := last.sides]
  }

  lemma {:induction false} AllowedKeys(regs: seq<Registration>, k: string)
    ensures k in Allowed(regs) <==> exists i :: 0 <= i < |regs| && regs[i].testcase == k
    decreases |regs|
  {
    if regs != [] {
      var pre := regs[..|regs| - 1];
      AllowedKeys(pre, k);
      assert forall i :: 0 <= i < |pre| ==> pre[i] == regs[i];
      if k == regs[|regs| - 1].testcase { assert regs[|regs| - 1].testcase == k; }
    }
  }

  // ----- what a pass means

  /**
    Every registered testcase reproduces as registered, every difference is registered or
    excused, and every fingerprint fits unless its testcase is excused.
  */
  ghost predicate Approved(d: Differences, regs: seq<Registration>, excused: set<string>) {
    && (forall k :: k in Allowed(regs) ==> At(d, k) == Some(Allowed(regs)[k]))
    && (forall k :: k in d ==> At(Allowed(regs), k) == Some(d[k]) || k in excused)
    && (forall i :: 0 <= i < |regs| ==> regs[i].fits || regs[i].testcase in excused)
  }

  datatype Outcome = Outcome(remaining: Differences, unexpected: set<string>, stale: set<string>, verdict: Verdict)

  function Judge(remaining: Differences, unexpected: set<string>, stale: set<string>): Verdict {
    if unexpected != {} then Fail
    else if stale != {} then ReviewRequired
    else if remaining != map[] then PassWithDeviations
    else Pass
  }

  /** bad holds the testcases that reproduce as registered but whose diagnostic does not fit. */
  ghost predicate Misfits(d: Differences, regs: seq<Registration>, bad: set<string>) {
    forall k :: k in bad <==> exists i ::
      0 <= i < |regs| && regs[i].testcase == k && !regs[i].fits && At(d, k) == At(Allowed(regs), k)
  }

  ghost predicate IsLast(regs: seq<Registration>, i: nat, k: string, s: Sides) {
    && i < |regs| && regs[i].testcase == k && regs[i].sides == s
    && forall j :: i < j < |regs| ==> regs[j].testcase != k
  }

  /** The last registration of k says s. */
  ghost predicate Registered(regs: seq<Registration>, k: string, s: Sides) {
    exists i: nat :: i < |regs| && IsLast(regs, i, k, s)
  }

  lemma {:induction false} AllowedIsLast(regs: seq<Registration>, k: string, s: Sides)
    ensures At(Allowed(regs), k) == Some(s) <==> Registered(regs, k, s)
    decreases |regs|
  {
    if regs != [] {
      var pre, last := regs[..|regs| - 1], |regs| - 1;
      AllowedIsLast(pre, k, s);
      forall i | 0 <= i < last ensures IsLast(regs, i, k, s) <==> IsLast(pre, i, k, s) && regs[last].testcase != k { }
      if regs[last].testcase == k {
        assert IsLast(regs, last, k, regs[last].sides);
        forall i | 0 <= i < |regs| && IsLast(regs, i, k, s) ensures i == last { }
      } else if Registered(pre, k, s) {
        var i :| 0 <= i < |pre| && IsLast(pre, i, k, s);
        assert IsLast(regs, i, k, s);
      }
    }
  }

  /**
    A difference that nothing excuses and that is not registered as it is, or whose registered
    fingerprint does not fit.
  */
  ghost predicate IsUnexpected(d: Differences, regs: seq<Registration>, excused: set<string>, k: string) {
    && k in d && k !in excused
    && (!Registered(regs, k, d[k]) || exists i :: 0 <= i < |regs| && regs[i].testcase == k && !regs[i].fits)
  }

  /** A registered testcase that does not come out as registered. */
  ghost predicate IsStale(d: Differences, regs: seq<Registration>, k: string) {
    exists s :: Registered(regs, k, s) && !(k in d && d[k] == s)
  }

  /**
    The outcome of a comparison in terms of the differences and the registrations: what is
    unexpected, what is stale, what remains, and the verdict, worst first. It passes exactly
    when the differences are approved.
  */
  ghost predicate Settles(r: Outcome, d: Differences, regs: seq<Registration>, excused: set<string>) {
    && (forall k :: k in r.unexpected <==> IsUnexpected(d, regs, excused, k))
    && (forall k :: k in r.stale <==> IsStale(d, regs, k))
    && (forall k :: k in r.remaining <==> k in d && k !in excused)
    && (forall k :: k in r.remaining ==> r.remaining[k] == d[k])
    && (r.verdict == Fail <==> exists k :: IsUnexpected(d, regs, excused, k))
    && (r.verdict == ReviewRequired <==>
          (forall k :: !IsUnexpected(d, regs, excused, k)) && exists k :: IsStale(d, regs, k))
    && (r.verdict == Pass ==> d.Keys <= excused)
    && (r.verdict == PassWithDeviations ==> exists k :: k in d && k !in excused)
    && (Passes(r.verdict) <==> Approved(d, regs, excused))
  }

  lemma UnexpectedAreUnmatched(d: Differences, regs: seq<Registration>, bad: set<string>, excused: set<string>,
      k: string)
    requires Misfits(d, regs, bad)
    ensures k in Unmatched(d, Allowed(regs)) + bad - excused <==> IsUnexpected(d, regs, excused, k)
  {
    if k in d { AllowedIsLast(regs, k, d[k]); }
    AllowedKeys(regs, k);
  }

  lemma StaleAreUnmatched(d: Differences, regs: seq<Registration>, k: string)
    ensures k in Unmatched(Allowed(regs), d) <==> IsStale(d, regs, k)
  {
    if k in Allowed(regs) { AllowedIsLast(regs, k, Allowed(regs)[k]); }
    forall s | Registered(regs, k, s) ensures k in Allowed(regs) && Allowed(regs)[k] == s { AllowedIsLast(regs, k, s); }
  }

  /**
    The outcome settles the differences; if it passes and only backed summaries are excused,
    approval does not widen.
  */
  lemma OutcomeIsSound(d: Differences, regs: seq<Registration>, bad: set<string>, excused: set<string>, r: Outcome)
    requires Misfits(d, regs, bad) && excused <= BackedSet(d)
    requires r.unexpected == Unmatched(d, Allowed(regs)) + bad - excused
    requires r.stale == Unmatched(Allowed(regs), d) && r.remaining == Without(d, excused)
    requires r.verdict == Judge(r.remaining, r.unexpected, r.stale)
    ensures Settles(r, d, regs, excused) && (Passes(r.verdict) ==> OnlyRegistered(d, regs))
  {
    OutcomeSettles(d, regs, bad, excused, r);
    if Passes(r.verdict) { ApprovalCannotWiden(d, regs, excused); }
  }

  lemma OutcomeSettles(d: Differences, regs: seq<Registration>, bad: set<string>, excused: set<string>, r: Outcome)
    requires Misfits(d, regs, bad)
    requires r.unexpected == Unmatched(d, Allowed(regs)) + bad - excused
    requires r.stale == Unmatched(Allowed(regs), d) && r.remaining == Without(d, excused)
    requires r.verdict == Judge(r.remaining, r.unexpected, r.stale)
    ensures Settles(r, d, regs, excused)
  {
    hide Allowed, Approved, Misfits, Unmatched, IsUnexpected, IsStale;
    ApprovedIff(d, regs, bad, excused);
    forall k ensures k in r.unexpected <==> IsUnexpected(d, regs, excused, k) {
      UnexpectedAreUnmatched(d, regs, bad, excused, k);
    }
    forall k ensures k in r.stale <==> IsStale(d, regs, k) { StaleAreUnmatched(d, regs, k); }
    VerdictMeans(r, d, regs, excused);
  }

  lemma VerdictMeans(r: Outcome, d: Differences, regs: seq<Registration>, excused: set<string>)
    requires r.verdict == Judge(r.remaining, r.unexpected, r.stale) && r.remaining == Without(d, excused)
    requires forall k :: k in r.unexpected <==> IsUnexpected(d, regs, excused, k)
    requires forall k :: k in r.stale <==> IsStale(d, regs, k)
    ensures r.verdict == Fail <==> exists k :: IsUnexpected(d, regs, excused, k)
    ensures r.verdict == ReviewRequired <==>
      (forall k :: !IsUnexpected(d, regs, excused, k)) && exists k :: IsStale(d, regs, k)
    ensures r.verdict == Pass ==> d.Keys <= excused
    ensures r.verdict == PassWithDeviations ==> exists k :: k in d && k !in excused
    ensures Passes(r.verdict) <==> r.unexpected == {} && r.stale == {}
  {
    hide IsUnexpected, IsStale;
    if r.unexpected != {} { var k :| k in r.unexpected; }
    if r.stale != {} { var k :| k in r.stale; }
    if r.remaining != map[] { var k :| k in r.remaining; }
    if r.verdict == Pass {
      forall k | k in d ensures k in excused { assert k !in r.remaining; }
    }
  }

  /** The loop over the registrations: those that reproduce but whose diagnostic does not fit. */
  method CheckFingerprints(d: Differences, regs: seq<Registration>) returns (bad: set<string>)
    ensures Misfits(d, regs, bad)
  {
    bad := {};
    var allowed := Allowed(regs);
    for n := 0 to |regs|
      invariant forall k :: k in bad <==> exists i ::
        0 <= i < n && regs[i].testcase == k && !regs[i].fits && At(d, k) == At(allowed, k)
    {
      if At(d, regs[n].testcase) != At(allowed, regs[n].testcase) { continue; }
      if !regs[n].fits { bad := bad + {regs[n].testcase}; }
    }
  }

  /** Emptiness of what is left to complain about, said in terms of the raw differences. */
  lemma ApprovedIff(d: Differences, regs: seq<Registration>, bad: set<string>, excused: set<string>)
    requires Misfits(d, regs, bad)
    ensures Unmatched(d, Allowed(regs)) + bad - excused == {} && Unmatched(Allowed(regs), d) == {} <==>
      Approved(d, regs, excused)
  {
    var a := Allowed(regs);
    if Unmatched(d, a) + bad - excused == {} && Unmatched(a, d) == {} {
      forall k | k in a ensures At(d, k) == Some(a[k]) { assert k !in Unmatched(a, d); }
      forall k | k in d ensures At(a, k) == Some(d[k]) || k in excused {
        assert k !in Unmatched(d, a) + bad - excused;
      }
      forall i | 0 <= i < |regs| ensures regs[i].fits || regs[i].testcase in excused {
        AllowedKeys(regs, regs[i].testcase);
        assert regs[i].testcase !in Unmatched(d, a) + bad - excused;
      }
    }
    if Approved(d, regs, excused) {
      forall k ensures k !in Unmatched(d, a) + bad - excused && k !in Unmatched(a, d) { }
    }
  }

  // ----- which summaries are excused

  const DIS_MODULE: string := "<module> test_dis"
  const DIS_PREFIX: string := "test.test_dis."

  predicate IsModuleKey(k: string) { StartsWith(k, MODULE_TAG) }

  function CasePrefix(k: string): string
    requires IsModuleKey(k)
  {
    "test." + k[|MODULE_TAG|..] + "."
  }

  /** The module-level difference k is backed by a difference of one of the module's cases. */
  ghost predicate Backed(d: Differences, k: string) {
    IsModuleKey(k) && exists c :: c in d && !IsModuleKey(c) && StartsWith(c, CasePrefix(k))
  }

  function Concrete(d: Differences): set<string> {
    set k | k in d && StartsWith(k, DIS_PREFIX)
  }

  /**
    The test_dis module went from pass to fail, some test_dis case differs, and every one that
    differs is registered.
  */
  ghost predicate CoversTestDis(d: Differences, regs: seq<Registration>) {
    && "<module> test_dis" in d && d["<module> test_dis"] == Sides("pass", "fail")
    && (exists c :: c in d && StartsWith(c, "test.test_dis."))
    && (forall c :: c in d && StartsWith(c, "test.test_dis.") ==>
          exists i :: 0 <= i < |regs| && regs[i].testcase == c)
  }

  lemma DisExcusedIff(d: Differences, regs: seq<Registration>)
    ensures DisExcused(d, Allowed(regs)) <==> CoversTestDis(d, regs)
  {
    forall c ensures c in Allowed(regs).Keys <==> exists i :: 0 <= i < |regs| && regs[i].testcase == c {
      AllowedKeys(regs, c);
    }
    if exists c :: c in d && StartsWith(c, "test.test_dis.") {
      var c :| c in d && StartsWith(c, "test.test_dis.");
      assert c in Concrete(d);
    }
    if Concrete(d) != {} {
      var c :| c in Concrete(d);
      assert StartsWith(c, "test.test_dis.");
    }
    if DisExcused(d, Allowed(regs)) {
      forall c | c in d && StartsWith(c, "test.test_dis.")
        ensures exists i :: 0 <= i < |regs| && regs[i].testcase == c
      {
        assert c in Concrete(d) && c in Allowed(regs).Keys;
      }
    }
    if CoversTestDis(d, regs) {
      forall c | c in Concrete(d) ensures c in Allowed(regs).Keys { assert StartsWith(c, "test.test_dis."); }
    }
  }

  /** The test_dis summary may go when its concrete differences exist and are all registered. */
  predicate DisExcused(d: Differences, allowed: Differences) {
    At(d, DIS_MODULE) == Some(Sides("pass", "fail")) && Concrete(d) != {} && Concrete(d) <= allowed.Keys
  }

  lemma DisExcusedIsBacked(d: Differences, allowed: Differences)
    requires DisExcused(d, allowed)
    ensures Backed(d, DIS_MODULE)
  {
    var c :| c in Concrete(d);
    assert DIS_MODULE[..|MODULE_TAG|] == MODULE_TAG;
    assert DIS_MODULE[|MODULE_TAG|..] == "test_dis";
    assert CasePrefix(DIS_MODULE) == DIS_PREFIX;
    assert c[..|DIS_PREFIX|][0] == 't';
    assert |c| >= |MODULE_TAG| ==> c[..|MODULE_TAG|][0] == 't';
  }

  /** Differences without the excused ones. */
  function Without(d: Differences, keys: set<string>): Differences { d - keys }

  // ----- the execution report

  datatype Deviation = Deviation(testcase: string, lane: string, stock: string, jit: string, required: seq<string>)

  function InLane(items: seq<Deviation>, lane: string): seq<Deviation> {
    if items == [] then []
    else if items[0].lane == lane then [items[0]] + InLane(items[1..], lane)
    else InLane(items[1..], lane)
  }

  ghost predicate DistinctTestcases(entries: seq<Deviation>) {
    forall i, j :: 0 <= i < j < |entries| ==> entries[i].testcase != entries[j].testcase
  }

  /** No two entries of the lane name the same testcase. */
  ghost predicate DistinctInLane(items: seq<Deviation>, lane: string) {
    forall i, j :: 0 <= i < j < |items| && items[i].lane == lane && items[j].lane == lane ==>
      items[i].testcase != items[j].testcase
  }

  lemma DistinctCons(first: Deviation, rest: seq<Deviation>)
    ensures DistinctTestcases([first] + rest) <==>
      (DistinctTestcases(rest) && forall e :: e in rest ==> e.testcase != first.testcase)
  {
    var all := [first] + rest;
    assert forall i :: 0 <= i < |rest| ==> all[i + 1] == rest[i];
    if DistinctTestcases(all) {
      forall i, j | 0 <= i < j < |rest| ensures rest[i].testcase != rest[j].testcase {
        assert all[i + 1].testcase != all[j + 1].testcase;
      }
      forall e | e in rest ensures e.testcase != first.testcase {
        var i :| 0 <= i < |rest| && rest[i] == e;
        assert all[0].testcase != all[i + 1].testcase;
      }
    }
  }

  /** The entries kept are those of the lane. */
  lemma {:induction false} InLaneExactly(items: seq<Deviation>, lane: string)
    ensures forall e :: e in InLane(items, lane) <==> e in items && e.lane == lane
    ensures DistinctTestcases(InLane(items, lane)) <==> DistinctInLane(items, lane)
    decreases |items|
  {
    hide DistinctTestcases, DistinctInLane;
    if items != [] {
      InLaneExactly(items[1..], lane);
      assert items == [items[0]] + items[1..];
      DistinctCons(items[0], InLane(items[1..], lane));
      LaterAreDistinct(items, lane);
    } else {
      NoneIsDistinct(lane);
    }
  }

  lemma NoneIsDistinct(lane: string)
    ensures DistinctTestcases([]) && DistinctInLane([], lane)
  {
  }

  lemma FirstIsDistinct(items: seq<Deviation>, lane: string, e: Deviation)
    requires items != [] && items[0].lane == lane && e in items[1..] && e.lane == lane && DistinctInLane(items, lane)
    ensures e.testcase != items[0].testcase
  {
    var k :| 0 <= k < |items[1..]| && items[1..][k] == e;
    assert items[k + 1] == e;
  }

  /** What the lane's entries say, without the first item. */
  lemma LaterAreDistinct(items: seq<Deviation>, lane: string)
    requires items != []
    ensures DistinctInLane(items, lane) <==>
      (&& DistinctInLane(items[1..], lane)
       && (items[0].lane == lane ==> forall e :: e in items[1..] && e.lane == lane ==> e.testcase != items[0].testcase))
  {
    var rest := items[1..];
    if DistinctInLane(items, lane) {
      forall i, j | 0 <= i < j < |rest| && rest[i].lane == lane && rest[j].lane == lane
        ensures rest[i].testcase != rest[j].testcase
      {
        assert rest[i] == items[i + 1] && rest[j] == items[j + 1];
      }
      forall e | e in rest && e.lane == lane && items[0].lane == lane ensures e.testcase != items[0].testcase {
        FirstIsDistinct(items, lane, e);
      }
    } else {
      var i, j :| 0 <= i < j < |items| && items[i].lane == lane && items[j].lane == lane &&
        items[i].testcase == items[j].testcase;
      assert items[j] == rest[j - 1] && items[j] in rest;
      if i > 0 { assert items[i] == rest[i - 1]; }
    }
  }

  /** The registered deviations of one lane; a testcase registered twice is an error. */
  method LoadDeviations(items: seq<Deviation>, lane: string) returns (r: Result<Differences>)
    ensures r.Ok? <==> DistinctInLane(items, lane)
    ensures r.Ok? ==> forall e :: e in items && e.lane == lane ==>
      At(r.value, e.testcase) == Some(Sides(e.stock, e.jit))
    ensures r.Ok? ==> forall k :: k in r.value ==> exists e :: e in items && e.lane == lane && e.testcase == k
  {
    hide InLane, DistinctTestcases, DistinctInLane;
    InLaneExactly(items, lane);
    r := LoadEntries(InLane(items, lane));
  }

  method LoadEntries(entries: seq<Deviation>) returns (r: Result<Differences>)
    ensures r.Ok? <==> DistinctTestcases(entries)
    ensures r.Ok? ==> forall e :: e in entries ==> At(r.value, e.testcase) == Some(Sides(e.stock, e.jit))
    ensures r.Ok? ==> forall k :: k in r.value ==> exists e :: e in entries && e.testcase == k
  {
    var allowed: Differences := map[];
    for n := 0 to |entries|
      invariant forall i, j :: 0 <= i < j < n ==> entries[i].testcase != entries[j].testcase
      invariant forall i :: 0 <= i < n ==>
        At(allowed, entries[i].testcase) == Some(Sides(entries[i].stock, entries[i].jit))
      invariant forall k :: k in allowed ==> exists i :: 0 <= i < n && entries[i].testcase == k
    {
      var testcase := entries[n].testcase;
      if testcase in allowed {
        return Err("duplicate deviation testcase");
      }
      allowed := allowed[testcase := Sides(entries[n].stock, entries[n].jit)];
    }
    assert forall i :: 0 <= i < |entries| ==> entries[i] in entries;
    return Ok(allowed);
  }

  predicate HasAll(diagnostic: string, required: seq<string>) {
    forall i :: 0 <= i < |required| ==> Contains(diagnostic, required[i])
  }

  function Registrations(entries: seq<Deviation>, execute: Arm): (r: seq<Registration>)
    ensures |r| == |entries|
  {
    seq(|entries|, i requires 0 <= i < |entries| =>
      var e := entries[i];
      Registration(e.testcase, Sides(e.stock, e.jit), HasAll(GetOr(execute.diagnostics, e.testcase, ""), e.required)))
  }

  lemma {:induction false} AllowedOfDistinct(regs: seq<Registration>, i: nat)
    requires i < |regs| && forall j, k :: 0 <= j < k < |regs| ==> regs[j].testcase != regs[k].testcase
    ensures At(Allowed(regs), regs[i].testcase) == Some(regs[i].sides)
    decreases |regs|
  {
    if i < |regs| - 1 {
      AllowedOfDistinct(regs[..|regs| - 1], i);
    }
  }

  /** What a loaded allow-list and the registrations of its entries have in common. */
  lemma LoadedIsAllowed(entries: seq<Deviation>, execute: Arm, allowed: Differences)
    requires DistinctTestcases(entries)
    requires forall e :: e in entries ==> At(allowed, e.testcase) == Some(Sides(e.stock, e.jit))
    requires forall k :: k in allowed ==> exists e :: e in entries && e.testcase == k
    ensures allowed == Allowed(Registrations(entries, execute))
  {
    var regs := Registrations(entries, execute);
    forall k ensures At(allowed, k) == At(Allowed(regs), k) {
      AllowedKeys(regs, k);
      if i :| 0 <= i < |entries| && entries[i].testcase == k {
        assert regs[i].testcase == k && entries[i] in entries;
        AllowedOfDistinct(regs, i);
      } else {
        assert forall i :: 0 <= i < |regs| ==> regs[i].testcase == entries[i].testcase;
      }
    }
    SameLookups(allowed, Allowed(regs));
  }

  ghost function DisExcusedSet(d: Differences, allowed: Differences): set<string> {
    if DisExcused(d, allowed) then {DIS_MODULE} else {}
  }

  /** compare_with_deviations: it passes exactly when the differences are approved, and approval does not widen. */
  method CompareWithDeviations(stock: Arm, execute: Arm, items: seq<Deviation>, order: Order)
    returns (r: Result<Outcome>)
    ensures r.Ok? <==> DistinctInLane(items, "C")
    ensures r.Ok? ==>
      var d, regs := Diff(stock, execute, order), Registrations(InLane(items, "C"), execute);
      && Settles(r.value, d, regs, if CoversTestDis(d, regs) then {"<module> test_dis"} else {})
      && (Passes(r.value.verdict) ==> OnlyRegistered(d, regs))
  {
    hide Misfits, Settles, OnlyRegistered, Approved, Diff, Unmatched, BackedSet, Judge, Registrations, Allowed, InLane;
    hide CoversTestDis;
    var loaded := LoadDeviations(items, "C");
    if loaded.Err? { return Err(loaded.message); }
    var allowed := loaded.value;
    var entries := InLane(items, "C");
    var regs := Registrations(entries, execute);
    InLaneExactly(items, "C");
    LoadedIsAllowed(entries, execute, allowed);
    var raw := DiffResultsSymmetric(stock, execute, allowed, order);
    var bad := CheckFingerprints(raw.differences, regs);
    var unexpected, differences := raw.unexpected + bad, raw.differences;
    ghost var excused := DisExcusedSet(raw.differences, allowed);
    if DisExcused(raw.differences, allowed) {
      unexpected := unexpected - {DIS_MODULE};
      differences := differences - {DIS_MODULE};
    }
    var outcome := Outcome(differences, unexpected, raw.stale, Judge(differences, unexpected, raw.stale));
    assert unexpected == raw.unexpected + bad - excused && differences == Without(raw.differences, excused);
    ExcusedAreBacked(raw.differences, allowed);
    DisExcusedIff(raw.differences, regs);
    OutcomeIsSound(raw.differences, regs, bad, excused, outcome);
    r := Ok(outcome);
  }

  // ----- the penetration report

  /** Full match of a pattern, with its lhs and rhs groups read as numbers. */
  type FullMatch = (string, string) -> Option<(int, int)>

  datatype NumericSpec = NumericSpec(regex: string, direction: string, expected: int)

  datatype Item = Item(testcase: string, stock: string, aggressive: string,
                       fingerprint: seq<string>, regexes: seq<string>, numeric: Option<NumericSpec>)

  predicate NumericFits(fullmatch: FullMatch, spec: Option<NumericSpec>, diagnostic: string) {
    spec.None? ||
    (var m := fullmatch(spec.value.regex, diagnostic);
     m.Some? && spec.value.direction == "rhs_minus_lhs" && m.value.1 - m.value.0 == spec.value.expected)
  }

  predicate Fits(fullmatch: FullMatch, item: Item, diagnostic: string) {
    && HasAll(diagnostic, item.fingerprint)
    && (forall i :: 0 <= i < |item.regexes| ==> fullmatch(item.regexes[i], diagnostic).Some?)
    && NumericFits(fullmatch, item.numeric, diagnostic)
  }

  /**
    An item's fingerprint: its parts occur, its patterns match, and its second number is the
    first plus the expected delta.
  */
  lemma FitsExactly(fullmatch: FullMatch, item: Item, diagnostic: string)
    ensures Fits(fullmatch, item, diagnostic) <==>
      && (forall part :: part in item.fingerprint ==>
          exists i: nat :: i <= |diagnostic| && OccursAt(diagnostic, part, i))
      && (forall pattern :: pattern in item.regexes ==> fullmatch(pattern, diagnostic) != None)
      && (item.numeric.Some? ==>
            var spec := item.numeric.value;
            && spec.direction == "rhs_minus_lhs"
            && fullmatch(spec.regex, diagnostic).Some?
            && var (lhs, rhs) := fullmatch(spec.regex, diagnostic).value; rhs == lhs + spec.expected)
  {
    forall part | part in item.fingerprint
      ensures Contains(diagnostic, part) <==> exists i: nat :: i <= |diagnostic| && OccursAt(diagnostic, part, i) { }
  }

  function ItemRegistrations(fullmatch: FullMatch, items: seq<Item>, aggressive: Arm): (r: seq<Registration>)
    ensures |r| == |items|
  {
    seq(|items|, i requires 0 <= i < |items| =>
      var e := items[i];
      Registration(e.testcase, Sides(e.stock, e.aggressive),
        Fits(fullmatch, e, GetOr(aggressive.diagnostics, e.testcase, ""))))
  }

  ghost function BackedSet(d: Differences): set<string> {
    set k | k in d && Backed(d, k)
  }

  /** Is some case difference of this module in d? */
  method IsBacked(d: Differences, k: string) returns (yes: bool)
    requires IsModuleKey(k)
    ensures yes <==> Backed(d, k)
  {
    var todo := d.Keys;
    while todo != {}
      invariant todo <= d.Keys
      invariant forall c :: c in d && c !in todo && !IsModuleKey(c) ==> !StartsWith(c, CasePrefix(k))
      decreases |todo|
    {
      var c :| c in todo;
      if !IsModuleKey(c) && StartsWith(c, CasePrefix(k)) { return true; }
      todo := todo - {c};
    }
    return false;
  }

  lemma BackedDespiteRemoval(d: Differences, keys: set<string>, k: string)
    requires forall x :: x in keys ==> IsModuleKey(x)
    ensures Backed(d - keys, k) <==> Backed(d, k)
  {
    if Backed(d, k) {
      var c :| c in d && !IsModuleKey(c) && StartsWith(c, CasePrefix(k));
      assert c in d - keys;
    }
  }

  /** Pop the module-level differences that case differences back, one by one, from a shrinking dictionary. */
  method PopDerived(d: Differences) returns (rest: Differences, popped: set<string>)
    ensures popped == BackedSet(d) && rest == Without(d, popped)
  {
    rest, popped := d, {};
    var todo := d.Keys;
    while todo != {}
      invariant todo <= d.Keys
      invariant forall k :: k in popped <==> k in d && k !in todo && Backed(d, k)
      invariant rest == d - popped
      decreases |todo|
    {
      var key :| key in todo;
      todo := todo - {key};
      if IsModuleKey(key) {
        var backed := IsBacked(rest, key);
        BackedDespiteRemoval(d, popped, key);
        if backed {
          rest := rest - {key};
          popped := popped + {key};
        }
      }
    }
  }

  lemma ConcreteKeepsPrefix(d: Differences, k: string)
    requires k == DIS_MODULE && IsModuleKey(k)
    ensures forall x :: Backed(d - {k}, x) <==> Backed(d, x)
  {
    forall x ensures Backed(d - {k}, x) <==> Backed(d, x) { BackedDespiteRemoval(d, {k}, x); }
  }

  /**
    compare_penetration: it passes exactly when the differences are approved, backed summaries
    being excused, and approval does not widen.
  */
  method ComparePenetration(stock: Arm, aggressive: Arm, items: seq<Item>, fullmatch: FullMatch, order: Order)
    returns (r: Outcome)
    ensures var d, regs := Diff(stock, aggressive, order), ItemRegistrations(fullmatch, items, aggressive);
      Settles(r, d, regs, BackedSet(d)) && (Passes(r.verdict) ==> OnlyRegistered(d, regs))
  {
    var regs := ItemRegistrations(fullmatch, items, aggressive);
    var allowed := Allowed(regs);
    var report := DiffResultsSymmetric(stock, aggressive, allowed, order);
    var d := report.differences;
    var bad := CheckFingerprints(d, regs);
    var dis := DisExcused(d, allowed);
    var rest, popped := PopSummaries(d, allowed, dis);
    var unexpected := report.unexpected + bad - popped;
    r := Outcome(rest, unexpected, report.stale, Judge(rest, unexpected, report.stale));
    OutcomeIsSound(d, regs, bad, BackedSet(d), r);
  }

  /** The test_dis summary first, if it is excused, then every other backed summary. */
  method PopSummaries(d: Differences, ghost allowed: Differences, dis: bool)
    returns (rest: Differences, popped: set<string>)
    requires dis == DisExcused(d, allowed)
    ensures popped == BackedSet(d) && rest == Without(d, popped)
  {
    if !dis {
      rest, popped := PopDerived(d);
      return;
    }
    DisExcusedIsBacked(d, allowed);
    ConcreteKeepsPrefix(d, DIS_MODULE);
    rest, popped := PopDerived(d - {DIS_MODULE});
    popped := popped + {DIS_MODULE};
  }

  // ----- approval cannot widen

  /**
    Apart from module summaries the differences are exactly the registered ones, with every
    fingerprint fitting, and every module summary that is not registered as it is has a
    concrete case difference in the same module.
  */
  ghost predicate OnlyRegistered(d: Differences, regs: seq<Registration>) {
    && (forall k :: !IsModuleKey(k) ==> At(d, k) == At(Allowed(regs), k))
    && (forall i :: 0 <= i < |regs| && !IsModuleKey(regs[i].testcase) ==> regs[i].fits)
    && (forall k :: k in d && At(Allowed(regs), k) != Some(d[k]) ==> Backed(d, k))
  }

  /** Excusing only backed module summaries does not widen an approval. */
  lemma ApprovalCannotWiden(d: Differences, regs: seq<Registration>, excused: set<string>)
    requires Approved(d, regs, excused) && excused <= BackedSet(d)
    ensures OnlyRegistered(d, regs)
  {
    forall k | !IsModuleKey(k) ensures At(d, k) == At(Allowed(regs), k) {
      if k in d { assert k !in excused; }
    }
  }

  /** Both comparers excuse only backed summaries. */
  lemma ExcusedAreBacked(d: Differences, allowed: Differences)
    ensures DisExcusedSet(d, allowed) <= BackedSet(d)
  {
    if DisExcused(d, allowed) { DisExcusedIsBacked(d, allowed); }
  }

  // ----- fingerprints on module summaries

  ghost predicate AllFit(regs: seq<Registration>) {
    forall i :: 0 <= i < |regs| ==> regs[i].fits
  }

  /** The registry names a module summary together with a case of that module. */
  ghost predicate NamesSummaryAndCase(testcases: seq<string>) {
    exists i, j :: 0 <= i < |testcases| && 0 <= j < |testcases| && IsModuleKey(testcases[i])
      && !IsModuleKey(testcases[j]) && StartsWith(testcases[j], CasePrefix(testcases[i]))
  }

  /** regs registers these testcases, whatever was observed. */
  ghost predicate Registers(regs: seq<Registration>, testcases: seq<string>) {
    |regs| == |testcases| && forall i :: 0 <= i < |regs| ==> regs[i].testcase == testcases[i]
  }

  lemma UnfitNeedsSummaryAndCase(d: Differences, regs: seq<Registration>, testcases: seq<string>)
    requires Registers(regs, testcases) && Approved(d, regs, BackedSet(d)) && !AllFit(regs)
    ensures NamesSummaryAndCase(testcases)
  {
    var i :| 0 <= i < |regs| && !regs[i].fits;
    var k := testcases[i];
    assert k in BackedSet(d);
    var c :| c in d && !IsModuleKey(c) && StartsWith(c, CasePrefix(k));
    AllowedKeys(regs, c);
    var j :| 0 <= j < |regs| && regs[j].testcase == c;
    assert testcases[j] == c;
  }

  /** A run of these cases that all end in this state. */
  function CasesEnding(testcases: seq<string>, state: string): Arm {
    Arm(map[], map k | k in testcases :: state, map[])
  }

  lemma FirstIsMember(s: seq<string>)
    ensures s != [] ==> exists x :: x in s
  {
    if s != [] { assert s[0] in s; }
  }

  lemma DiffOfCasesEnding(testcases: seq<string>, order: Order, k: string)
    requires IsOrder(order)
    ensures At(Diff(CasesEnding(testcases, "pass"), CasesEnding(testcases, "fail"), order), k) ==
      if k in testcases then Some(Sides("pass", "fail")) else None
  {
    var a, b := CasesEnding(testcases, "pass"), CasesEnding(testcases, "fail");
    var keys := order(a.cases.Keys + b.cases.Keys);
    var modules := order(a.modules.Keys + b.modules.Keys);
    FirstIsMember(modules);
    CollectAt(CaseEntries(a, b), keys, map[], k, Sides("pass", "fail"));
    if k in testcases { assert k in keys && CaseEntries(a, b)(k).Some?; }
  }

  /** Registers every testcase as failing, and one of them with a fingerprint. */
  function FailingItems(testcases: seq<string>, marked: string): (r: seq<Item>)
    ensures |r| == |testcases|
  {
    seq(|testcases|, i requires 0 <= i < |testcases| =>
      Item(testcases[i], "pass", "fail", if testcases[i] == marked then ["x"] else [], [], None))
  }

  lemma FailingItemsFit(testcases: seq<string>, marked: string, fullmatch: FullMatch, i: nat)
    requires i < |testcases|
    ensures var regs := ItemRegistrations(fullmatch, FailingItems(testcases, marked), CasesEnding(testcases, "fail"));
      regs[i] == Registration(testcases[i], Sides("pass", "fail"), testcases[i] != marked)
  {
    var item := FailingItems(testcases, marked)[i];
    if testcases[i] == marked { assert !Contains("", item.fingerprint[0]); }
  }

  lemma {:induction false} AllowedAlike(regs: seq<Registration>, sides: string -> Sides, k: string)
    requires forall i :: 0 <= i < |regs| ==> regs[i].sides == sides(regs[i].testcase)
    ensures k in Allowed(regs) ==> Allowed(regs)[k] == sides(k)
    decreases |regs|
  {
    if regs != [] { AllowedAlike(regs[..|regs| - 1], sides, k); }
  }

  /** The comparison passes (see ComparePenetration) although some registered fingerprint does not fit. */
  ghost predicate PassesUnfit(stock: Arm, aggressive: Arm, items: seq<Item>, fullmatch: FullMatch, order: Order) {
    var d, regs := Diff(stock, aggressive, order), ItemRegistrations(fullmatch, items, aggressive);
    Approved(d, regs, BackedSet(d)) && !AllFit(regs)
  }

  /** The items register these testcases, in whatever way. */
  ghost predicate ItemsFor(items: seq<Item>, testcases: seq<string>) {
    |items| == |testcases| && forall i :: 0 <= i < |items| ==> items[i].testcase == testcases[i]
  }

  lemma AlikeApproved(d: Differences, regs: seq<Registration>, testcases: seq<string>, marked: string,
      sides: string -> Sides)
    requires |regs| == |testcases|
    requires forall i :: 0 <= i < |regs| ==>
      regs[i] == Registration(testcases[i], sides(testcases[i]), testcases[i] != marked)
    requires forall k :: At(d, k) == if k in testcases then Some(sides(k)) else None
    requires Backed(d, marked) && marked in d
    ensures Approved(d, regs, BackedSet(d))
  {
    forall k ensures At(Allowed(regs), k) == At(d, k) {
      AllowedKeys(regs, k);
      AllowedAlike(regs, sides, k);
      if k in testcases {
        var n :| 0 <= n < |testcases| && testcases[n] == k;
        assert regs[n].testcase == k;
      }
    }
    SameLookups(Allowed(regs), d);
  }

  /** All cases of such a registry fail, with an empty diagnostic. */
  lemma MarkedSummaryPasses(testcases: seq<string>, i: nat, j: nat, fullmatch: FullMatch, order: Order)
    requires i < |testcases| && j < |testcases| && IsModuleKey(testcases[i]) && IsOrder(order)
    requires !IsModuleKey(testcases[j]) && StartsWith(testcases[j], CasePrefix(testcases[i]))
    ensures PassesUnfit(CasesEnding(testcases, "pass"), CasesEnding(testcases, "fail"),
      FailingItems(testcases, testcases[i]), fullmatch, order)
  {
    hide Diff, StartsWith, Fits, FailingItems, CasesEnding, Approved;
    var marked, s := testcases[i], Sides("pass", "fail");
    var aggressive := CasesEnding(testcases, "fail");
    var d := Diff(CasesEnding(testcases, "pass"), aggressive, order);
    var regs := ItemRegistrations(fullmatch, FailingItems(testcases, marked), aggressive);
    forall k ensures At(d, k) == if k in testcases then Some(s) else None {
      DiffOfCasesEnding(testcases, order, k);
    }
    forall n | 0 <= n < |testcases| ensures regs[n] == Registration(testcases[n], s, testcases[n] != marked) {
      FailingItemsFit(testcases, marked, fullmatch, n);
    }
    assert At(d, testcases[j]).Some? && At(d, marked).Some?;
    assert testcases[j] in d && Backed(d, marked);
    AlikeApproved(d, regs, testcases, marked, _ => s);
    assert !regs[i].fits;
  }

  /**
    The penetration comparer enforces all fingerprints of a registry, whatever they are and
    whatever the two arms report, exactly when the registry does not name a module summary
    beside one of that module's cases.
  */
  lemma FingerprintsEnforcedIff(testcases: seq<string>, fullmatch: FullMatch, order: Order)
    requires IsOrder(order)
    ensures (forall stock, aggressive, items :: ItemsFor(items, testcases) ==>
      !PassesUnfit(stock, aggressive, items, fullmatch, order))
            <==> !NamesSummaryAndCase(testcases)
  {
    if NamesSummaryAndCase(testcases) {
      var i, j :| 0 <= i < |testcases| && 0 <= j < |testcases| && IsModuleKey(testcases[i])
        && !IsModuleKey(testcases[j]) && StartsWith(testcases[j], CasePrefix(testcases[i]));
      MarkedSummaryPasses(testcases, i, j, fullmatch, order);
      assert ItemsFor(FailingItems(testcases, testcases[i]), testcases);
    } else {
      forall stock, aggressive, items | ItemsFor(items, testcases)
        ensures !PassesUnfit(stock, aggressive, items, fullmatch, order)
      {
        if PassesUnfit(stock, aggressive, items, fullmatch, order) {
          UnfitNeedsSummaryAndCase(Diff(stock, aggressive, order), ItemRegistrations(fullmatch, items, aggressive),
            testcases);
        }
      }
    }
  }

  // ----- the same with ordinary case ids

  predicate Tagged(k: string) { StartsWith(k, MODULE_TAG) || StartsWith(k, DIAGNOSTIC_TAG) }

  /** Every diagnostic registered is that of a case with an ordinary id that is not registered itself. */
  ghost predicate Producible(testcases: seq<string>) {
    forall k :: k in testcases && StartsWith(k, DIAGNOSTIC_TAG) ==>
      !Tagged(k[|DIAGNOSTIC_TAG|..]) && k[|DIAGNOSTIC_TAG|..] !in testcases
  }

  function Stripped(testcases: seq<string>, tag: string): set<string> {
    set k | k in testcases && StartsWith(k, tag) :: k[|tag|..]
  }

  function Ordinary(testcases: seq<string>): set<string> {
    set k | k in testcases && !Tagged(k)
  }

  lemma StrippedExactly(testcases: seq<string>, tag: string, x: string)
    ensures x in Stripped(testcases, tag) <==> tag + x in testcases
  {
    assert (tag + x)[|tag|..] == x && (tag + x)[..|tag|] == tag;
    forall k | StartsWith(k, tag) ensures k == tag + k[|tag|..] { }
  }

  /**
    An arm on which the registered modules and cases end in this state, and the cases of
    registered diagnostics fail saying this.
  */
  function Producing(testcases: seq<string>, state: string, diagnostic: string): Arm {
    var failing := Stripped(testcases, DIAGNOSTIC_TAG);
    Arm(map m | m in Stripped(testcases, MODULE_TAG) :: state,
        map x | x in failing + Ordinary(testcases) :: if x in failing then "fail" else state,
        map x | x in failing :: diagnostic)
  }

  function ProducedSides(k: string): Sides {
    if StartsWith(k, DIAGNOSTIC_TAG) then Sides("", "y") else Sides("pass", "fail")
  }

  lemma ProducingIsUntagged(testcases: seq<string>, state: string, diagnostic: string)
    requires Producible(testcases)
    ensures Untagged(Producing(testcases, state, diagnostic).cases)
  {
  }

  lemma ProducesExactly(testcases: seq<string>, order: Order, k: string)
    requires IsOrder(order) && Producible(testcases)
    ensures At(Diff(Producing(testcases, "pass", ""), Producing(testcases, "fail", "y"), order), k) ==
      if k in testcases then Some(ProducedSides(k)) else None
  {
    hide Diff;
    var a, b := Producing(testcases, "pass", ""), Producing(testcases, "fail", "y");
    ProducingIsUntagged(testcases, "pass", "");
    ProducingIsUntagged(testcases, "fail", "y");
    if StartsWith(k, MODULE_TAG) {
      var m := k[|MODULE_TAG|..];
      assert k == MODULE_TAG + m;
      StrippedExactly(testcases, MODULE_TAG, m);
      TagsDiffer(m);
      ModuleRecorded(a, b, order, m);
    } else if StartsWith(k, DIAGNOSTIC_TAG) {
      var x := k[|DIAGNOSTIC_TAG|..];
      assert k == DIAGNOSTIC_TAG + x;
      StrippedExactly(testcases, DIAGNOSTIC_TAG, x);
      DiagnosticRecorded(a, b, order, x);
    } else {
      StrippedExactly(testcases, DIAGNOSTIC_TAG, k);
      assert k in testcases && DIAGNOSTIC_TAG + k in testcases ==> false by {
        if k in testcases && DIAGNOSTIC_TAG + k in testcases {
          TagsCancel(DIAGNOSTIC_TAG, k, k);
        }
      }
      CaseRecorded(a, b, order, k);
    }
  }

  /** Registers every testcase with what the two arms produce, and one of them with a fingerprint. */
  function ProducedItems(testcases: seq<string>, marked: string): (r: seq<Item>)
    ensures |r| == |testcases|
  {
    seq(|testcases|, i requires 0 <= i < |testcases| =>
      var s := ProducedSides(testcases[i]);
      Item(testcases[i], s.stock, s.execute, if testcases[i] == marked then ["x"] else [], [], None))
  }

  lemma ProducedItemsFit(testcases: seq<string>, marked: string, fullmatch: FullMatch, i: nat)
    requires i < |testcases| && Producible(testcases) && IsModuleKey(marked)
    ensures var regs := ItemRegistrations(fullmatch, ProducedItems(testcases, marked),
      Producing(testcases, "fail", "y"));
      regs[i] == Registration(testcases[i], ProducedSides(testcases[i]), testcases[i] != marked)
  {
    var item := ProducedItems(testcases, marked)[i];
    var aggressive := Producing(testcases, "fail", "y");
    if testcases[i] == marked {
      ProducingIsUntagged(testcases, "fail", "y");
      assert marked !in aggressive.cases;
      assert marked !in aggressive.diagnostics;
      assert !Contains("", item.fingerprint[0]);
    }
  }

  lemma ProduciblePasses(testcases: seq<string>, i: nat, j: nat, fullmatch: FullMatch, order: Order)
    requires i < |testcases| && j < |testcases| && IsModuleKey(testcases[i]) && IsOrder(order) && Producible(testcases)
    requires !IsModuleKey(testcases[j]) && StartsWith(testcases[j], CasePrefix(testcases[i]))
    ensures PassesUnfit(Producing(testcases, "pass", ""), Producing(testcases, "fail", "y"),
                        ProducedItems(testcases, testcases[i]), fullmatch, order)
  {
    hide Diff, StartsWith, Fits, ProducedItems, Producing, Producible, ProducedSides, Approved;
    var marked := testcases[i];
    var aggressive := Producing(testcases, "fail", "y");
    var d := Diff(Producing(testcases, "pass", ""), aggressive, order);
    var regs := ItemRegistrations(fullmatch, ProducedItems(testcases, marked), aggressive);
    forall k ensures At(d, k) == if k in testcases then Some(ProducedSides(k)) else None {
      ProducesExactly(testcases, order, k);
    }
    forall n | 0 <= n < |testcases|
      ensures regs[n] == Registration(testcases[n], ProducedSides(testcases[n]), testcases[n] != marked)
    {
      ProducedItemsFit(testcases, marked, fullmatch, n);
    }
    assert At(d, testcases[j]).Some? && At(d, marked).Some?;
    assert testcases[j] in d && Backed(d, marked);
    AlikeApproved(d, regs, testcases, marked, ProducedSides);
    assert !regs[i].fits;
  }

  /** With ordinary case ids, a diagnostic difference is that of an ordinary case with the same state on both arms. */
  lemma DiagnosticDifference(a: Arm, b: Arm, order: Order, k: string)
    requires IsOrder(order) && Untagged(a.cases) && Untagged(b.cases)
    requires StartsWith(k, DIAGNOSTIC_TAG) && k in Diff(a, b, order)
    ensures var x := k[|DIAGNOSTIC_TAG|..]; !Tagged(x) && x !in Diff(a, b, order)
  {
    hide Diff;
    var x := k[|DIAGNOSTIC_TAG|..];
    assert k == DIAGNOSTIC_TAG + x;
    assert At(Diff(a, b, order), k).Some?;
    DiagnosticRecorded(a, b, order, x);
    assert x in a.cases || x in b.cases;
    CaseRecorded(a, b, order, x);
    assert At(Diff(a, b, order), x).None?;
  }

  /** A registry of which a comparison of arms with ordinary case ids passes is producible. */
  lemma PassingIsProducible(a: Arm, b: Arm, order: Order, regs: seq<Registration>, testcases: seq<string>,
      excused: set<string>)
    requires IsOrder(order) && Untagged(a.cases) && Untagged(b.cases)
    requires Registers(regs, testcases) && Approved(Diff(a, b, order), regs, excused)
    ensures Producible(testcases)
  {
    hide Diff;
    var d := Diff(a, b, order);
    forall k | k in testcases ensures k in d {
      AllowedKeys(regs, k);
      var n :| 0 <= n < |testcases| && testcases[n] == k;
      assert regs[n].testcase == k;
    }
    forall k | k in testcases && StartsWith(k, DIAGNOSTIC_TAG)
      ensures !Tagged(k[|DIAGNOSTIC_TAG|..]) && k[|DIAGNOSTIC_TAG|..] !in testcases
    {
      DiagnosticDifference(a, b, order, k);
    }
  }

  ghost predicate UntaggedArms(stock: Arm, aggressive: Arm) {
    Untagged(stock.cases) && Untagged(aggressive.cases)
  }

  lemma UntaggedUnfitNeeds(stock: Arm, aggressive: Arm, items: seq<Item>, testcases: seq<string>, fullmatch: FullMatch,
      order: Order)
    requires IsOrder(order) && ItemsFor(items, testcases) && UntaggedArms(stock, aggressive)
    requires PassesUnfit(stock, aggressive, items, fullmatch, order)
    ensures NamesSummaryAndCase(testcases) && Producible(testcases)
  {
    hide Diff, Fits;
    var d, regs := Diff(stock, aggressive, order), ItemRegistrations(fullmatch, items, aggressive);
    UnfitNeedsSummaryAndCase(d, regs, testcases);
    PassingIsProducible(stock, aggressive, order, regs, testcases, BackedSet(d));
  }

  lemma UntaggedUnfitExists(testcases: seq<string>, fullmatch: FullMatch, order: Order)
    returns (stock: Arm, aggressive: Arm, items: seq<Item>)
    requires NamesSummaryAndCase(testcases) && Producible(testcases) && IsOrder(order)
    ensures ItemsFor(items, testcases) && UntaggedArms(stock, aggressive)
    ensures PassesUnfit(stock, aggressive, items, fullmatch, order)
  {
    hide PassesUnfit, Producible, Untagged;
    var i, j :| 0 <= i < |testcases| && 0 <= j < |testcases| && IsModuleKey(testcases[i])
      && !IsModuleKey(testcases[j]) && StartsWith(testcases[j], CasePrefix(testcases[i]));
    stock, aggressive := Producing(testcases, "pass", ""), Producing(testcases, "fail", "y");
    items := ProducedItems(testcases, testcases[i]);
    ProduciblePasses(testcases, i, j, fullmatch, order);
    ProducingIsUntagged(testcases, "pass", "");
    ProducingIsUntagged(testcases, "fail", "y");
  }

  /**
    When no case id carries one of the two tags, fingerprints are enforced exactly unless a
    module summary is registered beside one of that module's cases in a registry that can
    reproduce at all: each diagnostic in it belongs to an ordinary case not registered itself.
  */
  lemma FingerprintsEnforcedUntaggedIff(testcases: seq<string>, fullmatch: FullMatch, order: Order)
    requires IsOrder(order)
    ensures (forall stock, aggressive, items :: ItemsFor(items, testcases) && UntaggedArms(stock, aggressive) ==>
               !PassesUnfit(stock, aggressive, items, fullmatch, order))
            <==> !(NamesSummaryAndCase(testcases) && Producible(testcases))
  {
    hide PassesUnfit, Producible, NamesSummaryAndCase, ItemsFor, UntaggedArms;
    if NamesSummaryAndCase(testcases) && Producible(testcases) {
      var stock, aggressive, items := UntaggedUnfitExists(testcases, fullmatch, order);
    } else {
      forall stock, aggressive, items | ItemsFor(items, testcases) && UntaggedArms(stock, aggressive)
        ensures !PassesUnfit(stock, aggressive, items, fullmatch, order)
      {
        if PassesUnfit(stock, aggressive, items, fullmatch, order) {
          UntaggedUnfitNeeds(stock, aggressive, items, testcases, fullmatch, order);
        }
      }
    }
  }

  /** A module and one case of it, both passing on one arm and failing on the other. */
  function ModuleWithCase(m: string, c: string, state: string): Arm {
    Arm(map[m := state], map[c := state], map[])
  }

  lemma DiffOfModuleWithCase(m: string, c: string, order: Order)
    requires IsOrder(order) && !StartsWith(c, MODULE_TAG) && !StartsWith(c, DIAGNOSTIC_TAG)
    ensures Diff(ModuleWithCase(m, c, "pass"), ModuleWithCase(m, c, "fail"), order) ==
      map[MODULE_TAG + m := Sides("pass", "fail"), c := Sides("pass", "fail")]
  {
    var a, b := ModuleWithCase(m, c, "pass"), ModuleWithCase(m, c, "fail");
    forall k ensures k in Diff(a, b, order) ==> k == MODULE_TAG + m || k == c { DiffKeys(a, b, order, k); }
    ModuleRecorded(a, b, order, m);
    CaseRecorded(a, b, order, c);
  }

  function CaseOf(m: string): string { "test." + m + "." + "c" }

  lemma CaseOfModule(m: string)
    ensures IsModuleKey(MODULE_TAG + m) && StartsWith(CaseOf(m), CasePrefix(MODULE_TAG + m))
    ensures !StartsWith(CaseOf(m), MODULE_TAG) && !StartsWith(CaseOf(m), DIAGNOSTIC_TAG)
  {
    var k, c := MODULE_TAG + m, CaseOf(m);
    assert k[|MODULE_TAG|..] == m && k[..|MODULE_TAG|] == MODULE_TAG;
    assert c[..|CasePrefix(k)|] == CasePrefix(k);
    assert c[0] == 't';
    assert |c| >= |MODULE_TAG| ==> c[..|MODULE_TAG|][0] == 't';
    assert |c| >= |DIAGNOSTIC_TAG| ==> c[..|DIAGNOSTIC_TAG|][0] == 't';
  }

  lemma UnfitSummaryApproved(k: string, c: string, s: Sides, regs: seq<Registration>)
    requires IsModuleKey(k) && !IsModuleKey(c) && StartsWith(c, CasePrefix(k))
    requires |regs| == 2 && regs[0].testcase == k && regs[0].sides == s && regs[1] == Registration(c, s, true)
    ensures Approved(map[k := s, c := s], regs, BackedSet(map[k := s, c := s]))
  {
    var d := map[k := s, c := s];
    AllowedOfDistinct(regs, 0);
    AllowedOfDistinct(regs, 1);
    forall x ensures x in Allowed(regs) <==> x in d { AllowedKeys(regs, x); }
    assert c in d && Backed(d, k);
  }

  /**
    Such a run: the summary of a module is registered with a fingerprint its (empty)
    diagnostic does not contain, beside a case of the module, and the comparison passes.
  */
  method UnfitSummaryPasses(m: string, fullmatch: FullMatch, order: Order) returns (item: Item, r: Outcome)
    requires IsOrder(order)
    ensures item.testcase == MODULE_TAG + m && !Fits(fullmatch, item, "") && Passes(r.verdict)
  {
    var c := CaseOf(m);
    item := Item(MODULE_TAG + m, "pass", "fail", ["x"], [], None);
    var items := [item, Item(c, "pass", "fail", [], [], None)];
    var aggressive := ModuleWithCase(m, c, "fail");
    r := ComparePenetration(ModuleWithCase(m, c, "pass"), aggressive, items, fullmatch, order);
    CaseOfModule(m);
    DiffOfModuleWithCase(m, c, order);
    UnfitSummaryApproved(MODULE_TAG + m, c, Sides("pass", "fail"), ItemRegistrations(fullmatch, items, aggressive));
    assert !Contains("", item.fingerprint[0]);
  }
}

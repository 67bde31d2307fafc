/**
  The bytecode-support checker: validate() compares the support list with the interpreter's
  tables, validate_frontend() with the case labels of the JIT front end. Both are proved to
  report exactly the issues defined here; a list with no issues is shown to decide the fate
  of every opcode and to keep every decoder of the code stream in step.
*/
module OpcodeAudit {
  import opened Basics
  import opened Text

  /** Unknown stands for a missing state or one outside the closed set. */
  datatype State = Translate | Normalize | Refuse | InterpreterOnly | Unknown

  datatype Row = Row(state: State, num: Option<int>, cache: Option<nat>, to: Option<string>, reason: Option<string>)

  type Rows = map<string, Row>

  /** The interpreter: opcode slots with their names, inline-cache widths, and variant-to-base families. */
  datatype Truth = Truth(names: seq<Option<string>>, caches: seq<nat>, deopt: map<string, string>)

  const EXTENDED_ARG: string := "EXTENDED_ARG"

  // ----- the interpreter's tables

  predicate Consistent(t: Truth) { |t.caches| == |t.names| }

  predicate Defined(t: Truth, n: string) { Some(n) in t.names }

  /** The slot of a name; a later slot with the same name wins, as in a dict comprehension. */
  function NumOf(names: seq<Option<string>>, n: string): (r: Option<nat>)
    ensures r.Some? ==> r.value < |names| && names[r.value] == Some(n)
    ensures r.Some? <==> Some(n) in names
  {
    if names == [] then None
    else if names[|names| - 1] == Some(n) then Some(|names| - 1)
    else NumOf(names[..|names| - 1], n)
  }

  function Base(t: Truth, n: string): string {
    if n in t.deopt then t.deopt[n] else n
  }

  /** The cache width the interpreter uses for an opcode: that of its base, if the base has a slot. */
  function InterpreterWidth(t: Truth, n: string): nat
    requires Consistent(t) && Defined(t, n)
  {
    var base := NumOf(t.names, Base(t, n));
    t.caches[if base.Some? then base.value else NumOf(t.names, n).value]
  }

  /** The last slot of a name. */
  ghost predicate IsSlot(names: seq<Option<string>>, n: string, k: nat) {
    k < |names| && names[k] == Some(n) && forall j :: k < j < |names| ==> names[j] != Some(n)
  }

  lemma {:induction false} NumOfIsLast(names: seq<Option<string>>, n: string)
    ensures forall k: nat :: IsSlot(names, n, k) <==> NumOf(names, n) == Some(k)
    decreases |names|
  {
    if names != [] {
      var pre, last := names[..|names| - 1], |names| - 1;
      NumOfIsLast(pre, n);
      if names[last] == Some(n) {
        forall k: nat ensures IsSlot(names, n, k) <==> k == last { }
      } else {
        forall k: nat ensures IsSlot(names, n, k) <==> IsSlot(pre, n, k) {
          if IsSlot(pre, n, k) {
            forall j | k < j < |names| ensures names[j] != Some(n) { if j < last { assert names[j] == pre[j]; } }
          }
          if IsSlot(names, n, k) {
            forall j | k < j < |pre| ensures pre[j] != Some(n) { assert names[j] == pre[j]; }
          }
        }
      }
    }
  }

  /** A variant has the width of its family's base, if that has a slot, and any other opcode its own. */
  lemma InterpreterWidthIs(t: Truth, n: string, k: nat)
    requires Consistent(t) && IsSlot(t.names, n, k)
    ensures Defined(t, n)
    ensures n !in t.deopt ==> InterpreterWidth(t, n) == t.caches[k]
    ensures n in t.deopt ==>
      && (forall b: nat :: IsSlot(t.names, t.deopt[n], b) ==> InterpreterWidth(t, n) == t.caches[b])
      && (!Defined(t, t.deopt[n]) ==> InterpreterWidth(t, n) == t.caches[k])
  {
    NumOfIsLast(t.names, n);
    NumOfIsLast(t.names, Base(t, n));
  }

  // ----- the reason registry

  /** A registry category: a table of reasons with their descriptions (None: not a string), or something else. */
  datatype Category = NotATable | Table(reasons: map<string, Option<string>>)

  type Registry = map<string, Category>

  datatype RegistryIssue = MissingCategory | UnknownCategory | NotTable | Empty
  datatype ReasonIssue = BadName | BadDescription | InBothTables | Unused

  predicate GoodReasonName(category: string, reason: string) {
    if category == "shape" then StartsWith(reason, "REFUSE_SHAPE_")
    else (StartsWith(reason, "REFUSE_") || StartsWith(reason, "INTERP_ONLY_")) && !StartsWith(reason, "REFUSE_SHAPE_")
  }

  /** The two namespaces by their prefixes; they have no name in common. */
  lemma NamespacesAre(r: string)
    ensures GoodReasonName("shape", r) <==> exists x :: r == "REFUSE_SHAPE_" + x
    ensures GoodReasonName("opcode", r) <==>
      (exists x :: r == "REFUSE_" + x || r == "INTERP_ONLY_" + x) && !exists x :: r == "REFUSE_SHAPE_" + x
  {
    PrefixMeans(r, "REFUSE_SHAPE_");
    PrefixMeans(r, "REFUSE_");
    PrefixMeans(r, "INTERP_ONLY_");
  }

  lemma PrefixMeans(r: string, prefix: string)
    ensures StartsWith(r, prefix) <==> exists x :: r == prefix + x
  {
    if StartsWith(r, prefix) { assert r == prefix + r[|prefix|..]; }
  }

  /** A string that is not empty once stripped. */
  predicate GoodDescription(d: Option<string>) {
    d.Some? && exists i :: 0 <= i < |d.value| && !IsSpace(d.value[i])
  }

  /** Described means described by something other than white space. */
  lemma DescriptionIsGood(d: string)
    ensures GoodDescription(Some(d)) <==> Strip(d) != ""
  {
    var l, r := StripExactly(d);
    if Strip(d) == "" {
      assert forall i :: 0 <= i < |d| ==> IsSpace(d[i]);
    } else {
      assert d[|l|] == Strip(d)[0];
    }
  }

  predicate Refusal(s: State) { s.Refuse? || s.InterpreterOnly? }

  predicate KnownCategory(c: string) { c == "opcode" || c == "shape" }

  predicate IsTable(registry: Registry, c: string) { c in registry && registry[c].Table? }

  function Reasons(registry: Registry, c: string): map<string, Option<string>> {
    if IsTable(registry, c) then registry[c].reasons else map[]
  }

  /** The two tables are compared unless one of them is present and not a table. */
  predicate Comparable(registry: Registry) {
    ("opcode" in registry ==> registry["opcode"].Table?) && ("shape" in registry ==> registry["shape"].Table?)
  }

  predicate Used(rows: Rows, reason: string) {
    exists n :: n in rows && Refusal(rows[n].state) && rows[n].reason == Some(reason)
  }

  predicate HasRegistryIssue(registry: Registry, c: string, i: RegistryIssue) {
    match i
    case MissingCategory => KnownCategory(c) && c !in registry
    case UnknownCategory => !KnownCategory(c) && c in registry
    case NotTable => KnownCategory(c) && !IsTable(registry, c)
    case Empty => KnownCategory(c) && IsTable(registry, c) && Reasons(registry, c) == map[]
  }

  predicate BadEntry(c: string, reasons: map<string, Option<string>>, r: string, i: ReasonIssue) {
    r in reasons && ((i.BadName? && !GoodReasonName(c, r)) || (i.BadDescription? && !GoodDescription(reasons[r])))
  }

  /** An opcode reason that is a shape reason too, or that no row uses. */
  predicate Misplaced(opcodes: map<string, Option<string>>, shapes: map<string, Option<string>>, rows: Rows, r: string,
      i: ReasonIssue)
  {
    r in opcodes && ((i.InBothTables? && r in shapes) || (i.Unused? && !Used(rows, r)))
  }

  predicate HasReasonIssue(registry: Registry, rows: Rows, c: string, r: string, i: ReasonIssue) {
    match i
    case BadName => KnownCategory(c) && BadEntry(c, Reasons(registry, c), r, i)
    case BadDescription => KnownCategory(c) && BadEntry(c, Reasons(registry, c), r, i)
    case _ =>
      c == "opcode" && Comparable(registry)
      && Misplaced(Reasons(registry, "opcode"), Reasons(registry, "shape"), rows, r, i)
  }

  /** What is said of a category: both are required, no other is known, and each is a table with entries. */
  lemma RegistryIssuesAre(registry: Registry, c: string)
    ensures HasRegistryIssue(registry, c, MissingCategory) <==> c !in registry && c in {"opcode", "shape"}
    ensures HasRegistryIssue(registry, c, UnknownCategory) <==> c in registry && c !in {"opcode", "shape"}
    ensures HasRegistryIssue(registry, c, NotTable) <==>
      c in {"opcode", "shape"} && (c in registry ==> registry[c].NotATable?)
    ensures HasRegistryIssue(registry, c, Empty) <==>
      c in {"opcode", "shape"} && c in registry && registry[c].Table? && forall r :: r !in registry[c].reasons
  {
    if c in registry && registry[c].Table? && registry[c].reasons != map[] {
      var r :| r in registry[c].reasons;
    }
  }

  /**
    A registered opcode reason is overlapping or unused: said of two tables, and only if the
    other category, if any, is one.
  */
  lemma MisplacedExactly(registry: Registry, rows: Rows, r: string)
    ensures HasReasonIssue(registry, rows, "opcode", r, InBothTables) <==>
      && "opcode" in registry && registry["opcode"].Table? && r in registry["opcode"].reasons
      && "shape" in registry && registry["shape"].Table? && r in registry["shape"].reasons
    ensures HasReasonIssue(registry, rows, "opcode", r, Unused) <==>
      && "opcode" in registry && registry["opcode"].Table? && r in registry["opcode"].reasons
      && ("shape" !in registry || registry["shape"].Table?)
      && forall n :: n in rows && rows[n].state in {Refuse, InterpreterOnly} ==> rows[n].reason != Some(r)
    ensures forall c, i :: c != "opcode" && i in {InBothTables, Unused} ==> !HasReasonIssue(registry, rows, c, r, i)
  {
  }

  // ----- the rows against the interpreter

  datatype Issue =
    | MissingRow | UnknownRow | BadState | BadNum | BadCache
    | NoTarget | WrongFamily | TargetNotTranslated | StrayTarget
    | UnregisteredReason | StrayReason

  predicate TargetTranslated(rows: Rows, to: string) {
    to in rows && rows[to].state.Translate?
  }

  predicate InFamily(t: Truth, n: string, to: string) {
    n in t.deopt && t.deopt[n] == to
  }

  predicate HasRowIssue(rows: Rows, t: Truth, reasons: map<string, Option<string>>, n: string, i: Issue)
    requires Consistent(t) && Defined(t, n) && n in rows && !rows[n].state.Unknown?
  {
    var row := rows[n];
    match i
    case BadNum => row.num != Some(NumOf(t.names, n).value)
    case BadCache => row.cache != Some(InterpreterWidth(t, n))
    case NoTarget => row.state.Normalize? && row.to.None?
    case WrongFamily => row.state.Normalize? && row.to.Some? && !InFamily(t, n, row.to.value)
    case TargetNotTranslated =>
      row.state.Normalize? && row.to.Some? && InFamily(t, n, row.to.value) && !TargetTranslated(rows, row.to.value)
    case StrayTarget => !row.state.Normalize? && row.to.Some?
    case UnregisteredReason => Refusal(row.state) && !(row.reason.Some? && row.reason.value in reasons)
    case StrayReason => !Refusal(row.state) && row.reason.Some?
    case _ => false
  }

  predicate HasIssue(rows: Rows, t: Truth, reasons: map<string, Option<string>>, n: string, i: Issue)
    requires Consistent(t)
  {
    if n !in rows then Defined(t, n) && i.MissingRow?
    else if !Defined(t, n) then i.UnknownRow?
    else if rows[n].state.Unknown? then i.BadState?
    else HasRowIssue(rows, t, reasons, n, i)
  }

  // ----- the rows against the front end

  /** The case labels found in isSupportedOpcode, in HIRBuilder::translate and in unsupportedOpcodeReason311. */
  datatype Frontend = Frontend(supported: set<string>, dispatched: set<string>, reasonCases: set<string>)

  datatype FrontIssue =
    | NotSupported | NotDispatched | AdmittedDirectly | DispatchedDirectly
    | TargetNotSupported | TargetNotDispatched | NoReasonCase

  predicate Dispatchable(fe: Frontend, n: string) { n == EXTENDED_ARG || n in fe.dispatched }

  predicate HasFrontIssue(row: Row, n: string, fe: Frontend, i: FrontIssue) {
    match i
    case NotSupported => row.state.Translate? && n !in fe.supported
    case NotDispatched => row.state.Translate? && !Dispatchable(fe, n)
    case AdmittedDirectly => (row.state.Normalize? || Refusal(row.state)) && n in fe.supported
    case DispatchedDirectly => (row.state.Normalize? || Refusal(row.state)) && n in fe.dispatched
    case TargetNotSupported => row.state.Normalize? && !(row.to.Some? && row.to.value in fe.supported)
    case TargetNotDispatched => row.state.Normalize? && !(row.to.Some? && Dispatchable(fe, row.to.value))
    case NoReasonCase => Refusal(row.state) && n !in fe.reasonCases
  }

  /** What is said of a row with a known state, one issue at a time. */
  lemma RowIssuesAre(rows: Rows, t: Truth, reasons: map<string, Option<string>>, n: string)
    requires Consistent(t) && Defined(t, n) && n in rows && !rows[n].state.Unknown?
    ensures var row, has := rows[n], (i: Issue) requires Consistent(t) => HasRowIssue(rows, t, reasons, n, i);
      && (has(BadNum) <==> forall k: nat :: row.num == Some(k) ==> !IsSlot(t.names, n, k))
      && (row.state != Normalize ==> !has(NoTarget) && !has(WrongFamily) && !has(TargetNotTranslated))
      && (row.state == Normalize ==>
            match row.to
            case None => has(NoTarget) && !has(WrongFamily) && !has(TargetNotTranslated)
            case Some(to) =>
              && !has(NoTarget)
              && (has(WrongFamily) <==> n in t.deopt ==> t.deopt[n] != to)
              && (has(TargetNotTranslated) <==> !has(WrongFamily) && (to in rows ==> rows[to].state != Translate)))
      && (has(StrayTarget) <==> row.state != Normalize && row.to != None)
      && (has(UnregisteredReason) <==>
            row.state in {Refuse, InterpreterOnly} && forall r :: row.reason == Some(r) ==> r !in reasons)
      && (has(StrayReason) <==> row.state in {Translate, Normalize} && row.reason != None)
  {
    NumOfIsLast(t.names, n);
  }

  /** What is said of a row and the front end, one issue at a time. */
  lemma FrontIssuesAre(row: Row, n: string, fe: Frontend)
    ensures var has := (i: FrontIssue) => HasFrontIssue(row, n, fe, i);
      match row.state
      case Translate =>
        && (has(NotSupported) <==> n !in fe.supported)
        && (has(NotDispatched) <==> n !in fe.dispatched && n != "EXTENDED_ARG")
        && !has(AdmittedDirectly) && !has(DispatchedDirectly)
        && !has(TargetNotSupported) && !has(TargetNotDispatched) && !has(NoReasonCase)
      case Normalize =>
        && (has(AdmittedDirectly) <==> n in fe.supported) && (has(DispatchedDirectly) <==> n in fe.dispatched)
        && (has(TargetNotSupported) <==> forall to :: row.to == Some(to) ==> to !in fe.supported)
        && (has(TargetNotDispatched) <==>
              forall to :: row.to == Some(to) ==> to !in fe.dispatched && to != "EXTENDED_ARG")
        && !has(NotSupported) && !has(NotDispatched) && !has(NoReasonCase)
      case Unknown => forall i :: !has(i)
      case _ =>
        && (has(AdmittedDirectly) <==> n in fe.supported) && (has(DispatchedDirectly) <==> n in fe.dispatched)
        && (has(NoReasonCase) <==> n !in fe.reasonCases)
        && !has(NotSupported) && !has(NotDispatched) && !has(TargetNotSupported) && !has(TargetNotDispatched)
  {
  }

  // ----- the checkers

  datatype Finding =
    | OfCategory(category: string, registryIssue: RegistryIssue)
    | OfReason(table: string, reason: string, reasonIssue: ReasonIssue)
    | OfRow(name: string, issue: Issue)
    | OfFrontend(opcode: string, frontIssue: FrontIssue)
    | BuilderSource | DecoderSource | DecoderProbe(index: nat)

  function When<T>(condition: bool, x: T): set<T> {
    if condition then {x} else {}
  }

  /** The checks on one row with a known state. */
  method CheckRow(rows: Rows, t: Truth, reasons: map<string, Option<string>>, n: string) returns (issues: set<Issue>)
    requires Consistent(t) && Defined(t, n) && n in rows && !rows[n].state.Unknown?
    ensures forall i :: i in issues <==> HasRowIssue(rows, t, reasons, n, i)
  {
    hide InterpreterWidth, NumOf;
    var row := rows[n];
    issues := When(row.num != Some(NumOf(t.names, n).value), BadNum);
    issues := issues + When(row.cache != Some(InterpreterWidth(t, n)), BadCache);
    if row.state.Normalize? {
      if row.to.None? {
        issues := issues + {NoTarget};
      } else if !InFamily(t, n, row.to.value) {
        issues := issues + {WrongFamily};
      } else if !TargetTranslated(rows, row.to.value) {
        issues := issues + {TargetNotTranslated};
      }
    } else if row.to.Some? {
      issues := issues + {StrayTarget};
    }
    if Refusal(row.state) {
      if !(row.reason.Some? && row.reason.value in reasons) {
        issues := issues + {UnregisteredReason};
      }
    } else if row.reason.Some? {
      issues := issues + {StrayReason};
    }
  }

  method CheckFrontendRow(row: Row, n: string, fe: Frontend) returns (issues: set<FrontIssue>)
    ensures forall i :: i in issues <==> HasFrontIssue(row, n, fe, i)
  {
    issues := {};
    match row.state {
      case Translate =>
        issues := When(n !in fe.supported, NotSupported) + When(!Dispatchable(fe, n), NotDispatched);
      case Normalize =>
        issues := When(n in fe.supported, AdmittedDirectly) + When(n in fe.dispatched, DispatchedDirectly);
        issues := issues + When(!(row.to.Some? && row.to.value in fe.supported), TargetNotSupported);
        issues := issues + When(!(row.to.Some? && Dispatchable(fe, row.to.value)), TargetNotDispatched);
      case Unknown =>
      case _ =>
        issues := When(n in fe.supported, AdmittedDirectly) + When(n in fe.dispatched, DispatchedDirectly);
        issues := issues + When(n !in fe.reasonCases, NoReasonCase);
    }
  }

  /** The loops of validate over the support list: missing rows, unknown rows, then each row. */
  method CheckRows(rows: Rows, t: Truth, reasons: map<string, Option<string>>) returns (errors: set<Finding>)
    requires Consistent(t)
    ensures forall f :: f in errors <==> f.OfRow? && HasIssue(rows, t, reasons, f.name, f.issue)
  {
    errors := {};
    for k := 0 to |t.names|
      invariant forall f :: f in errors <==>
        f.OfRow? && f.issue.MissingRow? && f.name !in rows && Some(f.name) in t.names[..k]
    {
      var name := t.names[k];
      assert t.names[..k + 1] == t.names[..k] + [name];
      if name.Some? && name.value !in rows { errors := errors + {OfRow(name.value, MissingRow)}; }
    }
    assert t.names[..|t.names|] == t.names;
    var todo := rows.Keys;
    while todo != {}
      invariant todo <= rows.Keys
      invariant forall f :: f in errors <==>
        f.OfRow? && f.name !in todo && HasIssue(rows, t, reasons, f.name, f.issue)
      decreases |todo|
    {
      var n :| n in todo;
      todo := todo - {n};
      if !Defined(t, n) {
        errors := errors + {OfRow(n, UnknownRow)};
      } else if rows[n].state.Unknown? {
        errors := errors + {OfRow(n, BadState)};
      } else {
        var issues := CheckRow(rows, t, reasons, n);
        errors := errors + set i | i in issues :: OfRow(n, i);
      }
    }
  }

  /** Names and descriptions of the reasons of one table. */
  method CheckEntries(c: string, reasons: map<string, Option<string>>) returns (errors: set<Finding>)
    ensures forall f :: f in errors <==> f.OfReason? && f.table == c && BadEntry(c, reasons, f.reason, f.reasonIssue)
  {
    errors := {};
    var todo := reasons.Keys;
    while todo != {}
      invariant todo <= reasons.Keys
      invariant forall f :: f in errors <==>
        f.OfReason? && f.table == c && f.reason !in todo && BadEntry(c, reasons, f.reason, f.reasonIssue)
      decreases |todo|
    {
      var r :| r in todo;
      todo := todo - {r};
      var badName, badDescription := !GoodReasonName(c, r), !GoodDescription(reasons[r]);
      errors := errors + When(badName, OfReason(c, r, BadName)) + When(badDescription, OfReason(c, r, BadDescription));
    }
  }

  method CheckTable(registry: Registry, rows: Rows, c: string) returns (errors: set<Finding>)
    requires KnownCategory(c)
    ensures forall f :: f in errors <==>
      || (f.OfCategory? && f.category == c && (f.registryIssue.NotTable? || f.registryIssue.Empty?)
          && HasRegistryIssue(registry, c, f.registryIssue))
      || (f.OfReason? && f.table == c && (f.reasonIssue.BadName? || f.reasonIssue.BadDescription?)
          && HasReasonIssue(registry, rows, c, f.reason, f.reasonIssue))
  {
    if !IsTable(registry, c) { return {OfCategory(c, NotTable)}; }
    var entryErrors := CheckEntries(c, registry[c].reasons);
    errors := When(registry[c].reasons == map[], OfCategory(c, Empty)) + entryErrors;
  }

  /** Overlap between the two tables, and opcode reasons no row uses. */
  method CheckMisplaced(opcodes: map<string, Option<string>>, shapes: map<string, Option<string>>, rows: Rows,
      table: string)
    returns (errors: set<Finding>)
    ensures forall f :: f in errors <==>
      f.OfReason? && f.table == table && Misplaced(opcodes, shapes, rows, f.reason, f.reasonIssue)
  {
    errors := {};
    var todo := opcodes.Keys;
    while todo != {}
      invariant todo <= opcodes.Keys
      invariant forall f :: f in errors <==>
        f.OfReason? && f.table == table && f.reason !in todo &&
          Misplaced(opcodes, shapes, rows, f.reason, f.reasonIssue)
      decreases |todo|
    {
      var r :| r in todo;
      todo := todo - {r};
      var shared, unused := r in shapes, !Used(rows, r);
      errors := errors + When(shared, OfReason(table, r, InBothTables)) + When(unused, OfReason(table, r, Unused));
    }
  }

  method CompareTables(registry: Registry, rows: Rows) returns (errors: set<Finding>)
    ensures forall f :: f in errors <==>
      f.OfReason? && (f.reasonIssue.InBothTables? || f.reasonIssue.Unused?)
      && HasReasonIssue(registry, rows, f.table, f.reason, f.reasonIssue)
  {
    if !Comparable(registry) { return {}; }
    errors := CheckMisplaced(Reasons(registry, "opcode"), Reasons(registry, "shape"), rows, "opcode");
  }

  /** Categories that are missing, and categories nobody knows. */
  method CheckCategories(registry: Registry) returns (errors: set<Finding>)
    ensures forall f :: f in errors <==>
      f.OfCategory? && (f.registryIssue.MissingCategory? || f.registryIssue.UnknownCategory?)
      && HasRegistryIssue(registry, f.category, f.registryIssue)
  {
    errors := When("opcode" !in registry, OfCategory("opcode", MissingCategory));
    errors := errors + When("shape" !in registry, OfCategory("shape", MissingCategory));
    var todo := registry.Keys;
    while todo != {}
      invariant todo <= registry.Keys
      invariant forall f :: f in errors <==>
        f.OfCategory? && f.category !in todo && (f.registryIssue.MissingCategory? || f.registryIssue.UnknownCategory?)
        && HasRegistryIssue(registry, f.category, f.registryIssue)
      decreases |todo|
    {
      var c :| c in todo;
      todo := todo - {c};
      errors := errors + When(!KnownCategory(c), OfCategory(c, UnknownCategory));
    }
  }

  ghost predicate RegistryFinding(registry: Registry, rows: Rows, f: Finding) {
    || (f.OfCategory? && HasRegistryIssue(registry, f.category, f.registryIssue))
    || (f.OfReason? && HasReasonIssue(registry, rows, f.table, f.reason, f.reasonIssue))
  }

  /** validate_reason_registry reports exactly the registry's issues. */
  method ValidateReasonRegistry(registry: Registry, rows: Rows) returns (errors: set<Finding>)
    ensures forall f :: f in errors <==> RegistryFinding(registry, rows, f)
  {
    errors := CheckCategories(registry);
    var opcodeErrors := CheckTable(registry, rows, "opcode");
    var shapeErrors := CheckTable(registry, rows, "shape");
    var crossErrors := CompareTables(registry, rows);
    errors := errors + opcodeErrors + shapeErrors + crossErrors;
  }

  ghost predicate ListFinding(rows: Rows, t: Truth, registry: Registry, f: Finding)
    requires Consistent(t)
  {
    || RegistryFinding(registry, rows, f)
    || (f.OfRow? && HasIssue(rows, t, Reasons(registry, "opcode"), f.name, f.issue))
  }

  /** validate reports exactly the issues of the registry and of the rows. */
  method Validate(rows: Rows, t: Truth, registry: Registry) returns (errors: set<Finding>)
    requires Consistent(t)
    ensures forall f :: f in errors <==> ListFinding(rows, t, registry, f)
  {
    var registryErrors := ValidateReasonRegistry(registry, rows);
    var rowErrors := CheckRows(rows, t, Reasons(registry, "opcode"));
    errors := registryErrors + rowErrors;
  }

  ghost predicate FrontendFinding(rows: Rows, sets: Result<Frontend>, probes: Result<seq<bool>>, f: Finding) {
    if sets.Err? then f.BuilderSource?
    else if probes.Err? then f.DecoderSource?
    else
      || (f.DecoderProbe? && f.index < |probes.value| && !probes.value[f.index])
      || (f.OfFrontend? && f.opcode in rows && HasFrontIssue(rows[f.opcode], f.opcode, sets.value, f.frontIssue))
  }

  /** validate_frontend, given the scanned case labels and the outcome of the probes of the decoder source. */
  method ValidateFrontend(rows: Rows, sets: Result<Frontend>, probes: Result<seq<bool>>) returns (errors: set<Finding>)
    ensures forall f :: f in errors <==> FrontendFinding(rows, sets, probes, f)
  {
    if sets.Err? { return {BuilderSource}; }
    if probes.Err? { return {DecoderSource}; }
    errors := {};
    for k := 0 to |probes.value|
      invariant forall f :: f in errors <==> f.DecoderProbe? && f.index < k && !probes.value[f.index]
    {
      errors := errors + When(!probes.value[k], DecoderProbe(k));
    }
    var todo := rows.Keys;
    while todo != {}
      invariant todo <= rows.Keys
      invariant forall f :: f in errors <==>
        FrontendFinding(rows, sets, probes, f) && (f.OfFrontend? ==> f.opcode !in todo)
      decreases |todo|
    {
      var n :| n in todo;
      todo := todo - {n};
      var issues := CheckFrontendRow(rows[n], n, sets.value);
      errors := errors + set i | i in issues :: OfFrontend(n, i);
    }
  }

  // ----- what acceptance means

  /** Neither checker has anything to report. */
  ghost predicate Accepted(rows: Rows, t: Truth, registry: Registry, fe: Frontend)
    requires Consistent(t)
  {
    && (forall f :: !ListFinding(rows, t, registry, f))
    && (forall n, i :: n in rows ==> !HasFrontIssue(rows[n], n, fe, i))
  }

  /** What the decoder makes of an opcode before the front end sees it. */
  function Normalized(rows: Rows, n: string): string {
    if n in rows && rows[n].state.Normalize? && rows[n].to.Some? then rows[n].to.value else n
  }

  /** The front end translates it (EXTENDED_ARG is folded away by the decoder). */
  predicate Translates(rows: Rows, fe: Frontend, n: string) {
    Normalized(rows, n) in fe.supported && Dispatchable(fe, Normalized(rows, n))
  }

  /** The front end refuses it, for a registered reason it can name. */
  predicate Refuses(rows: Rows, registry: Registry, fe: Frontend, n: string) {
    && n !in fe.supported && n !in fe.dispatched
    && Normalized(rows, n) == n
    && n in rows && rows[n].reason.Some? && rows[n].reason.value in Reasons(registry, "opcode")
    && GoodReasonName("opcode", rows[n].reason.value)
    && n in fe.reasonCases
  }

  /** Every issue is absent from an accepted row. */
  lemma AcceptedRow(rows: Rows, t: Truth, registry: Registry, fe: Frontend, n: string)
    requires Consistent(t) && Accepted(rows, t, registry, fe) && Defined(t, n)
    ensures n in rows && !rows[n].state.Unknown?
    ensures forall i :: !HasRowIssue(rows, t, Reasons(registry, "opcode"), n, i)
    ensures forall i :: !HasFrontIssue(rows[n], n, fe, i)
  {
    assert !ListFinding(rows, t, registry, OfRow(n, MissingRow));
    assert !ListFinding(rows, t, registry, OfRow(n, BadState));
    forall i ensures !HasRowIssue(rows, t, Reasons(registry, "opcode"), n, i) {
      assert !ListFinding(rows, t, registry, OfRow(n, i));
    }
  }

  lemma AcceptedNormalizeRow(rows: Rows, t: Truth, registry: Registry, fe: Frontend, n: string)
    requires Consistent(t) && Accepted(rows, t, registry, fe) && Defined(t, n) && n in rows && rows[n].state.Normalize?
    ensures rows[n].to.Some? && InFamily(t, n, rows[n].to.value) && TargetTranslated(rows, rows[n].to.value)
    ensures Defined(t, rows[n].to.value)
    ensures rows[n].to.value in fe.supported && Dispatchable(fe, rows[n].to.value)
    ensures n !in fe.supported && n !in fe.dispatched
  {
    AcceptedRow(rows, t, registry, fe, n);
    var r := Reasons(registry, "opcode");
    assert !HasRowIssue(rows, t, r, n, NoTarget);
    assert !HasRowIssue(rows, t, r, n, WrongFamily);
    assert !HasRowIssue(rows, t, r, n, TargetNotTranslated);
    assert !HasFrontIssue(rows[n], n, fe, TargetNotSupported);
    assert !HasFrontIssue(rows[n], n, fe, TargetNotDispatched);
    assert !HasFrontIssue(rows[n], n, fe, AdmittedDirectly);
    assert !HasFrontIssue(rows[n], n, fe, DispatchedDirectly);
    assert !ListFinding(rows, t, registry, OfRow(rows[n].to.value, UnknownRow));
  }

  lemma AcceptedTranslateRow(rows: Rows, t: Truth, registry: Registry, fe: Frontend, n: string)
    requires Consistent(t) && Accepted(rows, t, registry, fe) && n in rows && rows[n].state.Translate?
    ensures n in fe.supported && Dispatchable(fe, n)
  {
    assert !HasFrontIssue(rows[n], n, fe, NotSupported);
    assert !HasFrontIssue(rows[n], n, fe, NotDispatched);
  }

  lemma AcceptedRefusalRow(rows: Rows, t: Truth, registry: Registry, fe: Frontend, n: string)
    requires Consistent(t) && Accepted(rows, t, registry, fe) && Defined(t, n) && n in rows && Refusal(rows[n].state)
    ensures Refuses(rows, registry, fe, n)
  {
    AcceptedRow(rows, t, registry, fe, n);
    assert !HasRowIssue(rows, t, Reasons(registry, "opcode"), n, UnregisteredReason);
    assert !HasFrontIssue(rows[n], n, fe, AdmittedDirectly);
    assert !HasFrontIssue(rows[n], n, fe, DispatchedDirectly);
    assert !HasFrontIssue(rows[n], n, fe, NoReasonCase);
    assert !ListFinding(rows, t, registry, OfReason("opcode", rows[n].reason.value, BadName));
  }

  /**
    Acceptance is sound: every defined opcode has a row, and exactly one of two fates. Either
    its normalisation is admitted and dispatched, or it is in neither set and has a registered
    reason and a reason case. Normalising twice is normalising once.
  */
  lemma AcceptanceIsSound(rows: Rows, t: Truth, registry: Registry, fe: Frontend, n: string)
    requires Consistent(t) && Accepted(rows, t, registry, fe) && Defined(t, n)
    ensures n in rows
    ensures Translates(rows, fe, n) != Refuses(rows, registry, fe, n)
    ensures Translates(rows, fe, n) <==> rows[n].state.Translate? || rows[n].state.Normalize?
    ensures Normalized(rows, Normalized(rows, n)) == Normalized(rows, n) && Defined(t, Normalized(rows, n))
  {
    AcceptedRow(rows, t, registry, fe, n);
    match rows[n].state
    case Translate => AcceptedTranslateRow(rows, t, registry, fe, n);
    case Normalize => AcceptedNormalizeRow(rows, t, registry, fe, n);
    case _ => AcceptedRefusalRow(rows, t, registry, fe, n);
  }

  /** Among the defined opcodes, isSupportedOpcode admits exactly the translate rows. */
  lemma SupportedAreTranslateRows(rows: Rows, t: Truth, registry: Registry, fe: Frontend)
    requires Consistent(t) && Accepted(rows, t, registry, fe)
    ensures forall n :: Defined(t, n) ==> (n in fe.supported <==> n in rows && rows[n].state.Translate?)
    ensures forall n :: n in rows <==> Defined(t, n)
  {
    forall n ensures n in rows <==> Defined(t, n) {
      assert !ListFinding(rows, t, registry, OfRow(n, UnknownRow));
      assert !ListFinding(rows, t, registry, OfRow(n, MissingRow));
    }
    forall n | Defined(t, n) ensures n in fe.supported <==> rows[n].state.Translate? {
      AcceptedRow(rows, t, registry, fe, n);
      match rows[n].state
      case Translate => AcceptedTranslateRow(rows, t, registry, fe, n);
      case Normalize => AcceptedNormalizeRow(rows, t, registry, fe, n);
      case _ => AcceptedRefusalRow(rows, t, registry, fe, n);
    }
  }

  // ----- acceptance, said as one table

  /** Slot and cache width are the interpreter's; target and reason are there exactly where the state calls for them. */
  ghost predicate LawfulRow(rows: Rows, t: Truth, registry: Registry, n: string)
    requires Consistent(t) && Defined(t, n) && n in rows
  {
    var row := rows[n];
    && row.num == Some(NumOf(t.names, n).value) && row.cache == Some(InterpreterWidth(t, n))
    && match row.state
       case Translate => row.to.None? && row.reason.None?
       case Normalize => n in t.deopt && row.to == Some(t.deopt[n]) && TargetTranslated(rows, t.deopt[n]) &&
         row.reason.None?
       case Unknown => false
       case _ => row.to.None? && row.reason.Some? && row.reason.value in Reasons(registry, "opcode")
  }

  ghost predicate LawfulTable(registry: Registry, c: string) {
    IsTable(registry, c) && Reasons(registry, c) != map[]
    && forall r :: r in Reasons(registry, c) ==> GoodReasonName(c, r) && GoodDescription(Reasons(registry, c)[r])
  }

  /** Two non-empty tables with proper names and descriptions, disjoint, every opcode reason in use. */
  ghost predicate LawfulRegistry(registry: Registry, rows: Rows) {
    && registry.Keys == {"opcode", "shape"} && LawfulTable(registry, "opcode") && LawfulTable(registry, "shape")
    && forall r :: r in Reasons(registry, "opcode") ==> r !in Reasons(registry, "shape") && Used(rows, r)
  }

  /** Among the rows, exactly the translate rows are supported, and dispatched but perhaps for EXTENDED_ARG. */
  ghost predicate LawfulFrontend(rows: Rows, fe: Frontend) {
    forall n :: n in rows && !rows[n].state.Unknown? ==>
      && (n in fe.supported <==> rows[n].state.Translate?)
      && (n in fe.dispatched ==> rows[n].state.Translate?)
      && (rows[n].state.Translate? && n != EXTENDED_ARG ==> n in fe.dispatched)
      && (Refusal(rows[n].state) ==> n in fe.reasonCases)
  }

  ghost predicate Lawful(rows: Rows, t: Truth, registry: Registry, fe: Frontend)
    requires Consistent(t)
  {
    && (forall n :: n in rows <==> Defined(t, n))
    && (forall n :: Defined(t, n) ==> LawfulRow(rows, t, registry, n))
    && LawfulRegistry(registry, rows)
    && LawfulFrontend(rows, fe)
  }

  lemma LawfulRowIff(rows: Rows, t: Truth, registry: Registry, n: string)
    requires Consistent(t) && Defined(t, n) && n in rows && !rows[n].state.Unknown?
    ensures LawfulRow(rows, t, registry, n) <==> forall i :: !HasRowIssue(rows, t, Reasons(registry, "opcode"), n, i)
  {
    var r := Reasons(registry, "opcode");
    if forall i :: !HasRowIssue(rows, t, r, n, i) {
      assert !HasRowIssue(rows, t, r, n, BadNum) && !HasRowIssue(rows, t, r, n, BadCache);
      assert !HasRowIssue(rows, t, r, n, NoTarget) && !HasRowIssue(rows, t, r, n, WrongFamily);
      assert !HasRowIssue(rows, t, r, n, TargetNotTranslated) && !HasRowIssue(rows, t, r, n, StrayTarget);
      assert !HasRowIssue(rows, t, r, n, UnregisteredReason) && !HasRowIssue(rows, t, r, n, StrayReason);
    }
  }

  lemma LawfulRegistryIff(registry: Registry, rows: Rows)
    ensures LawfulRegistry(registry, rows) <==> forall f :: !RegistryFinding(registry, rows, f)
  {
    if forall f :: !RegistryFinding(registry, rows, f) { RegistryWithoutFindings(registry, rows); }
    if LawfulRegistry(registry, rows) {
      forall f ensures !RegistryFinding(registry, rows, f) { }
    }
  }

  lemma RegistryWithoutFindings(registry: Registry, rows: Rows)
    requires forall f :: !RegistryFinding(registry, rows, f)
    ensures LawfulRegistry(registry, rows)
  {
    forall c ensures c in registry <==> KnownCategory(c) {
      assert !RegistryFinding(registry, rows, OfCategory(c, MissingCategory));
      assert !RegistryFinding(registry, rows, OfCategory(c, UnknownCategory));
    }
    forall c | KnownCategory(c) ensures LawfulTable(registry, c) { TableWithoutFindings(registry, rows, c); }
    forall r | r in Reasons(registry, "opcode") ensures r !in Reasons(registry, "shape") && Used(rows, r) {
      assert !RegistryFinding(registry, rows, OfReason("opcode", r, InBothTables));
      assert !RegistryFinding(registry, rows, OfReason("opcode", r, Unused));
    }
  }

  lemma TableWithoutFindings(registry: Registry, rows: Rows, c: string)
    requires KnownCategory(c) && forall f :: !RegistryFinding(registry, rows, f)
    ensures LawfulTable(registry, c)
  {
    assert !RegistryFinding(registry, rows, OfCategory(c, NotTable));
    assert !RegistryFinding(registry, rows, OfCategory(c, Empty));
    forall r | r in Reasons(registry, c) ensures GoodReasonName(c, r) && GoodDescription(Reasons(registry, c)[r]) {
      assert !RegistryFinding(registry, rows, OfReason(c, r, BadName));
      assert !RegistryFinding(registry, rows, OfReason(c, r, BadDescription));
    }
  }

  lemma AcceptedRowsAreLawful(rows: Rows, t: Truth, registry: Registry, fe: Frontend, n: string)
    requires Consistent(t) && Accepted(rows, t, registry, fe) && Defined(t, n)
    ensures n in rows && LawfulRow(rows, t, registry, n)
  {
    AcceptedRow(rows, t, registry, fe, n);
    LawfulRowIff(rows, t, registry, n);
  }

  lemma AcceptedRegistryIsLawful(rows: Rows, t: Truth, registry: Registry, fe: Frontend)
    requires Consistent(t) && Accepted(rows, t, registry, fe)
    ensures LawfulRegistry(registry, rows)
  {
    forall f ensures !RegistryFinding(registry, rows, f) { assert !ListFinding(rows, t, registry, f); }
    LawfulRegistryIff(registry, rows);
  }

  lemma NoFrontIssuesIff(rows: Rows, fe: Frontend)
    requires forall n :: n in rows && rows[n].state.Normalize? ==>
      rows[n].to.Some? && TargetTranslated(rows, rows[n].to.value)
    ensures (forall n, i :: n in rows ==> !HasFrontIssue(rows[n], n, fe, i)) <==> LawfulFrontend(rows, fe)
  {
    if forall n, i :: n in rows ==> !HasFrontIssue(rows[n], n, fe, i) {
      forall n | n in rows
        ensures !HasFrontIssue(rows[n], n, fe, NotSupported) && !HasFrontIssue(rows[n], n, fe, NotDispatched)
        ensures !HasFrontIssue(rows[n], n, fe, AdmittedDirectly) && !HasFrontIssue(rows[n], n, fe, DispatchedDirectly)
        ensures !HasFrontIssue(rows[n], n, fe, NoReasonCase)
      {
      }
    }
  }

  lemma AcceptedIsLawful(rows: Rows, t: Truth, registry: Registry, fe: Frontend)
    requires Consistent(t) && Accepted(rows, t, registry, fe)
    ensures Lawful(rows, t, registry, fe)
  {
    SupportedAreTranslateRows(rows, t, registry, fe);
    AcceptedRegistryIsLawful(rows, t, registry, fe);
    forall n | Defined(t, n) ensures LawfulRow(rows, t, registry, n) {
      AcceptedRowsAreLawful(rows, t, registry, fe, n);
    }
    forall n | n in rows && rows[n].state.Normalize?
      ensures rows[n].to.Some? && TargetTranslated(rows, rows[n].to.value)
    {
      assert LawfulRow(rows, t, registry, n);
    }
    NoFrontIssuesIff(rows, fe);
  }

  lemma LawfulFindsNothing(rows: Rows, t: Truth, registry: Registry, f: Finding)
    requires Consistent(t) && (forall n :: n in rows <==> Defined(t, n)) && LawfulRegistry(registry, rows)
    requires forall n :: Defined(t, n) ==> LawfulRow(rows, t, registry, n)
    ensures !ListFinding(rows, t, registry, f)
  {
    hide LawfulRegistry, RegistryFinding, HasRowIssue, InterpreterWidth, NumOf;
    LawfulRegistryIff(registry, rows);
    assert !RegistryFinding(registry, rows, f);
    if f.OfRow? && Defined(t, f.name) {
      assert LawfulRow(rows, t, registry, f.name);
      LawfulRowIff(rows, t, registry, f.name);
    }
  }

  lemma LawfulIsAccepted(rows: Rows, t: Truth, registry: Registry, fe: Frontend)
    requires Consistent(t) && Lawful(rows, t, registry, fe)
    ensures Accepted(rows, t, registry, fe)
  {
    hide LawfulRegistry, ListFinding, HasFrontIssue, LawfulFrontend, InterpreterWidth, NumOf;
    forall f ensures !ListFinding(rows, t, registry, f) {
      LawfulFindsNothing(rows, t, registry, f);
    }
    forall n | n in rows && rows[n].state.Normalize?
      ensures rows[n].to.Some? && TargetTranslated(rows, rows[n].to.value)
    {
      assert LawfulRow(rows, t, registry, n);
    }
    NoFrontIssuesIff(rows, fe);
  }

  /**
    Acceptance, exactly: one lawful row per defined opcode, a lawful registry, and a front end
    that among the rows supports and dispatches the translate rows and names a reason for
    every refusal. The checks on normalize targets follow from these.
  */
  lemma AcceptedIff(rows: Rows, t: Truth, registry: Registry, fe: Frontend)
    requires Consistent(t)
    ensures Accepted(rows, t, registry, fe) <==> Lawful(rows, t, registry, fe)
  {
    if Accepted(rows, t, registry, fe) { AcceptedIsLawful(rows, t, registry, fe); }
    if Lawful(rows, t, registry, fe) { LawfulIsAccepted(rows, t, registry, fe); }
  }
}

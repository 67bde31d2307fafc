/**
  The bytecode-support checker from end to end: scan the three audited functions of the HIR
  builder, compare their case labels and the interpreter's tables with the support list, and
  exit with zero exactly when nothing is wrong.
*/
module SupportGate {
  import opened Basics
  import opened CppScanner
  import opened OpcodeAudit
  import opened Preprocessor
  import opened SourceLines

  const SUPPORTED_SIGNATURE: string := "bool isSupportedOpcode(int opcode)"
  const TRANSLATE_SIGNATURE: string := "void HIRBuilder::translate("
  const REASON_SIGNATURE: string := "const char* unsupportedOpcodeReason311(BorrowedRef<PyCodeObject> code)"

  /** The parts that are regular expressions or expression evaluation in the checker, taken as given. */
  datatype Scanner = Scanner(
    word: WordClass,
    eval: Evaluator,
    opcodeSwitch: Matcher,
    reasonSwitch: Matcher)

  /** r holds the case labels of the one switch in the function with this signature, if all of that exists. */
  ghost predicate AreFunctionCases(sc: Scanner, source: string, signature: string, sw: Matcher,
      r: Result<set<string>>)
  {
    exists body: Result<string> :: IsFunctionBody(source, signature, body) &&
      if body.Err? then r.Err? else AreSelectedCases(sc.word, sc.eval, body.value, sw, r)
  }

  method FunctionCases(sc: Scanner, source: string, signature: string, sw: Matcher) returns (r: Result<set<string>>)
    ensures AreFunctionCases(sc, source, signature, sw, r)
  {
    var body := FunctionBody(source, signature);
    if body.Err? { return Err(body.message); }
    r := OpcodeSwitchCases(sc.word, sc.eval, body.value, sw);
  }

  /** The three label sets are what the builder source says they are. */
  ghost predicate AreFrontendSets(sc: Scanner, builder: string, fe: Frontend) {
    && AreFunctionCases(sc, builder, SUPPORTED_SIGNATURE, sc.opcodeSwitch, Ok(fe.supported))
    && AreFunctionCases(sc, builder, TRANSLATE_SIGNATURE, sc.opcodeSwitch, Ok(fe.dispatched))
    && AreFunctionCases(sc, builder, REASON_SIGNATURE, sc.reasonSwitch, Ok(fe.reasonCases))
  }

  /** Two scans of the same function agree. */
  lemma FunctionCasesUnique(sc: Scanner, source: string, signature: string, sw: Matcher, r: Result<set<string>>,
      r': Result<set<string>>)
    requires AreFunctionCases(sc, source, signature, sw, r) && AreFunctionCases(sc, source, signature, sw, r')
    ensures r.Ok? == r'.Ok? && (r.Ok? ==> r.value == r'.value)
  {
    var b: Result<string> :| IsFunctionBody(source, signature, b) &&
      if b.Err? then r.Err? else AreSelectedCases(sc.word, sc.eval, b.value, sw, r);
    var b': Result<string> :| IsFunctionBody(source, signature, b') &&
      if b'.Err? then r'.Err? else AreSelectedCases(sc.word, sc.eval, b'.value, sw, r');
    assert b.Ok? == b'.Ok? && (b.Ok? ==> b.value == b'.value);
  }

  lemma FrontendSetsUnique(sc: Scanner, builder: string, fe: Frontend, fe': Frontend)
    requires AreFrontendSets(sc, builder, fe) && AreFrontendSets(sc, builder, fe')
    ensures fe == fe'
  {
    FunctionCasesUnique(sc, builder, SUPPORTED_SIGNATURE, sc.opcodeSwitch, Ok(fe.supported), Ok(fe'.supported));
    FunctionCasesUnique(sc, builder, TRANSLATE_SIGNATURE, sc.opcodeSwitch, Ok(fe.dispatched), Ok(fe'.dispatched));
    FunctionCasesUnique(sc, builder, REASON_SIGNATURE, sc.reasonSwitch, Ok(fe.reasonCases), Ok(fe'.reasonCases));
  }

  lemma AllThreeScanned(sc: Scanner, builder: string, fe: Frontend,
                        supported: Result<set<string>>, dispatched: Result<set<string>>, reasons: Result<set<string>>)
    requires AreFrontendSets(sc, builder, fe)
    requires AreFunctionCases(sc, builder, SUPPORTED_SIGNATURE, sc.opcodeSwitch, supported)
    requires AreFunctionCases(sc, builder, TRANSLATE_SIGNATURE, sc.opcodeSwitch, dispatched)
    requires AreFunctionCases(sc, builder, REASON_SIGNATURE, sc.reasonSwitch, reasons)
    ensures supported.Ok? && dispatched.Ok? && reasons.Ok?
  {
    FunctionCasesUnique(sc, builder, SUPPORTED_SIGNATURE, sc.opcodeSwitch, supported, Ok(fe.supported));
    FunctionCasesUnique(sc, builder, TRANSLATE_SIGNATURE, sc.opcodeSwitch, dispatched, Ok(fe.dispatched));
    FunctionCasesUnique(sc, builder, REASON_SIGNATURE, sc.reasonSwitch, reasons, Ok(fe.reasonCases));
  }

  lemma ScanDecides(sc: Scanner, builder: string,
                    supported: Result<set<string>>, dispatched: Result<set<string>>, reasons: Result<set<string>>)
    requires AreFunctionCases(sc, builder, SUPPORTED_SIGNATURE, sc.opcodeSwitch, supported)
    requires AreFunctionCases(sc, builder, TRANSLATE_SIGNATURE, sc.opcodeSwitch, dispatched)
    requires AreFunctionCases(sc, builder, REASON_SIGNATURE, sc.reasonSwitch, reasons)
    ensures supported.Ok? && dispatched.Ok? && reasons.Ok? ==>
      AreFrontendSets(sc, builder, Frontend(supported.value, dispatched.value, reasons.value))
    ensures supported.Err? || dispatched.Err? || reasons.Err? ==> forall fe :: !AreFrontendSets(sc, builder, fe)
  {
    forall fe | AreFrontendSets(sc, builder, fe) ensures supported.Ok? && dispatched.Ok? && reasons.Ok? {
      AllThreeScanned(sc, builder, fe, supported, dispatched, reasons);
    }
  }

  method FrontendSets(sc: Scanner, builder: string) returns (r: Result<Frontend>)
    ensures r.Ok? <==> exists fe :: AreFrontendSets(sc, builder, fe)
    ensures r.Ok? ==> AreFrontendSets(sc, builder, r.value)
  {
    var supported := FunctionCases(sc, builder, SUPPORTED_SIGNATURE, sc.opcodeSwitch);
    var dispatched := FunctionCases(sc, builder, TRANSLATE_SIGNATURE, sc.opcodeSwitch);
    var reasons := FunctionCases(sc, builder, REASON_SIGNATURE, sc.reasonSwitch);
    ScanDecides(sc, builder, supported, dispatched, reasons);
    if supported.Err? { return Err(supported.message); }
    if dispatched.Err? { return Err(dispatched.message); }
    if reasons.Err? { return Err(reasons.message); }
    r := Ok(Frontend(supported.value, dispatched.value, reasons.value));
  }

  /** Everything the checker demands of the list, the interpreter's tables and the two sources. */
  ghost predicate Sound(sc: Scanner, rows: Rows, t: Truth, registry: Registry, builder: string,
      probes: Result<seq<bool>>)
    requires Consistent(t)
  {
    && probes.Ok? && (forall i :: 0 <= i < |probes.value| ==> probes.value[i])
    && exists fe :: AreFrontendSets(sc, builder, fe) && Accepted(rows, t, registry, fe)
  }

  /**
    The checker exits with zero exactly when every probe of the decoder holds and the rows,
    the registry and the label sets really found in the builder source are accepted together.
  */
  method RunChecker(sc: Scanner, rows: Rows, t: Truth, registry: Registry, builder: string, probes: Result<seq<bool>>)
    returns (exitCode: int)
    requires Consistent(t)
    ensures exitCode == 0 <==> Sound(sc, rows, t, registry, builder, probes)
  {
    var listErrors := Validate(rows, t, registry);
    var sets := FrontendSets(sc, builder);
    var frontendErrors := ValidateFrontend(rows, sets, probes);
    var errors := listErrors + frontendErrors;
    exitCode := if errors == {} then 0 else 1;
    if errors == {} {
      NothingFound(rows, t, registry, sets, probes, listErrors, frontendErrors);
    } else {
      var f :| f in errors;
      SomethingFound(sc, rows, t, registry, builder, sets, probes, f);
    }
  }

  lemma NothingFound(rows: Rows, t: Truth, registry: Registry, sets: Result<Frontend>, probes: Result<seq<bool>>,
                     listErrors: set<Finding>, frontendErrors: set<Finding>)
    requires Consistent(t) && listErrors == {} && frontendErrors == {}
    requires forall f :: f in listErrors <==> ListFinding(rows, t, registry, f)
    requires forall f :: f in frontendErrors <==> FrontendFinding(rows, sets, probes, f)
    ensures sets.Ok? && probes.Ok? && (forall i :: 0 <= i < |probes.value| ==> probes.value[i])
    ensures Accepted(rows, t, registry, sets.value)
  {
    assert !FrontendFinding(rows, sets, probes, BuilderSource);
    assert !FrontendFinding(rows, sets, probes, DecoderSource);
    forall i | 0 <= i < |probes.value| ensures probes.value[i] {
      assert !FrontendFinding(rows, sets, probes, DecoderProbe(i));
    }
    forall n, i | n in rows ensures !HasFrontIssue(rows[n], n, sets.value, i) {
      assert !FrontendFinding(rows, sets, probes, OfFrontend(n, i));
    }
  }

  lemma SomethingFound(sc: Scanner, rows: Rows, t: Truth, registry: Registry, builder: string,
                       sets: Result<Frontend>, probes: Result<seq<bool>>, f: Finding)
    requires Consistent(t)
    requires ListFinding(rows, t, registry, f) || FrontendFinding(rows, sets, probes, f)
    requires sets.Ok? <==> exists fe :: AreFrontendSets(sc, builder, fe)
    requires sets.Ok? ==> AreFrontendSets(sc, builder, sets.value)
    ensures !Sound(sc, rows, t, registry, builder, probes)
  {
    if Sound(sc, rows, t, registry, builder, probes) {
      SoundFindsNothing(sc, rows, t, registry, builder, sets, probes, f);
    }
  }

  lemma SoundFindsNothing(sc: Scanner, rows: Rows, t: Truth, registry: Registry, builder: string,
                          sets: Result<Frontend>, probes: Result<seq<bool>>, f: Finding)
    requires Consistent(t) && Sound(sc, rows, t, registry, builder, probes)
    requires sets.Ok? <==> exists fe :: AreFrontendSets(sc, builder, fe)
    requires sets.Ok? ==> AreFrontendSets(sc, builder, sets.value)
    ensures !ListFinding(rows, t, registry, f) && !FrontendFinding(rows, sets, probes, f)
  {
    hide AreFrontendSets, ListFinding, HasFrontIssue;
    var fe :| AreFrontendSets(sc, builder, fe) && Accepted(rows, t, registry, fe);
    FrontendSetsUnique(sc, builder, fe, sets.value);
  }
}

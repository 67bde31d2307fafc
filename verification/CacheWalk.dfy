/**
  Inline-cache widths and the code stream. A decoder walks a stream of code units from one
  instruction to the next by skipping the opcode's cache entries, so one wrong width throws
  every later instruction off. Three walks are compared on an accepted support list: by the
  widths in the rows, by the interpreter's own widths, and by row widths after every opcode
  was replaced by its base.
*/
module CacheWalk {
  import opened Basics
  import opened OpcodeAudit

  /** The opcode slots of a code object, cache entries included. */
  type Code = seq<nat>

  /** The offsets of the instructions a decoder visits; it stops at a unit it has no width for. */
  function Walk(width: nat -> Option<nat>, code: Code, i: nat): seq<nat>
    decreases |code| - i
  {
    if i >= |code| then [] else
    match width(code[i])
    case None => [i]
    case Some(w) => [i] + Walk(width, code, i + 1 + w)
  }

  function NameAt(t: Truth, op: nat): Option<string> {
    if op < |t.names| then t.names[op] else None
  }

  function RowWidth(rows: Rows, t: Truth, op: nat): Option<nat> {
    match NameAt(t, op)
    case Some(n) => if n in rows then rows[n].cache else None
    case None => None
  }

  function BaseWidth(t: Truth, op: nat): Option<nat>
    requires Consistent(t)
  {
    match NameAt(t, op)
    case Some(n) => Some(InterpreterWidth(t, n))
    case None => None
  }

  /** The slot an opcode is rewritten to. */
  function NormalizedSlot(rows: Rows, t: Truth, op: nat): nat {
    match NameAt(t, op)
    case Some(n) =>
      (match NumOf(t.names, Normalized(rows, n))
       case Some(k) => k
       case None => op)
    case None => op
  }

  function NormalizeCode(rows: Rows, t: Truth, code: Code): Code {
    seq(|code|, i requires 0 <= i < |code| => NormalizedSlot(rows, t, code[i]))
  }

  function RowWalk(rows: Rows, t: Truth, code: Code): seq<nat> {
    Walk(op => RowWidth(rows, t, op), code, 0)
  }

  function InterpreterWalk(t: Truth, code: Code): seq<nat>
    requires Consistent(t)
  {
    Walk(op => BaseWidth(t, op), code, 0)
  }

  // ----- walks with equal widths

  lemma {:induction false} EqualWidthsEqualWalks(w: nat -> Option<nat>, code: Code,
                                                 w': nat -> Option<nat>, code': Code, i: nat)
    requires |code| == |code'| && forall k :: 0 <= k < |code| ==> w(code[k]) == w'(code'[k])
    ensures Walk(w, code, i) == Walk(w', code', i)
    decreases |code| - i
  {
    if i < |code| {
      assert w(code[i]) == w'(code'[i]);
      if w(code[i]).Some? {
        EqualWidthsEqualWalks(w, code, w', code', i + 1 + w(code[i]).value);
      }
    }
  }

  lemma AcceptedWidth(rows: Rows, t: Truth, registry: Registry, fe: Frontend, op: nat)
    requires Consistent(t) && Accepted(rows, t, registry, fe)
    ensures RowWidth(rows, t, op) == BaseWidth(t, op)
  {
    var name := NameAt(t, op);
    if name.Some? {
      assert Defined(t, name.value);
      AcceptedRow(rows, t, registry, fe, name.value);
      assert !HasRowIssue(rows, t, Reasons(registry, "opcode"), name.value, BadCache);
    }
  }

  /** Walking an accepted list's row widths visits the interpreter's own instruction offsets, on every stream. */
  lemma RowWalkIsInterpreterWalk(rows: Rows, t: Truth, registry: Registry, fe: Frontend, code: Code)
    requires Consistent(t) && Accepted(rows, t, registry, fe)
    ensures RowWalk(rows, t, code) == InterpreterWalk(t, code)
  {
    forall k | 0 <= k < |code| ensures RowWidth(rows, t, code[k]) == BaseWidth(t, code[k]) {
      AcceptedWidth(rows, t, registry, fe, code[k]);
    }
    EqualWidthsEqualWalks(op => RowWidth(rows, t, op), code, op => BaseWidth(t, op), code, 0);
  }

  // ----- rewriting opcodes to their bases

  /** A base's own cache width is not that of a further base. */
  predicate StableBase(t: Truth, to: string)
    requires Consistent(t)
  {
    Defined(t, to) && InterpreterWidth(t, to) == t.caches[NumOf(t.names, to).value]
  }

  ghost predicate StableBases(rows: Rows, t: Truth)
    requires Consistent(t)
  {
    forall n :: Defined(t, n) && n in rows && rows[n].state.Normalize? && rows[n].to.Some? ==>
      StableBase(t, rows[n].to.value)
  }

  /** Specialization families are flat: no base is itself a variant. */
  ghost predicate FlatFamilies(t: Truth) {
    forall v :: v in t.deopt ==> t.deopt[v] !in t.deopt
  }

  lemma FlatFamiliesAreStable(rows: Rows, t: Truth, registry: Registry, fe: Frontend)
    requires Consistent(t) && Accepted(rows, t, registry, fe) && FlatFamilies(t)
    ensures StableBases(rows, t)
  {
    forall n | Defined(t, n) && n in rows && rows[n].state.Normalize? && rows[n].to.Some?
      ensures StableBase(t, rows[n].to.value)
    {
      AcceptedNormalizeRow(rows, t, registry, fe, n);
    }
  }

  lemma NormalizedWidth(rows: Rows, t: Truth, registry: Registry, fe: Frontend, op: nat)
    requires Consistent(t) && Accepted(rows, t, registry, fe)
    requires NameAt(t, op).Some? ==>
      var n := NameAt(t, op).value; n in rows && rows[n].state.Normalize? && rows[n].to.Some? ==>
        StableBase(t, rows[n].to.value)
    ensures RowWidth(rows, t, NormalizedSlot(rows, t, op)) == RowWidth(rows, t, op)
  {
    AcceptedWidth(rows, t, registry, fe, op);
    AcceptedWidth(rows, t, registry, fe, NormalizedSlot(rows, t, op));
    var name := NameAt(t, op);
    if name.Some? {
      var n := name.value;
      assert Defined(t, n);
      AcceptedRow(rows, t, registry, fe, n);
      if rows[n].state.Normalize? { AcceptedNormalizeRow(rows, t, registry, fe, n); }
    }
  }

  /** With flat families the three walks visit the same offsets, on every stream. */
  lemma WidthsNeverDesynchronise(rows: Rows, t: Truth, registry: Registry, fe: Frontend, code: Code)
    requires Consistent(t) && Accepted(rows, t, registry, fe) && FlatFamilies(t)
    ensures RowWalk(rows, t, code) == InterpreterWalk(t, code) == RowWalk(rows, t, NormalizeCode(rows, t, code))
  {
    RowWalkIsInterpreterWalk(rows, t, registry, fe, code);
    FlatFamiliesAreStable(rows, t, registry, fe);
    StableBasesKeepWalks(rows, t, registry, fe, code);
  }

  lemma StableBasesKeepWalks(rows: Rows, t: Truth, registry: Registry, fe: Frontend, code: Code)
    requires Consistent(t) && Accepted(rows, t, registry, fe) && StableBases(rows, t)
    ensures RowWalk(rows, t, code) == RowWalk(rows, t, NormalizeCode(rows, t, code))
  {
    var code' := NormalizeCode(rows, t, code);
    forall k | 0 <= k < |code| ensures RowWidth(rows, t, code[k]) == RowWidth(rows, t, code'[k]) {
      NormalizedWidth(rows, t, registry, fe, code[k]);
    }
    EqualWidthsEqualWalks(op => RowWidth(rows, t, op), code, op => RowWidth(rows, t, op), code', 0);
  }

  /** A stream of two instructions is enough to tell two widths apart. */
  lemma WidthsShow(w: nat -> Option<nat>, a: nat, b: nat)
    requires w(a).Some? && w(b).Some? && w(a).value < w(b).value
    ensures var n := 2 + w(a).value;
      |Walk(w, seq(n, _ => a), 0)| >= 2 && |Walk(w, seq(n, _ => b), 0)| == 1
  {
    var n := 2 + w(a).value;
    var codeA, codeB := seq(n, _ => a), seq(n, _ => b);
    assert Walk(w, codeB, 1 + w(b).value) == [];
    assert |Walk(w, codeA, 1 + w(a).value)| >= 1;
  }

  /**
    Without flat families the rewritten stream can fall out of step. On an accepted list it
    stays in step on every stream exactly when no base inherits another width from a further base.
  */
  lemma RewritingKeepsStepIff(rows: Rows, t: Truth, registry: Registry, fe: Frontend)
    requires Consistent(t) && Accepted(rows, t, registry, fe)
    ensures (forall code: Code :: RowWalk(rows, t, code) == RowWalk(rows, t, NormalizeCode(rows, t, code))) <==>
      StableBases(rows, t)
  {
    if StableBases(rows, t) {
      forall code: Code ensures RowWalk(rows, t, code) == RowWalk(rows, t, NormalizeCode(rows, t, code)) {
        StableBasesKeepWalks(rows, t, registry, fe, code);
      }
    } else {
      var n :| Defined(t, n) && n in rows && rows[n].state.Normalize? && rows[n].to.Some? &&
        !StableBase(t, rows[n].to.value);
      UnstableBaseShows(rows, t, registry, fe, n);
    }
  }

  lemma UnstableBaseShows(rows: Rows, t: Truth, registry: Registry, fe: Frontend, n: string)
    requires Consistent(t) && Accepted(rows, t, registry, fe)
    requires Defined(t, n) && n in rows && rows[n].state.Normalize? && rows[n].to.Some? &&
      !StableBase(t, rows[n].to.value)
    ensures exists code: Code :: RowWalk(rows, t, code) != RowWalk(rows, t, NormalizeCode(rows, t, code))
  {
    AcceptedNormalizeRow(rows, t, registry, fe, n);
    var a := NumOf(t.names, n).value;
    var b := NumOf(t.names, rows[n].to.value).value;
    AcceptedWidth(rows, t, registry, fe, a);
    AcceptedWidth(rows, t, registry, fe, b);
    var w := op => RowWidth(rows, t, op);
    assert w(a).value != w(b).value;
    var len := 2 + if w(a).value < w(b).value then w(a).value else w(b).value;
    var code := seq(len, _ => a);
    assert NormalizeCode(rows, t, code) == seq(len, _ => b);
    if w(a).value < w(b).value { WidthsShow(w, a, b); } else { WidthsShow(w, b, a); }
    assert |RowWalk(rows, t, code)| != |RowWalk(rows, t, NormalizeCode(rows, t, code))|;
  }

  // ----- an accepted list with an unstable base

  /** A specializes B, B specializes C, and B has no cache entry of its own while C has one; D is refused. */
  const NestedTruth := Truth([Some("A"), Some("B"), Some("C"), Some("D")], [0, 0, 1, 0], map["A" := "B", "B" := "C"])

  const NestedRows: Rows := map[
    "A" := Row(Normalize, Some(0), Some(0), Some("B"), None),
    "B" := Row(Translate, Some(1), Some(1), None, None),
    "C" := Row(Translate, Some(2), Some(1), None, None),
    "D" := Row(Refuse, Some(3), Some(0), None, Some("REFUSE_D"))]

  const NestedRegistry: Registry := map[
    "opcode" := Table(map["REFUSE_D" := Some("d")]),
    "shape" := Table(map["REFUSE_SHAPE_S" := Some("s")])]

  const NestedFrontend := Frontend({"B", "C"}, {"B", "C"}, {"D"})

  lemma NestedSlots(n: string)
    ensures NumOf(NestedTruth.names, n) ==
      if n == "A" then Some(0) else if n == "B" then Some(1)
      else if n == "C" then Some(2) else if n == "D" then Some(3) else None
  {
    var names := NestedTruth.names;
    assert names[..3] == [Some("A"), Some("B"), Some("C")];
    assert names[..3][..2] == [Some("A"), Some("B")];
    assert names[..3][..2][..1] == [Some("A")];
    assert names[..3][..2][..1][..0] == [];
  }

  lemma NestedRegistryIsLawful()
    ensures LawfulRegistry(NestedRegistry, NestedRows)
  {
    assert GoodReasonName("opcode", "REFUSE_D") by {
      assert "REFUSE_D"[..7] == "REFUSE_";
    }
    assert GoodReasonName("shape", "REFUSE_SHAPE_S") by {
      assert "REFUSE_SHAPE_S"[..13] == "REFUSE_SHAPE_";
    }
    assert GoodDescription(Some("d")) by { assert "d"[0] == 'd'; }
    assert GoodDescription(Some("s")) by { assert "s"[0] == 's'; }
    assert "REFUSE_D" in Reasons(NestedRegistry, "opcode") && "REFUSE_SHAPE_S" in Reasons(NestedRegistry, "shape");
    assert NestedRows["D"].reason == Some("REFUSE_D");
  }

  lemma NestedRowIsLawful(n: string)
    ensures n in NestedRows <==> Defined(NestedTruth, n)
    ensures n in NestedRows ==> LawfulRow(NestedRows, NestedTruth, NestedRegistry, n)
  {
    NestedSlots(n);
    if n in NestedRows { NestedSlots(Base(NestedTruth, n)); }
  }

  lemma NestedFrontendIsLawful()
    ensures LawfulFrontend(NestedRows, NestedFrontend)
  {
  }

  lemma NestedIsAccepted()
    ensures Accepted(NestedRows, NestedTruth, NestedRegistry, NestedFrontend)
  {
    hide LawfulRegistry, LawfulRow, LawfulFrontend, Accepted, NestedRows, NestedRegistry, NestedFrontend;
    NestedFrontendIsLawful();
    NestedRegistryIsLawful();
    forall n
      ensures n in NestedRows <==> Defined(NestedTruth, n)
      ensures n in NestedRows ==> LawfulRow(NestedRows, NestedTruth, NestedRegistry, n)
    {
      NestedRowIsLawful(n);
    }
    AcceptedIff(NestedRows, NestedTruth, NestedRegistry, NestedFrontend);
  }

  /** Families that are not flat can be accepted, and then some stream falls out of step when it is rewritten. */
  lemma NestedFamilyIsAccepted()
    ensures Consistent(NestedTruth) && Accepted(NestedRows, NestedTruth, NestedRegistry, NestedFrontend)
    ensures !StableBase(NestedTruth, "B") && !StableBases(NestedRows, NestedTruth)
    ensures exists code: Code :: RowWalk(NestedRows, NestedTruth, code) !=
                                 RowWalk(NestedRows, NestedTruth, NormalizeCode(NestedRows, NestedTruth, code))
  {
    hide Accepted;
    NestedIsAccepted();
    NestedSlots("A");
    NestedSlots("B");
    NestedSlots("C");
    assert NestedRows["A"].to == Some("B");
    UnstableBaseShows(NestedRows, NestedTruth, NestedRegistry, NestedFrontend, "A");
  }
}

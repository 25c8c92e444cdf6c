/**
 * Which passes a selection runs, what stops a run, and so how a command ends.
 */
module PassGates {
  import opened Options
  import opened Codes
  import opened Selection
  import opened Resolve
  import opened Findings
  import opened Reporting
  import opened Preparation
  import opened SchemaFindings
  import opened CacheTransparency
  import opened MalformedRows

  /** What a run looks at: what each pass would find, were it run, and the inventory the schema pass compiles. */
  datatype Document = Document(
    /** The hygiene lint, or nothing where it throws. */
    lint: Option<seq<Finding>>,
    /** Parameter locations the validator cannot serve, and headers it ignores. */
    unserved: seq<Finding>,
    /** Route conflicts met while the validator is built, as far as that goes. */
    conflicts: seq<Finding>,
    /** The validator can be built; a document it cannot be built for is not graded. */
    gradeable: bool,
    version: seq<Finding>,
    inventory: Pass,
    compile: Compiler,
    formats: seq<Finding>,
    conformance: seq<Finding>,
    /** Checking examples, which reports more where schemas are not compiled. */
    examples: bool -> seq<Finding>,
    redos: seq<Finding>,
    /** Unsupported and mixed dialects. */
    dialects: seq<Finding>)

  const FORMAT_CODE := "format-not-validated"
  const DIALECT_CODE := "unsupported-schema-dialect"

  // ---- The gates ----

  function If(run: bool, findings: seq<Finding>): seq<Finding> {
    if run then findings else []
  }

  /** The rows the schema pass leaves in the table. */
  ghost function CompiledRows(d: Document): seq<Finding> {
    CachedRun(d.inventory, d.compile, |d.inventory.AllRoots()|).s.table
  }

  /** What is found before the document is known to be gradeable. */
  function BeforeGate(classes: set<string>, d: Document): seq<Finding> {
    If("hygiene" in classes, d.lint.GetOr([]) + d.unserved + d.conflicts)
  }

  /** What a run produces, in order; schema findings come last, repeats collapsed. */
  ghost function Produced(classes: set<string>, base: set<string>, compileSchemas: bool, d: Document): seq<Finding> {
    BeforeGate(classes, d)
    + If("hygiene" in classes, d.version)
    + If("schema" in classes && FORMAT_CODE in base, d.formats)
    + If("conformance" in classes, d.conformance)
    + If("examples" in classes, d.examples(compileSchemas))
    + If("redos" in classes, d.redos)
    + AddAll(If("schema" in classes && compileSchemas, CompiledRows(d)), If(DIALECT_CODE in base, d.dialects))
  }

  /** How the passes end: with findings, stopped at the gate, or with an error that is the checker's own. */
  datatype Outcome = Graded(findings: seq<Finding>) | Aborted(findings: seq<Finding>) | Thrown

  ghost function OutcomeOf(classes: set<string>, base: set<string>, compileSchemas: bool, d: Document): Outcome {
    if !d.gradeable then Aborted(BeforeGate(classes, d))
    else if "hygiene" in classes && d.lint.None? then Thrown
    else Graded(Produced(classes, base, compileSchemas, d))
  }

  method RunPasses(selection: Resolved, d: Document) returns (outcome: Outcome)
    ensures outcome == OutcomeOf(selection.classes, selection.base, selection.compileSchemas, d)
  {
    hide Produced;
    var findings := [];
    if "hygiene" in selection.classes {
      findings := findings + d.lint.GetOr([]) + d.unserved + d.conflicts;
    }
    if !d.gradeable {
      return Aborted(findings);
    }
    if "hygiene" in selection.classes && d.lint.None? {
      return Thrown;
    }
    findings := GradePasses(selection, d, findings);
    return Graded(findings);
  }

  /** The passes that run once the document is known to be gradeable. */
  method GradePasses(selection: Resolved, d: Document, before: seq<Finding>) returns (findings: seq<Finding>)
    requires before == BeforeGate(selection.classes, d)
    ensures findings == Produced(selection.classes, selection.base, selection.compileSchemas, d)
  {
    hide AddAll, BeforeGate, CompiledRows;
    var classes := selection.classes;
    findings := before;
    if "hygiene" in classes {
      findings := findings + d.version;
    }
    ghost var sofar := before + If("hygiene" in classes, d.version);
    assert findings == sofar;
    var schemaFindings := CompileGated("schema" in classes && selection.compileSchemas, d);
    ghost var compiled := schemaFindings.rows;
    if "schema" in classes && FORMAT_CODE in selection.base {
      findings := findings + d.formats;
    }
    sofar := sofar + If("schema" in classes && FORMAT_CODE in selection.base, d.formats);
    assert findings == sofar;
    if "conformance" in classes {
      findings := findings + d.conformance;
    }
    sofar := sofar + If("conformance" in classes, d.conformance);
    assert findings == sofar;
    if "examples" in classes {
      findings := findings + d.examples(selection.compileSchemas);
    }
    sofar := sofar + If("examples" in classes, d.examples(selection.compileSchemas));
    assert findings == sofar;
    if "redos" in classes {
      findings := findings + d.redos;
    }
    sofar := sofar + If("redos" in classes, d.redos);
    assert findings == sofar;
    if DIALECT_CODE in selection.base {
      schemaFindings.AddEach(d.dialects);
    }
    NothingToAdd(compiled);
    assert schemaFindings.rows == AddAll(compiled, If(DIALECT_CODE in selection.base, d.dialects));
    findings := findings + schemaFindings.rows;
  }

  /** The table of schema findings after the schema pass, where it runs. */
  method CompileGated(run: bool, d: Document) returns (table: FindingTable)
    ensures fresh(table) && table.rows == If(run, CompiledRows(d))
  {
    table := new FindingTable();
    if run {
      var p := d.inventory;
      var preparer := new Preparer(p.c, p.refs, p.scope, p.t);
      table := CheckDocumentSchemas(p, d.compile, preparer);
    }
  }

  lemma NothingToAdd(table: seq<Finding>)
    ensures AddAll(table, []) == table
  {
  }

  // ---- What the passes find ----

  ghost predicate AllOf(reg: Registry, findings: seq<Finding>, cls: string) {
    forall f :: f in findings ==> f.cls == cls && Conforms(reg, f)
  }

  /** Every pass emits declared codes of its own class. */
  ghost predicate Honest(reg: Registry, d: Document) {
    && AllOf(reg, d.lint.GetOr([]), "hygiene") && AllOf(reg, d.unserved, "hygiene")
    && AllOf(reg, d.conflicts, "hygiene") && AllOf(reg, d.version, "hygiene")
    && AllOf(reg, d.formats, "schema") && AllOf(reg, d.conformance, "conformance") && AllOf(reg, d.redos, "redos")
    && AllOf(reg, d.examples(true), "examples") && AllOf(reg, d.examples(false), "examples")
    && AllOf(reg, d.dialects, "schema")
    && DeclaresCodes(reg, d.compile)
  }

  // ---- Malformed findings ----

  lemma NoneMalformed(reg: Registry, findings: seq<Finding>, cls: string)
    requires AllOf(reg, findings, cls) && cls != "malformed"
    ensures !AnyMalformed(findings) && AllConform(reg, findings)
  {
  }

  lemma Joined(reg: Registry, a: seq<Finding>, b: seq<Finding>)
    requires AllConform(reg, a) && AllConform(reg, b)
    ensures AllConform(reg, a + b) && (AnyMalformed(a + b) <==> AnyMalformed(a) || AnyMalformed(b))
  {
    hide Conforms;
    if f :| f in a && f.cls == "malformed" {
      assert f in a + b;
    }
    if f :| f in b && f.cls == "malformed" {
      assert f in a + b;
    }
  }

  lemma Gated(reg: Registry, run: bool, findings: seq<Finding>, cls: string)
    requires AllOf(reg, findings, cls) && cls != "malformed"
    ensures AllConform(reg, If(run, findings)) && !AnyMalformed(If(run, findings))
    ensures AllOf(reg, If(run, findings), cls)
  {
    NoneMalformed(reg, findings, cls);
  }

  lemma BeforeGateIsHygiene(reg: Registry, classes: set<string>, d: Document)
    requires Honest(reg, d)
    ensures AllOf(reg, BeforeGate(classes, d), "hygiene")
    ensures "hygiene" !in classes ==> BeforeGate(classes, d) == []
  {
    hide Conforms;
  }

  lemma ClassedConforms(reg: Registry, findings: seq<Finding>)
    requires MalformedApart(reg) && AllClassed(reg, findings)
    ensures AllConform(reg, findings)
  {
    hide CodesOf;
  }

  lemma SchemaRows(reg: Registry, compiled: seq<Finding>, dialects: seq<Finding>)
    requires Valid(reg) && MalformedApart(reg) && AllClassed(reg, compiled) && AllOf(reg, dialects, "schema")
    ensures AllConform(reg, AddAll(compiled, dialects))
    ensures AnyMalformed(AddAll(compiled, dialects)) <==> AnyMalformed(compiled)
  {
    hide Valid, MalformedApart, CodesOf, AddAll, Known, ErrorKey, AllConform;
    assert AllClassed(reg, dialects);
    AddAllClassed(reg, compiled, dialects);
    ClassedConforms(reg, AddAll(compiled, dialects));
    MalformedIsErrorRow(reg, compiled);
    MalformedIsErrorRow(reg, AddAll(compiled, dialects));
    forall at ensures Known(AddAll(compiled, dialects), ErrorKey(at)) <==> Known(compiled, ErrorKey(at)) {
      AddAllKnows(compiled, dialects, ErrorKey(at));
      DialectKeys(reg, dialects, at);
    }
  }

  lemma {:induction false} DialectKeys(reg: Registry, dialects: seq<Finding>, at: string)
    requires Valid(reg) && MalformedApart(reg) && AllOf(reg, dialects, "schema")
    ensures ErrorKey(at) !in Keys(dialects)
    decreases |dialects|
  {
    hide Valid, MalformedApart, CodesOf, ErrorKey, TableKey;
    if dialects != [] {
      assert dialects[0] in dialects;
      ErrorsKey(reg, dialects[0], at);
      DialectKeys(reg, dialects[1..], at);
    }
  }

  lemma CompiledGate(reg: Registry, run: bool, d: Document)
    requires Valid(reg) && MalformedApart(reg) && DeclaresCodes(reg, d.compile) && Coherent(d.inventory)
    ensures AllClassed(reg, If(run, CompiledRows(d)))
    ensures AnyMalformed(If(run, CompiledRows(d))) <==> run && FindsMalformed(d.inventory, d.compile)
  {
    hide Valid, MalformedApart, DeclaresCodes, Coherent, CachedRun, FindsMalformed, Classed;
    MalformedExactly(reg, d.inventory, d.compile);
  }

  /**
   * A graded run has a malformed finding exactly when it compiled and compiling found one,
   * whatever rows repeats collapse into.
   */
  lemma MalformedProduced(reg: Registry, classes: set<string>, base: set<string>, compileSchemas: bool, d: Document)
    requires Valid(reg) && MalformedApart(reg) && Honest(reg, d) && Coherent(d.inventory)
    ensures var produced := Produced(classes, base, compileSchemas, d);
      && AllConform(reg, produced)
      && (AnyMalformed(produced) <==> "schema" in classes && compileSchemas && FindsMalformed(d.inventory, d.compile))
  {
    hide Valid, MalformedApart, Conforms, AllOf, AllConform, AnyMalformed, If, AddAll, CompiledRows, FindsMalformed,
      DeclaresCodes, Coherent, AllClassed, BeforeGate;
    var a, b := BeforeGate(classes, d), If("hygiene" in classes, d.version);
    var c := If("schema" in classes && FORMAT_CODE in base, d.formats);
    var e := If("conformance" in classes, d.conformance);
    var f := If("examples" in classes, d.examples(compileSchemas));
    var g := If("redos" in classes, d.redos);
    BeforeGateIsHygiene(reg, classes, d);
    NoneMalformed(reg, a, "hygiene");
    Gated(reg, "hygiene" in classes, d.version, "hygiene");
    Gated(reg, "schema" in classes && FORMAT_CODE in base, d.formats, "schema");
    Gated(reg, "conformance" in classes, d.conformance, "conformance");
    Gated(reg, "examples" in classes, d.examples(compileSchemas), "examples");
    Gated(reg, "redos" in classes, d.redos, "redos");
    Gated(reg, DIALECT_CODE in base, d.dialects, "schema");
    CompiledGate(reg, "schema" in classes && compileSchemas, d);
    var compiled := If("schema" in classes && compileSchemas, CompiledRows(d));
    SchemaRows(reg, compiled, If(DIALECT_CODE in base, d.dialects));
    Joined(reg, a, b);
    Joined(reg, a + b, c);
    Joined(reg, a + b + c, e);
    Joined(reg, a + b + c + e, f);
    Joined(reg, a + b + c + e + f, g);
    Joined(reg, a + b + c + e + f + g, AddAll(compiled, If(DIALECT_CODE in base, d.dialects)));
  }

  /** The codes only compiling produces are the schema class's, so its pass runs whenever compiling is asked for. */
  lemma CompilingRunsSchema(reg: Registry, base: set<string>)
    requires "schema" in reg.classes && CompilesFor(reg, base)
    ensures "schema" in ClassesOf(reg, base)
  {
    var code :| code in CompilerOwned(reg) * base;
    assert code in CodesOf(reg, "schema");
  }

  // ---- How a command ends ----

  /** A report and an exit code, or the checker's own error. */
  datatype Ending = Ended(report: seq<Finding>, exit: nat) | Crashed

  ghost function OutcomeFor(reg: Registry, terms: seq<Term>, d: Document): Outcome {
    var base := BaseOfTerms(reg, terms);
    OutcomeOf(ClassesOf(reg, base), base, CompilesFor(reg, base), d)
  }

  /** An aborted run reports what was found by then, graded and withheld as ever, and exits with 2. */
  ghost function EndingOf(
    reg: Registry, terms: seq<Term>, m: SeverityMap, d: Document, failOn: Option<Severity>): Ending
  {
    match OutcomeFor(reg, terms, d)
    case Thrown => Crashed
    case Aborted(findings) => Ended(FinalReport(reg, terms, m, findings), 2)
    case Graded(findings) =>
      var report := FinalReport(reg, terms, m, findings);
      Ended(report, ExitCode(report, failOn))
  }

  /** The whole command: resolve, run the passes the selection asks for, grade, withhold, and gate. */
  method CheckCommand(reg: Registry, terms: seq<Term>, m: SeverityMap, d: Document, failOn: Option<Severity>)
    returns (ending: Ending)
    requires Valid(reg) && TermsParsed(reg, terms)
    ensures ending == EndingOf(reg, terms, m, d, failOn)
  {
    hide Valid, TermsParsed, FinalReport, ExitCode, OutcomeOf, Verdict, LiveExclusions;
    var selection := ResolveFindingSelection(reg, terms);
    var outcome := RunPasses(selection, d);
    match outcome
    case Thrown => ending := Crashed;
    case Aborted(findings) =>
      var partial := GradeAndWithhold(reg, terms, selection, m, findings);
      ending := Ended(partial, 2);
    case Graded(findings) =>
      var report, exit := CheckTail(reg, terms, selection, m, findings, failOn);
      ending := Ended(report, exit);
  }

  /**
   * A run exits with 2 exactly when the validator cannot be built, whatever is selected,
   * excluded or gated on; it then reports hygiene findings only, and none where hygiene is
   * not selected.
   */
  lemma ExitTwoExactly(reg: Registry, terms: seq<Term>, m: SeverityMap, d: Document, failOn: Option<Severity>)
    requires Valid(reg) && TermsParsed(reg, terms) && Honest(reg, d)
    ensures var ending := EndingOf(reg, terms, m, d, failOn);
      && (ending.Ended? && ending.exit == 2 <==> !d.gradeable)
      && (!d.gradeable ==> forall f :: f in ending.report ==>
            f.cls == "hygiene" && "hygiene" in ClassesOf(reg, BaseOfTerms(reg, terms)))
  {
    hide Valid, TermsParsed, FinalReport, BaseOfTerms, ClassesOf, CompilesFor, Produced, Honest, AllConform, BeforeGate,
      Conforms, Reportable, SelectedByAny;
    if !d.gradeable {
      var classes := ClassesOf(reg, BaseOfTerms(reg, terms));
      var findings := BeforeGate(classes, d);
      BeforeGateIsHygiene(reg, classes, d);
      NoneMalformed(reg, findings, "hygiene");
      forall f | f in FinalReport(reg, terms, m, findings) ensures f.cls == "hygiene" && "hygiene" in classes {
        ReportedFindings(reg, terms, m, findings, f);
      }
    }
  }

  /** A run fails with the checker's own error exactly when the document is gradeable and the selected lint throws. */
  lemma CrashesExactly(reg: Registry, terms: seq<Term>, m: SeverityMap, d: Document, failOn: Option<Severity>)
    ensures EndingOf(reg, terms, m, d, failOn).Crashed?
      <==> d.gradeable && d.lint.None? && "hygiene" in ClassesOf(reg, BaseOfTerms(reg, terms))
  {
    hide FinalReport, BaseOfTerms, ClassesOf, CompilesFor, Produced, BeforeGate;
  }

  /**
   * A run exits with 4 exactly when it runs to its end, the inclusions select a code that
   * only compiling produces, and some root's graph cannot be built or fails to compile when
   * its key is first met. Exclusions, grading and the threshold make no difference.
   */
  lemma ExitFourExactly(reg: Registry, terms: seq<Term>, m: SeverityMap, d: Document, failOn: Option<Severity>)
    requires Valid(reg) && MalformedApart(reg) && TermsParsed(reg, terms) && Honest(reg, d) && Coherent(d.inventory)
    ensures var ending := EndingOf(reg, terms, m, d, failOn);
      ending.Ended? && ending.exit == 4
      <==> d.gradeable && !ending.Crashed? && CompilesFor(reg, BaseOfTerms(reg, terms))
             && FindsMalformed(d.inventory, d.compile)
  {
    hide Valid, TermsParsed, FinalReport, BaseOfTerms, CompilesFor, ClassesOf, Produced, Honest, ExitCode, AllConform,
      BeforeGate, Coherent, FindsMalformed;
    var base := BaseOfTerms(reg, terms);
    MalformedProduced(reg, ClassesOf(reg, base), base, CompilesFor(reg, base), d);
    MalformedExitStands(reg, terms, m, Produced(ClassesOf(reg, base), base, CompilesFor(reg, base), d), failOn);
    if CompilesFor(reg, base) {
      CompilingRunsSchema(reg, base);
    }
  }
}

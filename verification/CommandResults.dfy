/**
 * What a command reports and how it exits, said from the findings, the terms and the
 * severities alone.
 */
module CommandResults {
  import opened Options
  import opened Text
  import opened Codes
  import opened FindingKeys
  import opened Selection
  import opened Resolve
  import opened Findings
  import opened SelectionResults
  import opened Reporting
  import opened SchemaFindings
  import opened CacheTransparency
  import opened MalformedRows
  import opened PassGates

  // ---- The exit code of a report ----

  /** The severity is at least the threshold. */
  predicate Meets(s: Severity, threshold: Severity) {
    match threshold
    case Warning => true
    case Error => s == Error || s == Fatal
    case Fatal => s == Fatal
  }

  /** Some finding of the report is at least as severe as the threshold; without one nothing is. */
  ghost predicate Trips(report: seq<Finding>, failOn: Option<Severity>) {
    failOn.Some? && exists f :: f in report && Meets(f.severity, failOn.value)
  }

  /** The exit code is 4 for a malformed finding, else 1 for one that meets the threshold, else 0. */
  lemma ExitCodeExactly(report: seq<Finding>, failOn: Option<Severity>)
    ensures ExitCode(report, failOn) == 4 <==> AnyMalformed(report)
    ensures ExitCode(report, failOn) == 1 <==> !AnyMalformed(report) && Trips(report, failOn)
    ensures ExitCode(report, failOn) == 0 <==> !AnyMalformed(report) && !Trips(report, failOn)
  {
    forall f | f in report && failOn.Some?
      ensures Meets(f.severity, failOn.value) <==> Level(f.severity) >= Level(failOn.value) {
    }
  }

  // ---- The severity a finding is reported with ----

  /** A grade for the code wins over one for its family, and that over one for the class. */
  lemma SeverityExactly(m: SeverityMap, f: Finding)
    ensures f.code in m.byCode ==> SeverityFor(m, f) == m.byCode[f.code]
    ensures forall family :: f.code !in m.byCode && InFamily(f.code, family) && family in m.byFamily ==>
      SeverityFor(m, f) == m.byFamily[family]
    ensures f.code !in m.byCode && (forall family :: InFamily(f.code, family) ==> family !in m.byFamily) ==>
      SeverityFor(m, f) == if f.cls in m.byClass then m.byClass[f.cls] else f.severity
  {
    hide InFamily;
    forall family ensures InFamily(f.code, family) <==> '/' in f.code && f.code[..IndexOf(f.code, '/')] == family {
      FamilyExactly(f.code, family);
    }
  }

  // ---- What the terms select ----

  /** A code is in the base when it can be selected and nothing is included, or some inclusion names it. */
  lemma BaseExactly(reg: Registry, terms: seq<Term>, code: string)
    requires Valid(reg) && TermsParsed(reg, terms)
    ensures code in BaseOfTerms(reg, terms) <==>
      && (exists cls :: cls in reg.classes && code in CodesOf(reg, cls))
      && ((forall t :: t in terms ==> t.exclude)
          || exists t :: t in terms && !t.exclude && code in Expand(reg, t.key))
  {
    hide Parsed, Valid, Expand;
    AllKeysParsed(reg, terms, false);
    if t :| t in terms && !t.exclude {
      assert t.key in KeysOf(terms, false);
    }
    forall k | k in KeysOf(terms, false) ensures Expand(reg, k) <= Selectable(reg) {
      ExpandsToSomething(reg, k);
    }
    if code in BaseOfTerms(reg, terms) && KeysOf(terms, false) != {} {
      var k :| k in KeysOf(terms, false) && code in Expand(reg, k);
      var t :| t in terms && !t.exclude && t.key == k;
    }
  }

  /** A class runs when some code of it is selected. */
  lemma ClassesExactly(reg: Registry, base: set<string>, cls: string)
    ensures cls in ClassesOf(reg, base)
      <==> cls in reg.classes && exists code :: code in base && code in CodesOf(reg, cls)
  {
  }

  /** A key names one code, the codes of one family, or the codes of one class, the malformed ones never. */
  lemma ExpandExactly(reg: Registry, key: FindingKeys.Key, code: string)
    requires Valid(reg) && Parsed(reg, key)
    ensures code in Expand(reg, key) <==>
      && (exists cls :: cls in reg.classes && code in CodesOf(reg, cls))
      && match key.kind
         case CodeKey => code == key.value
         case FamilyKey => InFamily(code, key.value)
         case ClassKey => code in CodesOf(reg, key.value)
  {
    if key.kind == FamilyKey {
      FamilyIsPrefix(code, key.value);
      FamilyExactly(code, key.value);
    }
  }

  /** Some exclusion names the code. */
  predicate IsExcluded(reg: Registry, terms: seq<Term>, code: string) {
    exists t :: t in terms && t.exclude && code in Expand(reg, t.key)
  }

  lemma ExcludedExactly(reg: Registry, terms: seq<Term>, f: Finding)
    requires Valid(reg) && TermsParsed(reg, terms) && Conforms(reg, f) && f.cls != "malformed"
    ensures SelectedByAny(KeysOf(terms, true), f) <==> IsExcluded(reg, terms, f.code)
  {
    hide Valid, Parsed, Conforms, Matches, Expand;
    AllKeysParsed(reg, terms, true);
    forall k | k in KeysOf(terms, true) ensures Matches(k, f) <==> f.code in Expand(reg, k) {
      MatchesByCode(reg, k, f);
    }
    if IsExcluded(reg, terms, f.code) {
      var t :| t in terms && t.exclude && f.code in Expand(reg, t.key);
      assert t.key in KeysOf(terms, true);
    }
  }

  /** A finding that is produced, selected, and not excluded. */
  ghost predicate Reports(reg: Registry, terms: seq<Term>, produced: seq<Finding>, g: Finding) {
    g in produced && g.cls != "malformed" && g.code in BaseOfTerms(reg, terms) && !IsExcluded(reg, terms, g.code)
  }

  /** The report holds the malformed findings as they are, and every other reported finding with its grade. */
  lemma ReportExactly(reg: Registry, terms: seq<Term>, m: SeverityMap, produced: seq<Finding>, f: Finding)
    requires Valid(reg) && TermsParsed(reg, terms) && AllConform(reg, produced)
    ensures f in FinalReport(reg, terms, m, produced) <==>
      || (f in produced && f.cls == "malformed")
      || exists g :: Reports(reg, terms, produced, g) && f == g.(severity := SeverityFor(m, g))
  {
    hide Valid, TermsParsed, FinalReport, BaseOfTerms, Conforms, SeverityFor, IsExcluded, SelectedByAny, Selectable;
    if f.cls == "malformed" {
      MalformedIsAlwaysReported(reg, terms, m, produced, f);
    } else {
      ReportedFindings(reg, terms, m, produced, f);
      if f in FinalReport(reg, terms, m, produced) {
        var g :| g in produced && Reportable(reg, BaseOfTerms(reg, terms), g) && Regraded(m, g) == f
          && !SelectedByAny(KeysOf(terms, true), f);
        GradedLikewise(reg, terms, m, g);
        assert Reports(reg, terms, produced, g);
      }
      if g :| Reports(reg, terms, produced, g) && f == g.(severity := SeverityFor(m, g)) {
        GradedLikewise(reg, terms, m, g);
        assert Reportable(reg, BaseOfTerms(reg, terms), g) && Regraded(m, g) == f;
      }
    }
  }

  lemma GradedLikewise(reg: Registry, terms: seq<Term>, m: SeverityMap, g: Finding)
    requires Valid(reg) && TermsParsed(reg, terms) && Conforms(reg, g) && g.cls != "malformed"
    ensures Regraded(m, g) == g.(severity := SeverityFor(m, g))
    ensures SelectedByAny(KeysOf(terms, true), Regraded(m, g)) <==> IsExcluded(reg, terms, g.code)
    ensures Reportable(reg, BaseOfTerms(reg, terms), g) <==> g.code in BaseOfTerms(reg, terms)
  {
    hide Valid, TermsParsed, BaseOfTerms, SeverityFor, IsExcluded, SelectedByAny;
    ConformsSelectable(reg, g, Regraded(m, g));
    ConformsSelectable(reg, g, g);
    ExcludedExactly(reg, terms, Regraded(m, g));
  }

  // ---- How a command exits ----

  ghost function ProducedFor(reg: Registry, terms: seq<Term>, d: Document): seq<Finding> {
    var base := BaseOfTerms(reg, terms);
    Produced(ClassesOf(reg, base), base, CompilesFor(reg, base), d)
  }

  /** Some finding that is produced, selected and not excluded has a grade that meets the threshold. */
  ghost predicate TripsGate(
    reg: Registry, terms: seq<Term>, m: SeverityMap, d: Document, failOn: Option<Severity>)
  {
    failOn.Some?
    && exists g :: Reports(reg, terms, ProducedFor(reg, terms, d), g) && Meets(SeverityFor(m, g), failOn.value)
  }

  /** The command compiles, and compiling finds a malformed schema. */
  ghost predicate MeetsMalformed(reg: Registry, terms: seq<Term>, d: Document) {
    CompilesFor(reg, BaseOfTerms(reg, terms)) && FindsMalformed(d.inventory, d.compile)
  }

  /**
   * A command that is neither stopped nor fails exits with 1 exactly when it finds no
   * malformed schema and reports a finding that meets the threshold, and with 0 exactly
   * when it does neither.
   */
  lemma ExitOneExactly(reg: Registry, terms: seq<Term>, m: SeverityMap, d: Document, failOn: Option<Severity>)
    requires Valid(reg) && MalformedApart(reg) && TermsParsed(reg, terms) && Honest(reg, d) && Coherent(d.inventory)
    requires d.gradeable && !EndingOf(reg, terms, m, d, failOn).Crashed?
    ensures var exit := EndingOf(reg, terms, m, d, failOn).exit;
      && (exit == 1 <==> !MeetsMalformed(reg, terms, d) && TripsGate(reg, terms, m, d, failOn))
      && (exit == 0 <==> !MeetsMalformed(reg, terms, d) && !TripsGate(reg, terms, m, d, failOn))
  {
    hide Valid, MalformedApart, TermsParsed, Honest, Coherent, FinalReport, BaseOfTerms, CompilesFor, ClassesOf,
      Produced,
      ExitCode, AllConform, FindsMalformed, SeverityFor, Meets, Reports;
    var produced := ProducedFor(reg, terms, d);
    var report := FinalReport(reg, terms, m, produced);
    var base := BaseOfTerms(reg, terms);
    MalformedProduced(reg, ClassesOf(reg, base), base, CompilesFor(reg, base), d);
    ExitFourExactly(reg, terms, m, d, failOn);
    ExitCodeExactly(report, failOn);
    if !AnyMalformed(report) {
      ReportTrips(reg, terms, m, produced, failOn);
    }
  }

  lemma ReportTrips(
    reg: Registry, terms: seq<Term>, m: SeverityMap, produced: seq<Finding>, failOn: Option<Severity>)
    requires Valid(reg) && TermsParsed(reg, terms) && AllConform(reg, produced)
    requires !AnyMalformed(FinalReport(reg, terms, m, produced))
    ensures Trips(FinalReport(reg, terms, m, produced), failOn) <==>
      failOn.Some? && exists g :: Reports(reg, terms, produced, g) && Meets(SeverityFor(m, g), failOn.value)
  {
    hide Valid, TermsParsed, FinalReport, AllConform, SeverityFor, Meets, Reports;
    var report := FinalReport(reg, terms, m, produced);
    if failOn.Some? {
      if f :| f in report && Meets(f.severity, failOn.value) {
        ReportExactly(reg, terms, m, produced, f);
        var g :| Reports(reg, terms, produced, g) && f == g.(severity := SeverityFor(m, g));
      }
      if g :| Reports(reg, terms, produced, g) && Meets(SeverityFor(m, g), failOn.value) {
        var f := g.(severity := SeverityFor(m, g));
        ReportExactly(reg, terms, m, produced, f);
        assert f in report && Meets(f.severity, failOn.value);
      }
    }
  }

  // ---- Gating passes loses nothing ----

  /** What the passes of the finding's own class find; the schema class has its own table. */
  predicate FindsOfClass(d: Document, compiles: bool, g: Finding) {
    || (g.cls == "hygiene"
        && (g in d.lint.GetOr([]) || g in d.unserved || g in d.conflicts || g in d.version))
    || (g.cls == "conformance" && g in d.conformance)
    || (g.cls == "examples" && g in d.examples(compiles))
    || (g.cls == "redos" && g in d.redos)
  }

  lemma ClassRuns(reg: Registry, base: set<string>, g: Finding)
    requires Conforms(reg, g) && g.cls != "malformed" && g.code in base
    ensures g.cls in ClassesOf(reg, base)
  {
  }

  lemma OfOtherClass(reg: Registry, findings: seq<Finding>, cls: string, g: Finding)
    requires AllOf(reg, findings, cls) && g.cls != cls
    ensures g !in findings
  {
  }

  lemma RowsOfSchema(reg: Registry, classes: set<string>, base: set<string>, compiles: bool, d: Document, g: Finding)
    requires Valid(reg) && MalformedApart(reg) && Honest(reg, d) && Coherent(d.inventory)
    requires g in AddAll(If("schema" in classes && compiles, CompiledRows(d)), If(DIALECT_CODE in base, d.dialects))
    ensures g.cls == "schema" || g.cls == "malformed"
  {
    hide Valid, MalformedApart, Coherent, AddAll, CompiledRows, CodesOf, FindsMalformed, DeclaresCodes;
    var compiled, dialects := If("schema" in classes && compiles, CompiledRows(d)),
      If(DIALECT_CODE in base, d.dialects);
    CompiledGate(reg, "schema" in classes && compiles, d);
    assert AllClassed(reg, dialects);
    AddAllClassed(reg, compiled, dialects);
  }

  /**
   * Running a pass only when its class is selected loses nothing: a finding whose code is
   * selected is produced exactly when the pass of its class would find it.
   */
  lemma GatesLoseNothing(reg: Registry, terms: seq<Term>, d: Document, g: Finding)
    requires Valid(reg) && MalformedApart(reg) && Honest(reg, d) && Coherent(d.inventory)
    requires Conforms(reg, g) && g.cls != "schema" && g.cls != "malformed" && g.code in BaseOfTerms(reg, terms)
    ensures g in ProducedFor(reg, terms, d) <==> FindsOfClass(d, CompilesFor(reg, BaseOfTerms(reg, terms)), g)
  {
    hide Valid, MalformedApart, Coherent, AddAll, CompiledRows, CompilesFor, BaseOfTerms, Conforms, ClassesOf;
    var base := BaseOfTerms(reg, terms);
    var classes, compiles := ClassesOf(reg, base), CompilesFor(reg, base);
    ClassRuns(reg, base, g);
    var rows := AddAll(If("schema" in classes && compiles, CompiledRows(d)), If(DIALECT_CODE in base, d.dialects));
    if g in rows {
      RowsOfSchema(reg, classes, base, compiles, d, g);
    }
    ProducedMember(classes, base, compiles, d, g);
  }

  lemma ProducedMember(classes: set<string>, base: set<string>, compiles: bool, d: Document, g: Finding)
    ensures g in Produced(classes, base, compiles, d) <==>
      || ("hygiene" in classes && (g in d.lint.GetOr([]) || g in d.unserved || g in d.conflicts || g in d.version))
      || ("schema" in classes && FORMAT_CODE in base && g in d.formats)
      || ("conformance" in classes && g in d.conformance)
      || ("examples" in classes && g in d.examples(compiles))
      || ("redos" in classes && g in d.redos)
      || g in AddAll(If("schema" in classes && compiles, CompiledRows(d)), If(DIALECT_CODE in base, d.dialects))
  {
    hide AddAll, CompiledRows;
  }

  /** Schemas are compiled exactly when some selected code can come from the compiler alone. */
  lemma CompilesExactly(reg: Registry, base: set<string>)
    ensures CompilesFor(reg, base) <==> exists code :: code in base && code in CompilerOwned(reg)
    ensures forall code :: code in CompilerOwned(reg) <==>
      code in CodesOf(reg, "schema") && code !in CodesOf(reg, "malformed") && code != FORMAT_CODE
        && code != DIALECT_CODE
  {
    if code :| code in base && code in CompilerOwned(reg) {
      assert code in CompilerOwned(reg) * base;
    }
  }

  /** The run has a row of the finding: itself, or one it counts against. */
  ghost predicate HasRowOf(produced: seq<Finding>, g: Finding) {
    exists row :: row in produced && TableKey(row) == TableKey(g)
  }

  /**
   * The same of the schema class: a selected format finding is produced, and a selected
   * diagnostic of the compiler, a malformed schema, or a selected dialect finding has its
   * row in the table.
   */
  lemma SchemaGatesLoseNothing(reg: Registry, terms: seq<Term>, d: Document, g: Finding)
    requires "schema" in reg.classes && Conforms(reg, g)
    ensures var base := BaseOfTerms(reg, terms); var produced := ProducedFor(reg, terms, d);
      && (g in d.formats && g.cls == "schema" && g.code == FORMAT_CODE && g.code in base ==> g in produced)
      && (g in CompiledRows(d) && g.code in CompilerOwned(reg) && g.code in base ==> HasRowOf(produced, g))
      && (g in CompiledRows(d) && g.cls == "malformed" && CompilesFor(reg, base) ==> HasRowOf(produced, g))
      && (g in d.dialects && g.code == DIALECT_CODE && g.code in base ==> HasRowOf(produced, g))
  {
    hide AddAll, CompiledRows, BaseOfTerms, Conforms, ClassesOf, TableKey, Known, CompilerOwned;
    var base := BaseOfTerms(reg, terms);
    var classes, compiles := ClassesOf(reg, base), CompilesFor(reg, base);
    var compiled, dialects := If("schema" in classes && compiles, CompiledRows(d)),
      If(DIALECT_CODE in base, d.dialects);
    ProducedMember(classes, base, compiles, d, g);
    if g.cls == "schema" && g.code in base {
      ClassRuns(reg, base, g);
    }
    CompilesExactly(reg, base);
    if compiles {
      CompilingRunsSchema(reg, base);
    }
    if g in compiled || g in dialects {
      RowStays(compiled, dialects, g);
      var row :| row in AddAll(compiled, dialects) && TableKey(row) == TableKey(g);
      ProducedMember(classes, base, compiles, d, row);
    }
  }

  lemma RowStays(table: seq<Finding>, findings: seq<Finding>, g: Finding)
    requires g in table || g in findings
    ensures HasRowOf(AddAll(table, findings), g)
  {
    hide TableKey, AddAll;
    if g in table {
      var i :| 0 <= i < |table| && table[i] == g;
      RowOfIsFirst(table, TableKey(g), i);
    } else {
      KeyAmong(findings, g);
    }
    AddAllKnows(table, findings, TableKey(g));
    var all := AddAll(table, findings);
    assert all[RowOf(all, TableKey(g))] in all;
  }

  lemma {:induction false} KeyAmong(findings: seq<Finding>, g: Finding)
    requires g in findings
    ensures TableKey(g) in Keys(findings)
    decreases |findings|
  {
    hide TableKey;
    if findings[0] != g {
      KeyAmong(findings[1..], g);
    }
  }

  // ---- Order ----

  /** Withholding keeps, in order, the findings no key selects. */
  lemma {:induction false} KeptPicks(findings: seq<Finding>, keys: seq<FindingKeys.Key>) returns (at: seq<nat>)
    ensures Picks(Kept(findings, keys), findings, at)
    ensures forall k: nat :: k < |findings| ==> (k in at <==> forall key :: key in keys ==> !Matches(key, findings[k]))
  {
    hide Matches;
    if findings == [] {
      at := [];
    } else {
      var rest := KeptPicks(findings[1..], keys);
      var taken := forall key :: key in keys ==> !Matches(key, findings[0]);
      hide Picks, InFront;
      at := InFront(taken, rest);
      PicksInFront(Kept(findings[1..], keys), findings, rest, taken);
      assert KeptOne(findings[0], keys) == if taken then [findings[0]] else [];
      forall k: nat | k < |findings|
        ensures k in at <==> forall key :: key in keys ==> !Matches(key, findings[k]) {
        InFrontMember(taken, rest, k);
      }
    }
  }

  /** A key selects a finding by its code, by its code's family, or by its class. */
  lemma MatchesExactly(key: FindingKeys.Key, f: Finding)
    requires key.kind == FamilyKey ==> '/' !in key.value
    ensures Matches(key, f) <==>
      match key.kind
      case CodeKey => f.code == key.value
      case FamilyKey => InFamily(f.code, key.value)
      case ClassKey => f.cls == key.value
  {
    FamilyExactly(f.code, key.value);
  }

  /** Narrowing keeps, in order, the malformed findings and those whose code is in the base or not the registry's. */
  lemma {:induction false} NarrowPicks(reg: Registry, base: set<string>, findings: seq<Finding>) returns (at: seq<nat>)
    ensures Picks(Narrow(reg, base, findings), findings, at)
    ensures forall k: nat :: k < |findings| ==>
      (k in at <==> findings[k].cls == "malformed" || findings[k].code in base || findings[k].code !in Selectable(reg))
  {
    hide Selectable;
    if findings == [] {
      at := [];
    } else {
      var rest := NarrowPicks(reg, base, findings[1..]);
      var taken := Reportable(reg, base, findings[0]);
      hide Picks, InFront;
      at := InFront(taken, rest);
      PicksInFront(Narrow(reg, base, findings[1..]), findings, rest, taken);
      forall k: nat | k < |findings| ensures k in at <==> Reportable(reg, base, findings[k]) {
        InFrontMember(taken, rest, k);
      }
    }
  }

  /** Grading is narrowing, with each finding but the malformed ones given its grade and nothing else changed. */
  lemma {:induction false} GradedEach(reg: Registry, base: set<string>, m: SeverityMap, findings: seq<Finding>)
    ensures var narrowed, graded := Narrow(reg, base, findings), Reporting.Graded(reg, base, m, findings);
      && |graded| == |narrowed|
      && forall k :: 0 <= k < |graded| ==>
           graded[k] == if narrowed[k].cls == "malformed" then narrowed[k]
                        else narrowed[k].(severity := SeverityFor(m, narrowed[k]))
  {
    hide Reportable, SeverityFor;
    if findings != [] {
      GradedEach(reg, base, m, findings[1..]);
    }
  }

  // ---- What is said of a term that changes nothing ----

  /** The codes a term is judged by: all that can be selected, or for an exclusion those of the base. */
  ghost predicate IsInUniverse(reg: Registry, terms: seq<Term>, exclude: bool, code: string) {
    if exclude then code in BaseOfTerms(reg, terms) else code in Selectable(reg)
  }

  /** A term of this sign that is left standing, other than one with this key, names the code. */
  ghost predicate NamedByOther(reg: Registry, terms: seq<Term>, i: nat, code: string)
    requires i < |terms|
  {
    exists j :: 0 <= j < |terms| && terms[j].exclude == terms[i].exclude && terms[j].key != terms[i].key
      && Verdict(reg, terms, j).None? && code in Expand(reg, terms[j].key)
  }

  /** All the term names in its universe. */
  ghost predicate NamesInside(reg: Registry, terms: seq<Term>, i: nat, code: string)
    requires i < |terms|
  {
    code in Expand(reg, terms[i].key) && IsInUniverse(reg, terms, terms[i].exclude, code)
  }

  lemma OtherIsLive(reg: Registry, terms: seq<Term>, i: nat, code: string)
    requires Valid(reg) && TermsParsed(reg, terms) && i < |terms|
    ensures var keys, within := KeysOf(terms, terms[i].exclude), Universe(reg, terms, terms[i].exclude);
      NamedByOther(reg, terms, i, code)
      <==> exists k :: k != terms[i].key && Live(reg, keys, within, k) && code in Expand(reg, k)
  {
    hide Valid, TermsParsed, Verdict, Live, Expand, Universe;
    var keys, within := KeysOf(terms, terms[i].exclude), Universe(reg, terms, terms[i].exclude);
    if NamedByOther(reg, terms, i, code) {
      var j :| 0 <= j < |terms| && terms[j].exclude == terms[i].exclude && terms[j].key != terms[i].key
        && Verdict(reg, terms, j).None? && code in Expand(reg, terms[j].key);
      VerdictIsLive(reg, terms, j);
    }
    if k :| k != terms[i].key && Live(reg, keys, within, k) && code in Expand(reg, k) {
      LiveMember(reg, keys, within, k);
      var t :| t in terms && t.exclude == terms[i].exclude && t.key == k;
      var n: nat :| n < |terms| && terms[n] == t;
      var j := FirstWith(terms, t, n);
      VerdictIsLive(reg, terms, j);
    }
  }

  lemma JudgedExactly(reg: Registry, keys: set<FindingKeys.Key>, within: set<string>, key: FindingKeys.Key)
    requires Valid(reg) && AllParsed(reg, keys) && key in keys && Inside(reg, within, key) != {}
    ensures Covered(reg, keys, within, key) <==> forall code :: code in Inside(reg, within, key) ==>
      exists k :: k != key && Live(reg, keys, within, k) && code in Expand(reg, k)
  {
    hide Valid, AllParsed, Covered, Expand, Inside;
    if Covered(reg, keys, within, key) {
      forall code | code in Inside(reg, within, key)
        ensures exists k :: k != key && Live(reg, keys, within, k) && code in Expand(reg, k) {
        var k := LiveKeysCover(reg, keys, within, key, code);
        assert code in Expand(reg, k) by { InsideNames(reg, within, k, code); }
      }
    } else {
      var code := LiveKeyIsNeeded(reg, keys, within, key);
      assert code in Inside(reg, within, key);
    }
  }

  lemma InsideNames(reg: Registry, within: set<string>, key: FindingKeys.Key, code: string)
    ensures code in Inside(reg, within, key) <==> code in Expand(reg, key) && code in within
  {
  }

  /**
   * What is said of a term: that it repeats an earlier one with its sign and key; or, of an
   * exclusion, that nothing it names is in the base; or that terms left standing name all
   * it names already. Nothing is said of a term exactly when none of these holds.
   */
  lemma VerdictExactly(reg: Registry, terms: seq<Term>, i: nat)
    requires Valid(reg) && TermsParsed(reg, terms) && i < |terms|
    ensures var v := Verdict(reg, terms, i);
      var repeats := exists j :: 0 <= j < i && terms[j].exclude == terms[i].exclude && terms[j].key == terms[i].key;
      var outside := forall code :: !NamesInside(reg, terms, i, code);
      var named := forall code :: NamesInside(reg, terms, i, code) ==> NamedByOther(reg, terms, i, code);
      && (v == Some(Repeats) <==> repeats)
      && (v == Some(OutsideSelection) <==> !repeats && outside)
      && (v == Some(AlreadyExcluded) <==> !repeats && !outside && terms[i].exclude && named)
      && (v == Some(AlreadySelected) <==> !repeats && !outside && !terms[i].exclude && named)
      && (v == None <==> !repeats && !outside && !named)
  {
    hide Valid, Parsed, Covered, Expand, NamedByOther, BaseOfTerms, Selectable, Live;
    var t := terms[i];
    var keys, within := KeysOf(terms, t.exclude), Universe(reg, terms, t.exclude);
    AllKeysParsed(reg, terms, t.exclude);
    assert t in terms && t.key in keys;
    forall code ensures NamesInside(reg, terms, i, code) <==> code in Inside(reg, within, t.key) {
      InsideNames(reg, within, t.key, code);
    }
    forall code ensures NamedByOther(reg, terms, i, code)
      <==> exists k :: k != t.key && Live(reg, keys, within, k) && code in Expand(reg, k) {
      OtherIsLive(reg, terms, i, code);
    }
    if Inside(reg, within, t.key) != {} {
      JudgedExactly(reg, keys, within, t.key);
    } else {
      NothingInside(reg, terms, i);
    }
  }

  /** An inclusion always names something that can be selected. */
  lemma NothingInside(reg: Registry, terms: seq<Term>, i: nat)
    requires Valid(reg) && TermsParsed(reg, terms) && i < |terms|
    requires Inside(reg, Universe(reg, terms, terms[i].exclude), terms[i].key) == {}
    ensures terms[i].exclude
  {
    hide Valid, Parsed, Expand, Selectable, BaseOfTerms;
    assert terms[i] in terms;
    ExpandsToSomething(reg, terms[i].key);
    assert Inside(reg, Selectable(reg), terms[i].key) == Expand(reg, terms[i].key);
  }

  // ---- A run that is stopped ----

  /** What the hygiene pass had found when building the validator failed. */
  predicate FoundBefore(d: Document, g: Finding) {
    g in d.lint.GetOr([]) || g in d.unserved || g in d.conflicts
  }

  ghost predicate ReportsBefore(reg: Registry, terms: seq<Term>, d: Document, g: Finding) {
    FoundBefore(d, g) && g.code in BaseOfTerms(reg, terms) && !IsExcluded(reg, terms, g.code)
  }

  /** A stopped run reports exactly the hygiene findings met by then that are selected and not excluded, graded. */
  lemma StoppedReports(reg: Registry, terms: seq<Term>, m: SeverityMap, d: Document, failOn: Option<Severity>,
    f: Finding)
    requires Valid(reg) && TermsParsed(reg, terms) && Honest(reg, d) && !d.gradeable
    ensures f in EndingOf(reg, terms, m, d, failOn).report
      <==> exists g :: ReportsBefore(reg, terms, d, g) && f == g.(severity := SeverityFor(m, g))
  {
    hide Valid, TermsParsed, FinalReport, BaseOfTerms, ClassesOf, CompilesFor, Produced, AllConform, Conforms,
      IsExcluded,
      SeverityFor;
    var base := BaseOfTerms(reg, terms);
    var classes := ClassesOf(reg, base);
    var found := BeforeGate(classes, d);
    BeforeGateIsHygiene(reg, classes, d);
    NoneMalformed(reg, found, "hygiene");
    ReportExactly(reg, terms, m, found, f);
    forall g: Finding | g.code in base && FoundBefore(d, g) ensures g in found {
      ClassRuns(reg, base, g);
    }
    forall g: Finding | g in found ensures FoundBefore(d, g) && g.cls == "hygiene" {
    }
    forall g: Finding ensures ReportsBefore(reg, terms, d, g) <==> Reports(reg, terms, found, g) {
    }
  }
}

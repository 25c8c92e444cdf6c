/**
 * When the table of schema findings holds a malformed schema.
 */
module MalformedRows {
  import opened Options
  import opened Dialects
  import opened Codes
  import opened Findings
  import opened SchemaFindings
  import opened CacheRuns
  import opened CacheTransparency
  import opened CacheRows

  /** The compiler's diagnostics have declared codes. */
  ghost predicate DeclaresCodes(reg: Registry, compile: Compiler) {
    forall input: Input, issue :: compile(input).Issues? && issue in compile(input).issues ==>
      issue.code in CodesOf(reg, "schema")
  }

  // ---- The table of schema findings ----

  /** A finding the table of schema findings holds. */
  predicate Classed(reg: Registry, f: Finding) {
    || (f.cls == "schema" && f.code in CodesOf(reg, "schema"))
    || (f.cls == "malformed" && f.code == "malformed-schema" && f.target.Some?)
  }

  ghost predicate AllClassed(reg: Registry, findings: seq<Finding>) {
    forall f :: f in findings ==> Classed(reg, f)
  }

  lemma AddClassed(reg: Registry, table: seq<Finding>, f: Finding)
    requires AllClassed(reg, table) && Classed(reg, f)
    ensures AllClassed(reg, Add(table, f))
  {
    hide TableKey, CodesOf;
    var next := Add(table, f);
    forall g | g in next ensures Classed(reg, g) {
      var i :| 0 <= i < |next| && next[i] == g;
      if i < |table| {
        assert table[i] in table;
        assert next[i] == table[i] || next[i] == Repeated(table[i]);
      }
    }
  }

  lemma {:induction false} AddAllClassed(reg: Registry, table: seq<Finding>, findings: seq<Finding>)
    requires AllClassed(reg, table) && AllClassed(reg, findings)
    ensures AllClassed(reg, AddAll(table, findings))
    decreases |findings|
  {
    hide TableKey, CodesOf;
    if findings != [] {
      assert findings[0] in findings;
      AddClassed(reg, table, findings[0]);
      AddAllClassed(reg, Add(table, findings[0]), findings[1..]);
    }
  }

  lemma {:induction false} IssuesClassed(reg: Registry, issues: seq<Issue>, seen: set<string>, given: Anchor)
    requires forall issue :: issue in issues ==> issue.code in CodesOf(reg, "schema")
    ensures AllClassed(reg, IssueFindings(Distinct(issues, seen), given))
    ensures forall issue :: issue in Distinct(issues, seen) ==> issue in issues
    decreases |issues|
  {
    hide CodesOf, IssueKey;
    if issues != [] {
      assert issues[0] in issues;
      if IssueKey(issues[0]) in seen {
        IssuesClassed(reg, issues[1..], seen, given);
      } else {
        IssuesClassed(reg, issues[1..], seen + {IssueKey(issues[0])}, given);
        var rest := Distinct(issues[1..], seen + {IssueKey(issues[0])});
        assert ([issues[0]] + rest)[1..] == rest;
      }
    }
  }

  lemma CompiledClassed(reg: Registry, compile: Compiler, root: Root, input: Input)
    requires DeclaresCodes(reg, compile)
    ensures AllClassed(reg, CompileFindings(compile, root, input))
  {
    hide CodesOf;
    match compile(input)
    case Failed(_, _) =>
    case Issues(issues) => IssuesClassed(reg, issues, {}, AnchorAt(input.pointer, root.pointer));
  }

  lemma {:induction false} AtEntryClassed(reg: Registry, p: Pass, root: Root, findings: seq<Finding>)
    requires AllClassed(reg, findings)
    ensures AllClassed(reg, AllAtEntry(p, root, findings))
    decreases |findings|
  {
    hide CodesOf;
    if findings != [] {
      assert findings[0] in findings;
      AtEntryClassed(reg, p, root, findings[1..]);
    }
  }

  /**
   * Everything in the table of the pass is a diagnostic with a declared code, or a malformed schema
   * with an address.
   */
  lemma {:induction false} RunClassed(reg: Registry, p: Pass, compile: Compiler, n: nat)
    requires Coherent(p) && DeclaresCodes(reg, compile) && n <= |p.AllRoots()|
    ensures AllClassed(reg, CachedRun(p, compile, n).s.table)
  {
    hide Coherent, DeclaresCodes, CachedStep, CachedEmits, CoveredAt, Remembers, SameCover, Classed, Passes, AddAll;
    if n > 0 {
      RunClassed(reg, p, compile, n - 1);
      var k := CachedRun(p, compile, n - 1);
      InStep(p, compile, n - 1);
      CachedStepIs(p, compile, k, n - 1);
      EmitsClassed(reg, p, compile, k, n - 1);
      AddAllClassed(reg, k.s.table, CachedEmits(p, compile, k, n - 1));
    }
  }

  lemma EmitsClassed(reg: Registry, p: Pass, compile: Compiler, k: Cached, n: nat)
    requires DeclaresCodes(reg, compile) && n < |p.AllRoots()| && Remembers(p, compile, k.cache, n)
    ensures AllClassed(reg, CachedEmits(p, compile, k, n))
  {
    hide DeclaresCodes, Remembers, CompileFindings, AllAtEntry, GraphError, PreparedAt, SpotAt, Considered, InputAt,
      AllClassed;
    var root := p.AllRoots()[n];
    if n in p.rootErrors {
      GraphErrorClassed(reg, p, n);
    }
    CompiledClassed(reg, compile, root, InputAt(p, n));
    AtEntryClassed(reg, p, root, CompileFindings(compile, root, InputAt(p, n)));
    if KeyOf(SpotAt(p, n)) in k.cache {
      var i := RememberedFrom(p, compile, k.cache, n, KeyOf(SpotAt(p, n)));
      CompiledClassed(reg, compile, p.AllRoots()[i], InputAt(p, i));
      AtEntryClassed(reg, p, root, k.cache[KeyOf(SpotAt(p, n))]);
    }
    NothingClassed(reg);
  }

  lemma GraphErrorClassed(reg: Registry, p: Pass, n: nat)
    requires n < |p.AllRoots()| && n in p.rootErrors
    ensures AllClassed(reg, GraphError(p, n))
  {
  }

  lemma NothingClassed(reg: Registry)
    ensures AllClassed(reg, [])
  {
  }

  ghost predicate AnyMalformed(findings: seq<Finding>) {
    exists f :: f in findings && f.cls == "malformed"
  }

  /** A malformed finding has an error's key, and no diagnostic has. */
  lemma ErrorsKey(reg: Registry, f: Finding, at: string)
    requires Valid(reg) && MalformedApart(reg) && Classed(reg, f)
    ensures f.cls == "malformed" ==> f.target.Some? && TableKey(f) == ErrorKey(f.target.value.pointer)
    ensures f.cls != "malformed" ==> TableKey(f) != ErrorKey(at)
  {
    if f.cls != "malformed" {
      assert Apart(CodesOf(reg, "schema"), CodesOf(reg, "malformed"));
      var target := Some(FindingTarget(at, NodeAnchor, None));
      var g := Finding("malformed", Fatal, "malformed-schema", "", "", target, [], None, [], []);
      assert TableKey(g) == ErrorKey(at);
      assert !HoldsNul("malformed-schema");
      if TableKey(f) == TableKey(g) {
        SameRowSameCode(f, g);
      }
    }
  }

  ghost predicate HasErrorRow(table: seq<Finding>) {
    exists at :: Known(table, ErrorKey(at))
  }

  lemma MalformedIsErrorRow(reg: Registry, table: seq<Finding>)
    requires Valid(reg) && MalformedApart(reg) && AllClassed(reg, table)
    ensures AnyMalformed(table) <==> HasErrorRow(table)
  {
    hide Valid, MalformedApart, Classed, TableKey, ErrorKey;
    if f :| f in table && f.cls == "malformed" {
      ErrorsKey(reg, f, "");
      var i :| 0 <= i < |table| && table[i] == f;
      RowOfIsFirst(table, ErrorKey(f.target.value.pointer), i);
    }
    if at :| Known(table, ErrorKey(at)) {
      var f := table[RowOf(table, ErrorKey(at))];
      ErrorsKey(reg, f, at);
      assert f in table;
    }
  }

  /** The root's graph could not be built, or it is the first compiled for its key and compiling it fails. */
  ghost predicate IsMalformed(p: Pass, compile: Compiler, i: nat)
    requires i < |p.AllRoots()|
  {
    || (Considered(p, CoveredAt(p, i), i) && i in p.rootErrors)
    || (IsFirst(p, i) && compile(InputAt(p, i)).Failed?)
  }

  ghost predicate FindsMalformed(p: Pass, compile: Compiler) {
    exists i: nat :: i < |p.AllRoots()| && IsMalformed(p, compile, i)
  }

  lemma ErrorIsSaid(reg: Registry, compile: Compiler, input: Input, at: string)
    requires Valid(reg) && MalformedApart(reg) && DeclaresCodes(reg, compile)
    ensures compile(input).Failed? ==> Says(compile, input, ErrorKey(compile(input).at.GetOr(input.pointer)))
    ensures compile(input).Issues? ==> !Says(compile, input, ErrorKey(at))
  {
    hide Valid, MalformedApart, ErrorKey, CodesOf, IssueKey;
    if compile(input).Issues? {
      forall issue | issue in compile(input).issues ensures IssueKey(issue) != ErrorKey(at) {
        NoErrorKey(reg, issue, at);
      }
    }
  }

  lemma NoErrorKey(reg: Registry, issue: Issue, at: string)
    requires Valid(reg) && MalformedApart(reg) && issue.code in CodesOf(reg, "schema")
    ensures IssueKey(issue) != ErrorKey(at)
  {
    hide Valid, MalformedApart, ErrorKey, CodesOf;
    var f := IssueFinding(issue, NodeAnchor);
    ErrorsKey(reg, f, at);
    assert TableKey(f) == IssueKey(issue);
  }

  /**
   * The table the schema pass leaves holds a malformed schema exactly when some root's
   * graph could not be built or the first root compiled for some key fails to compile,
   * and no finding collapsed into another row changes that.
   */
  lemma MalformedExactly(reg: Registry, p: Pass, compile: Compiler)
    requires Valid(reg) && MalformedApart(reg) && DeclaresCodes(reg, compile) && Coherent(p)
    ensures AllClassed(reg, CachedRun(p, compile, |p.AllRoots()|).s.table)
    ensures AnyMalformed(CachedRun(p, compile, |p.AllRoots()|).s.table) <==> FindsMalformed(p, compile)
  {
    hide Valid, MalformedApart, DeclaresCodes, Coherent, CachedRun, FreshRun, ErrorKey, Says, Classed, Known,
      Considered, CoveredAt, InputAt, IsFirst, Compiles, SomeFirstReports, SomeReports;
    var table := CachedRun(p, compile, |p.AllRoots()|).s.table;
    RunClassed(reg, p, compile, |p.AllRoots()|);
    MalformedIsErrorRow(reg, table);
    if HasErrorRow(table) {
      var at :| Known(table, ErrorKey(at));
      LostRows(p, compile, ErrorKey(at));
      FirstErrorIsMalformed(reg, p, compile, at);
    }
    if FindsMalformed(p, compile) {
      var i: nat :| i < |p.AllRoots()| && IsMalformed(p, compile, i);
      var at := MalformedReports(reg, p, compile, i);
      LostRows(p, compile, ErrorKey(at));
    }
  }

  lemma FirstErrorIsMalformed(reg: Registry, p: Pass, compile: Compiler, at: string)
    requires Valid(reg) && MalformedApart(reg) && DeclaresCodes(reg, compile)
    requires SomeFirstReports(p, compile, ErrorKey(at))
    ensures FindsMalformed(p, compile)
  {
    hide Valid, MalformedApart, DeclaresCodes, ErrorKey, Says, Considered, CoveredAt, InputAt, IsFirst;
    var i: nat :| i < |p.AllRoots()| && FirstReports(p, compile, i, ErrorKey(at));
    ErrorIsSaid(reg, compile, InputAt(p, i), at);
    assert IsMalformed(p, compile, i);
  }

  lemma MalformedReports(reg: Registry, p: Pass, compile: Compiler, i: nat) returns (at: string)
    requires Valid(reg) && MalformedApart(reg) && DeclaresCodes(reg, compile)
    requires i < |p.AllRoots()| && IsMalformed(p, compile, i)
    ensures SomeFirstReports(p, compile, ErrorKey(at))
  {
    hide Valid, MalformedApart, DeclaresCodes, ErrorKey, Says, Considered, CoveredAt, InputAt, IsFirst;
    if Considered(p, CoveredAt(p, i), i) && i in p.rootErrors {
      at := p.AllRoots()[i].pointer;
    } else {
      at := compile(InputAt(p, i)).at.GetOr(InputAt(p, i).pointer);
      ErrorIsSaid(reg, compile, InputAt(p, i), at);
    }
    assert FirstReports(p, compile, i, ErrorKey(at));
  }
}

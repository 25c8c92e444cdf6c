/**
 * Exactly which rows remembering loses, and when it shows.
 *
 * The pass that compiles every root afresh has the rows some compiled root reports; the
 * pass that remembers has those the first root compiled for its key reports.
 */
module CacheRows {
  import opened Options
  import opened SchemaHeap
  import opened Dialects
  import opened Findings
  import opened SchemaFindings
  import opened CacheRuns
  import opened CacheTransparency

  // ---- The rows of each pass ----

  /** The first root compiled for its key. */
  ghost predicate IsFirst(p: Pass, i: nat)
    requires i < |p.AllRoots()|
  {
    FirstFor(p, KeyOf(SpotAt(p, i)), i, |p.AllRoots()|)
  }

  /** The row of a root whose graph could not be built. */
  ghost predicate ReportsError(p: Pass, i: nat, key: string)
    requires i < |p.AllRoots()|
  {
    Considered(p, CoveredAt(p, i), i) && i in p.rootErrors && key == ErrorKey(p.AllRoots()[i].pointer)
  }

  /** The root, compiled afresh, reports a finding of this row. */
  ghost predicate Reports(p: Pass, compile: Compiler, i: nat, key: string)
    requires i < |p.AllRoots()|
  {
    (Compiles(p, i) && Says(compile, InputAt(p, i), key)) || ReportsError(p, i, key)
  }

  /** The root reports a finding of this row, and is not one that meets a remembered result. */
  ghost predicate FirstReports(p: Pass, compile: Compiler, i: nat, key: string)
    requires i < |p.AllRoots()|
  {
    (IsFirst(p, i) && Says(compile, InputAt(p, i), key)) || ReportsError(p, i, key)
  }

  lemma NoRow(key: string)
    ensures !Known([], key)
  {
  }

  lemma ErrorRow(p: Pass, n: nat)
    requires n < |p.AllRoots()| && n in p.rootErrors
    ensures Keys(GraphError(p, n)) == [ErrorKey(p.AllRoots()[n].pointer)]
  {
    hide ErrorFinding, AtEntry, Keys, ErrorKey;
    var root := p.AllRoots()[n];
    OneErrorKey(p, root, root, root.pointer, p.rootErrors[n]);
    var f := ErrorFinding(root, root.pointer, p.rootErrors[n]);
    assert AllAtEntry(p, root, [f]) == [AtEntry(p, root, f)];
  }

  lemma FreshEmitsRow(p: Pass, compile: Compiler, n: nat, key: string)
    requires n < |p.AllRoots()|
    ensures key in Keys(FreshEmits(p, compile, CoveredAt(p, n), n)) <==> Reports(p, compile, n, key)
  {
    hide PreparedAt, SpotAt, CompileFindings, AllAtEntry, GraphError, Considered, CoveredAt, EntryKeys, ErrorKey,
      InputAt, Compiles, Says;
    CompilesIs(p, n);
    var root := p.AllRoots()[n];
    if n in p.rootErrors {
      ErrorRow(p, n);
    }
    EntryFindingKeys(p, compile, root, root, InputAt(p, n));
    EntryKeysExactly(compile, InputAt(p, n), key);
  }

  /** The rows of the pass that compiles afresh are those some root reports. */
  lemma {:induction false} FreshRows(p: Pass, compile: Compiler, n: nat, key: string)
    requires n <= |p.AllRoots()|
    ensures Known(FreshRun(p, compile, n).table, key) <==> exists i: nat :: i < n && Reports(p, compile, i, key)
  {
    hide Reports, FreshEmits, AddAll, Known, Keys, FreshStep, CoveredAt;
    if n == 0 {
      NoRow(key);
    } else {
      FreshRows(p, compile, n - 1, key);
      var s := FreshRun(p, compile, n - 1);
      FreshCovered(p, compile, n - 1);
      FreshStepIs(p, compile, s, n - 1);
      AddAllKnows(s.table, FreshEmits(p, compile, s.covered, n - 1), key);
      FreshEmitsRow(p, compile, n - 1, key);
    }
  }

  /** A root compiled for a key that is not remembered yet is the first for it, and otherwise it is not. */
  lemma FirstMeetsNothing(p: Pass, compile: Compiler, cache: map<Key, seq<Finding>>, n: nat)
    requires n < |p.AllRoots()| && Remembers(p, compile, cache, n)
    ensures IsFirst(p, n) <==> Compiles(p, n) && KeyOf(SpotAt(p, n)) !in cache
  {
    hide Compiles, SpotAt, MadeBy;
    var key := KeyOf(SpotAt(p, n));
    if key in cache {
      assert HasFirst(p, key, n);
      var i: nat :| FirstFor(p, key, i, n);
    } else if Compiles(p, n) && !IsFirst(p, n) {
      var j: nat :| j < n && Compiles(p, j) && KeyOf(SpotAt(p, j)) == key;
      var i := FirstOf(p, key, j);
      assert FirstFor(p, key, i, n);
      assert MadeBy(p, compile, cache, key, i);
      MadeIsKnown(p, compile, cache, key, i);
    }
  }

  lemma MadeIsKnown(p: Pass, compile: Compiler, cache: map<Key, seq<Finding>>, key: Key, i: nat)
    requires MadeBy(p, compile, cache, key, i)
    ensures key in cache
  {
  }

  /** What a root adds to the table of the pass that remembers: its own rows when it is first, known rows when not. */
  lemma CachedEmitsRow(p: Pass, compile: Compiler, k: Cached, n: nat, key: string)
    requires n < |p.AllRoots()| && Remembers(p, compile, k.cache, n)
    requires Considered(p, k.s.covered, n) <==> Considered(p, CoveredAt(p, n), n)
    requires Passes(p, k.s.covered, n) <==> Passes(p, CoveredAt(p, n), n)
    ensures FirstReports(p, compile, n, key) ==> key in Keys(CachedEmits(p, compile, k, n))
    ensures key in Keys(CachedEmits(p, compile, k, n)) ==>
      FirstReports(p, compile, n, key) || exists i: nat :: i < n && FirstReports(p, compile, i, key)
  {
    hide PreparedAt, SpotAt, CompileFindings, AllAtEntry, GraphError, Considered, CoveredAt, EntryKeys, ErrorKey,
      InputAt, Compiles, Keys, IsFirst, Says;
    CompilesIs(p, n);
    FirstMeetsNothing(p, compile, k.cache, n);
    FreshEmitsRow(p, compile, n, key);
    var own := KeyOf(SpotAt(p, n));
    if Passes(p, k.s.covered, n) && own in k.cache {
      NotFailing(p, k.s.covered, n);
      assert HasFirst(p, own, n);
      var i: nat :| FirstFor(p, own, i, n);
      assert MadeBy(p, compile, k.cache, own, i);
      FirstIsFirst(p, own, i, n);
      EntryFindingKeys(p, compile, p.AllRoots()[n], p.AllRoots()[i], InputAt(p, i));
      EntryKeysExactly(compile, InputAt(p, i), key);
      assert key in EntryKeys(compile, InputAt(p, i)) ==> FirstReports(p, compile, i, key);
    } else {
      assert CachedEmits(p, compile, k, n) == FreshEmits(p, compile, CoveredAt(p, n), n);
    }
  }

  lemma FirstIsFirst(p: Pass, key: Key, i: nat, n: nat)
    requires n <= |p.AllRoots()| && FirstFor(p, key, i, n)
    ensures i < n && IsFirst(p, i)
  {
    hide Compiles, SpotAt;
  }

  /** The rows of the pass that remembers are those the first root compiled for its key reports. */
  lemma {:induction false} CachedRows(p: Pass, compile: Compiler, n: nat, key: string)
    requires Coherent(p) && n <= |p.AllRoots()|
    ensures Known(CachedRun(p, compile, n).s.table, key)
      <==> exists i: nat :: i < n && FirstReports(p, compile, i, key)
  {
    hide FirstReports, CachedEmits, AddAll, Known, Keys, CachedStep, CoveredAt, Coherent, Remembers, Passes, Considered,
      SameCover;
    if n == 0 {
      NoRow(key);
    } else {
      CachedRows(p, compile, n - 1, key);
      var k := CachedRun(p, compile, n - 1);
      InStep(p, compile, n - 1);
      SameCoverSamePasses(p, k.s.covered, CoveredAt(p, n - 1), n - 1);
      CachedStepIs(p, compile, k, n - 1);
      AddAllKnows(k.s.table, CachedEmits(p, compile, k, n - 1), key);
      CachedEmitsRow(p, compile, k, n - 1, key);
    }
  }

  ghost predicate SomeReports(p: Pass, compile: Compiler, key: string) {
    exists i: nat :: i < |p.AllRoots()| && Reports(p, compile, i, key)
  }

  ghost predicate SomeFirstReports(p: Pass, compile: Compiler, key: string) {
    exists i: nat :: i < |p.AllRoots()| && FirstReports(p, compile, i, key)
  }

  /**
   * For every compiler and every document: remembering adds no row, and it loses exactly
   * the rows that are reported only by roots that meet a remembered result.
   */
  lemma LostRows(p: Pass, compile: Compiler, key: string)
    requires Coherent(p)
    ensures var n := |p.AllRoots()|;
      var afresh, cached := FreshRun(p, compile, n).table, CachedRun(p, compile, n).s.table;
      && (Known(cached, key) ==> Known(afresh, key))
      && (Known(afresh, key) <==> SomeReports(p, compile, key))
      && (Known(cached, key) <==> SomeFirstReports(p, compile, key))
  {
    hide FreshRun, CachedRun, Known, Coherent, Says, InputAt, ReportsError, Compiles;
    FreshRows(p, compile, |p.AllRoots()|, key);
    CachedRows(p, compile, |p.AllRoots()|, key);
    forall i: nat | i < |p.AllRoots()| && FirstReports(p, compile, i, key) ensures Reports(p, compile, i, key) {
    }
  }

  // ---- A lint that names what it is about ----

  /** The message of a diagnostic, from the schema and the dialect it is read in. */
  type Naming = (Value, Dialect) -> string

  function LintIssue(name: Naming, given: Input): Issue {
    Issue("unknown-keyword", name(given.value, given.dialect), "", Some(Place(given.pointer, AsGiven)), [])
  }

  /**
   * The compiler that reports one diagnostic for every schema, at the pointer the schema
   * is compiled at. What it says depends on the schema and the dialect only.
   */
  function Lint(name: Naming): Compiler {
    (given: Input) => Issues([LintIssue(name, given)])
  }

  function LintKey(name: Naming, given: Input): string {
    IssueKey(LintIssue(name, given))
  }

  lemma LintSays(name: Naming, given: Input, key: string)
    ensures Says(Lint(name), given, key) <==> key == LintKey(name, given)
  {
    hide IssueKey;
    assert LintIssue(name, given) in [LintIssue(name, given)];
  }

  ghost predicate NulFree(name: Naming) {
    forall v, d :: !HoldsNul(name(v, d))
  }

  /** Two diagnostics of the lint share a row only if they say the same at the same pointer. */
  lemma LintKeysApart(name: Naming, a: Input, b: Input)
    requires NulFree(name)
    ensures LintKey(name, a) == LintKey(name, b) ==>
      a.pointer == b.pointer && name(a.value, a.dialect) == name(b.value, b.dialect)
  {
    var m, n := name(a.value, a.dialect), name(b.value, b.dialect);
    var code := "unknown-keyword" + "\0";
    var x, y := m + "\0" + a.pointer, n + "\0" + b.pointer;
    assert LintKey(name, a) == code + m + "\0" + a.pointer;
    assert code + m + "\0" + a.pointer == code + x;
    assert code + n + "\0" + b.pointer == code + y;
    assert x == (code + x)[|code|..] && y == (code + y)[|code|..];
    if x == y {
      FirstNul(m, n, a.pointer, b.pointer);
    }
  }

  lemma LintIsNoError(name: Naming, given: Input, at: string)
    ensures LintKey(name, given) != ErrorKey(at)
  {
    assert LintKey(name, given)[0] == 'u' && ErrorKey(at)[0] == 'm';
  }

  /** Compiled at one pointer, two different inputs are named differently. */
  ghost predicate TellsApart(p: Pass, name: Naming) {
    forall i: nat, j: nat :: i < |p.AllRoots()| && j < |p.AllRoots()| ==> ToldApart(p, name, i, j)
  }

  ghost predicate ToldApart(p: Pass, name: Naming, i: nat, j: nat)
    requires i < |p.AllRoots()| && j < |p.AllRoots()|
  {
    var a, b := InputAt(p, i), InputAt(p, j);
    Compiles(p, i) && Compiles(p, j) && a.pointer == b.pointer && name(a.value, a.dialect) == name(b.value, b.dialect)
    ==> a == b
  }

  // ---- A lost row ----

  /**
   * A compiled root that meets a result compiled from another input loses its diagnostic:
   * only the pass that compiles afresh has a row for it.
   */
  lemma RowIsLost(p: Pass, name: Naming, i: nat, j: nat)
    requires Coherent(p) && NulFree(name) && TellsApart(p, name)
    requires i < |p.AllRoots()| && j < |p.AllRoots()| && IsFirst(p, i) && Compiles(p, j)
    requires KeyOf(SpotAt(p, i)) == KeyOf(SpotAt(p, j)) && InputAt(p, i) != InputAt(p, j)
    ensures var key := LintKey(name, InputAt(p, j));
      && Known(FreshRun(p, Lint(name), |p.AllRoots()|).table, key)
      && !Known(CachedRun(p, Lint(name), |p.AllRoots()|).s.table, key)
  {
    hide Compiles, SpotAt, PreparedAt, Coherent, FreshRun, CachedRun, Known, LintKey, NulFree, Says, ErrorKey,
      Lint,
      Considered, CoveredAt;
    var key := LintKey(name, InputAt(p, j));
    LostRows(p, Lint(name), key);
    LintSays(name, InputAt(p, j), key);
    assert Reports(p, Lint(name), j, key);
    forall m: nat | m < |p.AllRoots()| ensures !FirstReports(p, Lint(name), m, key) {
      LintSays(name, InputAt(p, m), key);
      LintIsNoError(name, InputAt(p, j), p.AllRoots()[m].pointer);
      LintKeysApart(name, InputAt(p, j), InputAt(p, m));
      assert ToldApart(p, name, j, m);
      OneFirst(p, i, m);
    }
  }

  lemma OneFirst(p: Pass, i: nat, j: nat)
    requires i < |p.AllRoots()| && j < |p.AllRoots()| && IsFirst(p, i)
    ensures IsFirst(p, j) ==> Compiles(p, j)
    ensures IsFirst(p, j) && KeyOf(SpotAt(p, j)) == KeyOf(SpotAt(p, i)) ==> j == i
  {
    hide Compiles, SpotAt;
  }

  // ---- A finding too many ----

  /** How many findings a table stands for. */
  function Total(table: seq<Finding>): nat {
    if table == [] then 0 else Total(table[..|table| - 1]) + table[|table| - 1].occurrences.GetOr(1) as nat
  }

  predicate AllFresh(findings: seq<Finding>) {
    forall f :: f in findings ==> f.occurrences.None?
  }

  lemma {:induction false} TotalOfRepeat(table: seq<Finding>, i: nat)
    requires i < |table|
    ensures Total(table[i := Repeated(table[i])]) == Total(table) + 1
  {
    var n := |table| - 1;
    var next := table[i := Repeated(table[i])];
    if i == n {
      assert next[..n] == table[..n];
    } else {
      assert next[..n] == table[..n][i := Repeated(table[i])];
      TotalOfRepeat(table[..n], i);
    }
  }

  lemma {:induction false} TotalAdds(table: seq<Finding>, findings: seq<Finding>)
    requires AllFresh(findings)
    ensures Total(AddAll(table, findings)) == Total(table) + |findings|
    decreases |findings|
  {
    hide TableKey;
    if findings != [] {
      var f := findings[0];
      var i := RowOf(table, TableKey(f));
      assert f in findings;
      if i == |table| {
        assert (table + [f])[..|table|] == table;
      } else {
        TotalOfRepeat(table, i);
      }
      assert forall g :: g in findings[1..] ==> g in findings;
      TotalAdds(Add(table, f), findings[1..]);
    }
  }

  lemma LintedOnce(p: Pass, name: Naming, root: Root, first: Root, input: Input)
    ensures var emitted := AllAtEntry(p, root, CompileFindings(Lint(name), first, input));
      AllFresh(emitted) && |emitted| == 1
  {
    var issue := LintIssue(name, input);
    var given := AnchorAt(input.pointer, first.pointer);
    assert Distinct([issue], {}) == [issue];
    assert IssueFindings([issue], given) == [IssueFinding(issue, given)];
    assert AllAtEntry(p, root, [IssueFinding(issue, given)]) == [AtEntry(p, root, IssueFinding(issue, given))];
  }

  lemma GraphErrorOnce(p: Pass, n: nat)
    requires n < |p.AllRoots()| && n in p.rootErrors
    ensures AllFresh(GraphError(p, n)) && |GraphError(p, n)| == 1
  {
  }

  /** A root that is not compiled meets the result of one that was. */
  ghost predicate MeetsUnprepared(p: Pass, j: nat)
    requires j < |p.AllRoots()|
  {
    && Eligible(p, j) && PreparedAt(p, j).None?
    && exists i: nat :: i < j && Compiles(p, i) && KeyOf(SpotAt(p, i)) == KeyOf(SpotAt(p, j))
  }

  lemma MeetsRemembered(p: Pass, compile: Compiler, cache: map<Key, seq<Finding>>, j: nat)
    requires j < |p.AllRoots()| && MeetsUnprepared(p, j) && Remembers(p, compile, cache, j)
    ensures KeyOf(SpotAt(p, j)) in cache
  {
    hide Compiles, SpotAt, PreparedAt, Eligible, MadeBy;
    var key := KeyOf(SpotAt(p, j));
    var i: nat :| i < j && Compiles(p, i) && KeyOf(SpotAt(p, i)) == key;
    var first := FirstOf(p, key, i);
    assert FirstFor(p, key, first, j);
    assert MadeBy(p, compile, cache, key, first);
    MadeIsKnown(p, compile, cache, key, first);
  }

  lemma EmitsCompare(p: Pass, name: Naming, k: Cached, n: nat)
    requires n < |p.AllRoots()| && Remembers(p, Lint(name), k.cache, n)
    requires Considered(p, k.s.covered, n) <==> Considered(p, CoveredAt(p, n), n)
    requires Passes(p, k.s.covered, n) <==> Passes(p, CoveredAt(p, n), n)
    ensures var a, b := CachedEmits(p, Lint(name), k, n), FreshEmits(p, Lint(name), CoveredAt(p, n), n);
      AllFresh(a) && AllFresh(b) && |a| >= |b| && (MeetsUnprepared(p, n) ==> |a| > |b|)
  {
    hide PreparedAt, SpotAt, CompileFindings, AllAtEntry, GraphError, Considered, CoveredAt, Lint, Compiles, Remembers,
      Eligible, InputAt;
    var root := p.AllRoots()[n];
    CompilesIs(p, n);
    LintedOnce(p, name, root, root, InputAt(p, n));
    if n in p.rootErrors {
      GraphErrorOnce(p, n);
    }
    if MeetsUnprepared(p, n) {
      MeetsRemembered(p, Lint(name), k.cache, n);
    }
    if Passes(p, k.s.covered, n) {
      NotFailing(p, k.s.covered, n);
      if KeyOf(SpotAt(p, n)) in k.cache {
        var i := RememberedFrom(p, Lint(name), k.cache, n, KeyOf(SpotAt(p, n)));
        LintedOnce(p, name, root, p.AllRoots()[i], InputAt(p, i));
      }
    }
  }

  lemma RememberedFrom(p: Pass, compile: Compiler, cache: map<Key, seq<Finding>>, n: nat, key: Key) returns (i: nat)
    requires n <= |p.AllRoots()| && Remembers(p, compile, cache, n) && key in cache
    ensures i < |p.AllRoots()| && cache[key] == CompileFindings(compile, p.AllRoots()[i], InputAt(p, i))
  {
    assert HasFirst(p, key, n);
    i :| FirstFor(p, key, i, n);
    assert MadeBy(p, compile, cache, key, i);
  }

  /** Remembering never counts less, and counts more when a root that is not compiled meets a result. */
  lemma {:induction false} TotalsCompare(p: Pass, name: Naming, j: nat, n: nat)
    requires Coherent(p) && n <= |p.AllRoots()| && j < |p.AllRoots()| && MeetsUnprepared(p, j)
    ensures var a, b := Total(CachedRun(p, Lint(name), n).s.table), Total(FreshRun(p, Lint(name), n).table);
      a >= b && (n > j ==> a > b)
  {
    hide Coherent, MeetsUnprepared, CachedStep, FreshStep, CoveredAt, Remembers, SameCover, Lint, SpotAt, Passes,
      Considered, CachedEmits, FreshEmits, Total, AddAll;
    if n > 0 {
      TotalsCompare(p, name, j, n - 1);
      var k, s := CachedRun(p, Lint(name), n - 1), FreshRun(p, Lint(name), n - 1);
      InStep(p, Lint(name), n - 1);
      FreshCovered(p, Lint(name), n - 1);
      SameCoverSamePasses(p, k.s.covered, s.covered, n - 1);
      CachedStepIs(p, Lint(name), k, n - 1);
      FreshStepIs(p, Lint(name), s, n - 1);
      EmitsCompare(p, name, k, n - 1);
      TotalAdds(k.s.table, CachedEmits(p, Lint(name), k, n - 1));
      TotalAdds(s.table, FreshEmits(p, Lint(name), s.covered, n - 1));
    }
  }

  // ---- Exactly when it shows ----

  lemma CompiledIsEligible(p: Pass, n: nat)
    requires n < |p.AllRoots()| && Compiles(p, n)
    ensures Eligible(p, n) && PreparedAt(p, n).Some?
  {
    hide PreparedAt, Passes;
  }

  /** The lint shows two roots that share a key but not what they are compiled from. */
  lemma SharedKeyShows(p: Pass, name: Naming, i: nat, j: nat)
    requires Coherent(p) && NulFree(name) && TellsApart(p, name)
    requires i < |p.AllRoots()| && j < |p.AllRoots()| && !SharesInput(p, i, j)
    ensures !Transparent(p, Lint(name))
  {
    hide Coherent, Compiles, SpotAt, PreparedAt, CachedRun, FreshRun, Eligible, Lint, NulFree, TellsApart, Known,
      InputAt;
    var n := |p.AllRoots()|;
    if PreparedAt(p, j).None? {
      assert MeetsUnprepared(p, j);
      TotalsCompare(p, name, j, n);
    } else {
      var first := FirstOf(p, KeyOf(SpotAt(p, i)), i);
      FirstIsFirst(p, KeyOf(SpotAt(p, i)), first, i + 1);
      PreparedCompiles(p, j);
      RowIsLost(p, name, first, if InputAt(p, first) == InputAt(p, i) then j else i);
    }
  }

  lemma PreparedCompiles(p: Pass, n: nat)
    requires n < |p.AllRoots()| && Eligible(p, n) && PreparedAt(p, n).Some?
    ensures Compiles(p, n)
  {
    hide PreparedAt, Passes;
  }

  /**
   * One lint, told nothing of the document but the schema, its dialect and its pointer, shows it
   * whenever any compiler does.
   */
  lemma LintShowsExactly(p: Pass, name: Naming)
    requires Coherent(p) && NulFree(name) && TellsApart(p, name)
    ensures Transparent(p, Lint(name)) <==> OneInputEach(p)
  {
    hide Coherent, Transparent, SharesInput, NulFree, TellsApart;
    if OneInputEach(p) {
      CacheIsTransparent(p, Lint(name));
    } else {
      var i: nat, j: nat :| i < |p.AllRoots()| && j < |p.AllRoots()| && !SharesInput(p, i, j);
      SharedKeyShows(p, name, i, j);
    }
  }

  function Marks(n: nat): string {
    seq(n, _ => 'i')
  }

  /** A message that spells out the schema and the dialect. */
  function Spelled(v: Value, d: Dialect): string {
    [match d case JsonSchema202012 => 'j' case OpenApi31 => 'o' case Oas30 => 's',
     match v case Obj(_) => 'o' case Other(tag) => if tag >= 0 then 'p' else 'n']
    + Marks(match v case Obj(id) => id case Other(tag) => if tag >= 0 then tag else -tag)
  }

  lemma SpelledApart(p: Pass)
    ensures NulFree(Spelled) && TellsApart(p, Spelled)
  {
    hide Compiles, SpotAt, PreparedAt;
    forall v, d ensures !HoldsNul(Spelled(v, d)) {
    }
    forall i: nat, j: nat | i < |p.AllRoots()| && j < |p.AllRoots()| ensures ToldApart(p, Spelled, i, j) {
      SpelledBack(InputAt(p, i), InputAt(p, j));
    }
  }

  lemma SpelledBack(a: Input, b: Input)
    ensures a.pointer == b.pointer && Spelled(a.value, a.dialect) == Spelled(b.value, b.dialect) ==> a == b
  {
    var s, t := Spelled(a.value, a.dialect), Spelled(b.value, b.dialect);
    if s == t {
      assert s[0] == t[0] && s[1] == t[1] && |s| == |t|;
    }
  }

  /**
   * Exactly when remembering never shows, whatever mix of roots, resources, dialects and
   * failing graphs the document has: no root may meet a result compiled from another
   * schema, pointer or dialect than its own. One lint, the same for all documents, shows
   * it whenever some compiler does.
   */
  lemma TransparentIffOneInputEach(p: Pass)
    requires Coherent(p)
    ensures (forall compile: Compiler :: Transparent(p, compile)) <==> OneInputEach(p)
    ensures Transparent(p, Lint(Spelled)) <==> OneInputEach(p)
  {
    hide Coherent, Transparent, OneInputEach, NulFree, TellsApart;
    SpelledApart(p);
    LintShowsExactly(p, Spelled);
    if OneInputEach(p) {
      forall compile: Compiler ensures Transparent(p, compile) {
        CacheIsTransparent(p, compile);
      }
    }
  }
}

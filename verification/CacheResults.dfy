/**
 * The cache over real inventories: documents it is invisible in, and one it is not.
 */
module CacheResults {
  import opened Options
  import opened SchemaHeap
  import opened Dialects
  import opened Rebuild
  import opened DialectWalk
  import opened References
  import opened CompileContext
  import opened Preparation
  import opened PureReferences
  import opened Findings
  import opened SchemaFindings
  import opened CacheRuns
  import opened CacheTransparency
  import opened CacheRows
  import opened LeafRoots

  // ---- The resources of an inventory ----

  ghost predicate OnlyResources(c: Config, t: Tables) {
    forall r :: r in t.resources ==> IsResourceRoot(c, r)
  }

  lemma {:induction false} RecordAllResources(c: Config, t: Tables, visited: seq<Item>)
    requires OnlyResources(c, t)
    ensures OnlyResources(c, RecordAll(c, t, visited))
    decreases |visited|
  {
    if visited != [] {
      RecordAllResources(c, Record(c, t, visited[0]), visited[1..]);
    }
  }

  lemma {:induction false} AddRootsResources(c: Config, t: Tables, sorted: seq<Root>)
    requires OnlyResources(c, t)
    ensures OnlyResources(c, AddRoots(c, t, sorted))
    decreases |sorted|
  {
    if sorted != [] {
      var items := [AdditionalItem(c, t, sorted[0])];
      RecordAllResources(c, t, Preorder(c, t.nodes.Keys, items));
      AddRootsResources(c, Walk(c, t, items), sorted[1..]);
    }
  }

  /** Every embedded resource a rebuild lists is an object with an `$id`. */
  lemma RebuiltResources(c: Config, original: seq<Root>, additional: seq<Root>)
    ensures OnlyResources(c, Rebuilt(c, original, additional))
  {
    var items := RootItems(original, c.defaultDialect, true);
    RecordAllResources(c, EMPTY_TABLES, Preorder(c, {}, items));
    assert EMPTY_TABLES.nodes.Keys == {};
    AddRootsResources(c, Walk(c, EMPTY_TABLES, items), SortByLength(additional));
  }

  // ---- The dialect a canonical target is compiled in ----

  /** Every pure reference that resolves lands at a pointer. */
  ghost predicate PureRefsLand(p: Pass) {
    forall id: Id, target: Value :: PureRefLands(p, id, target)
  }

  ghost predicate PureRefLands(p: Pass, id: Id, target: Value) {
    p.pureRef(id).Some? && Target(p.c, p.refs, p.scope, p.pureRef(id).value, id) == Some(target) ==>
      RefPointer(p.refs, p.scope, p.t, p.pureRef(id).value, id, target).Some?
  }

  lemma StepVisited(p: Pass, u: Unit, s: set<Value>, e: Spot, next: Spot)
    requires Coherent(p) && PureRefsLand(p) && CanonicalStep(p, e) == Some(next)
    requires u == p.UnitAt(u.entry, u.pointer.GetOr("")) && IsUnit(u, s) && e.value in s
    ensures next.value in s && Visits(u, s, Edge(next.value, Some(next.pointer)))
  {
    hide RefPointer, Target, NameOf, BaseOf, Edges;
    var id, ref := e.value.id, p.pureRef(e.value.id).value;
    assert PureRefLands(p, id, next.value);
    PureEdges(u, id, ref, next.value);
    assert Edge(next.value, Some(next.pointer)) in Edges(u, id);
  }

  lemma {:induction false} CanonicalVisited(p: Pass, seen: set<Id>, u: Unit, s: set<Value>, e: Spot)
    requires Coherent(p) && PureRefsLand(p)
    requires u == p.UnitAt(u.entry, u.pointer.GetOr("")) && IsUnit(u, s)
    requires e.value in s && Visits(u, s, Edge(e.value, Some(e.pointer)))
    ensures var end := Canonical(p, seen, e); Visits(u, s, Edge(end.value, Some(end.pointer)))
    decreases Unreached(p.c.heap, seen)
  {
    hide CanonicalStep, Visits, IsUnit, Coherent, PureRefsLand;
    var next := CanonicalStep(p, e);
    if next.Some? && !(e.value.id in seen || e.value.id >= |p.c.heap|) {
      UnreachedShrinks(p.c.heap, seen, seen + {e.value.id});
      assert e.value.id in seen + {e.value.id};
      StepVisited(p, u, s, e, next.value);
      CanonicalVisited(p, seen + {e.value.id}, u, s, next.value);
    }
  }

  /** A prepared root is compiled in the dialect its canonical target is read in, whichever root leads to it. */
  lemma InputDialect(p: Pass, n: nat)
    requires Coherent(p) && PureRefsLand(p) && n < |p.AllRoots()| && PreparedAt(p, n).Some?
    ensures EffectiveFor(p.c, p.t, SpotAt(p, n).value, Some(SpotAt(p, n).pointer)).dialect
      == Some(InputAt(p, n).dialect)
  {
    hide Canonical, Coherent, PureRefsLand, EffectiveFor;
    var e := SpotAt(p, n);
    if p.SeveralDialects() {
      var root := p.AllRoots()[n];
      var u := p.UnitAt(root.value, root.pointer);
      CanonicalVisited(p, {}, u, UnitSet(u), Spot(root.value, root.pointer));
      assert Reaches(u, Edge(e.value, Some(e.pointer)));
    }
  }

  // ---- Documents without sharing ----

  /** An object, if it is recorded at all, is recorded at this pointer. */
  predicate AtItsPlace(p: Pass, e: Spot) {
    e.value.Obj? && e.value.id in p.t.nodes ==> e.pointer == p.t.nodes[e.value.id].pointer
  }

  /** An object that is recorded, or another value that sits at a recorded position. */
  predicate InTables(p: Pass, e: Spot) {
    match e.value
    case Obj(id) => id in p.t.nodes
    case Other(_) => e.pointer in p.t.schemasAt && p.t.schemasAt[e.pointer] == e.value
  }

  /** Following pure references from a place in the tables ends at a place in the tables. */
  lemma {:induction false} CanonicalAtItsPlace(p: Pass, seen: set<Id>, e: Spot)
    requires AtItsPlace(p, e)
    ensures AtItsPlace(p, Canonical(p, seen, e))
    decreases Unreached(p.c.heap, seen)
  {
    var next := CanonicalStep(p, e);
    if next.Some? && !(e.value.id in seen || e.value.id >= |p.c.heap|) {
      UnreachedShrinks(p.c.heap, seen, seen + {e.value.id});
      assert e.value.id in seen + {e.value.id};
      CanonicalAtItsPlace(p, seen + {e.value.id}, next.value);
    }
  }

  /** No root's object is recorded elsewhere, and what the roots lead to is in the tables. */
  ghost predicate NothingShared(p: Pass) {
    forall n: nat :: n < |p.AllRoots()| ==> PlacedRoot(p, n)
  }

  ghost predicate PlacedRoot(p: Pass, n: nat)
    requires n < |p.AllRoots()|
  {
    Eligible(p, n) ==> AtItsPlace(p, Spot(p.AllRoots()[n].value, p.AllRoots()[n].pointer)) && InTables(p, SpotAt(p, n))
  }

  lemma SameSpot(p: Pass, i: nat, j: nat)
    requires i < |p.AllRoots()| && j < |p.AllRoots()| && PlacedRoot(p, i) && PlacedRoot(p, j)
    requires Eligible(p, i) && Eligible(p, j) && KeyOf(SpotAt(p, i)) == KeyOf(SpotAt(p, j))
    ensures SpotAt(p, i) == SpotAt(p, j)
  {
    hide Canonical, Eligible;
    CanonicalAtItsPlace(p, {}, Spot(p.AllRoots()[i].value, p.AllRoots()[i].pointer));
    CanonicalAtItsPlace(p, {}, Spot(p.AllRoots()[j].value, p.AllRoots()[j].pointer));
  }

  /** Roots that meet one key lead to one canonical schema at one pointer. */
  ghost predicate OneSpotEach(p: Pass) {
    forall i: nat, j: nat :: i < |p.AllRoots()| && j < |p.AllRoots()| ==> SharesSpot(p, i, j)
  }

  ghost predicate SharesSpot(p: Pass, i: nat, j: nat)
    requires i < |p.AllRoots()| && j < |p.AllRoots()|
  {
    Eligible(p, i) && Eligible(p, j) && KeyOf(SpotAt(p, i)) == KeyOf(SpotAt(p, j)) ==> SpotAt(p, i) == SpotAt(p, j)
  }

  /** Then they are compiled from one input, in any mix of dialects, and remembering never shows. */
  lemma OneSpotIsTransparent(p: Pass, compile: Compiler)
    requires Coherent(p) && PureRefsLand(p) && OneSpotEach(p)
    ensures OneInputEach(p) && Transparent(p, compile)
  {
    hide Coherent, PureRefsLand, Transparent, EffectiveFor, Compiles, PreparedAt, Eligible, SpotAt;
    forall i: nat, j: nat | i < |p.AllRoots()| && j < |p.AllRoots()| ensures SharesInput(p, i, j) {
      if i < j && Compiles(p, i) && Eligible(p, j) && KeyOf(SpotAt(p, i)) == KeyOf(SpotAt(p, j)) {
        CompiledIsEligible(p, i);
        assert SharesSpot(p, i, j);
        SameSpotPrepared(p, i, j);
        InputDialect(p, i);
        InputDialect(p, j);
      }
    }
    CacheIsTransparent(p, compile);
  }

  /**
   * A document that holds no schema object at two positions is reported as if nothing
   * were remembered, in any mix of dialects, resources, failing graphs and withheld units.
   */
  lemma UnsharedIsTransparent(p: Pass, compile: Compiler)
    requires Coherent(p) && PureRefsLand(p) && NothingShared(p)
    ensures Transparent(p, compile)
  {
    hide Coherent, PureRefsLand, Transparent, PlacedRoot, SpotAt, Eligible, OneInputEach;
    forall i: nat, j: nat | i < |p.AllRoots()| && j < |p.AllRoots()| ensures SharesSpot(p, i, j) {
      if Eligible(p, i) && Eligible(p, j) && KeyOf(SpotAt(p, i)) == KeyOf(SpotAt(p, j)) {
        SameSpot(p, i, j);
      }
    }
    OneSpotIsTransparent(p, compile);
  }

  lemma SameSpotPrepared(p: Pass, i: nat, j: nat)
    requires i < |p.AllRoots()| && j < |p.AllRoots()| && SpotAt(p, i) == SpotAt(p, j)
    requires PreparedAt(p, i).Some? && Eligible(p, j)
    ensures PreparedAt(p, j).Some?
  {
    hide Canonical, Admits;
    CompilesIs(p, j);
  }

  // ---- An alias ----

  const DEFAULT_DIALECT := Effective("https://spec.openapis.org/oas/3.1/dialect/base", Some(OpenApi31), "")

  /** A document of two schema slots that hold one and the same object, as a YAML alias makes them. */
  function AliasConfig(): Config {
    Config([EMPTY_SCHEMA], OpenApi31, DEFAULT_DIALECT, KNOWN_DIALECTS)
  }

  function NoReferences(): Resolver {
    Resolver((_, _, _) => None, (_, _, _) => NoResource, (_, _, _) => false, (_, _) => None, (_, _) => "",
      (_, _, _) => None)
  }

  const ALIAS_ROOTS := [Root(Obj(0), "/a"), Root(Obj(0), "/b")]

  ghost function AliasPass(): Pass {
    Pass(AliasConfig(), NoReferences(), Scope(ALIAS_ROOTS, []), Rebuilt(AliasConfig(), ALIAS_ROOTS, []),
         ALIAS_ROOTS, map[], (pointer: string) => pointer, false, (_: Id) => None)
  }

  lemma AliasTables()
    ensures var t := AliasPass().t;
      && t.resources == [] && t.unsupported == map[] && t.supported == {OpenApi31}
      && (forall v, at :: EffectiveFor(AliasConfig(), t, v, at) == DEFAULT_DIALECT)
  {
    var first := ALIAS_ROOTS[0];
    assert ALIAS_ROOTS == [first] + [ALIAS_ROOTS[1]];
    OneLeaf(AliasConfig(), first, [ALIAS_ROOTS[1]]);
  }

  lemma AliasCompiles(n: nat)
    requires n < 2
    ensures AliasPass().AllRoots() == ALIAS_ROOTS
    ensures Compiles(AliasPass(), n) && SpotAt(AliasPass(), n) == Spot(Obj(0), ALIAS_ROOTS[n].pointer)
  {
    hide Rebuilt, EffectiveFor, UnitSet;
    AliasTables();
    var p := AliasPass();
    assert p.AllRoots() == ALIAS_ROOTS;
    assert CanonicalStep(p, Spot(Obj(0), ALIAS_ROOTS[n].pointer)) == None;
    CompilesIs(p, n);
  }

  /** A lint with one thing to say about every schema. */
  function Everywhere(): Naming {
    (_, _) => "unknown keyword"
  }

  /** The row of its diagnostic at a pointer. */
  function AliasRow(pointer: string): Finding {
    Finding("schema", Warning, "unknown-keyword", pointer + " -> <root>", "unknown keyword",
      Some(FindingTarget(pointer, NodeAnchor, None)), [], None, [], [])
  }

  lemma AliasFresh(n: nat)
    requires n < 2
    ensures var root := ALIAS_ROOTS[n];
      AllAtEntry(AliasPass(), root, CompileFindings(Lint(Everywhere()), root, InputAt(AliasPass(), n)))
      == [AliasRow(root.pointer)]
  {
    hide Rebuilt, PreparedAt, SpotAt, Compiles;
    AliasCompiles(n);
    var p, root, input := AliasPass(), ALIAS_ROOTS[n], InputAt(AliasPass(), n);
    var issue := LintIssue(Everywhere(), input);
    assert Distinct([issue], {}) == [issue];
    var f := IssueFinding(issue, NodeAnchor);
    assert IssueFindings([issue], NodeAnchor) == [f] && input.pointer == root.pointer;
    assert CompileFindings(Lint(Everywhere()), root, input) == [f];
    assert AllAtEntry(p, root, [f]) == [AtEntry(p, root, f)];
    assert AtEntry(p, root, f).location == root.pointer + " -> <root>";
  }

  lemma AliasKeysDiffer()
    ensures TableKey(AliasRow("/a")) != TableKey(AliasRow("/b"))
  {
    var a, b := TableKey(AliasRow("/a")), TableKey(AliasRow("/b"));
    assert a[|a| - 1] == 'a' && b[|b| - 1] == 'b';
  }

  lemma AliasFreshRun()
    ensures FreshRun(AliasPass(), Lint(Everywhere()), 2).table == [AliasRow("/a"), AliasRow("/b")]
  {
    hide Rebuilt, PreparedAt, SpotAt, Compiles, CompileFindings, AllAtEntry, Lint, Everywhere, AliasRow, TableKey,
      CoveredAt;
    var p, lint := AliasPass(), Lint(Everywhere());
    AliasCompiles(0);
    AliasCompiles(1);
    AliasEmits(0);
    AliasEmits(1);
    AliasKeysDiffer();
    FreshStepIs(p, lint, FreshRun(p, lint, 0), 0);
    FreshStepIs(p, lint, FreshRun(p, lint, 1), 1);
    FreshCovered(p, lint, 0);
    FreshCovered(p, lint, 1);
    assert AddAll([], [AliasRow("/a")]) == [AliasRow("/a")];
    assert AddAll([AliasRow("/a")], [AliasRow("/b")]) == [AliasRow("/a"), AliasRow("/b")];
  }

  lemma AliasEmits(n: nat)
    requires n < 2
    ensures AliasPass().AllRoots() == ALIAS_ROOTS
    ensures FreshEmits(AliasPass(), Lint(Everywhere()), CoveredAt(AliasPass(), n), n)
      == [AliasRow(ALIAS_ROOTS[n].pointer)]
  {
    hide Rebuilt, PreparedAt, SpotAt, CompileFindings, AllAtEntry, Lint, Everywhere, AliasRow, InputAt, CoveredAt;
    AliasCompiles(n);
    AliasFresh(n);
    CompilesIs(AliasPass(), n);
  }
  /** The first root fills the cache, and the second reports what it finds there. */
  lemma AliasCachedRun()
    ensures CachedRun(AliasPass(), Lint(Everywhere()), 2).s.table == [Repeated(AliasRow("/a"))]
  {
    hide Rebuilt, PreparedAt, SpotAt, Compiles, CompileFindings, AllAtEntry, Lint, Everywhere, AliasRow, TableKey,
      CoveredAt, Remembers, InputAt;
    var p, lint := AliasPass(), Lint(Everywhere());
    var k0, k1 := CachedRun(p, lint, 0), CachedRun(p, lint, 1);
    AliasCompiles(0);
    AliasCompiles(1);
    AliasEmits(0);
    AliasMeets();
    CachedStepIs(p, lint, k0, 0);
    CachedStepIs(p, lint, k1, 1);
    CompilesIs(p, 0);
    CompilesIs(p, 1);
    AliasCovers();
    assert AddAll([], [AliasRow("/a")]) == [AliasRow("/a")];
  }

  lemma AliasCovers()
    ensures AliasPass().t.resources == [] && CoveredAt(AliasPass(), 0) == {} && CoveredAt(AliasPass(), 1) == {}
  {
    hide Rebuilt, PreparedAt, SpotAt, Compiles;
    AliasTables();
    AliasCompiles(0);
    CompilesIs(AliasPass(), 0);
  }

  /** What the second root reports from the cache only counts against the row of the first. */
  lemma AliasMeets()
    ensures var root, first := ALIAS_ROOTS[1], ALIAS_ROOTS[0];
      var emitted := AllAtEntry(AliasPass(), root, CompileFindings(Lint(Everywhere()), first, InputAt(AliasPass(), 0)));
      |emitted| == 1 && TableKey(emitted[0]) == TableKey(AliasRow("/a"))
  {
    hide Rebuilt, PreparedAt, SpotAt, Compiles;
    AliasCompiles(0);
    var p, root, first, input := AliasPass(), ALIAS_ROOTS[1], ALIAS_ROOTS[0], InputAt(AliasPass(), 0);
    var issue := LintIssue(Everywhere(), input);
    assert Distinct([issue], {}) == [issue];
    var f := IssueFinding(issue, NodeAnchor);
    assert IssueFindings([issue], NodeAnchor) == [f] && input.pointer == first.pointer;
    assert CompileFindings(Lint(Everywhere()), first, input) == [f];
    assert AllAtEntry(p, root, [f]) == [AtEntry(p, root, f)];
  }

  /**
   * The document with the alias is coherent, and a lint that reports the same diagnostic
   * at every schema shows the cache: the row at the second pointer is lost, and the row at
   * the first counts for it.
   */
  lemma AliasShows()
    ensures Coherent(AliasPass()) && !OneInputEach(AliasPass()) && AliasPass().AllRoots() == ALIAS_ROOTS
    ensures FreshRun(AliasPass(), Lint(Everywhere()), 2).table == [AliasRow("/a"), AliasRow("/b")]
    ensures CachedRun(AliasPass(), Lint(Everywhere()), 2).s.table == [Repeated(AliasRow("/a"))]
  {
    hide Rebuilt, Compiles, SpotAt, PreparedAt, Eligible, FreshRun, CachedRun, Lint, AliasRow;
    RebuiltResources(AliasConfig(), ALIAS_ROOTS, []);
    AliasCompiles(0);
    AliasCompiles(1);
    CompiledIsEligible(AliasPass(), 1);
    assert !SharesInput(AliasPass(), 0, 1);
    AliasFreshRun();
    AliasCachedRun();
  }
}

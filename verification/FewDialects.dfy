/**
 * The early exit of the mixed-dialect search: which mixed units it passes over.
 */
module FewDialects {
  import opened Options
  import opened SchemaHeap
  import opened Dialects
  import opened Rebuild
  import opened References
  import opened CompileContext
  import opened Preparation
  import opened Inventory
  import opened LeafRoots

  // ---- Every supported reading was met, or is the default ----

  predicate IsMet(t: Tables, e: Effective) {
    e.dialect.Some? ==> e.dialect.value in t.supported
  }

  ghost predicate ReadingsMet(t: Tables) {
    && (forall id :: id in t.nodes ==> IsMet(t, t.nodes[id].effective))
    && (forall at :: at in t.positions ==> IsMet(t, t.positions[at]))
  }

  lemma {:induction false} RecordAllMet(c: Config, t: Tables, visited: seq<Item>)
    requires ReadingsMet(t)
    ensures ReadingsMet(RecordAll(c, t, visited))
    decreases |visited|
  {
    if visited != [] {
      RecordMet(c, t, visited[0]);
      RecordAllMet(c, Record(c, t, visited[0]), visited[1..]);
    }
  }

  lemma RecordMet(c: Config, t: Tables, item: Item)
    requires ReadingsMet(t)
    ensures ReadingsMet(Record(c, t, item))
  {
    hide EffectiveOf;
  }

  lemma {:induction false} AddRootsMet(c: Config, t: Tables, sorted: seq<Root>)
    requires ReadingsMet(t)
    ensures ReadingsMet(AddRoots(c, t, sorted))
    decreases |sorted|
  {
    if sorted != [] {
      var items := [AdditionalItem(c, t, sorted[0])];
      RecordAllMet(c, t, Preorder(c, t.nodes.Keys, items));
      AddRootsMet(c, Walk(c, t, items), sorted[1..]);
    }
  }

  /** In rebuilt tables every supported dialect an object or a position is read in is among those met. */
  lemma RebuiltReadingsMet(c: Config, original: seq<Root>, additional: seq<Root>)
    ensures ReadingsMet(Rebuilt(c, original, additional))
  {
    var items := RootItems(original, c.defaultDialect, true);
    assert EMPTY_TABLES.nodes.Keys == {};
    RecordAllMet(c, EMPTY_TABLES, Preorder(c, {}, items));
    AddRootsMet(c, Walk(c, EMPTY_TABLES, items), SortByLength(additional));
  }

  lemma ReadingIsMetOrDefault(u: Unit, e: Edge)
    requires ReadingsMet(u.t)
    ensures IsMet(u.t, Reading(u, e)) || Reading(u, e) == u.c.defaultDialect
  {
  }

  // ---- What the early exit loses ----

  /** The unit is somewhere read in a dialect the walk met. */
  ghost predicate ReachesMet(u: Unit) {
    exists e :: Reaches(u, e) && Reading(u, e).dialect.Some? && Reading(u, e).dialect.value in u.t.supported
  }

  /** The unit is somewhere read in the document's default dialect. */
  ghost predicate ReachesDefault(u: Unit) {
    exists e :: Reaches(u, e) && Reading(u, e).dialect == u.c.defaultDialect.dialect
  }

  lemma AtMostOne(met: set<Dialect>, a: Dialect, b: Dialect)
    requires |met| < 2 && a in met && b in met
    ensures a == b
  {
    if a != b {
      SetSizes({a, b}, met);
    }
  }

  lemma MixedHasTwo(u: Unit) returns (a: Edge, b: Edge)
    requires IsMixed(u)
    ensures Reaches(u, a) && Reaches(u, b)
    ensures Reading(u, a).dialect.Some? && Reading(u, b).dialect.Some? && Reading(u, a).dialect != Reading(u, b).dialect
  {
    hide Reading, UnitSet;
    a := Edge(u.entry, u.pointer);
    b :| Reaches(u, b) && Reading(u, b).dialect != EntryReading(u).dialect;
  }

  /**
   * With fewer than two dialects met, no unit is mixed when the document's default dialect
   * is unsupported or was met. Otherwise a unit is mixed, and passed over by the early
   * exit, if and only if everything it reaches is supported and it reaches both the met
   * dialect and the default.
   */
  lemma EarlyExitLoses(u: Unit, original: seq<Root>, additional: seq<Root>)
    requires u.t == Rebuilt(u.c, original, additional) && |u.t.supported| < 2
    ensures IsMet(u.t, u.c.defaultDialect) ==> !IsMixed(u)
    ensures !IsMet(u.t, u.c.defaultDialect) ==> (IsMixed(u) <==> AllSupported(u) && ReachesMet(u) && ReachesDefault(u))
  {
    hide Rebuilt, Reading, ReadingsMet, UnitSet, Visits, Reaches;
    RebuiltReadingsMet(u.c, original, additional);
    if IsMixed(u) {
      var a, b := MixedHasTwo(u);
      ReadingIsMetOrDefault(u, a);
      ReadingIsMetOrDefault(u, b);
      var x, y := Reading(u, a).dialect.value, Reading(u, b).dialect.value;
      if x in u.t.supported && y in u.t.supported {
        AtMostOne(u.t.supported, x, y);
      }
    }
    if !IsMet(u.t, u.c.defaultDialect) && AllSupported(u) && ReachesMet(u) && ReachesDefault(u) {
      EntryIsReached(u);
      var a :| Reaches(u, a) && Reading(u, a).dialect.Some? && Reading(u, a).dialect.value in u.t.supported;
      var b :| Reaches(u, b) && Reading(u, b).dialect == u.c.defaultDialect.dialect;
    }
  }

  lemma EntryIsReached(u: Unit)
    ensures Reaches(u, Edge(u.entry, u.pointer))
  {
  }

  // ---- A document with a mixed unit and one dialect met ----

  const DRAFT_2020_12 := "https://json-schema.org/draft/2020-12/schema"

  /** The only schema declares a dialect and refers to the document itself, which no walk registers. */
  function FallbackConfig(): Config {
    Config([Schema(None, Some(DRAFT_2020_12), RefField.Text("#"), Absent, None, []), EMPTY_SCHEMA], OpenApi31,
           Effective("https://spec.openapis.org/oas/3.1/dialect/base", Some(OpenApi31), ""), KNOWN_DIALECTS)
  }

  /** `#` names the document, and its fragment is the empty pointer. */
  function DocumentReference(): Resolver {
    Resolver((_, _, _) => Some(Obj(1)), (_, _, _) => DocumentRoot, (_, _, _) => false, (_, _) => Some(""),
      (_, _) => "", (_, _, _) => None)
  }

  const FALLBACK_ROOT := Root(Obj(0), "/components/schemas/A")

  ghost function FallbackTables(): Tables {
    Rebuilt(FallbackConfig(), [FALLBACK_ROOT], [])
  }

  ghost function FallbackUnit(): Unit {
    Unit(FallbackConfig(), DocumentReference(), Scope([FALLBACK_ROOT], []), FallbackTables(), Obj(0),
      Some(FALLBACK_ROOT.pointer))
  }

  lemma FallbackTablesAre()
    ensures FallbackTables()
         == Record(FallbackConfig(), EMPTY_TABLES, RootItem(FALLBACK_ROOT, FallbackConfig().defaultDialect, true))
    ensures var t := FallbackTables();
      && t.positions.Keys == {FALLBACK_ROOT.pointer} && t.nodes.Keys == {0}
      && t.nodes[0].effective.dialect == Some(JsonSchema202012)
      && t.positions[FALLBACK_ROOT.pointer].dialect == Some(JsonSchema202012)
      && t.supported == {JsonSchema202012} && |t.entries| == 1 && t.entries[0].id == 0
  {
    hide Rebuilt;
    assert [FALLBACK_ROOT] == [FALLBACK_ROOT] + [];
    OneLeaf(FallbackConfig(), FALLBACK_ROOT, []);
    LastIsNoHash();
  }

  lemma LastIsNoHash()
    ensures DRAFT_2020_12[|DRAFT_2020_12| - 1] != '#' && DRAFT_2020_12 in KNOWN_DIALECTS
    ensures KNOWN_DIALECTS[DRAFT_2020_12] == JsonSchema202012
  {
  }

  /** The unit holds the document, read in the default dialect. */
  lemma FallbackReaches()
    ensures Reaches(FallbackUnit(), Edge(Obj(1), Some("")))
  {
    hide Rebuilt, UnitSet, Reading;
    FallbackTablesAre();
    var u := FallbackUnit();
    var e := Edge(Obj(1), Some(""));
    assert RefEdges(u, 0, StaticRef) == [e];
    assert e in Edges(u, 0);
    assert Obj(0) in UnitSet(u);
  }

  /** The early exit is taken, and the unit of the only schema is mixed. */
  lemma EarlyExitLosesFallback()
    ensures |FallbackUnit().t.supported| < 2 && IsMixed(FallbackUnit())
  {
    hide Rebuilt, UnitSet, Reaches, ReadingsMet, IsMet;
    FallbackTablesAre();
    FallbackReaches();
    var u := FallbackUnit();
    assert Reading(u, Edge(Obj(1), Some(""))).dialect == Some(OpenApi31);
    assert EntryReading(u).dialect == Some(JsonSchema202012);
    forall e | Reaches(u, e) ensures Reading(u, e).dialect.Some? {
    }
  }

  /** The inventory is complete as it stands: the reference lands on the document, so it establishes no root. */
  lemma FallbackIsDiscovered()
    ensures IsDiscovered(FallbackConfig(), DocumentReference(), [FALLBACK_ROOT], [])
  {
    hide Rebuilt, UnitSet;
    FallbackTablesAre();
  }
}

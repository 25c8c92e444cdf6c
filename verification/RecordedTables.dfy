/**
 * What the tables hold after a walk, said from the fields of the schemas.
 */
module RecordedTables {
  import opened Options
  import opened SchemaHeap
  import opened Dialects
  import opened DialectFacts
  import opened DialectResults
  import opened Rebuild
  import opened DialectWalk
  import opened SchemaFields
  import opened LeafRoots

  // ---- Each position the walk visits ----

  /** The position is one the walk started from, or that of a subschema of a recorded object, inheriting its reading. */
  ghost predicate ComesFrom(c: Config, items: seq<Item>, t: Tables, v: Item) {
    v in items || exists parent: Id, entry :: IsEntryOf(c, t, parent, entry, v)
  }

  predicate IsEntryOf(c: Config, t: Tables, parent: Id, entry: Entry, v: Item) {
    && parent in t.nodes
    && entry in SchemaOf(c.heap, parent).entries && !Drops(c, SchemaOf(c.heap, parent), entry.key)
    && v.value == entry.value && !v.root
    && v.pointer == ChildPointer(t.nodes[parent].pointer, entry)
    && v.path == ChildPath(t.nodes[parent].path, entry)
    && v.effective == t.nodes[parent].effective
  }

  /** The position is read as its own `$schema` announces, or else as it inherits. */
  ghost predicate IsReading(c: Config, v: Item, e: Effective) {
    if AnnouncesAny(c, v) then ReadFrom(c, v, e) else e == v.effective
  }

  lemma ReadingIs(c: Config, v: Item)
    ensures IsReading(c, v, EffectiveOf(c, v))
  {
    hide EffectiveOf, IsReadBy, Announces;
    AnnouncedIsDeclared(c, v);
  }

  /**
   * The object is recorded as the position says, and listed as an embedded resource if it is no root
   * and has an `$id`.
   */
  ghost predicate IsRecordOf(c: Config, t: Tables, id: Id, v: Item) {
    && id in t.nodes && v.value == Obj(id)
    && t.nodes[id].pointer == v.pointer && t.nodes[id].path == v.path
    && IsReading(c, v, t.nodes[id].effective)
    && (Root(Obj(id), v.pointer) in t.resources <==> !v.root && SchemaOf(c.heap, id).resourceId.Some?)
  }

  lemma {:induction false} RecordAllListsResource(c: Config, t: Tables, visited: seq<Item>, r: Root)
    ensures r in RecordAll(c, t, visited).resources
      <==> r in t.resources || exists v :: v in visited && ListsAs(c, v, r)
    decreases |visited|
  {
    hide ListsAs;
    if visited != [] {
      RecordListsResource(c, t, visited[0], r);
      RecordAllListsResource(c, Record(c, t, visited[0]), visited[1..], r);
      assert visited == [visited[0]] + visited[1..];
    }
  }

  /** Visiting the position lists it as an embedded resource. */
  predicate ListsAs(c: Config, v: Item, r: Root) {
    && v.value.Obj? && !v.root && SchemaOf(c.heap, v.value.id).resourceId.Some?
    && r == Root(v.value, v.pointer)
  }

  lemma RecordListsResource(c: Config, t: Tables, v: Item, r: Root)
    ensures r in Record(c, t, v).resources <==> r in t.resources || ListsAs(c, v, r)
  {
  }

  lemma VisitedComesFrom(c: Config, items: seq<Item>, v: Item)
    requires v in Preorder(c, {}, items)
    ensures ComesFrom(c, items, Walk(c, EMPTY_TABLES, items), v)
  {
    hide IsEntryOf, Walk;
    var chain := PreorderParent(c, items, v);
    if |chain| > 1 {
      ChainFront(c, items, chain);
      var parent := Last(chain[..|chain| - 1]);
      ParentIsRecorded(c, items, parent, v);
    }
  }

  /** A way down to a visited position whose last step starts from a visited position. */
  lemma {:induction false} PreorderParent(c: Config, items: seq<Item>, v: Item) returns (chain: seq<Item>)
    requires v in Preorder(c, {}, items)
    ensures Chain(c, items, chain) && Last(chain) == v
    ensures |chain| > 1 ==> Last(chain[..|chain| - 1]) in Preorder(c, {}, items)
  {
    chain := VisitedChain(c, {}, items, v);
  }

  lemma {:induction false} VisitedChain(c: Config, seen: set<Id>, items: seq<Item>, v: Item) returns (chain: seq<Item>)
    requires v in Preorder(c, seen, items)
    ensures Chain(c, items, chain) && Last(chain) == v
    ensures |chain| > 1 ==> Last(chain[..|chain| - 1]) in Preorder(c, seen, items)
    decreases Unreached(c.heap, seen), |items|, 1
  {
    var first := Visit(c, seen, items[0]);
    UnreachedShrinks(c.heap, seen, seen + IdsOf(first));
    if v in first {
      chain := VisitedBelow(c, seen, items[0], v);
    } else {
      chain := VisitedChain(c, seen + IdsOf(first), items[1..], v);
    }
  }

  lemma {:induction false} VisitedBelow(c: Config, seen: set<Id>, item: Item, v: Item) returns (chain: seq<Item>)
    requires v in Visit(c, seen, item)
    ensures Chain(c, [item], chain) && Last(chain) == v
    ensures |chain| > 1 ==> Last(chain[..|chain| - 1]) in Visit(c, seen, item)
    decreases Unreached(c.heap, seen), 1, 0
  {
    if v == item {
      chain := [item];
    } else {
      UnreachedShrinks(c.heap, seen, seen + {item.value.id});
      var below := VisitedChain(c, seen + {item.value.id}, Children(c, item), v);
      ChainUnder(c, item, below);
      chain := [item] + below;
      assert chain[..|chain| - 1] == [item] + below[..|below| - 1];
    }
  }

  lemma KeptAre(c: Config, id: Id)
    ensures forall e :: e in Kept(SchemaOf(c.heap, id), c.Suppress()) ==>
      e in SchemaOf(c.heap, id).entries && !Drops(c, SchemaOf(c.heap, id), e.key)
  {
    KeptFromExactly(SchemaOf(c.heap, id), c.Suppress(), SchemaOf(c.heap, id).entries);
  }

  lemma ParentIsRecorded(c: Config, items: seq<Item>, parent: Item, v: Item)
    requires parent in Preorder(c, {}, items) && v in Children(c, parent)
    ensures parent.value.Obj?
    ensures exists entry :: IsEntryOf(c, Walk(c, EMPTY_TABLES, items), parent.value.id, entry, v)
  {
    var visited := Preorder(c, {}, items);
    assert EMPTY_TABLES.nodes.Keys == {};
    PreorderOnce(c, {}, items);
    RecordAllNode(c, EMPTY_TABLES, visited, parent);
    hide ChildPointer, ChildPath, EffectiveOf, Preorder, RecordAll, Kept;
    var s := SchemaOf(c.heap, parent.value.id);
    var kept := Kept(s, c.Suppress());
    ChildrenFromEach(c, parent, kept);
    KeptAre(c, parent.value.id);
    var k :| 0 <= k < |kept| && Children(c, parent)[k] == v;
    assert kept[k] in kept;
    assert IsEntryOf(c, Walk(c, EMPTY_TABLES, items), parent.value.id, kept[k], v);
  }

  /**
   * Every object a walk records is recorded from one position: where it starts, or an
   * entry of an object recorded before. It is read as it announces or else as it
   * inherits, and is an embedded resource exactly when it is no root and has an `$id`.
   */
  lemma WalkRecords(c: Config, items: seq<Item>, id: Id) returns (v: Item)
    requires id in Walk(c, EMPTY_TABLES, items).nodes
    ensures ComesFrom(c, items, Walk(c, EMPTY_TABLES, items), v)
    ensures IsRecordOf(c, Walk(c, EMPTY_TABLES, items), id, v)
  {
    hide EffectiveOf, IsReading, ComesFrom;
    var visited := Preorder(c, {}, items);
    assert EMPTY_TABLES.nodes.Keys == {};
    PreorderOnce(c, {}, items);
    RecordAllIds(c, EMPTY_TABLES, visited);
    IdsOfMember(visited, id);
    var k :| 0 <= k < |visited| && visited[k].value == Obj(id);
    v := visited[k];
    RecordAllNode(c, EMPTY_TABLES, visited, v);
    ReadingIs(c, v);
    VisitedComesFrom(c, items, v);
    RecordAllListsResource(c, EMPTY_TABLES, visited, Root(Obj(id), v.pointer));
    forall w | w in visited && ListsAs(c, w, Root(Obj(id), v.pointer)) ensures w == v {
      var j :| 0 <= j < |visited| && visited[j] == w;
    }
  }

  /** Every embedded resource is a recorded object, at its recorded pointer. */
  lemma ResourceIsRecorded(c: Config, items: seq<Item>, r: Root)
    requires r in Walk(c, EMPTY_TABLES, items).resources
    ensures var t := Walk(c, EMPTY_TABLES, items);
      r.value.Obj? && r.value.id in t.nodes && r.pointer == t.nodes[r.value.id].pointer
  {
    hide EffectiveOf;
    var visited := Preorder(c, {}, items);
    assert EMPTY_TABLES.nodes.Keys == {};
    PreorderOnce(c, {}, items);
    RecordAllListsResource(c, EMPTY_TABLES, visited, r);
    var v :| v in visited && ListsAs(c, v, r);
    RecordAllNode(c, EMPTY_TABLES, visited, v);
  }

  // ---- Positions and dialects met ----

  lemma {:induction false} RecordAllAt(c: Config, t: Tables, visited: seq<Item>, at: string)
    requires forall p :: p in t.positions <==> p in t.schemasAt
    ensures var r := RecordAll(c, t, visited);
      && (at in r.positions <==> at in r.schemasAt)
      && (at in r.positions <==> at in t.positions || exists v :: v in visited && v.pointer == at)
      && (at in r.positions ==>
            || (at in t.positions && r.positions[at] == t.positions[at] && r.schemasAt[at] == t.schemasAt[at])
            || exists v :: v in visited && v.pointer == at && r.schemasAt[at] == v.value
                 && r.positions[at] == EffectiveOf(c, v))
    decreases |visited|
  {
    hide EffectiveOf;
    if visited != [] {
      var t1 := Record(c, t, visited[0]);
      RecordAllAt(c, t1, visited[1..], at);
      assert visited == [visited[0]] + visited[1..];
    }
  }

  /** A pointer is a position exactly when the walk visited it, and then has what a visit there gave it. */
  lemma PositionsExactly(c: Config, items: seq<Item>, at: string)
    ensures var t, visited := Walk(c, EMPTY_TABLES, items), Preorder(c, {}, items);
      && (at in t.positions <==> exists v :: v in visited && v.pointer == at)
      && (at in t.positions ==> exists v ::
            v in visited && v.pointer == at && at in t.schemasAt && t.schemasAt[at] == v.value
            && IsReading(c, v, t.positions[at]))
  {
    hide EffectiveOf, IsReading;
    assert EMPTY_TABLES.nodes.Keys == {};
    var visited := Preorder(c, {}, items);
    RecordAllAt(c, EMPTY_TABLES, visited, at);
    forall v | v in visited ensures IsReading(c, v, EffectiveOf(c, v)) {
      ReadingIs(c, v);
    }
  }

  lemma {:induction false} RecordAllMeets(c: Config, t: Tables, visited: seq<Item>, d: Dialect, at: string)
    ensures var r := RecordAll(c, t, visited);
      && (d in r.supported
          <==> d in t.supported || exists v :: v in visited && EffectiveOf(c, v).dialect == Some(d))
      && (at in r.unsupported
          <==> at in t.unsupported || exists v :: v in visited && IsUnsupportedAt(EffectiveOf(c, v), at))
    decreases |visited|
  {
    hide EffectiveOf;
    if visited != [] {
      RecordAllMeets(c, Record(c, t, visited[0]), visited[1..], d, at);
      assert visited == [visited[0]] + visited[1..];
    }
  }

  predicate IsUnsupportedAt(e: Effective, at: string) {
    e.dialect.None? && e.pointer == at
  }

  /** The dialects met are those positions are read in; unsupported readings are listed where they were announced. */
  lemma MetExactly(c: Config, items: seq<Item>, d: Dialect, at: string)
    ensures var t, visited := Walk(c, EMPTY_TABLES, items), Preorder(c, {}, items);
      && (d in t.supported <==> exists v :: v in visited && EffectiveOf(c, v).dialect == Some(d))
      && (at in t.unsupported <==> exists v :: v in visited && IsUnsupportedAt(EffectiveOf(c, v), at))
      && (forall v :: v in visited ==> IsReading(c, v, EffectiveOf(c, v)))
  {
    hide EffectiveOf, IsReading;
    assert EMPTY_TABLES.nodes.Keys == {};
    var visited := Preorder(c, {}, items);
    RecordAllMeets(c, EMPTY_TABLES, visited, d, at);
    forall v | v in visited ensures IsReading(c, v, EffectiveOf(c, v)) {
      ReadingIs(c, v);
    }
  }

  // ---- Rebuilt tables ----

  /** The same of rebuilt tables: every object is recorded as the fields on the way to it say. */
  lemma RebuiltRecords(c: Config, original: seq<Root>, additional: seq<Root>, id: Id) returns (v: Item)
    requires id in Rebuilt(c, original, additional).nodes
    ensures ComesFrom(c, AllItems(c, original, additional), Rebuilt(c, original, additional), v)
    ensures IsRecordOf(c, Rebuilt(c, original, additional), id, v)
  {
    hide Rebuilt, Walk, ComesFrom, IsRecordOf;
    RebuildInheritsFromFinalTables(c, original, additional);
    v := WalkRecords(c, AllItems(c, original, additional), id);
  }

  /**
   * An additional root inherits from its nearest enclosing position, and only a free-standing one is a
   * resource root.
   */
  lemma StartsExactly(c: Config, original: seq<Root>, additional: seq<Root>, v: Item)
    requires v in AllItems(c, original, additional)
    ensures v.path == ""
    ensures var t := Rebuilt(c, original, additional);
      || (Root(v.value, v.pointer) in original && v.root && v.effective == c.defaultDialect)
      || (Root(v.value, v.pointer) in additional
          && match EnclosingPosition(t, v.pointer)
             case None => v.root && v.effective == c.defaultDialect
             case Some(at) => !v.root && at in t.positions && v.effective == t.positions[at])
  {
    hide Rebuilt, SortByLength, EnclosingPosition;
    var t, sorted := Rebuilt(c, original, additional), SortByLength(additional);
    var first, second := RootItems(original, c.defaultDialect, true), SettledItems(c, t, sorted);
    if v in first {
      var k :| 0 <= k < |first| && first[k] == v;
      assert original[k] in original;
    } else {
      var k :| 0 <= k < |second| && second[k] == v;
      assert sorted[k] in multiset(sorted) && sorted[k] in multiset(additional);
      RebuiltCovers(c, original, additional);
      EnclosingIsNearest(t, v.pointer);
    }
  }

  // ---- Readings looked up ----

  /**
   * The reading looked up for a schema: what its object is recorded with, wherever it is
   * asked for; else that of the position asked about; else the document's default.
   */
  lemma LookedUpExactly(c: Config, t: Tables, schema: Value, pointer: Option<string>, e: Effective)
    ensures EffectiveFor(c, t, schema, pointer) == e <==>
      match schema
      case Obj(id) => if id in t.nodes then e == t.nodes[id].effective else IsReadAt(c, t, pointer, e)
      case Other(_) => IsReadAt(c, t, pointer, e)
  {
  }

  predicate IsReadAt(c: Config, t: Tables, pointer: Option<string>, e: Effective) {
    match pointer
    case None => e == c.defaultDialect
    case Some(at) => e == if at in t.positions then t.positions[at] else c.defaultDialect
  }

  /** What a rebuild recorded is looked up as it was read: objects anywhere, other values at their own pointer. */
  lemma RebuiltIsLookedUp(c: Config, original: seq<Root>, additional: seq<Root>, id: Id,
    at: Option<string>) returns (v: Item)
    requires id in Rebuilt(c, original, additional).nodes
    ensures v.value == Obj(id) && ComesFrom(c, AllItems(c, original, additional), Rebuilt(c, original, additional), v)
    ensures IsReading(c, v, EffectiveFor(c, Rebuilt(c, original, additional), Obj(id), at))
  {
    hide Rebuilt, IsReading, ComesFrom;
    v := RebuiltRecords(c, original, additional, id);
    LookedUpExactly(c, Rebuilt(c, original, additional), Obj(id), at,
      Rebuilt(c, original, additional).nodes[id].effective);
  }

  /** The dotted path of a subschema: its keyword after its parent's path, then its index in brackets or its name. */
  lemma ChildPathIs(parent: string, e: Entry)
    ensures var step := ChildPath("", e);
      && (e.at == Single ==> step == e.key)
      && (e.at.Index? ==> step == e.key + "[" + e.at.digits + "]")
      && (e.at.Name? ==> step == e.key + "." + e.at.name)
      && (parent != "" ==> ChildPath(parent, e) == parent + "." + step)
  {
  }
}

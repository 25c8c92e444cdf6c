/**
 * The main results about the dialect tables: an object's dialect is the nearest
 * one declared above it, and a rebuild lets every additional root inherit from
 * its true enclosing position.
 */
module DialectResults {
  import opened Options
  import opened SchemaHeap
  import opened Dialects
  import opened Rebuild
  import opened DialectFacts

  // ---- The tables agree with one another ----

  /** The entry list names each recorded object exactly once, where and how the node table has it. */
  ghost predicate EntriesMatch(t: Tables) {
    Listing(t.entries, t.nodes)
  }

  ghost predicate Listing(entries: seq<EntryInfo>, nodes: map<Id, NodeInfo>) {
    && (forall i :: 0 <= i < |entries| ==> EntryMatches(nodes, entries[i]))
    && (forall id :: id in nodes ==> Listed(entries, id))
    && (forall i, j :: 0 <= i < j < |entries| ==> entries[i].id != entries[j].id)
  }

  ghost predicate Listed(entries: seq<EntryInfo>, id: Id) {
    exists i :: 0 <= i < |entries| && entries[i].id == id
  }

  predicate EntryMatches(nodes: map<Id, NodeInfo>, e: EntryInfo) {
    && e.id in nodes
    && e.pointer == nodes[e.id].pointer
    && e.dialect == nodes[e.id].effective.dialect
  }

  lemma ListingExtends(entries: seq<EntryInfo>, nodes: map<Id, NodeInfo>, id: Id, info: NodeInfo)
    requires Listing(entries, nodes) && id !in nodes
    ensures Listing(entries + [EntryInfo(id, info.pointer, info.effective.dialect)], nodes[id := info])
  {
    var entries' := entries + [EntryInfo(id, info.pointer, info.effective.dialect)];
    assert entries'[|entries|].id == id;
    forall k | k in nodes ensures Listed(entries', k) {
      var i :| 0 <= i < |entries| && entries[i].id == k;
      assert entries'[i].id == k;
    }
  }

  lemma RecordMatches(c: Config, t: Tables, item: Item)
    requires EntriesMatch(t) && (item.value.Obj? ==> item.value.id !in t.nodes)
    ensures EntriesMatch(Record(c, t, item))
  {
    if item.value.Obj? {
      ListingExtends(t.entries, t.nodes, item.value.id, NodeInfo(item.pointer, item.path, EffectiveOf(c, item)));
    }
  }

  lemma DistinctTail(seen: set<Id>, visited: seq<Item>)
    requires visited != [] && Distinct(visited) && Fresh(seen, visited)
    ensures Distinct(visited[1..])
    ensures Fresh(seen + IdsOf([visited[0]]), visited[1..])
  {
    forall i | 0 <= i < |visited[1..]| && visited[1..][i].value.Obj?
      ensures visited[1..][i].value.id !in seen + IdsOf([visited[0]])
    {
      assert visited[1..][i] == visited[i + 1];
    }
  }

  lemma {:induction false} RecordAllMatches(c: Config, t: Tables, visited: seq<Item>)
    requires EntriesMatch(t) && Distinct(visited) && Fresh(t.nodes.Keys, visited)
    ensures EntriesMatch(RecordAll(c, t, visited))
    decreases |visited|
  {
    if visited != [] {
      var t1 := Record(c, t, visited[0]);
      RecordMatches(c, t, visited[0]);
      DistinctTail(t.nodes.Keys, visited);
      assert t1.nodes.Keys <= t.nodes.Keys + IdsOf([visited[0]]);
      RecordAllMatches(c, t1, visited[1..]);
    }
  }

  /** A walk lists every object it records once, with its pointer and dialect. */
  lemma WalkMatches(c: Config, t: Tables, items: seq<Item>)
    requires EntriesMatch(t)
    ensures EntriesMatch(Walk(c, t, items))
  {
    PreorderOnce(c, t.nodes.Keys, items);
    RecordAllMatches(c, t, Preorder(c, t.nodes.Keys, items));
  }

  /** Positions only accumulate, and every recorded object sits at one of them. */
  ghost predicate PositionsMatch(t: Tables) {
    && t.positions.Keys == t.schemasAt.Keys
    && forall id :: id in t.nodes ==> t.nodes[id].pointer in t.positions
  }

  lemma {:induction false} RecordAllPositions(c: Config, t: Tables, visited: seq<Item>)
    requires PositionsMatch(t)
    ensures var r := RecordAll(c, t, visited);
      && PositionsMatch(r) && t.positions.Keys <= r.positions.Keys
      && (forall item :: item in visited ==> item.pointer in r.positions)
    decreases |visited|
  {
    if visited != [] {
      var t1 := Record(c, t, visited[0]);
      RecordAllPositions(c, t1, visited[1..]);
      assert visited[0].pointer in t1.positions;
    }
  }

  lemma {:induction false} RecordAllKeeps(c: Config, t: Tables, visited: seq<Item>, id: Id)
    requires Fresh({id}, visited) && id in t.nodes
    ensures id in RecordAll(c, t, visited).nodes && RecordAll(c, t, visited).nodes[id] == t.nodes[id]
    decreases |visited|
  {
    if visited != [] {
      RecordAllKeeps(c, Record(c, t, visited[0]), visited[1..], id);
    }
  }

  /** What the node table holds for a visited object: the position that visited it. */
  lemma {:induction false} RecordAllNode(c: Config, t: Tables, visited: seq<Item>, v: Item)
    requires Distinct(visited) && v in visited && v.value.Obj?
    ensures var r := RecordAll(c, t, visited);
      v.value.id in r.nodes && r.nodes[v.value.id] == NodeInfo(v.pointer, v.path, EffectiveOf(c, v))
    decreases |visited|
  {
    var t1 := Record(c, t, visited[0]);
    if visited[0] == v {
      RecordAllKeeps(c, t1, visited[1..], v.value.id);
    } else {
      RecordAllNode(c, t1, visited[1..], v);
    }
  }

  // ---- Roots stay covered ----

  /** A root is covered when its object is recorded or, for any other value, its position is. */
  predicate Covered(t: Tables, root: Root) {
    if root.value.Obj? then root.value.id in t.nodes else root.pointer in t.positions
  }

  lemma WalkCovers(c: Config, t: Tables, items: seq<Item>, root: Root)
    requires PositionsMatch(t)
    requires Covered(t, root)
      || exists item :: item in items && item.value == root.value && item.pointer == root.pointer
    ensures PositionsMatch(Walk(c, t, items)) && Covered(Walk(c, t, items), root)
  {
    var visited := Preorder(c, t.nodes.Keys, items);
    RecordAllPositions(c, t, visited);
    RecordAllIds(c, t, visited);
    PreorderSettles(c, t.nodes.Keys, items);
    if !Covered(t, root) {
      var item :| item in items && item.value == root.value && item.pointer == root.pointer;
      assert Settled(t.nodes.Keys, visited, item);
    }
  }

  lemma {:induction false} AddRootsCovers(c: Config, t: Tables, sorted: seq<Root>, root: Root)
    requires PositionsMatch(t) && (Covered(t, root) || root in sorted)
    ensures PositionsMatch(AddRoots(c, t, sorted)) && Covered(AddRoots(c, t, sorted), root)
    decreases |sorted|
  {
    if sorted != [] {
      var items := [AdditionalItem(c, t, sorted[0])];
      assert items[0].value == sorted[0].value && items[0].pointer == sorted[0].pointer;
      WalkCovers(c, t, items, if Covered(t, root) then root else sorted[0]);
      AddRootsCovers(c, Walk(c, t, items), sorted[1..], root);
    }
  }

  lemma {:induction false} AddRootsMatches(c: Config, t: Tables, sorted: seq<Root>)
    requires PositionsMatch(t) && EntriesMatch(t)
    ensures PositionsMatch(AddRoots(c, t, sorted)) && EntriesMatch(AddRoots(c, t, sorted))
    decreases |sorted|
  {
    if sorted != [] {
      var items := [AdditionalItem(c, t, sorted[0])];
      RecordAllPositions(c, t, Preorder(c, t.nodes.Keys, items));
      WalkMatches(c, t, items);
      AddRootsMatches(c, Walk(c, t, items), sorted[1..]);
    }
  }

  /** After a rebuild every root is covered and every recorded object has one entry and a position. */
  lemma RebuiltCovers(c: Config, original: seq<Root>, additional: seq<Root>)
    ensures var r := Rebuilt(c, original, additional);
      && EntriesMatch(r) && PositionsMatch(r)
      && forall root :: root in original || root in additional ==> Covered(r, root)
  {
    var items := RootItems(original, c.defaultDialect, true);
    var t := Walk(c, EMPTY_TABLES, items);
    var sorted := SortByLength(additional);
    RecordAllPositions(c, EMPTY_TABLES, Preorder(c, {}, items));
    assert EMPTY_TABLES.nodes.Keys == {};
    WalkMatches(c, EMPTY_TABLES, items);
    AddRootsMatches(c, t, sorted);
    forall root | root in original || root in additional ensures Covered(AddRoots(c, t, sorted), root) {
      if root in original {
        var k :| 0 <= k < |original| && original[k] == root;
        assert items[k].value == root.value && items[k].pointer == root.pointer;
        WalkCovers(c, EMPTY_TABLES, items, root);
      } else {
        assert root in multiset(additional);
        assert root in multiset(sorted);
      }
      AddRootsCovers(c, t, sorted, root);
    }
  }

  // ---- The dialect of an object is the nearest declared above it ----

  /**
   * The position holds an object with a `$schema`, and is a root or has an `$id`; OAS 3.0 documents
   * have no such thing.
   */
  predicate Announces(c: Config, item: Item, uri: string) {
    && c.dialect != Oas30 && item.value.Obj?
    && (item.root || SchemaOf(c.heap, item.value.id).resourceId.Some?)
    && SchemaOf(c.heap, item.value.id).dialectUri == Some(uri)
  }

  ghost predicate AnnouncesAny(c: Config, item: Item) {
    exists uri :: Announces(c, item, uri)
  }

  /** The reading a `$schema` at a position announces: the URI as written, known with or without one trailing `#`. */
  predicate IsReadBy(c: Config, item: Item, uri: string, e: Effective) {
    && e.uri == uri && e.pointer == item.pointer + "/$schema"
    && (forall bare :: uri == bare || uri == bare + "#" ==>
          (bare in c.known && !EndsWithHash(bare) ==> e.dialect == Some(c.known[bare])))
    && (e.dialect.Some? ==> exists bare :: (uri == bare || uri == bare + "#") && bare in c.known)
  }

  predicate EndsWithHash(s: string) {
    s != "" && s[|s| - 1] == '#'
  }

  lemma AnnouncedIsDeclared(c: Config, item: Item)
    ensures Declares(c, item) <==> AnnouncesAny(c, item)
    ensures forall uri :: Announces(c, item, uri) ==> IsReadBy(c, item, uri, EffectiveOf(c, item))
    ensures !AnnouncesAny(c, item) ==> EffectiveOf(c, item) == item.effective
  {
    if Declares(c, item) {
      assert Announces(c, item, SchemaOf(c.heap, item.value.id).dialectUri.value);
    }
    forall uri | Announces(c, item, uri) ensures IsReadBy(c, item, uri, EffectiveOf(c, item)) {
      ReadByUri(c, item, uri);
    }
  }

  lemma ReadByUri(c: Config, item: Item, uri: string)
    ensures IsReadBy(c, item, uri, DialectAt(c, uri, item.pointer + "/$schema"))
  {
    var e := DialectAt(c, uri, item.pointer + "/$schema");
    var normalized := if EndsWithHash(uri) then uri[..|uri| - 1] else uri;
    assert EndsWithHash(uri) ==> uri == normalized + "#";
    forall bare | (uri == bare || uri == bare + "#") && bare in c.known && !EndsWithHash(bare)
      ensures e.dialect == Some(c.known[bare]) {
      assert uri == bare + "#" ==> EndsWithHash(uri) && uri[..|uri| - 1] == bare;
    }
  }

  /** The position nearest the end of a chain that announces a dialect decides it. */
  ghost predicate DecidedAt(c: Config, chain: seq<Item>, k: nat) {
    k < |chain| && AnnouncesAny(c, chain[k]) && forall j :: k < j < |chain| ==> !AnnouncesAny(c, chain[j])
  }

  /** The reading is the one announced at the position. */
  ghost predicate ReadFrom(c: Config, item: Item, e: Effective) {
    forall uri :: Announces(c, item, uri) ==> IsReadBy(c, item, uri, e)
  }

  lemma ChildInherits(c: Config, item: Item, child: Item)
    requires child in Children(c, item)
    ensures child.effective == EffectiveOf(c, item)
  {
    ChildrenFromEach(c, item, Kept(SchemaOf(c.heap, item.value.id), c.Suppress()));
  }

  lemma {:induction false} NearestDeclarationDecides(c: Config, items: seq<Item>, chain: seq<Item>)
    requires Chain(c, items, chain)
    ensures forall k: nat :: DecidedAt(c, chain, k) ==> ReadFrom(c, chain[k], EffectiveOf(c, Last(chain)))
    ensures (forall k :: 0 <= k < |chain| ==> !AnnouncesAny(c, chain[k]))
      ==> EffectiveOf(c, Last(chain)) == chain[0].effective
    decreases |chain|
  {
    hide Announces, AnnouncesAny, IsReadBy, EffectiveOf;
    var n := |chain|;
    AnnouncedIsDeclared(c, chain[n - 1]);
    if n > 1 && !AnnouncesAny(c, chain[n - 1]) {
      var front := chain[..n - 1];
      ChainFront(c, items, chain);
      NearestDeclarationDecides(c, items, front);
      ChildInherits(c, Last(front), Last(chain));
      forall k: nat | DecidedAt(c, chain, k) ensures DecidedAt(c, front, k) && chain[k] == front[k] {
      }
    }
  }

  /** No object sits at two positions: one parent slot each, and none of them also a starting position. */
  ghost predicate Unshared(c: Config, items: seq<Item>) {
    && (forall i, j :: 0 <= i < j < |items| && items[i].value.Obj? ==> items[i].value != items[j].value)
    && (forall p, q, i, j ::
      Slot(c, p, i).Some? && Slot(c, p, i) == Slot(c, q, j) && Slot(c, p, i).value.Obj? ==> p == q && i == j)
    && (forall p, i, k :: 0 <= k < |items| && items[k].value.Obj? ==> Slot(c, p, i) != Some(items[k].value))
  }

  /** The value in the `i`-th kept subschema slot of object `p`. */
  ghost function Slot(c: Config, p: Id, i: nat): Option<Value> {
    if p < |c.heap| && i < |Kept(SchemaOf(c.heap, p), c.Suppress())|
      then Some(Kept(SchemaOf(c.heap, p), c.Suppress())[i].value) else None
  }

  lemma SlotOfChild(c: Config, parent: Item, child: Item) returns (i: nat)
    requires child in Children(c, parent)
    ensures parent.value.Obj? && i < |Children(c, parent)| && Children(c, parent)[i] == child
    ensures Slot(c, parent.value.id, i) == Some(child.value)
  {
    ChildrenFromEach(c, parent, Kept(SchemaOf(c.heap, parent.value.id), c.Suppress()));
    i :| 0 <= i < |Children(c, parent)| && Children(c, parent)[i] == child;
  }

  lemma {:induction false} UnsharedChainsAgree(c: Config, items: seq<Item>, a: seq<Item>, b: seq<Item>)
    requires Unshared(c, items) && Chain(c, items, a) && Chain(c, items, b)
    requires Last(a).value.Obj? && Last(a).value == Last(b).value
    ensures a == b
    decreases |a|
  {
    if |a| > 1 {
      ChainFront(c, items, a);
      var a' := a[..|a| - 1];
      var i := SlotOfChild(c, Last(a'), Last(a));
      if |b| > 1 {
        ChainFront(c, items, b);
        var b' := b[..|b| - 1];
        var j := SlotOfChild(c, Last(b'), Last(b));
        assert Last(a').value == Last(b').value && i == j;
        UnsharedChainsAgree(c, items, a', b');
        assert a == a' + [Last(a)] && b == b' + [Last(b)];
      }
    } else if |b| > 1 {
      ChainFront(c, items, b);
      var j := SlotOfChild(c, Last(b[..|b| - 1]), Last(b));
    }
  }

  /** On unshared schemas the recorded position of an object is the one every chain to it gives. */
  lemma RecordedAsReached(c: Config, items: seq<Item>, chain: seq<Item>)
    requires Unshared(c, items) && Chain(c, items, chain) && Last(chain).value.Obj?
    ensures var r := Walk(c, EMPTY_TABLES, items);
      && Last(chain).value.id in r.nodes
      && r.nodes[Last(chain).value.id] == NodeInfo(Last(chain).pointer, Last(chain).path, EffectiveOf(c, Last(chain)))
  {
    var visited := Preorder(c, {}, items);
    assert EMPTY_TABLES.nodes.Keys == {};
    ChainVisited(c, items, chain);
    PreorderOnce(c, {}, items);
    IdsOfMember(visited, Last(chain).value.id);
    var k :| 0 <= k < |visited| && visited[k].value == Obj(Last(chain).value.id);
    var v := visited[k];
    var walked := PreorderChain(c, {}, items, v);
    UnsharedChainsAgree(c, items, walked, chain);
    RecordAllNode(c, EMPTY_TABLES, visited, v);
  }

  /**
   * The effective dialect of an object, read along the way down to it: the nearest
   * self-or-enclosing resource that declares one decides, and where none does the
   * object keeps what its root inherited. A declaration never moves an OAS 3.0 document.
   */
  lemma EffectiveIsNearestDeclared(c: Config, items: seq<Item>, chain: seq<Item>)
    requires Unshared(c, items) && Chain(c, items, chain) && Last(chain).value.Obj?
    ensures var r := Walk(c, EMPTY_TABLES, items);
      && Last(chain).value.id in r.nodes
      && var effective := r.nodes[Last(chain).value.id].effective;
      && (forall k: nat :: DecidedAt(c, chain, k) ==> ReadFrom(c, chain[k], effective))
      && ((forall k :: 0 <= k < |chain| ==> !AnnouncesAny(c, chain[k])) ==> effective == chain[0].effective)
      && (c.dialect == Oas30 ==> effective == chain[0].effective)
  {
    hide EffectiveOf, IsReadBy;
    RecordedAsReached(c, items, chain);
    NearestDeclarationDecides(c, items, chain);
  }

  // ---- Rebuild order ----

  ghost predicate SameAt(t: Tables, r: Tables, q: string) {
    && (q in t.positions <==> q in r.positions) && (q in t.positions ==> t.positions[q] == r.positions[q])
    && (q in t.schemasAt <==> q in r.schemasAt) && (q in t.schemasAt ==> t.schemasAt[q] == r.schemasAt[q])
  }

  lemma {:induction false} ChainExtendsPointer(c: Config, items: seq<Item>, chain: seq<Item>)
    requires Chain(c, items, chain)
    ensures chain[0].pointer <= Last(chain).pointer
    decreases |chain|
  {
    if |chain| > 1 {
      ChainFront(c, items, chain);
      ChainExtendsPointer(c, items, chain[..|chain| - 1]);
      var parent := Last(chain[..|chain| - 1]);
      ChildrenFromEach(c, parent, Kept(SchemaOf(c.heap, parent.value.id), c.Suppress()));
    }
  }

  lemma {:induction false} RecordAllWrites(c: Config, t: Tables, visited: seq<Item>, q: string)
    requires forall v :: v in visited ==> v.pointer != q
    ensures SameAt(t, RecordAll(c, t, visited), q)
    decreases |visited|
  {
    if visited != [] {
      assert visited[0].pointer != q;
      RecordAllWrites(c, Record(c, t, visited[0]), visited[1..], q);
    }
  }

  /** A walk writes only at and below the pointers it starts from. */
  lemma WalkWritesBelow(c: Config, t: Tables, items: seq<Item>, q: string)
    requires forall item :: item in items ==> !(item.pointer <= q)
    ensures SameAt(t, Walk(c, t, items), q)
  {
    var visited := Preorder(c, t.nodes.Keys, items);
    forall v | v in visited ensures v.pointer != q {
      var chain := PreorderChain(c, t.nodes.Keys, items, v);
      ChainExtendsPointer(c, items, chain);
    }
    RecordAllWrites(c, t, visited, q);
  }

  lemma {:induction false} AddRootsWritesBelow(c: Config, t: Tables, sorted: seq<Root>, q: string)
    requires forall k :: 0 <= k < |sorted| ==> |q| < |sorted[k].pointer|
    ensures SameAt(t, AddRoots(c, t, sorted), q)
    decreases |sorted|
  {
    if sorted != [] {
      var item := AdditionalItem(c, t, sorted[0]);
      WalkWritesBelow(c, t, [item], q);
      AddRootsWritesBelow(c, Walk(c, t, [item]), sorted[1..], q);
    }
  }

  lemma {:induction false} SameAncestorsSamePosition(t: Tables, r: Tables, pointer: string)
    requires forall q :: |q| < |pointer| ==> SameAt(t, r, q)
    ensures EnclosingPosition(t, pointer) == EnclosingPosition(r, pointer)
    decreases |pointer|
  {
    if '/' in pointer {
      var parent := pointer[..LastSlash(pointer)];
      assert SameAt(t, r, parent);
      SameAncestorsSamePosition(t, r, parent);
    }
  }

  lemma SameAncestorsSameEnclosing(t: Tables, r: Tables, pointer: string)
    requires forall q :: |q| < |pointer| ==> SameAt(t, r, q)
    ensures EnclosingOf(t, pointer) == EnclosingOf(r, pointer)
  {
    SameAncestorsSamePosition(t, r, pointer);
    EnclosingIsNearest(t, pointer);
    var at := EnclosingPosition(t, pointer);
    if at.Some? {
      assert SameAt(t, r, at.value);
    }
  }

  /** Additional roots, each inheriting what the finished tables say encloses it. */
  function SettledItems(c: Config, final: Tables, sorted: seq<Root>): (items: seq<Item>)
    ensures |items| == |sorted|
    ensures forall k :: 0 <= k < |sorted| ==> items[k] == AdditionalItem(c, final, sorted[k])
  {
    if sorted == [] then [] else [AdditionalItem(c, final, sorted[0])] + SettledItems(c, final, sorted[1..])
  }

  lemma {:induction false} AddRootsSettled(c: Config, t: Tables, sorted: seq<Root>)
    requires Ascending(sorted)
    ensures AddRoots(c, t, sorted) == Walk(c, t, SettledItems(c, AddRoots(c, t, sorted), sorted))
    decreases |sorted|
  {
    var final := AddRoots(c, t, sorted);
    if sorted == [] {
      assert SettledItems(c, final, sorted) == [];
    } else {
      var item := AdditionalItem(c, t, sorted[0]);
      var rest := SettledItems(c, final, sorted[1..]);
      AddRootsSettled(c, Walk(c, t, [item]), sorted[1..]);
      forall q | |q| < |sorted[0].pointer| ensures SameAt(t, final, q) {
        AddRootsWritesBelow(c, t, sorted, q);
      }
      SameAncestorsSameEnclosing(t, final, sorted[0].pointer);
      assert SettledItems(c, final, sorted) == [item] + rest;
      WalkAppend(c, t, [item], rest);
    }
  }

  /**
   * Rebuild order is sound: although enclosing positions are looked up while the
   * tables are still being filled, the outcome is one preorder walk in which every
   * additional root inherits from its nearest enclosing position in the finished tables.
   */
  lemma RebuildInheritsFromFinalTables(c: Config, original: seq<Root>, additional: seq<Root>)
    ensures var final := Rebuilt(c, original, additional);
      var items := RootItems(original, c.defaultDialect, true) + SettledItems(c, final, SortByLength(additional));
      final == Walk(c, EMPTY_TABLES, items)
  {
    SortIsAscending(additional);
    var first := RootItems(original, c.defaultDialect, true);
    AddRootsSettled(c, Walk(c, EMPTY_TABLES, first), SortByLength(additional));
    WalkAppend(c, EMPTY_TABLES, first, SettledItems(c, Rebuilt(c, original, additional), SortByLength(additional)));
  }
}

/**
 * Documents that are trees: every object sits at one pointer, and a reference names what
 * is there. The inventory built from one then knows every schema by its own pointer.
 */
module TreeDocuments {
  import opened Options
  import opened SchemaHeap
  import opened Dialects
  import opened DialectFacts
  import opened Rebuild
  import opened References
  import opened Inventory
  import opened SchemaFindings
  import opened CacheTransparency
  import opened CacheResults

  /** What the document holds at each pointer. */
  type Layout = string -> Option<Value>

  predicate Sits(at: Layout, pointer: string, v: Value) {
    at(pointer) == Some(v)
  }

  /** No object sits at two pointers, and what lies below an object sits below its pointer. */
  ghost predicate IsTree(c: Config, at: Layout) {
    && (forall p, q, id: Id :: Sits(at, p, Obj(id)) && Sits(at, q, Obj(id)) ==> p == q)
    && (forall p, id: Id, e :: Sits(at, p, Obj(id)) && e in Kept(SchemaOf(c.heap, id), c.Suppress()) ==>
          Sits(at, ChildPointer(p, e), e.value))
  }

  /** A reference with a pointer for its fragment resolves to what is there in the resource it names. */
  ghost predicate NamesByPointer(c: Config, refs: Resolver, at: Layout) {
    forall scope, ref: string, from: Id, target :: Target(c, refs, scope, ref, from) == Some(target) ==>
      NamedByFragment(refs, at, scope, ref, from, target)
  }

  ghost predicate NamedByFragment(
    refs: Resolver, at: Layout, scope: Scope, ref: string, from: Id, target: Value)
  {
    match refs.fragment(ref, refs.absolute(scope, ref, from))
    case None => true
    case Some(fragment) =>
      match refs.resource(scope, ref, from)
      case DocumentRoot => Sits(at, fragment, target)
      case SchemaNode(root) => forall p :: Sits(at, p, root) ==> Sits(at, p + fragment, target)
      case NoResource => true
  }

  // ---- The tables of a tree ----

  predicate RootSits(at: Layout, r: Root) {
    Sits(at, r.pointer, r.value)
  }

  predicate ItemSits(at: Layout, item: Item) {
    Sits(at, item.pointer, item.value)
  }

  ghost predicate AllSit(at: Layout, roots: seq<Root>) {
    forall r :: r in roots ==> RootSits(at, r)
  }

  /** Everything the tables record is recorded where it sits. */
  ghost predicate TablesSit(at: Layout, t: Tables) {
    && (forall id :: id in t.nodes ==> Sits(at, t.nodes[id].pointer, Obj(id)))
    && AllSit(at, t.resources)
  }

  lemma RecordSits(c: Config, at: Layout, t: Tables, item: Item)
    requires TablesSit(at, t) && ItemSits(at, item)
    ensures TablesSit(at, Record(c, t, item))
  {
  }

  lemma {:induction false} RecordAllSits(c: Config, at: Layout, t: Tables, visited: seq<Item>)
    requires TablesSit(at, t) && forall v :: v in visited ==> ItemSits(at, v)
    ensures TablesSit(at, RecordAll(c, t, visited))
    decreases |visited|
  {
    hide TablesSit, Record;
    if visited != [] {
      RecordSits(c, at, t, visited[0]);
      RecordAllSits(c, at, Record(c, t, visited[0]), visited[1..]);
    }
  }

  lemma {:induction false} ChainSits(c: Config, at: Layout, items: seq<Item>, chain: seq<Item>)
    requires IsTree(c, at) && Chain(c, items, chain) && forall item :: item in items ==> ItemSits(at, item)
    ensures ItemSits(at, Last(chain))
    decreases |chain|
  {
    if |chain| > 1 {
      ChainFront(c, items, chain);
      var front := chain[..|chain| - 1];
      ChainSits(c, at, items, front);
      ChildSits(c, at, Last(front), Last(chain));
    }
  }

  lemma ChildSits(c: Config, at: Layout, parent: Item, child: Item)
    requires IsTree(c, at) && ItemSits(at, parent) && child in Children(c, parent)
    ensures ItemSits(at, child)
  {
    var kept := Kept(SchemaOf(c.heap, parent.value.id), c.Suppress());
    ChildrenFromEach(c, parent, kept);
    var k :| 0 <= k < |kept| && Children(c, parent)[k] == child;
    assert kept[k] in kept;
  }

  lemma WalkSits(c: Config, at: Layout, t: Tables, items: seq<Item>)
    requires IsTree(c, at) && TablesSit(at, t) && forall item :: item in items ==> ItemSits(at, item)
    ensures TablesSit(at, Walk(c, t, items))
  {
    hide IsTree, TablesSit, ItemSits;
    var visited := Preorder(c, t.nodes.Keys, items);
    forall v | v in visited ensures ItemSits(at, v) {
      var chain := PreorderChain(c, t.nodes.Keys, items, v);
      ChainSits(c, at, items, chain);
    }
    RecordAllSits(c, at, t, visited);
  }

  lemma {:induction false} AddRootsSits(c: Config, at: Layout, t: Tables, sorted: seq<Root>)
    requires IsTree(c, at) && TablesSit(at, t) && AllSit(at, sorted)
    ensures TablesSit(at, AddRoots(c, t, sorted))
    decreases |sorted|
  {
    hide IsTree, TablesSit, Walk;
    if sorted != [] {
      var item := AdditionalItem(c, t, sorted[0]);
      assert sorted[0] in sorted;
      WalkSits(c, at, t, [item]);
      AddRootsSits(c, at, Walk(c, t, [item]), sorted[1..]);
    }
  }

  lemma SortedSit(at: Layout, roots: seq<Root>)
    requires AllSit(at, roots)
    ensures AllSit(at, SortByLength(roots))
  {
    forall r | r in SortByLength(roots) ensures RootSits(at, r) {
      assert r in multiset(SortByLength(roots)) && r in multiset(roots);
    }
  }

  /** Rebuilt from roots that sit at their pointers, the tables record every schema where it sits. */
  lemma RebuiltSits(c: Config, at: Layout, original: seq<Root>, additional: seq<Root>)
    requires IsTree(c, at) && AllSit(at, original) && AllSit(at, additional)
    ensures TablesSit(at, Rebuilt(c, original, additional))
  {
    hide IsTree, Walk;
    var items := RootItems(original, c.defaultDialect, true);
    assert TablesSit(at, EMPTY_TABLES);
    forall item | item in items ensures ItemSits(at, item) {
      var k :| 0 <= k < |items| && items[k] == item;
      assert original[k] in original;
    }
    WalkSits(c, at, EMPTY_TABLES, items);
    SortedSit(at, additional);
    AddRootsSits(c, at, Walk(c, EMPTY_TABLES, items), SortByLength(additional));
  }

  // ---- References land on their targets ----

  lemma LandsOnTarget(
    c: Config, refs: Resolver, at: Layout, scope: Scope, t: Tables, ref: string, from: Id, target: Value)
    requires NamesByPointer(c, refs, at) && TablesSit(at, t)
    requires Target(c, refs, scope, ref, from) == Some(target)
    ensures var p := RefPointer(refs, scope, t, ref, from, target); p.Some? ==> Sits(at, p.value, target)
  {
    hide Target;
    assert NamedByFragment(refs, at, scope, ref, from, target);
  }

  lemma EstablishedSits(c: Config, refs: Resolver, at: Layout, scope: Scope, t: Tables, from: Id, kind: RefKind)
    requires NamesByPointer(c, refs, at) && TablesSit(at, t) && NewRoot(c, refs, scope, t, from, kind).Some?
    ensures RootSits(at, NewRoot(c, refs, scope, t, from, kind).value)
  {
    hide NamesByPointer, TablesSit, Target, RefPointer;
    var ref := RefOf(SchemaOf(c.heap, from), kind, c.Suppress()).value;
    LandsOnTarget(c, refs, at, scope, t, ref, from, Target(c, refs, scope, ref, from).value);
  }

  /** Every root discovery establishes sits at the pointer it is registered with. */
  lemma {:induction false} DiscoveredSit(c: Config, refs: Resolver, at: Layout, authored: seq<Root>, found: seq<Root>)
    requires IsTree(c, at) && NamesByPointer(c, refs, at) && AllSit(at, authored)
    requires AllEstablished(c, refs, authored, [], found)
    ensures AllSit(at, found)
    decreases |found|
  {
    hide IsTree, NamesByPointer, Rebuilt, NewRoot, Sits, TablesSit, MetSince;
    if found != [] {
      var n := |found| - 1;
      var before := found[..n];
      forall k | 0 <= k < n ensures Established(c, refs, authored, [], before, k) {
        assert Established(c, refs, authored, [], found, k) && before[..k] == found[..k];
      }
      DiscoveredSit(c, refs, at, authored, before);
      RebuiltSits(c, at, authored, before);
      assert Established(c, refs, authored, [], found, n);
      var from: Id, kind :|
        MetSince(c, authored, [], before, from) && EstablishedBy(c, refs, authored, before, from, kind, found[n]);
      EstablishedSits(c, refs, at, Scope(authored, before), Rebuilt(c, authored, before), from, kind);
      assert found == before + [found[n]];
    }
  }

  // ---- The pass over a tree ----

  predicate SpotSits(at: Layout, e: Spot) {
    Sits(at, e.pointer, e.value)
  }

  lemma StepSits(p: Pass, at: Layout, e: Spot)
    requires NamesByPointer(p.c, p.refs, at) && TablesSit(at, p.t) && PureRefsLand(p) && CanonicalStep(p, e).Some?
    ensures SpotSits(at, CanonicalStep(p, e).value)
  {
    hide NamesByPointer, TablesSit, Target, RefPointer;
    var ref := p.pureRef(e.value.id).value;
    var target := Target(p.c, p.refs, p.scope, ref, e.value.id).value;
    assert PureRefLands(p, e.value.id, target);
    LandsOnTarget(p.c, p.refs, at, p.scope, p.t, ref, e.value.id, target);
  }

  lemma {:induction false} CanonicalSits(p: Pass, at: Layout, seen: set<Id>, e: Spot)
    requires NamesByPointer(p.c, p.refs, at) && TablesSit(at, p.t) && PureRefsLand(p) && SpotSits(at, e)
    ensures SpotSits(at, Canonical(p, seen, e))
    decreases Unreached(p.c.heap, seen)
  {
    hide NamesByPointer, TablesSit, PureRefsLand, CanonicalStep, SpotSits;
    var next := CanonicalStep(p, e);
    if next.Some? && !(e.value.id in seen || e.value.id >= |p.c.heap|) {
      UnreachedShrinks(p.c.heap, seen, seen + {e.value.id});
      assert e.value.id in seen + {e.value.id};
      StepSits(p, at, e);
      CanonicalSits(p, at, seen + {e.value.id}, next.value);
    }
  }

  /** The pass runs over the inventory built from the authored roots. */
  ghost predicate RunsOver(p: Pass, authored: seq<Root>, found: seq<Root>) {
    && IsDiscovered(p.c, p.refs, authored, found)
    && var additional := Pruned(p.c, p.refs, authored, found);
      && p.roots == authored + additional
      && p.scope == Scope(authored, additional)
      && p.t == Rebuilt(p.c, authored, additional)
  }

  lemma InventorySits(p: Pass, at: Layout, authored: seq<Root>, found: seq<Root>)
    requires RunsOver(p, authored, found)
    requires IsTree(p.c, at) && NamesByPointer(p.c, p.refs, at) && AllSit(at, authored)
    ensures TablesSit(at, p.t) && AllSit(at, p.AllRoots())
  {
    hide IsTree, NamesByPointer, Rebuilt, Pruned, Referenced, RootSits;
    var additional := Pruned(p.c, p.refs, authored, found);
    DiscoveredSit(p.c, p.refs, at, authored, found);
    PrunedAreReferenced(p.c, p.refs, authored, found);
    RebuiltSits(p.c, at, authored, additional);
  }

  /**
   * Over the inventory of a tree whose pure references land at pointers, remembering never
   * shows: references to the document itself, other dialects, embedded resources, failing
   * graphs and withheld units included.
   */
  lemma TreeIsTransparent(p: Pass, at: Layout, authored: seq<Root>, found: seq<Root>, compile: Compiler)
    requires RunsOver(p, authored, found) && Coherent(p) && PureRefsLand(p)
    requires IsTree(p.c, at) && NamesByPointer(p.c, p.refs, at) && AllSit(at, authored)
    ensures OneInputEach(p) && Transparent(p, compile)
  {
    hide Coherent, PureRefsLand, NamesByPointer, RunsOver, TablesSit, Canonical, Eligible, OneInputEach, Transparent;
    InventorySits(p, at, authored, found);
    forall i: nat | i < |p.AllRoots()| ensures SpotSits(at, SpotAt(p, i)) {
      var root := p.AllRoots()[i];
      assert root in p.AllRoots() && RootSits(at, root);
      CanonicalSits(p, at, {}, Spot(root.value, root.pointer));
    }
    forall i: nat, j: nat | i < |p.AllRoots()| && j < |p.AllRoots()| ensures SharesSpot(p, i, j) {
      assert SpotSits(at, SpotAt(p, i)) && SpotSits(at, SpotAt(p, j));
    }
    OneSpotIsTransparent(p, compile);
  }
}

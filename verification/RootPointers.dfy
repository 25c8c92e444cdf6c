/**
 * Why discovery ends: the pointers a reference can establish come from a finite
 * supply, which only finding a new object can change.
 */
module RootPointers {
  import opened Options
  import opened SchemaHeap
  import opened Dialects
  import opened Rebuild
  import opened DialectFacts
  import opened DialectResults
  import opened References

  // ---- Object positions do not depend on the roots that hold no object ----

  datatype Spot = Spot(id: Id, pointer: string)

  function SpotOfValue(v: Value, pointer: string): seq<Spot> {
    if v.Obj? then [Spot(v.id, pointer)] else []
  }

  /** The objects among some positions, with their pointers. */
  function Spots(items: seq<Item>): seq<Spot> {
    if items == [] then [] else SpotOfValue(items[0].value, items[0].pointer) + Spots(items[1..])
  }

  function RootSpots(roots: seq<Root>): seq<Spot> {
    if roots == [] then [] else SpotOfValue(roots[0].value, roots[0].pointer) + RootSpots(roots[1..])
  }

  lemma {:induction false} SpotsAppend(a: seq<Item>, b: seq<Item>)
    ensures Spots(a + b) == Spots(a) + Spots(b)
  {
    if a == [] {
      assert a + b == b;
    } else {
      assert (a + b)[1..] == a[1..] + b && (a + b)[0] == a[0];
      SpotsAppend(a[1..], b);
      ConcatAssoc(SpotOfValue(a[0].value, a[0].pointer), Spots(a[1..]), Spots(b));
    }
  }

  lemma {:induction false} RootSpotsAppend(a: seq<Root>, b: seq<Root>)
    ensures RootSpots(a + b) == RootSpots(a) + RootSpots(b)
  {
    if a == [] {
      assert a + b == b;
    } else {
      assert (a + b)[1..] == a[1..] + b && (a + b)[0] == a[0];
      RootSpotsAppend(a[1..], b);
      ConcatAssoc(SpotOfValue(a[0].value, a[0].pointer), RootSpots(a[1..]), RootSpots(b));
    }
  }

  function SpotIds(spots: seq<Spot>): set<Id> {
    if spots == [] then {} else {spots[0].id} + SpotIds(spots[1..])
  }

  lemma {:induction false} SpotIdsAreIds(items: seq<Item>)
    ensures SpotIds(Spots(items)) == IdsOf(items)
  {
    if items != [] {
      SpotIdsAreIds(items[1..]);
      if items[0].value.Obj? {
        assert Spots(items)[1..] == Spots(items[1..]);
      } else {
        assert Spots(items) == Spots(items[1..]);
      }
    }
  }

  function ChildSpotsFrom(pointer: string, entries: seq<Entry>): seq<Spot> {
    if entries == [] then []
    else
      SpotOfValue(entries[0].value, ChildPointer(pointer, entries[0])) + ChildSpotsFrom(pointer, entries[1..])
  }

  lemma {:induction false} SpotsOfChildren(c: Config, item: Item, entries: seq<Entry>)
    ensures Spots(ChildrenFrom(c, item, entries)) == ChildSpotsFrom(item.pointer, entries)
  {
    if entries != [] {
      SpotsOfChildren(c, item, entries[1..]);
      assert ChildrenFrom(c, item, entries)[1..] == ChildrenFrom(c, item, entries[1..]);
    }
  }

  function ChildSpots(c: Config, spot: Spot): seq<Spot> {
    ChildSpotsFrom(spot.pointer, Kept(SchemaOf(c.heap, spot.id), c.Suppress()))
  }

  /** The walk seen through its objects and their pointers alone. */
  ghost function SpotWalk(c: Config, seen: set<Id>, spots: seq<Spot>): seq<Spot>
    decreases Unreached(c.heap, seen), |spots|, 1
  {
    if spots == [] then []
    else
      var first := SpotVisit(c, seen, spots[0]);
      UnreachedShrinks(c.heap, seen, seen + SpotIds(first));
      first + SpotWalk(c, seen + SpotIds(first), spots[1..])
  }

  ghost function SpotVisit(c: Config, seen: set<Id>, spot: Spot): seq<Spot>
    decreases Unreached(c.heap, seen), 1, 0
  {
    if spot.id in seen then []
    else
      UnreachedShrinks(c.heap, seen, seen + {spot.id});
      [spot] + SpotWalk(c, seen + {spot.id}, ChildSpots(c, spot))
  }

  lemma {:induction false} PreorderSpots(c: Config, seen: set<Id>, items: seq<Item>)
    ensures Spots(Preorder(c, seen, items)) == SpotWalk(c, seen, Spots(items))
    decreases Unreached(c.heap, seen), |items|, 1
  {
    if items != [] {
      var x, xs := items[0], items[1..];
      var first := Visit(c, seen, x);
      var seen2 := seen + IdsOf(first);
      UnreachedShrinks(c.heap, seen, seen2);
      PreorderSpots(c, seen2, xs);
      SpotsAppend(first, Preorder(c, seen2, xs));
      if x.value.Obj? {
        VisitSpots(c, seen, x);
        SpotIdsAreIds(first);
        SpotWalkCons(c, seen, Spot(x.value.id, x.pointer), Spots(xs));
      } else {
        OtherLeavesNoSpot(c, seen, x);
        assert Spots(items) == Spots(xs);
      }
    }
  }

  lemma SpotWalkCons(c: Config, seen: set<Id>, spot: Spot, rest: seq<Spot>)
    ensures SpotWalk(c, seen, [spot] + rest)
         == SpotVisit(c, seen, spot) + SpotWalk(c, seen + SpotIds(SpotVisit(c, seen, spot)), rest)
  {
    assert ([spot] + rest)[1..] == rest;
  }

  lemma OtherLeavesNoSpot(c: Config, seen: set<Id>, item: Item)
    requires item.value.Other?
    ensures Spots(Visit(c, seen, item)) == [] && seen + IdsOf(Visit(c, seen, item)) == seen
  {
  }

  lemma {:induction false} VisitSpots(c: Config, seen: set<Id>, item: Item)
    requires item.value.Obj?
    ensures Spots(Visit(c, seen, item)) == SpotVisit(c, seen, Spot(item.value.id, item.pointer))
    decreases Unreached(c.heap, seen), 1, 0
  {
    var id := item.value.id;
    if id !in seen {
      UnreachedShrinks(c.heap, seen, seen + {id});
      PreorderSpots(c, seen + {id}, Children(c, item));
      SpotsOfChildren(c, item, Kept(SchemaOf(c.heap, id), c.Suppress()));
      SpotsAppend([item], Preorder(c, seen + {id}, Children(c, item)));
      assert Spots([item]) == [Spot(id, item.pointer)] + Spots([]);
    }
  }

  lemma {:induction false} SpotsOfRootItems(roots: seq<Root>, items: seq<Item>)
    requires |items| == |roots|
    requires forall k :: 0 <= k < |roots| ==> items[k].value == roots[k].value && items[k].pointer == roots[k].pointer
    ensures Spots(items) == RootSpots(roots)
  {
    if roots != [] {
      SpotsOfRootItems(roots[1..], items[1..]);
    }
  }

  /** Where a rebuild puts every object, as a function of the object roots alone. */
  ghost function RebuiltSpots(c: Config, original: seq<Root>, additional: seq<Root>): seq<Spot> {
    SpotWalk(c, {}, RootSpots(original) + RootSpots(SortByLength(additional)))
  }

  ghost function RebuiltItems(c: Config, original: seq<Root>, additional: seq<Root>): seq<Item> {
    RootItems(original, c.defaultDialect, true)
    + SettledItems(c, Rebuilt(c, original, additional), SortByLength(additional))
  }

  lemma RebuiltSpotsAreVisited(c: Config, original: seq<Root>, additional: seq<Root>)
    ensures Spots(Preorder(c, {}, RebuiltItems(c, original, additional))) == RebuiltSpots(c, original, additional)
  {
    var a := RootItems(original, c.defaultDialect, true);
    var b := SettledItems(c, Rebuilt(c, original, additional), SortByLength(additional));
    PreorderSpots(c, {}, a + b);
    SpotsAppend(a, b);
    SpotsOfRootItems(original, a);
    SpotsOfRootItems(SortByLength(additional), b);
  }

  lemma {:induction false} SpotOf(items: seq<Item>, item: Item)
    requires item in items && item.value.Obj?
    ensures Spot(item.value.id, item.pointer) in Spots(items)
  {
    if items[0] != item {
      SpotOf(items[1..], item);
    }
  }

  lemma {:induction false} ItemOf(items: seq<Item>, spot: Spot) returns (item: Item)
    requires spot in Spots(items)
    ensures item in items && item.value == Obj(spot.id) && item.pointer == spot.pointer
  {
    if items[0].value == Obj(spot.id) && items[0].pointer == spot.pointer {
      item := items[0];
    } else {
      item := ItemOf(items[1..], spot);
    }
  }

  function SpotPointers(spots: seq<Spot>): set<string> {
    set spot | spot in spots :: spot.pointer
  }

  /** The prefixes a reference can start from: the document, and every recorded object. */
  function Prefixes(t: Tables): set<string> {
    {""} + set id | id in t.nodes :: t.nodes[id].pointer
  }

  lemma PrefixesAreSpots(c: Config, original: seq<Root>, additional: seq<Root>)
    ensures Prefixes(Rebuilt(c, original, additional)) == {""} + SpotPointers(RebuiltSpots(c, original, additional))
  {
    var t := Rebuilt(c, original, additional);
    var items := RebuiltItems(c, original, additional);
    RebuildInheritsFromFinalTables(c, original, additional);
    RebuiltSpotsAreVisited(c, original, additional);
    var visited := Preorder(c, {}, items);
    assert EMPTY_TABLES.nodes.Keys == {};
    PreorderOnce(c, {}, items);
    RecordAllIds(c, EMPTY_TABLES, visited);
    forall id | id in t.nodes ensures t.nodes[id].pointer in SpotPointers(Spots(visited)) {
      IdsOfMember(visited, id);
      var k :| 0 <= k < |visited| && visited[k].value == Obj(id);
      RecordAllNode(c, EMPTY_TABLES, visited, visited[k]);
      SpotOf(visited, visited[k]);
    }
    forall spot | spot in Spots(visited) ensures spot.pointer in Prefixes(t) {
      var item := ItemOf(visited, spot);
      RecordAllNode(c, EMPTY_TABLES, visited, item);
      assert spot.id in t.nodes;
    }
  }

  lemma {:induction false} InsertOtherSpots(sorted: seq<Root>, root: Root)
    requires root.value.Other?
    ensures RootSpots(InsertByLength(sorted, root)) == RootSpots(sorted)
  {
    if sorted == [] {
    } else {
      var n := |sorted|;
      assert sorted == sorted[..n - 1] + [sorted[n - 1]];
      if |sorted[n - 1].pointer| <= |root.pointer| {
        RootSpotsAppend(sorted, [root]);
        assert RootSpots([root]) == [];
      } else {
        InsertOtherSpots(sorted[..n - 1], root);
        RootSpotsAppend(InsertByLength(sorted[..n - 1], root), [sorted[n - 1]]);
        RootSpotsAppend(sorted[..n - 1], [sorted[n - 1]]);
      }
    }
  }

  /** Adding a root that is not an object moves no object. */
  lemma OtherRootMovesNothing(c: Config, original: seq<Root>, additional: seq<Root>, root: Root)
    requires root.value.Other?
    ensures Prefixes(Rebuilt(c, original, additional + [root])) == Prefixes(Rebuilt(c, original, additional))
  {
    var more := additional + [root];
    assert more[..|more| - 1] == additional;
    InsertOtherSpots(SortByLength(additional), root);
    PrefixesAreSpots(c, original, additional);
    PrefixesAreSpots(c, original, more);
  }

  // ---- The supply of pointers ----

  function RefTexts(s: Schema): set<string> {
    (if s.ref.Text? then {s.ref.ref} else {}) + (if s.dynamicRef.Text? then {s.dynamicRef.ref} else {})
  }

  function AllRefTexts(heap: Heap): set<string> {
    if heap == [] then {} else RefTexts(heap[0]) + AllRefTexts(heap[1..])
  }

  lemma {:induction false} RefTextsOfObject(heap: Heap, id: Id)
    ensures RefTexts(SchemaOf(heap, id)) <= AllRefTexts(heap)
  {
    if 0 < id < |heap| {
      RefTextsOfObject(heap[1..], id - 1);
    }
  }

  function Fragments(refs: Resolver, texts: set<string>): set<string> {
    set text, absolute: bool | text in texts && refs.fragment(text, absolute).Some?
      :: refs.fragment(text, absolute).value
  }

  /** Every pointer a reference of the document can land on outside the recorded objects. */
  function Supply(c: Config, refs: Resolver, t: Tables): set<string> {
    set prefix, fragment | prefix in Prefixes(t) && fragment in Fragments(refs, AllRefTexts(c.heap))
      :: prefix + fragment
  }

  lemma RefPointerFromSupply(c: Config, refs: Resolver, scope: Scope, t: Tables, from: Id, kind: RefKind)
    requires var followed := Follow(c, refs, scope, t, from, kind);
      followed.Some? && followed.value.pointer.Some? && PointerOf(t, followed.value.target).None?
    ensures Follow(c, refs, scope, t, from, kind).value.pointer.value in Supply(c, refs, t)
  {
    var text := RefOf(SchemaOf(c.heap, from), kind, c.Suppress()).value;
    RefTextsOfObject(c.heap, from);
    assert text in AllRefTexts(c.heap);
    var absolute := refs.absolute(scope, text, from);
    var fragment := refs.fragment(text, absolute).value;
    assert fragment in Fragments(refs, AllRefTexts(c.heap));
    var pointer := Follow(c, refs, scope, t, from, kind).value.pointer.value;
    match refs.resource(scope, text, from)
    case DocumentRoot =>
      assert "" in Prefixes(t) && pointer == "" + fragment;
    case SchemaNode(root) =>
      assert t.nodes[root.id].pointer in Prefixes(t);
    case NoResource =>
  }

  // ---- The termination measure of discovery ----

  function ObjectsOf(roots: seq<Root>): set<Id> {
    set root | root in roots && root.value.Obj? :: root.value.id
  }

  function PointersOfOthers(roots: seq<Root>): set<string> {
    set root | root in roots && root.value.Other? :: root.pointer
  }

  /** Objects no additional root has claimed yet. */
  ghost function ObjectsLeft(c: Config, additional: seq<Root>): nat {
    Unreached(c.heap, ObjectsOf(additional))
  }

  /** Pointers no additional root that is not an object has claimed yet. */
  ghost function PointersLeft(c: Config, refs: Resolver, original: seq<Root>, additional: seq<Root>): nat {
    |Supply(c, refs, Rebuilt(c, original, additional)) - PointersOfOthers(additional)|
  }

  lemma UncoveredIsNew(c: Config, original: seq<Root>, additional: seq<Root>, root: Root)
    requires !Covered(Rebuilt(c, original, additional), root)
    ensures root !in original && root !in additional
    ensures root.value.Obj? ==> root.value.id !in ObjectsOf(additional)
    ensures root.value.Other? ==> root.pointer !in PointersOfOthers(additional)
  {
    RebuiltCovers(c, original, additional);
  }

  lemma ObjectRootProgresses(c: Config, additional: seq<Root>, root: Root)
    requires root.value.Obj? && root.value.id < |c.heap| && root.value.id !in ObjectsOf(additional)
    ensures ObjectsLeft(c, additional + [root]) < ObjectsLeft(c, additional)
  {
    var more := additional + [root];
    assert root in more;
    assert root.value.id in ObjectsOf(more);
    forall id | id in ObjectsOf(additional) ensures id in ObjectsOf(more) {
      var r :| r in additional && r.value == Obj(id);
      assert r in more;
    }
    UnreachedShrinks(c.heap, ObjectsOf(additional), ObjectsOf(more));
  }

  lemma OtherRootProgresses(c: Config, refs: Resolver, original: seq<Root>, additional: seq<Root>, root: Root)
    requires root.value.Other? && root.pointer !in PointersOfOthers(additional)
    requires root.pointer in Supply(c, refs, Rebuilt(c, original, additional))
    ensures ObjectsLeft(c, additional + [root]) == ObjectsLeft(c, additional)
    ensures PointersLeft(c, refs, original, additional + [root]) < PointersLeft(c, refs, original, additional)
  {
    hide Rebuilt;
    var more := additional + [root];
    SetsOfMore(additional, root);
    OtherRootMovesNothing(c, original, additional, root);
    var supply := Supply(c, refs, Rebuilt(c, original, additional));
    assert supply == Supply(c, refs, Rebuilt(c, original, more));
    var left := supply - PointersOfOthers(additional);
    assert supply - PointersOfOthers(more) == left - {root.pointer};
    assert root.pointer in left;
  }

  lemma SetsOfMore(additional: seq<Root>, root: Root)
    requires root.value.Other?
    ensures ObjectsOf(additional + [root]) == ObjectsOf(additional)
    ensures PointersOfOthers(additional + [root]) == PointersOfOthers(additional) + {root.pointer}
  {
    var more := additional + [root];
    forall r | r in additional || r == root ensures r in more {
    }
  }

  /** A root a reference establishes is one nothing covers yet, and its pointer comes from the supply. */
  lemma NewRootIsUncovered(
    c: Config, refs: Resolver, scope: Scope, original: seq<Root>, additional: seq<Root>, from: Id, kind: RefKind)
    requires NewRoot(c, refs, scope, Rebuilt(c, original, additional), from, kind).Some?
    ensures var t := Rebuilt(c, original, additional);
      var root := NewRoot(c, refs, scope, t, from, kind).value;
      && !Covered(t, root)
      && root.pointer in Supply(c, refs, t)
      && InHeap(c.heap, root.value)
  {
    var t := Rebuilt(c, original, additional);
    RebuiltCovers(c, original, additional);
    RefPointerFromSupply(c, refs, scope, t, from, kind);
  }

  /** Lexicographic descent of a pair. */
  predicate Below(a: (nat, nat), b: (nat, nat)) {
    a.0 < b.0 || (a.0 == b.0 && a.1 < b.1)
  }

  /** A measure of what is left to discover: every root a reference establishes is new, and lowers it. */
  ghost predicate Measures(c: Config, refs: Resolver, original: seq<Root>, left: seq<Root> -> (nat, nat)) {
    forall additional, scope, from, kind :: Lowers(c, refs, scope, original, additional, from, kind, left)
  }

  ghost predicate Lowers(
    c: Config, refs: Resolver, scope: Scope, original: seq<Root>, additional: seq<Root>, from: Id, kind: RefKind,
    left: seq<Root> -> (nat, nat))
  {
    var root := NewRoot(c, refs, scope, Rebuilt(c, original, additional), from, kind);
    root.Some? ==>
      && root.value !in original && root.value !in additional
      && Below(left(additional + [root.value]), left(additional))
  }

  lemma AddingRootLowers(
    c: Config, refs: Resolver, scope: Scope, original: seq<Root>, additional: seq<Root>, from: Id, kind: RefKind)
    requires NewRoot(c, refs, scope, Rebuilt(c, original, additional), from, kind).Some?
    ensures var root := NewRoot(c, refs, scope, Rebuilt(c, original, additional), from, kind).value;
      && root !in original && root !in additional
      && (ObjectsLeft(c, additional + [root]) < ObjectsLeft(c, additional)
          || (ObjectsLeft(c, additional + [root]) == ObjectsLeft(c, additional)
              && PointersLeft(c, refs, original, additional + [root]) < PointersLeft(c, refs, original, additional)))
  {
    var root := NewRoot(c, refs, scope, Rebuilt(c, original, additional), from, kind).value;
    NewRootIsUncovered(c, refs, scope, original, additional, from, kind);
    UncoveredIsNew(c, original, additional, root);
    if root.value.Obj? {
      ObjectRootProgresses(c, additional, root);
    } else {
      OtherRootProgresses(c, refs, original, additional, root);
    }
  }

  /**
   * Discovery cannot add roots for ever: every root a reference establishes claims an
   * object no other root has, or else a pointer from a supply it leaves as it was.
   */
  lemma DiscoveryIsFinite(c: Config, refs: Resolver, original: seq<Root>) returns (left: seq<Root> -> (nat, nat))
    ensures Measures(c, refs, original, left)
  {
    left := additional => (ObjectsLeft(c, additional), PointersLeft(c, refs, original, additional));
    forall additional, scope, from, kind ensures Lowers(c, refs, scope, original, additional, from, kind, left) {
      if NewRoot(c, refs, scope, Rebuilt(c, original, additional), from, kind).Some? {
        AddingRootLowers(c, refs, scope, original, additional, from, kind);
      }
    }
  }
}

/**
 * Documents whose roots are objects without subschemas: what their tables hold.
 */
module LeafRoots {
  import opened SchemaHeap
  import opened Dialects
  import opened Rebuild
  import opened DialectFacts
  import opened DialectResults

  predicate IsLeaf(c: Config, v: Value) {
    v.Obj? && Kept(SchemaOf(c.heap, v.id), c.Suppress()) == []
  }

  /** No two of the roots hold one object. */
  ghost predicate Separate(roots: seq<Root>) {
    forall i, j :: 0 <= i < j < |roots| ==> roots[i].value != roots[j].value
  }

  lemma LeafVisit(c: Config, seen: set<Id>, item: Item)
    requires IsLeaf(c, item.value)
    ensures Visit(c, seen, item) == if item.value.id in seen then [] else [item]
  {
    if item.value.id !in seen {
      UnreachedShrinks(c.heap, seen, seen + {item.value.id});
      assert Children(c, item) == [];
      assert Preorder(c, seen + {item.value.id}, []) == [];
    }
  }

  /** Leaves not seen before are all visited, in order. */
  lemma {:induction false} LeafPreorder(c: Config, seen: set<Id>, items: seq<Item>)
    requires forall item :: item in items ==> IsLeaf(c, item.value)
    requires Distinct(items) && Fresh(seen, items)
    ensures Preorder(c, seen, items) == items
    decreases |items|
  {
    hide Visit, IsLeaf;
    if items != [] {
      var item, rest := items[0], items[1..];
      assert items == [item] + rest && item in items;
      LeafVisit(c, seen, item);
      PreorderCons(c, seen, item, rest);
      LeafIsObject(c, item.value);
      assert IdsOf([item]) == {item.value.id};
      forall i | 0 <= i < |rest| && rest[i].value.Obj? ensures rest[i].value.id !in seen + {item.value.id} {
        assert rest[i] == items[i + 1];
      }
      assert forall x :: x in rest ==> x in items;
      LeafPreorder(c, seen + {item.value.id}, rest);
    }
  }

  lemma LeafIsObject(c: Config, v: Value)
    requires IsLeaf(c, v)
    ensures v.Obj?
  {
  }

  ghost function AllItems(c: Config, original: seq<Root>, additional: seq<Root>): seq<Item> {
    RootItems(original, c.defaultDialect, true)
    + SettledItems(c, Rebuilt(c, original, additional), SortByLength(additional))
  }

  lemma AllItemsAre(c: Config, original: seq<Root>, additional: seq<Root>, k: nat)
    requires k < |original + SortByLength(additional)|
    ensures |AllItems(c, original, additional)| == |original| + |SortByLength(additional)|
    ensures var root := (original + SortByLength(additional))[k];
      AllItems(c, original, additional)[k].value == root.value
        && AllItems(c, original, additional)[k].pointer == root.pointer
  {
    hide Rebuilt, SortByLength;
  }

  /** The positions a rebuild records, when every root is a leaf of its own: the roots', in order. */
  lemma LeafItems(c: Config, original: seq<Root>, additional: seq<Root>) returns (items: seq<Item>)
    requires var roots := original + SortByLength(additional);
      (forall r :: r in roots ==> IsLeaf(c, r.value)) && Separate(roots)
    ensures Rebuilt(c, original, additional) == RecordAll(c, EMPTY_TABLES, items) && Distinct(items)
    ensures var roots := original + SortByLength(additional);
      |items| == |roots|
      && forall k :: 0 <= k < |roots| ==> items[k].value == roots[k].value && items[k].pointer == roots[k].pointer
  {
    hide Rebuilt, SortByLength, IsLeaf, AllItems;
    var roots := original + SortByLength(additional);
    items := AllItems(c, original, additional);
    assert AllItems(c, original, additional) == RootItems(original, c.defaultDialect, true)
      + SettledItems(c, Rebuilt(c, original, additional), SortByLength(additional)) by {
      AllItemsSplit(c, original, additional);
    }
    RebuildInheritsFromFinalTables(c, original, additional);
    ItemCount(c, original, additional);
    forall k: nat | k < |roots| ensures items[k].value == roots[k].value && items[k].pointer == roots[k].pointer {
      AllItemsAre(c, original, additional, k);
    }
    forall i, j | 0 <= i < j < |items| && items[i].value.Obj? ensures items[i].value != items[j].value {
      assert roots[i].value != roots[j].value;
    }
    forall item | item in items ensures IsLeaf(c, item.value) {
      var k :| 0 <= k < |items| && items[k] == item;
      assert roots[k] in roots;
    }
    LeafPreorder(c, {}, items);
    assert EMPTY_TABLES.nodes.Keys == {};
  }

  lemma AllItemsSplit(c: Config, original: seq<Root>, additional: seq<Root>)
    ensures AllItems(c, original, additional) == RootItems(original, c.defaultDialect, true)
      + SettledItems(c, Rebuilt(c, original, additional), SortByLength(additional))
  {
  }

  // ---- Sorting the additional roots keeps them separate ----

  lemma TwiceCounts(roots: seq<Root>, i: nat, j: nat)
    requires i < j < |roots| && roots[i] == roots[j]
    ensures multiset(roots)[roots[i]] >= 2
  {
    assert roots == roots[..j] + roots[j..];
    assert roots[i] in roots[..j] && roots[j] in roots[j..];
  }

  lemma TwoPlaces(roots: seq<Root>, x: Root) returns (i: nat, j: nat)
    requires multiset(roots)[x] >= 2
    ensures i < j < |roots| && roots[i] == x && roots[j] == x
  {
    assert x in roots;
    var k :| 0 <= k < |roots| && roots[k] == x;
    assert roots == roots[..k] + [x] + roots[k + 1..];
    if x in roots[..k] {
      i :| 0 <= i < k && roots[..k][i] == x;
      j := k;
    } else {
      assert x in roots[k + 1..];
      var m :| 0 <= m < |roots[k + 1..]| && roots[k + 1..][m] == x;
      i, j := k, k + 1 + m;
    }
  }

  lemma SameMultisetSeparate(a: seq<Root>, b: seq<Root>)
    requires multiset(a) == multiset(b) && Separate(a)
    ensures Separate(b) && forall r :: r in a <==> r in b
  {
    forall r ensures r in a <==> r in b {
      assert r in a <==> r in multiset(a);
      assert r in b <==> r in multiset(b);
    }
    forall i, j | 0 <= i < j < |b| ensures b[i].value != b[j].value {
      if b[i] == b[j] {
        TwiceCounts(b, i, j);
        var x, y := TwoPlaces(a, b[i]);
      } else {
        assert b[i] in a && b[j] in a;
      }
    }
  }

  lemma SortedRoots(original: seq<Root>, additional: seq<Root>)
    requires Separate(original + additional)
    ensures Separate(original + SortByLength(additional))
    ensures forall r :: r in original + SortByLength(additional) <==> r in original + additional
  {
    hide SortByLength, Separate;
    assert multiset(original + SortByLength(additional)) == multiset(original + additional);
    SameMultisetSeparate(original + additional, original + SortByLength(additional));
  }

  // ---- What the tables of leaf roots hold ----

  predicate AtRoot(t: Tables, r: Root) {
    r.value.Obj? && r.value.id in t.nodes && t.nodes[r.value.id].pointer == r.pointer && r.pointer in t.positions
  }

  /** Every root is an object of its own, without subschemas. */
  ghost predicate AreLeaves(c: Config, roots: seq<Root>) {
    (forall r :: r in roots ==> IsLeaf(c, r.value)) && Separate(roots)
  }

  /** Leaf roots are recorded where they are registered. */
  lemma LeafAtRoot(c: Config, original: seq<Root>, additional: seq<Root>, r: Root)
    requires AreLeaves(c, original + additional) && r in original + additional
    ensures AtRoot(Rebuilt(c, original, additional), r)
  {
    hide Rebuilt, SortByLength, IsLeaf;
    SortedRoots(original, additional);
    var items := LeafItems(c, original, additional);
    var k :| 0 <= k < |original + SortByLength(additional)| && (original + SortByLength(additional))[k] == r;
    LeafIsObject(c, r.value);
    RecordAllPositions(c, EMPTY_TABLES, items);
    RecordAllNode(c, EMPTY_TABLES, items, items[k]);
  }

  ghost predicate IsPosition(roots: seq<Root>, at: string) {
    exists r :: r in roots && r.pointer == at
  }

  ghost predicate IsObject(roots: seq<Root>, id: Id) {
    exists r :: r in roots && r.value == Obj(id)
  }

  /** Only the roots' objects are recorded. */
  lemma LeafObjects(c: Config, original: seq<Root>, additional: seq<Root>)
    requires AreLeaves(c, original + additional)
    ensures forall id :: id in Rebuilt(c, original, additional).nodes ==> IsObject(original + additional, id)
  {
    hide Rebuilt, SortByLength, IsLeaf;
    SortedRoots(original, additional);
    var roots := original + SortByLength(additional);
    var items := LeafItems(c, original, additional);
    assert EMPTY_TABLES.nodes.Keys == {};
    RecordAllIds(c, EMPTY_TABLES, items);
    forall id | id in Rebuilt(c, original, additional).nodes ensures IsObject(original + additional, id) {
      IdsOfMember(items, id);
      var k :| 0 <= k < |items| && items[k].value == Obj(id);
      assert roots[k] in roots;
    }
  }

  /** Only the roots' pointers are positions. */
  lemma LeafPositions(c: Config, original: seq<Root>, additional: seq<Root>)
    requires AreLeaves(c, original + additional)
    ensures forall at :: at in Rebuilt(c, original, additional).positions ==> IsPosition(original + additional, at)
  {
    hide Rebuilt, SortByLength, IsLeaf, RecordAll;
    SortedRoots(original, additional);
    var roots := original + SortByLength(additional);
    var items := LeafItems(c, original, additional);
    forall at | at in Rebuilt(c, original, additional).positions ensures IsPosition(original + additional, at) {
      if forall k :: 0 <= k < |items| ==> items[k].pointer != at {
        RecordAllWrites(c, EMPTY_TABLES, items, at);
      }
      var k :| 0 <= k < |items| && items[k].pointer == at;
      assert roots[k] in roots;
    }
  }

  /** Only the roots' pointers are positions, and only their objects are recorded and listed. */
  lemma LeafOnly(c: Config, original: seq<Root>, additional: seq<Root>)
    requires AreLeaves(c, original + additional)
    ensures var t := Rebuilt(c, original, additional);
      && (forall at :: at in t.positions ==> IsPosition(original + additional, at))
      && (forall id :: id in t.nodes ==> IsObject(original + additional, id))
      && (forall e :: e in t.entries ==> IsObject(original + additional, e.id))
  {
    hide Rebuilt, SortByLength, IsLeaf, IsObject, IsPosition;
    LeafObjects(c, original, additional);
    LeafPositions(c, original, additional);
    RebuiltCovers(c, original, additional);
    var t := Rebuilt(c, original, additional);
    forall e | e in t.entries ensures IsObject(original + additional, e.id) {
      var k :| 0 <= k < |t.entries| && t.entries[k] == e;
    }
  }

  lemma ItemCount(c: Config, original: seq<Root>, additional: seq<Root>)
    ensures |AllItems(c, original, additional)| == |original + SortByLength(additional)|
  {
    hide Rebuilt, SortByLength;
  }

  /** Items that all hold one leaf object: only the first is visited. */
  lemma OneVisited(c: Config, item: Item, tail: seq<Item>)
    requires IsLeaf(c, item.value) && forall other :: other in tail ==> other.value == item.value
    ensures Preorder(c, {}, [item] + tail) == [item]
  {
    hide IsLeaf, Preorder, Visit;
    LeafIsObject(c, item.value);
    LeafVisit(c, {}, item);
    PreorderCons(c, {}, item, tail);
    assert IdsOf([item]) == {item.value.id};
    SeenLeaves(c, {} + IdsOf([item]), tail);
  }

  /** Roots that all hold one leaf object: it is recorded at the first. */
  lemma OneLeaf(c: Config, first: Root, rest: seq<Root>)
    requires IsLeaf(c, first.value) && forall r :: r in rest ==> r.value == first.value
    ensures Rebuilt(c, [first] + rest, []) == Record(c, EMPTY_TABLES, RootItem(first, c.defaultDialect, true))
  {
    hide IsLeaf, AddRoots, SortByLength, Record, RecordAll, Preorder;
    var item := RootItem(first, c.defaultDialect, true);
    var items, tail := RootItems([first] + rest, c.defaultDialect, true), RootItems(rest, c.defaultDialect, true);
    assert ([first] + rest)[1..] == rest;
    assert items == [item] + tail;
    OneVisited(c, item, tail);
    assert EMPTY_TABLES.nodes.Keys == {};
    OneRecorded(c, item);
    NothingAdded(c, Walk(c, EMPTY_TABLES, items));
  }

  lemma OneRecorded(c: Config, item: Item)
    ensures RecordAll(c, EMPTY_TABLES, [item]) == Record(c, EMPTY_TABLES, item)
  {
    assert [item][1..] == [];
    assert RecordAll(c, Record(c, EMPTY_TABLES, item), []) == Record(c, EMPTY_TABLES, item);
  }

  lemma NothingAdded(c: Config, t: Tables)
    ensures AddRoots(c, t, SortByLength([])) == t
  {
  }

  lemma {:induction false} SeenLeaves(c: Config, seen: set<Id>, items: seq<Item>)
    requires forall item :: item in items ==> item.value.Obj? && item.value.id in seen
    ensures Preorder(c, seen, items) == []
    decreases |items|
  {
    if items != [] {
      assert items[0] in items;
      assert Visit(c, seen, items[0]) == [];
      assert seen + IdsOf([]) == seen;
      SeenLeaves(c, seen, items[1..]);
    }
  }
}

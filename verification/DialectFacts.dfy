/**
 * What the tables mean once a walk or a rebuild has filled them.
 */
module DialectFacts {
  import opened SchemaHeap
  import opened Dialects

  // ---- The walk visits exactly the reachable objects, each once ----

  ghost predicate Distinct(visited: seq<Item>) {
    forall i, j :: 0 <= i < j < |visited| && visited[i].value.Obj? ==> visited[i].value != visited[j].value
  }

  ghost predicate Fresh(seen: set<Id>, visited: seq<Item>) {
    forall i :: 0 <= i < |visited| && visited[i].value.Obj? ==> visited[i].value.id !in seen
  }

  lemma DistinctAppend(a: seq<Item>, b: seq<Item>)
    requires Distinct(a) && Distinct(b) && Fresh(IdsOf(a), b)
    ensures Distinct(a + b)
  {
    forall i, j | 0 <= i < j < |a + b| && (a + b)[i].value.Obj? ensures (a + b)[i].value != (a + b)[j].value {
      if i < |a| <= j {
        IdsOfMember(a, a[i].value.id);
        assert b[j - |a|].value.Obj? ==> b[j - |a|].value.id !in IdsOf(a);
      }
    }
  }

  /** No object is visited twice, nor when the tables already held it. */
  lemma {:induction false} PreorderOnce(c: Config, seen: set<Id>, items: seq<Item>)
    ensures Distinct(Preorder(c, seen, items)) && Fresh(seen, Preorder(c, seen, items))
    decreases Unreached(c.heap, seen), |items|, 1
  {
    if items != [] {
      var first := Visit(c, seen, items[0]);
      UnreachedShrinks(c.heap, seen, seen + IdsOf(first));
      VisitOnce(c, seen, items[0]);
      PreorderOnce(c, seen + IdsOf(first), items[1..]);
      DistinctAppend(first, Preorder(c, seen + IdsOf(first), items[1..]));
    }
  }

  lemma {:induction false} VisitOnce(c: Config, seen: set<Id>, item: Item)
    ensures Distinct(Visit(c, seen, item)) && Fresh(seen, Visit(c, seen, item))
    decreases Unreached(c.heap, seen), 1, 0
  {
    if item.value.Obj? && item.value.id !in seen {
      UnreachedShrinks(c.heap, seen, seen + {item.value.id});
      PreorderOnce(c, seen + {item.value.id}, Children(c, item));
    }
  }

  /** A position is settled when its object has been seen, or the position itself visited. */
  predicate Settled(seen: set<Id>, visited: seq<Item>, item: Item) {
    if item.value.Obj? then item.value.id in seen + IdsOf(visited) else item in visited
  }

  lemma SettledInFirst(seen: set<Id>, a: seq<Item>, b: seq<Item>, item: Item)
    requires Settled(seen, a, item)
    ensures Settled(seen, a + b, item)
  {
    IdsOfAppend(a, b);
  }

  lemma SettledInSecond(seen: set<Id>, a: seq<Item>, b: seq<Item>, item: Item)
    requires Settled(seen + IdsOf(a), b, item)
    ensures Settled(seen, a + b, item)
  {
    IdsOfAppend(a, b);
  }

  /** Every position below each visited one is settled. */
  ghost predicate Complete(c: Config, seen: set<Id>, visited: seq<Item>, among: seq<Item>) {
    forall k, child :: 0 <= k < |among| && child in Children(c, among[k]) ==> Settled(seen, visited, child)
  }

  lemma CompleteAppend(c: Config, seen: set<Id>, a: seq<Item>, b: seq<Item>)
    requires Complete(c, seen, a, a) && Complete(c, seen + IdsOf(a), b, b)
    ensures Complete(c, seen, a + b, a + b)
  {
    forall k, child | 0 <= k < |a + b| && child in Children(c, (a + b)[k]) ensures Settled(seen, a + b, child) {
      if k < |a| {
        assert child in Children(c, a[k]);
        SettledInFirst(seen, a, b, child);
      } else {
        assert child in Children(c, b[k - |a|]);
        SettledInSecond(seen, a, b, child);
      }
    }
  }

  /** Every position given to the walk, and every position below one it visited, is settled. */
  lemma {:induction false} PreorderSettles(c: Config, seen: set<Id>, items: seq<Item>)
    ensures forall item :: item in items ==> Settled(seen, Preorder(c, seen, items), item)
    ensures Complete(c, seen, Preorder(c, seen, items), Preorder(c, seen, items))
    decreases Unreached(c.heap, seen), |items|, 1
  {
    if items != [] {
      var first := Visit(c, seen, items[0]);
      var seen2 := seen + IdsOf(first);
      UnreachedShrinks(c.heap, seen, seen2);
      VisitSettles(c, seen, items[0]);
      PreorderSettles(c, seen2, items[1..]);
      var rest := Preorder(c, seen2, items[1..]);
      CompleteAppend(c, seen, first, rest);
      SettledInFirst(seen, first, rest, items[0]);
      forall item | item in items[1..] ensures Settled(seen, first + rest, item) {
        SettledInSecond(seen, first, rest, item);
      }
    }
  }

  lemma {:induction false} VisitSettles(c: Config, seen: set<Id>, item: Item)
    ensures Settled(seen, Visit(c, seen, item), item)
    ensures Complete(c, seen, Visit(c, seen, item), Visit(c, seen, item))
    decreases Unreached(c.heap, seen), 1, 0
  {
    if item.value.Obj? && item.value.id !in seen {
      var seen2 := seen + {item.value.id};
      UnreachedShrinks(c.heap, seen, seen2);
      PreorderSettles(c, seen2, Children(c, item));
      VisitComplete(c, seen, item, Preorder(c, seen2, Children(c, item)));
    }
  }

  lemma VisitComplete(c: Config, seen: set<Id>, item: Item, below: seq<Item>)
    requires item.value.Obj?
    requires forall child :: child in Children(c, item) ==> Settled(seen + {item.value.id}, below, child)
    requires Complete(c, seen + {item.value.id}, below, below)
    ensures Settled(seen, [item] + below, item) && Complete(c, seen, [item] + below, [item] + below)
  {
    var all := [item] + below;
    assert IdsOf([item]) == {item.value.id};
    IdsOfAppend([item], below);
    forall k, child | 0 <= k < |all| && child in Children(c, all[k]) ensures Settled(seen, all, child) {
      if k > 0 {
        assert child in Children(c, below[k - 1]);
      }
      SettledInSecond(seen, [item], below, child);
    }
  }

  /** A way down from one of the given positions: each step is a kept subschema of the one before. */
  ghost predicate Chain(c: Config, items: seq<Item>, chain: seq<Item>) {
    && chain != []
    && chain[0] in items
    && forall k :: 0 <= k < |chain| - 1 ==> chain[k + 1] in Children(c, chain[k])
  }

  ghost function Last(chain: seq<Item>): Item
    requires chain != []
  {
    chain[|chain| - 1]
  }

  lemma ChainUnder(c: Config, item: Item, chain: seq<Item>)
    requires Chain(c, Children(c, item), chain)
    ensures Chain(c, [item], [item] + chain) && Last([item] + chain) == Last(chain)
  {
    var longer := [item] + chain;
    forall k | 0 <= k < |longer| - 1 ensures longer[k + 1] in Children(c, longer[k]) {
      if k > 0 {
        assert longer[k] == chain[k - 1] && longer[k + 1] == chain[k];
      }
    }
  }

  /** Every visited position ends a chain. */
  lemma {:induction false} PreorderChain(c: Config, seen: set<Id>, items: seq<Item>, v: Item) returns (chain: seq<Item>)
    requires v in Preorder(c, seen, items)
    ensures Chain(c, items, chain) && Last(chain) == v
    decreases Unreached(c.heap, seen), |items|, 1
  {
    var first := Visit(c, seen, items[0]);
    UnreachedShrinks(c.heap, seen, seen + IdsOf(first));
    if v in first {
      chain := VisitChain(c, seen, items[0], v);
    } else {
      chain := PreorderChain(c, seen + IdsOf(first), items[1..], v);
    }
  }

  lemma {:induction false} VisitChain(c: Config, seen: set<Id>, item: Item, v: Item) returns (chain: seq<Item>)
    requires v in Visit(c, seen, item)
    ensures Chain(c, [item], chain) && Last(chain) == v
    decreases Unreached(c.heap, seen), 1, 0
  {
    if v == item {
      chain := [item];
    } else {
      UnreachedShrinks(c.heap, seen, seen + {item.value.id});
      var below := PreorderChain(c, seen + {item.value.id}, Children(c, item), v);
      ChainUnder(c, item, below);
      chain := [item] + below;
    }
  }

  lemma ChainFront(c: Config, items: seq<Item>, chain: seq<Item>)
    requires Chain(c, items, chain) && |chain| > 1
    ensures Chain(c, items, chain[..|chain| - 1])
    ensures Last(chain) in Children(c, Last(chain[..|chain| - 1]))
  {
    var k := |chain| - 2;
    assert chain[k + 1] in Children(c, chain[k]);
  }

  /** A position ending a chain whose object is visited first elsewhere still leads only to visited objects. */
  lemma ChildrenByObject(c: Config, v: Item, w: Item, child: Item) returns (other: Item)
    requires v.value == w.value && child in Children(c, v)
    ensures other in Children(c, w) && other.value == child.value
  {
    var kept := Kept(SchemaOf(c.heap, v.value.id), c.Suppress());
    ChildrenFromEach(c, v, kept);
    ChildrenFromEach(c, w, kept);
    var k :| 0 <= k < |Children(c, v)| && Children(c, v)[k] == child;
    other := Children(c, w)[k];
  }

  lemma {:induction false} ChainVisited(c: Config, items: seq<Item>, chain: seq<Item>)
    requires Chain(c, items, chain) && Last(chain).value.Obj?
    ensures Last(chain).value.id in IdsOf(Preorder(c, {}, items))
    decreases |chain|
  {
    var visited := Preorder(c, {}, items);
    PreorderSettles(c, {}, items);
    if |chain| > 1 {
      ChainFront(c, items, chain);
      var parent := Last(chain[..|chain| - 1]);
      ChainVisited(c, items, chain[..|chain| - 1]);
      IdsOfMember(visited, parent.value.id);
      var k :| 0 <= k < |visited| && visited[k].value == Obj(parent.value.id);
      var other := ChildrenByObject(c, parent, visited[k], Last(chain));
      assert Settled({}, visited, other);
    }
  }

  /** A fresh walk records an object exactly when some chain from the given positions ends at it. */
  lemma WalkRecordsReachable(c: Config, items: seq<Item>, id: Id)
    ensures id in Walk(c, EMPTY_TABLES, items).nodes
      <==> exists chain: seq<Item> :: Chain(c, items, chain) && Last(chain).value == Obj(id)
  {
    var visited := Preorder(c, {}, items);
    assert EMPTY_TABLES.nodes.Keys == {};
    RecordAllIds(c, EMPTY_TABLES, visited);
    if id in IdsOf(visited) {
      IdsOfMember(visited, id);
      var k :| 0 <= k < |visited| && visited[k].value == Obj(id);
      var chain := PreorderChain(c, {}, items, visited[k]);
    }
    if chain: seq<Item> :| Chain(c, items, chain) && Last(chain).value == Obj(id) {
      ChainVisited(c, items, chain);
    }
  }
}

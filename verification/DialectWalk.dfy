/**
 * The dialect inventory as a mutable object: an explicit-stack walk filling
 * tables in place, and a rebuild that clears and refills them.
 */
module DialectWalk {
  import opened Options
  import opened SchemaHeap
  import opened Dialects
  import opened Rebuild

  // ---- One step of the explicit-stack walk, against its specification ----

  lemma WalkOne(c: Config, t: Tables, item: Item)
    requires !Recorded(t, item.value)
    ensures Walk(c, t, [item]) == Walk(c, Record(c, t, item), Children(c, item))
  {
    var visited := Visit(c, t.nodes.Keys, item);
    assert [item][1..] == [];
    assert Preorder(c, t.nodes.Keys, [item]) == visited + Preorder(c, t.nodes.Keys + IdsOf(visited), []) == visited;
    assert visited[0] == item;
    match item.value
    case Other(_) =>
      assert visited[1..] == [] == Preorder(c, Record(c, t, item).nodes.Keys, []);
    case Obj(id) =>
      assert Record(c, t, item).nodes.Keys == t.nodes.Keys + {id};
      assert visited[1..] == Preorder(c, t.nodes.Keys + {id}, Children(c, item));
  }

  lemma WalkNothing(c: Config, t: Tables)
    ensures Reverse<Item>([]) == [] && Walk(c, t, []) == t
  {
  }

  /** Popping an unrecorded position, recording it and pushing what lies below leaves the outcome unchanged. */
  lemma WalkStep(c: Config, t: Tables, item: Item, rest: seq<Item>)
    ensures Walk(c, t, [item] + rest)
         == if Recorded(t, item.value) then Walk(c, t, rest) else Walk(c, Record(c, t, item), Children(c, item) + rest)
  {
    WalkAppend(c, t, [item], rest);
    if Recorded(t, item.value) {
      assert Visit(c, t.nodes.Keys, item) == [];
      assert Preorder(c, t.nodes.Keys, [item]) == [] + Preorder(c, t.nodes.Keys + IdsOf([]), []);
    } else {
      WalkOne(c, t, item);
      WalkAppend(c, Record(c, t, item), Children(c, item), rest);
    }
  }

  lemma {:induction false} ReverseLast(items: seq<Item>)
    requires items != []
    ensures Reverse(items) == [items[|items| - 1]] + Reverse(items[..|items| - 1])
  {
    var n := |items|;
    var front := items[..n - 1];
    var expected := [items[n - 1]] + Reverse(front);
    assert |expected| == n;
    forall k | 0 <= k < n ensures Reverse(items)[k] == expected[k] {
      if k > 0 {
        assert expected[k] == Reverse(front)[k - 1] == front[n - 1 - k];
      }
    }
  }

  /** The top of the stack is the next position; what it contributes goes before the rest. */
  lemma StackStep(c: Config, t: Tables, pending: seq<Item>)
    requires pending != []
    ensures var item, rest := pending[|pending| - 1], Reverse(pending[..|pending| - 1]);
      && Walk(c, t, Reverse(pending))
         == if Recorded(t, item.value) then Walk(c, t, rest) else Walk(c, Record(c, t, item), Children(c, item) + rest)
  {
    ReverseLast(pending);
    WalkStep(c, t, pending[|pending| - 1], Reverse(pending[..|pending| - 1]));
  }

  lemma RecordProgress(c: Config, t: Tables, item: Item)
    requires !Recorded(t, item.value)
    ensures Unreached(c.heap, Record(c, t, item).nodes.Keys) <= Unreached(c.heap, t.nodes.Keys)
    ensures Unreached(c.heap, Record(c, t, item).nodes.Keys) == Unreached(c.heap, t.nodes.Keys)
      ==> Children(c, item) == []
  {
    UnreachedShrinks(c.heap, t.nodes.Keys, Record(c, t, item).nodes.Keys);
    assert item.value.Obj? ==> item.value.id in Record(c, t, item).nodes.Keys;
  }

  lemma {:induction false} KeptFromSnoc(s: Schema, suppress: bool, entries: seq<Entry>, e: Entry)
    ensures KeptFrom(s, suppress, entries + [e]) == KeptFrom(s, suppress, entries) + KeptOne(s, suppress, e)
  {
    if entries == [] {
      assert entries + [e] == [e] && [e][1..] == [];
    } else {
      assert (entries + [e])[1..] == entries[1..] + [e] && (entries + [e])[0] == entries[0];
      KeptFromSnoc(s, suppress, entries[1..], e);
      ConcatAssoc(KeptOne(s, suppress, entries[0]), KeptFrom(s, suppress, entries[1..]), KeptOne(s, suppress, e));
    }
  }

  lemma {:induction false} ChildrenFromSnoc(c: Config, item: Item, entries: seq<Entry>, e: Entry)
    ensures ChildrenFrom(c, item, entries + [e]) == ChildrenFrom(c, item, entries) + [ChildItem(c, item, e)]
  {
    hide ChildItem;
    if entries == [] {
      assert entries + [e] == [e] && [e][1..] == [];
    } else {
      assert (entries + [e])[1..] == entries[1..] + [e] && (entries + [e])[0] == entries[0];
      ChildrenFromSnoc(c, item, entries[1..], e);
      ConcatAssoc([ChildItem(c, item, entries[0])], ChildrenFrom(c, item, entries[1..]), [ChildItem(c, item, e)]);
    }
  }

  /** The positions below an object, skipping the subschemas its `$ref` discards. */
  method CollectChildren(c: Config, item: Item, effective: Effective) returns (children: seq<Item>)
    requires item.value.Obj? && effective == EffectiveOf(c, item)
    ensures children == Children(c, item)
  {
    children := [];
    var s := SchemaOf(c.heap, item.value.id);
    var suppress := c.Suppress();
    for k := 0 to |s.entries|
      invariant children == ChildrenFrom(c, item, KeptFrom(s, suppress, s.entries[..k]))
    {
      var e := s.entries[k];
      ghost var before := s.entries[..k];
      KeptFromSnoc(s, suppress, before, e);
      assert s.entries[..k + 1] == before + [e];
      if !Discarded(s, e.key, suppress) {
        ChildrenFromSnoc(c, item, KeptFrom(s, suppress, before), e);
        children := children + [Item(e.value, ChildPointer(item.pointer, e), ChildPath(item.path, e), effective,
          false)];
      } else {
        assert KeptFrom(s, suppress, before + [e]) == KeptFrom(s, suppress, before);
      }
    }
    assert s.entries[..|s.entries|] == s.entries;
  }

  class SchemaDialects {
    const c: Config
    const roots: seq<Root>
    var resources: seq<Root>
    var nodes: map<Id, NodeInfo>
    var positions: map<string, Effective>
    var schemasAt: map<string, Value>
    var unsupported: map<string, Effective>
    var supported: set<Dialect>
    var entries: seq<EntryInfo>

    function Snapshot(): Tables
      reads this
    {
      Tables(resources, nodes, positions, schemasAt, unsupported, supported, entries)
    }

    constructor (c: Config, roots: seq<Root>)
      ensures this.c == c && this.roots == roots
      ensures Snapshot() == Rebuilt(c, roots, [])
    {
      this.c := c;
      this.roots := roots;
      resources, nodes, positions, schemasAt, unsupported, supported, entries := [], map[], map[], map[], map[], {}, [];
      new;
      Discover(roots, c.defaultDialect, true);
    }

    /** Walk some roots with an explicit stack; the outcome is the recursive first-visit preorder. */
    method Discover(additional: seq<Root>, inherited: Effective, isRoot: bool)
      modifies this
      ensures Snapshot() == Walk(c, old(Snapshot()), RootItems(additional, inherited, isRoot))
    {
      hide Walk, Children, Unreached, RootItems, Reverse;
      ghost var goal := Walk(c, Snapshot(), RootItems(additional, inherited, isRoot));
      var pending := Reverse(RootItems(additional, inherited, isRoot));
      assert Reverse(pending) == RootItems(additional, inherited, isRoot);
      while pending != []
        invariant Walk(c, Snapshot(), Reverse(pending)) == goal
        decreases Unreached(c.heap, nodes.Keys), |pending|
      {
        ghost var t := Snapshot();
        StackStep(c, t, pending);
        var item := pending[|pending| - 1];
        pending := pending[..|pending| - 1];
        if item.value.Obj? && item.value.id in nodes {
          continue;
        }
        var children := RecordPosition(item);
        RecordProgress(c, t, item);
        pending := PushReversed(c, pending, children);
      }
      WalkNothing(c, Snapshot());
    }

    /** Fill every table for one position and collect the positions below it. */
    method RecordPosition(item: Item) returns (children: seq<Item>)
      modifies this
      ensures Snapshot() == Record(c, old(Snapshot()), item)
      ensures children == Children(c, item)
    {
      children := [];
      var schema := if item.value.Obj? then Some(SchemaOf(c.heap, item.value.id)) else None;
      var resource := item.root || (schema.Some? && schema.value.resourceId.Some?);
      var effective := item.effective;
      if c.dialect != Oas30 && resource && schema.Some? && schema.value.dialectUri.Some? {
        effective := DialectAt(c, schema.value.dialectUri.value, item.pointer + "/$schema");
      }
      positions := positions[item.pointer := effective];
      schemasAt := schemasAt[item.pointer := item.value];
      if effective.dialect.None? {
        unsupported := unsupported[effective.pointer := effective];
      } else {
        supported := supported + {effective.dialect.value};
      }
      if schema.None? {
        return;
      }
      nodes := nodes[item.value.id := NodeInfo(item.pointer, item.path, effective)];
      entries := entries + [EntryInfo(item.value.id, item.pointer, effective.dialect)];
      if resource && !item.root {
        resources := resources + [Root(item.value, item.pointer)];
      }
      children := CollectChildren(c, item, effective);
    }

    /** The search upwards for the nearest position above a pointer. */
    method EnclosingAt(pointer: string) returns (found: Option<Enclosing>)
      ensures found == EnclosingOf(Snapshot(), pointer)
    {
      var parent := pointer;
      while '/' in parent
        invariant EnclosingPosition(Snapshot(), parent) == EnclosingPosition(Snapshot(), pointer)
        decreases |parent|
      {
        parent := parent[..LastSlash(parent)];
        if parent in positions {
          return if parent in schemasAt then Some(Enclosing(schemasAt[parent], positions[parent])) else None;
        }
      }
      return None;
    }

    /** Clear every table and refill it from the authored and the additional roots. */
    method RebuildFrom(original: seq<Root>, additional: seq<Root>)
      modifies this
      ensures Snapshot() == Rebuilt(c, original, additional)
    {
      resources, nodes, positions, schemasAt, unsupported, supported, entries := [], map[], map[], map[], map[], {}, [];
      Discover(original, c.defaultDialect, true);
      var sorted := SortByLength(additional);
      ghost var goal := AddRoots(c, Snapshot(), sorted);
      for k := 0 to |sorted|
        invariant AddRoots(c, Snapshot(), sorted[k..]) == goal
      {
        var parent := EnclosingAt(sorted[k].pointer);
        assert sorted[k..][0] == sorted[k] && sorted[k..][1..] == sorted[k + 1..];
        var inherited := if parent.Some? then parent.value.effective else c.defaultDialect;
        assert RootItems([sorted[k]], inherited, parent.None?) == [AdditionalItem(c, Snapshot(), sorted[k])];
        Discover([sorted[k]], inherited, parent.None?);
      }
    }
  }

  /** Push a list so that popping yields it in order. */
  method PushReversed(c: Config, stack: seq<Item>, items: seq<Item>) returns (pushed: seq<Item>)
    ensures Reverse(pushed) == items + Reverse(stack)
    ensures |pushed| == |stack| + |items|
  {
    pushed := stack;
    var i := |items|;
    while i > 0
      invariant 0 <= i <= |items|
      invariant Reverse(pushed) == items[i..] + Reverse(stack)
      invariant |pushed| == |stack| + |items| - i
    {
      i := i - 1;
      ghost var before := pushed;
      pushed := pushed + [items[i]];
      ReverseLast(pushed);
      assert pushed[..|pushed| - 1] == before;
      assert items[i..] == [items[i]] + items[i + 1..];
    }
    assert items[0..] == items;
  }

  /** The dialect of a schema, by identity, then by position, then the document's default. */
  function EffectiveFor(c: Config, t: Tables, schema: Value, pointer: Option<string>): Effective {
    if Recorded(t, schema) then t.nodes[schema.id].effective
    else if pointer.Some? && pointer.value in t.positions then t.positions[pointer.value]
    else c.defaultDialect
  }
}

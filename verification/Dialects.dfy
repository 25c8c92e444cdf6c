/**
 * Which dialect each schema is read in, and where each schema sits.
 *
 * The walk records every object once, at the first position that reaches it.
 * Its specification is the recursive preorder `Walk`; the class below runs the
 * explicit-stack form over mutable tables.
 */
module Dialects {
  import opened Options
  import opened SchemaHeap

  datatype Dialect = JsonSchema202012 | OpenApi31 | Oas30

  /** The dialect in force at a schema, and the pointer of the declaration that put it there. */
  datatype Effective = Effective(uri: string, dialect: Option<Dialect>, pointer: string)

  datatype Root = Root(value: Value, pointer: string)

  datatype NodeInfo = NodeInfo(pointer: string, path: string, effective: Effective)

  /** One pending position of the walk. */
  datatype Item = Item(value: Value, pointer: string, path: string, effective: Effective, root: bool)

  datatype EntryInfo = EntryInfo(id: Id, pointer: string, dialect: Option<Dialect>)

  datatype Config = Config(heap: Heap, dialect: Dialect, defaultDialect: Effective, known: map<string, Dialect>) {
    /** Only OAS 3.0 discards the siblings of `$ref`. */
    predicate Suppress() { dialect == Oas30 }
  }

  /** The dialect URIs the checker can read. */
  const KNOWN_DIALECTS := map[
    "https://json-schema.org/draft/2020-12/schema" := JsonSchema202012,
    "https://spec.openapis.org/oas/3.1/dialect/base" := OpenApi31,
    "https://spec.openapis.org/oas/3.2/dialect/base" := OpenApi31]

  /** Every table the walk fills. */
  datatype Tables = Tables(
    resources: seq<Root>,
    nodes: map<Id, NodeInfo>,
    positions: map<string, Effective>,
    schemasAt: map<string, Value>,
    unsupported: map<string, Effective>,
    supported: set<Dialect>,
    entries: seq<EntryInfo>)

  const EMPTY_TABLES := Tables([], map[], map[], map[], map[], {}, [])

  /** A declared dialect; a trailing empty fragment is not part of its name. */
  function DialectAt(c: Config, uri: string, pointer: string): Effective {
    var normalized := if |uri| > 0 && uri[|uri| - 1] == '#' then uri[..|uri| - 1] else uri;
    Effective(uri, if normalized in c.known then Some(c.known[normalized]) else None, pointer)
  }

  /** A schema resource: an authored root, or an object carrying `$id`. */
  predicate IsResource(c: Config, item: Item) {
    item.root || (item.value.Obj? && SchemaOf(c.heap, item.value.id).resourceId.Some?)
  }

  /** Whether this position declares its own dialect. */
  predicate Declares(c: Config, item: Item) {
    c.dialect != Oas30 && IsResource(c, item) && item.value.Obj? && SchemaOf(c.heap, item.value.id).dialectUri.Some?
  }

  /** The dialect the walk gives a position: its own declaration, else what it inherits. */
  function EffectiveOf(c: Config, item: Item): Effective {
    if Declares(c, item) then DialectAt(c, SchemaOf(c.heap, item.value.id).dialectUri.value, item.pointer + "/$schema")
    else item.effective
  }

  predicate Recorded(t: Tables, v: Value) {
    v.Obj? && v.id in t.nodes
  }

  /** What visiting a position that is not already recorded adds to the tables. */
  function Record(c: Config, t: Tables, item: Item): (r: Tables)
    ensures r.nodes.Keys == t.nodes.Keys + (if item.value.Obj? then {item.value.id} else {})
  {
    var effective := EffectiveOf(c, item);
    var t1 := t.(
      positions := t.positions[item.pointer := effective],
      schemasAt := t.schemasAt[item.pointer := item.value],
      unsupported := if effective.dialect.None? then t.unsupported[effective.pointer := effective] else t.unsupported,
      supported := if effective.dialect.Some? then t.supported + {effective.dialect.value} else t.supported);
    match item.value
    case Other(_) => t1
    case Obj(id) =>
      t1.(
        nodes := t.nodes[id := NodeInfo(item.pointer, item.path, effective)],
        entries := t.entries + [EntryInfo(id, item.pointer, effective.dialect)],
        resources := if IsResource(c, item) && !item.root then t.resources + [Root(item.value, item.pointer)]
                     else t.resources)
  }

  function ChildItem(c: Config, item: Item, e: Entry): Item {
    Item(e.value, ChildPointer(item.pointer, e), ChildPath(item.path, e), EffectiveOf(c, item), false)
  }

  function ChildrenFrom(c: Config, item: Item, entries: seq<Entry>): seq<Item> {
    if entries == [] then [] else [ChildItem(c, item, entries[0])] + ChildrenFrom(c, item, entries[1..])
  }

  lemma {:induction false} ChildrenFromEach(c: Config, item: Item, entries: seq<Entry>)
    ensures var items := ChildrenFrom(c, item, entries);
      |items| == |entries| && forall k :: 0 <= k < |entries| ==> items[k] == ChildItem(c, item, entries[k])
  {
    if entries != [] {
      ChildrenFromEach(c, item, entries[1..]);
    }
  }

  /** The kept subschemas of an object, in keyword order, as positions to visit. */
  function Children(c: Config, item: Item): seq<Item> {
    match item.value
    case Other(_) => []
    case Obj(id) => ChildrenFrom(c, item, Kept(SchemaOf(c.heap, id), c.Suppress()))
  }

  function IdsOf(items: seq<Item>): set<Id> {
    if items == [] then {}
    else (if items[0].value.Obj? then {items[0].value.id} else {}) + IdsOf(items[1..])
  }

  lemma {:induction false} IdsOfMember(items: seq<Item>, id: Id)
    ensures id in IdsOf(items) <==> exists k :: 0 <= k < |items| && items[k].value == Obj(id)
  {
    if items != [] {
      IdsOfMember(items[1..], id);
      if k :| 0 <= k < |items| && items[k].value == Obj(id) {
        if k > 0 {
          assert items[1..][k - 1].value == Obj(id);
        }
      }
    }
  }

  /**
   * First-visit preorder: the positions the walk records, in order. An object
   * already seen is passed over; any other object is followed by what lies below it.
   */
  ghost function Preorder(c: Config, seen: set<Id>, items: seq<Item>): seq<Item>
    decreases Unreached(c.heap, seen), |items|, 1
  {
    if items == [] then []
    else
      var first := Visit(c, seen, items[0]);
      UnreachedShrinks(c.heap, seen, seen + IdsOf(first));
      first + Preorder(c, seen + IdsOf(first), items[1..])
  }

  ghost function Visit(c: Config, seen: set<Id>, item: Item): seq<Item>
    decreases Unreached(c.heap, seen), 1, 0
  {
    match item.value
    case Other(_) => [item]
    case Obj(id) =>
      if id in seen then []
      else
        UnreachedShrinks(c.heap, seen, seen + {id});
        [item] + Preorder(c, seen + {id}, Children(c, item))
  }

  lemma {:induction false} IdsOfAppend(a: seq<Item>, b: seq<Item>)
    ensures IdsOf(a + b) == IdsOf(a) + IdsOf(b)
  {
    if a == [] {
      assert a + b == b;
    } else {
      assert (a + b)[1..] == a[1..] + b;
      IdsOfAppend(a[1..], b);
    }
  }

  lemma {:induction false} PreorderAppend(c: Config, seen: set<Id>, a: seq<Item>, b: seq<Item>)
    ensures Preorder(c, seen, a + b) == Preorder(c, seen, a) + Preorder(c, seen + IdsOf(Preorder(c, seen, a)), b)
    decreases |a|
  {
    if a == [] {
      assert a + b == b;
      assert seen + IdsOf([]) == seen;
    } else {
      var x, xs := a[0], a[1..];
      assert a == [x] + xs;
      assert a + b == [x] + (xs + b);
      var seen2 := seen + IdsOf(Visit(c, seen, x));
      PreorderAppend(c, seen2, xs, b);
      PreorderAppendStep(c, seen, x, xs, b, Preorder(c, seen2, xs));
    }
  }

  lemma PreorderAppendStep(c: Config, seen: set<Id>, x: Item, xs: seq<Item>, b: seq<Item>, rest: seq<Item>)
    requires rest == Preorder(c, seen + IdsOf(Visit(c, seen, x)), xs)
    requires Preorder(c, seen + IdsOf(Visit(c, seen, x)), xs + b)
          == rest + Preorder(c, seen + IdsOf(Visit(c, seen, x)) + IdsOf(rest), b)
    ensures Preorder(c, seen, [x] + (xs + b))
         == Preorder(c, seen, [x] + xs) + Preorder(c, seen + IdsOf(Preorder(c, seen, [x] + xs)), b)
  {
    hide Preorder, Visit, IdsOf;
    var first := Visit(c, seen, x);
    PreorderCons(c, seen, x, xs + b);
    PreorderCons(c, seen, x, xs);
    IdsOfAppend(first, rest);
    assert seen + IdsOf(first) + IdsOf(rest) == seen + IdsOf(first + rest);
  }

  lemma PreorderCons(c: Config, seen: set<Id>, item: Item, rest: seq<Item>)
    ensures Preorder(c, seen, [item] + rest)
      == Visit(c, seen, item) + Preorder(c, seen + IdsOf(Visit(c, seen, item)), rest)
  {
    assert ([item] + rest)[1..] == rest;
  }

  /** The tables after recording positions one by one. */
  ghost function RecordAll(c: Config, t: Tables, visited: seq<Item>): Tables
    decreases |visited|
  {
    if visited == [] then t else RecordAll(c, Record(c, t, visited[0]), visited[1..])
  }

  lemma {:induction false} RecordAllAppend(c: Config, t: Tables, a: seq<Item>, b: seq<Item>)
    ensures RecordAll(c, t, a + b) == RecordAll(c, RecordAll(c, t, a), b)
    decreases |a|
  {
    if a == [] {
      assert a + b == b;
    } else {
      assert (a + b)[1..] == a[1..] + b;
      RecordAllAppend(c, Record(c, t, a[0]), a[1..], b);
    }
  }

  lemma {:induction false} RecordAllIds(c: Config, t: Tables, visited: seq<Item>)
    ensures RecordAll(c, t, visited).nodes.Keys == t.nodes.Keys + IdsOf(visited)
    decreases |visited|
  {
    if visited != [] {
      RecordAllIds(c, Record(c, t, visited[0]), visited[1..]);
      assert visited == [visited[0]] + visited[1..];
      IdsOfAppend([visited[0]], visited[1..]);
    }
  }

  /** What walking some positions does to the tables. */
  ghost function Walk(c: Config, t: Tables, items: seq<Item>): Tables {
    RecordAll(c, t, Preorder(c, t.nodes.Keys, items))
  }

  lemma WalkAppend(c: Config, t: Tables, a: seq<Item>, b: seq<Item>)
    ensures Walk(c, t, a + b) == Walk(c, Walk(c, t, a), b)
  {
    var first := Preorder(c, t.nodes.Keys, a);
    PreorderAppend(c, t.nodes.Keys, a, b);
    RecordAllIds(c, t, first);
    RecordAllAppend(c, t, first, Preorder(c, t.nodes.Keys + IdsOf(first), b));
  }

  function RootItem(root: Root, inherited: Effective, isRoot: bool): Item {
    Item(root.value, root.pointer, "", inherited, isRoot)
  }

  function RootItems(roots: seq<Root>, inherited: Effective, isRoot: bool): (items: seq<Item>)
    ensures |items| == |roots|
    ensures forall k :: 0 <= k < |roots| ==> items[k] == RootItem(roots[k], inherited, isRoot)
  {
    if roots == [] then [] else [RootItem(roots[0], inherited, isRoot)] + RootItems(roots[1..], inherited, isRoot)
  }

  function Reverse<T>(s: seq<T>): (r: seq<T>)
    ensures |r| == |s|
    ensures forall k :: 0 <= k < |s| ==> r[k] == s[|s| - 1 - k]
  {
    if s == [] then [] else Reverse(s[1..]) + [s[0]]
  }
}

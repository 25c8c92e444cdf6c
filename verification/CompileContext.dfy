/**
 * The schemas one compile unit reaches: its subschemas, its references'
 * targets, and every object a dynamic reference inside it could be rebound to.
 *
 * JSON Schema Core 2020-12, section 8.2.3.2, lets a `$dynamicRef` land on any
 * resource entered on the way. The unit therefore has to hold the dynamic
 * anchor of that name in every resource it touches, which may bring in more
 * resources and more names.
 */
module CompileContext {
  import opened Options
  import opened SchemaHeap
  import opened Dialects
  import opened DialectWalk
  import opened References

  /** What a unit is collected from: the finished inventory and the entry schema. */
  datatype Unit = Unit(c: Config, refs: Resolver, scope: Scope, t: Tables, entry: Value, pointer: Option<string>)

  /** One visit: a value, and the pointer it is visited at where that is known. */
  datatype Edge = Edge(to: Value, at: Option<string>)

  function AfterHash(ref: string): string {
    if ref == "" then "" else if ref[0] == '#' then ref[1..] else AfterHash(ref[1..])
  }

  /** A dynamic reference takes part in rebinding when its own target carries the anchor it names. */
  function DynamicNameAt(c: Config, ref: string, target: Value): Option<string> {
    var name := AfterHash(ref);
    if name != "" && name[0] != '/' && target.Obj? && SchemaOf(c.heap, target.id).dynamicAnchor == Some(name)
    then Some(name) else None
  }

  function RefEdges(u: Unit, from: Id, kind: RefKind): seq<Edge> {
    match Follow(u.c, u.refs, u.scope, u.t, from, kind)
    case None => []
    case Some(followed) => [Edge(followed.target, followed.pointer)]
  }

  function ChildEdge(u: Unit, from: Id, e: Entry): Edge {
    Edge(e.value, match PointerOf(u.t, Obj(from)) case None => None case Some(parent) => Some(ChildPointer(parent, e)))
  }

  function ChildEdges(u: Unit, from: Id, entries: seq<Entry>): seq<Edge> {
    if entries == [] then [] else [ChildEdge(u, from, entries[0])] + ChildEdges(u, from, entries[1..])
  }

  /** Everything an object of the unit leads to, in the order it is visited. */
  function Edges(u: Unit, from: Id): seq<Edge> {
    RefEdges(u, from, StaticRef) + RefEdges(u, from, DynamicRef)
    + ChildEdges(u, from, Kept(SchemaOf(u.c.heap, from), u.c.Suppress()))
  }

  /** The dynamic name an object's own `$dynamicRef` contributes. */
  function NameOf(u: Unit, from: Id): Option<string> {
    match Follow(u.c, u.refs, u.scope, u.t, from, DynamicRef)
    case None => None
    case Some(followed) => DynamicNameAt(u.c, SchemaOf(u.c.heap, from).dynamicRef.ref, followed.target)
  }

  function BaseOf(u: Unit, from: Id): string {
    u.refs.base(u.scope, from)
  }

  /** The object one resource binds a dynamic name to. */
  function Bound(u: Unit, base: string, name: string): Option<Id> {
    match u.refs.dynamicAnchor(u.scope, base, name)
    case None => None
    case Some(id) => if id < |u.c.heap| then Some(id) else None
  }

  /** A dynamic name used by one object of the set, bound in the resource of another. */
  ghost predicate Rebinds(u: Unit, s: set<Value>, id: Id) {
    exists holder: Id, user: Id :: Obj(holder) in s && Obj(user) in s && NameOf(u, user).Some?
      && Bound(u, BaseOf(u, holder), NameOf(u, user).value) == Some(id)
  }

  ghost predicate Closed(u: Unit, s: set<Value>) {
    && (forall id: Id, e :: Obj(id) in s && e in Edges(u, id) ==> e.to in s)
    && (forall id: Id :: Rebinds(u, s, id) ==> Obj(id) in s)
  }

  /** The values every closed set around the entry holds. */
  ghost predicate Needed(u: Unit, v: Value) {
    forall s: set<Value> :: u.entry in s && Closed(u, s) ==> v in s
  }

  /** The compile unit: the least closed set holding the entry. */
  ghost predicate IsUnit(u: Unit, s: set<Value>) {
    u.entry in s && Closed(u, s) && forall v :: v in s ==> Needed(u, v)
  }

  /** The visits a unit makes: its entry, every edge inside it, and every rebinding. */
  ghost predicate Visits(u: Unit, s: set<Value>, e: Edge) {
    || e == Edge(u.entry, u.pointer)
    || (exists id: Id :: Obj(id) in s && e in Edges(u, id))
    || (exists id: Id :: Rebinds(u, s, id) && e == Edge(Obj(id), None))
  }

  function Reading(u: Unit, e: Edge): Effective {
    EffectiveFor(u.c, u.t, e.to, e.at)
  }

  // ---- The state of a collection in progress ----

  datatype Collected = Collected(
    nodes: seq<Value>, seen: set<Value>, bases: seq<string>, names: seq<string>, dialects: set<Effective>)

  /** The order list holds exactly what has been seen, each value once. */
  ghost predicate Listing(k: Collected) {
    && (forall v :: v in k.nodes <==> v in k.seen)
    && (forall i, j :: 0 <= i < j < |k.nodes| ==> k.nodes[i] != k.nodes[j])
  }

  /** Nothing has been collected that the unit does not call for. */
  ghost predicate Sound(u: Unit, k: Collected) {
    && (forall v :: v in k.seen ==> Needed(u, v))
    && (forall b :: b in k.bases ==> exists id: Id :: Obj(id) in k.seen && BaseOf(u, id) == b)
    && (forall n :: n in k.names ==> exists id: Id :: Obj(id) in k.seen && NameOf(u, id) == Some(n))
    && (forall d :: d in k.dialects ==> exists e :: Visits(u, k.seen, e) && Reading(u, e) == d)
  }

  /** An edge has been visited. */
  ghost predicate Visited(u: Unit, k: Collected, e: Edge) {
    e.to in k.seen && Reading(u, e) in k.dialects
  }

  /** Everything one object contributes has been collected. */
  ghost predicate Done(u: Unit, k: Collected, id: Id) {
    && (forall e :: e in Edges(u, id) ==> Visited(u, k, e))
    && BaseOf(u, id) in k.bases
    && (NameOf(u, id).Some? ==> NameOf(u, id).value in k.names)
  }

  ghost predicate Grows(a: Collected, b: Collected) {
    a.nodes <= b.nodes && a.seen <= b.seen && a.bases <= b.bases && a.names <= b.names && a.dialects <= b.dialects
  }

  /** Every object seen since `a`, apart from one, is done. */
  ghost predicate DoneSince(u: Unit, a: Collected, b: Collected, except: set<Value>) {
    forall id: Id :: Obj(id) in b.seen - a.seen - except ==> Done(u, b, id)
  }

  ghost function SeenIds(k: Collected): set<Id> {
    set v | v in k.seen && v.Obj? :: v.id
  }

  ghost function ToSee(u: Unit, k: Collected): nat {
    Unreached(u.c.heap, SeenIds(k))
  }

  lemma ToSeeShrinks(u: Unit, a: Collected, b: Collected)
    requires a.seen <= b.seen
    ensures ToSee(u, b) <= ToSee(u, a)
    ensures forall id: Id :: Obj(id) in b.seen && Obj(id) !in a.seen && id < |u.c.heap| ==> ToSee(u, b) < ToSee(u, a)
  {
    UnreachedShrinks(u.c.heap, SeenIds(a), SeenIds(b));
    forall id: Id | Obj(id) in b.seen && Obj(id) !in a.seen && id < |u.c.heap| ensures ToSee(u, b) < ToSee(u, a) {
      assert Obj(id).id in SeenIds(b);
      assert id !in SeenIds(a);
    }
  }

  lemma DoneGrows(u: Unit, a: Collected, b: Collected, id: Id)
    requires Done(u, a, id) && Grows(a, b)
    ensures Done(u, b, id)
  {
    hide Edges, NameOf, Reading;
  }

  lemma DoneSinceGrows(u: Unit, start: Collected, a: Collected, b: Collected, except: set<Value>)
    requires Grows(start, a) && Grows(a, b) && DoneSince(u, start, a, except) && DoneSince(u, a, b, {})
    ensures DoneSince(u, start, b, except)
  {
    hide Done;
    forall id: Id | Obj(id) in b.seen - start.seen - except ensures Done(u, b, id) {
      if Obj(id) in a.seen {
        DoneGrows(u, a, b, id);
      }
    }
  }

  lemma VisitsGrow(u: Unit, a: set<Value>, b: set<Value>, e: Edge)
    requires Visits(u, a, e) && a <= b
    ensures Visits(u, b, e)
  {
    hide Edges, NameOf, Bound, BaseOf;
    if id: Id :| Rebinds(u, a, id) && e == Edge(Obj(id), None) {
      var holder: Id, user: Id :| Obj(holder) in a && Obj(user) in a && NameOf(u, user).Some?
        && Bound(u, BaseOf(u, holder), NameOf(u, user).value) == Some(id);
      assert Rebinds(u, b, id);
    }
  }

  lemma NeededEdge(u: Unit, k: Collected, e: Edge)
    requires Sound(u, k) && Visits(u, k.seen, e)
    ensures Needed(u, e.to)
  {
    hide Edges, NameOf, Bound, BaseOf, Reading;
    forall s: set<Value> | u.entry in s && Closed(u, s) ensures e.to in s {
      if id: Id :| Obj(id) in k.seen && e in Edges(u, id) {
        assert Needed(u, Obj(id));
      }
      if id: Id :| Rebinds(u, k.seen, id) && e == Edge(Obj(id), None) {
        var holder: Id, user: Id :| Obj(holder) in k.seen && Obj(user) in k.seen && NameOf(u, user).Some?
          && Bound(u, BaseOf(u, holder), NameOf(u, user).value) == Some(id);
        assert Needed(u, Obj(holder)) && Needed(u, Obj(user));
        assert Rebinds(u, s, id);
      }
    }
  }

  /** Reading one visit's dialect keeps a collection sound. */
  lemma SoundReading(u: Unit, k: Collected, e: Edge)
    requires Sound(u, k) && Visits(u, k.seen, e)
    ensures Sound(u, k.(dialects := k.dialects + {Reading(u, e)}))
  {
    hide Edges, NameOf, BaseOf, Reading, Visits, Needed;
  }

  /** Seeing a value that a visit led to keeps a collection sound. */
  lemma SoundNode(u: Unit, k: Collected, e: Edge)
    requires Sound(u, k) && Visits(u, k.seen, e)
    ensures Sound(u, k.(nodes := k.nodes + [e.to], seen := k.seen + {e.to}))
  {
    hide Edges, NameOf, BaseOf, Reading, Visits, Needed;
    NeededEdge(u, k, e);
    var seen := k.seen + {e.to};
    forall d | d in k.dialects ensures exists e :: Visits(u, seen, e) && Reading(u, e) == d {
      var e :| Visits(u, k.seen, e) && Reading(u, e) == d;
      VisitsGrow(u, k.seen, seen, e);
    }
  }

  function Added(list: seq<string>, x: string): seq<string> {
    if x in list then list else list + [x]
  }

  lemma SoundBase(u: Unit, k: Collected, id: Id)
    requires Sound(u, k) && Obj(id) in k.seen
    ensures Sound(u, k.(bases := Added(k.bases, BaseOf(u, id))))
  {
    hide Edges, NameOf, BaseOf, Reading, Visits, Needed;
  }

  lemma SoundName(u: Unit, k: Collected, id: Id)
    requires Sound(u, k) && Obj(id) in k.seen && NameOf(u, id).Some?
    ensures Sound(u, k.(names := Added(k.names, NameOf(u, id).value)))
  {
    hide Edges, NameOf, BaseOf, Reading, Visits, Needed;
  }

  lemma ListingAdd(k: Collected, v: Value)
    requires Listing(k) && v !in k.seen
    ensures Listing(k.(nodes := k.nodes + [v], seen := k.seen + {v}))
  {
  }

  lemma ListingSameNodes(a: Collected, b: Collected)
    requires Listing(a) && a.nodes == b.nodes && a.seen == b.seen
    ensures Listing(b)
  {
  }

  lemma {:induction false} ChildEdgesEach(u: Unit, from: Id, entries: seq<Entry>)
    ensures var edges := ChildEdges(u, from, entries);
      |edges| == |entries| && forall k :: 0 <= k < |entries| ==> edges[k] == ChildEdge(u, from, entries[k])
  {
    hide ChildEdge;
    if entries != [] {
      ChildEdgesEach(u, from, entries[1..]);
    }
  }

  /** An object with anything to follow is one of the heap's. */
  lemma LeadingObjectInHeap(u: Unit, from: Id)
    ensures Edges(u, from) != [] ==> from < |u.c.heap|
  {
  }

  lemma RefEdgeVisits(u: Unit, s: set<Value>, from: Id, kind: RefKind, e: Edge)
    requires Obj(from) in s && e in RefEdges(u, from, kind)
    ensures Visits(u, s, e) && from < |u.c.heap|
  {
    hide RefEdges, ChildEdges;
    assert e in Edges(u, from) by {
      match kind
      case StaticRef =>
      case DynamicRef =>
    }
    LeadingObjectInHeap(u, from);
  }

  lemma ChildEdgeVisits(u: Unit, s: set<Value>, from: Id, k: nat)
    requires var kept := Kept(SchemaOf(u.c.heap, from), u.c.Suppress());
      Obj(from) in s && k < |kept|
    ensures Visits(u, s, ChildEdge(u, from, Kept(SchemaOf(u.c.heap, from), u.c.Suppress())[k])) && from < |u.c.heap|
  {
    hide RefEdges, ChildEdge;
    var kept := Kept(SchemaOf(u.c.heap, from), u.c.Suppress());
    ChildEdgesEach(u, from, kept);
    assert ChildEdges(u, from, kept)[k] in Edges(u, from);
    LeadingObjectInHeap(u, from);
  }

  lemma DoneFromParts(u: Unit, k: Collected, id: Id)
    requires forall e :: e in RefEdges(u, id, StaticRef) + RefEdges(u, id, DynamicRef) ==> Visited(u, k, e)
    requires var kept := Kept(SchemaOf(u.c.heap, id), u.c.Suppress());
      forall j :: 0 <= j < |kept| ==> Visited(u, k, ChildEdge(u, id, kept[j]))
    requires BaseOf(u, id) in k.bases && (NameOf(u, id).Some? ==> NameOf(u, id).value in k.names)
    ensures Done(u, k, id)
  {
    hide RefEdges, ChildEdge, Visited, NameOf, BaseOf;
    var kept := Kept(SchemaOf(u.c.heap, id), u.c.Suppress());
    ChildEdgesEach(u, id, kept);
  }

  lemma DoneSinceNothing(u: Unit, a: Collected, b: Collected, except: set<Value>)
    requires b.seen <= a.seen + except
    ensures DoneSince(u, a, b, except)
  {
  }

  lemma DoneSinceOther(u: Unit, a: Collected, b: Collected, v: Value)
    requires DoneSince(u, a, b, {v}) && v.Other?
    ensures DoneSince(u, a, b, {})
  {
    hide Done;
  }

  /** Learning a base or a name undoes nothing. */
  lemma DoneSinceSame(u: Unit, start: Collected, a: Collected, b: Collected, except: set<Value>)
    requires Grows(start, a) && DoneSince(u, start, a, except)
    requires b.nodes == a.nodes && b.seen == a.seen && a.bases <= b.bases && a.names <= b.names
      && b.dialects == a.dialects
    ensures DoneSince(u, start, b, except)
  {
    hide Done;
    DoneSinceNothing(u, a, b, {});
    DoneSinceGrows(u, start, a, b, except);
  }

  lemma PrefixMember(a: seq<string>, b: seq<string>, x: string)
    requires a <= b && x in a
    ensures x in b
  {
  }

  lemma RefsVisitedGrow(u: Unit, a: Collected, b: Collected, id: Id, kind: RefKind)
    requires Grows(a, b) && forall e :: e in RefEdges(u, id, kind) ==> Visited(u, a, e)
    ensures forall e :: e in RefEdges(u, id, kind) ==> Visited(u, b, e)
  {
    hide RefEdges, Reading;
  }

  lemma DoneSinceAll(u: Unit, a: Collected, b: Collected, id: Id)
    requires DoneSince(u, a, b, {Obj(id)}) && Done(u, b, id)
    ensures DoneSince(u, a, b, {})
  {
    hide Done;
  }

  /** Every binding of a known name in the first `n` known bases has been visited. */
  ghost predicate BindingsVisited(u: Unit, k: Collected, n: nat) {
    forall i, j :: 0 <= i < n && i < |k.bases| && 0 <= j < |k.names| ==> BindingVisited(u, k, i, j)
  }

  ghost predicate BindingVisited(u: Unit, k: Collected, i: nat, j: nat)
    requires i < |k.bases| && j < |k.names|
  {
    var bound := Bound(u, k.bases[i], k.names[j]);
    bound.Some? ==> Visited(u, k, Edge(Obj(bound.value), None))
  }

  ghost predicate RowVisited(u: Unit, k: Collected, i: nat, n: nat) {
    forall j :: 0 <= j < n && i < |k.bases| && j < |k.names| ==> BindingVisited(u, k, i, j)
  }

  lemma BindingVisits(u: Unit, k: Collected, i: nat, j: nat, id: Id)
    requires Sound(u, k) && i < |k.bases| && j < |k.names| && Bound(u, k.bases[i], k.names[j]) == Some(id)
    ensures Visits(u, k.seen, Edge(Obj(id), None))
  {
    hide Edges, NameOf, BaseOf, Reading, Bound, Needed;
    assert k.bases[i] in k.bases && k.names[j] in k.names;
    var holder: Id :| Obj(holder) in k.seen && BaseOf(u, holder) == k.bases[i];
    var user: Id :| Obj(user) in k.seen && NameOf(u, user) == Some(k.names[j]);
    assert Rebinds(u, k.seen, id);
  }

  const EMPTY_COLLECTED := Collected([], {}, [], [], {})

  /** What a finished collection is: the least closed set, with exactly the dialects it is read in. */
  lemma CollectedIsUnit(u: Unit, k: Collected)
    requires Sound(u, k) && DoneSince(u, EMPTY_COLLECTED, k, {})
    requires Visited(u, k, Edge(u.entry, u.pointer)) && BindingsVisited(u, k, |k.bases|)
    ensures IsUnit(u, k.seen)
    ensures forall d :: d in k.dialects <==> exists e :: Visits(u, k.seen, e) && Reading(u, e) == d
  {
    hide Edges, NameOf, BaseOf, Reading, Bound, Needed;
    assert forall id: Id :: Obj(id) in k.seen ==> Done(u, k, id);
    forall id: Id | Rebinds(u, k.seen, id) ensures Visited(u, k, Edge(Obj(id), None)) {
      var holder: Id, user: Id :| Obj(holder) in k.seen && Obj(user) in k.seen && NameOf(u, user).Some?
        && Bound(u, BaseOf(u, holder), NameOf(u, user).value) == Some(id);
      var i :| 0 <= i < |k.bases| && k.bases[i] == BaseOf(u, holder);
      var j :| 0 <= j < |k.names| && k.names[j] == NameOf(u, user).value;
      assert BindingVisited(u, k, i, j);
    }
    forall e | Visits(u, k.seen, e) ensures Reading(u, e) in k.dialects {
      assert Visited(u, k, e);
    }
  }

  /** There is one compile unit for an entry. */
  lemma UnitIsUnique(u: Unit, a: set<Value>, b: set<Value>)
    requires IsUnit(u, a) && IsUnit(u, b)
    ensures a == b
  {
    hide Closed;
    forall v ensures v in a <==> v in b {
      assert v in a ==> Needed(u, v);
      assert v in b ==> Needed(u, v);
    }
  }

  // ---- Every entry has a compile unit ----

  ghost function EdgeValues(u: Unit, n: nat): set<Value> {
    if n == 0 then {} else EdgeValues(u, n - 1) + set e | e in Edges(u, n - 1) :: e.to
  }

  lemma {:induction false} EdgeValuesMember(u: Unit, n: nat, id: Id, e: Edge)
    requires id < n && e in Edges(u, id)
    ensures e.to in EdgeValues(u, n)
  {
    hide Edges;
    if id < n - 1 {
      EdgeValuesMember(u, n - 1, id, e);
    }
  }

  /** Every value a unit around the entry could hold. */
  ghost function Everything(u: Unit): set<Value> {
    {u.entry} + (set id: Id | id in IdsBelow(|u.c.heap|) :: Obj(id)) + EdgeValues(u, |u.c.heap|)
  }

  lemma EverythingIsClosed(u: Unit)
    ensures Closed(u, Everything(u))
  {
    hide Edges, NameOf, BaseOf;
    forall id: Id, e | Obj(id) in Everything(u) && e in Edges(u, id) ensures e.to in Everything(u) {
      LeadingObjectInHeap(u, id);
      EdgeValuesMember(u, |u.c.heap|, id, e);
    }
  }

  lemma UnitExists(u: Unit) returns (s: set<Value>)
    ensures IsUnit(u, s)
  {
    hide Edges, NameOf, BaseOf, Bound, Everything, Closed;
    EverythingIsClosed(u);
    assert u.entry in Everything(u) by { EntryAmong(u); }
    s := set v | v in Everything(u) && Needed(u, v);
    assert Closed(u, s) by { NeededIsClosed(u, Everything(u), s); }
  }

  lemma EntryAmong(u: Unit)
    ensures u.entry in Everything(u)
  {
  }

  lemma NeededIsClosed(u: Unit, all: set<Value>, s: set<Value>)
    requires Closed(u, all) && u.entry in all && s == set v | v in all && Needed(u, v)
    ensures Closed(u, s)
  {
    hide Edges, NameOf, BaseOf, Bound;
    forall id: Id, e | Obj(id) in s && e in Edges(u, id) ensures e.to in s {
      assert Needed(u, Obj(id));
    }
    forall id: Id | Rebinds(u, s, id) ensures Obj(id) in s {
      var holder: Id, user: Id :| Obj(holder) in s && Obj(user) in s && NameOf(u, user).Some?
        && Bound(u, BaseOf(u, holder), NameOf(u, user).value) == Some(id);
      assert Needed(u, Obj(holder)) && Needed(u, Obj(user));
      forall large: set<Value> | u.entry in large && Closed(u, large) ensures Rebinds(u, large, id) {
        assert Obj(holder) in large && Obj(user) in large;
      }
    }
  }

  /** The compile unit of an entry. */
  ghost function UnitSet(u: Unit): (s: set<Value>)
    ensures IsUnit(u, s)
  {
    assert exists s: set<Value> :: IsUnit(u, s) by { var s := UnitExists(u); }
    var s: set<Value> :| IsUnit(u, s);
    s
  }

  lemma RowExtends(u: Unit, k: Collected, i: nat)
    requires BindingsVisited(u, k, i) && RowVisited(u, k, i, |k.names|)
    ensures BindingsVisited(u, k, i + 1)
  {
    hide BindingVisited;
  }

  lemma BindingsKept(u: Unit, a: Collected, b: Collected, i: nat, n: nat)
    requires a.bases == b.bases && a.names == b.names && Grows(a, b)
    requires BindingsVisited(u, a, i) && RowVisited(u, a, i, n)
    ensures BindingsVisited(u, b, i) && RowVisited(u, b, i, n)
  {
    hide Bound, Reading;
    forall x, y | 0 <= x < |b.bases| && 0 <= y < |b.names| && BindingVisited(u, a, x, y)
      ensures BindingVisited(u, b, x, y) {
    }
  }

  class ContextBuilder {
    const u: Unit
    var nodes: seq<Value>
    var seen: set<Value>
    var bases: seq<string>
    var names: seq<string>
    var dialects: set<Effective>

    ghost function Now(): Collected
      reads this
    {
      Collected(nodes, seen, bases, names, dialects)
    }

    constructor (u: Unit)
      ensures this.u == u && Now() == Collected([], {}, [], [], {})
    {
      this.u := u;
      nodes, seen, bases, names, dialects := [], {}, [], [], {};
    }

    /** Depth-first collection from one value; objects already on the way are left to finish on their own. */
    method Visit(node: Value, at: Option<string>)
      requires Sound(u, Now()) && Listing(Now()) && Visits(u, seen, Edge(node, at))
      modifies this
      ensures Sound(u, Now()) && Listing(Now()) && Grows(old(Now()), Now())
      ensures Visited(u, Now(), Edge(node, at))
      ensures DoneSince(u, old(Now()), Now(), {})
      ensures node !in old(seen) ==> |nodes| > |old(nodes)|
      ensures node in old(seen)
        ==> nodes == old(nodes) && bases == old(bases) && names == old(names) && seen == old(seen)
      decreases ToSee(u, Now()), 2
    {
      hide Sound, Listing, Visits, Done, Edges, NameOf, BaseOf, ToSee, Reading, DoneSince, RefEdges, ChildEdge, Kept;
      ghost var start := Now();
      SoundReading(u, Now(), Edge(node, at));
      ListingSameNodes(Now(), Now().(dialects := dialects + {Reading(u, Edge(node, at))}));
      dialects := dialects + {Reading(u, Edge(node, at))};
      if node in seen {
        DoneSinceNothing(u, start, Now(), {});
        return;
      }
      SoundNode(u, Now(), Edge(node, at));
      ListingAdd(Now(), node);
      seen := seen + {node};
      nodes := nodes + [node];
      if node.Other? {
        DoneSinceNothing(u, start, Now(), {node});
        DoneSinceOther(u, start, Now(), node);
        return;
      }
      DoneSinceNothing(u, start, Now(), {node});
      VisitObject(start, node.id);
    }

    /** Everything an object newly seen contributes: its base, its references and their name, its subschemas. */
    method VisitObject(ghost start: Collected, id: Id)
      requires Sound(u, Now()) && Listing(Now()) && Obj(id) in seen && Grows(start, Now())
      requires Obj(id) !in start.seen && DoneSince(u, start, Now(), {Obj(id)})
      modifies this
      ensures Sound(u, Now()) && Listing(Now()) && Grows(old(Now()), Now())
      ensures DoneSince(u, start, Now(), {})
      decreases ToSee(u, start), 1
    {
      hide Sound, Listing, Visits, Done, Edges, NameOf, BaseOf, ToSee, Reading, DoneSince, RefEdges, ChildEdge, Kept;
      ghost var before := Now();
      SoundBase(u, before, id);
      ListingSameNodes(before, before.(bases := Added(bases, BaseOf(u, id))));
      DoneSinceSame(u, start, before, before.(bases := Added(bases, BaseOf(u, id))), {Obj(id)});
      bases := Added(bases, BaseOf(u, id));
      ghost var k1 := Now();
      VisitRef(start, id, StaticRef);
      ghost var k2 := Now();
      VisitRef(start, id, DynamicRef);
      ghost var k3 := Now();
      if NameOf(u, id).Some? {
        SoundName(u, k3, id);
        ListingSameNodes(k3, k3.(names := Added(names, NameOf(u, id).value)));
        DoneSinceSame(u, start, k3, k3.(names := Added(names, NameOf(u, id).value)), {Obj(id)});
        names := Added(names, NameOf(u, id).value);
      }
      ghost var k4 := Now();
      VisitChildren(start, id);
      RefsVisitedGrow(u, k2, Now(), id, StaticRef);
      RefsVisitedGrow(u, k3, Now(), id, DynamicRef);
      PrefixMember(k1.bases, bases, BaseOf(u, id));
      if NameOf(u, id).Some? {
        PrefixMember(k4.names, names, NameOf(u, id).value);
      }
      DoneFromParts(u, Now(), id);
      DoneSinceAll(u, start, Now(), id);
    }

    /** Visit the kept subschemas of an object, in order. */
    method VisitChildren(ghost start: Collected, id: Id)
      requires Sound(u, Now()) && Listing(Now()) && Obj(id) in seen && Grows(start, Now())
      requires Obj(id) !in start.seen && DoneSince(u, start, Now(), {Obj(id)})
      modifies this
      ensures Sound(u, Now()) && Listing(Now()) && Grows(old(Now()), Now())
      ensures var kept := Kept(SchemaOf(u.c.heap, id), u.c.Suppress());
        forall j :: 0 <= j < |kept| ==> Visited(u, Now(), ChildEdge(u, id, kept[j]))
      ensures DoneSince(u, start, Now(), {Obj(id)})
      decreases ToSee(u, start), 0
    {
      hide Sound, Listing, Visits, Done, Edges, NameOf, BaseOf, ToSee, Reading, DoneSince, ChildEdge, Kept;
      var kept := Kept(SchemaOf(u.c.heap, id), u.c.Suppress());
      for k := 0 to |kept|
        invariant Sound(u, Now()) && Listing(Now()) && Grows(old(Now()), Now())
        invariant DoneSince(u, start, Now(), {Obj(id)})
        invariant forall j :: 0 <= j < k ==> Visited(u, Now(), ChildEdge(u, id, kept[j]))
      {
        ghost var before := Now();
        var e := ChildEdge(u, id, kept[k]);
        ChildEdgeVisits(u, seen, id, k);
        ToSeeShrinks(u, start, Now());
        Visit(e.to, e.at);
        DoneSinceGrows(u, start, before, Now(), {Obj(id)});
      }
    }

    /** Visit what one reference of an object resolves to, if it resolves. */
    method VisitRef(ghost start: Collected, id: Id, kind: RefKind)
      requires Sound(u, Now()) && Listing(Now()) && Obj(id) in seen && Grows(start, Now())
      requires Obj(id) !in start.seen && DoneSince(u, start, Now(), {Obj(id)})
      modifies this
      ensures Sound(u, Now()) && Listing(Now()) && Grows(old(Now()), Now())
      ensures forall e :: e in RefEdges(u, id, kind) ==> Visited(u, Now(), e)
      ensures DoneSince(u, start, Now(), {Obj(id)})
      decreases ToSee(u, start), 0
    {
      hide Sound, Listing, Visits, Done, Edges, NameOf, BaseOf, ToSee, Reading, DoneSince, Follow;
      ghost var before := Now();
      var followed := Follow(u.c, u.refs, u.scope, u.t, id, kind);
      if followed.Some? {
        var e := Edge(followed.value.target, followed.value.pointer);
        RefEdgeVisits(u, seen, id, kind, e);
        ToSeeShrinks(u, start, Now());
        Visit(e.to, e.at);
        DoneSinceGrows(u, start, before, Now(), {Obj(id)});
      }
    }

    /** Visit the binding of every known name in every known base, including those found on the way. */
    method RebindPass()
      requires Sound(u, Now()) && Listing(Now()) && DoneSince(u, EMPTY_COLLECTED, Now(), {})
      modifies this
      ensures Sound(u, Now()) && Listing(Now()) && DoneSince(u, EMPTY_COLLECTED, Now(), {}) && Grows(old(Now()), Now())
      ensures |nodes| == |old(nodes)| ==> BindingsVisited(u, Now(), |bases|)
      ensures |nodes| != |old(nodes)| ==> ToSee(u, Now()) < ToSee(u, old(Now()))
    {
      hide Sound, Listing, Visits, Done, ToSee, Reading, DoneSince, BindingsVisited, RowVisited, BindingVisited, Bound;
      ghost var start := Now();
      BindingsStart(u, start);
      var i := 0;
      while i < |bases|
        invariant Sound(u, Now()) && Listing(Now()) && DoneSince(u, EMPTY_COLLECTED, Now(), {}) && Grows(start, Now())
        invariant |nodes| == |start.nodes| ==> bases == start.bases && names == start.names
        invariant |nodes| == |start.nodes| ==> BindingsVisited(u, Now(), i)
        invariant |nodes| != |start.nodes| ==> ToSee(u, Now()) < ToSee(u, start)
        invariant i <= |bases|
        decreases ToSee(u, Now()), |bases| - i
      {
        ghost var row := Now();
        RowStart(u, row, i);
        var j := 0;
        while j < |names|
          invariant Sound(u, Now()) && Listing(Now()) && DoneSince(u, EMPTY_COLLECTED, Now(), {}) && Grows(row, Now())
          invariant |nodes| == |row.nodes| ==> bases == row.bases && names == row.names
          invariant |nodes| == |row.nodes| == |start.nodes|
            ==> BindingsVisited(u, Now(), i) && RowVisited(u, Now(), i, j)
          invariant |nodes| != |row.nodes| ==> ToSee(u, Now()) < ToSee(u, row)
          invariant j <= |names|
          decreases ToSee(u, Now()), |names| - j
        {
          RebindOne(i, j, start);
          j := j + 1;
        }
        if |nodes| == |start.nodes| {
          RowExtends(u, Now(), i);
        }
        ToSeeShrinks(u, row, Now());
        i := i + 1;
      }
    }

    /** Visit one binding. A binding to an object not seen before brings the end nearer. */
    method RebindOne(i: nat, j: nat, ghost start: Collected)
      requires Sound(u, Now()) && Listing(Now()) && DoneSince(u, EMPTY_COLLECTED, Now(), {})
      requires i < |bases| && j < |names|
      requires |nodes| == |start.nodes| ==> BindingsVisited(u, Now(), i) && RowVisited(u, Now(), i, j)
      modifies this
      ensures Sound(u, Now()) && Listing(Now()) && DoneSince(u, EMPTY_COLLECTED, Now(), {}) && Grows(old(Now()), Now())
      ensures |nodes| == |old(nodes)| ==> bases == old(bases) && names == old(names)
      ensures |nodes| == |old(nodes)| == |start.nodes|
        ==> BindingsVisited(u, Now(), i) && RowVisited(u, Now(), i, j + 1)
      ensures ToSee(u, Now()) <= ToSee(u, old(Now()))
      ensures |nodes| != |old(nodes)| ==> ToSee(u, Now()) < ToSee(u, old(Now()))
    {
      hide Sound, Listing, Visits, Done, ToSee, Reading, DoneSince, BindingsVisited, RowVisited, BindingVisited;
      ghost var before := Now();
      var bound := Bound(u, bases[i], names[j]);
      if bound.Some? {
        BindingVisits(u, before, i, j, bound.value);
        Visit(Obj(bound.value), None);
        DoneSinceGrows(u, EMPTY_COLLECTED, before, Now(), {});
      }
      ToSeeShrinks(u, before, Now());
      if |nodes| == |before.nodes| == |start.nodes| {
        BindingsKept(u, before, Now(), i, j);
        RowNext(u, Now(), i, j);
      }
    }

    /**
     * Collect the unit: the entry's closure under subschemas, references and rebindings,
     * each value listed once, with exactly the dialects its members are read in.
     */
    method Collect()
      requires Now() == EMPTY_COLLECTED
      modifies this
      ensures IsUnit(u, seen)
      ensures forall v :: v in nodes <==> v in seen
      ensures forall i, j :: 0 <= i < j < |nodes| ==> nodes[i] != nodes[j]
      ensures forall d :: d in dialects <==> exists e :: Visits(u, seen, e) && Reading(u, e) == d
      ensures Sound(u, Now()) && BindingsVisited(u, Now(), |bases|) && DoneSince(u, EMPTY_COLLECTED, Now(), {})
    {
      hide Sound, Visits, Done, ToSee, Reading, DoneSince, BindingsVisited, BindingVisited, IsUnit;
      CollectionStarts(u);
      Visit(u.entry, u.pointer);
      ghost var entered := Now();
      var previous := -1;
      while previous != |nodes|
        invariant Sound(u, Now()) && Listing(Now()) && DoneSince(u, EMPTY_COLLECTED, Now(), {})
        invariant Visited(u, Now(), Edge(u.entry, u.pointer))
        invariant previous == |nodes| ==> BindingsVisited(u, Now(), |bases|)
        decreases ToSee(u, Now()), if previous != |nodes| then 1 else 0
      {
        previous := |nodes|;
        ghost var before := Now();
        RebindPass();
        ToSeeShrinks(u, before, Now());
      }
      CollectedIsUnit(u, Now());
    }

    /**
     * Every schema a `$dynamicRef` of the unit could land on: its own target, and the
     * binding of the name it uses in each resource of the unit. All of them are in the unit.
     */
    method DynamicTargets(from: Id) returns (targets: set<Value>)
      requires IsUnit(u, seen) && Sound(u, Now()) && DoneSince(u, EMPTY_COLLECTED, Now(), {})
      requires Obj(from) in seen && Follow(u.c, u.refs, u.scope, u.t, from, DynamicRef).Some?
      ensures forall v :: v in targets <==> CanLandOn(u, seen, from, v)
      ensures targets <= seen
    {
      hide Edges, NameOf, BaseOf, Reading, Bound, Needed, Follow, IsUnit, Sound, DoneSince;
      targets := {Follow(u.c, u.refs, u.scope, u.t, from, DynamicRef).value.target};
      var name := NameOf(u, from);
      if name.Some? {
        for i := 0 to |bases|
          invariant targets == {Follow(u.c, u.refs, u.scope, u.t, from, DynamicRef).value.target}
            + BoundIn(u, bases[..i], name.value)
        {
          BoundInSnoc(u, bases[..i], bases[i], name.value);
          assert bases[..i + 1] == bases[..i] + [bases[i]];
          if Bound(u, bases[i], name.value).Some? {
            targets := targets + {Obj(Bound(u, bases[i], name.value).value)};
          }
        }
        assert bases[..|bases|] == bases;
        BoundInIsRebinding(u, Now(), from);
      }
      forall v | v in targets ensures v in seen {
        LandsInUnit(u, seen, from, v);
      }
    }
  }

  /** A schema one of the unit's dynamic references can land on (section 8.2.3.2 of JSON Schema Core 2020-12). */
  ghost predicate CanLandOn(u: Unit, s: set<Value>, from: Id, v: Value)
    requires Follow(u.c, u.refs, u.scope, u.t, from, DynamicRef).Some?
  {
    || v == Follow(u.c, u.refs, u.scope, u.t, from, DynamicRef).value.target
    || (NameOf(u, from).Some? && BoundSomewhere(u, s, NameOf(u, from).value, v))
  }

  /** Some resource of the set binds the name to the value. */
  ghost predicate BoundSomewhere(u: Unit, s: set<Value>, name: string, v: Value) {
    exists holder: Id :: Obj(holder) in s && BindsTo(u, BaseOf(u, holder), name, v)
  }

  predicate BindsTo(u: Unit, base: string, name: string, v: Value) {
    var bound := Bound(u, base, name);
    bound.Some? && v == Obj(bound.value)
  }

  /** Nothing a dynamic reference of the unit can land on lies outside the unit. */
  lemma LandsInUnit(u: Unit, s: set<Value>, from: Id, v: Value)
    requires IsUnit(u, s) && Obj(from) in s && Follow(u.c, u.refs, u.scope, u.t, from, DynamicRef).Some?
    requires CanLandOn(u, s, from, v)
    ensures v in s
  {
    hide Edges, NameOf, BaseOf, Bound, Needed, Follow;
    if v == Follow(u.c, u.refs, u.scope, u.t, from, DynamicRef).value.target {
      FollowedIsEdge(u, from);
    } else {
      var holder: Id :| Obj(holder) in s && BindsTo(u, BaseOf(u, holder), NameOf(u, from).value, v);
      assert Rebinds(u, s, v.id);
    }
  }

  function BoundIn(u: Unit, bases: seq<string>, name: string): set<Value> {
    if bases == [] then {}
    else if Bound(u, bases[0], name).Some? then {Obj(Bound(u, bases[0], name).value)} + BoundIn(u, bases[1..], name)
    else BoundIn(u, bases[1..], name)
  }

  lemma {:induction false} BoundInMember(u: Unit, bases: seq<string>, name: string, v: Value)
    ensures v in BoundIn(u, bases, name) <==> exists b :: b in bases && BindsTo(u, b, name, v)
  {
    hide Bound;
    if bases != [] {
      BoundInMember(u, bases[1..], name, v);
      assert bases == [bases[0]] + bases[1..];
      if v in BoundIn(u, bases, name) {
        if v !in BoundIn(u, bases[1..], name) {
          assert bases[0] in bases && BindsTo(u, bases[0], name, v);
        } else {
          var b :| b in bases[1..] && BindsTo(u, b, name, v);
          assert b in bases;
        }
      }
    }
  }

  lemma {:induction false} BoundInSnoc(u: Unit, bases: seq<string>, b: string, name: string)
    ensures BoundIn(u, bases + [b], name)
         == BoundIn(u, bases, name) + if Bound(u, b, name).Some? then {Obj(Bound(u, b, name).value)} else {}
  {
    hide Bound;
    if bases == [] {
      assert bases + [b] == [b] && [b][1..] == [];
    } else {
      assert (bases + [b])[1..] == bases[1..] + [b] && (bases + [b])[0] == bases[0];
      BoundInSnoc(u, bases[1..], b, name);
    }
  }

  lemma BoundInIsRebinding(u: Unit, k: Collected, from: Id)
    requires Sound(u, k) && DoneSince(u, EMPTY_COLLECTED, k, {})
    requires NameOf(u, from).Some? && Follow(u.c, u.refs, u.scope, u.t, from, DynamicRef).Some?
    ensures var target := Follow(u.c, u.refs, u.scope, u.t, from, DynamicRef).value.target;
      forall v :: v in {target} + BoundIn(u, k.bases, NameOf(u, from).value) <==> CanLandOn(u, k.seen, from, v)
  {
    hide Edges, NameOf, BaseOf, Reading, Bound, Needed, Follow, Visits, BindsTo;
    var name := NameOf(u, from).value;
    forall v ensures v in BoundIn(u, k.bases, name) <==> BoundSomewhere(u, k.seen, name, v) {
      BoundInMember(u, k.bases, name, v);
      if holder: Id :| Obj(holder) in k.seen && BindsTo(u, BaseOf(u, holder), name, v) {
        assert Done(u, k, holder);
      }
    }
  }

  lemma FollowedIsEdge(u: Unit, from: Id)
    requires Follow(u.c, u.refs, u.scope, u.t, from, DynamicRef).Some?
    ensures exists e :: e in Edges(u, from) && e.to == Follow(u.c, u.refs, u.scope, u.t, from, DynamicRef).value.target
  {
    hide ChildEdges, Follow;
    var followed := Follow(u.c, u.refs, u.scope, u.t, from, DynamicRef).value;
    assert Edge(followed.target, followed.pointer) in Edges(u, from);
  }

  lemma CollectionStarts(u: Unit)
    ensures Sound(u, EMPTY_COLLECTED) && Listing(EMPTY_COLLECTED) && Visits(u, {}, Edge(u.entry, u.pointer))
  {
  }

  lemma BindingsStart(u: Unit, k: Collected)
    ensures BindingsVisited(u, k, 0)
  {
  }

  lemma RowStart(u: Unit, k: Collected, i: nat)
    ensures RowVisited(u, k, i, 0)
  {
  }

  lemma RowNext(u: Unit, k: Collected, i: nat, j: nat)
    requires i < |k.bases| && j < |k.names| && RowVisited(u, k, i, j)
    requires Bound(u, k.bases[i], k.names[j]).Some?
      ==> Visited(u, k, Edge(Obj(Bound(u, k.bases[i], k.names[j]).value), None))
    ensures RowVisited(u, k, i, j + 1)
  {
    hide Bound, Visited;
  }
}

/**
 * Compile units and dynamic references, said from the schemas' own text.
 *
 * A `$dynamicRef` whose fragment is a plain name is rebound in every resource of the unit
 * when its own target carries that name as a dynamic anchor (section 8.2.3.2 of JSON
 * Schema Core 2020-12); any other lands on its target alone.
 */
module DynamicScope {
  import opened Options
  import opened SchemaHeap
  import opened Dialects
  import opened References
  import opened SchemaFields
  import opened CompileContext
  import opened Preparation

  // ---- The name a reference uses ----

  lemma {:induction false} AfterHashIs(uri: string, name: string)
    requires '#' !in uri
    ensures AfterHash(uri + "#" + name) == name
    decreases |uri|
  {
    if uri == "" {
      assert (uri + "#" + name)[1..] == name;
    } else {
      assert (uri + "#" + name)[1..] == uri[1..] + "#" + name;
      AfterHashIs(uri[1..], name);
    }
  }

  lemma {:induction false} NoHashNoName(ref: string)
    requires '#' !in ref
    ensures AfterHash(ref) == ""
  {
    if ref != "" {
      NoHashNoName(ref[1..]);
    }
  }

  /** A name a dynamic anchor can have: not empty, and no pointer. */
  predicate IsPlainName(name: string) {
    name != "" && name[0] != '/'
  }

  /** The reference uses the name: it is its fragment, and the target has it as its dynamic anchor. */
  ghost predicate UsesName(c: Config, ref: string, target: Value, name: string) {
    && IsPlainName(name)
    && (exists uri :: '#' !in uri && ref == uri + "#" + name)
    && target.Obj? && SchemaOf(c.heap, target.id).dynamicAnchor == Some(name)
  }

  lemma {:induction false} HashSplits(ref: string) returns (uri: string)
    requires '#' in ref
    ensures '#' !in uri && ref == uri + "#" + AfterHash(ref)
  {
    if ref[0] == '#' {
      uri := "";
    } else {
      var rest := HashSplits(ref[1..]);
      uri := [ref[0]] + rest;
      assert ref == [ref[0]] + ref[1..];
    }
  }

  lemma NameExactly(c: Config, ref: string, target: Value, name: string)
    ensures DynamicNameAt(c, ref, target) == Some(name) <==> UsesName(c, ref, target, name)
  {
    if UsesName(c, ref, target, name) {
      var uri :| '#' !in uri && ref == uri + "#" + name;
      AfterHashIs(uri, name);
    }
    if DynamicNameAt(c, ref, target) == Some(name) {
      if '#' in ref {
        var uri := HashSplits(ref);
      } else {
        NoHashNoName(ref);
      }
    }
  }

  /** The object's `$dynamicRef` counts, resolves, and uses the name. */
  ghost predicate Names(u: Unit, user: Id, name: string) {
    exists ref, target ::
      Writes(u.c, user, DynamicRef, ref) && Resolves(u.c, u.refs, u.scope, ref, user, target)
      && UsesName(u.c, ref, target, name)
  }

  lemma NamesExactly(u: Unit, user: Id, name: string)
    ensures NameOf(u, user) == Some(name) <==> Names(u, user, name)
  {
    hide RefPointer, DynamicNameAt, UsesName, Resolves;
    var s := SchemaOf(u.c.heap, user);
    match RefOf(s, DynamicRef, u.c.Suppress())
    case None =>
    case Some(ref) =>
      FollowedExactly(u.c, user, DynamicRef, ref);
      match Target(u.c, u.refs, u.scope, ref, user)
      case None =>
        forall target ensures !Resolves(u.c, u.refs, u.scope, ref, user, target) {
          ResolvesExactly(u.c, u.refs, u.scope, ref, user, target);
        }
      case Some(target) =>
        ResolvesExactly(u.c, u.refs, u.scope, ref, user, target);
        NameExactly(u.c, ref, target, name);
        forall other | Resolves(u.c, u.refs, u.scope, ref, user, other) ensures other == target {
          ResolvesExactly(u.c, u.refs, u.scope, ref, user, other);
        }
  }

  /** The resource of the holder binds the name to an object of the document. */
  predicate HoldsBinding(u: Unit, holder: Id, name: string, id: Id) {
    u.refs.dynamicAnchor(u.scope, u.refs.base(u.scope, holder), name) == Some(id) && id < |u.c.heap|
  }

  // ---- What a dynamic reference can land on ----

  /**
   * What the targets returned for a dynamic reference are: its own target, and when it
   * uses a name, every object some resource of the unit binds the name to.
   */
  lemma LandsOnExactly(u: Unit, s: set<Value>, from: Id, v: Value)
    requires Follow(u.c, u.refs, u.scope, u.t, from, DynamicRef).Some?
    ensures CanLandOn(u, s, from, v) <==>
      || v == Follow(u.c, u.refs, u.scope, u.t, from, DynamicRef).value.target
      || exists name, holder: Id, id: Id ::
           Names(u, from, name) && Obj(holder) in s && HoldsBinding(u, holder, name, id) && v == Obj(id)
  {
    hide Follow, NameOf, Names;
    var target := Follow(u.c, u.refs, u.scope, u.t, from, DynamicRef).value.target;
    if CanLandOn(u, s, from, v) && v != target {
      var name := NameOf(u, from).value;
      NamesExactly(u, from, name);
      var holder: Id :| Obj(holder) in s && BindsTo(u, BaseOf(u, holder), name, v);
      assert HoldsBinding(u, holder, name, v.id);
    }
    if name, holder: Id, id: Id :|
      Names(u, from, name) && Obj(holder) in s && HoldsBinding(u, holder, name, id) && v == Obj(id) {
      NamesExactly(u, from, name);
      assert BindsTo(u, BaseOf(u, holder), name, v);
    }
  }

  /** Spelled out: the reference's fragment is a plain name, and the target has it as its dynamic anchor. */
  lemma NamedReferenceIsRebound(u: Unit, s: set<Value>, from: Id, uri: string, name: string, v: Value)
    requires Writes(u.c, from, DynamicRef, uri + "#" + name) && '#' !in uri
    requires Follow(u.c, u.refs, u.scope, u.t, from, DynamicRef).Some?
    ensures var target := Follow(u.c, u.refs, u.scope, u.t, from, DynamicRef).value.target;
      CanLandOn(u, s, from, v) <==>
        || v == target
        || (IsPlainName(name) && target.Obj? && SchemaOf(u.c.heap, target.id).dynamicAnchor == Some(name)
            && exists holder: Id, id: Id :: Obj(holder) in s && HoldsBinding(u, holder, name, id) && v == Obj(id))
  {
    hide HoldsBinding, Target, RefPointer, AfterHash;
    AfterHashIs(uri, name);
    FollowedExactly(u.c, from, DynamicRef, uri + "#" + name);
    if CanLandOn(u, s, from, v) && v != Follow(u.c, u.refs, u.scope, u.t, from, DynamicRef).value.target {
      var holder: Id :| Obj(holder) in s && BindsTo(u, BaseOf(u, holder), name, v);
      assert HoldsBinding(u, holder, name, v.id) by { BindingIs(u, holder, name, v.id); }
    }
    if holder: Id, id: Id :| Obj(holder) in s && HoldsBinding(u, holder, name, id) && v == Obj(id) {
      BindingIs(u, holder, name, id);
    }
  }

  lemma BindingIs(u: Unit, holder: Id, name: string, id: Id)
    ensures BindsTo(u, BaseOf(u, holder), name, Obj(id)) <==> HoldsBinding(u, holder, name, id)
  {
  }

  /** A reference without a hash lands on its target alone. */
  lemma NamelessReferenceStays(u: Unit, s: set<Value>, from: Id, ref: string, v: Value)
    requires Writes(u.c, from, DynamicRef, ref) && '#' !in ref
    requires Follow(u.c, u.refs, u.scope, u.t, from, DynamicRef).Some?
    ensures CanLandOn(u, s, from, v) <==> v == Follow(u.c, u.refs, u.scope, u.t, from, DynamicRef).value.target
  {
    hide Target, RefPointer, AfterHash;
    NoHashNoName(ref);
    FollowedExactly(u.c, from, DynamicRef, ref);
  }

  // ---- What a unit holds ----

  /** A name some object of the set uses, bound to the object in the resource of some object of the set. */
  ghost predicate IsRebound(u: Unit, s: iset<Value>, id: Id) {
    exists user: Id, holder: Id, name ::
      Obj(user) in s && Obj(holder) in s && Names(u, user, name) && HoldsBinding(u, holder, name, id)
  }

  /** The set holds the entry, what its objects lead to, and every rebinding inside it. */
  ghost predicate HoldsUnit(u: Unit, s: iset<Value>) {
    && u.entry in s
    && (forall from: Id, v :: Obj(from) in s && LeadsTo(u.c, u.refs, u.scope, from, v) ==> v in s)
    && (forall id: Id :: IsRebound(u, s, id) ==> Obj(id) in s)
  }

  /** A subschema that counts, visited at its own pointer where its parent's is known. */
  ghost predicate IsChildVisit(u: Unit, from: Id, e: Edge) {
    exists entry :: VisitsEntry(u, from, entry, e)
  }

  predicate VisitsEntry(u: Unit, from: Id, entry: Entry, e: Edge) {
    && entry in SchemaOf(u.c.heap, from).entries && !Drops(u.c, SchemaOf(u.c.heap, from), entry.key)
    && e.to == entry.value
    && e.at == if from in u.t.nodes then Some(ChildPointer(u.t.nodes[from].pointer, entry)) else None
  }

  /** The target of a reference, visited where the reference lands. */
  ghost predicate IsTargetVisit(u: Unit, from: Id, e: Edge) {
    exists kind, ref ::
      Writes(u.c, from, kind, ref) && Resolves(u.c, u.refs, u.scope, ref, from, e.to)
      && e.at == RefPointer(u.refs, u.scope, u.t, ref, from, e.to)
  }

  lemma TargetVisitExactly(u: Unit, from: Id, e: Edge)
    ensures (exists kind :: e in RefEdges(u, from, kind)) <==> IsTargetVisit(u, from, e)
  {
    hide Follow, RefPointer, Writes, Resolves;
    forall kind ensures e in RefEdges(u, from, kind)
      <==> exists ref :: Writes(u.c, from, kind, ref) && Resolves(u.c, u.refs, u.scope, ref, from, e.to)
             && e.at == RefPointer(u.refs, u.scope, u.t, ref, from, e.to)
    {
      FollowExactly(u.c, u.refs, u.scope, u.t, from, kind, Followed(e.to, e.at));
      RefEdgeIs(u, from, kind, e);
    }
    if kind :| e in RefEdges(u, from, kind) {
      var ref :| Writes(u.c, from, kind, ref) && Resolves(u.c, u.refs, u.scope, ref, from, e.to)
        && e.at == RefPointer(u.refs, u.scope, u.t, ref, from, e.to);
    }
    if IsTargetVisit(u, from, e) {
      var kind, ref :| Writes(u.c, from, kind, ref) && Resolves(u.c, u.refs, u.scope, ref, from, e.to)
        && e.at == RefPointer(u.refs, u.scope, u.t, ref, from, e.to);
      assert e in RefEdges(u, from, kind);
    }
  }

  lemma RefEdgeIs(u: Unit, from: Id, kind: RefKind, e: Edge)
    ensures e in RefEdges(u, from, kind)
      <==> Follow(u.c, u.refs, u.scope, u.t, from, kind) == Some(Followed(e.to, e.at))
  {
    hide Follow;
  }

  lemma ChildVisitExactly(u: Unit, from: Id, e: Edge)
    ensures e in ChildEdges(u, from, Kept(SchemaOf(u.c.heap, from), u.c.Suppress())) <==> IsChildVisit(u, from, e)
  {
    hide ChildPointer;
    var s := SchemaOf(u.c.heap, from);
    var kept := Kept(s, u.c.Suppress());
    ChildEdgesEach(u, from, kept);
    KeptFromExactly(s, u.c.Suppress(), s.entries);
    if e in ChildEdges(u, from, kept) {
      var k :| 0 <= k < |kept| && ChildEdges(u, from, kept)[k] == e;
      assert kept[k] in kept;
      assert VisitsEntry(u, from, kept[k], e);
    }
    if entry :| VisitsEntry(u, from, entry, e) {
      assert entry in kept;
      var k :| 0 <= k < |kept| && kept[k] == entry;
      assert ChildEdges(u, from, kept)[k] == e;
    }
  }

  lemma EdgesExactly(u: Unit, from: Id, e: Edge)
    ensures e in Edges(u, from) <==> IsChildVisit(u, from, e) || IsTargetVisit(u, from, e)
  {
    hide IsChildVisit, IsTargetVisit, RefEdges, ChildEdges;
    ChildVisitExactly(u, from, e);
    TargetVisitExactly(u, from, e);
    if kind :| e in RefEdges(u, from, kind) {
      match kind
      case StaticRef =>
      case DynamicRef =>
    }
  }

  lemma LeadsByEdge(u: Unit, from: Id, v: Value)
    ensures LeadsTo(u.c, u.refs, u.scope, from, v) <==> exists e :: e in Edges(u, from) && e.to == v
  {
    hide Edges, RefPointer, Writes, Resolves, ChildPointer;
    forall e ensures e in Edges(u, from) <==> IsChildVisit(u, from, e) || IsTargetVisit(u, from, e) {
      EdgesExactly(u, from, e);
    }
    if IsBelow(u.c, from, v) {
      var entry :| entry in SchemaOf(u.c.heap, from).entries && !Drops(u.c, SchemaOf(u.c.heap, from), entry.key)
        && entry.value == v;
      var e := Edge(v, if from in u.t.nodes then Some(ChildPointer(u.t.nodes[from].pointer, entry)) else None);
      assert VisitsEntry(u, from, entry, e);
    }
    if kind, ref :| Writes(u.c, from, kind, ref) && Resolves(u.c, u.refs, u.scope, ref, from, v) {
      assert IsTargetVisit(u, from, Edge(v, RefPointer(u.refs, u.scope, u.t, ref, from, v)));
    }
  }

  lemma ReboundExactly(u: Unit, a: set<Value>, s: iset<Value>, id: Id)
    requires forall v :: v in a <==> v in s
    ensures Rebinds(u, a, id) <==> IsRebound(u, s, id)
  {
    hide NameOf, Names;
    if Rebinds(u, a, id) {
      var holder: Id, user: Id :| Obj(holder) in a && Obj(user) in a && NameOf(u, user).Some?
        && Bound(u, BaseOf(u, holder), NameOf(u, user).value) == Some(id);
      NamesExactly(u, user, NameOf(u, user).value);
      assert HoldsBinding(u, holder, NameOf(u, user).value, id);
    }
    if user: Id, holder: Id, name :|
      Obj(user) in s && Obj(holder) in s && Names(u, user, name) && HoldsBinding(u, holder, name, id)
    {
      NamesExactly(u, user, name);
      assert Bound(u, BaseOf(u, holder), NameOf(u, user).value) == Some(id);
    }
  }

  lemma ClosedExactly(u: Unit, a: set<Value>, s: iset<Value>)
    requires forall v :: v in a <==> v in s
    ensures u.entry in a && Closed(u, a) <==> HoldsUnit(u, s)
  {
    hide Edges, Rebinds, IsRebound, LeadsTo;
    forall id: Id ensures Rebinds(u, a, id) <==> IsRebound(u, s, id) {
      ReboundExactly(u, a, s, id);
    }
    forall from: Id, v
      ensures LeadsTo(u.c, u.refs, u.scope, from, v) <==> exists e :: e in Edges(u, from) && e.to == v {
      LeadsByEdge(u, from, v);
    }
  }

  ghost function UnitValues(u: Unit): iset<Value> {
    iset x | x in UnitSet(u)
  }

  /** The part of a unit that lies in a set holding it is the whole unit. */
  lemma UnitHeld(u: Unit, s: iset<Value>, v: Value)
    requires HoldsUnit(u, s) && v in UnitSet(u)
    ensures v in s
  {
    hide LeadsTo, IsRebound;
    var part := set x | x in UnitSet(u) && x in s;
    var both := iset x | x in part;
    ClosedExactly(u, UnitSet(u), UnitValues(u));
    PartHolds(u, s, both);
    ClosedExactly(u, part, both);
    assert Needed(u, v);
  }

  lemma PartHolds(u: Unit, s: iset<Value>, both: iset<Value>)
    requires HoldsUnit(u, s) && HoldsUnit(u, UnitValues(u))
    requires both == iset x | x in UnitSet(u) && x in s
    ensures HoldsUnit(u, both)
  {
    hide LeadsTo, UnitSet, Names, HoldsBinding;
    var all := UnitValues(u);
    forall id: Id | IsRebound(u, both, id) ensures Obj(id) in both {
      assert IsRebound(u, s, id) && IsRebound(u, all, id);
    }
  }

  /**
   * A compile unit, said from the schemas' text: what every set holds that holds the
   * entry, what its objects lead to, and the objects their dynamic names are bound to.
   */
  lemma UnitExactly(u: Unit, v: Value)
    ensures v in UnitSet(u) <==> forall s: iset<Value> :: HoldsUnit(u, s) ==> v in s
  {
    hide HoldsUnit, UnitSet;
    var all := UnitValues(u);
    ClosedExactly(u, UnitSet(u), all);
    assert u.entry in UnitSet(u) && Closed(u, UnitSet(u));
    if v in UnitSet(u) {
      forall s: iset<Value> | HoldsUnit(u, s) ensures v in s {
        UnitHeld(u, s, v);
      }
    }
  }

  /** The visits a unit makes, each with the pointer it is made at. */
  lemma VisitsExactly(u: Unit, e: Edge)
    ensures Reaches(u, e) <==>
      || e == Edge(u.entry, u.pointer)
      || (exists from: Id :: Obj(from) in UnitSet(u) && (IsChildVisit(u, from, e) || IsTargetVisit(u, from, e)))
      || (exists id: Id :: IsRebound(u, UnitValues(u), id) && e == Edge(Obj(id), None))
  {
    hide Edges, Rebinds, IsRebound, IsChildVisit, IsTargetVisit, UnitSet;
    forall id: Id ensures Rebinds(u, UnitSet(u), id) <==> IsRebound(u, UnitValues(u), id) {
      ReboundExactly(u, UnitSet(u), UnitValues(u), id);
    }
    forall from: Id ensures e in Edges(u, from) <==> IsChildVisit(u, from, e) || IsTargetVisit(u, from, e) {
      EdgesExactly(u, from, e);
    }
  }
}

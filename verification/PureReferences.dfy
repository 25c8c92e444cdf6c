/**
 * The compile unit of a schema that is nothing but a reference: itself, and its target's unit.
 */
module PureReferences {
  import opened Options
  import opened SchemaHeap
  import opened References
  import opened CompileContext

  /** What an object holding `$ref` and no other key looks like. */
  function PureSchema(ref: string): Schema {
    Schema(None, None, RefField.Text(ref), Absent, None, [])
  }

  /** No resource binds any dynamic name. */
  ghost predicate NothingBound(refs: Resolver, scope: Scope) {
    forall base, name :: refs.dynamicAnchor(scope, base, name).None?
  }

  lemma {:induction false} ChildEdgesSame(u: Unit, v: Unit, from: Id, entries: seq<Entry>)
    requires v == u.(entry := v.entry, pointer := v.pointer)
    ensures ChildEdges(u, from, entries) == ChildEdges(v, from, entries)
  {
    if entries != [] {
      ChildEdgesSame(u, v, from, entries[1..]);
    }
  }

  /** Whether a set is closed does not depend on the entry. */
  lemma ClosedSame(u: Unit, v: Unit, s: set<Value>)
    requires v == u.(entry := v.entry, pointer := v.pointer) && Closed(u, s)
    ensures Closed(v, s)
  {
    hide ChildEdges, Follow, DynamicNameAt;
    forall id: Id, e | Obj(id) in s && e in Edges(v, id) ensures e.to in s {
      ChildEdgesSame(u, v, id, Kept(SchemaOf(u.c.heap, id), u.c.Suppress()));
      assert e in Edges(u, id);
    }
    forall id: Id | Rebinds(v, s, id) ensures Obj(id) in s {
      RebindsSame(u, v, s, id);
    }
  }

  lemma RebindsSame(u: Unit, v: Unit, s: set<Value>, id: Id)
    requires v == u.(entry := v.entry, pointer := v.pointer) && Rebinds(v, s, id)
    ensures Rebinds(u, s, id)
  {
    hide Follow, DynamicNameAt;
    var holder: Id, user: Id :| Obj(holder) in s && Obj(user) in s && NameOf(v, user).Some?
      && Bound(v, BaseOf(v, holder), NameOf(v, user).value) == Some(id);
    assert NameOf(u, user) == NameOf(v, user) && BaseOf(u, holder) == BaseOf(v, holder);
  }

  /** An object that leads to one value has the unit of that value, and itself. */
  lemma OneEdgeUnit(u: Unit, id: Id, e: Edge)
    requires u.entry == Obj(id) && Edges(u, id) == [e] && NothingBound(u.refs, u.scope)
    ensures UnitSet(u) == UnitSet(u.(entry := e.to, pointer := e.at)) + {Obj(id)}
  {
    hide Edges, NameOf, BaseOf;
    var next := u.(entry := e.to, pointer := e.at);
    var whole, rest := UnitSet(u), UnitSet(next);
    assert e in Edges(u, id);
    ClosedSame(u, next, whole);
    forall v | v in rest ensures v in whole {
      assert Needed(next, v);
    }
    ClosedSame(next, u, rest);
    forall x: Id, d | Obj(x) in rest + {Obj(id)} && d in Edges(u, x) ensures d.to in rest + {Obj(id)} {
      if Obj(x) !in rest {
        assert d == e;
      }
    }
    assert Closed(u, rest + {Obj(id)});
    forall v | v in whole ensures v in rest + {Obj(id)} {
      assert Needed(u, v);
    }
  }

  /** A pure reference leads to its target only. */
  lemma PureEdges(u: Unit, id: Id, ref: string, target: Value)
    requires SchemaOf(u.c.heap, id) == PureSchema(ref) && Target(u.c, u.refs, u.scope, ref, id) == Some(target)
    ensures Edges(u, id) == [Edge(target, RefPointer(u.refs, u.scope, u.t, ref, id, target))]
  {
    hide RefPointer;
  }

  lemma PureUnit(u: Unit, id: Id, ref: string, target: Value, at: Option<string>)
    requires u.entry == Obj(id) && SchemaOf(u.c.heap, id) == PureSchema(ref) && NothingBound(u.refs, u.scope)
    requires Target(u.c, u.refs, u.scope, ref, id) == Some(target)
    ensures UnitSet(u) == UnitSet(u.(entry := target, pointer := at)) + {Obj(id)}
  {
    hide Edges, RefPointer, Target;
    PureEdges(u, id, ref, target);
    var e := Edge(target, RefPointer(u.refs, u.scope, u.t, ref, id, target));
    OneEdgeUnit(u, id, e);
    SameEntrySameUnit(u.(entry := target, pointer := e.at), at);
  }

  /** A unit does not depend on the pointer its entry is visited at. */
  lemma SameEntrySameUnit(u: Unit, at: Option<string>)
    ensures UnitSet(u.(pointer := at)) == UnitSet(u)
  {
    hide Edges;
    var v := u.(pointer := at);
    ClosedSame(u, v, UnitSet(u));
    ClosedSame(v, u, UnitSet(v));
    forall x ensures x in UnitSet(u) <==> x in UnitSet(v) {
      assert x in UnitSet(u) ==> Needed(u, x);
      assert x in UnitSet(v) ==> Needed(v, x);
    }
  }
}

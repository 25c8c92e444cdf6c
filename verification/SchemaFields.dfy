/**
 * What the walks follow, read off the fields of a schema: which subschemas and which
 * references count, and what pointer a subschema has.
 */
module SchemaFields {
  import opened Options
  import opened SchemaHeap
  import opened Dialects
  import opened References

  // ---- What counts ----

  /** In an OAS 3.0 document a schema with a `$ref` has no other keyword but the two prose ones. */
  predicate Drops(c: Config, s: Schema, key: string) {
    c.dialect == Oas30 && s.ref != Absent && key !in {"$ref", "description", "summary"}
  }

  /** The value is a subschema of the object, under a keyword that counts. */
  ghost predicate IsBelow(c: Config, from: Id, v: Value) {
    exists e :: e in SchemaOf(c.heap, from).entries && !Drops(c, SchemaOf(c.heap, from), e.key) && e.value == v
  }

  /** The object has the reference, under a keyword that counts. */
  predicate Writes(c: Config, from: Id, kind: RefKind, ref: string) {
    var s := SchemaOf(c.heap, from);
    match kind
    case StaticRef => s.ref == RefField.Text(ref)
    case DynamicRef => s.dynamicRef == RefField.Text(ref) && !Drops(c, s, "$dynamicRef")
  }

  /** The resolver answers with a value of the document. */
  predicate Resolves(c: Config, refs: Resolver, scope: Scope, ref: string, from: Id, v: Value) {
    refs.target(scope, ref, from) == Some(v) && (v.Obj? ==> v.id < |c.heap|)
  }

  /** One step from an object: to a subschema of it, or to where one of its references resolves. */
  ghost predicate LeadsTo(c: Config, refs: Resolver, scope: Scope, from: Id, v: Value) {
    || IsBelow(c, from, v)
    || exists kind, ref :: Writes(c, from, kind, ref) && Resolves(c, refs, scope, ref, from, v)
  }

  /** The subschemas that count are the entries whose keyword does, in order. */
  lemma {:induction false} KeptPicks(c: Config, s: Schema, entries: seq<Entry>) returns (at: seq<nat>)
    ensures Picks(KeptFrom(s, c.Suppress(), entries), entries, at)
    ensures forall k: nat :: k < |entries| ==> (k in at <==> !Drops(c, s, entries[k].key))
    decreases |entries|
  {
    if entries == [] {
      at := [];
    } else {
      var rest := KeptPicks(c, s, entries[1..]);
      hide Picks, InFront;
      at := InFront(!Drops(c, s, entries[0].key), rest);
      PicksInFront(KeptFrom(s, c.Suppress(), entries[1..]), entries, rest, !Drops(c, s, entries[0].key));
      forall k: nat | k < |entries| ensures k in at <==> !Drops(c, s, entries[k].key) {
        InFrontMember(!Drops(c, s, entries[0].key), rest, k);
      }
    }
  }

  lemma KeptExactly(c: Config, from: Id, v: Value)
    ensures IsBelow(c, from, v) <==> exists e :: e in Kept(SchemaOf(c.heap, from), c.Suppress()) && e.value == v
  {
    var s := SchemaOf(c.heap, from);
    KeptFromExactly(s, c.Suppress(), s.entries);
  }

  lemma FollowedExactly(c: Config, from: Id, kind: RefKind, ref: string)
    ensures RefOf(SchemaOf(c.heap, from), kind, c.Suppress()) == Some(ref) <==> Writes(c, from, kind, ref)
  {
  }

  lemma ResolvesExactly(c: Config, refs: Resolver, scope: Scope, ref: string, from: Id, v: Value)
    ensures Target(c, refs, scope, ref, from) == Some(v) <==> Resolves(c, refs, scope, ref, from, v)
  {
  }

  /** What an object's reference is followed to, and where it lands. */
  lemma FollowExactly(c: Config, refs: Resolver, scope: Scope, t: Tables, from: Id, kind: RefKind, f: Followed)
    ensures Follow(c, refs, scope, t, from, kind) == Some(f) <==> exists ref ::
      Writes(c, from, kind, ref) && Resolves(c, refs, scope, ref, from, f.target)
      && f.pointer == RefPointer(refs, scope, t, ref, from, f.target)
  {
    hide RefPointer;
    forall ref ensures RefOf(SchemaOf(c.heap, from), kind, c.Suppress()) == Some(ref) <==> Writes(c, from, kind, ref) {
      FollowedExactly(c, from, kind, ref);
    }
    match RefOf(SchemaOf(c.heap, from), kind, c.Suppress())
    case None =>
    case Some(ref) => ResolvesExactly(c, refs, scope, ref, from, f.target);
  }

  /**
   * Where a reference lands: on its target's own pointer, if that is recorded; otherwise
   * its fragment, if that is a pointer, below the document or below a recorded resource.
   */
  lemma LandsExactly(refs: Resolver, scope: Scope, t: Tables, ref: string, from: Id, target: Value, at: string)
    ensures RefPointer(refs, scope, t, ref, from, target) == Some(at) <==>
      if target.Obj? && target.id in t.nodes then at == t.nodes[target.id].pointer
      else
        exists fragment :: refs.fragment(ref, refs.absolute(scope, ref, from)) == Some(fragment)
          && LandsBelow(t, refs.resource(scope, ref, from), fragment, at)
  {
  }

  /** The pointer of a fragment within a resource. */
  predicate LandsBelow(t: Tables, resource: Resource, fragment: string, at: string) {
    match resource
    case DocumentRoot => at == fragment
    case SchemaNode(Obj(id)) => id in t.nodes && at == t.nodes[id].pointer + fragment
    case SchemaNode(Other(_)) => false
    case NoResource => false
  }

  /** A reference of the object, as written, resolves to the target and lands at the pointer. */
  predicate LandsFrom(
    c: Config, refs: Resolver, scope: Scope, t: Tables, from: Id, kind: RefKind, ref: string, target: Value, at: string)
  {
    && Writes(c, from, kind, ref) && Resolves(c, refs, scope, ref, from, target)
    && RefPointer(refs, scope, t, ref, from, target) == Some(at)
  }

  /**
   * A reference establishes a root exactly when it lands at a pointer that is neither the document's
   * nor a position.
   */
  lemma NewRootExactly(c: Config, refs: Resolver, scope: Scope, t: Tables, from: Id, kind: RefKind, r: Root)
    ensures NewRoot(c, refs, scope, t, from, kind) == Some(r) <==>
      && r.pointer != "" && r.pointer !in t.positions
      && exists ref :: LandsFrom(c, refs, scope, t, from, kind, ref, r.value, r.pointer)
  {
    hide Follow, RefPointer, Writes, Resolves;
    var f := Followed(r.value, Some(r.pointer));
    FollowExactly(c, refs, scope, t, from, kind, f);
    if ref :| LandsFrom(c, refs, scope, t, from, kind, ref, r.value, r.pointer) {
      assert Writes(c, from, kind, ref) && Resolves(c, refs, scope, ref, from, f.target)
        && f.pointer == RefPointer(refs, scope, t, ref, from, f.target);
    }
    if Follow(c, refs, scope, t, from, kind) == Some(f) {
      var ref :| Writes(c, from, kind, ref) && Resolves(c, refs, scope, ref, from, f.target)
        && f.pointer == RefPointer(refs, scope, t, ref, from, f.target);
      assert LandsFrom(c, refs, scope, t, from, kind, ref, r.value, r.pointer);
    }
  }
}

/**
 * Which compile units may be compiled: those read in one supported dialect throughout.
 */
module Preparation {
  import opened Options
  import opened SchemaHeap
  import opened Dialects
  import opened References
  import opened CompileContext

  /** A visit the entry's compile unit makes. */
  ghost predicate Reaches(u: Unit, e: Edge) {
    Visits(u, UnitSet(u), e)
  }

  ghost predicate AllSupported(u: Unit) {
    forall e :: Reaches(u, e) ==> Reading(u, e).dialect.Some?
  }

  ghost predicate AllReadAs(u: Unit, d: Dialect) {
    forall e :: Reaches(u, e) ==> Reading(u, e).dialect == Some(d)
  }

  function EntryReading(u: Unit): Effective {
    Reading(u, Edge(u.entry, u.pointer))
  }

  /** Everything the unit reaches is read in the entry's own supported dialect. */
  ghost predicate Admits(u: Unit) {
    EntryReading(u).dialect.Some? && AllReadAs(u, EntryReading(u).dialect.value)
  }

  /** Every dialect the unit reaches is supported, but not all of them are the entry's. */
  ghost predicate IsMixed(u: Unit) {
    EntryReading(u).dialect.Some? && AllSupported(u) && !AllReadAs(u, EntryReading(u).dialect.value)
  }

  /** The pointer a mixed unit is reported at. */
  function ReportedAt(u: Unit): string {
    if u.pointer.Some? then u.pointer.value else PointerOf(u.t, u.entry).GetOr("")
  }

  lemma ReachedDialects(u: Unit, k: Collected)
    requires IsUnit(u, k.seen)
    requires forall d :: d in k.dialects <==> exists e :: Visits(u, k.seen, e) && Reading(u, e) == d
    ensures forall d :: d in k.dialects <==> exists e :: Reaches(u, e) && Reading(u, e) == d
  {
    hide Visits, IsUnit, Reading;
    UnitIsUnique(u, UnitSet(u), k.seen);
  }

  lemma EntryReached(u: Unit, dialects: set<Effective>)
    requires forall d :: d in dialects <==> exists e :: Reaches(u, e) && Reading(u, e) == d
    ensures AllSupported(u) <==> forall d :: d in dialects ==> d.dialect.Some?
    ensures forall x :: AllReadAs(u, x) <==> forall d :: d in dialects ==> d.dialect == Some(x)
  {
    hide Reaches, Reading;
    forall e | Reaches(u, e) ensures Reading(u, e) in dialects {
    }
  }

  /** What preparing an admitted unit hands on: the dialect to compile in, and the unit's schemas. */
  datatype Admission = Admission(dialect: Dialect, nodes: set<Value>)

  class Preparer {
    const c: Config
    const refs: Resolver
    const scope: Scope
    const t: Tables
    /** Pointers of the mixed units met so far. */
    var mixed: set<string>

    constructor (c: Config, refs: Resolver, scope: Scope, t: Tables)
      ensures this.c == c && this.refs == refs && this.scope == scope && this.t == t && mixed == {}
    {
      this.c := c;
      this.refs := refs;
      this.scope := scope;
      this.t := t;
      mixed := {};
    }

    function UnitOf(schema: Value, pointer: Option<string>): Unit {
      Unit(c, refs, scope, t, schema, pointer)
    }

    /**
     * The dialect and the schemas to compile a unit with. A unit is admitted exactly when everything it
     * reaches is read in the entry's own supported dialect, and reported as mixed exactly
     * when everything it reaches is supported but something is read differently.
     */
    method Prepare(schema: Value, pointer: Option<string>) returns (admitted: Option<Admission>)
      modifies this
      ensures var u := UnitOf(schema, pointer);
        && (admitted.Some? <==> Admits(u))
        && (admitted.Some? ==> admitted.value.nodes == UnitSet(u))
        && (admitted.Some? ==> EntryReading(u).dialect == Some(admitted.value.dialect))
        && mixed == old(mixed) + if IsMixed(u) then {ReportedAt(u)} else {}
    {
      hide Reaches, Visits, IsUnit, Reading, AllReadAs, AllSupported, Sound, BindingsVisited, DoneSince;
      var u := UnitOf(schema, pointer);
      var own := EntryReading(u).dialect;
      if own.None? {
        return None;
      }
      var context := new ContextBuilder(u);
      context.Collect();
      ReachedDialects(u, context.Now());
      UnitIsUnique(u, UnitSet(u), context.seen);
      EntryReached(u, context.dialects);
      var mixedDialect := false;
      var pending := context.dialects;
      while pending != {}
        invariant pending <= context.dialects
        invariant forall d :: d in context.dialects - pending ==> d.dialect.Some?
        invariant mixedDialect <==> exists d :: d in context.dialects - pending && d.dialect != own
        decreases pending
      {
        var dependency :| dependency in pending;
        ghost var before := pending;
        pending := pending - {dependency};
        if dependency.dialect.None? {
          assert dependency in context.dialects;
          return None;
        }
        mixedDialect := mixedDialect || dependency.dialect != own;
        assert context.dialects - pending == (context.dialects - before) + {dependency};
      }
      assert context.dialects - {} == context.dialects;
      if mixedDialect {
        mixed := mixed + {ReportedAt(u)};
        return None;
      }
      return Some(Admission(own.value, context.seen));
    }

    /**
     * Report every root whose unit is mixed; the roots listed as failed, whose graph could not be built,
     * are passed over.
     */
    method CheckMixedDialects(roots: seq<Root>, failed: set<nat>) returns (reported: set<string>)
      modifies this
      ensures |t.supported| < 2 ==> reported == {} && mixed == old(mixed)
      ensures |t.supported| >= 2 ==> reported == mixed
      ensures |t.supported| >= 2 ==>
        forall at :: at in mixed <==> at in old(mixed) || exists i :: 0 <= i < |roots| && MixedAt(roots, i, failed, at)
    {
      hide IsMixed, AllReadAs, Admits;
      if |t.supported| < 2 {
        return {};
      }
      for i := 0 to |roots|
        invariant forall at ::
          at in mixed <==> at in old(mixed) || exists j :: 0 <= j < i && MixedAt(roots, j, failed, at)
      {
        ghost var before := mixed;
        if i !in failed {
          var admitted := Prepare(roots[i].value, Some(roots[i].pointer));
        }
        forall at ensures at in mixed <==> at in before || MixedAt(roots, i, failed, at) {
        }
      }
      reported := mixed;
    }

    ghost predicate MixedAt(roots: seq<Root>, i: nat, failed: set<nat>, at: string)
      requires i < |roots|
    {
      var u := UnitOf(roots[i].value, Some(roots[i].pointer));
      i !in failed && IsMixed(u) && at == ReportedAt(u)
    }
  }
}

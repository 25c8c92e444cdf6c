/**
 * Which roots the schema pass compiles, from what, and what it reports of them, said from
 * the fields of the inventory and of the diagnostics.
 */
module CompiledRoots {
  import opened Options
  import opened SchemaHeap
  import opened Dialects
  import opened DialectWalk
  import opened References
  import opened SchemaFields
  import opened CompileContext
  import opened Preparation
  import opened Findings
  import opened SchemaFindings
  import opened CacheRuns

  // ---- Where a chain of pure references ends ----

  /**
   * The object is only a reference, no dynamic anchor is about, and the reference resolves; it lands or
   * keeps the pointer.
   */
  predicate StepsTo(p: Pass, e: Spot, next: Spot) {
    && !p.dynamicScopes && e.value.Obj? && p.pureRef(e.value.id).Some?
    && Resolves(p.c, p.refs, p.scope, p.pureRef(e.value.id).value, e.value.id, next.value)
    && next.pointer ==
         match RefPointer(p.refs, p.scope, p.t, p.pureRef(e.value.id).value, e.value.id, next.value)
         case Some(pointer) => pointer
         case None => e.pointer
  }

  lemma StepExactly(p: Pass, e: Spot, next: Spot)
    ensures CanonicalStep(p, e) == Some(next) <==> StepsTo(p, e, next)
  {
    hide RefPointer;
    if e.value.Obj? && p.pureRef(e.value.id).Some? {
      ResolvesExactly(p.c, p.refs, p.scope, p.pureRef(e.value.id).value, e.value.id, next.value);
    }
  }

  ghost predicate IsStuck(p: Pass, e: Spot) {
    forall next :: !StepsTo(p, e, next)
  }

  /** A way along pure references that comes to no object twice, but perhaps at its end. */
  ghost predicate IsWay(p: Pass, way: seq<Spot>) {
    && way != []
    && (forall k :: 0 <= k < |way| - 1 ==> StepsTo(p, way[k], way[k + 1]))
    && (forall i, j :: 0 <= i < j < |way| - 1 ==> way[i].value != way[j].value)
  }

  /** No reference leads on, or the object was passed before, or it is none of the document's. */
  ghost predicate IsEnd(p: Pass, way: seq<Spot>)
    requires way != []
  {
    var n := |way| - 1;
    || IsStuck(p, way[n])
    || (exists i :: 0 <= i < n && way[i].value == way[n].value)
    || (way[n].value.Obj? && way[n].value.id >= |p.c.heap|)
  }

  lemma StuckExactly(p: Pass, e: Spot)
    ensures IsStuck(p, e) <==> CanonicalStep(p, e).None?
  {
    hide CanonicalStep, StepsTo;
    forall next ensures CanonicalStep(p, e) == Some(next) <==> StepsTo(p, e, next) {
      StepExactly(p, e, next);
    }
    if CanonicalStep(p, e).Some? {
      assert StepsTo(p, e, CanonicalStep(p, e).value);
    }
  }

  ghost function PassedIds(way: seq<Spot>): set<Id> {
    set k | 0 <= k < |way| - 1 && way[k].value.Obj? :: way[k].value.id
  }

  lemma PassesOn(way: seq<Spot>, next: Spot)
    requires way != [] && way[|way| - 1].value.Obj?
    ensures PassedIds(way + [next]) == PassedIds(way) + {way[|way| - 1].value.id}
  {
    var longer, n := way + [next], |way| - 1;
    forall id | id in PassedIds(way) + {way[n].value.id} ensures id in PassedIds(longer) {
      if id in PassedIds(way) {
        var k :| 0 <= k < n && way[k].value.Obj? && way[k].value.id == id;
        assert longer[k] == way[k];
      } else {
        assert longer[n] == way[n];
      }
    }
    forall id | id in PassedIds(longer) ensures id in PassedIds(way) + {way[n].value.id} {
      var k :| 0 <= k < n + 1 && longer[k].value.Obj? && longer[k].value.id == id;
      assert longer[k] == way[k];
    }
  }

  lemma WayLonger(p: Pass, way: seq<Spot>, next: Spot)
    requires IsWay(p, way) && StepsTo(p, way[|way| - 1], next)
    requires way[|way| - 1].value.Obj? && way[|way| - 1].value.id !in PassedIds(way)
    ensures IsWay(p, way + [next])
  {
    hide StepsTo;
    var longer, n := way + [next], |way| - 1;
    forall k | 0 <= k < n + 1 ensures StepsTo(p, longer[k], longer[k + 1]) {
      assert longer[k] == way[k];
      assert k < n ==> longer[k + 1] == way[k + 1];
    }
    forall i, j | 0 <= i < j < n + 1 ensures longer[i].value != longer[j].value {
      assert longer[i] == way[i] && longer[j] == way[j];
      assert way[i].value.Obj? ==> way[i].value.id in PassedIds(way);
    }
  }

  lemma WayEnds(p: Pass, way: seq<Spot>)
    requires IsWay(p, way)
    requires var e := way[|way| - 1];
      CanonicalStep(p, e).None? || (e.value.Obj? && (e.value.id in PassedIds(way) || e.value.id >= |p.c.heap|))
    ensures IsEnd(p, way)
  {
    hide CanonicalStep, StepsTo, IsStuck;
    StuckExactly(p, way[|way| - 1]);
  }

  lemma {:induction false} WayGoesOn(p: Pass, way: seq<Spot>) returns (whole: seq<Spot>)
    requires IsWay(p, way)
    ensures IsWay(p, whole) && way <= whole && IsEnd(p, whole)
    ensures whole[|whole| - 1] == Canonical(p, PassedIds(way), way[|way| - 1])
    decreases Unreached(p.c.heap, PassedIds(way))
  {
    hide CanonicalStep, StepsTo, IsEnd, PassedIds;
    var e, seen := way[|way| - 1], PassedIds(way);
    var next := CanonicalStep(p, e);
    if next.None? || e.value.id in seen || e.value.id >= |p.c.heap| {
      WayEnds(p, way);
      whole := way;
    } else {
      StepExactly(p, e, next.value);
      WayLonger(p, way, next.value);
      PassesOn(way, next.value);
      UnreachedShrinks(p.c.heap, seen, seen + {e.value.id});
      assert e.value.id in seen + {e.value.id};
      whole := WayGoesOn(p, way + [next.value]);
    }
  }

  /** The canonical target of a root is where following pure references from it ends. */
  lemma CanonicalExactly(p: Pass, root: Root) returns (way: seq<Spot>)
    ensures IsWay(p, way) && IsEnd(p, way) && way[0] == Spot(root.value, root.pointer)
    ensures way[|way| - 1] == CanonicalOf(p, root)
  {
    hide IsEnd;
    var start := [Spot(root.value, root.pointer)];
    assert PassedIds(start) == {};
    way := WayGoesOn(p, start);
  }

  // ---- Which roots are compiled ----

  /** The unit a root is prepared with: its own where dialects may clash, else its canonical target's. */
  ghost function UnitOfRoot(p: Pass, n: nat): Unit
    requires n < |p.AllRoots()|
  {
    var root := p.AllRoots()[n];
    if p.t.unsupported != map[] || |p.t.supported| > 1 then
      Unit(p.c, p.refs, p.scope, p.t, root.value, Some(root.pointer))
    else
      Unit(p.c, p.refs, p.scope, p.t, CanonicalOf(p, root).value, Some(CanonicalOf(p, root).pointer))
  }

  /** Everything the unit reaches is read in the supported dialect its entry is read in. */
  ghost predicate ReadAlike(u: Unit, d: Dialect) {
    && EffectiveFor(u.c, u.t, u.entry, u.pointer).dialect == Some(d)
    && forall e :: Reaches(u, e) ==> EffectiveFor(u.c, u.t, e.to, e.at).dialect == Some(d)
  }

  lemma PreparedExactly(p: Pass, n: nat)
    requires n < |p.AllRoots()|
    ensures PreparedAt(p, n).Some? <==> exists d :: ReadAlike(UnitOfRoot(p, n), d)
    ensures PreparedAt(p, n).Some? ==>
      && ReadAlike(UnitOfRoot(p, n), PreparedAt(p, n).value.dialect)
      && PreparedAt(p, n).value.nodes == UnitSet(UnitOfRoot(p, n))
  {
    hide EffectiveFor, Reaches, UnitSet, Canonical;
    var u := UnitOfRoot(p, n);
    assert PreparedAt(p, n) == Prepared(u);
    if PreparedAt(p, n).Some? {
      assert ReadAlike(u, EntryReading(u).dialect.value);
    }
    if d :| ReadAlike(u, d) {
      assert EntryReading(u).dialect == Some(d) && AllReadAs(u, d);
    }
  }

  /**
   * A unit is mixed when its entry and all it reaches are supported, and something is read otherwise
   * than the entry.
   */
  lemma MixedExactly(u: Unit)
    ensures IsMixed(u) <==> exists own ::
      && EffectiveFor(u.c, u.t, u.entry, u.pointer).dialect == Some(own)
      && (forall e :: Reaches(u, e) ==> EffectiveFor(u.c, u.t, e.to, e.at).dialect.Some?)
      && exists e :: Reaches(u, e) && EffectiveFor(u.c, u.t, e.to, e.at).dialect != Some(own)
  {
    hide Reaches, EffectiveFor;
    if IsMixed(u) {
      var own := EntryReading(u).dialect.value;
      var e :| Reaches(u, e) && Reading(u, e).dialect != Some(own);
      assert EffectiveFor(u.c, u.t, e.to, e.at).dialect != Some(own);
    }
  }

  /** It is reported at the pointer it was prepared at, else at its entry's recorded pointer, else at the document. */
  lemma MixedReportedAt(u: Unit)
    ensures u.pointer.Some? ==> ReportedAt(u) == u.pointer.value
    ensures u.pointer.None? && u.entry.Obj? && u.entry.id in u.t.nodes ==>
      ReportedAt(u) == u.t.nodes[u.entry.id].pointer
    ensures u.pointer.None? && (u.entry.Obj? ==> u.entry.id !in u.t.nodes) ==> ReportedAt(u) == ""
  {
  }

  /** A compiled root's unit holds the value. */
  ghost predicate HeldBy(p: Pass, j: nat, v: Value)
    requires j < |p.AllRoots()|
  {
    Compiles(p, j) && v in UnitSet(UnitOfRoot(p, j))
  }

  lemma {:induction false} CoveredExactly(p: Pass, n: nat, v: Value)
    requires n <= |p.AllRoots()|
    ensures v in CoveredAt(p, n) <==> p.t.resources != [] && exists j: nat :: j < n && HeldBy(p, j, v)
  {
    hide Compiles, UnitSet, PreparedAt, UnitOfRoot;
    if n > 0 {
      CoveredExactly(p, n - 1, v);
      if Compiles(p, n - 1) {
        CompiledIsPrepared(p, n - 1);
        PreparedExactly(p, n - 1);
      }
      assert HeldBy(p, n - 1, v) <==> Compiles(p, n - 1) && v in UnitSet(UnitOfRoot(p, n - 1));
      if exists j: nat :: j < n && HeldBy(p, j, v) {
        var j: nat :| j < n && HeldBy(p, j, v);
        assert j < n - 1 || j == n - 1;
      }
    }
  }

  lemma CompiledIsPrepared(p: Pass, n: nat)
    requires n < |p.AllRoots()| && Compiles(p, n)
    ensures PreparedAt(p, n).Some?
  {
    hide PreparedAt, Passes;
  }

  /** Looked at: a root of the inventory, or an embedded resource that no unit compiled before it holds. */
  ghost predicate IsLookedAt(p: Pass, n: nat)
    requires n < |p.AllRoots()|
  {
    var root := p.AllRoots()[n];
    && EffectiveFor(p.c, p.t, root.value, Some(root.pointer)).dialect.Some?
    && (n < |p.roots| || forall j: nat :: j < n ==> !HeldBy(p, j, root.value))
  }

  lemma LookedAtExactly(p: Pass, n: nat)
    requires n < |p.AllRoots()|
    ensures Considered(p, CoveredAt(p, n), n) <==> IsLookedAt(p, n)
  {
    hide EffectiveFor, HeldBy, CoveredAt;
    CoveredExactly(p, n, p.AllRoots()[n].value);
    assert n >= |p.roots| ==> p.t.resources != [];
  }

  /** A root is compiled when it is looked at, its graph could be built, and its unit is read alike throughout. */
  lemma CompiledExactly(p: Pass, n: nat)
    requires n < |p.AllRoots()|
    ensures Compiles(p, n) <==>
      IsLookedAt(p, n) && n !in p.rootErrors && exists d :: ReadAlike(UnitOfRoot(p, n), d)
  {
    hide Considered, CoveredAt, PreparedAt, ReadAlike, IsLookedAt, UnitOfRoot;
    LookedAtExactly(p, n);
    CompilesIs(p, n);
    PreparedExactly(p, n);
  }

  /** The roots looked at are the inventory's, in order, and then every embedded resource. */
  lemma RootsExactly(p: Pass, r: Root)
    ensures r in p.AllRoots() <==> r in p.roots || r in p.t.resources
    ensures |p.AllRoots()| == |p.roots| + |p.t.resources|
    ensures forall n: nat :: n < |p.roots| ==> p.AllRoots()[n] == p.roots[n]
  {
  }

  /**
   * No schema goes unchecked: every root is compiled or has a reason not to be, and a resource may be
   * held by one that is.
   */
  lemma EveryRootChecked(p: Pass, r: Root) returns (n: nat)
    requires r in p.roots || r in p.t.resources
    ensures n < |p.AllRoots()| && p.AllRoots()[n] == r
    ensures
      || Compiles(p, n)
      || n in p.rootErrors
      || EffectiveFor(p.c, p.t, r.value, Some(r.pointer)).dialect.None?
      || (forall d :: !ReadAlike(UnitOfRoot(p, n), d))
      || (r in p.t.resources && exists j: nat :: j < n && HeldBy(p, j, r.value))
  {
    hide Compiles, EffectiveFor, ReadAlike, UnitOfRoot, HeldBy;
    RootsExactly(p, r);
    var i: nat :| i < |p.AllRoots()| && p.AllRoots()[i] == r;
    n := i;
    CompiledExactly(p, n);
    assert n >= |p.roots| ==> r == p.t.resources[n - |p.roots|];
  }

  /** It is compiled from its canonical target, there, in the dialect its unit is read in. */
  lemma InputExactly(p: Pass, n: nat)
    requires n < |p.AllRoots()| && Compiles(p, n)
    ensures var input := InputAt(p, n); var e := CanonicalOf(p, p.AllRoots()[n]);
      input.value == e.value && input.pointer == e.pointer && ReadAlike(UnitOfRoot(p, n), input.dialect)
  {
    hide PreparedAt, ReadAlike, UnitOfRoot, Canonical;
    CompiledIsPrepared(p, n);
    PreparedExactly(p, n);
  }

  // ---- What is reported of a root ----

  /** A schema compiled at its own pointer is the node itself; reached elsewhere it is a definition. */
  lemma CompiledAnchor(compiledAt: string, pointer: string)
    ensures AnchorAt(compiledAt, pointer) == NodeAnchor <==> compiledAt == pointer
    ensures AnchorAt(compiledAt, pointer) != NodeAnchor ==> AnchorAt(compiledAt, pointer) == DefinitionAnchor
  {
  }

  /** A diagnostic is reported under the root's label, with its own code, message, address and contributors. */
  lemma IssueReported(p: Pass, root: Root, issue: Issue, given: Anchor)
    ensures var f := AtEntry(p, root, IssueFinding(issue, given));
      && f.cls == "schema" && f.severity == Warning && f.code == issue.code && f.message == issue.message
      && f.location == p.labelOf(root.pointer) + " -> " + (if issue.path != "" then issue.path else "<root>")
      && (f.target.None? <==> issue.place.None?)
      && (issue.place.Some? ==> f.target == Some(FindingTarget(issue.place.value.pointer,
            if issue.place.value.anchor.Own? then issue.place.value.anchor.anchor else given, None)))
      && |f.contributors| == |issue.contributors| && f.occurrences.None?
      && forall k :: 0 <= k < |issue.contributors| ==> f.contributors[k].pointer == issue.contributors[k].pointer
  {
    PlacedEach(issue.contributors, given);
  }

  lemma {:induction false} PlacedEach(places: seq<Place>, given: Anchor)
    ensures |PlacedAll(places, given)| == |places|
    ensures forall k :: 0 <= k < |places| ==> PlacedAll(places, given)[k] == Placed(places[k], given)
  {
    if places != [] {
      PlacedEach(places[1..], given);
    }
  }

  /** The pointer is the other's, or goes on below it. */
  predicate AtOrBelow(pointer: string, outer: string) {
    |outer| <= |pointer| && pointer[..|outer|] == outer && (|outer| < |pointer| ==> pointer[|outer|] == '/')
  }

  /** A malformed schema is reported under the root's label, as part of the root where it lies in it. */
  lemma ErrorReported(p: Pass, root: Root, first: Root, at: string, message: string)
    ensures var f := AtEntry(p, root, ErrorFinding(first, at, message));
      var title := p.labelOf(root.pointer);
      && f.cls == "malformed" && f.severity == Fatal && f.code == "malformed-schema" && f.location == title
      && f.message == (if title == root.pointer then message else title + ": " + message)
      && f.target == Some(FindingTarget(at,
           if AtOrBelow(at, root.pointer) then NodeAnchor else DefinitionAnchor, None))
      && f.contributors == [] && f.occurrences.None?
  {
    assert AtOrBelow(at, root.pointer) <==> Within(at, root.pointer) by {
      if AtOrBelow(at, root.pointer) && at != root.pointer {
        assert at[..|root.pointer| + 1] == root.pointer + "/";
      }
    }
  }

  /** The findings of one compile, one for each diagnostic that is kept, or one for the failure. */
  lemma CompileReports(compile: Compiler, root: Root, input: Input)
    ensures var findings := CompileFindings(compile, root, input);
      match compile(input)
      case Failed(at, message) =>
        findings == [ErrorFinding(root, if at.Some? then at.value else input.pointer, message)]
      case Issues(issues) =>
        && |findings| == |Distinct(issues, {})|
        && forall k :: 0 <= k < |findings| ==>
             findings[k] == IssueFinding(Distinct(issues, {})[k], AnchorAt(input.pointer, root.pointer))
  {
    match compile(input)
    case Failed(_, _) =>
    case Issues(issues) => FindingsEach(Distinct(issues, {}), AnchorAt(input.pointer, root.pointer));
  }

  lemma {:induction false} FindingsEach(issues: seq<Issue>, given: Anchor)
    ensures |IssueFindings(issues, given)| == |issues|
    ensures forall k :: 0 <= k < |issues| ==> IssueFindings(issues, given)[k] == IssueFinding(issues[k], given)
  {
    if issues != [] {
      FindingsEach(issues[1..], given);
    }
  }

  lemma {:induction false} EntryEach(p: Pass, root: Root, findings: seq<Finding>)
    ensures |AllAtEntry(p, root, findings)| == |findings|
    ensures forall k :: 0 <= k < |findings| ==> AllAtEntry(p, root, findings)[k] == AtEntry(p, root, findings[k])
  {
    hide AtEntry;
    if findings != [] {
      EntryEach(p, root, findings[1..]);
    }
  }
}

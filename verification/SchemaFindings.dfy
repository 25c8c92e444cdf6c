/**
 * Compiling every schema root, remembering results, and collapsing repeats.
 *
 * Roots that are nothing but a reference share their target's result. A
 * remembered result carries the anchors of the entry that produced it; the table
 * that collapses repeats is what makes that invisible.
 */
module SchemaFindings {
  import opened Options
  import opened SchemaHeap
  import opened Dialects
  import opened DialectWalk
  import opened References
  import opened CompileContext
  import opened Preparation
  import opened PureReferences
  import opened Findings

  /** An anchor a diagnostic carries: the one the compile was given, or its own. */
  datatype AnchorUse = AsGiven | Own(anchor: Anchor)

  datatype Place = Place(pointer: string, anchor: AnchorUse)

  datatype Issue = Issue(code: string, message: string, path: string, place: Option<Place>, contributors: seq<Place>)

  /** What compiling does: diagnostics, or an error that may name where it happened. */
  datatype Compiled = Issues(issues: seq<Issue>) | Failed(at: Option<string>, message: string)

  /** What a schema is compiled from: itself, the pointer it is compiled at, and the dialect of its unit. */
  datatype Input = Input(value: Value, pointer: string, dialect: Dialect)

  type Compiler = Input -> Compiled

  /** The finished inventory the pass runs over. */
  datatype Pass = Pass(
    c: Config, refs: Resolver, scope: Scope, t: Tables,
    roots: seq<Root>,
    /** Roots, by position, whose resolution graph could not be built, with the error text. */
    rootErrors: map<nat, string>,
    labelOf: string -> string,
    /** Some resource declares a dynamic anchor. */
    dynamicScopes: bool,
    /** The reference of an object that holds nothing but a `$ref`. */
    pureRef: Id -> Option<string>)
  {
    /** Every root looked at: the inventory's own, then the embedded resources. */
    function AllRoots(): seq<Root> {
      roots + t.resources
    }

    function UnitAt(v: Value, pointer: string): Unit {
      Unit(c, refs, scope, t, v, Some(pointer))
    }

    predicate Supported(root: Root) {
      EffectiveFor(c, t, root.value, Some(root.pointer)).dialect.Some?
    }

    /** An unsupported dialect was met, or more than one supported one. */
    predicate SeveralDialects() {
      t.unsupported != map[] || |t.supported| > 1
    }
  }

  /** The flags and lists of a pass say what they are named for. */
  ghost predicate Coherent(p: Pass) {
    && (!p.dynamicScopes ==> NothingBound(p.refs, p.scope))
    && (forall id: Id :: p.pureRef(id).Some? ==> SchemaOf(p.c.heap, id) == PureSchema(p.pureRef(id).value))
    && (forall r :: r in p.t.resources ==> IsResourceRoot(p.c, r))
  }

  predicate IsResourceRoot(c: Config, r: Root) {
    r.value.Obj? && SchemaOf(c.heap, r.value.id).resourceId.Some?
  }

  // ---- Following pure references ----

  datatype Spot = Spot(value: Value, pointer: string)

  /** Where a chain of pure references ends; a chain that turns back on itself ends where it does. */
  ghost function Canonical(p: Pass, seen: set<Id>, e: Spot): Spot
    decreases Unreached(p.c.heap, seen)
  {
    match CanonicalStep(p, e)
    case None => e
    case Some(next) =>
      if e.value.id in seen || e.value.id >= |p.c.heap| then e
      else
        UnreachedShrinks(p.c.heap, seen, seen + {e.value.id});
        assert e.value.id in seen + {e.value.id};
        Canonical(p, seen + {e.value.id}, next)
  }

  /** One pure reference followed: its target, at the pointer the reference lands on where it has one. */
  function CanonicalStep(p: Pass, e: Spot): (next: Option<Spot>)
    ensures next.Some? ==> e.value.Obj?
  {
    if p.dynamicScopes || e.value.Other? || p.pureRef(e.value.id).None? then None
    else
      var ref := p.pureRef(e.value.id).value;
      match Target(p.c, p.refs, p.scope, ref, e.value.id)
      case None => None
      case Some(target) =>
        Some(Spot(target, RefPointer(p.refs, p.scope, p.t, ref, e.value.id, target).GetOr(e.pointer)))
  }

  ghost function CanonicalOf(p: Pass, root: Root): Spot {
    Canonical(p, {}, Spot(root.value, root.pointer))
  }

  method Canonicalize(p: Pass, root: Root) returns (e: Spot)
    ensures e == CanonicalOf(p, root)
  {
    hide CanonicalStep;
    e := Spot(root.value, root.pointer);
    var seen: set<Id> := {};
    while true
      invariant Canonical(p, seen, e) == CanonicalOf(p, root)
      decreases Unreached(p.c.heap, seen)
    {
      var next := CanonicalStep(p, e);
      if next.None? || e.value.id in seen || e.value.id >= |p.c.heap| {
        return;
      }
      UnreachedShrinks(p.c.heap, seen, seen + {e.value.id});
      assert e.value.id in seen + {e.value.id};
      seen := seen + {e.value.id};
      e := next.value;
    }
  }

  /** Results are remembered by object, or by pointer where the target is not one. */
  datatype Key = ByObject(id: Id) | ByPointer(pointer: string)

  function KeyOf(e: Spot): Key {
    match e.value
    case Obj(id) => ByObject(id)
    case Other(_) => ByPointer(e.pointer)
  }

  // ---- What one entry produces ----

  function AnchorAt(compiledAt: string, pointer: string): Anchor {
    if compiledAt == pointer then NodeAnchor else DefinitionAnchor
  }

  function Placed(place: Place, given: Anchor): FindingTarget {
    FindingTarget(place.pointer, match place.anchor case AsGiven => given case Own(anchor) => anchor, None)
  }

  function PlacedAll(places: seq<Place>, given: Anchor): seq<FindingTarget> {
    if places == [] then [] else [Placed(places[0], given)] + PlacedAll(places[1..], given)
  }

  function IssueFinding(issue: Issue, given: Anchor): Finding {
    Finding("schema", Warning, issue.code, if issue.path == "" then "<root>" else issue.path, issue.message,
      match issue.place case None => None case Some(place) => Some(Placed(place, given)),
      PlacedAll(issue.contributors, given), None, [], [])
  }

  function IssueKey(issue: Issue): string {
    issue.code + "\0" + issue.message + "\0" + match issue.place case None => "" case Some(place) => place.pointer
  }

  /** The diagnostics of one compile, the first of each code, message and pointer. */
  function Distinct(issues: seq<Issue>, seen: set<string>): seq<Issue> {
    if issues == [] then []
    else if IssueKey(issues[0]) in seen then Distinct(issues[1..], seen)
    else [issues[0]] + Distinct(issues[1..], seen + {IssueKey(issues[0])})
  }

  function IssueFindings(issues: seq<Issue>, given: Anchor): seq<Finding> {
    if issues == [] then [] else [IssueFinding(issues[0], given)] + IssueFindings(issues[1..], given)
  }

  predicate Within(pointer: string, outer: string) {
    pointer == outer || outer + "/" <= pointer
  }

  function AnchorWithin(pointer: string, outer: string): Anchor {
    if Within(pointer, outer) then NodeAnchor else DefinitionAnchor
  }

  function ErrorFinding(root: Root, at: string, message: string): Finding {
    Finding("malformed", Fatal, "malformed-schema", root.pointer, message,
      Some(FindingTarget(at, AnchorWithin(at, root.pointer), None)), [], None, [], [])
  }

  /** A finding as one entry reports it: labelled by the entry, and a malformed one anchored against it. */
  function AtEntry(p: Pass, root: Root, f: Finding): Finding {
    var title := p.labelOf(root.pointer);
    if f.cls == "malformed" then
      f.(location := title,
         message := if title != root.pointer then title + ": " + f.message else f.message,
         target := match f.target
           case None => None
           case Some(at) => Some(at.(anchor := AnchorWithin(at.pointer, root.pointer))))
    else
      f.(location := title + " -> " + f.location)
  }

  function AllAtEntry(p: Pass, root: Root, findings: seq<Finding>): seq<Finding> {
    if findings == [] then [] else [AtEntry(p, root, findings[0])] + AllAtEntry(p, root, findings[1..])
  }

  /** What compiling a canonical target produces, as the root that compiled it reports it. */
  function CompileFindings(compile: Compiler, root: Root, input: Input): seq<Finding> {
    match compile(input)
    case Failed(at, message) => [ErrorFinding(root, at.GetOr(input.pointer), message)]
    case Issues(issues) => IssueFindings(Distinct(issues, {}), AnchorAt(input.pointer, root.pointer))
  }

  /** The answer preparing a unit gives. */
  ghost function Prepared(u: Unit): Option<Admission> {
    if Admits(u) then Some(Admission(EntryReading(u).dialect.value, UnitSet(u))) else None
  }

  // ---- Which roots are looked at, and which are compiled ----

  ghost function SpotAt(p: Pass, n: nat): Spot
    requires n < |p.AllRoots()|
  {
    CanonicalOf(p, p.AllRoots()[n])
  }

  /** The preparation a root goes through: its own where dialects may clash, else its canonical target's. */
  ghost function PreparedAt(p: Pass, n: nat): Option<Admission>
    requires n < |p.AllRoots()|
  {
    var root := p.AllRoots()[n];
    if p.SeveralDialects() then Prepared(p.UnitAt(root.value, root.pointer))
    else Prepared(p.UnitAt(SpotAt(p, n).value, SpotAt(p, n).pointer))
  }

  /** A root of the inventory, or an embedded resource no compiled unit has covered, in a supported dialect. */
  predicate Considered(p: Pass, covered: set<Value>, n: nat)
    requires n < |p.AllRoots()|
  {
    (n < |p.roots| || p.AllRoots()[n].value !in covered) && p.Supported(p.AllRoots()[n])
  }

  /** Considered, its graph built, and not refused before anything is remembered or compiled. */
  ghost predicate Passes(p: Pass, covered: set<Value>, n: nat)
    requires n < |p.AllRoots()|
  {
    Considered(p, covered, n) && n !in p.rootErrors && (p.SeveralDialects() ==> PreparedAt(p, n).Some?)
  }

  function CoveredBy(p: Pass, nodes: set<Value>): set<Value> {
    if p.t.resources != [] then nodes else {}
  }

  /** What the units compiled among the first roots have covered. */
  ghost function CoveredAt(p: Pass, n: nat): set<Value>
    requires n <= |p.AllRoots()|
    decreases n, 0
  {
    if n == 0 then {}
    else CoveredAt(p, n - 1) + if Compiles(p, n - 1) then CoveredBy(p, PreparedAt(p, n - 1).value.nodes) else {}
  }

  ghost predicate Eligible(p: Pass, n: nat)
    requires n < |p.AllRoots()|
    decreases n, 1
  {
    Passes(p, CoveredAt(p, n), n)
  }

  /** The roots a pass without a cache compiles. */
  ghost predicate Compiles(p: Pass, n: nat)
    requires n < |p.AllRoots()|
    decreases n, 2
  {
    Eligible(p, n) && PreparedAt(p, n).Some?
  }

  /** What a prepared root is compiled from. */
  ghost function InputAt(p: Pass, n: nat): Input
    requires n < |p.AllRoots()|
  {
    Input(SpotAt(p, n).value, SpotAt(p, n).pointer,
          match PreparedAt(p, n) case None => p.c.dialect case Some(admission) => admission.dialect)
  }

  /** The finding of a root whose graph could not be built. */
  function GraphError(p: Pass, n: nat): seq<Finding>
    requires n < |p.AllRoots()| && n in p.rootErrors
  {
    var root := p.AllRoots()[n];
    [AtEntry(p, root, ErrorFinding(root, root.pointer, p.rootErrors[n]))]
  }

  // ---- The pass, compiling every root afresh ----

  datatype State = State(covered: set<Value>, table: seq<Finding>)

  ghost function FreshStep(p: Pass, compile: Compiler, s: State, n: nat): State
    requires n < |p.AllRoots()|
  {
    var root := p.AllRoots()[n];
    if !Considered(p, s.covered, n) then s
    else if n in p.rootErrors then s.(table := AddAll(s.table, GraphError(p, n)))
    else if PreparedAt(p, n).None? then s
    else
      State(s.covered + CoveredBy(p, PreparedAt(p, n).value.nodes),
            AddAll(s.table, AllAtEntry(p, root, CompileFindings(compile, root, InputAt(p, n)))))
  }

  /** The state after the first roots. */
  ghost function FreshRun(p: Pass, compile: Compiler, n: nat): State
    requires n <= |p.AllRoots()|
  {
    if n == 0 then State({}, []) else FreshStep(p, compile, FreshRun(p, compile, n - 1), n - 1)
  }

  // ---- The pass as it runs, remembering results ----

  datatype Cached = Cached(cache: map<Key, seq<Finding>>, s: State)

  ghost function CachedStep(p: Pass, compile: Compiler, k: Cached, n: nat): Cached
    requires n < |p.AllRoots()|
  {
    var root := p.AllRoots()[n];
    if !Considered(p, k.s.covered, n) then k
    else if n in p.rootErrors then k.(s := k.s.(table := AddAll(k.s.table, GraphError(p, n))))
    else if p.SeveralDialects() && PreparedAt(p, n).None? then k
    else
      var key := KeyOf(SpotAt(p, n));
      if key in k.cache then k.(s := k.s.(table := AddAll(k.s.table, AllAtEntry(p, root, k.cache[key]))))
      else if PreparedAt(p, n).None? then k
      else
        var findings := CompileFindings(compile, root, InputAt(p, n));
        Cached(k.cache[key := findings],
               State(k.s.covered + CoveredBy(p, PreparedAt(p, n).value.nodes),
                     AddAll(k.s.table, AllAtEntry(p, root, findings))))
  }

  ghost function CachedRun(p: Pass, compile: Compiler, n: nat): Cached
    requires n <= |p.AllRoots()|
  {
    if n == 0 then Cached(map[], State({}, [])) else CachedStep(p, compile, CachedRun(p, compile, n - 1), n - 1)
  }

  /** Run the pass over every root, remembering each canonical target's findings. */
  method CheckDocumentSchemas(p: Pass, compile: Compiler, preparer: Preparer) returns (table: FindingTable)
    requires preparer.c == p.c && preparer.refs == p.refs && preparer.scope == p.scope && preparer.t == p.t
    modifies preparer
    ensures fresh(table)
    ensures table.rows == CachedRun(p, compile, |p.AllRoots()|).s.table
  {
    hide CanonicalOf, Considered, CompileFindings, AllAtEntry, GraphError, AddAll, CoveredBy, Admits, CachedRun;
    table := new FindingTable();
    var cache: map<Key, seq<Finding>> := map[];
    var covered: set<Value> := {};
    var all := p.AllRoots();
    CachedStart(p, compile);
    for i := 0 to |all|
      invariant fresh(table)
      invariant Cached(cache, State(covered, table.rows)) == CachedRun(p, compile, i)
    {
      var root := all[i];
      CachedNext(p, compile, i);
      if !Considered(p, covered, i) {
        continue;
      }
      if i in p.rootErrors {
        table.AddEach(GraphError(p, i));
        continue;
      }
      var prepared: Option<Admission> := None;
      if p.SeveralDialects() {
        prepared := preparer.Prepare(root.value, Some(root.pointer));
        if prepared.None? {
          continue;
        }
      }
      var e := Canonicalize(p, root);
      if KeyOf(e) in cache {
        table.AddEach(AllAtEntry(p, root, cache[KeyOf(e)]));
        continue;
      }
      if prepared.None? {
        prepared := preparer.Prepare(e.value, Some(e.pointer));
        if prepared.None? {
          continue;
        }
      }
      covered := covered + CoveredBy(p, prepared.value.nodes);
      var findings := CompileFindings(compile, root, Input(e.value, e.pointer, prepared.value.dialect));
      cache := cache[KeyOf(e) := findings];
      table.AddEach(AllAtEntry(p, root, findings));
    }
  }

  lemma CachedStart(p: Pass, compile: Compiler)
    ensures CachedRun(p, compile, 0) == Cached(map[], State({}, []))
  {
  }

  lemma CachedNext(p: Pass, compile: Compiler, n: nat)
    requires n < |p.AllRoots()|
    ensures CachedRun(p, compile, n + 1) == CachedStep(p, compile, CachedRun(p, compile, n), n)
  {
    hide CachedStep;
  }
}

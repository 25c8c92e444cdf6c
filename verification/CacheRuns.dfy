/**
 * The pass with its cache and the pass without, side by side: they look at the same
 * roots, and what is remembered for a key is what its first compiled root produced.
 */
module CacheRuns {
  import opened Options
  import opened SchemaHeap
  import opened Dialects
  import opened References
  import opened CompileContext
  import opened Preparation
  import opened PureReferences
  import opened Findings
  import opened SchemaFindings

  // ---- Canonical targets share their unit ----

  /** Following one pure reference changes a unit by pure references only. */
  lemma StepUnit(p: Pass, e: Spot, next: Spot, v: Value)
    requires Coherent(p) && CanonicalStep(p, e) == Some(next) && IsResourceRoot(p.c, Root(v, ""))
    ensures v in UnitSet(p.UnitAt(e.value, e.pointer)) <==> v in UnitSet(p.UnitAt(next.value, next.pointer))
  {
    hide RefPointer, Target;
    var ref := p.pureRef(e.value.id).value;
    PureUnit(p.UnitAt(e.value, e.pointer), e.value.id, ref, next.value, Some(next.pointer));
  }

  /** A resource lies in the unit of a root exactly when it lies in the unit of its canonical target. */
  lemma {:induction false} CanonicalUnit(p: Pass, seen: set<Id>, e: Spot, v: Value)
    requires Coherent(p) && IsResourceRoot(p.c, Root(v, ""))
    ensures var end := Canonical(p, seen, e);
      v in UnitSet(p.UnitAt(e.value, e.pointer)) <==> v in UnitSet(p.UnitAt(end.value, end.pointer))
    decreases Unreached(p.c.heap, seen)
  {
    hide CanonicalStep, IsResourceRoot;
    var next := CanonicalStep(p, e);
    if next.Some? && !(e.value.id in seen || e.value.id >= |p.c.heap|) {
      UnreachedShrinks(p.c.heap, seen, seen + {e.value.id});
      assert e.value.id in seen + {e.value.id};
      StepUnit(p, e, next.value, v);
      CanonicalUnit(p, seen + {e.value.id}, next.value, v);
    }
  }

  lemma {:induction false} OtherUnit(u: Unit, v: Value)
    requires u.entry.Other?
    ensures v in UnitSet(u) <==> v == u.entry
  {
    hide Edges, NameOf, BaseOf;
    assert Closed(u, {u.entry});
    assert v in UnitSet(u) ==> Needed(u, v);
  }

  /** Units prepared for roots that share a key hold the same resources. */
  lemma SameKeySameResources(p: Pass, i: nat, j: nat, v: Value)
    requires Coherent(p) && IsResourceRoot(p.c, Root(v, ""))
    requires i < |p.AllRoots()| && j < |p.AllRoots()| && PreparedAt(p, i).Some? && PreparedAt(p, j).Some?
    requires KeyOf(SpotAt(p, i)) == KeyOf(SpotAt(p, j))
    ensures v in PreparedAt(p, i).value.nodes <==> v in PreparedAt(p, j).value.nodes
  {
    hide Canonical, IsUnit, Admits, Coherent;
    var a, b := SpotAt(p, i), SpotAt(p, j);
    PreparedHolds(p, i, v);
    PreparedHolds(p, j, v);
    var u, w := p.UnitAt(a.value, a.pointer), p.UnitAt(b.value, b.pointer);
    if a.value.Obj? {
      SameEntrySameUnit(u, Some(b.pointer));
      assert w == u.(pointer := Some(b.pointer));
    } else {
      OtherUnit(u, v);
      OtherUnit(w, v);
    }
  }

  lemma PreparedHolds(p: Pass, n: nat, v: Value)
    requires Coherent(p) && IsResourceRoot(p.c, Root(v, ""))
    requires n < |p.AllRoots()| && PreparedAt(p, n).Some?
    ensures v in PreparedAt(p, n).value.nodes <==> v in UnitSet(p.UnitAt(SpotAt(p, n).value, SpotAt(p, n).pointer))
  {
    hide Canonical, IsUnit, Admits, Coherent, IsResourceRoot;
    var root := p.AllRoots()[n];
    CanonicalUnit(p, {}, Spot(root.value, root.pointer), v);
  }

  // ---- One step of each run ----

  /** What one root adds to the table of the pass that compiles afresh. */
  ghost function FreshEmits(p: Pass, compile: Compiler, covered: set<Value>, n: nat): seq<Finding>
    requires n < |p.AllRoots()|
  {
    var root := p.AllRoots()[n];
    if Considered(p, covered, n) && n in p.rootErrors then GraphError(p, n)
    else if Passes(p, covered, n) && PreparedAt(p, n).Some? then
      AllAtEntry(p, root, CompileFindings(compile, root, InputAt(p, n)))
    else []
  }

  /** What one root adds to the table of the pass that remembers. */
  ghost function CachedEmits(p: Pass, compile: Compiler, k: Cached, n: nat): seq<Finding>
    requires n < |p.AllRoots()|
  {
    if Passes(p, k.s.covered, n) && KeyOf(SpotAt(p, n)) in k.cache then
      AllAtEntry(p, p.AllRoots()[n], k.cache[KeyOf(SpotAt(p, n))])
    else FreshEmits(p, compile, k.s.covered, n)
  }

  lemma FreshStepIs(p: Pass, compile: Compiler, s: State, n: nat)
    requires n < |p.AllRoots()|
    ensures FreshStep(p, compile, s, n) == State(
      if Passes(p, s.covered, n) && PreparedAt(p, n).Some? then s.covered + CoveredBy(p, PreparedAt(p, n).value.nodes)
      else s.covered,
      AddAll(s.table, FreshEmits(p, compile, s.covered, n)))
  {
    hide PreparedAt, CoveredBy, AllAtEntry, CompileFindings, GraphError, SpotAt, Considered;
  }

  /** The root is compiled, and what it produces is remembered. */
  ghost predicate Misses(p: Pass, k: Cached, n: nat)
    requires n < |p.AllRoots()|
  {
    Passes(p, k.s.covered, n) && KeyOf(SpotAt(p, n)) !in k.cache && PreparedAt(p, n).Some?
  }

  lemma CachedStepIs(p: Pass, compile: Compiler, k: Cached, n: nat)
    requires n < |p.AllRoots()|
    ensures CachedStep(p, compile, k, n) == Cached(
      if Misses(p, k, n) then k.cache[KeyOf(SpotAt(p, n)) := CompileFindings(compile, p.AllRoots()[n], InputAt(p, n))]
      else k.cache,
      State(
        if Misses(p, k, n) then k.s.covered + CoveredBy(p, PreparedAt(p, n).value.nodes) else k.s.covered,
        AddAll(k.s.table, CachedEmits(p, compile, k, n))))
  {
    hide PreparedAt, CoveredBy, AllAtEntry, CompileFindings, GraphError, SpotAt, Considered;
  }

  lemma CompilesIs(p: Pass, n: nat)
    requires n < |p.AllRoots()|
    ensures Compiles(p, n) <==> Passes(p, CoveredAt(p, n), n) && PreparedAt(p, n).Some?
    ensures Eligible(p, n) <==> Passes(p, CoveredAt(p, n), n)
    ensures CoveredAt(p, n + 1)
         == if Compiles(p, n) then CoveredAt(p, n) + CoveredBy(p, PreparedAt(p, n).value.nodes) else CoveredAt(p, n)
  {
    hide PreparedAt, CoveredBy, Passes;
  }

  // ---- The runs in step ----

  /** The first of the first roots that is compiled for a key. */
  ghost predicate FirstFor(p: Pass, key: Key, i: nat, n: nat)
    requires n <= |p.AllRoots()|
  {
    && i < n && Compiles(p, i) && KeyOf(SpotAt(p, i)) == key
    && forall j: nat :: j < i && Compiles(p, j) ==> KeyOf(SpotAt(p, j)) != key
  }

  lemma {:induction false} FirstOf(p: Pass, key: Key, n: nat) returns (i: nat)
    requires n < |p.AllRoots()| && Compiles(p, n) && KeyOf(SpotAt(p, n)) == key
    ensures i <= n && FirstFor(p, key, i, n + 1)
  {
    hide Compiles, SpotAt;
    if j: nat :| j < n && Compiles(p, j) && KeyOf(SpotAt(p, j)) == key {
      i := FirstOf(p, key, j);
    } else {
      i := n;
    }
  }

  /** The two sets agree on the embedded resources. */
  ghost predicate SameCover(p: Pass, a: set<Value>, b: set<Value>) {
    forall r :: r in p.t.resources ==> (r.value in a <==> r.value in b)
  }

  /** What is remembered for a key is what its first compiled root produced. */
  ghost predicate Remembers(p: Pass, compile: Compiler, cache: map<Key, seq<Finding>>, n: nat)
    requires n <= |p.AllRoots()|
  {
    && (forall key, i: nat :: FirstFor(p, key, i, n) ==> MadeBy(p, compile, cache, key, i))
    && (forall key :: key in cache ==> HasFirst(p, key, n))
  }

  ghost predicate MadeBy(p: Pass, compile: Compiler, cache: map<Key, seq<Finding>>, key: Key, i: nat) {
    && i < |p.AllRoots()| && key in cache
    && cache[key] == CompileFindings(compile, p.AllRoots()[i], InputAt(p, i))
  }

  ghost predicate HasFirst(p: Pass, key: Key, n: nat)
    requires n <= |p.AllRoots()|
  {
    exists i: nat :: FirstFor(p, key, i, n)
  }

  lemma SameCoverSamePasses(p: Pass, a: set<Value>, b: set<Value>, n: nat)
    requires SameCover(p, a, b) && n < |p.AllRoots()|
    ensures Considered(p, a, n) <==> Considered(p, b, n)
    ensures Passes(p, a, n) <==> Passes(p, b, n)
  {
    hide PreparedAt;
    if n >= |p.roots| {
      assert p.AllRoots()[n] == p.t.resources[n - |p.roots|];
    }
  }

  lemma {:induction false} CoveredGrows(p: Pass, i: nat, n: nat)
    requires i < n <= |p.AllRoots()| && Compiles(p, i)
    ensures CoveredBy(p, PreparedAt(p, i).value.nodes) <= CoveredAt(p, n)
  {
    hide Compiles, PreparedAt, CoveredBy;
    if i < n - 1 {
      CoveredGrows(p, i, n - 1);
    }
  }

  lemma CoverOfRepeat(p: Pass, i: nat, n: nat)
    requires Coherent(p) && i < n < |p.AllRoots()| && Compiles(p, i) && PreparedAt(p, n).Some?
    requires KeyOf(SpotAt(p, i)) == KeyOf(SpotAt(p, n))
    ensures SameCover(p, CoveredAt(p, n) + CoveredBy(p, PreparedAt(p, n).value.nodes), CoveredAt(p, n))
  {
    hide PreparedAt, CoveredAt, SpotAt, IsResourceRoot;
    CoveredGrows(p, i, n);
    forall r | r in p.t.resources && r.value in CoveredBy(p, PreparedAt(p, n).value.nodes)
      ensures r.value in CoveredAt(p, n) {
      SameResourceAnyPointer(p, r);
      SameKeySameResources(p, i, n, r.value);
    }
  }

  lemma SameResourceAnyPointer(p: Pass, r: Root)
    requires Coherent(p) && r in p.t.resources
    ensures IsResourceRoot(p.c, Root(r.value, ""))
  {
  }

  lemma CoveredStart(p: Pass)
    ensures CoveredAt(p, 0) == {}
  {
  }

  lemma {:induction false} FreshCovered(p: Pass, compile: Compiler, n: nat)
    requires n <= |p.AllRoots()|
    ensures FreshRun(p, compile, n).covered == CoveredAt(p, n)
  {
    hide PreparedAt, CoveredBy, FreshStep, FreshEmits, Passes, CoveredAt, Compiles;
    if n == 0 {
      assert CoveredAt(p, 0) == {} by { CoveredStart(p); }
    } else {
      FreshCovered(p, compile, n - 1);
      FreshStepIs(p, compile, FreshRun(p, compile, n - 1), n - 1);
      CompilesIs(p, n - 1);
    }
  }

  /** Both runs look at the same roots, and the cache holds exactly the keys compiled so far. */
  lemma {:induction false} InStep(p: Pass, compile: Compiler, n: nat)
    requires Coherent(p) && n <= |p.AllRoots()|
    ensures SameCover(p, CachedRun(p, compile, n).s.covered, CoveredAt(p, n))
    ensures Remembers(p, compile, CachedRun(p, compile, n).cache, n)
  {
    hide Coherent, CachedStep, CoveredAt, Compiles, SameCover, Remembers;
    if n == 0 {
      NothingRemembered(p, compile);
    } else {
      InStep(p, compile, n - 1);
      CoverInStep(p, compile, n - 1, CachedRun(p, compile, n - 1));
      CacheInStep(p, compile, n - 1, CachedRun(p, compile, n - 1));
    }
  }

  lemma NothingRemembered(p: Pass, compile: Compiler)
    ensures SameCover(p, {}, CoveredAt(p, 0)) && Remembers(p, compile, map[], 0)
  {
  }

  lemma CoverInStep(p: Pass, compile: Compiler, n: nat, k: Cached)
    requires Coherent(p) && n < |p.AllRoots()|
    requires SameCover(p, k.s.covered, CoveredAt(p, n)) && Remembers(p, compile, k.cache, n)
    ensures SameCover(p, CachedStep(p, compile, k, n).s.covered, CoveredAt(p, n + 1))
  {
    hide Coherent, PreparedAt, SpotAt, CoveredBy, CachedEmits, CompileFindings, CachedStep, Passes, CoveredAt, Compiles;
    SameCoverSamePasses(p, k.s.covered, CoveredAt(p, n), n);
    CachedStepIs(p, compile, k, n);
    CompilesIs(p, n);
    var key := KeyOf(SpotAt(p, n));
    if Compiles(p, n) && key in k.cache {
      assert HasFirst(p, key, n);
      var i: nat :| FirstFor(p, key, i, n);
      CoverOfRepeat(p, i, n);
    }
  }

  lemma FirstForKept(p: Pass, key: Key, i: nat, n: nat)
    requires n < |p.AllRoots()|
    ensures FirstFor(p, key, i, n) ==> FirstFor(p, key, i, n + 1)
    ensures FirstFor(p, key, i, n + 1) && i < n ==> FirstFor(p, key, i, n)
  {
    hide Compiles, SpotAt;
  }

  lemma FirstForUnique(p: Pass, key: Key, i: nat, j: nat, n: nat)
    requires n <= |p.AllRoots()| && FirstFor(p, key, i, n) && FirstFor(p, key, j, n)
    ensures i == j
  {
    hide Compiles, SpotAt;
  }

  lemma CacheInStep(p: Pass, compile: Compiler, n: nat, k: Cached)
    requires n < |p.AllRoots()|
    requires SameCover(p, k.s.covered, CoveredAt(p, n)) && Remembers(p, compile, k.cache, n)
    ensures Remembers(p, compile, CachedStep(p, compile, k, n).cache, n + 1)
  {
    hide PreparedAt, SpotAt, CoveredBy, CachedEmits, CompileFindings, CachedStep, Passes, CoveredAt, Compiles;
    SameCoverSamePasses(p, k.s.covered, CoveredAt(p, n), n);
    CachedStepIs(p, compile, k, n);
    CompilesIs(p, n);
    var next := CachedStep(p, compile, k, n).cache;
    var own := KeyOf(SpotAt(p, n));
    forall key, i: nat | FirstFor(p, key, i, n + 1) ensures MadeBy(p, compile, next, key, i) {
      FirstForKept(p, key, i, n);
      if key in k.cache {
        assert HasFirst(p, key, n);
        var j: nat :| FirstFor(p, key, j, n);
        FirstForKept(p, key, j, n);
        FirstForUnique(p, key, i, j, n + 1);
      }
    }
    forall key: Key | key in next ensures HasFirst(p, key, n + 1) {
      if key in k.cache {
        assert HasFirst(p, key, n);
        var i: nat :| FirstFor(p, key, i, n);
        FirstForKept(p, key, i, n);
      } else {
        var i := FirstOf(p, key, n);
      }
    }
  }
}

/**
 * The document's schema inventory: the authored roots, plus every root a
 * reference establishes outside them.
 *
 * Discovery adds roots until nothing lands outside; pruning then drops the
 * roots no reference reaches under the scope discovery settled on.
 */
module Inventory {
  import opened Options
  import opened SchemaHeap
  import opened Dialects
  import opened Rebuild
  import opened DialectWalk
  import opened References
  import opened RootPointers
  import opened DialectResults

  // ---- What the authored roots reach through references and subschemas ----

  /** The values one object leads to: its followed references' targets, then its kept subschemas. */
  function Leads(c: Config, refs: Resolver, scope: Scope, t: Tables, from: Id): seq<Value> {
    Targets(c, refs, scope, t, from, StaticRef) + Targets(c, refs, scope, t, from, DynamicRef)
    + Values(Kept(SchemaOf(c.heap, from), c.Suppress()))
  }

  function Targets(c: Config, refs: Resolver, scope: Scope, t: Tables, from: Id, kind: RefKind): seq<Value> {
    match Follow(c, refs, scope, t, from, kind)
    case None => []
    case Some(followed) => [followed.target]
  }

  function Values(entries: seq<Entry>): seq<Value> {
    if entries == [] then [] else [entries[0].value] + Values(entries[1..])
  }

  function RootValues(roots: seq<Root>): seq<Value> {
    if roots == [] then [] else [roots[0].value] + RootValues(roots[1..])
  }

  /** A way from a root to a value, each step led to by the object before it. */
  ghost predicate Route(c: Config, refs: Resolver, scope: Scope, t: Tables, starts: seq<Value>, route: seq<Value>) {
    && route != []
    && route[0] in starts
    && forall k :: 0 <= k < |route| - 1 ==> route[k].Obj? && route[k + 1] in Leads(c, refs, scope, t, route[k].id)
  }

  ghost predicate Reachable(c: Config, refs: Resolver, scope: Scope, t: Tables, starts: seq<Value>, v: Value) {
    exists route: seq<Value> :: Route(c, refs, scope, t, starts, route) && route[|route| - 1] == v
  }

  lemma ReachableStart(c: Config, refs: Resolver, scope: Scope, t: Tables, starts: seq<Value>, v: Value)
    requires v in starts
    ensures Reachable(c, refs, scope, t, starts, v)
  {
    assert Route(c, refs, scope, t, starts, [v]) && [v][|[v]| - 1] == v;
  }

  lemma ReachableStep(c: Config, refs: Resolver, scope: Scope, t: Tables, starts: seq<Value>, from: Id, v: Value)
    requires Reachable(c, refs, scope, t, starts, Obj(from)) && v in Leads(c, refs, scope, t, from)
    ensures Reachable(c, refs, scope, t, starts, v)
  {
    hide Leads;
    var route: seq<Value> :| Route(c, refs, scope, t, starts, route) && route[|route| - 1] == Obj(from);
    var longer := route + [v];
    assert forall k :: 0 <= k < |route| ==> longer[k] == route[k];
    assert Route(c, refs, scope, t, starts, longer) && longer[|longer| - 1] == v;
  }

  /** The pointers the references of some objects land on. */
  function LandingOf(c: Config, refs: Resolver, scope: Scope, t: Tables, from: Id, kind: RefKind): set<string> {
    match Follow(c, refs, scope, t, from, kind)
    case None => {}
    case Some(followed) => if followed.pointer.Some? then {followed.pointer.value} else {}
  }

  /** A reference reached from the authored roots lands on the pointer. */
  ghost predicate Referenced(c: Config, refs: Resolver, scope: Scope, t: Tables, starts: seq<Value>, pointer: string) {
    exists from: Id, kind :: Reachable(c, refs, scope, t, starts, Obj(from))
      && pointer in LandingOf(c, refs, scope, t, from, kind)
  }

  function Without(roots: seq<Root>, dropped: seq<Root>): seq<Root> {
    if roots == [] then []
    else (if roots[0] in dropped then [] else [roots[0]]) + Without(roots[1..], dropped)
  }

  lemma {:induction false} WithoutAppended(authored: seq<Root>, additional: seq<Root>, dropped: seq<Root>)
    requires forall r :: r in authored ==> r !in dropped
    requires forall r :: r in additional ==> r in dropped
    ensures Without(authored + additional, dropped) == authored
  {
    if authored == [] {
      assert authored + additional == additional;
      if additional != [] {
        WithoutAppended([], additional[1..], dropped);
        assert [] + additional[1..] == additional[1..];
      }
    } else {
      assert (authored + additional)[1..] == authored[1..] + additional;
      WithoutAppended(authored[1..], additional, dropped);
    }
  }

  /** What a collection in progress knows: every reachable object is seen or still pending. */
  ghost predicate Collecting(
    c: Config, refs: Resolver, scope: Scope, t: Tables, starts: seq<Value>, pending: seq<Value>, seen: set<Id>)
  {
    && (forall v :: v in pending ==> Reachable(c, refs, scope, t, starts, v))
    && (forall id :: id in seen ==> Reachable(c, refs, scope, t, starts, Obj(id)))
    && (forall v :: v in starts && v.Obj? ==> v.id in seen || v in pending)
    && (forall id, v :: id in seen && v in Leads(c, refs, scope, t, id) && v.Obj? ==> v.id in seen || v in pending)
  }

  lemma CollectStep(
    c: Config, refs: Resolver, scope: Scope, t: Tables, starts: seq<Value>, pending: seq<Value>, seen: set<Id>, id: Id)
    requires pending != [] && pending[|pending| - 1] == Obj(id)
    requires Collecting(c, refs, scope, t, starts, pending, seen)
    ensures var rest := pending[..|pending| - 1];
      Collecting(c, refs, scope, t, starts, rest + Leads(c, refs, scope, t, id), seen + {id})
  {
    hide Leads, Reachable;
    var rest := pending[..|pending| - 1];
    var leads := Leads(c, refs, scope, t, id);
    assert forall v :: v in pending ==> v in rest || v == Obj(id);
    forall v | v in rest + leads ensures Reachable(c, refs, scope, t, starts, v) {
      if v in leads {
        ReachableStep(c, refs, scope, t, starts, id, v);
      }
    }
  }

  lemma CollectSkip(c: Config, refs: Resolver, scope: Scope, t: Tables, starts: seq<Value>, pending: seq<Value>,
    seen: set<Id>)
    requires pending != [] && (pending[|pending| - 1].Obj? ==> pending[|pending| - 1].id in seen)
    requires Collecting(c, refs, scope, t, starts, pending, seen)
    ensures Collecting(c, refs, scope, t, starts, pending[..|pending| - 1], seen)
  {
    hide Leads, Reachable;
    assert forall v :: v in pending ==> v in pending[..|pending| - 1] || v == pending[|pending| - 1];
  }

  /** A set of objects that holds the starting ones and everything each of its members leads to. */
  ghost predicate ClosedOver(c: Config, refs: Resolver, scope: Scope, t: Tables, starts: seq<Value>, seen: set<Id>) {
    && (forall v :: v in starts && v.Obj? ==> v.id in seen)
    && (forall id, v :: id in seen && v in Leads(c, refs, scope, t, id) && v.Obj? ==> v.id in seen)
  }

  /** Once nothing is pending, everything reachable has been seen. */
  lemma {:induction false} RouteStaysIn(
    c: Config, refs: Resolver, scope: Scope, t: Tables, starts: seq<Value>, route: seq<Value>, seen: set<Id>)
    requires Route(c, refs, scope, t, starts, route) && ClosedOver(c, refs, scope, t, starts, seen)
    requires route[|route| - 1].Obj?
    ensures route[|route| - 1].id in seen
    decreases |route|
  {
    hide Leads;
    if |route| > 1 {
      var front := route[..|route| - 1];
      assert route[|route| - 2 + 1] in Leads(c, refs, scope, t, route[|route| - 2].id);
      RouteStaysIn(c, refs, scope, t, starts, front, seen);
    }
  }

  lemma CollectedClosed(c: Config, refs: Resolver, scope: Scope, t: Tables, starts: seq<Value>, seen: set<Id>)
    requires Collecting(c, refs, scope, t, starts, [], seen)
    ensures ClosedOver(c, refs, scope, t, starts, seen)
  {
    hide Leads, Reachable;
  }

  lemma CollectedAll(c: Config, refs: Resolver, scope: Scope, t: Tables, starts: seq<Value>, seen: set<Id>, id: Id)
    requires Collecting(c, refs, scope, t, starts, [], seen)
    ensures id in seen <==> Reachable(c, refs, scope, t, starts, Obj(id))
  {
    hide Leads, ClosedOver;
    CollectedClosed(c, refs, scope, t, starts, seen);
    if Reachable(c, refs, scope, t, starts, Obj(id)) {
      var route: seq<Value> :| Route(c, refs, scope, t, starts, route) && route[|route| - 1] == Obj(id);
      RouteStaysIn(c, refs, scope, t, starts, route, seen);
    }
  }

  /** The pointers landed on by the references of some objects, and no others. */
  ghost predicate LandingsOf(c: Config, refs: Resolver, scope: Scope, t: Tables, seen: set<Id>, landings: set<string>) {
    forall p :: p in landings
      <==> exists from: Id, kind :: from in seen && p in LandingOf(c, refs, scope, t, from, kind)
  }

  lemma LandingsGrow(
    c: Config, refs: Resolver, scope: Scope, t: Tables, seen: set<Id>, landings: set<string>, id: Id)
    requires LandingsOf(c, refs, scope, t, seen, landings)
    ensures LandingsOf(c, refs, scope, t, seen + {id},
      landings + LandingOf(c, refs, scope, t, id, StaticRef) + LandingOf(c, refs, scope, t, id, DynamicRef))
  {
    hide LandingOf;
    var a, b := LandingOf(c, refs, scope, t, id, StaticRef), LandingOf(c, refs, scope, t, id, DynamicRef);
    forall p ensures p in landings + a + b
      <==> exists from: Id, kind :: from in seen + {id} && p in LandingOf(c, refs, scope, t, from, kind)
    {
      if p in landings {
        var from: Id, kind :| from in seen && p in LandingOf(c, refs, scope, t, from, kind);
        assert from in seen + {id};
      }
      if from: Id, kind :| from in seen + {id} && p in LandingOf(c, refs, scope, t, from, kind) {
        match kind
        case StaticRef =>
        case DynamicRef =>
      }
    }
  }

  /** Collect every pointer that a reference reached from some values lands on. */
  method CollectReferenced(c: Config, refs: Resolver, scope: Scope, t: Tables, starts: seq<Value>)
    returns (referenced: set<string>)
    ensures forall p :: p in referenced <==> Referenced(c, refs, scope, t, starts, p)
  {
    hide Leads, LandingOf, Reachable, LandingsOf, Collecting;
    referenced := {};
    var seen: set<Id> := {};
    var pending := starts;
    CollectStart(c, refs, scope, t, starts);
    while pending != []
      invariant Collecting(c, refs, scope, t, starts, pending, seen)
      invariant LandingsOf(c, refs, scope, t, seen, referenced)
      decreases Unreached(c.heap, seen), |pending|
    {
      var node := pending[|pending| - 1];
      if node.Other? || node.id in seen {
        CollectSkip(c, refs, scope, t, starts, pending, seen);
        pending := pending[..|pending| - 1];
        continue;
      }
      CollectStep(c, refs, scope, t, starts, pending, seen, node.id);
      LandingsGrow(c, refs, scope, t, seen, referenced, node.id);
      SeenGrows(c, refs, scope, t, seen, node.id);
      pending := pending[..|pending| - 1];
      seen := seen + {node.id};
      referenced := referenced + LandingOf(c, refs, scope, t, node.id, StaticRef);
      referenced := referenced + LandingOf(c, refs, scope, t, node.id, DynamicRef);
      pending := pending + Leads(c, refs, scope, t, node.id);
    }
    CollectedReferenced(c, refs, scope, t, starts, seen, referenced);
  }

  lemma SeenGrows(c: Config, refs: Resolver, scope: Scope, t: Tables, seen: set<Id>, id: Id)
    requires id !in seen
    ensures Unreached(c.heap, seen + {id}) <= Unreached(c.heap, seen)
    ensures Unreached(c.heap, seen + {id}) == Unreached(c.heap, seen) ==> Leads(c, refs, scope, t, id) == []
  {
    UnreachedShrinks(c.heap, seen, seen + {id});
    assert id in seen + {id};
  }

  lemma CollectStart(c: Config, refs: Resolver, scope: Scope, t: Tables, starts: seq<Value>)
    ensures Collecting(c, refs, scope, t, starts, starts, {})
    ensures LandingsOf(c, refs, scope, t, {}, {})
  {
    hide Reachable;
    forall v | v in starts ensures Reachable(c, refs, scope, t, starts, v) {
      ReachableStart(c, refs, scope, t, starts, v);
    }
  }

  lemma CollectedReferenced(
    c: Config, refs: Resolver, scope: Scope, t: Tables, starts: seq<Value>, seen: set<Id>, referenced: set<string>)
    requires Collecting(c, refs, scope, t, starts, [], seen)
    requires LandingsOf(c, refs, scope, t, seen, referenced)
    ensures forall p :: p in referenced <==> Referenced(c, refs, scope, t, starts, p)
  {
    hide LandingOf, Reachable, Collecting;
    forall p ensures p in referenced <==> Referenced(c, refs, scope, t, starts, p) {
      if p in referenced {
        var from: Id, kind :| from in seen && p in LandingOf(c, refs, scope, t, from, kind);
        CollectedAll(c, refs, scope, t, starts, seen, from);
      }
      if from: Id, kind :|
        Reachable(c, refs, scope, t, starts, Obj(from)) && p in LandingOf(c, refs, scope, t, from, kind) {
        CollectedAll(c, refs, scope, t, starts, seen, from);
      }
    }
  }

  // ---- Dropping roots from the two lists that hold them ----

  function KeptRoots(roots: seq<Root>, referenced: set<string>): seq<Root> {
    if roots == [] then []
    else KeptRoot(roots[0], referenced) + KeptRoots(roots[1..], referenced)
  }

  function KeptRoot(root: Root, referenced: set<string>): seq<Root> {
    if root.pointer in referenced then [root] else []
  }

  lemma {:induction false} KeptRootsMember(roots: seq<Root>, referenced: set<string>, root: Root)
    ensures root in KeptRoots(roots, referenced) <==> root in roots && root.pointer in referenced
  {
    if roots != [] {
      KeptRootsMember(roots[1..], referenced, root);
      assert roots == [roots[0]] + roots[1..];
    }
  }

  lemma {:induction false} KeptRootsSnoc(roots: seq<Root>, referenced: set<string>, root: Root)
    ensures KeptRoots(roots + [root], referenced) == KeptRoots(roots, referenced) + KeptRoot(root, referenced)
  {
    if roots == [] {
      assert roots + [root] == [root] && [root][1..] == [];
    } else {
      assert (roots + [root])[1..] == roots[1..] + [root] && (roots + [root])[0] == roots[0];
      KeptRootsSnoc(roots[1..], referenced, root);
      ConcatAssoc(KeptRoot(roots[0], referenced), KeptRoots(roots[1..], referenced), KeptRoot(root, referenced));
    }
  }

  lemma {:induction false} KeptRootsDistinct(roots: seq<Root>, referenced: set<string>)
    requires DistinctRoots(roots)
    ensures DistinctRoots(KeptRoots(roots, referenced))
    ensures |KeptRoots(roots, referenced)| <= |roots|
    ensures |KeptRoots(roots, referenced)| == |roots| ==> KeptRoots(roots, referenced) == roots
  {
    if roots != [] {
      KeptRootsDistinct(roots[1..], referenced);
      KeptRootsMember(roots[1..], referenced, roots[0]);
      assert roots == [roots[0]] + roots[1..];
    }
  }

  ghost predicate DistinctRoots(roots: seq<Root>) {
    forall i, j :: 0 <= i < j < |roots| ==> roots[i] != roots[j]
  }

  function IndexOf(roots: seq<Root>, root: Root): (i: nat)
    requires root in roots
    ensures i < |roots| && roots[i] == root && root !in roots[..i]
  {
    if roots[0] == root then 0
    else
      var i := 1 + IndexOf(roots[1..], root);
      assert roots[..i] == [roots[0]] + roots[1..][..i - 1];
      i
  }

  /** Remove the first occurrence, as `splice(indexOf(root), 1)` and `Set.delete` do. */
  function Dropped(roots: seq<Root>, root: Root): seq<Root>
    requires root in roots
  {
    roots[..IndexOf(roots, root)] + roots[IndexOf(roots, root) + 1..]
  }

  lemma DroppedFromMiddle(front: seq<Root>, root: Root, back: seq<Root>)
    requires root !in front
    ensures root in front + [root] + back && Dropped(front + [root] + back, root) == front + back
  {
    var all := front + [root] + back;
    assert all[|front|] == root;
    var i := IndexOf(all, root);
    assert i <= |front|;
    assert i == |front|;
    assert all[..i] == front && all[i + 1..] == back;
  }

  /** The object was listed at some time since discovery had only the roots in `start`. */
  ghost predicate MetSince(c: Config, authored: seq<Root>, start: seq<Root>, additional: seq<Root>, from: Id) {
    exists m :: |start| <= m <= |additional| && from in Rebuilt(c, authored, additional[..m]).nodes
  }

  /**
   * The `k`-th additional root is one that a reference of a listed schema established in the scope of
   * those before it.
   */
  ghost predicate Established(
    c: Config, refs: Resolver, authored: seq<Root>, start: seq<Root>, additional: seq<Root>, k: nat)
    requires k < |additional|
  {
    exists from: Id, kind ::
      MetSince(c, authored, start, additional[..k], from)
      && EstablishedBy(c, refs, authored, additional[..k], from, kind, additional[k])
  }

  ghost predicate EstablishedBy(
    c: Config, refs: Resolver, authored: seq<Root>, before: seq<Root>, from: Id, kind: RefKind, root: Root)
  {
    NewRoot(c, refs, Scope(authored, before), Rebuilt(c, authored, before), from, kind) == Some(root)
  }

  ghost predicate AllEstablished(c: Config, refs: Resolver, authored: seq<Root>, start: seq<Root>,
    additional: seq<Root>) {
    && start <= additional
    && forall k :: |start| <= k < |additional| ==> Established(c, refs, authored, start, additional, k)
  }

  lemma EstablishedAt(
    c: Config, refs: Resolver, authored: seq<Root>, start: seq<Root>, additional: seq<Root>, k: nat, from: Id,
    kind: RefKind)
    requires k < |additional| && MetSince(c, authored, start, additional[..k], from)
    requires EstablishedBy(c, refs, authored, additional[..k], from, kind, additional[k])
    ensures Established(c, refs, authored, start, additional, k)
  {
    hide EstablishedBy, MetSince;
  }

  lemma EstablishedNext(
    c: Config, refs: Resolver, authored: seq<Root>, start: seq<Root>, additional: seq<Root>, from: Id, kind: RefKind,
    root: Root)
    requires AllEstablished(c, refs, authored, start, additional)
    requires MetSince(c, authored, start, additional, from)
    requires EstablishedBy(c, refs, authored, additional, from, kind, root)
    ensures AllEstablished(c, refs, authored, start, additional + [root])
  {
    hide EstablishedBy, MetSince;
    var more := additional + [root];
    forall k | |start| <= k < |more| ensures Established(c, refs, authored, start, more, k) {
      if k < |additional| {
        assert Established(c, refs, authored, start, additional, k);
        assert more[..k] == additional[..k] && more[k] == additional[k];
      } else {
        assert more[..k] == additional && more[k] == root;
        EstablishedAt(c, refs, authored, start, more, k, from, kind);
      }
    }
  }

  lemma MetLater(
    c: Config, authored: seq<Root>, start: seq<Root>, later: seq<Root>, additional: seq<Root>, more: seq<Root>,
    from: Id)
    requires MetSince(c, authored, later, additional, from) && |start| <= |later| && additional <= more
    ensures MetSince(c, authored, start, more, from)
  {
    hide Rebuilt;
    var m :| |later| <= m <= |additional| && from in Rebuilt(c, authored, additional[..m]).nodes;
    assert more[..m] == additional[..m];
  }

  lemma MetNow(c: Config, authored: seq<Root>, start: seq<Root>, additional: seq<Root>, from: Id)
    requires |start| <= |additional| && from in Rebuilt(c, authored, additional).nodes
    ensures MetSince(c, authored, start, additional, from)
  {
    hide Rebuilt;
    assert additional[..|additional|] == additional;
  }

  lemma EstablishedTwice(c: Config, refs: Resolver, authored: seq<Root>, a: seq<Root>, b: seq<Root>, d: seq<Root>)
    requires AllEstablished(c, refs, authored, a, b) && AllEstablished(c, refs, authored, b, d)
    ensures AllEstablished(c, refs, authored, a, d)
  {
    hide EstablishedBy, MetSince;
    forall k | |a| <= k < |d| ensures Established(c, refs, authored, a, d, k) {
      if k < |b| {
        assert Established(c, refs, authored, a, b, k);
        assert d[..k] == b[..k] && d[k] == b[k];
      } else {
        assert Established(c, refs, authored, b, d, k);
        var from: Id, kind :|
          MetSince(c, authored, b, d[..k], from) && EstablishedBy(c, refs, authored, d[..k], from, kind, d[k]);
        MetLater(c, authored, a, b, d[..k], d[..k], from);
      }
    }
  }

  lemma EstablishedNone(c: Config, refs: Resolver, authored: seq<Root>, additional: seq<Root>)
    ensures AllEstablished(c, refs, authored, additional, additional)
  {
  }

  /** No reference of a schema listed now, or after further discovery, establishes another root. */
  ghost predicate NothingMore(c: Config, refs: Resolver, authored: seq<Root>, additional: seq<Root>) {
    forall more :: AllEstablished(c, refs, authored, additional, more) ==> more == additional
  }

  ghost predicate Settled(c: Config, refs: Resolver, authored: seq<Root>, additional: seq<Root>) {
    var t := Rebuilt(c, authored, additional);
    SettledUpTo(c, refs, Scope(authored, additional), t, |t.entries|)
  }

  /** The references are settled exactly when discovering again, from where it stands, can add no root. */
  lemma SettledExactly(c: Config, refs: Resolver, authored: seq<Root>, additional: seq<Root>)
    ensures Settled(c, refs, authored, additional) <==> NothingMore(c, refs, authored, additional)
  {
    hide Rebuilt, NewRoot, Covered;
    var t := Rebuilt(c, authored, additional);
    RebuiltCovers(c, authored, additional);
    if !Settled(c, refs, authored, additional) {
      var i, kind :| 0 <= i < |t.entries|
        && NewRoot(c, refs, Scope(authored, additional), t, t.entries[i].id, kind).Some?;
      var from := t.entries[i].id;
      var root := NewRoot(c, refs, Scope(authored, additional), t, from, kind).value;
      assert EntryMatches(t.nodes, t.entries[i]);
      MetNow(c, authored, additional, additional, from);
      EstablishedNone(c, refs, authored, additional);
      EstablishedNext(c, refs, authored, additional, additional, from, kind, root);
      assert |additional + [root]| > |additional|;
    }
    forall more | AllEstablished(c, refs, authored, additional, more)
      ensures Settled(c, refs, authored, additional) ==> more == additional
    {
      FirstIsUnsettled(c, refs, authored, additional, more);
    }
  }

  /** The first root discovery adds is one the references were not settled about. */
  lemma FirstIsUnsettled(c: Config, refs: Resolver, authored: seq<Root>, additional: seq<Root>, more: seq<Root>)
    requires AllEstablished(c, refs, authored, additional, more)
    ensures Settled(c, refs, authored, additional) ==> more == additional
  {
    hide Rebuilt, NewRoot, Covered;
    var n, t := |additional|, Rebuilt(c, authored, additional);
    if |more| > n {
      assert Established(c, refs, authored, additional, more, n);
      assert more[..n] == additional;
      var from: Id, kind :|
        MetSince(c, authored, additional, additional, from)
        && EstablishedBy(c, refs, authored, additional, from, kind, more[n]);
      var m :| n <= m <= n && from in Rebuilt(c, authored, additional[..m]).nodes;
      assert additional[..m] == additional;
      RebuiltCovers(c, authored, additional);
      assert Listed(t.entries, from);
      var i :| 0 <= i < |t.entries| && t.entries[i].id == from;
      assert NewRoot(c, refs, Scope(authored, additional), t, t.entries[i].id, kind).Some?;
    }
  }

  // ---- What pruning keeps ----

  /** The additional roots some reference reached from the authored ones lands on, in one scope. */
  ghost function Survivors(c: Config, refs: Resolver, scope: Scope, t: Tables, starts: seq<Value>,
    roots: seq<Root>): seq<Root> {
    if roots == [] then []
    else
      (if Referenced(c, refs, scope, t, starts, roots[0].pointer) then [roots[0]] else [])
      + Survivors(c, refs, scope, t, starts, roots[1..])
  }

  lemma {:induction false} SurvivorsMember(
    c: Config, refs: Resolver, scope: Scope, t: Tables, starts: seq<Value>, roots: seq<Root>, root: Root)
    ensures root in Survivors(c, refs, scope, t, starts, roots)
      <==> root in roots && Referenced(c, refs, scope, t, starts, root.pointer)
    ensures |Survivors(c, refs, scope, t, starts, roots)| <= |roots|
    ensures |Survivors(c, refs, scope, t, starts, roots)| == |roots|
      ==> Survivors(c, refs, scope, t, starts, roots) == roots
  {
    hide Referenced;
    if roots != [] {
      SurvivorsMember(c, refs, scope, t, starts, roots[1..], root);
      assert roots == [roots[0]] + roots[1..];
    }
  }

  lemma {:induction false} SurvivorsAreKept(
    c: Config, refs: Resolver, scope: Scope, t: Tables, starts: seq<Value>, roots: seq<Root>, referenced: set<string>)
    requires forall p :: p in referenced <==> Referenced(c, refs, scope, t, starts, p)
    ensures KeptRoots(roots, referenced) == Survivors(c, refs, scope, t, starts, roots)
  {
    hide Referenced;
    if roots != [] {
      SurvivorsAreKept(c, refs, scope, t, starts, roots[1..], referenced);
    }
  }

  ghost function Round(c: Config, refs: Resolver, authored: seq<Root>, additional: seq<Root>): seq<Root> {
    Survivors(c, refs, Scope(authored, additional), Rebuilt(c, authored, additional), RootValues(authored), additional)
  }

  /** Rounds of pruning, each under the scope the one before left, until a round drops nothing. */
  ghost function Pruned(c: Config, refs: Resolver, authored: seq<Root>, additional: seq<Root>): seq<Root>
    decreases |additional|
  {
    if |Round(c, refs, authored, additional)| < |additional|
    then Pruned(c, refs, authored, Round(c, refs, authored, additional))
    else additional
  }

  /**
   * Where pruning ends: only roots that were there before, each of them referenced from
   * a schema the authored roots reach in the scope without the dropped ones.
   */
  lemma {:induction false} PrunedAreReferenced(c: Config, refs: Resolver, authored: seq<Root>, additional: seq<Root>)
    ensures var left := Pruned(c, refs, authored, additional);
      && (forall r :: r in left ==> r in additional)
      && (forall r :: r in left ==>
            Referenced(c, refs, Scope(authored, left), Rebuilt(c, authored, left), RootValues(authored), r.pointer))
    decreases |additional|
  {
    hide Referenced, Survivors, Rebuilt;
    var round := Round(c, refs, authored, additional);
    forall r | r in round
      ensures r in additional
      ensures Referenced(c, refs, Scope(authored, additional), Rebuilt(c, authored, additional), RootValues(authored),
        r.pointer)
    {
      SurvivorsMember(c, refs, Scope(authored, additional), Rebuilt(c, authored, additional), RootValues(authored),
        additional, r);
    }
    if |round| < |additional| {
      PrunedAreReferenced(c, refs, authored, round);
    } else {
      RoundSize(c, refs, authored, additional);
    }
  }

  lemma RoundSize(c: Config, refs: Resolver, authored: seq<Root>, additional: seq<Root>)
    ensures |Round(c, refs, authored, additional)| >= |additional|
      ==> Round(c, refs, authored, additional) == additional
  {
    hide Rebuilt, Survivors;
    SurvivorsMember(
      c, refs, Scope(authored, additional), Rebuilt(c, authored, additional), RootValues(authored), additional,
      Root(Other(0), ""));
  }

  /** What is left of a list once its first roots have been looked at. */
  function Remaining(all: seq<Root>, referenced: set<string>, i: nat): seq<Root>
    requires i <= |all|
  {
    KeptRoots(all[..i], referenced) + all[i..]
  }

  lemma RemainingEnds(all: seq<Root>, referenced: set<string>)
    ensures Remaining(all, referenced, 0) == all && Remaining(all, referenced, |all|) == KeptRoots(all, referenced)
  {
    assert all[..|all|] == all;
  }

  /** What deleting, or keeping, one root does to both lists. */
  lemma DropStep(authored: seq<Root>, all: seq<Root>, i: nat, referenced: set<string>)
    requires i < |all| && DistinctRoots(all)
    requires forall r :: r in authored ==> r !in all
    ensures var current, next := Remaining(all, referenced, i), Remaining(all, referenced, i + 1);
      if all[i].pointer in referenced then next == current
      else
        && all[i] in current && next == Dropped(current, all[i]) && |next| < |current|
        && all[i] in authored + current && authored + next == Dropped(authored + current, all[i])
  {
    hide IndexOf, Dropped;
    var root := all[i];
    var front := KeptRoots(all[..i], referenced);
    assert all[..i + 1] == all[..i] + [root] && all[i..] == [root] + all[i + 1..];
    KeptRootsSnoc(all[..i], referenced, root);
    assert front + all[i..] == front + [root] + all[i + 1..];
    if root.pointer !in referenced {
      KeptRootsMember(all[..i], referenced, root);
      DroppedFromMiddle(front, root, all[i + 1..]);
      assert root !in authored + front;
      assert authored + (front + all[i..]) == authored + front + [root] + all[i + 1..];
      DroppedFromMiddle(authored + front, root, all[i + 1..]);
      assert authored + (front + all[i + 1..]) == authored + front + all[i + 1..];
    }
  }

  lemma SettledNext(c: Config, refs: Resolver, scope: Scope, t: Tables, i: nat)
    requires i < |t.entries| && SettledUpTo(c, refs, scope, t, i)
    requires NewRoot(c, refs, scope, t, t.entries[i].id, StaticRef).None?
    requires NewRoot(c, refs, scope, t, t.entries[i].id, DynamicRef).None?
    ensures SettledUpTo(c, refs, scope, t, i + 1)
  {
    forall j, kind | 0 <= j < i + 1 && j < |t.entries| ensures NewRoot(c, refs, scope, t, t.entries[j].id, kind).None? {
      match kind
      case StaticRef =>
      case DynamicRef =>
    }
  }

  lemma ListedIsMet(c: Config, authored: seq<Root>, start: seq<Root>, additional: seq<Root>, i: nat)
    requires |start| <= |additional| && i < |Rebuilt(c, authored, additional).entries|
    ensures MetSince(c, authored, start, additional, Rebuilt(c, authored, additional).entries[i].id)
  {
    hide Rebuilt, MetSince;
    RebuiltCovers(c, authored, additional);
    var t := Rebuilt(c, authored, additional);
    assert EntryMatches(t.nodes, t.entries[i]);
    MetNow(c, authored, start, additional, t.entries[i].id);
  }

  class DocumentSchemas {
    const c: Config
    const refs: Resolver
    const dialects: SchemaDialects
    var roots: seq<Root>
    var additionalRoots: seq<Root>
    /** The scope the current resolution graph was built in. */
    var graph: Scope

    function Authored(): seq<Root> {
      dialects.roots
    }

    /** The roots are the authored ones then the additional ones, none twice, and every table is up to date. */
    ghost predicate Valid()
      reads this, dialects
    {
      && dialects.c == c
      && roots == Authored() + additionalRoots
      && (forall r :: r in Authored() ==> r !in additionalRoots)
      && DistinctRoots(additionalRoots)
      && graph == Scope(Authored(), additionalRoots)
      && dialects.Snapshot() == Rebuilt(c, Authored(), additionalRoots)
    }

    /** Every reference of every listed schema lands nowhere, on the document, or on a known position. */
    ghost predicate AllSettled()
      reads this, dialects
    {
      SettledUpTo(c, refs, graph, dialects.Snapshot(), |dialects.entries|)
    }

    constructor (c: Config, refs: Resolver, authored: seq<Root>)
      ensures Valid() && fresh(dialects) && this.c == c && this.refs == refs && dialects.roots == authored
      ensures additionalRoots == []
    {
      this.c := c;
      this.refs := refs;
      dialects := new SchemaDialects(c, authored);
      roots := authored;
      additionalRoots := [];
      graph := Scope(authored, []);
    }

    /** Rebuild the tables and the resolution graph from the current roots. */
    method Rescope()
      requires dialects.c == c
      requires roots == Authored() + additionalRoots
      requires forall r :: r in Authored() ==> r !in additionalRoots
      requires DistinctRoots(additionalRoots)
      modifies this`graph, dialects
      ensures Valid()
    {
      WithoutAppended(Authored(), additionalRoots, additionalRoots);
      var original := Without(roots, additionalRoots);
      dialects.RebuildFrom(original, additionalRoots);
      graph := Scope(original, additionalRoots);
    }

    /** Follow one reference of one schema, registering the root it establishes. */
    method RegisterTarget(from: Id, kind: RefKind, ghost start: seq<Root>, ghost left: seq<Root> -> (nat, nat))
      returns (added: bool)
      requires Valid() && Measures(c, refs, Authored(), left)
      requires AllEstablished(c, refs, Authored(), start, additionalRoots)
      requires MetSince(c, Authored(), start, additionalRoots, from)
      modifies this, dialects
      ensures Valid()
      ensures added <==> old(NewRoot(c, refs, graph, dialects.Snapshot(), from, kind)).Some?
      ensures !added ==> roots == old(roots) && additionalRoots == old(additionalRoots) && graph == old(graph)
      ensures !added ==> dialects.Snapshot() == old(dialects.Snapshot())
      ensures !added ==> NewRoot(c, refs, graph, dialects.Snapshot(), from, kind).None?
      ensures added ==> |roots| == |old(roots)| + 1 && Below(left(additionalRoots), left(old(additionalRoots)))
      ensures AllEstablished(c, refs, Authored(), start, additionalRoots) && old(additionalRoots) <= additionalRoots
    {
      hide AllEstablished, MetSince, Rebuilt;
      var root := NewRoot(c, refs, graph, dialects.Snapshot(), from, kind);
      if root.None? {
        return false;
      }
      assert Lowers(c, refs, graph, Authored(), additionalRoots, from, kind, left);
      EstablishedNext(c, refs, Authored(), start, additionalRoots, from, kind, root.value);
      additionalRoots := additionalRoots + [root.value];
      roots := roots + [root.value];
      Rescope();
      return true;
    }

    /** One pass over the listed schemas, which the pass itself may rebuild under the loop. */
    method DiscoverPass(ghost left: seq<Root> -> (nat, nat))
      requires Valid() && Measures(c, refs, Authored(), left)
      modifies this, dialects
      ensures Valid() && AllEstablished(c, refs, Authored(), old(additionalRoots), additionalRoots)
      ensures |roots| == |old(roots)| ==> additionalRoots == old(additionalRoots) && AllSettled()
      ensures |roots| >= |old(roots)|
      ensures old(AllSettled()) ==> |roots| == |old(roots)|
      ensures |roots| != |old(roots)| ==> Below(left(additionalRoots), left(old(additionalRoots)))
    {
      hide Rebuilt, NewRoot, Established, MetSince;
      EstablishedNone(c, refs, Authored(), additionalRoots);
      var added := false;
      var i := 0;
      while i < |dialects.entries|
        invariant Valid() && AllEstablished(c, refs, Authored(), old(additionalRoots), additionalRoots)
        invariant !added ==> roots == old(roots) && additionalRoots == old(additionalRoots)
        invariant !added ==> graph == old(graph) && dialects.Snapshot() == old(dialects.Snapshot())
        invariant old(AllSettled()) ==> !added
        invariant !added ==> SettledUpTo(c, refs, graph, dialects.Snapshot(), i)
        invariant added ==> |roots| > |old(roots)| && Below(left(additionalRoots), left(old(additionalRoots)))
        decreases left(additionalRoots).0, left(additionalRoots).1, |dialects.entries| - i
      {
        var from := dialects.entries[i].id;
        ghost var before := additionalRoots;
        ListedIsMet(c, Authored(), old(additionalRoots), additionalRoots, i);
        var a := RegisterTarget(from, StaticRef, old(additionalRoots), left);
        MetLater(c, Authored(), old(additionalRoots), old(additionalRoots), before, additionalRoots, from);
        var b := RegisterTarget(from, DynamicRef, old(additionalRoots), left);
        if !a && !b && !added {
          SettledNext(c, refs, graph, dialects.Snapshot(), i);
        }
        added := added || a || b;
        i := i + 1;
      }
    }

    /**
     * Register roots until no reference lands outside them. A pass that added one is
     * followed by another full pass. Nothing is added exactly when everything was settled.
     */
    method Discover()
      requires Valid()
      modifies this, dialects
      ensures Valid() && AllSettled()
      ensures AllEstablished(c, refs, Authored(), old(additionalRoots), additionalRoots)
      ensures additionalRoots == old(additionalRoots) <==> old(AllSettled())
    {
      hide Rebuilt, NewRoot, AllEstablished;
      EstablishedNone(c, refs, Authored(), additionalRoots);
      ghost var left := DiscoveryIsFinite(c, refs, Authored());
      var discovered := -1;
      while discovered != |roots|
        invariant Valid() && AllEstablished(c, refs, Authored(), old(additionalRoots), additionalRoots)
        invariant discovered == |roots| ==> AllSettled()
        invariant discovered == -1
          ==> roots == old(roots) && additionalRoots == old(additionalRoots) && AllSettled() == old(AllSettled())
        invariant old(AllSettled()) ==> additionalRoots == old(additionalRoots) && AllSettled()
        invariant additionalRoots == old(additionalRoots) && discovered != -1 ==> old(AllSettled())
        decreases left(additionalRoots).0, left(additionalRoots).1, if discovered != |roots| then 1 else 0
      {
        discovered := |roots|;
        ghost var before := additionalRoots;
        DiscoverPass(left);
        EstablishedTwice(c, refs, Authored(), old(additionalRoots), before, additionalRoots);
      }
    }

    /** Delete the roots whose pointer no reference landed on, from both lists. */
    method DropUnreferenced(referenced: set<string>) returns (pruned: bool)
      requires roots == Authored() + additionalRoots && DistinctRoots(additionalRoots)
      requires forall r :: r in Authored() ==> r !in additionalRoots
      modifies this`roots, this`additionalRoots
      ensures additionalRoots == KeptRoots(old(additionalRoots), referenced)
      ensures roots == Authored() + additionalRoots
      ensures pruned <==> |additionalRoots| < |old(additionalRoots)|
    {
      pruned := false;
      var all := additionalRoots;
      hide KeptRoots, Dropped, DistinctRoots, Remaining;
      RemainingEnds(all, referenced);
      for i := 0 to |all|
        invariant additionalRoots == Remaining(all, referenced, i)
        invariant roots == Authored() + additionalRoots
        invariant pruned <==> |additionalRoots| < |all|
        invariant |additionalRoots| <= |all|
      {
        DropStep(Authored(), all, i, referenced);
        if all[i].pointer in referenced {
          continue;
        }
        additionalRoots := Dropped(additionalRoots, all[i]);
        roots := Dropped(roots, all[i]);
        pruned := true;
      }
    }

    /**
     * Drop additional roots, round by round, until every one left is referenced from a
     * schema the authored roots reach in the scope rebuilt without the dropped ones.
     */
    method Prune()
      requires Valid()
      modifies this, dialects
      ensures Valid()
      ensures additionalRoots == Pruned(c, refs, Authored(), old(additionalRoots))
    {
      hide Rebuilt, Referenced, Round, DistinctRoots;
      var pruned := true;
      while pruned && |additionalRoots| > 0
        invariant Valid()
        invariant Pruned(c, refs, Authored(), additionalRoots) == Pruned(c, refs, Authored(), old(additionalRoots))
        invariant !pruned ==> |Round(c, refs, Authored(), additionalRoots)| >= |additionalRoots|
        decreases |additionalRoots|, pruned
      {
        WithoutAppended(Authored(), additionalRoots, additionalRoots);
        var referenced := CollectReferenced(c, refs, graph, dialects.Snapshot(),
          RootValues(Without(roots, additionalRoots)));
        KeptIsRound(c, refs, Authored(), additionalRoots, graph, dialects.Snapshot(), referenced);
        KeptRootsDistinct(additionalRoots, referenced);
        KeptRootsSubset(additionalRoots, referenced);
        pruned := DropUnreferenced(referenced);
        if pruned {
          Rescope();
        }
      }
    }
  }

  /** The additional roots discovery stops at: each established by a reference, and no reference left unsettled. */
  ghost predicate IsDiscovered(c: Config, refs: Resolver, authored: seq<Root>, found: seq<Root>) {
    && AllEstablished(c, refs, authored, [], found)
    && SettledUpTo(c, refs, Scope(authored, found), Rebuilt(c, authored, found), |Rebuilt(c, authored, found).entries|)
  }

  /**
   * The inventory of a document: what discovery stops at, pruned. Every additional root
   * left is referenced from a schema the authored roots reach, in the final scope. Its
   * references are settled exactly when discovering again would add no root. That is so
   * when pruning dropped none; when it did, some may land outside the known positions again.
   */
  method BuildSchemas(c: Config, refs: Resolver, authored: seq<Root>)
    returns (schemas: DocumentSchemas, ghost found: seq<Root>)
    ensures fresh(schemas) && schemas.Valid() && schemas.c == c && schemas.refs == refs
      && schemas.Authored() == authored
    ensures IsDiscovered(c, refs, authored, found) && schemas.additionalRoots == Pruned(c, refs, authored, found)
    ensures |schemas.additionalRoots| == |found| ==> schemas.AllSettled()
    ensures schemas.AllSettled() <==> NothingMore(c, refs, authored, schemas.additionalRoots)
    ensures forall r :: r in schemas.additionalRoots ==>
      Referenced(c, refs, schemas.graph, schemas.dialects.Snapshot(), RootValues(authored), r.pointer)
  {
    hide Rebuilt, Referenced, Pruned, AllEstablished, SettledUpTo, NothingMore;
    schemas := new DocumentSchemas(c, refs, authored);
    schemas.Discover();
    found := schemas.additionalRoots;
    assert IsDiscovered(c, refs, authored, found);
    schemas.Prune();
    PrunedAreReferenced(c, refs, authored, found);
    PrunedNone(c, refs, authored, found);
    SettledExactly(c, refs, authored, schemas.additionalRoots);
  }

  /** Pruning that drops no root leaves the list as it was. */
  lemma PrunedNone(c: Config, refs: Resolver, authored: seq<Root>, additional: seq<Root>)
    ensures |Pruned(c, refs, authored, additional)| <= |additional|
    ensures |Pruned(c, refs, authored, additional)| == |additional|
      ==> Pruned(c, refs, authored, additional) == additional
    decreases |additional|
  {
    hide Round;
    if |Round(c, refs, authored, additional)| < |additional| {
      PrunedNone(c, refs, authored, Round(c, refs, authored, additional));
    }
  }

  lemma KeptIsRound(
    c: Config, refs: Resolver, authored: seq<Root>, additional: seq<Root>, scope: Scope, t: Tables,
    referenced: set<string>)
    requires scope == Scope(authored, additional) && t == Rebuilt(c, authored, additional)
    requires forall p :: p in referenced <==> Referenced(c, refs, scope, t, RootValues(authored), p)
    ensures KeptRoots(additional, referenced) == Round(c, refs, authored, additional)
  {
    hide Rebuilt, Referenced;
    SurvivorsAreKept(c, refs, scope, t, RootValues(authored), additional, referenced);
  }

  lemma KeptRootsSubset(roots: seq<Root>, referenced: set<string>)
    ensures forall r :: r in KeptRoots(roots, referenced) ==> r in roots
  {
    forall r | r in KeptRoots(roots, referenced) ensures r in roots {
      KeptRootsMember(roots, referenced, r);
    }
  }
}

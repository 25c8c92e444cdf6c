/**
 * Which additional roots pruning keeps, said without the walk that finds them: the
 * schemas the authored roots reach are the least set that holds the authored ones and,
 * with every object, its subschemas and what its references resolve to.
 */
module ReachedSchemas {
  import opened Options
  import opened SchemaHeap
  import opened Dialects
  import opened DialectFacts
  import opened Rebuild
  import opened References
  import opened SchemaFields
  import opened Inventory

  /** The set holds the authored schemas, and with every object all that it leads to. */
  ghost predicate HoldsReached(c: Config, refs: Resolver, scope: Scope, authored: seq<Root>, s: iset<Value>) {
    && (forall r :: r in authored ==> r.value in s)
    && (forall from: Id, v :: Obj(from) in s && LeadsTo(c, refs, scope, from, v) ==> v in s)
  }

  /** The value is in every such set. */
  ghost predicate IsReached(c: Config, refs: Resolver, scope: Scope, authored: seq<Root>, v: Value) {
    forall s: iset<Value> :: HoldsReached(c, refs, scope, authored, s) ==> v in s
  }

  lemma {:induction false} ValuesMember(entries: seq<Entry>, v: Value)
    ensures v in Values(entries) <==> exists e :: e in entries && e.value == v
  {
    if entries != [] {
      ValuesMember(entries[1..], v);
      assert entries == [entries[0]] + entries[1..];
      assert entries[0] in entries;
    }
  }

  lemma {:induction false} RootValuesMember(roots: seq<Root>, v: Value)
    ensures v in RootValues(roots) <==> exists r :: r in roots && r.value == v
  {
    if roots != [] {
      RootValuesMember(roots[1..], v);
      assert roots == [roots[0]] + roots[1..];
      assert roots[0] in roots;
    }
  }

  lemma TargetsMember(c: Config, refs: Resolver, scope: Scope, t: Tables, from: Id, kind: RefKind, v: Value)
    ensures v in Targets(c, refs, scope, t, from, kind)
      <==> exists ref :: Writes(c, from, kind, ref) && Resolves(c, refs, scope, ref, from, v)
  {
    hide RefPointer;
    match RefOf(SchemaOf(c.heap, from), kind, c.Suppress())
    case None =>
      forall ref ensures !Writes(c, from, kind, ref) {
        FollowedExactly(c, from, kind, ref);
      }
    case Some(ref) =>
      FollowedExactly(c, from, kind, ref);
      ResolvesExactly(c, refs, scope, ref, from, v);
      forall other | Writes(c, from, kind, other) ensures other == ref {
        FollowedExactly(c, from, kind, other);
      }
  }

  /** The collection goes from an object to its subschemas and to both references' targets, and nowhere else. */
  lemma LeadsExactly(c: Config, refs: Resolver, scope: Scope, t: Tables, from: Id, v: Value)
    ensures v in Leads(c, refs, scope, t, from) <==> LeadsTo(c, refs, scope, from, v)
  {
    hide Targets, Writes, Resolves, IsBelow;
    TargetsMember(c, refs, scope, t, from, StaticRef, v);
    TargetsMember(c, refs, scope, t, from, DynamicRef, v);
    ValuesMember(Kept(SchemaOf(c.heap, from), c.Suppress()), v);
    KeptExactly(c, from, v);
    if kind, ref :| Writes(c, from, kind, ref) && Resolves(c, refs, scope, ref, from, v) {
      match kind
      case StaticRef =>
      case DynamicRef =>
    }
  }

  lemma {:induction false} RouteIsReached(
    c: Config, refs: Resolver, scope: Scope, t: Tables, authored: seq<Root>, route: seq<Value>, s: iset<Value>)
    requires Route(c, refs, scope, t, RootValues(authored), route) && HoldsReached(c, refs, scope, authored, s)
    ensures route[|route| - 1] in s
    decreases |route|
  {
    hide Leads, LeadsTo;
    if |route| == 1 {
      RootValuesMember(authored, route[0]);
    } else {
      var n := |route| - 2;
      assert route[n + 1] in Leads(c, refs, scope, t, route[n].id);
      LeadsExactly(c, refs, scope, t, route[n].id, route[n + 1]);
      RouteIsReached(c, refs, scope, t, authored, route[..n + 1], s);
    }
  }

  lemma ReachableHolds(c: Config, refs: Resolver, scope: Scope, t: Tables, authored: seq<Root>)
    ensures HoldsReached(c, refs, scope, authored, iset v | Reachable(c, refs, scope, t, RootValues(authored), v))
  {
    hide Leads, LeadsTo, Reachable;
    forall r | r in authored ensures Reachable(c, refs, scope, t, RootValues(authored), r.value) {
      RootValuesMember(authored, r.value);
      ReachableStart(c, refs, scope, t, RootValues(authored), r.value);
    }
    forall from: Id, v | Reachable(c, refs, scope, t, RootValues(authored), Obj(from))
      && LeadsTo(c, refs, scope, from, v)
      ensures Reachable(c, refs, scope, t, RootValues(authored), v) {
      LeadsExactly(c, refs, scope, t, from, v);
      ReachableStep(c, refs, scope, t, RootValues(authored), from, v);
    }
  }

  /** What the collection reaches is exactly the least set. */
  lemma ReachableExactly(c: Config, refs: Resolver, scope: Scope, t: Tables, authored: seq<Root>, v: Value)
    ensures Reachable(c, refs, scope, t, RootValues(authored), v) <==> IsReached(c, refs, scope, authored, v)
  {
    hide HoldsReached, RootValues, Leads;
    if Reachable(c, refs, scope, t, RootValues(authored), v) {
      var route: seq<Value> :|
        Route(c, refs, scope, t, RootValues(authored), route) && route[|route| - 1] == v;
      forall s: iset<Value> | HoldsReached(c, refs, scope, authored, s) ensures v in s {
        RouteIsReached(c, refs, scope, t, authored, route, s);
      }
    }
    if IsReached(c, refs, scope, authored, v) {
      ReachableHolds(c, refs, scope, t, authored);
    }
  }

  lemma {:induction false} ChainIsReached(
    c: Config, refs: Resolver, scope: Scope, authored: seq<Root>, items: seq<Item>, chain: seq<Item>, s: iset<Value>)
    requires HoldsReached(c, refs, scope, authored, s) && Chain(c, items, chain)
    requires forall item :: item in items ==> item.value in s
    ensures Last(chain).value in s
    decreases |chain|
  {
    hide LeadsTo;
    if |chain| > 1 {
      var front := chain[..|chain| - 1];
      ChainFront(c, items, chain);
      ChainIsReached(c, refs, scope, authored, items, front, s);
      ChildIsBelow(c, Last(front), Last(chain));
      assert LeadsTo(c, refs, scope, Last(front).value.id, Last(chain).value) by {
        BelowLeads(c, refs, scope, Last(front).value.id, Last(chain).value);
      }
    }
  }

  lemma BelowLeads(c: Config, refs: Resolver, scope: Scope, from: Id, v: Value)
    requires IsBelow(c, from, v)
    ensures LeadsTo(c, refs, scope, from, v)
  {
  }

  lemma ChildIsBelow(c: Config, item: Item, child: Item)
    requires child in Children(c, item)
    ensures item.value.Obj? && IsBelow(c, item.value.id, child.value)
  {
    hide IsBelow;
    var kept := Kept(SchemaOf(c.heap, item.value.id), c.Suppress());
    ChildrenFromEach(c, item, kept);
    var k :| 0 <= k < |kept| && Children(c, item)[k] == child;
    assert kept[k] in kept;
    KeptExactly(c, item.value.id, child.value);
  }

  /** Every object the walk over the authored roots records is reached. */
  lemma RecordedIsReached(c: Config, refs: Resolver, scope: Scope, authored: seq<Root>, id: Id)
    requires id in Walk(c, EMPTY_TABLES, RootItems(authored, c.defaultDialect, true)).nodes
    ensures IsReached(c, refs, scope, authored, Obj(id))
  {
    hide Walk, HoldsReached;
    var items := RootItems(authored, c.defaultDialect, true);
    WalkRecordsReachable(c, items, id);
    var chain: seq<Item> :| Chain(c, items, chain) && Last(chain).value == Obj(id);
    forall s: iset<Value> | HoldsReached(c, refs, scope, authored, s) ensures Obj(id) in s {
      ItemsHeld(c, refs, scope, authored, s);
      ChainIsReached(c, refs, scope, authored, items, chain, s);
    }
  }

  lemma ItemsHeld(c: Config, refs: Resolver, scope: Scope, authored: seq<Root>, s: iset<Value>)
    requires HoldsReached(c, refs, scope, authored, s)
    ensures forall item :: item in RootItems(authored, c.defaultDialect, true) ==> item.value in s
  {
    var items := RootItems(authored, c.defaultDialect, true);
    forall item | item in items ensures item.value in s {
      var k :| 0 <= k < |items| && items[k] == item;
      assert authored[k] in authored;
    }
  }

  /** What a reached object leads to is reached. */
  lemma ReachedLeadsOn(c: Config, refs: Resolver, scope: Scope, authored: seq<Root>, from: Id, v: Value)
    requires IsReached(c, refs, scope, authored, Obj(from)) && LeadsTo(c, refs, scope, from, v)
    ensures IsReached(c, refs, scope, authored, v)
  {
    hide LeadsTo;
  }

  // ---- What a round of pruning keeps ----

  /** A reference of a reached object lands on the pointer. */
  ghost predicate IsLandedOn(c: Config, refs: Resolver, scope: Scope, t: Tables, authored: seq<Root>, at: string) {
    exists from: Id, kind, ref, target ::
      IsReached(c, refs, scope, authored, Obj(from)) && LandsFrom(c, refs, scope, t, from, kind, ref, target, at)
  }

  lemma LandingIsFrom(c: Config, refs: Resolver, scope: Scope, t: Tables, from: Id, kind: RefKind, at: string)
    returns (ref: string, target: Value)
    requires at in LandingOf(c, refs, scope, t, from, kind)
    ensures LandsFrom(c, refs, scope, t, from, kind, ref, target, at)
  {
    hide RefPointer, Follow, Writes, Resolves;
    var f := Follow(c, refs, scope, t, from, kind).value;
    target := f.target;
    FollowExactly(c, refs, scope, t, from, kind, f);
    ref :| Writes(c, from, kind, ref) && Resolves(c, refs, scope, ref, from, f.target)
      && f.pointer == RefPointer(refs, scope, t, ref, from, f.target);
  }

  lemma FromIsLanding(
    c: Config, refs: Resolver, scope: Scope, t: Tables, from: Id, kind: RefKind, ref: string, target: Value, at: string)
    requires LandsFrom(c, refs, scope, t, from, kind, ref, target, at)
    ensures at in LandingOf(c, refs, scope, t, from, kind)
  {
    hide RefPointer, Follow, Writes, Resolves;
    var f := Followed(target, Some(at));
    FollowExactly(c, refs, scope, t, from, kind, f);
    assert Writes(c, from, kind, ref) && Resolves(c, refs, scope, ref, from, f.target)
      && f.pointer == RefPointer(refs, scope, t, ref, from, f.target);
  }

  lemma ReferencedExactly(c: Config, refs: Resolver, scope: Scope, t: Tables, authored: seq<Root>, at: string)
    ensures Referenced(c, refs, scope, t, RootValues(authored), at) <==> IsLandedOn(c, refs, scope, t, authored, at)
  {
    hide Reachable, LandingOf, IsReached, LandsFrom, RootValues;
    forall from: Id
      ensures Reachable(c, refs, scope, t, RootValues(authored), Obj(from))
        <==> IsReached(c, refs, scope, authored, Obj(from)) {
      ReachableExactly(c, refs, scope, t, authored, Obj(from));
    }
    if from: Id, kind :|
      Reachable(c, refs, scope, t, RootValues(authored), Obj(from)) && at in LandingOf(c, refs, scope, t, from, kind) {
      var ref, target := LandingIsFrom(c, refs, scope, t, from, kind, at);
    }
    if from: Id, kind, ref, target :|
      IsReached(c, refs, scope, authored, Obj(from)) && LandsFrom(c, refs, scope, t, from, kind, ref, target, at) {
      FromIsLanding(c, refs, scope, t, from, kind, ref, target, at);
    }
  }

  /**
   * A round keeps, in order, exactly the additional roots whose pointer a reference lands
   * on from a schema the authored roots reach.
   */
  lemma RoundKeeps(c: Config, refs: Resolver, authored: seq<Root>, additional: seq<Root>) returns (at: seq<nat>)
    ensures Picks(Round(c, refs, authored, additional), additional, at)
    ensures var scope, t := Scope(authored, additional), Rebuilt(c, authored, additional);
      forall k: nat :: k < |additional| ==>
        (k in at <==> IsLandedOn(c, refs, scope, t, authored, additional[k].pointer))
  {
    hide Rebuilt, Referenced, IsLandedOn, Survivors;
    var scope, t := Scope(authored, additional), Rebuilt(c, authored, additional);
    at := SurvivorsPick(c, refs, scope, t, RootValues(authored), additional);
    forall k: nat | k < |additional|
      ensures k in at <==> IsLandedOn(c, refs, scope, t, authored, additional[k].pointer) {
      ReferencedExactly(c, refs, scope, t, authored, additional[k].pointer);
    }
  }

  lemma {:induction false} SurvivorsPick(
    c: Config, refs: Resolver, scope: Scope, t: Tables, starts: seq<Value>, roots: seq<Root>)
    returns (at: seq<nat>)
    ensures Picks(Survivors(c, refs, scope, t, starts, roots), roots, at)
    ensures forall k: nat :: k < |roots| ==> (k in at <==> Referenced(c, refs, scope, t, starts, roots[k].pointer))
    decreases |roots|
  {
    hide Referenced;
    if roots == [] {
      at := [];
    } else {
      var rest := SurvivorsPick(c, refs, scope, t, starts, roots[1..]);
      hide Picks, InFront;
      at := InFront(Referenced(c, refs, scope, t, starts, roots[0].pointer), rest);
      PicksInFront(Survivors(c, refs, scope, t, starts, roots[1..]), roots, rest,
        Referenced(c, refs, scope, t, starts, roots[0].pointer));
      forall k: nat | k < |roots|
        ensures k in at <==> Referenced(c, refs, scope, t, starts, roots[k].pointer) {
        InFrontMember(Referenced(c, refs, scope, t, starts, roots[0].pointer), rest, k);
      }
    }
  }

  /** Each list is what a round leaves of the one before. */
  ghost predicate AreRounds(c: Config, refs: Resolver, authored: seq<Root>, rounds: seq<seq<Root>>) {
    forall k :: 0 <= k < |rounds| - 1 ==> rounds[k + 1] == Round(c, refs, authored, rounds[k])
  }

  /** Pruning is rounds until one drops nothing, and stops at the first that does not. */
  lemma {:induction false} PrunedByRounds(c: Config, refs: Resolver, authored: seq<Root>, additional: seq<Root>)
    returns (rounds: seq<seq<Root>>)
    ensures rounds != [] && rounds[0] == additional && AreRounds(c, refs, authored, rounds)
    ensures var left := Pruned(c, refs, authored, additional);
      && rounds[|rounds| - 1] == left && Round(c, refs, authored, left) == left
    ensures forall k :: 0 <= k < |rounds| - 1 ==> |rounds[k + 1]| < |rounds[k]|
    decreases |additional|
  {
    hide Round;
    var round := Round(c, refs, authored, additional);
    RoundSize(c, refs, authored, additional);
    if |round| < |additional| {
      var rest := PrunedByRounds(c, refs, authored, round);
      rounds := [additional] + rest;
      forall k | 0 <= k < |rounds| - 1
        ensures rounds[k + 1] == Round(c, refs, authored, rounds[k]) && |rounds[k + 1]| < |rounds[k]| {
        assert k > 0 ==> rounds[k] == rest[k - 1] && rounds[k + 1] == rest[k];
      }
    } else {
      rounds := [additional];
    }
  }
}

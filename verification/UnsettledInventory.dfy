/**
 * A document whose finished inventory leaves a reference outside it.
 *
 * The schema slot refers into `/x-q/sub`, which refers to `#/x-k`, which refers to
 * `/x-q`. Discovering `/x-q` gives the schema below it a base URI of its own, under
 * which `#/x-k` names nothing. So `/x-k` and `/x-q` are no longer referenced and are
 * dropped; without them `#/x-k` names the document's own `/x-k` again.
 */
module UnsettledInventory {
  import opened Options
  import opened SchemaHeap
  import opened Dialects
  import opened Rebuild
  import opened DialectResults
  import opened References
  import opened Inventory
  import opened LeafRoots

  function Refers(ref: string): Schema {
    Schema(None, None, RefField.Text(ref), Absent, None, [])
  }

  const SLOT := Root(Obj(0), "/components/schemas/S")
  const SUB := Root(Obj(1), "/x-q/sub")
  const K := Root(Obj(2), "/x-k")
  const Q := Root(Obj(3), "/x-q")

  /** The slot, and the roots in the order they are discovered. */
  const ROOTS := [SLOT, SUB, K, Q]

  function Document(): Config {
    Config([Refers("#/x-q/sub"), Refers("#/x-k"), Refers("#/x-q"),
            Schema(Some("https://example.test/q"), None, Absent, Absent, None, [])],
           OpenApi31, Effective("https://spec.openapis.org/oas/3.1/dialect/base", Some(OpenApi31), ""), KNOWN_DIALECTS)
  }

  /** Pointer fragments read in the document, except below `/x-q` once that is a resource with an `$id`. */
  function Resolving(): Resolver {
    Resolver(
      (scope: Scope, ref: string, from: Id) =>
        if from == 0 then Some(Obj(1))
        else if from == 1 then (if Q in scope.additional then None else Some(Obj(2)))
        else Some(Obj(3)),
      (_, _, _) => DocumentRoot, (_, _, _) => false,
      (ref: string, _: bool) => if ref == "" then None else Some(ref[1..]),
      (_, _) => "", (_, _, _) => None)
  }

  /** The additional roots of the scope that has the first `n` roots. */
  function Added(n: nat): seq<Root>
    requires 1 <= n <= 4
  {
    ROOTS[1..n]
  }

  ghost function TablesOf(n: nat): Tables
    requires 1 <= n <= 4
  {
    Rebuilt(Document(), [SLOT], Added(n))
  }

  ghost function Establishes(n: nat, from: Id, kind: RefKind): Option<Root>
    requires 1 <= n <= 4
  {
    NewRoot(Document(), Resolving(), Scope([SLOT], Added(n)), TablesOf(n), from, kind)
  }

  // ---- The tables of each scope ----

  lemma RootsAreLeaves(n: nat)
    requires 1 <= n <= 4
    ensures [SLOT] + Added(n) == ROOTS[..n] && AreLeaves(Document(), [SLOT] + Added(n))
  {
    assert forall i :: 0 <= i < 4 ==> ROOTS[i].value == Obj(i);
    assert [SLOT] + Added(n) == ROOTS[..n];
  }

  /** In each scope the roots are recorded where they are registered, and nothing else is a position. */
  lemma TablesAre(n: nat)
    requires 1 <= n <= 4
    ensures forall i :: 0 <= i < n ==> AtRoot(TablesOf(n), ROOTS[i])
    ensures forall at :: at in TablesOf(n).positions ==> IsPosition(ROOTS[..n], at)
    ensures forall id :: id in TablesOf(n).nodes ==> IsObject(ROOTS[..n], id)
    ensures forall e :: e in TablesOf(n).entries ==> IsObject(ROOTS[..n], e.id)
  {
    hide Rebuilt, AtRoot, Added, AreLeaves;
    RootsAreLeaves(n);
    LeafOnly(Document(), [SLOT], Added(n));
    forall i | 0 <= i < n ensures AtRoot(TablesOf(n), ROOTS[i]) {
      assert ROOTS[i] in ROOTS[..n];
      LeafAtRoot(Document(), [SLOT], Added(n), ROOTS[i]);
    }
  }

  /** Which objects are recorded, and where they sit. */
  lemma Recording(n: nat, i: nat)
    requires 1 <= n <= 4 && i < 4
    ensures Recorded(TablesOf(n), Obj(i)) <==> i < n
    ensures i < n ==> PointerOf(TablesOf(n), Obj(i)) == Some(ROOTS[i].pointer)
    ensures i >= n ==> PointerOf(TablesOf(n), Obj(i)) == None
  {
    hide Rebuilt, Added;
    TablesAre(n);
    assert ROOTS[i].value == Obj(i);
    if i < n {
      assert AtRoot(TablesOf(n), ROOTS[i]);
    } else {
      assert !IsObject(ROOTS[..n], i);
    }
  }

  /** Which of the four pointers are positions. */
  lemma Positions(n: nat, i: nat)
    requires 1 <= n <= 4 && i < 4
    ensures ROOTS[i].pointer in TablesOf(n).positions <==> i < n
  {
    hide Rebuilt, Added;
    TablesAre(n);
    PointersDiffer();
    if i < n {
      assert AtRoot(TablesOf(n), ROOTS[i]);
    } else {
      assert !IsPosition(ROOTS[..n], ROOTS[i].pointer);
    }
  }

  lemma PointersDiffer()
    ensures SLOT.pointer != SUB.pointer && SLOT.pointer != K.pointer && SLOT.pointer != Q.pointer
    ensures SUB.pointer != K.pointer && SUB.pointer != Q.pointer && K.pointer != Q.pointer
    ensures SLOT.pointer != "" && SUB.pointer != "" && K.pointer != "" && Q.pointer != ""
  {
    assert |SLOT.pointer| == 21 && |SUB.pointer| == 8 && |K.pointer| == 4 && |Q.pointer| == 4;
    assert K.pointer[3] == 'k' && Q.pointer[3] == 'q';
  }

  // ---- What each reference establishes in each scope ----

  /** The root a reference of the four schemas names, if it resolves. */
  function Named(n: nat, from: Id): Option<nat>
    requires 1 <= n <= 4
  {
    if from == 0 then Some(1)
    else if from == 1 then (if n == 4 then None else Some(2))
    else if from == 2 then Some(3)
    else None
  }

  lemma FollowIs(n: nat, from: nat)
    requires 1 <= n <= 4 && from < 4
    ensures var named := Named(n, from);
      Follow(Document(), Resolving(), Scope([SLOT], Added(n)), TablesOf(n), from, StaticRef)
        == if named.None? then None else Some(Followed(Obj(named.value), Some(ROOTS[named.value].pointer)))
    ensures Follow(Document(), Resolving(), Scope([SLOT], Added(n)), TablesOf(n), from, DynamicRef) == None
  {
    hide Rebuilt;
    QIsLast(n);
    if Named(n, from).Some? {
      Recording(n, Named(n, from).value);
    }
  }

  lemma QIsLast(n: nat)
    requires 1 <= n <= 4
    ensures Q in Added(n) <==> n == 4
  {
    assert n == 4 ==> Added(n)[2] == Q;
  }

  lemma EstablishesIs(n: nat, from: nat)
    requires 1 <= n <= 4 && from < 4
    ensures Establishes(n, from, DynamicRef) == None
    ensures var named := Named(n, from);
      Establishes(n, from, StaticRef) == if named.None? || named.value < n then None else Some(ROOTS[named.value])
  {
    hide Rebuilt, Follow, Recorded;
    FollowIs(n, from);
    PointersDiffer();
    if Named(n, from).Some? {
      Recording(n, Named(n, from).value);
      Positions(n, Named(n, from).value);
    }
  }

  // ---- Discovery, pruning, and what is left ----

  lemma AddedBy(found: seq<Root>, k: nat, from: Id)
    requires k < |found| && from in Rebuilt(Document(), [SLOT], found[..k]).nodes
    requires NewRoot(Document(), Resolving(), Scope([SLOT], found[..k]), Rebuilt(Document(), [SLOT], found[..k]), from,
      StaticRef) == Some(found[k])
    ensures Established(Document(), Resolving(), [SLOT], [], found, k)
  {
    hide Rebuilt, NewRoot, Document, Resolving;
    MetNow(Document(), [SLOT], [], found[..k], from);
    assert EstablishedBy(Document(), Resolving(), [SLOT], found[..k], from, StaticRef, found[k]);
  }

  lemma AllSettledAtFour()
    ensures SettledUpTo(Document(), Resolving(), Scope([SLOT], Added(4)), TablesOf(4), |TablesOf(4).entries|)
  {
    hide Rebuilt, NewRoot, Document, Resolving, Added;
    TablesAre(4);
    assert ROOTS[..4] == ROOTS;
    var t := TablesOf(4);
    forall i, kind | 0 <= i < |t.entries| && i < |t.entries|
      ensures NewRoot(Document(), Resolving(), Scope([SLOT], Added(4)), t, t.entries[i].id, kind).None?
    {
      assert t.entries[i] in t.entries;
      EstablishesIs(4, t.entries[i].id);
      match kind
      case StaticRef =>
      case DynamicRef =>
    }
  }

  /** Discovery finds the three roots one after the other, and then every reference is settled. */
  lemma DiscoversThree()
    ensures IsDiscovered(Document(), Resolving(), [SLOT], Added(4))
  {
    hide Rebuilt, NewRoot, Document, Resolving, SettledUpTo, Established;
    AllSettledAtFour();
    var found := Added(4);
    forall k | 0 <= k < |found| ensures Established(Document(), Resolving(), [SLOT], [], found, k) {
      assert found[..k] == Added(k + 1) && found[k] == ROOTS[k + 1];
      EstablishesIs(k + 1, k);
      TablesAre(k + 1);
      assert AtRoot(TablesOf(k + 1), ROOTS[k]);
      AddedBy(found, k, k);
    }
  }

  /** What one schema leads to. */
  lemma LeadsIs(n: nat, from: nat)
    requires 1 <= n <= 4 && from < 4
    ensures Leads(Document(), Resolving(), Scope([SLOT], Added(n)), TablesOf(n), from)
         == if Named(n, from).None? then [] else [Obj(Named(n, from).value)]
  {
    hide Rebuilt, Follow;
    FollowIs(n, from);
  }

  lemma LandingIs(n: nat, from: nat, kind: RefKind)
    requires 1 <= n <= 4 && from < 4
    ensures LandingOf(Document(), Resolving(), Scope([SLOT], Added(n)), TablesOf(n), from, kind)
         == if kind == DynamicRef || Named(n, from).None? then {} else {ROOTS[Named(n, from).value].pointer}
  {
    hide Rebuilt, Follow;
    FollowIs(n, from);
  }

  ghost predicate Lands(n: nat, at: string)
    requires 1 <= n <= 4
  {
    Referenced(Document(), Resolving(), Scope([SLOT], Added(n)), TablesOf(n), [Obj(0)], at)
  }

  /** The schema below `/x-q` is always referenced; once `/x-q` is discovered, the other two are not. */
  lemma LandsAt(n: nat)
    requires n == 2 || n == 4
    ensures Lands(n, SUB.pointer)
    ensures n == 4 ==> !Lands(n, K.pointer) && !Lands(n, Q.pointer)
  {
    hide Rebuilt, Leads, LandingOf, Document, Resolving, Reachable;
    var scope, t := Scope([SLOT], Added(n)), TablesOf(n);
    LandingIs(n, 0, StaticRef);
    ReachableStart(Document(), Resolving(), scope, t, [Obj(0)], Obj(0));
    assert SUB.pointer in LandingOf(Document(), Resolving(), scope, t, 0, StaticRef);
    if n == 4 {
      PointersDiffer();
      forall from: Id, kind | Reachable(Document(), Resolving(), scope, t, [Obj(0)], Obj(from))
        ensures from < 2 && LandingOf(Document(), Resolving(), scope, t, from, kind) <= {SUB.pointer}
      {
        ReachesTwo(from);
        LandingIs(4, from, kind);
      }
    }
  }

  lemma ReachesTwo(from: Id)
    requires Reachable(Document(), Resolving(), Scope([SLOT], Added(4)), TablesOf(4), [Obj(0)], Obj(from))
    ensures from < 2
  {
    hide Rebuilt, Leads, Document, Resolving;
    var scope, t := Scope([SLOT], Added(4)), TablesOf(4);
    LeadsIs(4, 0);
    LeadsIs(4, 1);
    var route: seq<Value> :|
      Route(Document(), Resolving(), scope, t, [Obj(0)], route) && route[|route| - 1] == Obj(from);
    RouteStaysIn(Document(), Resolving(), scope, t, [Obj(0)], route, {0, 1});
  }

  /** Pruning drops the last two roots found. */
  lemma PrunesTwo()
    ensures Pruned(Document(), Resolving(), [SLOT], Added(4)) == Added(2)
  {
    hide Rebuilt, Referenced, Document, Resolving;
    assert RootValues([SLOT]) == [Obj(0)] by { assert [SLOT][1..] == []; }
    LandsAt(4);
    LandsAt(2);
    var scope, t := Scope([SLOT], Added(4)), TablesOf(4);
    assert Added(4) == [SUB, K, Q] && [SUB, K, Q][1..] == [K, Q] && [K, Q][1..] == [Q] && [Q][1..] == [];
    assert Survivors(Document(), Resolving(), scope, t, [Obj(0)], [Q]) == [];
    assert Survivors(Document(), Resolving(), scope, t, [Obj(0)], [K, Q]) == [];
    assert Round(Document(), Resolving(), [SLOT], Added(4)) == [SUB];
    assert Added(2) == [SUB] && [SUB][1..] == [];
    assert Survivors(Document(), Resolving(), Scope([SLOT], Added(2)), TablesOf(2), [Obj(0)], [SUB]) == [SUB] by {
      assert Lands(2, SUB.pointer);
      assert Survivors(Document(), Resolving(), Scope([SLOT], Added(2)), TablesOf(2), [Obj(0)], []) == [];
    }
    assert Round(Document(), Resolving(), [SLOT], Added(2)) == [SUB];
  }

  /**
   * The finished inventory is not settled: the reference of the schema that is left lands
   * on a pointer that is no known position, and discovering again would add roots.
   */
  lemma FinishedIsUnsettled()
    ensures IsDiscovered(Document(), Resolving(), [SLOT], Added(4))
    ensures var left := Pruned(Document(), Resolving(), [SLOT], Added(4));
      && left == Added(2)
      && !Settled(Document(), Resolving(), [SLOT], left)
      && !NothingMore(Document(), Resolving(), [SLOT], left)
  {
    hide Rebuilt, NewRoot, Document, Resolving, Pruned, IsDiscovered, NothingMore;
    SettledExactly(Document(), Resolving(), [SLOT], Added(2));
    DiscoversThree();
    PrunesTwo();
    EstablishesIs(2, 1);
    TablesAre(2);
    assert AtRoot(TablesOf(2), ROOTS[1]);
    RebuiltCovers(Document(), [SLOT], Added(2));
    assert DialectResults.Listed(TablesOf(2).entries, 1);
    var i :| 0 <= i < |TablesOf(2).entries| && TablesOf(2).entries[i].id == 1;
    assert Establishes(2, TablesOf(2).entries[i].id, StaticRef).Some?;
  }
}

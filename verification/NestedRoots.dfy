/**
 * Additional roots that lie below another root: registered before the root above them was
 * known, and walked over by the time a rebuild reaches them.
 */
module NestedRoots {
  import opened Dialects
  import opened Rebuild
  import opened DialectFacts
  import opened DialectResults
  import opened DialectWalk

  /** The roots of the list that are in the set. */
  function Among(sorted: seq<Root>, outer: set<Root>): seq<Root> {
    if sorted == [] then [] else (if sorted[0] in outer then [sorted[0]] else []) + Among(sorted[1..], outer)
  }

  /** Every other root is recorded by the time its turn comes, by the walk over a root above it. */
  ghost predicate OthersNested(c: Config, t: Tables, sorted: seq<Root>, outer: set<Root>)
    decreases |sorted|
  {
    sorted == [] ||
    if sorted[0] in outer then OthersNested(c, Walk(c, t, [AdditionalItem(c, t, sorted[0])]), sorted[1..], outer)
    else Recorded(t, sorted[0].value) && OthersNested(c, t, sorted[1..], outer)
  }

  lemma RecordedAddsNothing(c: Config, t: Tables, item: Item)
    requires Recorded(t, item.value)
    ensures Walk(c, t, [item]) == t
  {
    WalkStep(c, t, item, []);
    WalkNothing(c, t);
    assert [item] + [] == [item];
  }

  /** Roots that are nested when their turn comes change no table. */
  lemma {:induction false} NestedAddNothing(c: Config, t: Tables, sorted: seq<Root>, outer: set<Root>)
    requires OthersNested(c, t, sorted, outer)
    ensures AddRoots(c, t, sorted) == AddRoots(c, t, Among(sorted, outer))
    decreases |sorted|
  {
    hide Walk;
    if sorted != [] {
      var item := AdditionalItem(c, t, sorted[0]);
      var rest := Among(sorted[1..], outer);
      if sorted[0] in outer {
        NestedAddNothing(c, Walk(c, t, [item]), sorted[1..], outer);
        assert ([sorted[0]] + rest)[1..] == rest;
      } else {
        assert item.value == sorted[0].value;
        RecordedAddsNothing(c, t, item);
        NestedAddNothing(c, t, sorted[1..], outer);
        assert [] + rest == rest;
      }
    }
  }

  lemma {:induction false} AmongMember(sorted: seq<Root>, outer: set<Root>, r: Root)
    ensures r in Among(sorted, outer) ==> r in sorted
  {
    if sorted != [] {
      AmongMember(sorted[1..], outer, r);
    }
  }

  lemma {:induction false} AmongAscending(sorted: seq<Root>, outer: set<Root>)
    requires Ascending(sorted)
    ensures Ascending(Among(sorted, outer))
  {
    if sorted != [] {
      var rest := Among(sorted[1..], outer);
      AmongAscending(sorted[1..], outer);
      forall k | 0 <= k < |rest| ensures |sorted[0].pointer| <= |rest[k].pointer| {
        AmongMember(sorted[1..], outer, rest[k]);
        var j :| 0 <= j < |sorted[1..]| && sorted[1..][j] == rest[k];
        assert sorted[j + 1] == rest[k];
      }
    }
  }

  /** The positions a rebuild starts walking from, the nested roots left out. */
  ghost function OuterItems(c: Config, original: seq<Root>, additional: seq<Root>, outer: set<Root>): seq<Item> {
    RootItems(original, c.defaultDialect, true)
    + SettledItems(c, Rebuilt(c, original, additional), Among(SortByLength(additional), outer))
  }

  ghost predicate Nested(c: Config, original: seq<Root>, additional: seq<Root>, outer: set<Root>) {
    OthersNested(c, Walk(c, EMPTY_TABLES, RootItems(original, c.defaultDialect, true)), SortByLength(additional), outer)
  }

  /** A rebuild is one walk from the authored and the outer roots: nested roots keep what the roots above them give. */
  lemma RebuiltFromOuter(c: Config, original: seq<Root>, additional: seq<Root>, outer: set<Root>)
    requires Nested(c, original, additional, outer)
    ensures Rebuilt(c, original, additional) == Walk(c, EMPTY_TABLES, OuterItems(c, original, additional, outer))
  {
    hide Walk, SortByLength, Among;
    var first := RootItems(original, c.defaultDialect, true);
    var t := Walk(c, EMPTY_TABLES, first);
    var sorted := Among(SortByLength(additional), outer);
    NestedAddNothing(c, t, SortByLength(additional), outer);
    SortIsAscending(additional);
    AmongAscending(SortByLength(additional), outer);
    AddRootsSettled(c, t, sorted);
    WalkAppend(c, EMPTY_TABLES, first, SettledItems(c, Rebuilt(c, original, additional), sorted));
  }

  /**
   * In a rebuilt inventory an object is read in the nearest dialect declared on the way
   * down to it from an authored or outer root, nested roots included: what was registered
   * for an object that lies below another root does not come between.
   */
  lemma RebuiltIsNearestDeclared(
    c: Config, original: seq<Root>, additional: seq<Root>, outer: set<Root>, chain: seq<Item>)
    requires Nested(c, original, additional, outer)
    requires Unshared(c, OuterItems(c, original, additional, outer))
    requires Chain(c, OuterItems(c, original, additional, outer), chain) && Last(chain).value.Obj?
    ensures var r := Rebuilt(c, original, additional);
      && Last(chain).value.id in r.nodes && r.nodes[Last(chain).value.id].pointer == Last(chain).pointer
      && var effective := r.nodes[Last(chain).value.id].effective;
      && (forall k: nat :: DecidedAt(c, chain, k) ==> ReadFrom(c, chain[k], effective))
      && ((forall k :: 0 <= k < |chain| ==> !AnnouncesAny(c, chain[k])) ==> effective == chain[0].effective)
      && (c.dialect == Oas30 ==> effective == chain[0].effective)
  {
    hide Walk, OuterItems, Unshared, Chain, Nested;
    RebuiltFromOuter(c, original, additional, outer);
    EffectiveIsNearestDeclared(c, OuterItems(c, original, additional, outer), chain);
    RecordedAsReached(c, OuterItems(c, original, additional, outer), chain);
  }
}

/**
 * Rebuilding the tables once references have established further roots.
 *
 * Authored roots are walked first; each additional root then inherits from the
 * nearest position above it, shortest pointers first.
 */
module Rebuild {
  import opened Options
  import opened SchemaHeap
  import opened Dialects

  datatype Enclosing = Enclosing(schema: Value, effective: Effective)

  function LastSlash(p: string): (i: nat)
    requires '/' in p
    ensures i < |p| && p[i] == '/'
    ensures forall j :: i < j < |p| ==> p[j] != '/'
  {
    if p[|p| - 1] == '/' then |p| - 1 else LastSlash(p[..|p| - 1])
  }

  /** `q` addresses something `p` is inside of: it stops at one of `p`'s slashes. */
  predicate IsAncestor(q: string, p: string) {
    |q| < |p| && q == p[..|q|] && p[|q|] == '/'
  }

  /** The position above `pointer` that the upward search stops at. */
  function EnclosingPosition(t: Tables, pointer: string): Option<string>
    decreases |pointer|
  {
    if '/' !in pointer then None
    else
      var parent := pointer[..LastSlash(pointer)];
      if parent in t.positions then Some(parent) else EnclosingPosition(t, parent)
  }

  /** The upward search finds the longest ancestor that is a position, or nothing when none is. */
  lemma {:induction false} EnclosingIsNearest(t: Tables, pointer: string)
    ensures var found := EnclosingPosition(t, pointer);
      && (found.Some? ==> found.value in t.positions && IsAncestor(found.value, pointer))
      && (forall q :: q in t.positions && IsAncestor(q, pointer) ==> found.Some? && |q| <= |found.value|)
    decreases |pointer|
  {
    if '/' in pointer {
      var i := LastSlash(pointer);
      var parent := pointer[..i];
      if parent !in t.positions {
        EnclosingIsNearest(t, parent);
        forall q | q in t.positions && IsAncestor(q, pointer) ensures IsAncestor(q, parent) {
          assert |q| < i;
        }
      }
    }
  }

  function EnclosingOf(t: Tables, pointer: string): Option<Enclosing> {
    match EnclosingPosition(t, pointer)
    case None => None
    case Some(at) =>
      if at in t.positions && at in t.schemasAt then Some(Enclosing(t.schemasAt[at], t.positions[at])) else None
  }

  /** Insertion after every element of the same length: the order a stable sort produces. */
  function InsertByLength(sorted: seq<Root>, root: Root): (r: seq<Root>)
    ensures multiset(r) == multiset(sorted) + multiset{root}
  {
    if sorted == [] then [root]
    else if |sorted[|sorted| - 1].pointer| <= |root.pointer| then sorted + [root]
    else
      assert sorted == sorted[..|sorted| - 1] + [sorted[|sorted| - 1]];
      InsertByLength(sorted[..|sorted| - 1], root) + [sorted[|sorted| - 1]]
  }

  function SortByLength(roots: seq<Root>): (r: seq<Root>)
    ensures multiset(r) == multiset(roots)
  {
    if roots == [] then []
    else
      assert roots == roots[..|roots| - 1] + [roots[|roots| - 1]];
      InsertByLength(SortByLength(roots[..|roots| - 1]), roots[|roots| - 1])
  }

  ghost predicate Ascending(roots: seq<Root>) {
    forall i, j :: 0 <= i < j < |roots| ==> |roots[i].pointer| <= |roots[j].pointer|
  }

  lemma {:induction false} InsertKeepsAscending(sorted: seq<Root>, root: Root)
    requires Ascending(sorted)
    ensures Ascending(InsertByLength(sorted, root))
  {
    if sorted != [] && |sorted[|sorted| - 1].pointer| > |root.pointer| {
      var front, last := sorted[..|sorted| - 1], sorted[|sorted| - 1];
      InsertKeepsAscending(front, root);
      hide InsertByLength;
      var r := InsertByLength(front, root);
      forall i | 0 <= i < |r| ensures |r[i].pointer| <= |last.pointer| {
        assert r[i] in multiset(r);
        assert r[i] in multiset(front) || r[i] == root;
      }
    }
  }

  /** The roots with pointers of one length, in order. */
  function OfLength(roots: seq<Root>, n: nat): seq<Root> {
    if roots == [] then []
    else OfLength(roots[..|roots| - 1], n) + if |roots[|roots| - 1].pointer| == n then [roots[|roots| - 1]] else []
  }

  lemma {:induction false} InsertIsStable(sorted: seq<Root>, root: Root, n: nat)
    requires Ascending(sorted)
    ensures OfLength(InsertByLength(sorted, root), n)
      == OfLength(sorted, n) + if |root.pointer| == n then [root] else []
  {
    if sorted == [] || |sorted[|sorted| - 1].pointer| <= |root.pointer| {
      assert (sorted + [root])[..|sorted|] == sorted;
      assert sorted == [] ==> sorted + [root] == [root];
    } else {
      var front, last := sorted[..|sorted| - 1], sorted[|sorted| - 1];
      InsertIsStable(front, root, n);
      var inserted := InsertByLength(front, root);
      assert (inserted + [last])[..|inserted|] == inserted;
      NoneOfLength(front, root, last, n);
    }
  }

  /** Moving the root past a longer pointer reorders nothing of one length. */
  lemma NoneOfLength(front: seq<Root>, root: Root, last: Root, n: nat)
    requires |last.pointer| > |root.pointer|
    ensures var own, others := if |root.pointer| == n then [root] else [], if |last.pointer| == n then [last] else [];
      OfLength(front, n) + own + others == OfLength(front, n) + others + own
  {
    assert OfLength(front, n) + [] == OfLength(front, n);
  }

  /** The sort is by pointer length, loses and repeats nothing, and keeps roots of one length in order. */
  lemma {:induction false} SortIsAscending(roots: seq<Root>)
    ensures Ascending(SortByLength(roots)) && multiset(SortByLength(roots)) == multiset(roots)
    ensures forall n: nat :: OfLength(SortByLength(roots), n) == OfLength(roots, n)
  {
    if roots != [] {
      SortIsAscending(roots[..|roots| - 1]);
      var sorted := SortByLength(roots[..|roots| - 1]);
      InsertKeepsAscending(sorted, roots[|roots| - 1]);
      forall n: nat ensures OfLength(SortByLength(roots), n) == OfLength(roots, n) {
        InsertIsStable(sorted, roots[|roots| - 1], n);
      }
    }
  }

  /** One additional root: it inherits from its enclosing position, and only a free-standing one is a resource root. */
  function AdditionalItem(c: Config, t: Tables, root: Root): Item {
    match EnclosingOf(t, root.pointer)
    case None => RootItem(root, c.defaultDialect, true)
    case Some(e) => RootItem(root, e.effective, false)
  }

  ghost function AddRoots(c: Config, t: Tables, sorted: seq<Root>): Tables
    decreases |sorted|
  {
    if sorted == [] then t
    else AddRoots(c, Walk(c, t, [AdditionalItem(c, t, sorted[0])]), sorted[1..])
  }

  /** The tables after a rebuild. */
  ghost function Rebuilt(c: Config, original: seq<Root>, additional: seq<Root>): Tables {
    AddRoots(c, Walk(c, EMPTY_TABLES, RootItems(original, c.defaultDialect, true)), SortByLength(additional))
  }
}

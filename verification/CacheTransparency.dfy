/**
 * When remembering results changes no row of the findings table.
 *
 * A remembered finding may be emitted with the anchor of the entry that first
 * produced it. It is then always a repeat of a row already in the table, and a
 * repeat only counts.
 */
module CacheTransparency {
  import opened Options
  import opened SchemaHeap
  import opened Dialects
  import opened Findings
  import opened SchemaFindings
  import opened CacheRuns

  // ---- Only keys matter once the rows are there ----

  function Keys(findings: seq<Finding>): seq<string> {
    if findings == [] then [] else [TableKey(findings[0])] + Keys(findings[1..])
  }

  predicate Known(table: seq<Finding>, key: string) {
    RowOf(table, key) < |table|
  }

  predicate AllKnown(table: seq<Finding>, keys: seq<string>) {
    forall key :: key in keys ==> Known(table, key)
  }

  /** Count one more occurrence of a row. */
  function Bump(table: seq<Finding>, key: string): seq<Finding> {
    var i := RowOf(table, key);
    if i == |table| then table else table[i := Repeated(table[i])]
  }

  function BumpAll(table: seq<Finding>, keys: seq<string>): seq<Finding>
    decreases |keys|
  {
    if keys == [] then table else BumpAll(Bump(table, keys[0]), keys[1..])
  }

  lemma RowOfIsFirst(table: seq<Finding>, key: string, i: nat)
    requires i < |table| && TableKey(table[i]) == key
    ensures Known(table, key)
  {
    hide TableKey;
  }

  /** Recording a finding keeps every known key known, makes its own known, and no other. */
  lemma AddKnows(table: seq<Finding>, f: Finding, key: string)
    ensures Known(Add(table, f), key) <==> Known(table, key) || key == TableKey(f)
  {
    var i := RowOf(table, TableKey(f));
    var next := Add(table, f);
    if Known(table, key) {
      var j := RowOf(table, key);
      assert TableKey(next[j]) == key;
      RowOfIsFirst(next, key, j);
    } else if key == TableKey(f) {
      assert next == table + [f];
      RowOfIsFirst(next, key, |table|);
    } else {
      forall j | 0 <= j < |next| ensures TableKey(next[j]) != key {
        assert j < |table| ==> TableKey(next[j]) == TableKey(table[j]);
      }
    }
  }

  lemma {:induction false} AddAllKnows(table: seq<Finding>, findings: seq<Finding>, key: string)
    ensures Known(AddAll(table, findings), key) <==> Known(table, key) || key in Keys(findings)
    decreases |findings|
  {
    hide TableKey, Known, Add;
    if findings != [] {
      AddKnows(table, findings[0], key);
      AddAllKnows(Add(table, findings[0]), findings[1..], key);
    }
  }

  lemma BumpKnows(table: seq<Finding>, key: string, other: string)
    ensures Known(table, other) ==> Known(Bump(table, key), other)
  {
    if Known(table, other) {
      var next := Bump(table, key);
      var j := RowOf(table, other);
      assert TableKey(next[j]) == other;
      RowOfIsFirst(next, other, j);
    }
  }

  /** Findings whose rows are all there only count, whatever else they carry. */
  lemma {:induction false} RepeatsOnlyCount(table: seq<Finding>, findings: seq<Finding>)
    requires AllKnown(table, Keys(findings))
    ensures AddAll(table, findings) == BumpAll(table, Keys(findings))
    decreases |findings|
  {
    hide TableKey;
    if findings != [] {
      var key := TableKey(findings[0]);
      assert Keys(findings)[0] == key && Keys(findings)[1..] == Keys(findings[1..]);
      assert key in Keys(findings);
      assert Add(table, findings[0]) == Bump(table, key);
      forall other | other in Keys(findings[1..]) ensures Known(Bump(table, key), other) {
        assert other in Keys(findings);
        BumpKnows(table, key, other);
      }
      RepeatsOnlyCount(Bump(table, key), findings[1..]);
    }
  }

  // ---- The keys an entry's findings have do not depend on the entry ----

  function IssueKeys(issues: seq<Issue>): seq<string> {
    if issues == [] then [] else [IssueKey(issues[0])] + IssueKeys(issues[1..])
  }

  function ErrorKey(at: string): string {
    "malformed-schema" + "\0" + "" + "\0" + at
  }

  lemma {:induction false} IssueFindingKeys(p: Pass, root: Root, issues: seq<Issue>, given: Anchor)
    ensures Keys(AllAtEntry(p, root, IssueFindings(issues, given))) == IssueKeys(issues)
  {
    if issues != [] {
      var findings := IssueFindings(issues, given);
      assert findings[1..] == IssueFindings(issues[1..], given);
      IssueFindingKeys(p, root, issues[1..], given);
      OneIssueKey(p, root, issues[0], given);
      var put := AllAtEntry(p, root, findings);
      assert put[0] == AtEntry(p, root, findings[0]) && put[1..] == AllAtEntry(p, root, findings[1..]);
    }
  }

  lemma OneIssueKey(p: Pass, root: Root, issue: Issue, given: Anchor)
    ensures TableKey(AtEntry(p, root, IssueFinding(issue, given))) == IssueKey(issue)
  {
  }

  lemma OneErrorKey(p: Pass, root: Root, first: Root, at: string, message: string)
    ensures Keys(AllAtEntry(p, root, [ErrorFinding(first, at, message)])) == [ErrorKey(at)]
  {
    var f := ErrorFinding(first, at, message);
    assert AllAtEntry(p, root, [f]) == [AtEntry(p, root, f)];
    assert Keys([AtEntry(p, root, f)]) == [TableKey(AtEntry(p, root, f))];
  }

  /** The keys of the findings a canonical target produces. */
  function EntryKeys(compile: Compiler, input: Input): seq<string> {
    match compile(input)
    case Failed(at, _) => [ErrorKey(at.GetOr(input.pointer))]
    case Issues(issues) => IssueKeys(Distinct(issues, {}))
  }

  /** Whichever entry compiled, and whichever entry reports, the keys are the target's own. */
  lemma EntryFindingKeys(p: Pass, compile: Compiler, root: Root, first: Root, input: Input)
    ensures Keys(AllAtEntry(p, root, CompileFindings(compile, first, input))) == EntryKeys(compile, input)
  {
    hide ErrorFinding, AllAtEntry, Keys, IssueFindings, ErrorKey, IssueKeys, Distinct;
    match compile(input)
    case Failed(at, message) => OneErrorKey(p, root, first, at.GetOr(input.pointer), message);
    case Issues(issues) => IssueFindingKeys(p, root, Distinct(issues, {}), AnchorAt(input.pointer, first.pointer));
  }

  // ---- The keys are those of what the compiler says ----

  /** The compiler reports a diagnostic of this code, message and pointer, or fails with the malformed schema at it. */
  ghost predicate Says(compile: Compiler, input: Input, key: string) {
    match compile(input)
    case Issues(issues) => exists issue :: issue in issues && IssueKey(issue) == key
    case Failed(at, _) => key == ErrorKey(match at case Some(pointer) => pointer case None => input.pointer)
  }

  /** Of the diagnostics of one compile those are kept, in order, whose code, message and pointer no earlier one has. */
  lemma {:induction false} DistinctPicks(issues: seq<Issue>, seen: set<string>) returns (at: seq<nat>)
    ensures Picks(Distinct(issues, seen), issues, at)
    ensures forall k: nat :: k < |issues| ==> (k in at <==> IsNew(issues, seen, k))
    decreases |issues|
  {
    hide IssueKey;
    if issues == [] {
      at := [];
    } else {
      var key := IssueKey(issues[0]);
      var rest := DistinctPicks(issues[1..], seen + {key});
      hide Picks, InFront;
      at := InFront(key !in seen, rest);
      assert seen + {key} == seen || key !in seen;
      PicksInFront(Distinct(issues[1..], seen + {key}), issues, rest, key !in seen);
      forall k: nat | k < |issues| ensures k in at <==> IsNew(issues, seen, k) {
        InFrontMember(key !in seen, rest, k);
        if k > 0 {
          NewLater(issues, seen, k);
        }
      }
    }
  }

  /** The first diagnostic of its key, which was not seen before either. */
  ghost predicate IsNew(issues: seq<Issue>, seen: set<string>, k: nat)
    requires k < |issues|
  {
    IssueKey(issues[k]) !in seen && forall j :: 0 <= j < k ==> IssueKey(issues[j]) != IssueKey(issues[k])
  }

  lemma NewLater(issues: seq<Issue>, seen: set<string>, k: nat)
    requires 0 < k < |issues|
    ensures IsNew(issues, seen, k) <==> IsNew(issues[1..], seen + {IssueKey(issues[0])}, k - 1)
  {
    hide IssueKey;
    if IsNew(issues[1..], seen + {IssueKey(issues[0])}, k - 1) {
      forall j | 0 <= j < k ensures IssueKey(issues[j]) != IssueKey(issues[k]) {
        assert j > 0 ==> issues[1..][j - 1] == issues[j];
      }
    }
    assert issues[1..][k - 1] == issues[k];
    assert forall j :: 0 <= j < k - 1 ==> issues[1..][j] == issues[j + 1];
  }

  lemma {:induction false} FirstOfItsKey(issues: seq<Issue>, k: nat) returns (i: nat)
    requires k < |issues|
    ensures i <= k && IssueKey(issues[i]) == IssueKey(issues[k]) && IsNew(issues, {}, i)
  {
    hide IssueKey;
    if j: nat :| j < k && IssueKey(issues[j]) == IssueKey(issues[k]) {
      i := FirstOfItsKey(issues, j);
    } else {
      i := k;
    }
  }

  /** Every key of the diagnostics is reported, once, and no other. */
  lemma DistinctExactly(issues: seq<Issue>, key: string)
    ensures (exists issue :: issue in Distinct(issues, {}) && IssueKey(issue) == key)
      <==> exists issue :: issue in issues && IssueKey(issue) == key
    ensures forall i, j :: 0 <= i < j < |Distinct(issues, {})| ==>
      IssueKey(Distinct(issues, {})[i]) != IssueKey(Distinct(issues, {})[j])
  {
    hide IssueKey, Distinct;
    var at := DistinctPicks(issues, {});
    var kept := Distinct(issues, {});
    if issue :| issue in kept && IssueKey(issue) == key {
      var i :| 0 <= i < |kept| && kept[i] == issue;
      assert issues[at[i]] in issues;
    }
    if issue :| issue in issues && IssueKey(issue) == key {
      var k: nat :| k < |issues| && issues[k] == issue;
      var first := FirstOfItsKey(issues, k);
      assert first in at;
      var i :| 0 <= i < |at| && at[i] == first;
      assert kept[i] in kept && IssueKey(kept[i]) == key;
    }
    forall i, j | 0 <= i < j < |kept| ensures IssueKey(kept[i]) != IssueKey(kept[j]) {
      assert at[i] in at && at[j] in at && IsNew(issues, {}, at[j]);
    }
  }

  lemma {:induction false} IssueKeysMember(issues: seq<Issue>, key: string)
    ensures key in IssueKeys(issues) <==> exists issue :: issue in issues && IssueKey(issue) == key
  {
    hide IssueKey;
    if issues != [] {
      IssueKeysMember(issues[1..], key);
      assert issues == [issues[0]] + issues[1..];
      assert issues[0] in issues;
    }
  }

  /** What an entry's findings are keyed by is exactly what the compiler says. */
  lemma EntryKeysExactly(compile: Compiler, input: Input, key: string)
    ensures key in EntryKeys(compile, input) <==> Says(compile, input, key)
  {
    hide IssueKey, ErrorKey, Distinct, IssueKeys;
    match compile(input)
    case Failed(_, _) =>
    case Issues(issues) =>
      IssueKeysMember(Distinct(issues, {}), key);
      DistinctExactly(issues, key);
  }

  // ---- One input for each key ----

  /**
   * A root that meets a remembered result, compiled or not, would have been compiled
   * from what the result was compiled from.
   */
  ghost predicate SharesInput(p: Pass, i: nat, j: nat)
    requires i < |p.AllRoots()| && j < |p.AllRoots()|
  {
    i < j && Compiles(p, i) && Eligible(p, j) && KeyOf(SpotAt(p, i)) == KeyOf(SpotAt(p, j)) ==>
      PreparedAt(p, j).Some? && InputAt(p, i) == InputAt(p, j)
  }

  ghost predicate OneInputEach(p: Pass) {
    forall i: nat, j: nat :: i < |p.AllRoots()| && j < |p.AllRoots()| ==> SharesInput(p, i, j)
  }

  ghost predicate Transparent(p: Pass, compile: Compiler) {
    CachedRun(p, compile, |p.AllRoots()|).s.table == FreshRun(p, compile, |p.AllRoots()|).table
  }

  // ---- Then remembering never shows ----

  /** The rows of every remembered result are in the table. */
  ghost predicate RowsKnown(p: Pass, compile: Compiler, table: seq<Finding>, n: nat)
    requires n <= |p.AllRoots()|
  {
    forall i: nat :: i < n && Compiles(p, i) ==> AllKnown(table, EntryKeys(compile, InputAt(p, i)))
  }

  lemma {:induction false} TablesInStep(p: Pass, compile: Compiler, n: nat)
    requires Coherent(p) && OneInputEach(p) && n <= |p.AllRoots()|
    ensures CachedRun(p, compile, n).s.table == FreshRun(p, compile, n).table
    ensures RowsKnown(p, compile, FreshRun(p, compile, n).table, n)
  {
    hide Coherent, OneInputEach, CachedStep, FreshStep, RowsKnown, CoveredAt, Remembers, SameCover, CachedEmits,
      FreshEmits, AddAll, Passes, Considered, SpotAt, PreparedAt;
    if n == 0 {
      NoRowsYet(p, compile);
    } else {
      TablesInStep(p, compile, n - 1);
      var k, s := CachedRun(p, compile, n - 1), FreshRun(p, compile, n - 1);
      InStep(p, compile, n - 1);
      FreshCovered(p, compile, n - 1);
      SameCoverSamePasses(p, k.s.covered, s.covered, n - 1);
      CachedStepIs(p, compile, k, n - 1);
      FreshStepIs(p, compile, s, n - 1);
      EmitsAlike(p, compile, k, s, n - 1);
      RowsGrow(p, compile, s, n - 1);
    }
  }

  lemma NoRowsYet(p: Pass, compile: Compiler)
    ensures RowsKnown(p, compile, [], 0)
  {
  }

  /** What a root emits from the cache leaves the same table as what it would have produced. */
  lemma EmitsAlike(p: Pass, compile: Compiler, k: Cached, s: State, n: nat)
    requires OneInputEach(p) && n < |p.AllRoots()| && s.covered == CoveredAt(p, n) && k.s.table == s.table
    requires Considered(p, k.s.covered, n) <==> Considered(p, s.covered, n)
    requires Passes(p, k.s.covered, n) <==> Passes(p, s.covered, n)
    requires Remembers(p, compile, k.cache, n) && RowsKnown(p, compile, s.table, n)
    ensures AddAll(k.s.table, CachedEmits(p, compile, k, n)) == AddAll(s.table, FreshEmits(p, compile, s.covered, n))
  {
    hide PreparedAt, SpotAt, CompileFindings, AllAtEntry, GraphError, Considered, CoveredAt, EntryKeys, BumpAll, Keys,
      Known, InputAt, Compiles;
    hide AddAll;
    var key := KeyOf(SpotAt(p, n));
    if Passes(p, k.s.covered, n) && key in k.cache {
      assert HasFirst(p, key, n);
      var i: nat :| FirstFor(p, key, i, n);
      assert MadeBy(p, compile, k.cache, key, i);
      CompilesIs(p, n);
      assert SharesInput(p, i, n);
      var root, first := p.AllRoots()[n], p.AllRoots()[i];
      EntryFindingKeys(p, compile, root, first, InputAt(p, i));
      EntryFindingKeys(p, compile, root, root, InputAt(p, n));
      RepeatsOnlyCount(s.table, AllAtEntry(p, root, k.cache[key]));
      RepeatsOnlyCount(s.table, AllAtEntry(p, root, CompileFindings(compile, root, InputAt(p, n))));
      NotFailing(p, k.s.covered, n);
    }
  }

  lemma NotFailing(p: Pass, covered: set<Value>, n: nat)
    requires n < |p.AllRoots()| && Passes(p, covered, n)
    ensures n !in p.rootErrors
  {
  }

  lemma RowsGrow(p: Pass, compile: Compiler, s: State, n: nat)
    requires n < |p.AllRoots()| && s.covered == CoveredAt(p, n) && RowsKnown(p, compile, s.table, n)
    ensures RowsKnown(p, compile, AddAll(s.table, FreshEmits(p, compile, s.covered, n)), n + 1)
  {
    hide PreparedAt, SpotAt, CompileFindings, AllAtEntry, GraphError, CoveredAt, EntryKeys, Keys, Known, InputAt,
      Compiles, AddAll;
    CompilesIs(p, n);
    var emitted := FreshEmits(p, compile, s.covered, n);
    forall i: nat | i < n + 1 && Compiles(p, i)
      ensures AllKnown(AddAll(s.table, emitted), EntryKeys(compile, InputAt(p, i))) {
      if i == n {
        EntryFindingKeys(p, compile, p.AllRoots()[n], p.AllRoots()[n], InputAt(p, n));
        NotFailing(p, s.covered, n);
      }
      forall x | x in EntryKeys(compile, InputAt(p, i)) ensures Known(AddAll(s.table, emitted), x) {
        AddAllKnows(s.table, emitted, x);
      }
    }
  }

  /**
   * Remembering is invisible: the table, with its order, first occurrences, anchors,
   * labels and counts, is the one that compiling every root afresh gives.
   */
  lemma CacheIsTransparent(p: Pass, compile: Compiler)
    requires Coherent(p) && OneInputEach(p)
    ensures Transparent(p, compile)
  {
    hide CachedRun, FreshRun, Coherent, OneInputEach;
    TablesInStep(p, compile, |p.AllRoots()|);
  }
}

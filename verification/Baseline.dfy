/**
 * Comparing a run of the JSON Schema suite with a committed baseline, case by case.
 */
module Baseline {
  import opened Options
  import opened Text

  datatype Actual = Answered(verdict: bool) | Crashed

  /** `data` stands for the case's data as JSON text. */
  datatype Mismatch = Mismatch(group: string, test: string, data: string, expected: bool, actual: Actual,
    reason: Option<string>) {
    /** A case's identity: what was asked, not what came back. */
    function Id(): CaseId { CaseId(group, test, data, expected) }
  }

  datatype CaseId = CaseId(group: string, test: string, data: string, expected: bool)

  datatype FileResult =
    FileResult(file: string, groups: nat, cases: nat, pass: nat, fail: nat, error: nat, mismatches: seq<Mismatch>)

  type Inventory = map<string, set<CaseId>>

  // ---- What a measurement must satisfy ----

  predicate NamesPhase(reason: Option<string>) {
    reason.Some? && (StartsWith(reason.value, "compile: ") || StartsWith(reason.value, "runtime: "))
  }

  predicate IsMismatch(m: Mismatch) {
    m.actual != Answered(m.expected) && (m.actual.Crashed? ==> NamesPhase(m.reason))
  }

  function IdsOf(ms: seq<Mismatch>): set<CaseId> {
    set m | m in ms :: m.Id()
  }

  /** Each mismatch is one, of a case this run attempted, and no case is reported twice. */
  predicate MismatchesHold(ms: seq<Mismatch>, ids: set<CaseId>) {
    ms == [] ||
    (MismatchesHold(ms[..|ms| - 1], ids)
     && var last := ms[|ms| - 1];
        IsMismatch(last) && last.Id() in ids && last.Id() !in IdsOf(ms[..|ms| - 1]))
  }

  function Crashes(ms: seq<Mismatch>): nat {
    if ms == [] then 0 else Crashes(ms[..|ms| - 1]) + if ms[|ms| - 1].actual.Crashed? then 1 else 0
  }

  predicate Consistent(r: FileResult, ids: set<CaseId>) {
    && r.cases == |ids|
    && r.pass + r.fail + r.error == r.cases
    && r.fail + r.error == |r.mismatches|
    && MismatchesHold(r.mismatches, ids)
    && Crashes(r.mismatches) == r.error
  }

  /** Entries whose fields have the declared types; an entry that has not is `None`. */
  type Measurement = seq<Option<FileResult>>

  /** The files in the order of their entries. */
  function Names(m: Measurement): seq<string> {
    if m == [] then [] else Names(m[..|m| - 1]) + if m[|m| - 1].Some? then [m[|m| - 1].value.file] else []
  }

  function Table(m: Measurement): map<string, FileResult> {
    if m == [] then map[]
    else
      var rest := Table(m[..|m| - 1]);
      if m[|m| - 1].Some? then rest[m[|m| - 1].value.file := m[|m| - 1].value] else rest
  }

  predicate EntriesHold(m: Measurement, caseIds: Inventory) {
    m == [] ||
    (EntriesHold(m[..|m| - 1], caseIds)
     && var last := m[|m| - 1];
        last.Some? && last.value.file !in Table(m[..|m| - 1]) && last.value.file in caseIds
        && Consistent(last.value, caseIds[last.value.file]))
  }

  /** A measurement of exactly the files of this run. */
  predicate Accepted(m: Measurement, caseIds: Inventory) {
    m != [] && EntriesHold(m, caseIds) && |m| == |caseIds|
  }

  // ---- Indexing ----

  /** A map that remembers the order its keys were added in. */
  datatype Index = Index(order: seq<string>, files: map<string, FileResult>)

  method CheckMismatches(ms: seq<Mismatch>, ids: set<CaseId>) returns (errors: Option<nat>)
    ensures errors == if MismatchesHold(ms, ids) then Some(Crashes(ms)) else None
  {
    var seen: set<CaseId> := {};
    var count := 0;
    var i := 0;
    while i < |ms|
      invariant i <= |ms|
      invariant MismatchesHold(ms[..i], ids) && seen == IdsOf(ms[..i]) && count == Crashes(ms[..i])
    {
      var m := ms[i];
      assert ms[..i + 1][..i] == ms[..i] && ms[..i + 1][i] == m;
      if !IsMismatch(m) || m.Id() !in ids || m.Id() in seen {
        BadPrefix(ms, ids, i + 1);
        return None;
      }
      if m.actual.Crashed? {
        count := count + 1;
      }
      assert ms[..i + 1] == ms[..i] + [m];
      seen := seen + {m.Id()};
      i := i + 1;
    }
    assert ms[..i] == ms;
    return Some(count);
  }

  lemma {:induction false} BadPrefix(ms: seq<Mismatch>, ids: set<CaseId>, n: nat)
    requires n <= |ms| && !MismatchesHold(ms[..n], ids)
    ensures !MismatchesHold(ms, ids)
  {
    if n < |ms| {
      assert ms[..|ms| - 1][..n] == ms[..n];
      BadPrefix(ms[..|ms| - 1], ids, n);
    } else {
      assert ms[..n] == ms;
    }
  }

  lemma {:induction false} BadEntries(m: Measurement, caseIds: Inventory, n: nat)
    requires n <= |m| && !EntriesHold(m[..n], caseIds)
    ensures !EntriesHold(m, caseIds)
  {
    if n < |m| {
      assert m[..|m| - 1][..n] == m[..n];
      BadEntries(m[..|m| - 1], caseIds, n);
    } else {
      assert m[..n] == m;
    }
  }

  /** Index a measurement, or refuse it. */
  method IndexResults(m: Measurement, caseIds: Inventory) returns (r: Option<Index>)
    ensures r == if Accepted(m, caseIds) then Some(Index(Names(m), Table(m))) else None
  {
    if m == [] {
      return None;
    }
    var index := Index([], map[]);
    var i := 0;
    while i < |m|
      invariant i <= |m|
      invariant EntriesHold(m[..i], caseIds) && index == Index(Names(m[..i]), Table(m[..i])) && |index.files| == i
    {
      assert m[..i + 1][..i] == m[..i] && m[..i + 1][i] == m[i];
      if m[i].None? {
        BadEntries(m, caseIds, i + 1);
        return None;
      }
      var entry := m[i].value;
      if entry.file in index.files || entry.file !in caseIds {
        BadEntries(m, caseIds, i + 1);
        return None;
      }
      var ids := caseIds[entry.file];
      var errors := CheckMismatches(entry.mismatches, ids);
      if entry.cases != |ids| || entry.pass + entry.fail + entry.error != entry.cases
         || entry.fail + entry.error != |entry.mismatches| || errors != Some(entry.error) {
        BadEntries(m, caseIds, i + 1);
        return None;
      }
      index := Index(index.order + [entry.file], index.files[entry.file := entry]);
      i := i + 1;
    }
    assert m[..i] == m;
    if |index.files| != |caseIds| {
      return None;
    }
    return Some(index);
  }

  // ---- Comparing ----

  datatype Kind = WrongVerdict | CompileCrash | RuntimeCrash

  function Outcome(m: Mismatch): Kind {
    if m.actual.Answered? then WrongVerdict
    else if m.reason.Some? && StartsWith(m.reason.value, "compile: ") then CompileCrash
    else RuntimeCrash
  }

  datatype Note =
    | NewFailure(file: string, group: string, test: string, kind: Kind)
    | Changed(file: string, group: string, test: string, was: Kind, now: Kind)
    | NowPassing(file: string, group: string, test: string)

  datatype Comparison = Comparison(baselinePass: nat, baselineCases: nat, regressions: seq<Note>,
    improvements: seq<Note>)

  function Find(ms: seq<Mismatch>, id: CaseId): Option<Mismatch> {
    if ms == [] then None
    else if ms[|ms| - 1].Id() == id then Some(ms[|ms| - 1])
    else Find(ms[..|ms| - 1], id)
  }

  function Dropped(ms: seq<Mismatch>, id: CaseId): seq<Mismatch> {
    if ms == [] then [] else Dropped(ms[..|ms| - 1], id) + if ms[|ms| - 1].Id() == id then [] else [ms[|ms| - 1]]
  }

  /** What one current failure adds to the regressions, given what the baseline says of the case. */
  function Regressing(file: string, m: Mismatch, was: Option<Mismatch>): seq<Note> {
    match was
    case None => [NewFailure(file, m.group, m.test, Outcome(m))]
    case Some(w) =>
      if Outcome(w) != Outcome(m) && m.actual.Crashed? then [Changed(file, m.group, m.test, Outcome(w), Outcome(m))]
        else []
  }

  function Improving(file: string, m: Mismatch, was: Option<Mismatch>): seq<Note> {
    match was
    case None => []
    case Some(w) =>
      if Outcome(w) != Outcome(m) && !m.actual.Crashed? then [Changed(file, m.group, m.test, Outcome(w), Outcome(m))]
        else []
  }

  function Regressions(file: string, now: seq<Mismatch>, before: seq<Mismatch>): seq<Note> {
    if now == [] then []
    else
      var last := now[|now| - 1];
      Regressions(file, now[..|now| - 1], before) + Regressing(file, last, Find(before, last.Id()))
  }

  function Improvements(file: string, now: seq<Mismatch>, before: seq<Mismatch>): seq<Note> {
    if now == [] then []
    else
      var last := now[|now| - 1];
      Improvements(file, now[..|now| - 1], before) + Improving(file, last, Find(before, last.Id()))
  }

  /** The failures of the baseline the current run does not show, in the baseline's order. */
  function Remaining(before: seq<Mismatch>, ids: set<CaseId>): seq<Mismatch> {
    if before == [] then []
    else
      var last := before[|before| - 1];
      Remaining(before[..|before| - 1], ids) + if last.Id() in ids then [] else [last]
  }

  function Passing(file: string, ms: seq<Mismatch>): seq<Note> {
    if ms == [] then [] else Passing(file, ms[..|ms| - 1]) + [NowPassing(file, ms[|ms| - 1].group, ms[|ms| - 1].test)]
  }

  function FileImprovements(file: string, now: seq<Mismatch>, before: seq<Mismatch>): seq<Note> {
    Improvements(file, now, before) + Passing(file, Remaining(before, IdsOf(now)))
  }

  lemma DroppedMore(ms: seq<Mismatch>, last: Mismatch, id: CaseId)
    ensures Dropped(ms + [last], id) == Dropped(ms, id) + if last.Id() == id then [] else [last]
    ensures Find(ms + [last], id) == if last.Id() == id then Some(last) else Find(ms, id)
  {
    assert (ms + [last])[..|ms|] == ms;
  }

  lemma RemainingStep(before: seq<Mismatch>, ids: set<CaseId>)
    requires before != []
    ensures var n := |before| - 1;
      Remaining(before, ids) == if before[n].Id() in ids then Remaining(before[..n], ids)
        else Remaining(before[..n], ids) + [before[n]]
  {
  }

  lemma {:induction false} DropOne(before: seq<Mismatch>, ids: set<CaseId>, id: CaseId)
    ensures Dropped(Remaining(before, ids), id) == Remaining(before, ids + {id})
  {
    if before != [] {
      hide Remaining, Dropped;
      var n := |before| - 1;
      DropOne(before[..n], ids, id);
      RemainingStep(before, ids);
      RemainingStep(before, ids + {id});
      DroppedMore(Remaining(before[..n], ids), before[n], id);
      assert Dropped(Remaining(before[..n], ids), id) + [] == Dropped(Remaining(before[..n], ids), id);
    }
  }

  lemma {:induction false} FindRemaining(before: seq<Mismatch>, ids: set<CaseId>, id: CaseId)
    requires id !in ids
    ensures Find(Remaining(before, ids), id) == Find(before, id)
  {
    if before != [] {
      hide Remaining, Dropped;
      var n := |before| - 1;
      FindRemaining(before[..n], ids, id);
      RemainingStep(before, ids);
      DroppedMore(Remaining(before[..n], ids), before[n], id);
    }
  }

  lemma {:induction false} RemainingAll(before: seq<Mismatch>)
    ensures Remaining(before, {}) == before
  {
    if before != [] {
      RemainingAll(before[..|before| - 1]);
    }
  }

  /** What reading one more current failure does to each of the three lists. */
  lemma CompareStep(file: string, now: seq<Mismatch>, before: seq<Mismatch>, ids: set<CaseId>, i: nat)
    requires MismatchesHold(now, ids) && i < |now|
    ensures var id := now[i].Id(); var known := Remaining(before, IdsOf(now[..i]));
      Find(known, id) == Find(before, id) && Dropped(known, id) == Remaining(before, IdsOf(now[..i + 1]))
    ensures Regressions(file, now[..i + 1], before)
         == Regressions(file, now[..i], before) + Regressing(file, now[i], Find(before, now[i].Id()))
    ensures Improvements(file, now[..i + 1], before)
         == Improvements(file, now[..i], before) + Improving(file, now[i], Find(before, now[i].Id()))
  {
    var id := now[i].Id();
    assert now[..i + 1][..i] == now[..i] && now[..i + 1] == now[..i] + [now[i]];
    HoldsBefore(now, ids, i);
    FindRemaining(before, IdsOf(now[..i]), id);
    DropOne(before, IdsOf(now[..i]), id);
    assert IdsOf(now[..i + 1]) == IdsOf(now[..i]) + {id};
  }

  /** Compare one file, deleting from what is known each case the current run still fails. */
  method CompareFile(file: string, now: seq<Mismatch>, before: seq<Mismatch>, ghost ids: set<CaseId>)
    returns (regressions: seq<Note>, improvements: seq<Note>)
    requires MismatchesHold(now, ids)
    ensures regressions == Regressions(file, now, before)
    ensures improvements == FileImprovements(file, now, before)
  {
    hide Find, Dropped, Remaining, Outcome;
    regressions, improvements := [], [];
    var known := before;
    assert now[..0] == [] && IdsOf(now[..0]) == {};
    RemainingAll(before);
    var i := 0;
    while i < |now|
      invariant i <= |now|
      invariant known == Remaining(before, IdsOf(now[..i]))
      invariant regressions == Regressions(file, now[..i], before)
      invariant improvements == Improvements(file, now[..i], before)
    {
      var m := now[i];
      CompareStep(file, now, before, ids, i);
      var was := Find(known, m.Id());
      if was.None? {
        regressions := regressions + [NewFailure(file, m.group, m.test, Outcome(m))];
      } else if Outcome(was.value) != Outcome(m) {
        var change := Changed(file, m.group, m.test, Outcome(was.value), Outcome(m));
        if m.actual.Crashed? {
          regressions := regressions + [change];
        } else {
          improvements := improvements + [change];
        }
      }
      known := Dropped(known, m.Id());
      i := i + 1;
    }
    assert now[..i] == now;
    ghost var sofar := improvements;
    var j := 0;
    while j < |known|
      invariant j <= |known|
      invariant improvements == sofar + Passing(file, known[..j])
    {
      assert known[..j + 1][..j] == known[..j];
      improvements := improvements + [NowPassing(file, known[j].group, known[j].test)];
      j := j + 1;
    }
    assert known[..j] == known;
  }

  lemma {:induction false} HoldsBefore(ms: seq<Mismatch>, ids: set<CaseId>, n: nat)
    requires n < |ms| && MismatchesHold(ms, ids)
    ensures MismatchesHold(ms[..n], ids) && ms[n].Id() in ids && ms[n].Id() !in IdsOf(ms[..n])
  {
    if n < |ms| - 1 {
      assert ms[..|ms| - 1][..n] == ms[..n];
      HoldsBefore(ms[..|ms| - 1], ids, n);
    }
  }

  predicate Listed(order: seq<string>, table: map<string, FileResult>) {
    forall f :: f in order ==> f in table
  }

  predicate GroupsAgree(order: seq<string>, before: map<string, FileResult>, after: map<string, FileResult>)
    requires Listed(order, before) && Listed(order, after)
  {
    forall f :: f in order ==> before[f].groups == after[f].groups
  }

  /** The comparison of the files named, one after the other. */
  function Compared(order: seq<string>, before: map<string, FileResult>, after: map<string, FileResult>): Comparison
    requires Listed(order, before) && Listed(order, after)
  {
    if order == [] then Comparison(0, 0, [], [])
    else
      var c := Compared(order[..|order| - 1], before, after);
      var f := order[|order| - 1];
      Comparison(
        c.baselinePass + before[f].pass, c.baselineCases + before[f].cases,
        c.regressions + Regressions(f, after[f].mismatches, before[f].mismatches),
        c.improvements + FileImprovements(f, after[f].mismatches, before[f].mismatches))
  }

  // ---- What an accepted measurement holds ----

  predicate Distinct(names: seq<string>) {
    forall i, k :: 0 <= i < k < |names| ==> names[i] != names[k]
  }

  lemma {:induction false} TableFacts(m: Measurement, caseIds: Inventory)
    requires EntriesHold(m, caseIds)
    ensures |Names(m)| == |m| == |Table(m)| && Distinct(Names(m))
    ensures forall f :: f in Names(m) <==> f in Table(m)
    ensures forall f :: f in Table(m) ==> f in caseIds && Consistent(Table(m)[f], caseIds[f])
  {
    hide Consistent;
    if m != [] {
      TableFacts(m[..|m| - 1], caseIds);
    }
  }

  /** A measurement accepted for this run holds a consistent result for each of its files and for no other. */
  lemma AcceptedFacts(m: Measurement, caseIds: Inventory)
    requires Accepted(m, caseIds)
    ensures Table(m).Keys == caseIds.Keys && Distinct(Names(m)) && Listed(Names(m), Table(m))
    ensures forall f :: f in caseIds ==> f in Names(m) && Consistent(Table(m)[f], caseIds[f])
  {
    hide Consistent, EntriesHold, Names, Table;
    TableFacts(m, caseIds);
    SameSizeIsAll(Table(m).Keys, caseIds.Keys);
  }

  /** One more file compared. */
  lemma ComparedStep(order: seq<string>, before: map<string, FileResult>, after: map<string, FileResult>, i: nat)
    requires Listed(order, before) && Listed(order, after) && i < |order|
    ensures Listed(order[..i], before) && Listed(order[..i], after)
    ensures Listed(order[..i + 1], before) && Listed(order[..i + 1], after)
    ensures order[i] in before && order[i] in after
    ensures GroupsAgree(order[..i + 1], before, after)
      <==> GroupsAgree(order[..i], before, after) && before[order[i]].groups == after[order[i]].groups
    ensures GroupsAgree(order, before, after) ==> before[order[i]].groups == after[order[i]].groups
    ensures var f := order[i]; var c := Compared(order[..i], before, after);
      Compared(order[..i + 1], before, after) == Comparison(
        c.baselinePass + before[f].pass, c.baselineCases + before[f].cases,
        c.regressions + Regressions(f, after[f].mismatches, before[f].mismatches),
        c.improvements + FileImprovements(f, after[f].mismatches, before[f].mismatches))
  {
    hide Regressions, FileImprovements;
    assert order[..i + 1] == order[..i] + [order[i]] && order[..i + 1][..i] == order[..i];
    assert order[i] in order;
  }

  lemma ComparedNothing(before: map<string, FileResult>, after: map<string, FileResult>)
    ensures Listed([], before) && Listed([], after) && GroupsAgree([], before, after)
    ensures Compared([], before, after) == Comparison(0, 0, [], [])
  {
  }

  /** Compare a run with the baseline; either measurement may be refused, and so may a changed group count. */
  method CompareSuiteBaseline(current: Measurement, baseline: Measurement, caseIds: Inventory)
    returns (r: Option<Comparison>)
    ensures r.Some? ==> Accepted(baseline, caseIds) && Accepted(current, caseIds)
    ensures Accepted(baseline, caseIds) && Accepted(current, caseIds) ==>
      var order, before, after := Names(baseline), Table(baseline), Table(current);
      && Listed(order, before) && Listed(order, after)
      && r == if GroupsAgree(order, before, after) then Some(Compared(order, before, after)) else None
  {
    hide Accepted, Names, Table, Consistent, Listed, GroupsAgree, Compared, Regressions, FileImprovements,
      MismatchesHold;
    var first := IndexResults(baseline, caseIds);
    if first.None? {
      return None;
    }
    var second := IndexResults(current, caseIds);
    if second.None? {
      return None;
    }
    var order, before, after := first.value.order, first.value.files, second.value.files;
    ListedInBoth(current, baseline, caseIds);
    var c := Comparison(0, 0, [], []);
    ComparedNothing(before, after);
    var i := 0;
    assert order[..0] == [];
    while i < |order|
      invariant i <= |order|
      invariant Listed(order[..i], before) && Listed(order[..i], after)
      invariant GroupsAgree(order[..i], before, after) && c == Compared(order[..i], before, after)
    {
      var file := order[i];
      ComparedStep(order, before, after, i);
      var previous, next := before[file], after[file];
      if next.groups != previous.groups {
        return None;
      }
      var ids := caseIds[file];
      ConsistentMismatches(next, ids);
      var worse, better := CompareFile(file, next.mismatches, previous.mismatches, ids);
      c := Comparison(c.baselinePass + previous.pass, c.baselineCases + previous.cases,
                      c.regressions + worse, c.improvements + better);
      i := i + 1;
    }
    assert order[..i] == order;
    return Some(c);
  }

  /** Every file of the baseline is in both tables and in the inventory. */
  lemma ListedInBoth(current: Measurement, baseline: Measurement, caseIds: Inventory)
    requires Accepted(baseline, caseIds) && Accepted(current, caseIds)
    ensures Listed(Names(baseline), Table(baseline)) && Listed(Names(baseline), Table(current))
    ensures forall f :: f in Names(baseline) ==> f in caseIds
    ensures forall f :: f in caseIds ==> f in Table(current) && Consistent(Table(current)[f], caseIds[f])
  {
    AcceptedFacts(baseline, caseIds);
    AcceptedFacts(current, caseIds);
  }

  lemma ConsistentMismatches(r: FileResult, ids: set<CaseId>)
    requires Consistent(r, ids)
    ensures MismatchesHold(r.mismatches, ids) && r.pass + |r.mismatches| == |ids|
  {
  }
}

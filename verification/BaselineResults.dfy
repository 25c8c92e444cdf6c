/**
 * What the suite comparison conserves, and what an empty list of regressions means.
 */
module BaselineResults {
  import opened Options
  import opened Baseline

  function CountNew(notes: seq<Note>): nat {
    if notes == [] then 0 else (if notes[0].NewFailure? then 1 else 0) + CountNew(notes[1..])
  }

  function CountPassing(notes: seq<Note>): nat {
    if notes == [] then 0 else (if notes[0].NowPassing? then 1 else 0) + CountPassing(notes[1..])
  }

  lemma {:induction false} CountsAdd(a: seq<Note>, b: seq<Note>)
    ensures CountNew(a + b) == CountNew(a) + CountNew(b)
    ensures CountPassing(a + b) == CountPassing(a) + CountPassing(b)
  {
    if a == [] {
      assert a + b == b;
    } else {
      assert (a + b)[0] == a[0] && (a + b)[1..] == a[1..] + b;
      CountsAdd(a[1..], b);
    }
  }

  // ---- One file ----

  lemma {:induction false} FindKnown(ms: seq<Mismatch>, id: CaseId)
    ensures Find(ms, id).Some? <==> id in IdsOf(ms)
    ensures Find(ms, id).Some? ==> Find(ms, id).value in ms && Find(ms, id).value.Id() == id
  {
    if ms != [] {
      FindKnown(ms[..|ms| - 1], id);
    }
  }

  lemma {:induction false} IdsCount(ms: seq<Mismatch>, ids: set<CaseId>)
    requires MismatchesHold(ms, ids)
    ensures |IdsOf(ms)| == |ms|
  {
    if ms != [] {
      var n := |ms| - 1;
      IdsCount(ms[..n], ids);
      assert ms == ms[..n] + [ms[n]];
      assert IdsOf(ms) == IdsOf(ms[..n]) + {ms[n].Id()};
    }
  }

  lemma IdsGrow(ms: seq<Mismatch>)
    requires ms != []
    ensures IdsOf(ms) == IdsOf(ms[..|ms| - 1]) + {ms[|ms| - 1].Id()}
  {
    assert ms == ms[..|ms| - 1] + [ms[|ms| - 1]];
  }

  lemma MinusGrows(a: set<CaseId>, x: CaseId, b: set<CaseId>)
    requires x !in a
    ensures |a + {x} - b| == |a - b| + if x in b then 0 else 1
  {
    assert a + {x} - b == if x in b then a - b else (a - b) + {x};
  }

  lemma CountsOfOne(file: string, m: Mismatch, was: Option<Mismatch>)
    ensures CountNew(Regressing(file, m, was)) == if was.None? then 1 else 0
    ensures CountPassing(Regressing(file, m, was)) == 0 && CountPassing(Improving(file, m, was)) == 0
  {
  }

  /** The failures reported as new are the ones the baseline does not show. */
  lemma {:induction false} NewOnes(file: string, now: seq<Mismatch>, before: seq<Mismatch>, ids: set<CaseId>)
    requires MismatchesHold(now, ids)
    ensures CountNew(Regressions(file, now, before)) == |IdsOf(now) - IdsOf(before)|
    ensures CountPassing(Regressions(file, now, before)) == 0
    ensures CountPassing(Improvements(file, now, before)) == 0
  {
    hide Outcome, Find, IdsOf, Regressing, Improving, IsMismatch;
    if now == [] {
      assert IdsOf(now) == {} by { IdsOfNone(); }
      assert IdsOf(now) - IdsOf(before) == {};
    } else {
      var n := |now| - 1;
      var last := now[n];
      var was := Find(before, last.Id());
      NewOnes(file, now[..n], before, ids);
      FindKnown(before, last.Id());
      CountsOfOne(file, last, was);
      CountsAdd(Regressions(file, now[..n], before), Regressing(file, last, was));
      CountsAdd(Improvements(file, now[..n], before), Improving(file, last, was));
      IdsGrow(now);
      MinusGrows(IdsOf(now[..n]), last.Id(), IdsOf(before));
    }
  }

  lemma IdsOfNone()
    ensures IdsOf([]) == {}
  {
  }

  lemma {:induction false} RemainingCount(before: seq<Mismatch>, ids: set<CaseId>, failing: set<CaseId>)
    requires MismatchesHold(before, ids)
    ensures |Remaining(before, failing)| == |IdsOf(before) - failing|
  {
    hide IdsOf, IsMismatch;
    if before == [] {
      IdsOfNone();
      assert IdsOf(before) - failing == {};
    } else {
      var n := |before| - 1;
      RemainingCount(before[..n], ids, failing);
      IdsGrow(before);
      MinusGrows(IdsOf(before[..n]), before[n].Id(), failing);
    }
  }

  lemma {:induction false} AllPassing(file: string, ms: seq<Mismatch>)
    ensures CountPassing(Passing(file, ms)) == |ms|
  {
    if ms != [] {
      var n := |ms| - 1;
      AllPassing(file, ms[..n]);
      CountsAdd(Passing(file, ms[..n]), [NowPassing(file, ms[n].group, ms[n].test)]);
    }
  }

  /** In each file, the gain in passing cases is what newly passes less what newly fails. */
  lemma FileConservation(now: FileResult, before: FileResult, ids: set<CaseId>, file: string)
    requires Consistent(now, ids) && Consistent(before, ids)
    ensures now.pass - before.pass
         == CountPassing(FileImprovements(file, now.mismatches, before.mismatches))
          - CountNew(Regressions(file, now.mismatches, before.mismatches))
    ensures CountPassing(Regressions(file, now.mismatches, before.mismatches)) == 0
  {
    hide Regressions, Improvements, Passing, Remaining, MismatchesHold;
    var a, b := IdsOf(now.mismatches), IdsOf(before.mismatches);
    var left := Remaining(before.mismatches, a);
    NewOnes(file, now.mismatches, before.mismatches, ids);
    RemainingCount(before.mismatches, ids, a);
    AllPassing(file, left);
    CountsAdd(Improvements(file, now.mismatches, before.mismatches), Passing(file, left));
    IdsCount(now.mismatches, ids);
    IdsCount(before.mismatches, ids);
    assert |a - b| + |a * b| == |a| && |b - a| + |a * b| == |b| by { assert a * b == b * a; }
  }

  // ---- The whole suite ----

  function TotalPass(m: Measurement): nat {
    if m == [] then 0 else TotalPass(m[..|m| - 1]) + if m[|m| - 1].Some? then m[|m| - 1].value.pass else 0
  }

  function TotalCases(m: Measurement): nat {
    if m == [] then 0 else TotalCases(m[..|m| - 1]) + if m[|m| - 1].Some? then m[|m| - 1].value.cases else 0
  }

  function SumPass(order: seq<string>, table: map<string, FileResult>): nat
    requires Listed(order, table)
  {
    if order == [] then 0 else SumPass(order[..|order| - 1], table) + table[order[|order| - 1]].pass
  }

  function SumCases(order: seq<string>, caseIds: Inventory): nat
    requires forall f :: f in order ==> f in caseIds
  {
    if order == [] then 0 else SumCases(order[..|order| - 1], caseIds) + |caseIds[order[|order| - 1]]|
  }

  lemma {:induction false} SumPassKept(order: seq<string>, a: map<string, FileResult>, b: map<string, FileResult>)
    requires Listed(order, a) && Listed(order, b) && forall f :: f in order ==> a[f] == b[f]
    ensures SumPass(order, a) == SumPass(order, b)
  {
    if order != [] {
      SumPassKept(order[..|order| - 1], a, b);
    }
  }

  lemma SumsOfMore(order: seq<string>, f: string, table: map<string, FileResult>, caseIds: Inventory)
    requires Listed(order, table) && f in table && (forall g :: g in order ==> g in caseIds) && f in caseIds
    ensures Listed(order + [f], table) && forall g :: g in order + [f] ==> g in caseIds
    ensures SumPass(order + [f], table) == SumPass(order, table) + table[f].pass
    ensures SumCases(order + [f], caseIds) == SumCases(order, caseIds) + |caseIds[f]|
  {
    assert (order + [f])[..|order|] == order;
  }

  lemma {:induction false} TotalsAreSums(m: Measurement, caseIds: Inventory)
    requires EntriesHold(m, caseIds)
    ensures Listed(Names(m), Table(m)) && (forall f :: f in Names(m) ==> f in caseIds)
    ensures TotalPass(m) == SumPass(Names(m), Table(m)) && TotalCases(m) == SumCases(Names(m), caseIds)
  {
    hide MismatchesHold, Crashes, SumPass, SumCases;
    TableFacts(m, caseIds);
    if m == [] {
      SumsOfNone(map[], caseIds);
    } else {
      var n := |m| - 1;
      TotalsAreSums(m[..n], caseIds);
      TableFacts(m[..n], caseIds);
      SumPassKept(Names(m[..n]), Table(m[..n]), Table(m));
      SumsOfMore(Names(m[..n]), m[n].value.file, Table(m), caseIds);
    }
  }

  lemma SumsOfNone(table: map<string, FileResult>, caseIds: Inventory)
    ensures SumPass([], table) == 0 && SumCases([], caseIds) == 0
  {
  }

  /** Taking one name out of the middle takes out its share of the sums. */
  lemma {:induction false} TakeOut(order: seq<string>, k: nat, table: map<string, FileResult>, caseIds: Inventory)
    requires k < |order| && Listed(order, table) && forall f :: f in order ==> f in caseIds
    ensures Listed(order[..k] + order[k + 1..], table) && forall f :: f in order[..k] + order[k + 1..] ==> f in caseIds
    ensures SumPass(order, table) == SumPass(order[..k] + order[k + 1..], table) + table[order[k]].pass
    ensures SumCases(order, caseIds) == SumCases(order[..k] + order[k + 1..], caseIds) + |caseIds[order[k]]|
  {
    hide SumPass, SumCases;
    var n := |order| - 1;
    assert order == order[..n] + [order[n]] && order[n] in order;
    assert Listed(order[..n], table) && forall f :: f in order[..n] ==> f in caseIds;
    SumsOfMore(order[..n], order[n], table, caseIds);
    if k == n {
      assert order[..k] + order[k + 1..] == order[..n];
    } else {
      TakeOut(order[..n], k, table, caseIds);
      var shorter := order[..n][..k] + order[..n][k + 1..];
      assert order[..k] + order[k + 1..] == shorter + [order[n]];
      SumsOfMore(shorter, order[n], table, caseIds);
    }
  }

  /** The sums do not depend on the order of the files. */
  lemma {:induction false} SumsAnyOrder(a: seq<string>, b: seq<string>, table: map<string, FileResult>,
    caseIds: Inventory)
    requires Listed(a, table) && (forall f :: f in a ==> f in caseIds) && Distinct(a) && Distinct(b)
    requires forall f :: f in a <==> f in b
    ensures Listed(b, table) && SumPass(a, table) == SumPass(b, table) && SumCases(a, caseIds) == SumCases(b, caseIds)
  {
    hide Listed;
    assert Listed(b, table) by { ListedLike(a, b, table); }
    if a == [] {
      if b != [] {
        HoldsSome(b);
      }
    } else {
      var n := |a| - 1;
      assert a[n] in a;
      var k :| 0 <= k < |b| && b[k] == a[n];
      var rest := b[..k] + b[k + 1..];
      TakeOut(b, k, table, caseIds);
      RestOfOrder(a, b, k);
      ListedLike(a, a[..n], table);
      SumsAnyOrder(a[..n], rest, table, caseIds);
    }
  }

  lemma HoldsSome(names: seq<string>)
    requires names != []
    ensures exists f :: f in names
  {
    assert names[0] in names;
  }

  lemma ListedLike(a: seq<string>, b: seq<string>, table: map<string, FileResult>)
    requires Listed(a, table) && forall f :: f in b ==> f in a
    ensures Listed(b, table)
  {
  }

  lemma RestOfOrder(a: seq<string>, b: seq<string>, k: nat)
    requires a != [] && Distinct(a) && Distinct(b) && k < |b| && b[k] == a[|a| - 1]
    requires forall f :: f in a <==> f in b
    ensures var rest := b[..k] + b[k + 1..]; Distinct(rest) && forall f :: f in a[..|a| - 1] <==> f in rest
  {
    var n := |a| - 1;
    var rest := b[..k] + b[k + 1..];
    forall f ensures f in a[..n] <==> f in rest {
      assert f in a <==> f in a[..n] || f == a[n] by { assert a == a[..n] + [a[n]]; }
      assert f in b <==> f in rest || f == b[k] by { assert b == b[..k] + [b[k]] + b[k + 1..]; }
      assert a[n] !in a[..n];
      assert b[k] !in rest;
    }
  }

  lemma {:induction false} ComparedSums(
    order: seq<string>, before: map<string, FileResult>, after: map<string, FileResult>, caseIds: Inventory)
    requires Listed(order, before) && Listed(order, after) && forall f :: f in order ==> f in caseIds
    requires forall f :: f in order ==> Consistent(before[f], caseIds[f]) && Consistent(after[f], caseIds[f])
    ensures var c := Compared(order, before, after);
      && c.baselinePass == SumPass(order, before) && c.baselineCases == SumCases(order, caseIds)
      && SumPass(order, after) - c.baselinePass == CountPassing(c.improvements) - CountNew(c.regressions)
  {
    hide Regressions, FileImprovements, MismatchesHold;
    if order != [] {
      var f := order[|order| - 1];
      var rest := order[..|order| - 1];
      ComparedSums(rest, before, after, caseIds);
      var c := Compared(rest, before, after);
      FileConservation(after[f], before[f], caseIds[f], f);
      CountsAdd(c.regressions, Regressions(f, after[f].mismatches, before[f].mismatches));
      CountsAdd(c.improvements, FileImprovements(f, after[f].mismatches, before[f].mismatches));
    }
  }

  /**
   * Over the whole suite, the gain in passing cases is exactly what newly passes less
   * what newly fails, and the totals reported for the baseline are its totals, whatever
   * the order of the files in either measurement.
   */
  lemma SuiteConservation(current: Measurement, baseline: Measurement, caseIds: Inventory)
    requires Accepted(current, caseIds) && Accepted(baseline, caseIds)
    ensures Listed(Names(baseline), Table(baseline)) && Listed(Names(baseline), Table(current))
    ensures var c := Compared(Names(baseline), Table(baseline), Table(current));
      && c.baselinePass == TotalPass(baseline)
      && c.baselineCases == TotalCases(baseline) == TotalCases(current)
      && TotalPass(current) - TotalPass(baseline) == CountPassing(c.improvements) - CountNew(c.regressions)
  {
    hide Consistent, Compared, SumPass, SumCases, Names, Table, TotalPass, TotalCases;
    ListedInBoth(current, baseline, caseIds);
    AcceptedFacts(current, caseIds);
    AcceptedFacts(baseline, caseIds);
    TotalsAreSums(current, caseIds);
    TotalsAreSums(baseline, caseIds);
    SumsAnyOrder(Names(current), Names(baseline), Table(current), caseIds);
    ComparedSums(Names(baseline), Table(baseline), Table(current), caseIds);
  }

  // ---- The gate ----

  /** The case failed before, and now fails no worse: in the same way, or with a verdict where it crashed. */
  ghost predicate NoWorse(m: Mismatch, before: seq<Mismatch>) {
    exists w :: w in before && w.Id() == m.Id() && (Outcome(w) == Outcome(m) || m.actual.Answered?)
  }

  ghost predicate AllNoWorse(now: seq<Mismatch>, before: seq<Mismatch>) {
    forall m :: m in now ==> NoWorse(m, before)
  }

  ghost predicate FileNoWorse(f: string, now: map<string, FileResult>, before: map<string, FileResult>) {
    f in now && f in before && AllNoWorse(now[f].mismatches, before[f].mismatches)
  }

  lemma {:induction false} FindsTheOnly(ms: seq<Mismatch>, ids: set<CaseId>, w: Mismatch)
    requires MismatchesHold(ms, ids) && w in ms
    ensures Find(ms, w.Id()) == Some(w)
  {
    var n := |ms| - 1;
    assert ms == ms[..n] + [ms[n]];
    if w != ms[n] {
      assert w in ms[..n] && w.Id() in IdsOf(ms[..n]);
      FindsTheOnly(ms[..n], ids, w);
    }
  }

  lemma RegressesUnlessNoWorse(file: string, m: Mismatch, before: seq<Mismatch>, ids: set<CaseId>)
    requires MismatchesHold(before, ids)
    ensures Regressing(file, m, Find(before, m.Id())) == [] <==> NoWorse(m, before)
  {
    hide Find, MismatchesHold, Outcome;
    FindKnown(before, m.Id());
    forall w | w in before && w.Id() == m.Id() ensures Find(before, m.Id()) == Some(w) {
      FindsTheOnly(before, ids, w);
    }
  }

  lemma {:induction false} FileGate(file: string, now: seq<Mismatch>, before: seq<Mismatch>, ids: set<CaseId>)
    requires MismatchesHold(before, ids)
    ensures Regressions(file, now, before) == [] <==> AllNoWorse(now, before)
  {
    hide NoWorse, MismatchesHold, Find, Regressing;
    if now != [] {
      var n := |now| - 1;
      FileGate(file, now[..n], before, ids);
      RegressesUnlessNoWorse(file, now[n], before, ids);
      assert now == now[..n] + [now[n]];
    }
  }

  lemma {:induction false} ComparedGate(
    order: seq<string>, before: map<string, FileResult>, after: map<string, FileResult>, caseIds: Inventory)
    requires Listed(order, before) && Listed(order, after) && forall f :: f in order ==> f in caseIds
    requires forall f :: f in order ==> Consistent(before[f], caseIds[f])
    ensures Compared(order, before, after).regressions == []
      <==> forall f :: f in order ==> AllNoWorse(after[f].mismatches, before[f].mismatches)
  {
    hide Regressions, FileImprovements, MismatchesHold, AllNoWorse;
    if order != [] {
      var f := order[|order| - 1];
      var rest := order[..|order| - 1];
      assert order == rest + [f];
      ComparedGate(rest, before, after, caseIds);
      FileGate(f, after[f].mismatches, before[f].mismatches, caseIds[f]);
    }
  }

  /**
   * A run is reported free of regressions if and only if each case it fails failed in the
   * baseline too, and no worse. The other direction is what makes the gate safe: then the
   * failing cases are among the known ones, and none of them became a crash or changed
   * the phase it crashes in.
   */
  lemma GateIsExact(current: Measurement, baseline: Measurement, caseIds: Inventory)
    requires Accepted(current, caseIds) && Accepted(baseline, caseIds)
    ensures Listed(Names(baseline), Table(baseline)) && Listed(Names(baseline), Table(current))
    ensures Compared(Names(baseline), Table(baseline), Table(current)).regressions == []
      <==> forall f :: f in caseIds ==> FileNoWorse(f, Table(current), Table(baseline))
  {
    hide Consistent, Compared, Names, Table, AllNoWorse;
    ListedInBoth(current, baseline, caseIds);
    AcceptedFacts(baseline, caseIds);
    ComparedGate(Names(baseline), Table(baseline), Table(current), caseIds);
  }

  /** Without regressions, the run fails no case the baseline passed. */
  lemma NoNewFailures(current: Measurement, baseline: Measurement, caseIds: Inventory, f: string)
    requires Accepted(current, caseIds) && Accepted(baseline, caseIds) && f in caseIds
    requires Listed(Names(baseline), Table(baseline)) && Listed(Names(baseline), Table(current))
    requires Compared(Names(baseline), Table(baseline), Table(current)).regressions == []
    ensures f in Table(current) && f in Table(baseline)
    ensures IdsOf(Table(current)[f].mismatches) <= IdsOf(Table(baseline)[f].mismatches)
  {
    hide Accepted, Compared, Names, Table;
    GateIsExact(current, baseline, caseIds);
    assert FileNoWorse(f, Table(current), Table(baseline));
    var now, before := Table(current)[f].mismatches, Table(baseline)[f].mismatches;
    forall id | id in IdsOf(now) ensures id in IdsOf(before) {
      var m :| m in now && m.Id() == id;
      assert NoWorse(m, before);
    }
  }
}

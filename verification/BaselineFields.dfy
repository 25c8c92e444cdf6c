/**
 * What the suite comparison accepts and notes, said case by case from the fields of the
 * measurements.
 */
module BaselineFields {
  import opened Options
  import opened Baseline
  import opened BaselineResults

  predicate BeginsWith(reason: Option<string>, text: string) {
    reason.Some? && |text| <= |reason.value| && reason.value[..|text|] == text
  }

  /** A wrong verdict, or a crash whose reason names the phase it happened in. */
  predicate IsFailure(m: Mismatch) {
    match m.actual
    case Answered(verdict) => verdict != m.expected
    case Crashed => BeginsWith(m.reason, "compile: ") || BeginsWith(m.reason, "runtime: ")
  }

  lemma FailureExactly(m: Mismatch)
    ensures IsMismatch(m) <==> IsFailure(m)
  {
  }

  /** How a failing case fails: a wrong verdict, or a crash in the phase its reason names. */
  lemma OutcomeExactly(m: Mismatch)
    requires IsFailure(m)
    ensures Outcome(m) == WrongVerdict <==> m.actual.Answered?
    ensures Outcome(m) == CompileCrash <==> m.actual.Crashed? && BeginsWith(m.reason, "compile: ")
    ensures Outcome(m) == RuntimeCrash <==> m.actual.Crashed? && BeginsWith(m.reason, "runtime: ")
  {
    assert "compile: "[0] == 'c' && "runtime: "[0] == 'r';
  }

  /** The two mismatches are of one case. */
  predicate SameCase(a: Mismatch, b: Mismatch) {
    a.group == b.group && a.test == b.test && a.data == b.data && a.expected == b.expected
  }

  predicate CaseOf(m: Mismatch, ids: set<CaseId>) {
    CaseId(m.group, m.test, m.data, m.expected) in ids
  }

  /** Mismatches hold when each is a failure of a case of the run and no two are of one case. */
  lemma {:induction false} HoldsExactly(ms: seq<Mismatch>, ids: set<CaseId>)
    ensures MismatchesHold(ms, ids) <==>
      && (forall m :: m in ms ==> IsFailure(m) && CaseOf(m, ids))
      && (forall i, j :: 0 <= i < j < |ms| ==> !SameCase(ms[i], ms[j]))
  {
    if ms != [] {
      var n := |ms| - 1;
      var front, last := ms[..n], ms[n];
      HoldsExactly(front, ids);
      FailureExactly(last);
      assert ms == front + [last];
      assert last.Id() in IdsOf(front) <==> exists i :: 0 <= i < n && SameCase(ms[i], last) by {
        if i :| 0 <= i < n && SameCase(ms[i], last) {
          assert front[i] in front && front[i].Id() == last.Id();
        }
      }
    }
  }

  ghost function CrashPlaces(ms: seq<Mismatch>): set<nat> {
    set i: nat | i < |ms| && ms[i].actual.Crashed?
  }

  lemma {:induction false} CrashesExactly(ms: seq<Mismatch>)
    ensures Crashes(ms) == |CrashPlaces(ms)|
  {
    if ms == [] {
      assert CrashPlaces(ms) == {};
    } else {
      var n := |ms| - 1;
      CrashesExactly(ms[..n]);
      assert CrashPlaces(ms) == CrashPlaces(ms[..n]) + if ms[n].actual.Crashed? then {n} else {};
    }
  }

  /** The counts of a result agree with the cases of its file and with its mismatches. */
  ghost predicate CountsAgree(r: FileResult, ids: set<CaseId>) {
    && r.cases == |ids| && r.pass + |r.mismatches| == r.cases && r.fail + r.error == |r.mismatches|
    && r.error == |CrashPlaces(r.mismatches)|
  }

  lemma ConsistentExactly(r: FileResult, ids: set<CaseId>)
    ensures Consistent(r, ids) <==> CountsAgree(r, ids) && MismatchesHold(r.mismatches, ids)
  {
    CrashesExactly(r.mismatches);
  }

  lemma {:induction false} EntriesExactly(m: Measurement, caseIds: Inventory)
    ensures EntriesHold(m, caseIds) <==>
      && (forall i :: 0 <= i < |m| ==>
            m[i].Some? && m[i].value.file in caseIds && Consistent(m[i].value, caseIds[m[i].value.file]))
      && (forall i, j :: 0 <= i < j < |m| && m[i].Some? && m[j].Some? ==> m[i].value.file != m[j].value.file)
  {
    hide Consistent;
    if m != [] {
      var n := |m| - 1;
      EntriesExactly(m[..n], caseIds);
      if m[n].Some? {
        TableExactly(m[..n], m[n].value.file);
      }
    }
  }

  lemma {:induction false} TableExactly(m: Measurement, file: string)
    ensures file in Table(m) <==> exists i :: 0 <= i < |m| && m[i].Some? && m[i].value.file == file
  {
    if m != [] {
      TableExactly(m[..|m| - 1], file);
    }
  }

  /** A measurement is accepted when it has one consistent entry for each file of the run, and no other. */
  lemma AcceptedExactly(m: Measurement, caseIds: Inventory)
    ensures Accepted(m, caseIds) <==>
      && m != [] && EntriesHold(m, caseIds)
      && forall f :: f in caseIds ==> exists i :: 0 <= i < |m| && m[i].Some? && m[i].value.file == f
  {
    hide Consistent, EntriesHold;
    if EntriesHold(m, caseIds) {
      TableFacts(m, caseIds);
      forall f ensures f in Table(m) <==> exists i :: 0 <= i < |m| && m[i].Some? && m[i].value.file == f {
        TableExactly(m, f);
      }
      if Table(m).Keys == caseIds.Keys {
        assert |Table(m).Keys| == |caseIds.Keys|;
      }
      assert Table(m).Keys <= caseIds.Keys;
      if m != [] && |m| == |caseIds| {
        AcceptedFacts(m, caseIds);
      }
    }
  }

  // ---- What is noted ----

  /** A crash where there was another failure, or a failure where there was none. */
  ghost predicate IsRegression(file: string, now: seq<Mismatch>, before: seq<Mismatch>, note: Note) {
    exists m :: m in now &&
      match note
      case NewFailure(_, _, _, _) =>
        note == NewFailure(file, m.group, m.test, Outcome(m)) && forall w :: w in before ==> !SameCase(w, m)
      case Changed(_, _, _, _, _) => m.actual.Crashed? && IsChange(file, m, before, note)
      case NowPassing(_, _, _) => false
  }

  /** The case failed otherwise in the baseline. */
  ghost predicate IsChange(file: string, m: Mismatch, before: seq<Mismatch>, note: Note) {
    exists w :: w in before && SameCase(w, m) && Outcome(w) != Outcome(m)
      && note == Changed(file, m.group, m.test, Outcome(w), Outcome(m))
  }

  ghost predicate IsGone(now: seq<Mismatch>, w: Mismatch) {
    forall m :: m in now ==> !SameCase(w, m)
  }

  /** A verdict where there was a crash, or no failure where there was one. */
  ghost predicate IsImprovement(file: string, now: seq<Mismatch>, before: seq<Mismatch>, note: Note) {
    || (exists m :: m in now && m.actual.Answered? && IsChange(file, m, before, note))
    || (exists w :: w in before && note == NowPassing(file, w.group, w.test) && IsGone(now, w))
  }

  lemma KnownExactly(m: Mismatch, before: seq<Mismatch>, ids: set<CaseId>)
    requires MismatchesHold(before, ids)
    ensures Find(before, m.Id()).None? <==> forall w :: w in before ==> !SameCase(w, m)
    ensures forall w :: w in before && SameCase(w, m) ==> Find(before, m.Id()) == Some(w)
  {
    hide MismatchesHold, Find;
    FindKnown(before, m.Id());
    forall w | w in before && SameCase(w, m) ensures Find(before, m.Id()) == Some(w) {
      FindsTheOnly(before, ids, w);
    }
  }

  lemma ChangeExactly(file: string, m: Mismatch, before: seq<Mismatch>, ids: set<CaseId>, note: Note)
    requires MismatchesHold(before, ids)
    ensures note in Regressing(file, m, Find(before, m.Id())) <==> IsRegression(file, [m], before, note)
    ensures note in Improving(file, m, Find(before, m.Id())) <==> m.actual.Answered? && IsChange(file, m, before, note)
  {
    hide MismatchesHold, Find, Outcome, SameCase;
    KnownExactly(m, before, ids);
    assert [m][0] == m;
  }

  /** The regressions noted for a file, exactly. */
  lemma {:induction false} RegressionsExactly(
    file: string, now: seq<Mismatch>, before: seq<Mismatch>, ids: set<CaseId>, note: Note)
    requires MismatchesHold(before, ids)
    ensures note in Regressions(file, now, before) <==> IsRegression(file, now, before, note)
  {
    hide MismatchesHold, Find, Outcome, Regressing, IsChange, SameCase;
    if now != [] {
      var n := |now| - 1;
      RegressionsExactly(file, now[..n], before, ids, note);
      ChangeExactly(file, now[n], before, ids, note);
      assert now == now[..n] + [now[n]];
    }
  }

  lemma {:induction false} ChangesExactly(
    file: string, now: seq<Mismatch>, before: seq<Mismatch>, ids: set<CaseId>, note: Note)
    requires MismatchesHold(before, ids)
    ensures note in Improvements(file, now, before)
      <==> exists m :: m in now && m.actual.Answered? && IsChange(file, m, before, note)
  {
    hide MismatchesHold, Find, Outcome, Improving, IsChange;
    if now != [] {
      var n := |now| - 1;
      ChangesExactly(file, now[..n], before, ids, note);
      ChangeExactly(file, now[n], before, ids, note);
      assert now == now[..n] + [now[n]];
    }
  }

  lemma {:induction false} PassingExactly(file: string, ms: seq<Mismatch>, note: Note)
    ensures note in Passing(file, ms) <==> exists w :: w in ms && note == NowPassing(file, w.group, w.test)
  {
    if ms != [] {
      var n := |ms| - 1;
      PassingExactly(file, ms[..n], note);
      assert ms == ms[..n] + [ms[n]];
    }
  }

  lemma {:induction false} RemainingExactly(before: seq<Mismatch>, now: seq<Mismatch>, w: Mismatch)
    ensures w in Remaining(before, IdsOf(now)) <==> w in before && forall m :: m in now ==> !SameCase(w, m)
  {
    if before != [] {
      var n := |before| - 1;
      RemainingExactly(before[..n], now, w);
      assert before == before[..n] + [before[n]];
      assert before[n].Id() in IdsOf(now) <==> exists m :: m in now && SameCase(before[n], m) by {
        if m :| m in now && SameCase(before[n], m) {
          assert m.Id() == before[n].Id();
        }
      }
    }
  }

  /** The improvements noted for a file, exactly. */
  lemma ImprovementsExactly(
    file: string, now: seq<Mismatch>, before: seq<Mismatch>, ids: set<CaseId>, note: Note)
    requires MismatchesHold(before, ids)
    ensures note in FileImprovements(file, now, before) <==> IsImprovement(file, now, before, note)
  {
    hide MismatchesHold, Improvements, IsChange, Remaining, SameCase;
    ChangesExactly(file, now, before, ids, note);
    PassingExactly(file, Remaining(before, IdsOf(now)), note);
    forall w ensures w in Remaining(before, IdsOf(now)) <==> w in before && forall m :: m in now ==> !SameCase(w, m) {
      RemainingExactly(before, now, w);
    }
  }
}

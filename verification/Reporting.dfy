/**
 * From produced findings to an exit code: narrowing, regrading, exclusion and the gate.
 */
module Reporting {
  import opened Options
  import opened Text
  import opened Codes
  import opened Findings
  import opened FindingKeys
  import opened Selection
  import opened Resolve
  import opened SelectionResults

  // ---- Exclusion ----

  /** A code key names its code, a family key what stands before the first slash, a class key the class. */
  predicate Matches(key: Key, f: Finding) {
    match key.kind
    case CodeKey => f.code == key.value
    case FamilyKey => '/' in f.code && f.code[..IndexOf(f.code, '/')] == key.value
    case ClassKey => f.cls == key.value
  }

  predicate MatchesAny(keys: seq<Key>, f: Finding) {
    exists k :: k in keys && Matches(k, f)
  }

  /** The findings no key selects, in order. */
  function Kept(findings: seq<Finding>, keys: seq<Key>): seq<Finding> {
    if findings == [] then []
    else KeptOne(findings[0], keys) + Kept(findings[1..], keys)
  }

  function KeptOne(f: Finding, keys: seq<Key>): seq<Finding> {
    if MatchesAny(keys, f) then [] else [f]
  }

  /** How many findings one key selects. */
  function CountOf(findings: seq<Finding>, key: Key): nat {
    if findings == [] then 0 else (if Matches(key, findings[0]) then 1 else 0) + CountOf(findings[1..], key)
  }

  lemma {:induction false} KeptSnoc(findings: seq<Finding>, f: Finding, keys: seq<Key>)
    ensures Kept(findings + [f], keys) == Kept(findings, keys) + KeptOne(f, keys)
  {
    hide MatchesAny;
    if findings == [] {
      assert findings + [f] == [f] && [f][1..] == [];
    } else {
      assert (findings + [f])[1..] == findings[1..] + [f] && (findings + [f])[0] == findings[0];
      KeptSnoc(findings[1..], f, keys);
      ConcatAssoc(KeptOne(findings[0], keys), Kept(findings[1..], keys), KeptOne(f, keys));
    }
  }

  lemma {:induction false} CountSnoc(findings: seq<Finding>, f: Finding, key: Key)
    ensures CountOf(findings + [f], key) == CountOf(findings, key) + if Matches(key, f) then 1 else 0
  {
    hide Matches;
    if findings == [] {
      assert findings + [f] == [f] && [f][1..] == [];
    } else {
      assert (findings + [f])[1..] == findings[1..] + [f] && (findings + [f])[0] == findings[0];
      CountSnoc(findings[1..], f, key);
    }
  }

  lemma {:induction false} KeptMember(findings: seq<Finding>, keys: seq<Key>, f: Finding)
    ensures f in Kept(findings, keys) <==> f in findings && !MatchesAny(keys, f)
    ensures |Kept(findings, keys)| <= |findings|
  {
    hide MatchesAny;
    if findings != [] {
      KeptMember(findings[1..], keys, f);
      assert findings == [findings[0]] + findings[1..];
    }
  }

  /** Withhold the selected findings, with a tally for each key and one for all of them. */
  method ApplySkip(findings: seq<Finding>, keys: seq<Key>) returns (kept: seq<Finding>, counts: seq<nat>, dropped: nat)
    ensures kept == Kept(findings, keys)
    ensures |counts| == |keys| && forall i :: 0 <= i < |keys| ==> counts[i] == CountOf(findings, keys[i])
    ensures |kept| + dropped == |findings|
  {
    hide Kept, CountOf, Matches;
    if keys == [] {
      NothingDropped(findings);
      return findings, [], 0;
    }
    var tally := new nat[|keys|](_ => 0);
    kept, dropped := [], 0;
    NothingSeen(keys);
    for n := 0 to |findings|
      invariant fresh(tally)
      invariant kept == Kept(findings[..n], keys)
      invariant forall i :: 0 <= i < |keys| ==> tally[i] == CountOf(findings[..n], keys[i])
      invariant |kept| + dropped == n
    {
      var f := findings[n];
      assert findings[..n + 1] == findings[..n] + [f];
      KeptSnoc(findings[..n], f, keys);
      var drop := false;
      for i := 0 to |keys|
        invariant fresh(tally)
        invariant forall j :: 0 <= j < i ==> tally[j] == CountOf(findings[..n + 1], keys[j])
        invariant forall j :: i <= j < |keys| ==> tally[j] == CountOf(findings[..n], keys[j])
        invariant drop <==> exists j :: 0 <= j < i && Matches(keys[j], f)
      {
        CountSnoc(findings[..n], f, keys[i]);
        if Matches(keys[i], f) {
          tally[i] := tally[i] + 1;
          drop := true;
        }
      }
      assert drop <==> MatchesAny(keys, f);
      if drop {
        dropped := dropped + 1;
      } else {
        kept := kept + [f];
      }
    }
    assert findings[..|findings|] == findings;
    counts := tally[..];
  }

  lemma {:induction false} NothingDropped(findings: seq<Finding>)
    ensures Kept(findings, []) == findings
  {
    if findings != [] {
      NothingDropped(findings[1..]);
    }
  }

  lemma NothingSeen(keys: seq<Key>)
    ensures Kept([], keys) == [] && forall key :: CountOf([], key) == 0
  {
  }

  // ---- Live exclusions do the work of all of them ----

  /** A finding as the passes produce it: a code its class declares, or a malformed schema. */
  predicate Conforms(reg: Registry, f: Finding) {
    (f.cls in reg.classes || f.cls == "malformed") && f.code in CodesOf(reg, f.cls)
  }

  /** For such a finding a key selects it exactly when the key names its code. */
  lemma MatchesByCode(reg: Registry, key: Key, f: Finding)
    requires Valid(reg) && Parsed(reg, key) && Conforms(reg, f)
    ensures f.cls != "malformed" ==> f.code in Selectable(reg) && (Matches(key, f) <==> f.code in Expand(reg, key))
    ensures f.cls == "malformed" ==> f.code !in Selectable(reg) && !Matches(key, f)
  {
    if f.cls == "malformed" {
      NotSelectable(reg, f.code);
    } else {
      assert f.code in Selectable(reg);
      match key.kind
      case CodeKey =>
      case FamilyKey => FamilyIsPrefix(f.code, key.value);
      case ClassKey =>
        if f.cls != key.value {
          assert Apart(CodesOf(reg, f.cls), CodesOf(reg, key.value));
        }
    }
  }

  lemma NotSelectable(reg: Registry, code: string)
    requires Valid(reg) && code in CodesOf(reg, "malformed")
    ensures code !in Selectable(reg)
  {
    forall cls | cls in reg.classes ensures code !in CodesOf(reg, cls) {
      assert Apart(CodesOf(reg, cls), CodesOf(reg, "malformed"));
    }
  }

  /** The written exclusions, in order. */
  function WrittenExclusions(terms: seq<Term>, n: nat): seq<Key>
    requires n <= |terms|
  {
    if n == 0 then []
    else
      var last := if terms[n - 1].exclude then [terms[n - 1].key] else [];
      WrittenExclusions(terms, n - 1) + last
  }

  lemma {:induction false} ExclusionMembers(reg: Registry, terms: seq<Term>, n: nat, k: Key)
    requires n <= |terms|
    ensures k in WrittenExclusions(terms, n) <==> exists i :: 0 <= i < n && terms[i].exclude && terms[i].key == k
    ensures k in LiveExclusions(reg, terms, n)
      <==> exists i :: 0 <= i < n && terms[i].exclude && Verdict(reg, terms, i).None? && terms[i].key == k
  {
    hide Verdict;
    if n > 0 {
      ExclusionMembers(reg, terms, n - 1, k);
    }
  }

  lemma LiveExclusionKeys(reg: Registry, terms: seq<Term>)
    requires Valid(reg) && TermsParsed(reg, terms)
    ensures forall k :: k in WrittenExclusions(terms, |terms|) <==> k in KeysOf(terms, true)
    ensures forall k ::
      k in LiveExclusions(reg, terms, |terms|) <==> k in LiveKeys(reg, KeysOf(terms, true), BaseOfTerms(reg, terms))
  {
    hide Valid, Parsed, Verdict, LiveKeys, BaseOfTerms, WrittenExclusions, LiveExclusions, LiveTermsBelow;
    forall k ensures k in WrittenExclusions(terms, |terms|) <==> k in KeysOf(terms, true) {
      ExclusionMembers(reg, terms, |terms|, k);
      if k in KeysOf(terms, true) {
        var t :| t in terms && t.exclude && t.key == k;
        var i :| 0 <= i < |terms| && terms[i] == t;
      }
    }
    LiveTermKeys(reg, terms, true);
    forall k ensures k in LiveExclusions(reg, terms, |terms|) <==> k in KeysOf(LiveTerms(reg, terms), true) {
      ExclusionMembers(reg, terms, |terms|, k);
      if k in LiveExclusions(reg, terms, |terms|) {
        var i :| 0 <= i < |terms| && terms[i].exclude && Verdict(reg, terms, i).None? && terms[i].key == k;
        LiveTermsBelowMember(reg, terms, |terms|, terms[i]);
        assert terms[i] in LiveTerms(reg, terms);
      }
      if k in KeysOf(LiveTerms(reg, terms), true) {
        var t :| t in LiveTerms(reg, terms) && t.exclude && t.key == k;
        LiveTermsBelowMember(reg, terms, |terms|, t);
      }
    }
  }

  /** One finding is withheld by the live exclusions exactly when some written one selects it. */
  lemma WithheldAlike(reg: Registry, terms: seq<Term>, f: Finding)
    requires Valid(reg) && TermsParsed(reg, terms) && Conforms(reg, f)
    requires f.cls == "malformed" || f.code in BaseOfTerms(reg, terms)
    ensures MatchesAny(LiveExclusions(reg, terms, |terms|), f)
      <==> exists k :: k in KeysOf(terms, true) && Matches(k, f)
    ensures f.cls == "malformed" ==> !MatchesAny(LiveExclusions(reg, terms, |terms|), f)
  {
    hide Valid, Parsed, Verdict, BaseOfTerms, LiveExclusions, WrittenExclusions, Matches, Expand, Live, Conforms,
      Selectable;
    var keys, within := KeysOf(terms, true), BaseOfTerms(reg, terms);
    LiveExclusionKeys(reg, terms);
    AllKeysParsed(reg, terms, true);
    LiveKeysParsed(reg, keys, within);
    forall k | k in keys
      ensures f.cls != "malformed" ==> (Matches(k, f) <==> f.code in Expand(reg, k))
      ensures f.cls == "malformed" ==> !Matches(k, f)
    {
      MatchesByCode(reg, k, f);
    }
    if k :| k in keys && Matches(k, f) {
      var live := LiveKeysCover(reg, keys, within, k, f.code);
      LiveMember(reg, keys, within, live);
      assert live in LiveKeys(reg, keys, within);
    }
  }

  /** A report narrowed to the base: every finding conforms, and all but the malformed lie in the base. */
  predicate Narrowed(reg: Registry, base: set<string>, findings: seq<Finding>) {
    forall f :: f in findings ==> Conforms(reg, f) && (f.cls == "malformed" || f.code in base)
  }

  /** Passing only the live exclusions keeps exactly what every written exclusion together would. */
  lemma {:induction false} LiveExclusionsSuffice(reg: Registry, terms: seq<Term>, findings: seq<Finding>)
    requires Valid(reg) && TermsParsed(reg, terms) && Narrowed(reg, BaseOfTerms(reg, terms), findings)
    ensures Kept(findings, LiveExclusions(reg, terms, |terms|)) == Kept(findings, WrittenExclusions(terms, |terms|))
  {
    hide Valid, TermsParsed, BaseOfTerms, LiveExclusions, WrittenExclusions, Matches, Conforms, KeysOf;
    if findings != [] {
      assert findings[0] in findings;
      WithheldAlike(reg, terms, findings[0]);
      LiveExclusionKeys(reg, terms);
      LiveExclusionsSuffice(reg, terms, findings[1..]);
    }
  }

  // ---- Narrowing and regrading ----

  datatype SeverityMap = SeverityMap(
    byCode: map<string, Severity>, byFamily: map<string, Severity>, byClass: map<string, Severity>)

  /** The caller's grade of a finding: by code, else by family, else by class, else as it was. */
  function SeverityFor(m: SeverityMap, f: Finding): Severity {
    if f.code in m.byCode then m.byCode[f.code]
    else if '/' in f.code && f.code[..IndexOf(f.code, '/')] in m.byFamily
      then m.byFamily[f.code[..IndexOf(f.code, '/')]]
    else if f.cls in m.byClass then m.byClass[f.cls]
    else f.severity
  }

  predicate Reportable(reg: Registry, base: set<string>, f: Finding) {
    f.cls == "malformed" || f.code !in Selectable(reg) || f.code in base
  }

  function Regraded(m: SeverityMap, f: Finding): Finding {
    if f.cls == "malformed" then f else f.(severity := SeverityFor(m, f))
  }

  function Graded(reg: Registry, base: set<string>, m: SeverityMap, findings: seq<Finding>): seq<Finding> {
    if findings == [] then []
    else GradedOne(reg, base, m, findings[0]) + Graded(reg, base, m, findings[1..])
  }

  function GradedOne(reg: Registry, base: set<string>, m: SeverityMap, f: Finding): seq<Finding> {
    if Reportable(reg, base, f) then [Regraded(m, f)] else []
  }

  function Narrow(reg: Registry, base: set<string>, findings: seq<Finding>): seq<Finding> {
    if findings == [] then []
    else (if Reportable(reg, base, findings[0]) then [findings[0]] else []) + Narrow(reg, base, findings[1..])
  }

  const EMPTY_SEVERITY_MAP := SeverityMap(map[], map[], map[])

  class Report {
    var findings: seq<Finding>

    constructor (findings: seq<Finding>)
      ensures this.findings == findings
    {
      this.findings := findings;
    }

    /**
     * Narrow the findings to the base and apply the caller's grading, in place. Comparing
     * sizes to see that nothing is left out, and skipping an empty map, change no outcome.
     */
    method Grade(reg: Registry, base: set<string>, m: SeverityMap)
      requires base <= Selectable(reg)
      modifies this
      ensures findings == Graded(reg, base, m, old(findings))
    {
      hide Selectable, Reportable, Regraded;
      if |base| != |Selectable(reg)| {
        findings := Narrow(reg, base, findings);
      } else {
        SameSizeIsAll(base, Selectable(reg));
        NarrowToAll(reg, findings);
      }
      NarrowThenRegrade(reg, base, m, old(findings));
      if m != EMPTY_SEVERITY_MAP {
        ghost var narrowed := findings;
        for i := 0 to |findings|
          invariant |findings| == |narrowed|
          invariant forall j :: 0 <= j < i ==> findings[j] == Regraded(m, narrowed[j])
          invariant forall j :: i <= j < |findings| ==> findings[j] == narrowed[j]
        {
          RegradedStays(m, findings[i]);
          if findings[i].cls == "malformed" {
            continue;
          }
          findings := findings[i := findings[i].(severity := SeverityFor(m, findings[i]))];
        }
        RegradedAll(m, narrowed, findings);
      } else {
        EmptyMapRegrades(findings);
      }
    }
  }

  lemma {:induction false} NarrowToAll(reg: Registry, findings: seq<Finding>)
    ensures Narrow(reg, Selectable(reg), findings) == findings
  {
    hide Selectable;
    if findings != [] {
      NarrowToAll(reg, findings[1..]);
    }
  }

  function RegradeAll(m: SeverityMap, findings: seq<Finding>): seq<Finding> {
    if findings == [] then [] else [Regraded(m, findings[0])] + RegradeAll(m, findings[1..])
  }

  lemma {:induction false} NarrowThenRegrade(reg: Registry, base: set<string>, m: SeverityMap, findings: seq<Finding>)
    ensures Graded(reg, base, m, findings) == RegradeAll(m, Narrow(reg, base, findings))
  {
    hide Reportable, Regraded;
    if findings != [] {
      NarrowThenRegrade(reg, base, m, findings[1..]);
      if Reportable(reg, base, findings[0]) {
        assert Narrow(reg, base, findings)[1..] == Narrow(reg, base, findings[1..]);
      } else {
        assert Narrow(reg, base, findings) == Narrow(reg, base, findings[1..]);
      }
    }
  }

  lemma RegradedStays(m: SeverityMap, f: Finding)
    ensures Regraded(m, f) == if f.cls == "malformed" then f else f.(severity := SeverityFor(m, f))
  {
  }

  lemma {:induction false} RegradedAll(m: SeverityMap, narrowed: seq<Finding>, findings: seq<Finding>)
    requires |findings| == |narrowed| && forall j :: 0 <= j < |findings| ==> findings[j] == Regraded(m, narrowed[j])
    ensures findings == RegradeAll(m, narrowed)
  {
    hide Regraded;
    if findings != [] {
      RegradedAll(m, narrowed[1..], findings[1..]);
      assert findings == [findings[0]] + findings[1..];
    }
  }

  lemma {:induction false} EmptyMapRegrades(findings: seq<Finding>)
    ensures RegradeAll(EMPTY_SEVERITY_MAP, findings) == findings
  {
    if findings != [] {
      EmptyMapRegrades(findings[1..]);
    }
  }

  lemma {:induction false} GradedMember(reg: Registry, base: set<string>, m: SeverityMap, findings: seq<Finding>,
    f: Finding)
    ensures f in Graded(reg, base, m, findings)
      <==> exists g :: g in findings && Reportable(reg, base, g) && Regraded(m, g) == f
  {
    hide Reportable, Regraded;
    if findings != [] {
      GradedMember(reg, base, m, findings[1..], f);
      assert findings == [findings[0]] + findings[1..];
      if g :| g in findings && Reportable(reg, base, g) && Regraded(m, g) == f {
        assert g == findings[0] || g in findings[1..];
      }
    }
  }

  /** What is graded conforms and lies in the base when what was produced conforms. */
  lemma GradedIsNarrowed(reg: Registry, base: set<string>, m: SeverityMap, findings: seq<Finding>)
    requires forall f :: f in findings ==> Conforms(reg, f)
    ensures Narrowed(reg, base, Graded(reg, base, m, findings))
  {
    hide Graded, Conforms;
    forall f | f in Graded(reg, base, m, findings)
      ensures Conforms(reg, f) && (f.cls == "malformed" || f.code in base) {
      GradedMember(reg, base, m, findings, f);
      var g :| g in findings && Reportable(reg, base, g) && Regraded(m, g) == f;
      ConformsSelectable(reg, g, f);
    }
  }

  lemma ConformsSelectable(reg: Registry, g: Finding, f: Finding)
    requires Conforms(reg, g) && f.cls == g.cls && f.code == g.code
    ensures Conforms(reg, f) && (f.cls != "malformed" ==> f.code in Selectable(reg))
  {
  }

  // ---- The gate ----

  /** The exit code of a report; no threshold means no gate. */
  function ExitCode(findings: seq<Finding>, failOn: Option<Severity>): nat {
    if exists f :: f in findings && f.cls == "malformed" then 4
    else if failOn.Some? && exists f :: f in findings && Level(f.severity) >= Level(failOn.value) then 1
    else 0
  }

  /** The report a command ends with. */
  ghost function FinalReport(reg: Registry, terms: seq<Term>, m: SeverityMap, produced: seq<Finding>): seq<Finding> {
    Kept(Graded(reg, BaseOfTerms(reg, terms), m, produced), LiveExclusions(reg, terms, |terms|))
  }

  ghost predicate AllConform(reg: Registry, findings: seq<Finding>) {
    forall f :: f in findings ==> Conforms(reg, f)
  }

  /** Which findings the report ends with: those whose code is selected and that no written exclusion selects. */
  lemma ReportedFindings(reg: Registry, terms: seq<Term>, m: SeverityMap, produced: seq<Finding>, f: Finding)
    requires Valid(reg) && TermsParsed(reg, terms) && AllConform(reg, produced)
    ensures f in FinalReport(reg, terms, m, produced)
      <==> exists g :: g in produced && Reportable(reg, BaseOfTerms(reg, terms), g) && Regraded(m, g) == f
             && !SelectedByAny(KeysOf(terms, true), f)
  {
    hide Valid, TermsParsed, BaseOfTerms, LiveExclusions, Graded, Kept, Reportable, Regraded, Conforms, MatchesAny,
      KeysOf, Matches;
    var base := BaseOfTerms(reg, terms);
    GradedIsNarrowed(reg, base, m, produced);
    var graded := Graded(reg, base, m, produced);
    KeptMember(graded, LiveExclusions(reg, terms, |terms|), f);
    GradedMember(reg, base, m, produced, f);
    if f in graded {
      WithheldAlike(reg, terms, f);
    }
  }

  predicate SelectedByAny(keys: set<Key>, f: Finding) {
    exists k :: k in keys && Matches(k, f)
  }

  /** No inclusion, exclusion or regrading drops or changes a malformed finding. */
  lemma MalformedIsAlwaysReported(reg: Registry, terms: seq<Term>, m: SeverityMap, produced: seq<Finding>, f: Finding)
    requires Valid(reg) && TermsParsed(reg, terms) && AllConform(reg, produced)
    requires f.cls == "malformed"
    ensures f in FinalReport(reg, terms, m, produced) <==> f in produced
  {
    hide Valid, TermsParsed, BaseOfTerms, FinalReport, Conforms;
    ReportedFindings(reg, terms, m, produced, f);
    if f in produced {
      AllKeysParsed(reg, terms, true);
      MalformedUnselected(reg, terms, f);
      assert Reportable(reg, BaseOfTerms(reg, terms), f) && Regraded(m, f) == f;
    }
  }

  lemma MalformedUnselected(reg: Registry, terms: seq<Term>, f: Finding)
    requires Valid(reg) && TermsParsed(reg, terms) && Conforms(reg, f) && f.cls == "malformed"
    ensures !SelectedByAny(KeysOf(terms, true), f)
  {
    hide Valid, Parsed, Conforms, Matches;
    forall k | k in KeysOf(terms, true) ensures !Matches(k, f) {
      MatchesByCode(reg, k, f);
    }
  }

  /** Exit code 4 depends only on what was produced: exclusions and grading cannot clear it. */
  lemma MalformedExitStands(
    reg: Registry, terms: seq<Term>, m: SeverityMap, produced: seq<Finding>, failOn: Option<Severity>)
    requires Valid(reg) && TermsParsed(reg, terms) && AllConform(reg, produced)
    ensures ExitCode(FinalReport(reg, terms, m, produced), failOn) == 4
      <==> exists f :: f in produced && f.cls == "malformed"
  {
    hide Valid, TermsParsed, FinalReport, AllConform;
    forall f: Finding | f.cls == "malformed" ensures f in FinalReport(reg, terms, m, produced) <==> f in produced {
      MalformedIsAlwaysReported(reg, terms, m, produced, f);
    }
  }

  /** More exclusions over the same inclusions never raise the exit code. */
  lemma ExcludingNeverRaisesExit(
    reg: Registry, few: seq<Term>, more: seq<Term>, m: SeverityMap, produced: seq<Finding>, failOn: Option<Severity>)
    requires Valid(reg) && TermsParsed(reg, few) && TermsParsed(reg, more) && AllConform(reg, produced)
    requires KeysOf(few, false) == KeysOf(more, false) && KeysOf(few, true) <= KeysOf(more, true)
    ensures ExitCode(FinalReport(reg, more, m, produced), failOn)
      <= ExitCode(FinalReport(reg, few, m, produced), failOn)
  {
    hide Valid, TermsParsed, FinalReport, AllConform, KeysOf, Reportable, Regraded, Matches;
    MalformedExitStands(reg, few, m, produced, failOn);
    MalformedExitStands(reg, more, m, produced, failOn);
    forall f | f in FinalReport(reg, more, m, produced) ensures f in FinalReport(reg, few, m, produced) {
      ReportedFindings(reg, more, m, produced, f);
      ReportedFindings(reg, few, m, produced, f);
    }
  }

  /** A stricter threshold, or no gate at all, never raises the exit code. */
  lemma RaisingTheThresholdNeverRaisesExit(findings: seq<Finding>, low: Severity, high: Severity)
    requires Level(low) <= Level(high)
    ensures ExitCode(findings, Some(high)) <= ExitCode(findings, Some(low))
    ensures ExitCode(findings, None) <= ExitCode(findings, Some(high))
  {
  }

  lemma BaseIsSelectable(reg: Registry, terms: seq<Term>)
    requires Valid(reg) && TermsParsed(reg, terms)
    ensures BaseOfTerms(reg, terms) <= Selectable(reg)
  {
    hide Valid, Parsed, KeysOf, Selectable, Union;
    AllKeysParsed(reg, terms, false);
    UnionSelectable(reg, KeysOf(terms, false));
  }

  /** The selection is what the terms resolve to. */
  ghost predicate ResolvedFrom(reg: Registry, terms: seq<Term>, selection: Resolved) {
    && selection.base == BaseOfTerms(reg, terms)
    && selection.classes == ClassesOf(reg, selection.base)
    && selection.compileSchemas == CompilesFor(reg, selection.base)
    && selection.excludeKeys == LiveExclusions(reg, terms, |terms|)
  }

  /** Grade what the passes produced, and withhold what the exclusions select. */
  method GradeAndWithhold(
    reg: Registry, ghost terms: seq<Term>, selection: Resolved, m: SeverityMap, produced: seq<Finding>)
    returns (report: seq<Finding>)
    requires Valid(reg) && TermsParsed(reg, terms) && ResolvedFrom(reg, terms, selection)
    ensures report == FinalReport(reg, terms, m, produced)
  {
    hide Valid, TermsParsed, BaseOfTerms, Kept, Graded, LiveExclusions;
    BaseIsSelectable(reg, terms);
    var findings := new Report(produced);
    findings.Grade(reg, selection.base, m);
    var counts, dropped;
    report, counts, dropped := ApplySkip(findings.findings, selection.excludeKeys);
  }

  /** The tail of the command: grade, withhold, and gate. */
  method CheckTail(
    reg: Registry, ghost terms: seq<Term>, selection: Resolved, m: SeverityMap, produced: seq<Finding>,
    failOn: Option<Severity>)
    returns (report: seq<Finding>, exit: nat)
    requires Valid(reg) && TermsParsed(reg, terms) && ResolvedFrom(reg, terms, selection)
    ensures report == FinalReport(reg, terms, m, produced) && exit == ExitCode(report, failOn)
  {
    hide Valid, TermsParsed, FinalReport, ResolvedFrom;
    report := GradeAndWithhold(reg, terms, selection, m, produced);
    var malformed, hit := false, false;
    for i := 0 to |report|
      invariant malformed <==> exists j :: 0 <= j < i && report[j].cls == "malformed"
      invariant hit <==> failOn.Some? && exists j :: 0 <= j < i && Level(report[j].severity) >= Level(failOn.value)
    {
      malformed := malformed || report[i].cls == "malformed";
      hit := hit || (failOn.Some? && Level(report[i].severity) >= Level(failOn.value));
    }
    exit := if malformed then 4 else if hit then 1 else 0;
  }

  // ---- Selecting by class ----

  function ClassTerms(classes: seq<string>): seq<Term> {
    if classes == [] then [] else [Term(classes[0], false, Key(ClassKey, classes[0]))] + ClassTerms(classes[1..])
  }

  lemma {:induction false} ClassTermKeys(reg: Registry, classes: seq<string>)
    requires forall cls :: cls in classes ==> cls in reg.classes
    ensures TermsParsed(reg, ClassTerms(classes))
    ensures KeysOf(ClassTerms(classes), true) == {}
    ensures forall k :: k in KeysOf(ClassTerms(classes), false) <==> k.kind == ClassKey && k.value in classes
  {
    if classes != [] {
      ClassTermKeys(reg, classes[1..]);
      var t := Term(classes[0], false, Key(ClassKey, classes[0]));
      var terms := ClassTerms(classes);
      assert classes == [classes[0]] + classes[1..];
      forall k ensures k in KeysOf(terms, false) <==> k.kind == ClassKey && k.value in classes {
        if k.kind == ClassKey && k.value in classes {
          if k.value == classes[0] {
            assert t in terms && t.key == k;
          } else {
            assert k in KeysOf(ClassTerms(classes[1..]), false);
            var u :| u in ClassTerms(classes[1..]) && !u.exclude && u.key == k;
            assert u in terms;
          }
        }
        if k in KeysOf(terms, false) {
          var u :| u in terms && !u.exclude && u.key == k;
          assert u == t || u in ClassTerms(classes[1..]);
          if u in ClassTerms(classes[1..]) {
            assert k in KeysOf(ClassTerms(classes[1..]), false);
          }
        }
      }
    }
  }

  /** The base of a class list; naming no class selects nothing, where naming no term selects everything. */
  function BaseForClasses(reg: Registry, classes: seq<string>): set<string> {
    if classes == [] then {} else BaseOfTerms(reg, ClassTerms(classes))
  }

  predicate NamedByClasses(reg: Registry, classes: seq<string>, code: string) {
    exists cls :: cls in classes && code in CodesOf(reg, cls)
  }

  lemma BaseOfClasses(reg: Registry, classes: seq<string>, code: string)
    requires classes != [] && forall cls :: cls in classes ==> cls in reg.classes
    ensures code in BaseForClasses(reg, classes) <==> NamedByClasses(reg, classes, code)
  {
    hide Selectable, CodesOf, ClassTerms, KeysOf;
    ClassTermKeys(reg, classes);
    var keys := KeysOf(ClassTerms(classes), false);
    assert Key(ClassKey, classes[0]) in keys;
    if cls :| cls in classes && code in CodesOf(reg, cls) {
      var k := Key(ClassKey, cls);
      assert k in keys && code in Expand(reg, k);
    }
  }

  /** Selecting by class runs exactly the classes named. */
  lemma ClassesRunAsNamed(reg: Registry, classes: seq<string>, cls: string)
    requires Valid(reg) && forall c :: c in classes ==> c in reg.classes
    ensures cls in ClassesOf(reg, BaseForClasses(reg, classes)) <==> cls in classes
  {
    if classes != [] {
      OneClassRuns(reg, classes, cls);
    }
  }

  lemma OneClassRuns(reg: Registry, classes: seq<string>, cls: string)
    requires Valid(reg) && classes != [] && forall c :: c in classes ==> c in reg.classes
    ensures cls in ClassesOf(reg, BaseForClasses(reg, classes)) <==> cls in classes
  {
    hide Valid, BaseForClasses, CodesOf;
    if cls in classes {
      ClassHasCode(reg, cls);
      var code :| code in CodesOf(reg, cls);
      BaseOfClasses(reg, classes, code);
    }
    if cls in ClassesOf(reg, BaseForClasses(reg, classes)) {
      var code :| code in CodesOf(reg, cls) && code in BaseForClasses(reg, classes);
      BaseOfClasses(reg, classes, code);
      var other :| other in classes && code in CodesOf(reg, other);
      SharedCodeSharesClass(reg, cls, other, code);
    }
  }

  lemma SharedCodeSharesClass(reg: Registry, a: string, b: string, code: string)
    requires Valid(reg) && a in reg.classes && b in reg.classes && code in CodesOf(reg, a) && code in CodesOf(reg, b)
    ensures a == b
  {
    assert a != b ==> Apart(CodesOf(reg, a), CodesOf(reg, b));
  }

  lemma ClassHasCode(reg: Registry, cls: string)
    requires Valid(reg) && cls in reg.classes
    ensures exists code :: code in CodesOf(reg, cls)
  {
    assert CodesOf(reg, cls)[0] in CodesOf(reg, cls);
  }
}

/**
 * Findings, and the table that collapses repeats of one defect at one address.
 */
module Findings {
  import opened Options

  /** Severities, least serious first. */
  datatype Severity = Warning | Error | Fatal

  function Level(s: Severity): nat {
    match s case Warning => 0 case Error => 1 case Fatal => 2
  }

  // ---- Where a finding points ----

  datatype Hop = Hop(uri: string, pointer: string)

  datatype Source = Source(uri: string, pointer: string, via: seq<Hop>)

  datatype Anchor = NodeAnchor | DefinitionAnchor | ScopedDefinitionAnchor

  /** A node a finding is about; `source` is its file address, once attributed. */
  datatype FindingTarget = FindingTarget(pointer: string, anchor: Anchor, source: Option<Source>)

  datatype Reason = Reason(code: string, path: seq<string>)

  datatype ReasonSource = ReasonSource(index: nat, source: Source)

  datatype Finding = Finding(
    cls: string, severity: Severity, code: string, location: string, message: string,
    target: Option<FindingTarget>, contributors: seq<FindingTarget>, occurrences: Option<nat>,
    reasons: seq<Reason>, reasonSources: seq<ReasonSource>)
  {
    function Address(): Option<Source> {
      if target.Some? then target.value.source else None
    }
  }

  // ---- The table of schema findings ----

  function TableKey(f: Finding): string {
    var message := if f.cls == "malformed" && f.target.Some? then "" else f.message;
    f.code + "\0" + message + "\0" + match f.target case None => "" case Some(at) => at.pointer
  }

  predicate HoldsNul(s: string) {
    '\0' in s
  }

  lemma FirstNul(a: string, b: string, x: string, y: string)
    requires !HoldsNul(a) && !HoldsNul(b) && a + "\0" + x == b + "\0" + y
    ensures a == b && x == y
  {
    var s := a + "\0" + x;
    assert s[|a|] == '\0' && s[|b|] == '\0';
    assert forall i :: 0 <= i < |a| ==> s[i] == a[i];
    assert forall i :: 0 <= i < |b| ==> s[i] == b[i];
    assert a == s[..|a|] && b == s[..|b|];
    assert x == s[|a| + 1..] && y == s[|b| + 1..];
  }

  /** Findings of one row have one code, or one code extends the other by the separator. */
  lemma SameRowSameCode(f: Finding, g: Finding)
    requires TableKey(f) == TableKey(g) && !HoldsNul(g.code)
    ensures f.code == g.code || g.code + "\0" <= f.code
  {
    var key := TableKey(f);
    assert f.code + "\0" == key[..|f.code| + 1] && g.code + "\0" == key[..|g.code| + 1];
    assert key[|f.code|] == '\0';
    assert |f.code| > |g.code| ==> g.code + "\0" <= f.code;
    assert forall i :: 0 <= i < |g.code| ==> key[i] == g.code[i];
    assert |f.code| == |g.code| ==> f.code == key[..|f.code|] && g.code == key[..|g.code|];
  }

  function PointerText(f: Finding): string {
    match f.target case None => "" case Some(at) => at.pointer
  }

  /**
   * Two findings share a row exactly when they have one code and one pointer, and one
   * message unless both are malformed schemas with an address. Codes and messages must not
   * hold the separator; pointers may.
   */
  lemma SameRowExactly(f: Finding, g: Finding)
    requires !HoldsNul(f.code) && !HoldsNul(g.code) && !HoldsNul(f.message) && !HoldsNul(g.message)
    requires (f.cls == "malformed" && f.target.Some?) <==> (g.cls == "malformed" && g.target.Some?)
    ensures TableKey(f) == TableKey(g) <==>
      && f.code == g.code && PointerText(f) == PointerText(g)
      && (f.message == g.message || (f.cls == "malformed" && f.target.Some?))
  {
    var silent := f.cls == "malformed" && f.target.Some?;
    var m, n := if silent then "" else f.message, if silent then "" else g.message;
    var x, y := m + "\0" + PointerText(f), n + "\0" + PointerText(g);
    assert TableKey(f) == f.code + "\0" + x && TableKey(g) == g.code + "\0" + y;
    if TableKey(f) == TableKey(g) {
      FirstNul(f.code, g.code, x, y);
      FirstNul(m, n, PointerText(f), PointerText(g));
    }
  }

  /** The row a finding repeats, or the number of rows when it repeats none. */
  function RowOf(table: seq<Finding>, key: string): (i: nat)
    ensures i <= |table|
    ensures i < |table| ==> TableKey(table[i]) == key
    ensures forall j :: 0 <= j < i ==> TableKey(table[j]) != key
  {
    if table == [] || TableKey(table[0]) == key then 0 else 1 + RowOf(table[1..], key)
  }

  function Repeated(f: Finding): Finding {
    f.(occurrences := Some(f.occurrences.GetOr(1) + 1))
  }

  function Add(table: seq<Finding>, f: Finding): seq<Finding> {
    var i := RowOf(table, TableKey(f));
    if i == |table| then table + [f] else table[i := Repeated(table[i])]
  }

  function AddAll(table: seq<Finding>, findings: seq<Finding>): seq<Finding>
    decreases |findings|
  {
    if findings == [] then table else AddAll(Add(table, findings[0]), findings[1..])
  }

  /** The findings table as the checker holds it. */
  class FindingTable {
    var rows: seq<Finding>

    constructor ()
      ensures rows == []
    {
      rows := [];
    }

    /** Record a finding, or count it against the row it repeats. */
    method AddSchemaFinding(f: Finding)
      modifies this
      ensures rows == Add(old(rows), f)
    {
      var key := TableKey(f);
      for i := 0 to |rows|
        invariant rows == old(rows)
        invariant forall j :: 0 <= j < i ==> TableKey(rows[j]) != key
      {
        if TableKey(rows[i]) == key {
          assert RowOf(rows, key) == i;
          rows := rows[i := Repeated(rows[i])];
          return;
        }
      }
      rows := rows + [f];
    }

    method AddEach(findings: seq<Finding>)
      modifies this
      ensures rows == AddAll(old(rows), findings)
    {
      for i := 0 to |findings|
        invariant AddAll(rows, findings[i..]) == AddAll(old(rows), findings)
      {
        assert findings[i..][0] == findings[i] && findings[i..][1..] == findings[i + 1..];
        AddSchemaFinding(findings[i]);
      }
    }
  }
}

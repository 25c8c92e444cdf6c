/**
 * Placing findings in source text: the batch of positions to resolve, and the lookups made while rendering.
 */
module Spans {
  import opened Options
  import opened Findings

  datatype Want = Key | Value

  datatype Span = Span(start: nat, end: nat)

  /** A position asked for; `want` may be left out, which means the value. */
  datatype Request = Request(uri: string, pointer: string, want: Option<Want>)

  type SpanLookup = Request -> Option<Span>

  // ---- Which part of a node a code wants ----

  const KEY_CODES: set<string> := {
    "unused-component", "unreachable-defs", "path-template-malformed", "route-conflict", "unknown-keyword",
    "security-scheme-undeclared"}

  const CONTAINER_CODES: set<string> := {"required", "dependentRequired", "dependencies"}

  function SpanTargetFor(code: string): Want {
    if code in KEY_CODES then Key else Value
  }

  datatype ReasonTarget = Self | Container

  function ReasonTargetFor(code: string): ReasonTarget {
    if code in CONTAINER_CODES then Container else Self
  }

  /** Where inside the value a reason points: its own path, or the container's when a member is missing. */
  function LocatedPathOf(r: Reason): Option<seq<string>> {
    if r.path == [] then None
    else if ReasonTargetFor(r.code) == Self then Some(r.path)
    else if |r.path| == 1 then None
    else Some(r.path[..|r.path| - 1])
  }

  // ---- The batch ----

  function Ask(uri: string, pointer: string, want: Want): Request {
    Request(uri, pointer, Some(want))
  }

  function Placed(uri: string, pointer: string, want: Want): seq<Request> {
    [Ask(uri, pointer, want)] + if want != Value then [Ask(uri, pointer, Value)] else []
  }

  function HopRequests(via: seq<Hop>): seq<Request> {
    if via == [] then []
    else HopRequests(via[..|via| - 1]) + [Ask(via[|via| - 1].uri, via[|via| - 1].pointer, Value)]
  }

  function PlacedAt(source: Option<Source>, want: Want): seq<Request> {
    match source case None => [] case Some(at) => Placed(at.uri, at.pointer, want)
  }

  function ContributorRequests(contributors: seq<FindingTarget>, want: Want): seq<Request> {
    if contributors == [] then []
    else
      ContributorRequests(contributors[..|contributors| - 1], want)
        + PlacedAt(contributors[|contributors| - 1].source, want)
  }

  function ReasonRequests(sources: seq<ReasonSource>): seq<Request> {
    if sources == [] then []
    else
      var at := sources[|sources| - 1].source;
      ReasonRequests(sources[..|sources| - 1]) + [Ask(at.uri, at.pointer, Value)]
  }

  /** Every position one finding asks for, repeats included. */
  function Wanted(f: Finding): seq<Request> {
    match f.Address()
    case None => []
    case Some(source) =>
      var want := SpanTargetFor(f.code);
      Placed(source.uri, source.pointer, want) + HopRequests(source.via)
      + ContributorRequests(f.contributors, want) + ReasonRequests(f.reasonSources)
  }

  function AllWanted(findings: seq<Finding>): seq<Request> {
    if findings == [] then [] else AllWanted(findings[..|findings| - 1]) + Wanted(findings[|findings| - 1])
  }

  function WantOf(q: Request): Want {
    q.want.GetOr(Value)
  }

  function WantText(want: Want): string {
    match want case Key => "key" case Value => "value"
  }

  const NUL := '\0'

  /** The map key of a request: its three parts joined by NUL characters. */
  function KeyOf(q: Request): string {
    q.uri + [NUL] + (q.pointer + [NUL] + WantText(WantOf(q)))
  }

  function Keys(qs: seq<Request>): set<string> {
    set q | q in qs :: KeyOf(q)
  }

  /** The requests whose key no earlier one has. */
  function FirstOfEach(qs: seq<Request>): seq<Request> {
    if qs == [] then []
    else
      var before, last := qs[..|qs| - 1], qs[|qs| - 1];
      FirstOfEach(before) + if KeyOf(last) in Keys(before) then [] else [last]
  }

  /** The batch under construction. */
  class Batch {
    var seen: set<string>
    var requests: seq<Request>
    ghost var asked: seq<Request>

    ghost predicate Valid()
      reads this
    {
      seen == Keys(asked) && requests == FirstOfEach(asked)
    }

    constructor ()
      ensures Valid() && asked == []
    {
      seen, requests, asked := {}, [], [];
    }

    method Add(uri: string, pointer: string, want: Want)
      requires Valid()
      modifies this
      ensures Valid() && asked == old(asked) + [Ask(uri, pointer, want)]
    {
      hide KeyOf;
      var q := Ask(uri, pointer, want);
      var key := KeyOf(q);
      asked := asked + [q];
      assert asked[..|asked| - 1] == old(asked);
      assert Keys(asked) == Keys(old(asked)) + {key};
      if key in seen {
        return;
      }
      seen := seen + {key};
      requests := requests + [q];
    }

    method AddPlaced(uri: string, pointer: string, want: Want)
      requires Valid()
      modifies this
      ensures Valid() && asked == old(asked) + Placed(uri, pointer, want)
    {
      Add(uri, pointer, want);
      if want != Value {
        Add(uri, pointer, Value);
      }
    }

    method AddHops(via: seq<Hop>)
      requires Valid()
      modifies this
      ensures Valid() && asked == old(asked) + HopRequests(via)
    {
      hide Valid;
      for i := 0 to |via|
        invariant Valid() && asked == old(asked) + HopRequests(via[..i])
      {
        assert via[..i + 1][..i] == via[..i];
        Add(via[i].uri, via[i].pointer, Value);
      }
      assert via[..|via|] == via;
    }

    method AddContributors(contributors: seq<FindingTarget>, want: Want)
      requires Valid()
      modifies this
      ensures Valid() && asked == old(asked) + ContributorRequests(contributors, want)
    {
      hide Valid, Placed;
      for i := 0 to |contributors|
        invariant Valid() && asked == old(asked) + ContributorRequests(contributors[..i], want)
      {
        assert contributors[..i + 1][..i] == contributors[..i];
        if contributors[i].source.None? {
          continue;
        }
        var at := contributors[i].source.value;
        AddPlaced(at.uri, at.pointer, want);
      }
      assert contributors[..|contributors|] == contributors;
    }

    method AddReasons(sources: seq<ReasonSource>)
      requires Valid()
      modifies this
      ensures Valid() && asked == old(asked) + ReasonRequests(sources)
    {
      hide Valid;
      for i := 0 to |sources|
        invariant Valid() && asked == old(asked) + ReasonRequests(sources[..i])
      {
        assert sources[..i + 1][..i] == sources[..i];
        Add(sources[i].source.uri, sources[i].source.pointer, Value);
      }
      assert sources[..|sources|] == sources;
    }

    /** Every request of one finding. */
    method AddFinding(f: Finding)
      requires Valid()
      modifies this
      ensures Valid() && asked == old(asked) + Wanted(f)
    {
      hide Valid, Placed, HopRequests, ContributorRequests, ReasonRequests;
      if f.Address().None? {
        return;
      }
      var source := f.Address().value;
      var want := SpanTargetFor(f.code);
      AddPlaced(source.uri, source.pointer, want);
      AddHops(source.via);
      AddContributors(f.contributors, want);
      AddReasons(f.reasonSources);
    }
  }

  /** The batch of all the findings. */
  method SpanRequestsFor(findings: seq<Finding>) returns (requests: seq<Request>)
    ensures requests == FirstOfEach(AllWanted(findings))
  {
    var batch := new Batch();
    for i := 0 to |findings|
      invariant batch.Valid() && batch.asked == AllWanted(findings[..i])
    {
      assert findings[..i + 1][..i] == findings[..i];
      batch.AddFinding(findings[i]);
    }
    assert findings[..|findings|] == findings;
    return batch.requests;
  }

  // ---- The lookups of a rendering ----

  /** The span a finding's own location is placed at. */
  function SpanFor(f: Finding, spanOf: SpanLookup): Option<Span> {
    match f.Address()
    case None => None
    case Some(source) =>
      var want := SpanTargetFor(f.code);
      var preferred := spanOf(Ask(source.uri, source.pointer, want));
      if want == Value || preferred.Some? then preferred else spanOf(Ask(source.uri, source.pointer, Value))
  }

  datatype LocatedReason =
    LocatedReason(reason: Reason, index: nat, at: ReasonTarget, uri: string, pointer: string, path: seq<string>,
      span: Span)

  /** What one entry of the reason addresses contributes. */
  function LocatedAt(f: Finding, entry: ReasonSource, spanOf: SpanLookup): seq<LocatedReason> {
    if entry.index >= |f.reasons| then []
    else
      var reason := f.reasons[entry.index];
      match LocatedPathOf(reason)
      case None => []
      case Some(path) =>
        match spanOf(Ask(entry.source.uri, entry.source.pointer, Value))
        case None => []
        case Some(span) =>
          [LocatedReason(reason, entry.index, ReasonTargetFor(reason.code), entry.source.uri, entry.source.pointer,
            path, span)]
  }

  function LocatedAmong(f: Finding, entries: seq<ReasonSource>, spanOf: SpanLookup): seq<LocatedReason> {
    if entries == [] then []
    else LocatedAmong(f, entries[..|entries| - 1], spanOf) + LocatedAt(f, entries[|entries| - 1], spanOf)
  }

  function LocatedReasons(f: Finding, spanOf: SpanLookup): seq<LocatedReason> {
    if f.Address().None? then [] else LocatedAmong(f, f.reasonSources, spanOf)
  }

  method LocatedReasonsFor(f: Finding, spanOf: SpanLookup) returns (located: seq<LocatedReason>)
    ensures located == LocatedReasons(f, spanOf)
  {
    located := [];
    if f.Address().None? {
      return;
    }
    for i := 0 to |f.reasonSources|
      invariant located == LocatedAmong(f, f.reasonSources[..i], spanOf)
    {
      assert f.reasonSources[..i + 1][..i] == f.reasonSources[..i];
      var entry := f.reasonSources[i];
      if entry.index >= |f.reasons| {
        continue;
      }
      var reason := f.reasons[entry.index];
      var path := LocatedPathOf(reason);
      if path.None? {
        continue;
      }
      var span := spanOf(Ask(entry.source.uri, entry.source.pointer, Value));
      if span.None? {
        continue;
      }
      located := located + [LocatedReason(reason, entry.index, ReasonTargetFor(reason.code),
                                          entry.source.uri, entry.source.pointer, path.value, span.value)];
    }
    assert f.reasonSources[..|f.reasonSources|] == f.reasonSources;
  }

  datatype Kind = Via(index: nat) | ReasonAt(index: nat, at: ReasonTarget) | Contributor(index: nat)

  datatype Location = Location(id: nat, uri: string, pointer: string, region: Option<Span>, kind: Kind)

  function HopLocations(via: seq<Hop>, spanOf: SpanLookup): seq<Location> {
    seq(|via|, i requires 0 <= i < |via| =>
      Location(i + 1, via[i].uri, via[i].pointer, spanOf(Request(via[i].uri, via[i].pointer, None)), Via(i)))
  }

  function ReasonLocations(located: seq<LocatedReason>, offset: nat): seq<Location> {
    seq(|located|, i requires 0 <= i < |located| =>
      Location(offset + i + 1, located[i].uri, located[i].pointer, Some(located[i].span),
               ReasonAt(located[i].index, located[i].at)))
  }

  /** The contributor with this index, if it has an address and a span there. */
  function ContributorAt(f: Finding, index: nat, id: nat, spanOf: SpanLookup): seq<Location>
    requires index < |f.contributors|
  {
    var contributor := f.contributors[index];
    match contributor.source
    case None => []
    case Some(source) =>
      match SpanFor(f.(target := Some(contributor)), spanOf)
      case None => []
      case Some(span) => [Location(id, source.uri, source.pointer, Some(span), Contributor(index))]
  }

  /** The located contributors among the first `n`, numbered from `offset`. */
  function ContributorLocations(f: Finding, n: nat, offset: nat, spanOf: SpanLookup): seq<Location>
    requires n <= |f.contributors|
  {
    if n == 0 then []
    else
      var before := ContributorLocations(f, n - 1, offset, spanOf);
      before + ContributorAt(f, n - 1, offset + |before| + 1, spanOf)
  }

  function ViaOf(f: Finding): seq<Hop> {
    match f.Address() case None => [] case Some(source) => source.via
  }

  /** The hops, then the located reasons, then the contributors, in one sequence of ids. */
  function RelatedLocations(f: Finding, spanOf: SpanLookup): seq<Location> {
    var hops := HopLocations(ViaOf(f), spanOf);
    var reasons := ReasonLocations(LocatedReasons(f, spanOf), |hops|);
    var contributors :=
      if f.Address().None? then []
      else ContributorLocations(f, |f.contributors|, |hops| + |reasons|, spanOf);
    hops + reasons + contributors
  }

  method RelatedLocationsOf(f: Finding, spanOf: SpanLookup) returns (related: seq<Location>)
    ensures related == RelatedLocations(f, spanOf)
  {
    hide SpanFor, HopLocations, LocatedReasons, ReasonLocations;
    var hops := HopLocations(ViaOf(f), spanOf);
    var located := LocatedReasonsFor(f, spanOf);
    var reasons := ReasonLocations(located, |hops|);
    var contributors: seq<Location> := [];
    if f.Address().Some? {
      for i := 0 to |f.contributors|
        invariant contributors == ContributorLocations(f, i, |hops| + |reasons|, spanOf)
      {
        var contributor := f.contributors[i];
        if contributor.source.None? {
          continue;
        }
        var span := SpanFor(f.(target := Some(contributor)), spanOf);
        if span.None? {
          continue;
        }
        var source := contributor.source.value;
        contributors := contributors
          + [Location(|hops| + |reasons| + |contributors| + 1, source.uri, source.pointer, span, Contributor(i))];
      }
    }
    return hops + reasons + contributors;
  }
}

/**
 * Which positions a finding asks for and is shown at, said from its code and its addresses.
 */
module SpanFields {
  import opened Options
  import opened Findings
  import opened Spans
  import opened SpanTable

  /** Six codes are about a name; every other is about the value. */
  lemma NameWantedExactly(code: string)
    ensures SpanTargetFor(code) == Key <==>
      || code == "unused-component" || code == "unreachable-defs" || code == "path-template-malformed"
      || code == "route-conflict" || code == "unknown-keyword" || code == "security-scheme-undeclared"
    ensures SpanTargetFor(code) != Key ==> SpanTargetFor(code) == Value
  {
  }

  /** Three reasons are about a member that is not there. */
  predicate IsAboutMissing(code: string) {
    code == "required" || code == "dependentRequired" || code == "dependencies"
  }

  /** A reason is located along its path, or at the container where the member its path ends in is missing. */
  lemma LocatedExactly(r: Reason, path: seq<string>)
    ensures LocatedPathOf(r) == Some(path) <==>
      path != [] && (if IsAboutMissing(r.code) then |r.path| > 0 && path == r.path[..|r.path| - 1] else path == r.path)
    ensures ReasonTargetFor(r.code) == Container <==> IsAboutMissing(r.code)
  {
  }

  /** An address asks for the part its code is about, and for the value if that is another. */
  predicate AsksAt(source: Option<Source>, code: string, q: Request) {
    && source.Some? && q.uri == source.value.uri && q.pointer == source.value.pointer
    && (q.want == Some(Value) || q.want == Some(SpanTargetFor(code)))
  }

  predicate AsksFor(uri: string, pointer: string, q: Request) {
    q == Request(uri, pointer, Some(Value))
  }

  lemma {:induction false} HopsAsk(via: seq<Hop>, q: Request)
    ensures q in HopRequests(via) <==> exists hop :: hop in via && AsksFor(hop.uri, hop.pointer, q)
  {
    if via != [] {
      HopsAsk(via[..|via| - 1], q);
      assert via == via[..|via| - 1] + [via[|via| - 1]];
    }
  }

  lemma {:induction false} ContributorsAsk(contributors: seq<FindingTarget>, code: string, q: Request)
    ensures q in ContributorRequests(contributors, SpanTargetFor(code))
      <==> exists target :: target in contributors && AsksAt(target.source, code, q)
  {
    hide SpanTargetFor;
    if contributors != [] {
      var n := |contributors| - 1;
      ContributorsAsk(contributors[..n], code, q);
      assert contributors == contributors[..n] + [contributors[n]];
    }
  }

  lemma {:induction false} ReasonsAsk(sources: seq<ReasonSource>, q: Request)
    ensures q in ReasonRequests(sources)
      <==> exists entry :: entry in sources && AsksFor(entry.source.uri, entry.source.pointer, q)
  {
    if sources != [] {
      ReasonsAsk(sources[..|sources| - 1], q);
      assert sources == sources[..|sources| - 1] + [sources[|sources| - 1]];
    }
  }

  /** Every position a finding asks for, exactly; a finding without an address asks for none. */
  lemma WantedExactly(f: Finding, q: Request)
    ensures q in Wanted(f) <==>
      && f.target.Some? && f.target.value.source.Some?
      && (|| AsksAt(f.target.value.source, f.code, q)
          || (exists hop :: hop in f.target.value.source.value.via && AsksFor(hop.uri, hop.pointer, q))
          || (exists target :: target in f.contributors && AsksAt(target.source, f.code, q))
          || (exists entry :: entry in f.reasonSources && AsksFor(entry.source.uri, entry.source.pointer, q)))
  {
    hide SpanTargetFor, HopRequests, ContributorRequests, ReasonRequests;
    if f.target.Some? && f.target.value.source.Some? {
      HopsAsk(f.target.value.source.value.via, q);
      ContributorsAsk(f.contributors, f.code, q);
      ReasonsAsk(f.reasonSources, q);
    }
  }

  /** A finding is shown at the name its code is about where that has a span, and else at the value. */
  lemma ShownExactly(f: Finding, spanOf: SpanLookup)
    ensures f.Address().None? ==> SpanFor(f, spanOf) == None
    ensures f.Address().Some? ==>
      var at := f.Address().value;
      var name, value := spanOf(Request(at.uri, at.pointer, Some(Key))),
        spanOf(Request(at.uri, at.pointer, Some(Value)));
      SpanFor(f, spanOf) == if SpanTargetFor(f.code) == Key && name.Some? then name else value
  {
    NameWantedExactly(f.code);
  }

  /** The related locations start with the hops of the finding's own address, each at its value's span. */
  lemma HopsComeFirst(f: Finding, spanOf: SpanLookup, i: nat)
    requires f.Address().Some? && i < |f.Address().value.via|
    ensures var hop := f.Address().value.via[i];
      && i < |RelatedLocations(f, spanOf)|
      && RelatedLocations(f, spanOf)[i]
           == Location(i + 1, hop.uri, hop.pointer, spanOf(Request(hop.uri, hop.pointer, None)), Via(i))
  {
    hide LocatedReasons, ReasonLocations, ContributorLocations;
  }

  /** Then come the located reasons, each where its own address is. */
  lemma ReasonsComeNext(f: Finding, spanOf: SpanLookup, i: nat)
    requires f.Address().Some? && i < |LocatedReasons(f, spanOf)|
    ensures var n, r := |f.Address().value.via|, LocatedReasons(f, spanOf)[i];
      && n + i < |RelatedLocations(f, spanOf)|
      && RelatedLocations(f, spanOf)[n + i]
           == Location(n + i + 1, r.uri, r.pointer, Some(r.span), ReasonAt(r.index, r.at))
  {
    hide LocatedReasons, ContributorLocations;
  }

  /** A reason is located when it has an address, a path of its own and a span there. */
  lemma {:induction false} LocatedAmongExactly(
    f: Finding, entries: seq<ReasonSource>, spanOf: SpanLookup, r: LocatedReason)
    ensures r in LocatedAmong(f, entries, spanOf) <==> exists entry :: entry in entries && Locates(f, entry, spanOf, r)
  {
    hide LocatedAt, Locates;
    if entries != [] {
      var n := |entries| - 1;
      LocatedAmongExactly(f, entries[..n], spanOf, r);
      LocatedAtExactly(f, entries[n], spanOf, r);
      assert entries == entries[..n] + [entries[n]];
    }
  }

  lemma LocatedAtExactly(f: Finding, entry: ReasonSource, spanOf: SpanLookup, r: LocatedReason)
    ensures r in LocatedAt(f, entry, spanOf) <==> Locates(f, entry, spanOf, r)
  {
    hide LocatedPathOf, ReasonTargetFor;
  }

  predicate Locates(f: Finding, entry: ReasonSource, spanOf: SpanLookup, r: LocatedReason) {
    && entry.index < |f.reasons| && r.index == entry.index && r.reason == f.reasons[entry.index]
    && LocatedPathOf(r.reason) == Some(r.path) && r.at == ReasonTargetFor(r.reason.code)
    && r.uri == entry.source.uri && r.pointer == entry.source.pointer
    && spanOf(Request(r.uri, r.pointer, Some(Value))) == Some(r.span)
  }

  /** The location of the contributor with this index. */
  predicate IsLocationOf(f: Finding, index: nat, spanOf: SpanLookup, l: Location)
    requires index < |f.contributors|
  {
    && l.kind == Contributor(index) && f.contributors[index].source.Some?
    && l.uri == f.contributors[index].source.value.uri && l.pointer == f.contributors[index].source.value.pointer
    && l.region.Some? && l.region == SpanFor(f.(target := Some(f.contributors[index])), spanOf)
  }

  lemma ContributorAtExactly(f: Finding, index: nat, id: nat, spanOf: SpanLookup, l: Location)
    requires index < |f.contributors|
    ensures l in ContributorAt(f, index, id, spanOf) <==> l.id == id && IsLocationOf(f, index, spanOf, l)
  {
    hide SpanFor;
  }

  /** Last come the contributors, in order: exactly those with an address and a span. */
  lemma {:induction false} ContributorsComeLast(f: Finding, n: nat, offset: nat, spanOf: SpanLookup, l: Location)
    requires n <= |f.contributors|
    ensures l in ContributorLocations(f, n, offset, spanOf) ==>
      exists index: nat :: index < n && IsLocationOf(f, index, spanOf, l)
    ensures forall index: nat :: index < n && IsLocationOf(f, index, spanOf, l) ==>
      exists id: nat :: l.(id := id) in ContributorLocations(f, n, offset, spanOf)
  {
    hide IsLocationOf, ContributorAt;
    if n > 0 {
      var before := ContributorLocations(f, n - 1, offset, spanOf);
      var id := offset + |before| + 1;
      ContributorsComeLast(f, n - 1, offset, spanOf, l);
      ContributorAtExactly(f, n - 1, id, spanOf, l);
      ContributorAtExactly(f, n - 1, id, spanOf, l.(id := id));
      AnyId(f, n - 1, spanOf, l, id);
      forall index: nat | index < n && IsLocationOf(f, index, spanOf, l)
        ensures exists id: nat :: l.(id := id) in ContributorLocations(f, n, offset, spanOf) {
        if index < n - 1 {
          var other: nat :| l.(id := other) in before;
          assert l.(id := other) in ContributorLocations(f, n, offset, spanOf);
        } else {
          assert l.(id := id) in ContributorLocations(f, n, offset, spanOf);
        }
      }
    }
  }

  lemma AnyId(f: Finding, index: nat, spanOf: SpanLookup, l: Location, id: nat)
    requires index < |f.contributors|
    ensures IsLocationOf(f, index, spanOf, l.(id := id)) <==> IsLocationOf(f, index, spanOf, l)
  {
  }

  /** The contributors' locations close the list. */
  lemma ContributorsInRelated(f: Finding, spanOf: SpanLookup)
    requires f.Address().Some?
    ensures var offset := |f.Address().value.via| + |LocatedReasons(f, spanOf)|;
      var last := ContributorLocations(f, |f.contributors|, offset, spanOf);
      |RelatedLocations(f, spanOf)| == offset + |last| && RelatedLocations(f, spanOf)[offset..] == last
  {
    hide LocatedReasons, ContributorLocations;
  }

  // ---- The batch ----

  /** No earlier request has the key. */
  ghost predicate IsFirstAsked(qs: seq<Request>, k: nat)
    requires k < |qs|
  {
    forall j :: 0 <= j < k ==> KeyOf(qs[j]) != KeyOf(qs[k])
  }

  /** The batch is the requests, in order, whose key none before them has. */
  lemma {:induction false} BatchPicks(qs: seq<Request>) returns (at: seq<nat>)
    ensures Picks(FirstOfEach(qs), qs, at)
    ensures forall k: nat :: k < |qs| ==> (k in at <==> IsFirstAsked(qs, k))
  {
    hide KeyOf;
    if qs == [] {
      at := [];
    } else {
      var n := |qs| - 1;
      var rest := BatchPicks(qs[..n]);
      assert KeyOf(qs[n]) in Keys(qs[..n]) <==> !IsFirstAsked(qs, n) by {
        KeyAsked(qs, n);
      }
      hide Picks;
      at := rest + if IsFirstAsked(qs, n) then [n] else [];
      PicksAtEnd(FirstOfEach(qs[..n]), qs, rest, IsFirstAsked(qs, n));
      forall k: nat | k < |qs| ensures k in at <==> IsFirstAsked(qs, k) {
        if k < n {
          assert IsFirstAsked(qs[..n], k) <==> IsFirstAsked(qs, k);
        } else {
          PlacesBelow(FirstOfEach(qs[..n]), qs[..n], rest);
        }
      }
    }
  }

  lemma KeyAsked(qs: seq<Request>, n: nat)
    requires n < |qs|
    ensures KeyOf(qs[n]) in Keys(qs[..n]) <==> !IsFirstAsked(qs, n)
  {
    hide KeyOf;
    if j :| 0 <= j < n && KeyOf(qs[j]) == KeyOf(qs[n]) {
      assert qs[..n][j] in qs[..n];
    }
  }

  // ---- The answers ----

  /** One request is for the position another asks about; leaving out the part means the value. */
  predicate AsksTheSame(a: Request, b: Request) {
    a.uri == b.uri && a.pointer == b.pointer
    && (if a.want == Some(Key) then b.want == Some(Key) else b.want != Some(Key))
  }

  /** The document can be read and the part asked about has a span in it. */
  predicate IsFound<T>(r: Reader<T>, q: Request, span: Span) {
    r.read(q.uri).Some?
    && r.find(r.read(q.uri).value, q.pointer, if q.want == Some(Key) then Key else Value) == Some(span)
  }

  lemma FoundDirectly<T>(r: Reader<T>, q: Request, span: Span)
    ensures Direct(r, q) == Some(span) <==> IsFound(r, q, span)
  {
    assert WantOf(q) == if q.want == Some(Key) then Key else Value by {
      match q.want
      case None =>
      case Some(want) =>
    }
  }

  /** The table answers a question with the span found for it, if the batch asks the same, and not otherwise. */
  lemma AnsweredExactly<T>(qs: seq<Request>, r: Reader<T>, q: Request, span: Span)
    requires forall p :: p in qs ==> !Extends(p.uri, q.uri)
    ensures Answer(TableOf(qs, r), q) == Some(span)
      <==> IsFound(r, q, span) && exists p :: p in qs && AsksTheSame(p, q)
  {
    hide KeyOf, Extends, TableOf, Answer;
    TableAnswers(qs, r, q);
    FoundDirectly(r, q, span);
    if KeyOf(q) in Keys(qs) {
      var p :| p in qs && KeyOf(p) == KeyOf(q);
      KeysApart(p, q);
      assert AsksTheSame(p, q);
    }
    if p :| p in qs && AsksTheSame(p, q) {
      SameKeys(p, q);
    }
  }
}

/**
 * Resolving the batch once and answering every lookup of the rendering from a table.
 */
module SpanTable {
  import opened Options
  import opened Findings
  import opened Spans

  /** How the texts are read and how positions are found in one; both are given. */
  datatype Reader<!T> = Reader(read: string -> Option<T>, find: (T, string, Want) -> Option<Span>)

  /** The span of a request, reading its document on the spot. */
  function Direct<T>(r: Reader<T>, q: Request): Option<Span> {
    match r.read(q.uri)
    case None => None
    case Some(text) => r.find(text, q.pointer, WantOf(q))
  }

  function Resolve<T>(texts: map<string, T>, r: Reader<T>, q: Request): Option<Span> {
    if q.uri in texts then r.find(texts[q.uri], q.pointer, WantOf(q)) else None
  }

  function TableOf<T>(qs: seq<Request>, r: Reader<T>): map<string, Span> {
    if qs == [] then map[]
    else
      var table := TableOf(qs[..|qs| - 1], r);
      match Direct(r, qs[|qs| - 1])
      case None => table
      case Some(span) => table[KeyOf(qs[|qs| - 1]) := span]
  }

  function UrisOf(qs: seq<Request>): set<string> {
    set q | q in qs :: q.uri
  }

  /** What could be read of the documents asked about. */
  predicate AreTexts<T(==)>(texts: map<string, T>, uris: set<string>, r: Reader<T>) {
    && (forall u :: u in texts ==> u in uris && r.read(u) == Some(texts[u]))
    && (forall u :: u in uris && r.read(u).Some? ==> u in texts)
  }

  /** Read each document once, in whatever order the reads finish; one that cannot be read is left out. */
  method ReadTexts<T(==)>(uris: set<string>, r: Reader<T>) returns (texts: map<string, T>)
    ensures AreTexts(texts, uris, r)
  {
    texts := map[];
    var pending := uris;
    while pending != {}
      invariant pending <= uris && AreTexts(texts, uris - pending, r)
      decreases |pending|
    {
      var uri :| uri in pending;
      var text := r.read(uri);
      if text.Some? {
        texts := texts[uri := text.value];
      }
      pending := pending - {uri};
    }
    assert uris - pending == uris;
  }

  lemma ResolveIsDirect<T>(texts: map<string, T>, uris: set<string>, r: Reader<T>, q: Request)
    requires AreTexts(texts, uris, r) && q.uri in uris
    ensures Resolve(texts, r, q) == Direct(r, q)
  {
  }

  /** Resolve the batch over the documents that could be read, and keep the answers by key. */
  method SpanLookupFor<T(==)>(findings: seq<Finding>, r: Reader<T>) returns (spans: map<string, Span>)
    ensures spans == TableOf(FirstOfEach(AllWanted(findings)), r)
  {
    hide AllWanted, FirstOfEach, KeyOf, AreTexts, Resolve, Direct;
    var requests := SpanRequestsFor(findings);
    if requests == [] {
      return map[];
    }
    var uris := UrisOf(requests);
    var texts := ReadTexts(uris, r);
    if texts == map[] {
      NothingRead(texts, uris, requests, r);
      return map[];
    }
    spans := map[];
    for i := 0 to |requests|
      invariant spans == TableOf(requests[..i], r)
    {
      assert requests[..i + 1][..i] == requests[..i];
      assert requests[i] in requests;
      ResolveIsDirect(texts, uris, r, requests[i]);
      var span := Resolve(texts, r, requests[i]);
      if span.None? {
        continue;
      }
      spans := spans[KeyOf(requests[i]) := span.value];
    }
    assert requests[..|requests|] == requests;
  }

  lemma {:induction false} NothingRead<T>(texts: map<string, T>, uris: set<string>, qs: seq<Request>, r: Reader<T>)
    requires AreTexts(texts, uris, r) && texts == map[] && forall q :: q in qs ==> q.uri in uris
    ensures TableOf(qs, r) == map[]
  {
    if qs != [] {
      assert qs[|qs| - 1] in qs;
      NothingRead(texts, uris, qs[..|qs| - 1], r);
    }
  }

  /** The answer the table gives. */
  function Answer(spans: map<string, Span>, q: Request): Option<Span> {
    if KeyOf(q) in spans then Some(spans[KeyOf(q)]) else None
  }

  // ---- Keys tell requests apart ----

  /** The same question, whether the want is spelled out or left to its default. */
  predicate Same(a: Request, b: Request) {
    a.uri == b.uri && a.pointer == b.pointer && WantOf(a) == WantOf(b)
  }

  lemma SameKeys(a: Request, b: Request)
    requires Same(a, b)
    ensures KeyOf(a) == KeyOf(b)
  {
  }

  lemma TailsApart(p: string, v: Want, q: string, w: Want)
    requires p + [NUL] + WantText(v) == q + [NUL] + WantText(w)
    ensures p == q && v == w
  {
    var a, b := p + [NUL] + WantText(v), q + [NUL] + WantText(w);
    assert a[|a| - 1] == WantText(v)[|WantText(v)| - 1] && b[|b| - 1] == WantText(w)[|WantText(w)| - 1];
    assert v == w;
    assert p == a[..|p|] && q == b[..|p|];
  }

  /** One URI is the other with a NUL character and more after it. */
  predicate Extends(a: string, b: string) {
    a + [NUL] <= b || b + [NUL] <= a
  }

  /**
   * Two requests have one key only if they are the same question, unless one URI extends
   * the other by a NUL character. A pointer may hold one.
   */
  lemma KeysApart(a: Request, b: Request)
    requires KeyOf(a) == KeyOf(b) && !Extends(a.uri, b.uri)
    ensures Same(a, b)
  {
    var key := KeyOf(a);
    assert a.uri + [NUL] == key[..|a.uri| + 1] && b.uri + [NUL] == key[..|b.uri| + 1];
    assert |a.uri| < |b.uri| ==> a.uri + [NUL] <= b.uri;
    assert |b.uri| < |a.uri| ==> b.uri + [NUL] <= a.uri;
    assert a.uri == key[..|a.uri|] && b.uri == key[..|b.uri|];
    assert a.uri == b.uri;
    assert key[|a.uri| + 1..] == a.pointer + [NUL] + WantText(WantOf(a));
    assert key[|a.uri| + 1..] == b.pointer + [NUL] + WantText(WantOf(b));
    TailsApart(a.pointer, WantOf(a), b.pointer, WantOf(b));
  }

  /** A URI that extends another by a NUL shares a key with it, at pointers that make up the difference. */
  lemma NulUriSharesKey(uri: string, middle: string, pointer: string, want: Option<Want>)
    ensures KeyOf(Request(uri + [NUL] + middle, pointer, want)) == KeyOf(Request(uri, middle + [NUL] + pointer, want))
  {
    calc {
      uri + [NUL] + middle + [NUL] + (pointer + [NUL] + WantText(want.GetOr(Value)));
      uri + [NUL] + (middle + [NUL] + pointer + [NUL] + WantText(want.GetOr(Value)));
    }
  }

  /** Some position in each of the two documents has the same key. */
  ghost predicate CanCollide(a: string, b: string) {
    exists p, v, q, w :: KeyOf(Ask(a, p, v)) == KeyOf(Ask(b, q, w))
  }

  lemma ExtensionCollides(a: string, b: string)
    requires a + [NUL] <= b
    ensures KeyOf(Ask(a, b[|a| + 1..] + [NUL], Value)) == KeyOf(Ask(b, "", Value))
  {
    var middle := b[|a| + 1..];
    assert b == a + [NUL] + middle;
    assert middle + [NUL] + "" == middle + [NUL];
    NulUriSharesKey(a, middle, "", Some(Value));
  }

  /** Exactly which two documents can be confused: those of which one URI extends the other by a NUL character. */
  lemma CollidesExactly(a: string, b: string)
    requires a != b
    ensures CanCollide(a, b) <==> Extends(a, b)
  {
    hide KeyOf;
    if p, v, q, w :| KeyOf(Ask(a, p, v)) == KeyOf(Ask(b, q, w)) {
      if !Extends(a, b) {
        KeysApart(Ask(a, p, v), Ask(b, q, w));
      }
    }
    if a + [NUL] <= b {
      ExtensionCollides(a, b);
    } else if b + [NUL] <= a {
      ExtensionCollides(b, a);
    }
  }

  // ---- The table answers as the resolver does ----

  /** No URI of the batch extends another by a NUL character. */
  ghost predicate UrisApart(qs: seq<Request>) {
    forall p, q :: p in qs && q in qs ==> !Extends(p.uri, q.uri)
  }

  lemma {:induction false} FirstsAreAll(qs: seq<Request>)
    ensures forall q :: q in FirstOfEach(qs) ==> q in qs
    ensures Keys(FirstOfEach(qs)) == Keys(qs)
  {
    hide KeyOf;
    if qs != [] {
      var n := |qs| - 1;
      FirstsAreAll(qs[..n]);
      assert qs == qs[..n] + [qs[n]];
      KeysOfOneMore(qs[..n], qs[n]);
      KeysOfOneMore(FirstOfEach(qs[..n]), qs[n]);
    }
  }

  lemma KeysOfOneMore(qs: seq<Request>, q: Request)
    ensures Keys(qs + [q]) == Keys(qs) + {KeyOf(q)}
  {
    hide KeyOf;
    assert forall p :: p in qs + [q] <==> p in qs || p == q;
  }

  lemma {:induction false} TableAnswers<T>(qs: seq<Request>, r: Reader<T>, q: Request)
    requires forall p :: p in qs ==> !Extends(p.uri, q.uri)
    ensures Answer(TableOf(qs, r), q) == if KeyOf(q) in Keys(qs) then Direct(r, q) else None
  {
    hide KeyOf, Extends;
    if qs != [] {
      var n := |qs| - 1;
      TableAnswers(qs[..n], r, q);
      assert qs == qs[..n] + [qs[n]];
      KeysOfOneMore(qs[..n], qs[n]);
      assert qs[n] in qs;
      if KeyOf(qs[n]) == KeyOf(q) {
        KeysApart(qs[n], q);
      }
    }
  }

  /** Each batch entry is a question of its own. */
  lemma {:induction false} BatchIsDistinct(qs: seq<Request>, i: nat, k: nat)
    requires i < k < |FirstOfEach(qs)|
    ensures KeyOf(FirstOfEach(qs)[i]) != KeyOf(FirstOfEach(qs)[k]) && !Same(FirstOfEach(qs)[i], FirstOfEach(qs)[k])
  {
    hide KeyOf;
    var n := |qs| - 1;
    var before := FirstOfEach(qs[..n]);
    if k < |before| {
      BatchIsDistinct(qs[..n], i, k);
    } else {
      FirstsAreAll(qs[..n]);
      assert before[i] in before && KeyOf(before[i]) in Keys(before);
    }
    if Same(FirstOfEach(qs)[i], FirstOfEach(qs)[k]) {
      SameKeys(FirstOfEach(qs)[i], FirstOfEach(qs)[k]);
    }
  }

  // ---- Renderings ----

  /** Two lookups that agree on every question of the batch, however it is spelled. */
  ghost predicate Agree(a: SpanLookup, b: SpanLookup, qs: seq<Request>) {
    forall p, q :: p in qs && Same(p, q) ==> a(q) == b(q)
  }

  lemma AgreeOnPart(a: SpanLookup, b: SpanLookup, qs: seq<Request>, part: seq<Request>)
    requires Agree(a, b, qs) && forall q :: q in part ==> q in qs
    ensures Agree(a, b, part)
  {
  }

  lemma AgreeOnOne(a: SpanLookup, b: SpanLookup, qs: seq<Request>, q: Request)
    requires Agree(a, b, qs) && Ask(q.uri, q.pointer, WantOf(q)) in qs
    ensures a(q) == b(q)
  {
    assert Same(Ask(q.uri, q.pointer, WantOf(q)), q);
  }

  lemma SpanForAgrees(f: Finding, a: SpanLookup, b: SpanLookup)
    requires f.Address().Some?
    requires Agree(a, b, Placed(f.Address().value.uri, f.Address().value.pointer, SpanTargetFor(f.code)))
    ensures SpanFor(f, a) == SpanFor(f, b)
  {
    hide SpanTargetFor, Agree;
    var source := f.Address().value;
    var want := SpanTargetFor(f.code);
    var qs := Placed(source.uri, source.pointer, want);
    AgreeOnOne(a, b, qs, Ask(source.uri, source.pointer, want));
    if want != Value {
      assert qs[1] == Ask(source.uri, source.pointer, Value);
      AgreeOnOne(a, b, qs, Ask(source.uri, source.pointer, Value));
    }
  }

  lemma {:induction false} HopsAsked(via: seq<Hop>, i: nat)
    requires i < |via|
    ensures Ask(via[i].uri, via[i].pointer, Value) in HopRequests(via)
  {
    if i < |via| - 1 {
      HopsAsked(via[..|via| - 1], i);
    }
  }

  lemma HopsAgree(via: seq<Hop>, a: SpanLookup, b: SpanLookup)
    requires Agree(a, b, HopRequests(via))
    ensures HopLocations(via, a) == HopLocations(via, b)
  {
    hide Agree;
    forall i: nat | i < |via| ensures HopLocations(via, a)[i] == HopLocations(via, b)[i] {
      HopsAsked(via, i);
      AgreeOnOne(a, b, HopRequests(via), Request(via[i].uri, via[i].pointer, None));
    }
  }

  lemma {:induction false} ReasonsAgree(f: Finding, entries: seq<ReasonSource>, a: SpanLookup, b: SpanLookup)
    requires Agree(a, b, ReasonRequests(entries))
    ensures LocatedAmong(f, entries, a) == LocatedAmong(f, entries, b)
  {
    hide Agree, LocatedPathOf;
    if entries != [] {
      var n := |entries| - 1;
      var all := ReasonRequests(entries);
      AgreeOnPart(a, b, all, ReasonRequests(entries[..n]));
      ReasonsAgree(f, entries[..n], a, b);
      var q := Ask(entries[n].source.uri, entries[n].source.pointer, Value);
      assert all[|all| - 1] == q;
      AgreeOnOne(a, b, all, q);
    }
  }

  lemma {:induction false} ContributorsAsked(contributors: seq<FindingTarget>, want: Want, i: nat, q: Request)
    requires i < |contributors| && q in PlacedAt(contributors[i].source, want)
    ensures q in ContributorRequests(contributors, want)
  {
    hide PlacedAt;
    if i < |contributors| - 1 {
      ContributorsAsked(contributors[..|contributors| - 1], want, i, q);
    }
  }

  /** One contributor renders alike under lookups that agree on what the contributors ask for. */
  lemma ContributorAgrees(f: Finding, i: nat, a: SpanLookup, b: SpanLookup)
    requires i < |f.contributors| && Agree(a, b, ContributorRequests(f.contributors, SpanTargetFor(f.code)))
    requires f.contributors[i].source.Some?
    ensures var there := f.(target := Some(f.contributors[i])); SpanFor(there, a) == SpanFor(there, b)
  {
    hide Agree, SpanTargetFor, SpanFor, Placed, ContributorRequests;
    var contributor := f.contributors[i];
    var want := SpanTargetFor(f.code);
    var all := ContributorRequests(f.contributors, want);
    var placed := PlacedAt(contributor.source, want);
    forall q | q in placed ensures q in all {
      ContributorsAsked(f.contributors, want, i, q);
    }
    AgreeOnPart(a, b, all, placed);
    var there := f.(target := Some(contributor));
    assert there.Address() == contributor.source && there.code == f.code;
    SpanForAgrees(there, a, b);
  }

  lemma {:induction false} ContributorsAgree(f: Finding, n: nat, offset: nat, a: SpanLookup, b: SpanLookup)
    requires n <= |f.contributors| && Agree(a, b, ContributorRequests(f.contributors, SpanTargetFor(f.code)))
    ensures ContributorLocations(f, n, offset, a) == ContributorLocations(f, n, offset, b)
    decreases n
  {
    hide Agree, SpanTargetFor, SpanFor, Placed, ContributorRequests;
    if n > 0 {
      ContributorsAgree(f, n - 1, offset, a, b);
      if f.contributors[n - 1].source.Some? {
        ContributorAgrees(f, n - 1, a, b);
      }
    }
  }

  /** Lookups that agree on what the finding asks for render it alike. */
  lemma RenderingsAgree(f: Finding, a: SpanLookup, b: SpanLookup)
    requires Agree(a, b, Wanted(f))
    ensures SpanFor(f, a) == SpanFor(f, b) && RelatedLocations(f, a) == RelatedLocations(f, b)
  {
    hide Agree, SpanFor, HopLocations, ReasonLocations, ContributorLocations, LocatedAmong;
    hide Placed, HopRequests, ContributorRequests, ReasonRequests, SpanTargetFor;
    if f.Address().None? {
      NoAddress(f, a, b);
    } else {
      var source := f.Address().value;
      var want := SpanTargetFor(f.code);
      AgreeOnPart(a, b, Wanted(f), Placed(source.uri, source.pointer, want));
      AgreeOnPart(a, b, Wanted(f), HopRequests(source.via));
      AgreeOnPart(a, b, Wanted(f), ContributorRequests(f.contributors, want));
      AgreeOnPart(a, b, Wanted(f), ReasonRequests(f.reasonSources));
      SpanForAgrees(f, a, b);
      HopsAgree(source.via, a, b);
      ReasonsAgree(f, f.reasonSources, a, b);
      var hops := HopLocations(source.via, a);
      var reasons := ReasonLocations(LocatedReasons(f, a), |hops|);
      ContributorsAgree(f, |f.contributors|, |hops| + |reasons|, a, b);
    }
  }

  lemma NoAddress(f: Finding, a: SpanLookup, b: SpanLookup)
    requires f.Address().None?
    ensures SpanFor(f, a) == SpanFor(f, b) == None && RelatedLocations(f, a) == RelatedLocations(f, b) == []
  {
  }

  lemma {:induction false} WantedAmongAll(findings: seq<Finding>, i: nat, q: Request)
    requires i < |findings| && q in Wanted(findings[i])
    ensures q in AllWanted(findings)
  {
    hide Wanted;
    if i < |findings| - 1 {
      WantedAmongAll(findings[..|findings| - 1], i, q);
    }
  }

  /**
   * Every finding renders from the table exactly as it would from the resolver itself:
   * the batch leaves out no position that rendering looks up, and no two positions share
   * an answer. It needs only that no document's URI extends another's by a NUL character.
   */
  lemma TableRendersAlike<T>(findings: seq<Finding>, r: Reader<T>, i: nat)
    requires i < |findings| && UrisApart(AllWanted(findings))
    ensures var table := TableOf(FirstOfEach(AllWanted(findings)), r);
      var fromTable: SpanLookup := q => Answer(table, q);
      var fromTexts: SpanLookup := q => Direct(r, q);
      && SpanFor(findings[i], fromTable) == SpanFor(findings[i], fromTexts)
      && RelatedLocations(findings[i], fromTable) == RelatedLocations(findings[i], fromTexts)
  {
    hide AllWanted, Wanted, KeyOf, SpanFor, RelatedLocations, FirstOfEach, TableOf, Answer;
    var f := findings[i];
    var all := AllWanted(findings);
    var table := TableOf(FirstOfEach(all), r);
    var fromTable: SpanLookup := q => Answer(table, q);
    var fromTexts: SpanLookup := q => Direct(r, q);
    FirstsAreAll(all);
    forall p, q | p in Wanted(f) && Same(p, q) ensures fromTable(q) == fromTexts(q) {
      WantedAmongAll(findings, i, p);
      SameKeys(p, q);
      assert KeyOf(p) in Keys(all);
      TableAnswers(FirstOfEach(all), r, q);
    }
    RenderingsAgree(f, fromTable, fromTexts);
  }

  // ---- What a rendering shows ----

  /** Preferring the name never loses the finding its place. */
  lemma PreferenceLosesNothing(f: Finding, spanOf: SpanLookup)
    requires f.Address().Some?
    ensures var source := f.Address().value;
      SpanFor(f, spanOf).Some? <==>
        spanOf(Ask(source.uri, source.pointer, SpanTargetFor(f.code))).Some?
          || spanOf(Ask(source.uri, source.pointer, Value)).Some?
  {
  }

  lemma {:induction false} ContributorIds(f: Finding, n: nat, offset: nat, spanOf: SpanLookup, k: nat)
    requires n <= |f.contributors| && k < |ContributorLocations(f, n, offset, spanOf)|
    ensures ContributorLocations(f, n, offset, spanOf)[k].id == offset + k + 1
    decreases n
  {
    hide SpanFor;
    if k < |ContributorLocations(f, n - 1, offset, spanOf)| {
      ContributorIds(f, n - 1, offset, spanOf, k);
    }
  }

  /** The related locations of a result are numbered 1, 2, and so on, whatever was found or dropped. */
  lemma RelatedIdsAreConsecutive(f: Finding, spanOf: SpanLookup, k: nat)
    requires k < |RelatedLocations(f, spanOf)|
    ensures RelatedLocations(f, spanOf)[k].id == k + 1
  {
    hide LocatedReasons, ContributorLocations;
    var hops := HopLocations(ViaOf(f), spanOf);
    var reasons := ReasonLocations(LocatedReasons(f, spanOf), |hops|);
    var before := |hops| + |reasons|;
    if k >= before {
      ContributorIds(f, |f.contributors|, before, spanOf, k - before);
    }
  }
}

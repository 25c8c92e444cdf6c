/**
 * The resolver: one greedy pass over the inclusions and one over the exclusions,
 * marking in place the terms that change nothing.
 */
module Resolve {
  import opened Options
  import opened Codes
  import opened FindingKeys
  import opened Selection

  // ---- What a term list selects, as a function of its sets of keys ----

  function KeysOf(terms: seq<Term>, exclude: bool): set<Key> {
    set t | t in terms && t.exclude == exclude :: t.key
  }

  function Union(reg: Registry, keys: set<Key>): set<string> {
    set k, code | k in keys && code in Expand(reg, k) :: code
  }

  /** Every inclusion's codes, or every selectable code when nothing is included. */
  function BaseOf(reg: Registry, included: set<Key>): set<string> {
    if included == {} then Selectable(reg) else Union(reg, included)
  }

  /** The classes some code of the base belongs to. */
  function ClassesOf(reg: Registry, base: set<string>): set<string> {
    set cls | cls in reg.classes && exists code :: code in CodesOf(reg, cls) && code in base
  }

  /** The codes only compiling can produce. */
  function CompilerOwned(reg: Registry): set<string> {
    set code | code in CodesOf(reg, "schema") && code !in CodesOf(reg, "malformed")
      && code != "format-not-validated" && code != "unsupported-schema-dialect"
  }

  predicate CompilesFor(reg: Registry, base: set<string>) {
    CompilerOwned(reg) * base != {}
  }

  function BaseOfTerms(reg: Registry, terms: seq<Term>): set<string> {
    BaseOf(reg, KeysOf(terms, false))
  }

  predicate SameTerm(a: Term, b: Term) {
    a.exclude == b.exclude && a.key == b.key
  }

  predicate First(terms: seq<Term>, i: nat)
    requires i < |terms|
  {
    forall j :: 0 <= j < i ==> !SameTerm(terms[j], terms[i])
  }

  /** The universe a term is judged in: every selectable code, or for an exclusion the base. */
  function Universe(reg: Registry, terms: seq<Term>, exclude: bool): set<string> {
    if exclude then BaseOfTerms(reg, terms) else Selectable(reg)
  }

  /** Why a term changes nothing, if it does not. */
  ghost function Verdict(reg: Registry, terms: seq<Term>, i: nat): Option<Noop>
    requires i < |terms|
  {
    var t := terms[i];
    if !First(terms, i) then Some(Repeats)
    else Judged(reg, KeysOf(terms, t.exclude), Universe(reg, terms, t.exclude), t)
  }

  ghost function Judged(reg: Registry, keys: set<Key>, within: set<string>, t: Term): Option<Noop> {
    if t.exclude && Inside(reg, within, t.key) == {} then Some(OutsideSelection)
    else if Covered(reg, keys, within, t.key) then Some(if t.exclude then AlreadyExcluded else AlreadySelected)
    else None
  }

  ghost predicate TermsParsed(reg: Registry, terms: seq<Term>) {
    forall t :: t in terms ==> Parsed(reg, t.key)
  }

  // ---- Most specific first ----

  function Rank(kind: Kind): nat {
    match kind case CodeKey => 0 case FamilyKey => 1 case ClassKey => 2
  }

  /** The positions of one sign and kind below a bound, in written order. */
  function Positions(terms: seq<Term>, exclude: bool, kind: Kind, n: nat): seq<nat>
    requires n <= |terms|
  {
    if n == 0 then []
    else Positions(terms, exclude, kind, n - 1) + (if IsAt(terms, exclude, kind, n - 1) then [n - 1] else [])
  }

  predicate IsAt(terms: seq<Term>, exclude: bool, kind: Kind, i: nat) {
    i < |terms| && terms[i].exclude == exclude && terms[i].key.kind == kind
  }

  predicate Increasing(p: seq<nat>) {
    forall a, b :: 0 <= a < b < |p| ==> p[a] < p[b]
  }

  lemma {:induction false} PositionsFacts(terms: seq<Term>, exclude: bool, kind: Kind, n: nat)
    requires n <= |terms|
    ensures var p := Positions(terms, exclude, kind, n);
      && (forall i: nat :: i in p <==> i < n && IsAt(terms, exclude, kind, i))
      && Increasing(p)
  {
    if n > 0 {
      PositionsFacts(terms, exclude, kind, n - 1);
      var front, p := Positions(terms, exclude, kind, n - 1), Positions(terms, exclude, kind, n);
      forall a, b | 0 <= a < b < |p| ensures p[a] < p[b] {
        assert p[a] == front[a] && front[a] in front;
      }
    }
  }

  lemma PositionsSorted(terms: seq<Term>, exclude: bool, kind: Kind)
    ensures Sorted(terms, Positions(terms, exclude, kind, |terms|))
    ensures forall i :: i in Positions(terms, exclude, kind, |terms|) ==> RankAt(terms, i) == Rank(kind)
  {
    hide Positions;
    PositionsFacts(terms, exclude, kind, |terms|);
    var p := Positions(terms, exclude, kind, |terms|);
    forall i: nat | i in p ensures RankAt(terms, i) == Rank(kind) {
      assert IsAt(terms, exclude, kind, i);
    }
    forall a, b | 0 <= a < b < |p| ensures RankAt(terms, p[a]) == RankAt(terms, p[b]) && p[a] < p[b] {
      assert p[a] in p && p[b] in p;
    }
  }

  /** The positions of one sign, sorted by specificity and then by writing order. */
  function BySpecificity(terms: seq<Term>, exclude: bool): seq<nat> {
    Positions(terms, exclude, CodeKey, |terms|) + Positions(terms, exclude, FamilyKey, |terms|)
    + Positions(terms, exclude, ClassKey, |terms|)
  }

  function RankAt(terms: seq<Term>, i: nat): nat {
    if i < |terms| then Rank(terms[i].key.kind) else 0
  }

  /** Sorted by specificity, and by writing order among equals: the order a stable sort gives. */
  ghost predicate Sorted(terms: seq<Term>, order: seq<nat>) {
    forall a, b :: 0 <= a < b < |order| ==>
      RankAt(terms, order[a]) < RankAt(terms, order[b])
      || (RankAt(terms, order[a]) == RankAt(terms, order[b]) && order[a] < order[b])
  }

  lemma OrderFacts(terms: seq<Term>, exclude: bool)
    ensures Sorted(terms, BySpecificity(terms, exclude))
    ensures forall i: nat :: i in BySpecificity(terms, exclude) <==> i < |terms| && terms[i].exclude == exclude
  {
    hide Positions, Sorted, RankAt;
    PositionsFacts(terms, exclude, CodeKey, |terms|);
    PositionsFacts(terms, exclude, FamilyKey, |terms|);
    PositionsFacts(terms, exclude, ClassKey, |terms|);
    PositionsSorted(terms, exclude, CodeKey);
    PositionsSorted(terms, exclude, FamilyKey);
    PositionsSorted(terms, exclude, ClassKey);
    var a := Positions(terms, exclude, CodeKey, |terms|);
    var b := Positions(terms, exclude, FamilyKey, |terms|);
    var c := Positions(terms, exclude, ClassKey, |terms|);
    forall i: nat ensures i in a + b + c <==> i < |terms| && terms[i].exclude == exclude {
      if i < |terms| {
        assert terms[i].key.kind == CodeKey || terms[i].key.kind == FamilyKey || terms[i].key.kind == ClassKey;
      }
    }
    SortedAppend(terms, a, b);
    SortedAppend(terms, a + b, c);
  }

  lemma SortedAppend(terms: seq<Term>, a: seq<nat>, b: seq<nat>)
    requires Sorted(terms, a) && Sorted(terms, b)
    requires forall i, j :: i in a && j in b ==> RankAt(terms, i) < RankAt(terms, j)
    ensures Sorted(terms, a + b)
  {
  }

  // ---- One greedy decision ----

  /** The keys of the terms that are still standing, one position aside. */
  ghost function Standing(terms: seq<Term>, order: seq<nat>, noop: seq<Option<Noop>>, i: nat): set<Key>
    requires |noop| == |terms|
  {
    set j | j in order && j < |terms| && j != i && noop[j].None? :: terms[j].key
  }

  /**
   * While narrower keys have been judged and broader ones have not, what the standing
   * terms name decides exactly whether a key is covered.
   */
  lemma GreedyDecides(reg: Registry, keys: set<Key>, within: set<string>, key: Key, standing: set<Key>)
    requires Valid(reg) && AllParsed(reg, keys) && key in keys && standing <= keys - {key}
    requires Inside(reg, within, key) != {}
    requires forall k :: k in keys && Rank(k.kind) > Rank(key.kind) ==> k in standing
    requires forall k :: k in keys && Rank(k.kind) < Rank(key.kind) ==> (k in standing <==> Live(reg, keys, within, k))
    ensures (forall code :: code in Inside(reg, within, key) ==> InSome(reg, standing, code))
      <==> Covered(reg, keys, within, key)
  {
    hide Expand, Parsed, Valid, Live, Covered;
    if Covered(reg, keys, within, key) {
      forall code | code in Inside(reg, within, key) ensures InSome(reg, standing, code) {
        var other := CoveringKey(reg, keys, within, key, code);
        LiveFamilyIsLive(reg, keys, within, other);
        assert other in standing;
      }
    } else {
      var code := LiveKeyUncovered(reg, keys, within, key);
      forall other | other in standing ensures code !in Expand(reg, other) {
        if other.kind == key.kind {
          SameKindApart(reg, key, other);
        } else {
          UncoveredAgainst(reg, keys, within, key, code, other);
        }
      }
    }
  }

  /** A code of the universe that shows an uncovered key to be uncovered. */
  lemma LiveKeyUncovered(reg: Registry, keys: set<Key>, within: set<string>, key: Key) returns (code: string)
    requires Valid(reg) && Parsed(reg, key) && !Covered(reg, keys, within, key)
    requires key.kind == CodeKey ==> Inside(reg, within, key) != {}
    ensures code in Inside(reg, within, key)
    ensures match key.kind
      case CodeKey => !CodeCovered(reg, keys, code)
      case FamilyKey => !InSome(reg, OfKind(keys, ClassKey), code)
      case ClassKey => !exists f :: LiveFamily(reg, keys, within, f) && code in Expand(reg, f)
  {
    hide Expand, Parsed, Valid;
    match key.kind
    case CodeKey =>
      code :| code in Inside(reg, within, key);
      CodeNamesItself(reg, key, code);
    case FamilyKey =>
      code :| code in Inside(reg, within, key) && !InSome(reg, OfKind(keys, ClassKey), code);
    case ClassKey =>
      code :| code in Inside(reg, within, key)
        && !exists f :: LiveFamily(reg, keys, within, f) && code in Expand(reg, f);
  }

  lemma UncoveredAgainst(reg: Registry, keys: set<Key>, within: set<string>, key: Key, code: string, other: Key)
    requires key in keys && other in keys && other.kind != key.kind && code in Inside(reg, within, key)
    requires match key.kind
      case CodeKey => !CodeCovered(reg, keys, code)
      case FamilyKey => !InSome(reg, OfKind(keys, ClassKey), code)
      case ClassKey => !exists f :: LiveFamily(reg, keys, within, f) && code in Expand(reg, f)
    requires Rank(other.kind) < Rank(key.kind) ==> Live(reg, keys, within, other)
    ensures code !in Expand(reg, other)
  {
    hide Expand, CodeCovered;
    if code in Expand(reg, other) {
      if other.kind == CodeKey {
        CodeNamesItself(reg, other, code);
        BroaderCovers(reg, keys, key, code);
      } else if key.kind == CodeKey {
        BroaderCovers(reg, keys, other, code);
      } else {
        NamedByClass(reg, keys, other, code);
      }
    }
  }

  lemma NamedByClass(reg: Registry, keys: set<Key>, key: Key, code: string)
    requires key in keys && code in Expand(reg, key)
    ensures key.kind == ClassKey ==> InSome(reg, OfKind(keys, ClassKey), code)
  {
    hide Expand;
    assert key.kind == ClassKey ==> key in OfKind(keys, ClassKey);
  }

  /** The codes named by the other terms of one sign that are still standing. */
  function NamedByOthers(reg: Registry, terms: seq<Term>, order: seq<nat>, noop: seq<Option<Noop>>, i: nat): set<string>
    requires |noop| == |terms|
  {
    set j, code | j in order && j < |terms| && j != i && noop[j].None? && code in Expand(reg, terms[j].key) :: code
  }

  lemma NamedByStanding(reg: Registry, terms: seq<Term>, order: seq<nat>, noop: seq<Option<Noop>>, i: nat, code: string)
    requires |noop| == |terms|
    ensures code in NamedByOthers(reg, terms, order, noop, i) <==> InSome(reg, Standing(terms, order, noop, i), code)
  {
    hide Expand;
    if InSome(reg, Standing(terms, order, noop, i), code) {
      var k :| k in Standing(terms, order, noop, i) && code in Expand(reg, k);
      var j :| j in order && j < |terms| && j != i && noop[j].None? && terms[j].key == k;
      assert code in Expand(reg, terms[j].key);
    }
    if code in NamedByOthers(reg, terms, order, noop, i) {
      var j :| j in order && j < |terms| && j != i && noop[j].None? && code in Expand(reg, terms[j].key);
      assert terms[j].key in Standing(terms, order, noop, i);
    }
  }

  /** The mark a term of one sign ends up with. */
  ghost function FinalMark(reg: Registry, terms: seq<Term>, within: set<string>, i: nat): Option<Noop>
    requires i < |terms|
  {
    if !First(terms, i) then Some(Repeats)
    else Judged(reg, KeysOf(terms, terms[i].exclude), within, terms[i])
  }

  function RepeatMark(terms: seq<Term>, i: nat): Option<Noop>
    requires i < |terms|
  {
    if First(terms, i) then None else Some(Repeats)
  }

  /** Part of the way through one pass: the narrower terms are settled, the rest only know whether they repeat. */
  ghost predicate Midway(reg: Registry, terms: seq<Term>, order: seq<nat>, within: set<string>,
    noop: seq<Option<Noop>>, p: nat) {
    && |noop| == |terms| && p <= |order|
    && (forall q :: 0 <= q < |order| ==> order[q] < |terms|)
    && (forall q :: 0 <= q < p ==> noop[order[q]] == FinalMark(reg, terms, within, order[q]))
    && (forall q :: p <= q < |order| ==> noop[order[q]] == RepeatMark(terms, order[q]))
  }

  lemma {:induction false} FirstWith(terms: seq<Term>, t: Term, i: nat) returns (j: nat)
    requires i < |terms| && SameTerm(terms[i], t)
    ensures j <= i && SameTerm(terms[j], t) && First(terms, j)
  {
    j := i;
    if !First(terms, i) {
      var k :| 0 <= k < i && SameTerm(terms[k], terms[i]);
      j := FirstWith(terms, t, k);
    }
  }

  lemma FirstsDiffer(terms: seq<Term>, i: nat, j: nat)
    requires i < |terms| && j < |terms| && i != j && First(terms, i) && First(terms, j)
    ensures !SameTerm(terms[i], terms[j])
  {
  }

  /** The position in the pass that first names a key. */
  lemma PlaceOf(terms: seq<Term>, exclude: bool, order: seq<nat>, key: Key) returns (q: nat)
    requires order == BySpecificity(terms, exclude) && key in KeysOf(terms, exclude)
    ensures q < |order| && order[q] < |terms| && First(terms, order[q]) && terms[order[q]].key == key
      && terms[order[q]].exclude == exclude
  {
    hide BySpecificity;
    OrderFacts(terms, exclude);
    var t :| t in terms && t.exclude == exclude && t.key == key;
    var i :| 0 <= i < |terms| && terms[i] == t;
    var j := FirstWith(terms, t, i);
    assert j in order;
    q :| 0 <= q < |order| && order[q] == j;
  }

  lemma OrderedPair(terms: seq<Term>, order: seq<nat>, a: nat, b: nat)
    requires Sorted(terms, order) && a < |order| && b < |order| && RankAt(terms, order[a]) < RankAt(terms, order[b])
    ensures a < b
  {
  }

  lemma DistinctPair(terms: seq<Term>, order: seq<nat>, a: nat, b: nat)
    requires Sorted(terms, order) && a < |order| && b < |order| && a != b
    ensures order[a] != order[b]
  {
  }

  /** What the standing terms are when one term's turn comes. */
  lemma StandingFacts(
    reg: Registry, terms: seq<Term>, exclude: bool, order: seq<nat>, within: set<string>, noop: seq<Option<Noop>>,
    p: nat, k: Key)
    requires Valid(reg) && TermsParsed(reg, terms) && order == BySpecificity(terms, exclude)
    requires !exclude ==> within == Selectable(reg)
    requires Midway(reg, terms, order, within, noop, p) && p < |order| && First(terms, order[p])
    ensures var key := terms[order[p]].key;
      var standing := Standing(terms, order, noop, order[p]);
      && (k in standing ==> k in KeysOf(terms, exclude) && k != key)
      && (k in KeysOf(terms, exclude) && Rank(k.kind) > Rank(key.kind) ==> k in standing)
      && (k in KeysOf(terms, exclude) && Rank(k.kind) < Rank(key.kind) ==>
            (k in standing <==> Live(reg, KeysOf(terms, exclude), within, k)))
  {
    hide BySpecificity, Covered, Inside, Valid, Sorted, First, Parsed;
    OrderFacts(terms, exclude);
    var i := order[p];
    var standing := Standing(terms, order, noop, i);
    assert order[p] in order;
    if k in standing {
      var j :| j in order && j < |terms| && j != i && noop[j].None? && terms[j].key == k;
      StandingIsFirst(reg, terms, order, within, noop, p, j);
      FirstsDiffer(terms, i, j);
      assert terms[j] in terms;
    }
    if k in KeysOf(terms, exclude) && k.kind != terms[i].key.kind {
      var q := PlaceOf(terms, exclude, order, k);
      assert order[q] in order;
      if Rank(k.kind) > Rank(terms[i].key.kind) {
        OrderedPair(terms, order, p, q);
        DistinctPair(terms, order, p, q);
        assert terms[order[q]].key in standing;
      } else {
        OrderedPair(terms, order, q, p);
        DistinctPair(terms, order, p, q);
        LiveIsJudgedLive(reg, terms, exclude, within, order[q]);
        if k in standing {
          var j :| j in order && j < |terms| && j != i && noop[j].None? && terms[j].key == k;
          StandingIsFirst(reg, terms, order, within, noop, p, j);
          if j != order[q] {
            FirstsDiffer(terms, j, order[q]);
          }
        } else {
          assert noop[order[q]].Some?;
        }
      }
    }
  }

  lemma StandingIsFirst(
    reg: Registry, terms: seq<Term>, order: seq<nat>, within: set<string>, noop: seq<Option<Noop>>, p: nat, j: nat)
    requires Midway(reg, terms, order, within, noop, p) && j in order && j < |terms| && noop[j].None?
    ensures First(terms, j)
  {
    hide First, Judged;
    var q :| 0 <= q < |order| && order[q] == j;
  }

  lemma LiveIsJudgedLive(reg: Registry, terms: seq<Term>, exclude: bool, within: set<string>, j: nat)
    requires Valid(reg) && TermsParsed(reg, terms) && j < |terms| && terms[j].exclude == exclude && First(terms, j)
    requires !exclude ==> within == Selectable(reg)
    ensures FinalMark(reg, terms, within, j).None? <==> Live(reg, KeysOf(terms, exclude), within, terms[j].key)
  {
    hide Covered, Valid, Parsed, Expand, First;
    assert terms[j] in terms;
    ExpandsToSomething(reg, terms[j].key);
  }

  /** One turn of the pass: what the standing terms name settles the mark. */
  lemma TurnDecides(
    reg: Registry, terms: seq<Term>, exclude: bool, order: seq<nat>, within: set<string>, noop: seq<Option<Noop>>,
    p: nat)
    requires Valid(reg) && TermsParsed(reg, terms) && order == BySpecificity(terms, exclude)
    requires !exclude ==> within == Selectable(reg)
    requires Midway(reg, terms, order, within, noop, p) && p < |order| && First(terms, order[p])
    requires Inside(reg, within, terms[order[p]].key) != {}
    ensures Inside(reg, within, terms[order[p]].key) <= NamedByOthers(reg, terms, order, noop, order[p])
      <==> Covered(reg, KeysOf(terms, exclude), within, terms[order[p]].key)
  {
    hide BySpecificity, Covered, Inside, Valid, First, Parsed, FinalMark, RepeatMark, NamedByOthers, Live;
    var i := order[p];
    var keys, standing := KeysOf(terms, exclude), Standing(terms, order, noop, i);
    forall k ensures k in standing ==> k in keys && k != terms[i].key
    {
      StandingFacts(reg, terms, exclude, order, within, noop, p, k);
    }
    forall k | k in keys && Rank(k.kind) > Rank(terms[i].key.kind) ensures k in standing {
      StandingFacts(reg, terms, exclude, order, within, noop, p, k);
    }
    forall k | k in keys && Rank(k.kind) < Rank(terms[i].key.kind)
      ensures k in standing <==> Live(reg, keys, within, k)
    {
      StandingFacts(reg, terms, exclude, order, within, noop, p, k);
    }
    OrderFacts(terms, exclude);
    assert order[p] in order;
    KeysParsed(reg, terms, exclude, i);
    GreedyDecides(reg, keys, within, terms[i].key, standing);
    forall code ensures code in NamedByOthers(reg, terms, order, noop, i) <==> InSome(reg, standing, code) {
      NamedByStanding(reg, terms, order, noop, i, code);
    }
  }

  lemma KeysParsed(reg: Registry, terms: seq<Term>, exclude: bool, i: nat)
    requires TermsParsed(reg, terms) && i < |terms| && terms[i].exclude == exclude
    ensures AllParsed(reg, KeysOf(terms, exclude)) && terms[i].key in KeysOf(terms, exclude)
  {
    hide Parsed;
    assert terms[i] in terms;
  }

  // ---- The resolver ----

  /** The mark one turn of the pass leaves on the term whose turn it is. */
  function TurnMark(
    reg: Registry, terms: seq<Term>, exclude: bool, order: seq<nat>, within: set<string>, noop: seq<Option<Noop>>,
    i: nat): Option<Noop>
    requires |noop| == |terms| && i < |terms|
  {
    var inside := Inside(reg, within, terms[i].key);
    if noop[i].Some? then noop[i]
    else if exclude && inside == {} then Some(OutsideSelection)
    else if inside <= NamedByOthers(reg, terms, order, noop, i)
      then Some(if exclude then AlreadyExcluded else AlreadySelected)
    else None
  }

  lemma TurnIsFinal(
    reg: Registry, terms: seq<Term>, exclude: bool, order: seq<nat>, within: set<string>, noop: seq<Option<Noop>>,
    p: nat)
    requires Valid(reg) && TermsParsed(reg, terms) && order == BySpecificity(terms, exclude)
    requires !exclude ==> within == Selectable(reg)
    requires Midway(reg, terms, order, within, noop, p) && p < |order|
    ensures TurnMark(reg, terms, exclude, order, within, noop, order[p]) == FinalMark(reg, terms, within, order[p])
  {
    hide BySpecificity, Covered, Valid, Parsed, NamedByOthers, First, Expand, Inside;
    var i := order[p];
    OrderFacts(terms, exclude);
    assert order[p] in order;
    if First(terms, i) {
      if !exclude {
        assert terms[i] in terms;
        ExpandsToSomething(reg, terms[i].key);
        InsideOfParsed(reg, terms[i].key);
      }
      if Inside(reg, within, terms[i].key) != {} {
        TurnDecides(reg, terms, exclude, order, within, noop, p);
      }
    }
  }

  lemma InsideOfParsed(reg: Registry, key: Key)
    requires Expand(reg, key) != {} && Expand(reg, key) <= Selectable(reg)
    ensures Inside(reg, Selectable(reg), key) != {}
  {
    hide Expand, Selectable;
    assert Inside(reg, Selectable(reg), key) == Expand(reg, key);
  }

  lemma MidwayNext(
    reg: Registry, terms: seq<Term>, exclude: bool, order: seq<nat>, within: set<string>, noop: seq<Option<Noop>>,
    p: nat)
    requires Valid(reg) && TermsParsed(reg, terms) && order == BySpecificity(terms, exclude)
    requires !exclude ==> within == Selectable(reg)
    requires Midway(reg, terms, order, within, noop, p) && p < |order|
    ensures order[p] in order
    ensures Midway(reg, terms, order, within,
      noop[order[p] := TurnMark(reg, terms, exclude, order, within, noop, order[p])], p + 1)
  {
    hide BySpecificity, Valid, TermsParsed, TurnMark, FinalMark, RepeatMark;
    TurnIsFinal(reg, terms, exclude, order, within, noop, p);
    OrderFacts(terms, exclude);
    forall q | 0 <= q < |order| && q != p ensures order[q] != order[p] {
      DistinctPair(terms, order, q, p);
    }
  }

  /** Examine the terms of one sign, most specific first, marking those the standing rest already cover. */
  method MarkCovered(
    reg: Registry, terms: seq<Term>, exclude: bool, order: seq<nat>, within: set<string>, noop: array<Option<Noop>>)
    requires Valid(reg) && TermsParsed(reg, terms) && order == BySpecificity(terms, exclude)
    requires !exclude ==> within == Selectable(reg)
    requires Midway(reg, terms, order, within, noop[..], 0)
    modifies noop
    ensures Midway(reg, terms, order, within, noop[..], |order|)
    ensures forall i :: 0 <= i < noop.Length && i !in order ==> noop[i] == old(noop[i])
  {
    hide Valid, Covered, Inside, Selectable, Expand, TermsParsed, First, BySpecificity, NamedByOthers, FinalMark,
      RepeatMark;
    for p := 0 to |order|
      invariant Midway(reg, terms, order, within, noop[..], p)
      invariant forall i :: 0 <= i < noop.Length && i !in order ==> noop[i] == old(noop[i])
    {
      var i := order[p];
      MidwayNext(reg, terms, exclude, order, within, noop[..], p);
      ghost var next := noop[..][i := TurnMark(reg, terms, exclude, order, within, noop[..], i)];
      if noop[i].Some? {
        assert next == noop[..];
        continue;
      }
      var inside := Inside(reg, within, terms[i].key);
      if exclude && inside == {} {
        noop[i] := Some(OutsideSelection);
      } else if inside <= NamedByOthers(reg, terms, order, noop[..], i) {
        noop[i] := Some(if exclude then AlreadyExcluded else AlreadySelected);
      }
      assert noop[..] == next;
    }
  }

  /** Mark every term that repeats an earlier one of the same sign and key. */
  method MarkRepeats(terms: seq<Term>) returns (noop: array<Option<Noop>>)
    ensures fresh(noop) && noop.Length == |terms|
    ensures forall i :: 0 <= i < |terms| ==> noop[i] == RepeatMark(terms, i)
  {
    noop := new Option<Noop>[|terms|](_ => None);
    var identities: set<(bool, Key)> := {};
    for i := 0 to |terms|
      invariant fresh(noop)
      invariant forall j :: 0 <= j < i ==> noop[j] == RepeatMark(terms, j)
      invariant forall j :: i <= j < |terms| ==> noop[j] == None
      invariant forall id :: id in identities <==> exists j :: 0 <= j < i && id == (terms[j].exclude, terms[j].key)
    {
      var identity := (terms[i].exclude, terms[i].key);
      if identity in identities {
        noop[i] := Some(Repeats);
      }
      identities := identities + {identity};
    }
  }

  /** The keys of the exclusions that still change something, in written order. */
  ghost function LiveExclusions(reg: Registry, terms: seq<Term>, n: nat): seq<Key>
    requires n <= |terms|
  {
    if n == 0 then []
    else
      var last := if terms[n - 1].exclude && Verdict(reg, terms, n - 1).None? then [terms[n - 1].key] else [];
      LiveExclusions(reg, terms, n - 1) + last
  }

  lemma MidwayStarts(reg: Registry, terms: seq<Term>, exclude: bool, within: set<string>, noop: seq<Option<Noop>>)
    requires |noop| == |terms|
    requires forall i: nat :: i < |terms| && terms[i].exclude == exclude ==> noop[i] == RepeatMark(terms, i)
    ensures Midway(reg, terms, BySpecificity(terms, exclude), within, noop, 0)
  {
    hide BySpecificity, RepeatMark;
    OrderFacts(terms, exclude);
    var order := BySpecificity(terms, exclude);
    forall q | 0 <= q < |order| ensures order[q] < |terms| && noop[order[q]] == RepeatMark(terms, order[q]) {
      assert order[q] in order;
    }
  }

  lemma MidwayEnds(reg: Registry, terms: seq<Term>, exclude: bool, noop: seq<Option<Noop>>, i: nat)
    requires i < |terms| && terms[i].exclude == exclude
    requires var order := BySpecificity(terms, exclude);
      Midway(reg, terms, order, Universe(reg, terms, exclude), noop, |order|)
    ensures noop[i] == Verdict(reg, terms, i)
  {
    hide BySpecificity, Judged, First, Universe;
    OrderFacts(terms, exclude);
    var order := BySpecificity(terms, exclude);
    assert i in order;
    var q :| 0 <= q < |order| && order[q] == i;
  }

  /** A lone inclusion is never redundant. */
  lemma LoneInclusionStands(reg: Registry, terms: seq<Term>, i: nat)
    requires Valid(reg) && TermsParsed(reg, terms)
    requires |BySpecificity(terms, false)| <= 1 && i < |terms| && !terms[i].exclude
    ensures Verdict(reg, terms, i) == RepeatMark(terms, i)
  {
    hide BySpecificity, Valid, Parsed, Expand, Selectable;
    OrderFacts(terms, false);
    var order := BySpecificity(terms, false);
    assert i in order;
    assert order == [i];
    var keys := KeysOf(terms, false);
    forall k | k in keys ensures k == terms[i].key {
      var t :| t in terms && !t.exclude && t.key == k;
      var j :| 0 <= j < |terms| && terms[j] == t;
      assert j in order;
    }
    assert terms[i] in terms;
    ExpandsToSomething(reg, terms[i].key);
    InsideOfParsed(reg, terms[i].key);
    if Covered(reg, keys, Selectable(reg), terms[i].key) {
      var code :| code in Inside(reg, Selectable(reg), terms[i].key);
      var other := CoveringKey(reg, keys, Selectable(reg), terms[i].key, code);
    }
  }

  /**
   * Resolve a term list. Every part of the answer is a function of the sets of included
   * and excluded keys, except which of several equal terms is called the repeat.
   */
  method ResolveFindingSelection(reg: Registry, terms: seq<Term>) returns (r: Resolved)
    requires Valid(reg) && TermsParsed(reg, terms)
    ensures r.base == BaseOfTerms(reg, terms)
    ensures r.classes == ClassesOf(reg, r.base) && r.compileSchemas == CompilesFor(reg, r.base)
    ensures |r.reasons| == |terms| && forall i :: 0 <= i < |terms| ==> r.reasons[i] == Verdict(reg, terms, i)
    ensures r.excludeKeys == LiveExclusions(reg, terms, |terms|)
  {
    hide Valid, BySpecificity, Verdict, BaseOf, Selectable, Parsed, KeysOf, FinalMark, RepeatMark, ClassesOf,
      CompilesFor;
    var noop := MarkRepeats(terms);
    var includes := BySpecificity(terms, false);
    var excludes := BySpecificity(terms, true);
    OrderFacts(terms, false);
    OrderFacts(terms, true);
    var base := BaseOf(reg, KeysOf(terms, false));
    if |includes| > 1 {
      MidwayStarts(reg, terms, false, Selectable(reg), noop[..]);
      MarkCovered(reg, terms, false, includes, Selectable(reg), noop);
      forall i: nat | i < |terms| && !terms[i].exclude ensures noop[i] == Verdict(reg, terms, i) {
        MidwayEnds(reg, terms, false, noop[..], i);
      }
    } else {
      forall i: nat | i < |terms| && !terms[i].exclude ensures noop[i] == Verdict(reg, terms, i) {
        LoneInclusionStands(reg, terms, i);
      }
    }
    label Included:
    MidwayStarts(reg, terms, true, base, noop[..]);
    MarkCovered(reg, terms, true, excludes, base, noop);
    forall i: nat | i < |terms| ensures noop[i] == Verdict(reg, terms, i) {
      if terms[i].exclude {
        MidwayEnds(reg, terms, true, noop[..], i);
      } else {
        assert i !in excludes;
      }
    }
    var excludeKeys: seq<Key> := [];
    for i := 0 to |terms|
      invariant excludeKeys == LiveExclusions(reg, terms, i)
    {
      if terms[i].exclude && noop[i].None? {
        excludeKeys := excludeKeys + [terms[i].key];
      }
    }
    r := Resolved(base, ClassesOf(reg, base), CompilesFor(reg, base), excludeKeys, noop[..]);
  }
}

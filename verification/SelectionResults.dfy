/**
 * What the report of no-op terms means: they can all be deleted, what is left is
 * irredundant, and none of it depends on the order the terms were written in.
 */
module SelectionResults {
  import opened Options
  import opened Codes
  import opened FindingKeys
  import opened Selection
  import opened Resolve

  /** The terms the report leaves standing, in written order. */
  ghost function LiveTermsBelow(reg: Registry, terms: seq<Term>, n: nat): seq<Term>
    requires n <= |terms|
  {
    if n == 0 then []
    else
      var last := if Verdict(reg, terms, n - 1).None? then [terms[n - 1]] else [];
      LiveTermsBelow(reg, terms, n - 1) + last
  }

  ghost function LiveTerms(reg: Registry, terms: seq<Term>): seq<Term> {
    LiveTermsBelow(reg, terms, |terms|)
  }

  lemma {:induction false} LiveTermsBelowMember(reg: Registry, terms: seq<Term>, n: nat, t: Term)
    requires n <= |terms|
    ensures t in LiveTermsBelow(reg, terms, n)
      <==> exists i :: 0 <= i < n && Verdict(reg, terms, i).None? && terms[i] == t
  {
    hide Verdict;
    if n > 0 {
      LiveTermsBelowMember(reg, terms, n - 1, t);
    }
  }

  /** The verdict on a first occurrence is the verdict on its key. */
  lemma VerdictIsLive(reg: Registry, terms: seq<Term>, i: nat)
    requires Valid(reg) && TermsParsed(reg, terms) && i < |terms|
    ensures Verdict(reg, terms, i).None?
      <==> First(terms, i) && Live(reg, KeysOf(terms, terms[i].exclude), Universe(reg, terms, terms[i].exclude),
        terms[i].key)
  {
    hide Valid, Parsed, First, BaseOfTerms;
    if First(terms, i) {
      LiveIsJudgedLive(reg, terms, terms[i].exclude, Universe(reg, terms, terms[i].exclude), i);
    }
  }

  /** The keys of the live terms of one sign are the live keys of that sign. */
  lemma LiveTermKeys(reg: Registry, terms: seq<Term>, exclude: bool)
    requires Valid(reg) && TermsParsed(reg, terms)
    ensures KeysOf(LiveTerms(reg, terms), exclude)
      == LiveKeys(reg, KeysOf(terms, exclude), Universe(reg, terms, exclude))
  {
    hide Valid, Parsed, Live, Verdict, Universe, LiveTermsBelow, First;
    var keys, live := KeysOf(terms, exclude), LiveTerms(reg, terms);
    forall k ensures k in KeysOf(live, exclude) <==> k in LiveKeys(reg, keys, Universe(reg, terms, exclude)) {
      if k in KeysOf(live, exclude) {
        var t :| t in live && t.exclude == exclude && t.key == k;
        LiveTermsBelowMember(reg, terms, |terms|, t);
        var i :| 0 <= i < |terms| && Verdict(reg, terms, i).None? && terms[i] == t;
        VerdictIsLive(reg, terms, i);
        assert terms[i] in terms;
      }
      if k in LiveKeys(reg, keys, Universe(reg, terms, exclude)) {
        var t :| t in terms && t.exclude == exclude && t.key == k;
        var i :| 0 <= i < |terms| && terms[i] == t;
        var j := FirstWith(terms, t, i);
        VerdictIsLive(reg, terms, j);
        LiveTermsBelowMember(reg, terms, |terms|, terms[j]);
        assert terms[j] in live;
      }
    }
  }

  lemma AllKeysParsed(reg: Registry, terms: seq<Term>, exclude: bool)
    requires TermsParsed(reg, terms)
    ensures AllParsed(reg, KeysOf(terms, exclude))
  {
    hide Parsed;
  }

  lemma LiveTermsParsed(reg: Registry, terms: seq<Term>)
    requires TermsParsed(reg, terms)
    ensures TermsParsed(reg, LiveTerms(reg, terms))
  {
    hide Parsed, Verdict, LiveTermsBelow;
    forall t | t in LiveTerms(reg, terms) ensures Parsed(reg, t.key) {
      LiveTermsBelowMember(reg, terms, |terms|, t);
    }
  }

  /** The live keys of a set name together what all of it names inside the universe. */
  lemma LiveUnion(reg: Registry, keys: set<Key>, within: set<string>)
    requires Valid(reg) && AllParsed(reg, keys)
    ensures Union(reg, LiveKeys(reg, keys, within)) * within == Union(reg, keys) * within
  {
    hide Valid, Parsed, Expand, Live;
    forall code | code in Union(reg, keys) * within ensures code in Union(reg, LiveKeys(reg, keys, within)) {
      var k :| k in keys && code in Expand(reg, k);
      var live := LiveKeysCover(reg, keys, within, k, code);
      LiveMember(reg, keys, within, live);
      assert live in LiveKeys(reg, keys, within);
    }
  }

  lemma LiveMember(reg: Registry, keys: set<Key>, within: set<string>, key: Key)
    requires Live(reg, keys, within, key)
    ensures key in keys
  {
  }

  lemma UnionSelectable(reg: Registry, keys: set<Key>)
    requires Valid(reg) && AllParsed(reg, keys)
    ensures Union(reg, keys) <= Selectable(reg)
    ensures keys != {} ==> Union(reg, keys) != {}
  {
    hide Valid, Parsed, Expand, Selectable;
    forall k | k in keys ensures Expand(reg, k) != {} && Expand(reg, k) <= Selectable(reg) {
      ExpandsToSomething(reg, k);
    }
    if k :| k in keys {
      var code :| code in Expand(reg, k);
      assert code in Union(reg, keys);
    }
  }

  /** Dropping the redundant inclusions leaves the base as it was. */
  lemma LiveBase(reg: Registry, terms: seq<Term>)
    requires Valid(reg) && TermsParsed(reg, terms)
    ensures BaseOfTerms(reg, LiveTerms(reg, terms)) == BaseOfTerms(reg, terms)
  {
    hide Valid, Parsed, Selectable, KeysOf, Union, LiveTerms, LiveKeys;
    var keys := KeysOf(terms, false);
    LiveTermKeys(reg, terms, false);
    AllKeysParsed(reg, terms, false);
    LiveUnion(reg, keys, Selectable(reg));
    UnionSelectable(reg, keys);
    LiveKeysParsed(reg, keys, Selectable(reg));
    var left := LiveKeys(reg, keys, Selectable(reg));
    UnionSelectable(reg, left);
    assert Union(reg, left) * Selectable(reg) == Union(reg, left);
    assert Union(reg, keys) * Selectable(reg) == Union(reg, keys);
    if left == {} {
      UnionOfNone(reg);
    }
  }

  lemma UnionOfNone(reg: Registry)
    ensures Union(reg, {}) == {}
  {
  }

  lemma LiveKeysParsed(reg: Registry, keys: set<Key>, within: set<string>)
    requires AllParsed(reg, keys)
    ensures AllParsed(reg, LiveKeys(reg, keys, within)) && LiveKeys(reg, keys, within) <= keys
  {
    hide Parsed, Live;
  }

  /** The codes of the base that the exclusions take out. */
  function ExcludedInBase(reg: Registry, terms: seq<Term>): set<string> {
    Union(reg, KeysOf(terms, true)) * BaseOfTerms(reg, terms)
  }

  /**
   * Every no-op term can be deleted at once: what runs and what is withheld stay the same,
   * and the terms left over resolve with no no-op among them.
   */
  lemma NoopsCanBeDeleted(reg: Registry, terms: seq<Term>)
    requires Valid(reg) && TermsParsed(reg, terms)
    ensures var live := LiveTerms(reg, terms);
      && TermsParsed(reg, live)
      && BaseOfTerms(reg, live) == BaseOfTerms(reg, terms)
      && ClassesOf(reg, BaseOfTerms(reg, live)) == ClassesOf(reg, BaseOfTerms(reg, terms))
      && CompilesFor(reg, BaseOfTerms(reg, live)) == CompilesFor(reg, BaseOfTerms(reg, terms))
      && ExcludedInBase(reg, live) == ExcludedInBase(reg, terms)
      && forall i :: 0 <= i < |live| ==> Verdict(reg, live, i) == None
  {
    hide Valid, Parsed, KeysOf, Union, LiveTerms, LiveKeys, Verdict, BaseOf, ClassesOf, CompilesFor;
    var live := LiveTerms(reg, terms);
    LiveTermsParsed(reg, terms);
    LiveBase(reg, terms);
    LiveTermKeys(reg, terms, true);
    AllKeysParsed(reg, terms, true);
    LiveUnion(reg, KeysOf(terms, true), BaseOfTerms(reg, terms));
    forall i | 0 <= i < |live| ensures Verdict(reg, live, i) == None {
      LiveTermStaysLive(reg, terms, i);
    }
  }

  /** A term list with no two terms of the same sign and key. */
  predicate NoRepeats(terms: seq<Term>) {
    forall i :: 0 <= i < |terms| ==> First(terms, i)
  }

  lemma NoRepeatsSnoc(front: seq<Term>, t: Term)
    requires NoRepeats(front) && forall j :: 0 <= j < |front| ==> !SameTerm(front[j], t)
    ensures NoRepeats(front + [t])
  {
    hide SameTerm;
    var all := front + [t];
    forall i | 0 <= i < |all| ensures First(all, i) {
      if i < |front| {
        assert First(front, i);
      }
    }
  }

  lemma {:induction false} LiveTermsDiffer(reg: Registry, terms: seq<Term>, n: nat)
    requires n <= |terms|
    ensures NoRepeats(LiveTermsBelow(reg, terms, n))
  {
    hide Judged, Universe;
    if n > 0 {
      LiveTermsDiffer(reg, terms, n - 1);
      var front := LiveTermsBelow(reg, terms, n - 1);
      if Verdict(reg, terms, n - 1).None? {
        forall j | 0 <= j < |front| ensures !SameTerm(front[j], terms[n - 1]) {
          LiveTermsBelowMember(reg, terms, n - 1, front[j]);
          assert front[j] in front;
        }
        NoRepeatsSnoc(front, terms[n - 1]);
      } else {
        assert LiveTermsBelow(reg, terms, n) == front;
      }
    }
  }

  lemma LiveTermStaysLive(reg: Registry, terms: seq<Term>, i: nat)
    requires Valid(reg) && TermsParsed(reg, terms) && i < |LiveTerms(reg, terms)|
    ensures Verdict(reg, LiveTerms(reg, terms), i) == None
  {
    hide Valid, Parsed, LiveTermsBelow, Verdict, BaseOfTerms, First, Live;
    var live := LiveTerms(reg, terms);
    var exclude := live[i].exclude;
    var within := Universe(reg, terms, exclude);
    LiveTermsParsed(reg, terms);
    LiveBase(reg, terms);
    LiveTermKeys(reg, terms, exclude);
    AllKeysParsed(reg, terms, exclude);
    LiveKeysStayLive(reg, KeysOf(terms, exclude), within);
    LiveTermsDiffer(reg, terms, |terms|);
    assert live[i] in live;
    assert live[i].key in KeysOf(live, exclude);
    VerdictIsLive(reg, live, i);
  }

  /** Another live term of the same sign. */
  ghost predicate StandsBeside(reg: Registry, terms: seq<Term>, i: nat, j: nat)
    requires i < |terms| && j < |terms|
  {
    j != i && terms[j].exclude == terms[i].exclude && Verdict(reg, terms, j).None?
  }

  /** Each live term names a code of its universe that no other live term of its sign names. */
  lemma LiveTermsAreNeeded(reg: Registry, terms: seq<Term>, i: nat) returns (code: string)
    requires Valid(reg) && TermsParsed(reg, terms) && i < |terms| && Verdict(reg, terms, i).None?
    ensures code in Expand(reg, terms[i].key) && code in BaseOfTerms(reg, terms)
    ensures forall j :: 0 <= j < |terms| && StandsBeside(reg, terms, i, j) ==> code !in Expand(reg, terms[j].key)
  {
    hide Valid, Parsed, Verdict, First, Live, Expand, Selectable;
    var exclude := terms[i].exclude;
    var keys, within := KeysOf(terms, exclude), Universe(reg, terms, exclude);
    AllKeysParsed(reg, terms, exclude);
    VerdictIsLive(reg, terms, i);
    code := LiveKeyIsNeeded(reg, keys, within, terms[i].key);
    if !exclude {
      assert terms[i] in terms;
      assert terms[i].key in KeysOf(terms, false);
      assert code in Union(reg, KeysOf(terms, false));
    }
    forall j | 0 <= j < |terms| && StandsBeside(reg, terms, i, j)
      ensures code !in Expand(reg, terms[j].key)
    {
      VerdictIsLive(reg, terms, j);
      FirstsDiffer(terms, i, j);
    }
  }

  /**
   * Order never matters: two lists with the same signed keys have the same base, run the
   * same passes, and leave the same inclusion and exclusion keys standing.
   */
  lemma OrderNeverMatters(reg: Registry, a: seq<Term>, b: seq<Term>)
    requires Valid(reg) && TermsParsed(reg, a) && TermsParsed(reg, b)
    requires KeysOf(a, false) == KeysOf(b, false) && KeysOf(a, true) == KeysOf(b, true)
    ensures BaseOfTerms(reg, a) == BaseOfTerms(reg, b)
    ensures forall exclude :: KeysOf(LiveTerms(reg, a), exclude) == KeysOf(LiveTerms(reg, b), exclude)
  {
    hide Valid, Parsed, KeysOf, LiveTerms, LiveKeys, BaseOf;
    forall exclude ensures KeysOf(LiveTerms(reg, a), exclude) == KeysOf(LiveTerms(reg, b), exclude) {
      LiveTermKeys(reg, a, exclude);
      LiveTermKeys(reg, b, exclude);
      assert KeysOf(a, exclude) == KeysOf(b, exclude) by {
        if exclude {
        } else {
        }
      }
    }
  }

  /** In particular, however the terms are permuted. */
  lemma PermutationsResolveAlike(reg: Registry, a: seq<Term>, b: seq<Term>)
    requires Valid(reg) && TermsParsed(reg, a) && multiset(a) == multiset(b)
    ensures BaseOfTerms(reg, a) == BaseOfTerms(reg, b)
    ensures forall exclude :: KeysOf(LiveTerms(reg, a), exclude) == KeysOf(LiveTerms(reg, b), exclude)
  {
    hide Valid, Parsed, LiveTerms, BaseOfTerms;
    forall t | t in b ensures t in a {
      assert t in multiset(b);
    }
    PermutationsShareKeys(a, b, false);
    PermutationsShareKeys(a, b, true);
    OrderNeverMatters(reg, a, b);
  }

  lemma PermutationsShareKeys(a: seq<Term>, b: seq<Term>, exclude: bool)
    requires multiset(a) == multiset(b)
    ensures KeysOf(a, exclude) == KeysOf(b, exclude)
  {
    forall t ensures t in a <==> t in b {
      assert t in a <==> t in multiset(a);
      assert t in b <==> t in multiset(b);
    }
  }
}

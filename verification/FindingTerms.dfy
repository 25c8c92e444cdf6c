/**
 * The `--findings` value as text: a comma-separated list of keys, each optionally subtracted.
 */
module FindingTerms {
  import opened Options
  import opened Text
  import opened Codes
  import opened FindingKeys
  import opened Selection
  import opened Resolve
  import opened SelectionResults

  /** One trimmed entry; the malformed class and its code can be named in neither sign. */
  function ParseTerm(reg: Registry, text: string): Option<Term>
    requires text != ""
  {
    var exclude := text[0] == '-';
    var bare := if exclude then text[1..] else text;
    if bare == "malformed" || bare == "malformed-schema" then None
    else match ParseKey(reg, bare)
      case None => None
      case Some(key) => Some(Term(text, exclude, key))
  }

  /** The terms of some entries; blank entries are skipped, and one refused entry refuses them all. */
  function ParseEntries(reg: Registry, entries: seq<string>): Option<seq<Term>> {
    if entries == [] then Some([])
    else
      var text := Trim(entries[0]);
      if text == "" then ParseEntries(reg, entries[1..])
      else
        match (ParseTerm(reg, text), ParseEntries(reg, entries[1..]))
        case (Some(term), Some(terms)) => Some([term] + terms)
        case _ => None
  }

  /** An empty value, or one of nothing but separators, is refused. */
  function ParseTerms(reg: Registry, value: string): Option<seq<Term>> {
    if Trim(value) == "" then None
    else match ParseEntries(reg, Split(value, ','))
      case Some(terms) => if terms == [] then None else Some(terms)
      case None => None
  }

  function After(terms: seq<Term>, rest: Option<seq<Term>>): Option<seq<Term>> {
    match rest case None => None case Some(more) => Some(terms + more)
  }

  method ParseFindingTerms(reg: Registry, value: string) returns (r: Option<seq<Term>>)
    ensures r == ParseTerms(reg, value)
  {
    hide ParseTerm, ParseKey;
    if Trim(value) == "" {
      return None;
    }
    var entries := Split(value, ',');
    var terms: seq<Term> := [];
    assert entries[0..] == entries;
    assert forall rest: seq<Term> :: [] + rest == rest;
    for i := 0 to |entries|
      invariant ParseEntries(reg, entries) == After(terms, ParseEntries(reg, entries[i..]))
    {
      assert entries[i..][0] == entries[i] && entries[i..][1..] == entries[i + 1..];
      var text := Trim(entries[i]);
      if text == "" {
        continue;
      }
      var term := ParseTerm(reg, text);
      if term.None? {
        return None;
      }
      ghost var rest := ParseEntries(reg, entries[i + 1..]);
      assert rest.Some? ==> terms + ([term.value] + rest.value) == (terms + [term.value]) + rest.value;
      terms := terms + [term.value];
    }
    assert terms + [] == terms;
    return if terms == [] then None else Some(terms);
  }

  /**
   * A term is the entry, subtracted if it begins with a dash, and names what the rest reads as;
   * malformed schemas cannot be.
   */
  lemma TermReadExactly(reg: Registry, text: string, t: Term)
    requires text != ""
    ensures var bare := if text[0] == '-' then text[1..] else text;
      ParseTerm(reg, text) == Some(t) <==>
        && t.text == text && (t.exclude <==> text[0] == '-') && ParseKey(reg, bare) == Some(t.key)
        && bare != "malformed" && bare != "malformed-schema"
  {
    hide ParseKey;
  }

  predicate IsBlank(entry: string) {
    Trim(entry) == ""
  }

  /** An entry that is refused. */
  predicate IsRefused(reg: Registry, entry: string) {
    !IsBlank(entry) && ParseTerm(reg, Trim(entry)).None?
  }

  predicate AnyRefused(reg: Registry, entries: seq<string>) {
    exists k :: 0 <= k < |entries| && IsRefused(reg, entries[k])
  }

  predicate AllAreBlank(entries: seq<string>) {
    forall k :: 0 <= k < |entries| ==> IsBlank(entries[k])
  }

  /** The entries that are not blank, in order. */
  function Nonblank(entries: seq<string>): seq<string> {
    if entries == [] then [] else (if IsBlank(entries[0]) then [] else [entries[0]]) + Nonblank(entries[1..])
  }

  lemma {:induction false} NonblankPicks(entries: seq<string>) returns (at: seq<nat>)
    ensures Picks(Nonblank(entries), entries, at)
    ensures forall k: nat :: k < |entries| ==> (k in at <==> Trim(entries[k]) != "")
    decreases |entries|
  {
    hide Trim;
    if entries == [] {
      at := [];
    } else {
      var rest := NonblankPicks(entries[1..]);
      hide Picks, InFront;
      at := InFront(!IsBlank(entries[0]), rest);
      PicksInFront(Nonblank(entries[1..]), entries, rest, !IsBlank(entries[0]));
      forall k: nat | k < |entries| ensures k in at <==> !IsBlank(entries[k]) {
        InFrontMember(!IsBlank(entries[0]), rest, k);
      }
    }
  }

  /** The entries are read as one term each, in order, blank ones left out; one refused entry refuses all. */
  lemma {:induction false} EntriesReadExactly(reg: Registry, entries: seq<string>)
    ensures ParseEntries(reg, entries).None? <==> AnyRefused(reg, entries)
    ensures ParseEntries(reg, entries).Some? ==>
      var terms, kept := ParseEntries(reg, entries).value, Nonblank(entries);
      |terms| == |kept| && forall k :: 0 <= k < |kept| ==> ReadsAs(reg, kept[k], terms[k])
    decreases |entries|
  {
    hide ParseTerm, Trim;
    if entries != [] {
      EntriesReadExactly(reg, entries[1..]);
      RefusedLater(reg, entries);
    }
  }

  predicate ReadsAs(reg: Registry, entry: string, t: Term) {
    !IsBlank(entry) && ParseTerm(reg, Trim(entry)) == Some(t)
  }

  lemma RefusedLater(reg: Registry, entries: seq<string>)
    requires entries != []
    ensures AnyRefused(reg, entries) <==> IsRefused(reg, entries[0]) || AnyRefused(reg, entries[1..])
  {
    hide IsRefused;
    if k :| 0 <= k < |entries| && IsRefused(reg, entries[k]) {
      assert k > 0 ==> entries[1..][k - 1] == entries[k];
    }
    if k :| 0 <= k < |entries[1..]| && IsRefused(reg, entries[1..][k]) {
      assert entries[k + 1] == entries[1..][k];
    }
  }

  /** A value is refused exactly when some entry of it is, or all of its entries are blank. */
  lemma ValueRefusedExactly(reg: Registry, value: string)
    ensures ParseTerms(reg, value).None? <==>
      AnyRefused(reg, Split(value, ',')) || AllAreBlank(Split(value, ','))
    ensures ParseTerms(reg, value).Some? ==> ParseTerms(reg, value) == ParseEntries(reg, Split(value, ','))
  {
    hide ParseTerm, Trim, Split;
    var entries := Split(value, ',');
    EntriesReadExactly(reg, entries);
    AllBlank(entries);
    if Trim(value) == "" {
      BlankValue(value);
    }
  }

  lemma {:induction false} AllBlank(entries: seq<string>)
    ensures Nonblank(entries) == [] <==> AllAreBlank(entries)
    decreases |entries|
  {
    hide IsBlank;
    if entries != [] {
      AllBlank(entries[1..]);
      if AllAreBlank(entries) {
        assert forall k :: 0 <= k < |entries[1..]| ==> entries[1..][k] == entries[k + 1];
      }
      assert forall k :: 0 < k < |entries| ==> entries[k] == entries[1..][k - 1];
    }
  }

  /** A blank value has one entry, which is blank. */
  lemma BlankValue(value: string)
    requires Trim(value) == ""
    ensures Split(value, ',') == [value]
  {
    AllSpace(value);
    SplitFirst(value, "", ',');
  }

  lemma AllSpace(s: string)
    requires Trim(s) == ""
    ensures ',' !in s
  {
    if i :| 0 <= i < |s| && s[i] == ',' {
      CommaStays(s, i);
    }
  }

  lemma {:induction false} CommaStays(s: string, i: nat)
    requires i < |s| && s[i] == ','
    ensures Trim(s) != ""
    decreases |s|
  {
    if IsSpace(s[0]) {
      CommaStays(s[1..], i - 1);
    } else {
      assert TrimStart(s) == s;
      CommaEnds(s, i);
    }
  }

  lemma {:induction false} CommaEnds(s: string, i: nat)
    requires i < |s| && s[i] == ','
    ensures TrimEnd(s) != ""
    decreases |s|
  {
    if IsSpace(s[|s| - 1]) {
      CommaEnds(s[..|s| - 1], i);
    }
  }

  /** A term as the parser produces it. */
  ghost predicate AsWritten(reg: Registry, t: Term) {
    t.text != "" && Trimmed(t.text) && ',' !in t.text && ParseTerm(reg, t.text) == Some(t)
  }

  ghost predicate AllAsWritten(reg: Registry, terms: seq<Term>) {
    forall t :: t in terms ==> AsWritten(reg, t)
  }

  lemma {:induction false} EntriesAsWritten(reg: Registry, entries: seq<string>)
    requires ParseEntries(reg, entries).Some? && forall e :: e in entries ==> ',' !in e
    ensures AllAsWritten(reg, ParseEntries(reg, entries).value)
  {
    hide ParseTerm;
    if entries != [] {
      EntriesAsWritten(reg, entries[1..]);
      TrimIsTrimmed(entries[0]);
      var text := Trim(entries[0]);
      if text != "" {
        ParsedTextIsKept(reg, text);
        assert ',' !in entries[0];
      }
    }
  }

  lemma ParsedTextIsKept(reg: Registry, text: string)
    requires text != ""
    ensures ParseTerm(reg, text).Some? ==> ParseTerm(reg, text).value.text == text
  {
  }

  /** A vocabulary whose only malformed code is the one the parser refuses by name. */
  ghost predicate RefusesMalformed(reg: Registry) {
    forall code :: code in CodesOf(reg, "malformed") ==> code == "malformed-schema"
  }

  /** Everything the parser accepts names something selectable; there is always at least one term. */
  lemma ParsedTermsName(reg: Registry, value: string)
    requires Valid(reg) && RefusesMalformed(reg) && ParseTerms(reg, value).Some?
    ensures var terms := ParseTerms(reg, value).value;
      terms != [] && TermsParsed(reg, terms) && AllAsWritten(reg, terms)
  {
    hide ParseTerm, Parsed, Valid, CodesOf;
    SplitPieces(value, ',');
    EntriesAsWritten(reg, Split(value, ','));
    var terms := ParseTerms(reg, value).value;
    forall t | t in terms ensures Parsed(reg, t.key) {
      WrittenTermIsParsed(reg, t);
    }
  }

  lemma WrittenTermIsParsed(reg: Registry, t: Term)
    requires Valid(reg) && RefusesMalformed(reg) && AsWritten(reg, t)
    ensures Parsed(reg, t.key)
  {
    hide ParseKey, Parsed, Valid, CodesOf;
    var bare := if t.text[0] == '-' then t.text[1..] else t.text;
    assert bare !in CodesOf(reg, "malformed");
    ParsedKeysName(reg, bare);
  }

  function Texts(terms: seq<Term>): (texts: seq<string>)
    ensures |texts| == |terms|
    ensures forall i :: 0 <= i < |terms| ==> texts[i] == terms[i].text
  {
    if terms == [] then [] else [terms[0].text] + Texts(terms[1..])
  }

  lemma {:induction false} TextsReadBack(reg: Registry, terms: seq<Term>)
    requires AllAsWritten(reg, terms)
    ensures ParseEntries(reg, Texts(terms)) == Some(terms)
  {
    hide ParseTerm;
    if terms != [] {
      assert terms[0] in terms;
      TrimmedStays(terms[0].text);
      TextsReadBack(reg, terms[1..]);
      assert [terms[0]] + terms[1..] == terms;
    }
  }

  lemma {:induction false} JoinIsNotBlank(texts: seq<string>, sep: char)
    requires texts != [] && texts[0] != "" && Trimmed(texts[0])
    ensures Trim(Join(texts, sep)) != ""
  {
    var s := Join(texts, sep);
    assert s[0] == texts[0][0];
    TrimStartIsSuffix(s);
    assert TrimStart(s) == s;
    NonBlankStartStays(s);
  }

  lemma {:induction false} NonBlankStartStays(s: string)
    requires s != "" && !IsSpace(s[0])
    ensures TrimEnd(s) != ""
    decreases |s|
  {
    if IsSpace(s[|s| - 1]) {
      NonBlankStartStays(s[..|s| - 1]);
    }
  }

  /** Writing parsed terms out again and reading them gives the same terms. */
  lemma TermsReadBack(reg: Registry, terms: seq<Term>)
    requires terms != [] && AllAsWritten(reg, terms)
    ensures ParseTerms(reg, Join(Texts(terms), ',')) == Some(terms)
  {
    hide ParseTerm, ParseEntries;
    var texts := Texts(terms);
    forall text | text in texts ensures ',' !in text {
      var i :| 0 <= i < |texts| && texts[i] == text;
      assert terms[i] in terms;
    }
    assert terms[0] in terms;
    SplitJoin(texts, ',');
    TextsReadBack(reg, terms);
    JoinIsNotBlank(texts, ',');
  }

  lemma SomeTermIsLive(reg: Registry, terms: seq<Term>)
    requires Valid(reg) && TermsParsed(reg, terms) && terms != []
    ensures LiveTerms(reg, terms) != []
  {
    hide Valid, Parsed, Expand, LiveTerms, LiveKeys, Live, Universe, Selectable, Union;
    var t := terms[0];
    assert t in terms;
    ExpandsToSomething(reg, t.key);
    if !t.exclude {
      SomeKeyIsLive(reg, terms, false, t.key);
    } else if KeysOf(terms, false) != {} {
      var k :| k in KeysOf(terms, false);
      SomeKeyIsLive(reg, terms, false, k);
    } else {
      SomeKeyIsLive(reg, terms, true, t.key);
    }
  }

  lemma SomeKeyIsLive(reg: Registry, terms: seq<Term>, exclude: bool, key: Key)
    requires Valid(reg) && TermsParsed(reg, terms) && key in KeysOf(terms, exclude)
    requires exclude ==> KeysOf(terms, false) == {}
    ensures LiveTerms(reg, terms) != []
  {
    hide Valid, Parsed, Expand, LiveTerms, Live, Selectable;
    var within := Universe(reg, terms, exclude);
    assert within == Selectable(reg);
    ExpandsToSomething(reg, key);
    InsideOfParsed(reg, key);
    var code :| code in Inside(reg, within, key);
    var live := LiveKeysCover(reg, KeysOf(terms, exclude), within, key, code);
    LiveMember(reg, KeysOf(terms, exclude), within, live);
    LiveTermKeys(reg, terms, exclude);
    assert live in KeysOf(LiveTerms(reg, terms), exclude);
  }

  /**
   * The command can be rewritten without the terms reported as no-ops: what is left reads
   * back as exactly the live terms, selects and withholds the same, and reports no no-op.
   */
  lemma FlagCanBeRewritten(reg: Registry, value: string)
    requires Valid(reg) && RefusesMalformed(reg) && ParseTerms(reg, value).Some?
    ensures var terms := ParseTerms(reg, value).value;
      var live := LiveTerms(reg, terms);
      && ParseTerms(reg, Join(Texts(live), ',')) == Some(live)
      && BaseOfTerms(reg, live) == BaseOfTerms(reg, terms)
      && ExcludedInBase(reg, live) == ExcludedInBase(reg, terms)
      && forall i :: 0 <= i < |live| ==> Verdict(reg, live, i) == None
  {
    hide Valid, ParseTerms, LiveTermsBelow, Verdict, AsWritten, BaseOfTerms, ExcludedInBase, Parsed;
    var terms := ParseTerms(reg, value).value;
    ParsedTermsName(reg, value);
    NoopsCanBeDeleted(reg, terms);
    SomeTermIsLive(reg, terms);
    forall t | t in LiveTerms(reg, terms) ensures AsWritten(reg, t) {
      LiveTermsBelowMember(reg, terms, |terms|, t);
    }
    TermsReadBack(reg, LiveTerms(reg, terms));
  }
}

/**
 * Finding the JSON value in a tool's output without parsing it.
 *
 * The scanner counts one kind of bracket only, the kind the value opens with.
 * Against JSON text that is enough.
 */
module JsonExtent {
  import opened Options

  // ---- JSON text (RFC 8259), white space included ----

  /** One unit of a string body: a character as it stands, or a backslash and the character after it. */
  datatype Unit = Plain(c: char) | Escaped(c: char)

  datatype Json =
    | Atom(text: string)
    | Str(body: seq<Unit>)
    | Arr(blank: string, elements: seq<Element>)
    | Obj(blank: string, members: seq<Member>)

  datatype Element = Element(before: string, value: Json, after: string)

  datatype Member = Member(before: string, name: seq<Unit>, beforeColon: string, afterColon: string, value: Json,
    after: string)

  predicate IsBlank(s: string) {
    forall c :: c in s ==> c == ' ' || c == '\t' || c == '\n' || c == '\r'
  }

  /** Numbers and the three literal names: no quote, no bracket, no brace. */
  predicate IsAtom(s: string) {
    forall c :: c in s ==> c != '"' && c != '[' && c != ']' && c != '{' && c != '}'
  }

  predicate IsBody(body: seq<Unit>) {
    forall u :: u in body && u.Plain? ==> u.c != '"' && u.c != '\\'
  }

  predicate IsJson(j: Json) {
    match j
    case Atom(text) => IsAtom(text)
    case Str(body) => IsBody(body)
    case Arr(blank, elements) => IsBlank(blank) && AreElements(elements)
    case Obj(blank, members) => IsBlank(blank) && AreMembers(members)
  }

  predicate AreElements(es: seq<Element>) {
    es == [] || (IsBlank(es[0].before) && IsJson(es[0].value) && IsBlank(es[0].after) && AreElements(es[1..]))
  }

  predicate AreMembers(ms: seq<Member>) {
    ms == [] ||
    (IsBlank(ms[0].before) && IsBody(ms[0].name) && IsBlank(ms[0].beforeColon) && IsBlank(ms[0].afterColon)
     && IsJson(ms[0].value) && IsBlank(ms[0].after) && AreMembers(ms[1..]))
  }

  function UnitText(u: Unit): string {
    match u case Plain(c) => [c] case Escaped(c) => ['\\', c]
  }

  function BodyText(body: seq<Unit>): string {
    if body == [] then "" else UnitText(body[0]) + BodyText(body[1..])
  }

  function Quoted(body: seq<Unit>): string {
    ['"'] + (BodyText(body) + ['"'])
  }

  /** The text of a value. */
  function Text(j: Json): string
    decreases j, 1
  {
    match j
    case Atom(text) => text
    case Str(body) => Quoted(body)
    case Arr(blank, elements) => ['['] + (Inside(j) + [']'])
    case Obj(blank, members) => ['{'] + (Inside(j) + ['}'])
  }

  /** What stands between a value's own brackets. */
  function Inside(j: Json): string
    decreases j, 0
  {
    match j
    case Arr(blank, elements) => if elements == [] then blank else ElementsText(elements)
    case Obj(blank, members) => if members == [] then blank else MembersText(members)
    case _ => ""
  }

  function ElementText(e: Element): string {
    e.before + (Text(e.value) + e.after)
  }

  function ElementsText(es: seq<Element>): string
    requires es != []
  {
    if |es| == 1 then ElementText(es[0]) else ElementText(es[0]) + ([','] + ElementsText(es[1..]))
  }

  function MemberText(m: Member): string {
    m.before + (Quoted(m.name) + (m.beforeColon + ([':'] + (m.afterColon + (Text(m.value) + m.after)))))
  }

  function MembersText(ms: seq<Member>): string
    requires ms != []
  {
    if |ms| == 1 then MemberText(ms[0]) else MemberText(ms[0]) + ([','] + MembersText(ms[1..]))
  }

  // ---- The scanner ----

  datatype Bracket = Square | Curly {
    function Open(): char { if Square? then '[' else '{' }
    function Close(): char { if Square? then ']' else '}' }
  }

  datatype State = State(depth: int, inString: bool, escaped: bool)

  function Step(b: Bracket, s: State, c: char): State {
    if s.inString then
      if s.escaped then s.(escaped := false)
      else if c == '\\' then s.(escaped := true)
      else if c == '"' then s.(inString := false)
      else s
    else if c == '"' then s.(inString := true)
    else if c == b.Open() then s.(depth := s.depth + 1)
    else if c == b.Close() then s.(depth := s.depth - 1)
    else s
  }

  /** The value ends where a closing bracket outside strings brings the depth back to nothing. */
  predicate Ends(b: Bracket, s: State, c: char) {
    !s.inString && c == b.Close() && s.depth == 1
  }

  /** How far the scan runs before the value ends, if it does. */
  function Scan(b: Bracket, s: State, text: string): Option<nat>
    decreases |text|
  {
    if text == "" then None
    else if Ends(b, s, text[0]) then Some(1)
    else match Scan(b, Step(b, s, text[0]), text[1..])
      case None => None
      case Some(n) => Some(n + 1)
  }

  predicate IsOpening(c: char) {
    c == '[' || c == '{'
  }

  /** The first opening bracket of either kind, or the length. */
  function StartOf(text: string): (i: nat)
    ensures i <= |text|
    ensures i < |text| ==> IsOpening(text[i])
    ensures forall k :: 0 <= k < i ==> !IsOpening(text[k])
  {
    if text == "" || IsOpening(text[0]) then 0 else 1 + StartOf(text[1..])
  }

  datatype Extent = Extent(start: nat, end: nat)

  /** The slice of the text the scanner takes for the value. */
  function ExtentOf(text: string): Option<Extent> {
    var start := StartOf(text);
    if start == |text| then None
    else
      var b := if text[start] == '[' then Square else Curly;
      match Scan(b, State(0, false, false), text[start..])
      case None => None
      case Some(n) => Some(Extent(start, start + n))
  }

  lemma {:induction false} ScanWithin(b: Bracket, s: State, text: string)
    ensures Scan(b, s, text).Some? ==> Scan(b, s, text).value <= |text|
    decreases |text|
  {
    if text != "" && !Ends(b, s, text[0]) {
      ScanWithin(b, Step(b, s, text[0]), text[1..]);
    }
  }

  lemma ScanNothing(b: Bracket, s: State)
    ensures Scan(b, s, "") == None
  {
  }

  lemma ScanStep(b: Bracket, s: State, text: string, i: nat)
    requires i < |text|
    ensures Scan(b, s, text[i..])
         == if Ends(b, s, text[i]) then Some(1) else Later(Scan(b, Step(b, s, text[i]), text[i + 1..]), 1)
  {
    assert text[i..][0] == text[i] && text[i..][1..] == text[i + 1..];
  }

  function Later(found: Option<nat>, n: nat): Option<nat> {
    match found case None => None case Some(m) => Some(n + m)
  }

  /** Extract the value and hand it to a parser, which may still refuse it. */
  method FirstJson<T>(text: string, parse: string -> Option<T>) returns (r: Option<T>)
    ensures r == match ExtentOf(text)
      case None => None
      case Some(e) => if e.start <= e.end <= |text| then parse(text[e.start..e.end]) else None
  {
    hide Scan;
    var start := StartOf(text);
    if start == |text| {
      return None;
    }
    var b := if text[start] == '[' then Square else Curly;
    var depth, inString, escaped := 0, false, false;
    ghost var found := Scan(b, State(0, false, false), text[start..]);
    ScanWithin(b, State(0, false, false), text[start..]);
    var i := start;
    while i < |text|
      invariant start <= i <= |text|
      invariant found == Later(Scan(b, State(depth, inString, escaped), text[i..]), i - start)
    {
      var ch := text[i];
      ScanStep(b, State(depth, inString, escaped), text, i);
      if inString {
        if escaped {
          escaped := false;
        } else if ch == '\\' {
          escaped := true;
        } else if ch == '"' {
          inString := false;
        }
      } else if ch == '"' {
        inString := true;
      } else if ch == b.Open() {
        depth := depth + 1;
      } else if ch == b.Close() {
        depth := depth - 1;
        if depth == 0 {
          return parse(text[start..i + 1]);
        }
      }
      i := i + 1;
    }
    assert text[i..] == "";
    ScanNothing(b, State(depth, inString, escaped));
    return None;
  }

  // ---- JSON text leaves the scanner where it was ----

  /** Inside a value, reading the text changes nothing: the scan goes on after it at the same depth. */
  ghost predicate Passes(b: Bracket, text: string) {
    forall depth, rest :: depth >= 1 ==> PassesAt(b, text, depth, rest)
  }

  ghost predicate PassesAt(b: Bracket, text: string, depth: int, rest: string) {
    Scan(b, State(depth, false, false), text + rest) == Later(Scan(b, State(depth, false, false), rest), |text|)
  }

  lemma PassesNothing(b: Bracket)
    ensures Passes(b, "")
  {
    forall depth, rest | depth >= 1 ensures PassesAt(b, "", depth, rest) {
      assert "" + rest == rest;
    }
  }

  lemma PassesJoined(b: Bracket, p: string, q: string)
    requires Passes(b, p) && Passes(b, q)
    ensures Passes(b, p + q)
  {
    hide Scan;
    forall depth, rest | depth >= 1 ensures PassesAt(b, p + q, depth, rest) {
      assert PassesAt(b, p, depth, q + rest) && PassesAt(b, q, depth, rest);
      assert p + q + rest == p + (q + rest);
    }
  }

  /** A character that is no quote and no bracket of the counted kind. */
  predicate Neutral(b: Bracket, c: char) {
    c != '"' && c != b.Open() && c != b.Close()
  }

  lemma PassesChar(b: Bracket, c: char)
    requires Neutral(b, c)
    ensures Passes(b, [c])
  {
    forall depth, rest | depth >= 1 ensures PassesAt(b, [c], depth, rest) {
      assert ([c] + rest)[0] == c && ([c] + rest)[1..] == rest;
    }
  }

  lemma {:induction false} PassesPlain(b: Bracket, s: string)
    requires forall c :: c in s ==> Neutral(b, c)
    ensures Passes(b, s)
  {
    if s == "" {
      PassesNothing(b);
    } else {
      PassesChar(b, s[0]);
      PassesPlain(b, s[1..]);
      PassesJoined(b, [s[0]], s[1..]);
      assert [s[0]] + s[1..] == s;
    }
  }

  /** In a string, one unit of the body leaves the scanner in the string. */
  lemma UnitScan(b: Bracket, u: Unit, depth: int, more: string)
    requires u.Plain? ==> u.c != '"' && u.c != '\\'
    ensures Scan(b, State(depth, true, false), UnitText(u) + more)
         == Later(Scan(b, State(depth, true, false), more), |UnitText(u)|)
  {
    match u
    case Plain(c) =>
      assert ([c] + more)[0] == c && ([c] + more)[1..] == more;
    case Escaped(c) =>
      var text := ['\\', c] + more;
      assert text[0] == '\\' && text[1..] == [c] + more;
      assert ([c] + more)[0] == c && ([c] + more)[1..] == more;
  }

  /** In a string, the body and its closing quote bring the scanner back out. */
  lemma {:induction false} BodyScan(b: Bracket, body: seq<Unit>, depth: int, rest: string)
    requires IsBody(body) && depth >= 1
    ensures Scan(b, State(depth, true, false), BodyText(body) + (['"'] + rest))
         == Later(Scan(b, State(depth, false, false), rest), |BodyText(body)| + 1)
  {
    var tail := ['"'] + rest;
    if body == [] {
      assert BodyText(body) + tail == tail && tail[0] == '"' && tail[1..] == rest;
    } else {
      BodyScan(b, body[1..], depth, rest);
      var more := BodyText(body[1..]) + tail;
      assert body[0] in body;
      UnitScan(b, body[0], depth, more);
      assert BodyText(body) + tail == UnitText(body[0]) + more by {
        ConcatAssoc(UnitText(body[0]), BodyText(body[1..]), tail);
      }
    }
  }

  lemma PassesQuoted(b: Bracket, body: seq<Unit>)
    requires IsBody(body)
    ensures Passes(b, Quoted(body))
  {
    forall depth, rest | depth >= 1 ensures PassesAt(b, Quoted(body), depth, rest) {
      var text := Quoted(body) + rest;
      assert text[0] == '"' && text[1..] == BodyText(body) + (['"'] + rest);
      BodyScan(b, body, depth, rest);
    }
  }

  /** Brackets of the counted kind go one deeper and come back; the others are not seen at all. */
  lemma PassesBracketed(b: Bracket, kind: Bracket, inner: string)
    requires Passes(b, inner)
    ensures Passes(b, [kind.Open()] + (inner + [kind.Close()]))
  {
    var open, close := kind.Open(), kind.Close();
    if kind != b {
      PassesChar(b, open);
      PassesChar(b, close);
      PassesJoined(b, inner, [close]);
      PassesJoined(b, [open], inner + [close]);
    } else {
      forall depth, rest | depth >= 1 ensures PassesAt(b, [open] + (inner + [close]), depth, rest) {
        var text := [open] + (inner + [close]) + rest;
        var tail := [close] + rest;
        assert text[0] == open && text[1..] == inner + tail;
        assert PassesAt(b, inner, depth + 1, tail);
        assert tail[0] == close && tail[1..] == rest;
      }
    }
  }

  lemma BlankPasses(b: Bracket, s: string)
    requires IsBlank(s)
    ensures Passes(b, s)
  {
    PassesPlain(b, s);
  }

  /** A JSON value inside the scanned one passes, whatever it nests. */
  lemma {:induction false} JsonPasses(b: Bracket, j: Json)
    requires IsJson(j)
    ensures Passes(b, Text(j))
    decreases j, 1
  {
    hide Passes;
    match j
    case Atom(text) => PassesPlain(b, text);
    case Str(body) => PassesQuoted(b, body);
    case Arr(blank, elements) =>
      InsidePasses(b, j);
      PassesBracketed(b, Square, Inside(j));
    case Obj(blank, members) =>
      InsidePasses(b, j);
      PassesBracketed(b, Curly, Inside(j));
  }

  lemma {:induction false} InsidePasses(b: Bracket, j: Json)
    requires IsJson(j)
    ensures Passes(b, Inside(j))
    decreases j, 0
  {
    hide Passes;
    match j
    case Arr(blank, elements) =>
      if elements == [] { BlankPasses(b, blank); } else { ElementsPass(b, elements); }
    case Obj(blank, members) =>
      if members == [] { BlankPasses(b, blank); } else { MembersPass(b, members); }
    case Atom(_) => PassesNothing(b);
    case Str(_) => PassesNothing(b);
  }

  lemma {:induction false} ElementsPass(b: Bracket, es: seq<Element>)
    requires es != [] && AreElements(es)
    ensures Passes(b, ElementsText(es))
    decreases es
  {
    hide Passes;
    var e := es[0];
    BlankPasses(b, e.before);
    JsonPasses(b, e.value);
    BlankPasses(b, e.after);
    PassesJoined(b, Text(e.value), e.after);
    PassesJoined(b, e.before, Text(e.value) + e.after);
    if |es| > 1 {
      ElementsPass(b, es[1..]);
      PassesChar(b, ',');
      PassesJoined(b, [','], ElementsText(es[1..]));
      PassesJoined(b, ElementText(e), [','] + ElementsText(es[1..]));
    }
  }

  lemma {:induction false} MembersPass(b: Bracket, ms: seq<Member>)
    requires ms != [] && AreMembers(ms)
    ensures Passes(b, MembersText(ms))
    decreases ms
  {
    hide Passes;
    var m := ms[0];
    JsonPasses(b, m.value);
    MemberPasses(b, m);
    if |ms| > 1 {
      MembersPass(b, ms[1..]);
      PassesChar(b, ',');
      PassesJoined(b, [','], MembersText(ms[1..]));
      PassesJoined(b, MemberText(m), [','] + MembersText(ms[1..]));
    }
  }

  lemma MemberPasses(b: Bracket, m: Member)
    requires IsBlank(m.before) && IsBody(m.name) && IsBlank(m.beforeColon) && IsBlank(m.afterColon) && IsBlank(m.after)
    requires Passes(b, Text(m.value))
    ensures Passes(b, MemberText(m))
  {
    hide Passes, Text;
    BlankPasses(b, m.before);
    PassesQuoted(b, m.name);
    BlankPasses(b, m.beforeColon);
    PassesChar(b, ':');
    BlankPasses(b, m.afterColon);
    BlankPasses(b, m.after);
    PassesJoined(b, Text(m.value), m.after);
    PassesJoined(b, m.afterColon, Text(m.value) + m.after);
    PassesJoined(b, [':'], m.afterColon + (Text(m.value) + m.after));
    PassesJoined(b, m.beforeColon, [':'] + (m.afterColon + (Text(m.value) + m.after)));
    PassesJoined(b, Quoted(m.name), m.beforeColon + ([':'] + (m.afterColon + (Text(m.value) + m.after))));
    PassesJoined(b, m.before, Quoted(m.name) + (m.beforeColon + ([':'] + (m.afterColon + (Text(m.value) + m.after)))));
  }

  /** Starting at the value, the scan stops right after it. */
  lemma ValueScan(j: Json, rest: string)
    requires IsJson(j) && (j.Arr? || j.Obj?)
    ensures Text(j) != "" && IsOpening(Text(j)[0])
    ensures Scan(if j.Arr? then Square else Curly, State(0, false, false), Text(j) + rest) == Some(|Text(j)|)
  {
    var b := if j.Arr? then Square else Curly;
    var text := Text(j) + rest;
    var tail := [b.Close()] + rest;
    InsidePasses(b, j);
    assert text[0] == b.Open() && text[1..] == Inside(j) + tail;
    assert PassesAt(b, Inside(j), 1, tail);
    assert tail[0] == b.Close();
    assert |Text(j)| == |Inside(j)| + 2;
  }

  lemma {:induction false} StartAfter(prefix: string, text: string)
    requires text != "" && IsOpening(text[0]) && forall c :: c in prefix ==> !IsOpening(c)
    ensures StartOf(prefix + text) == |prefix|
  {
    if prefix == "" {
      assert prefix + text == text;
    } else {
      assert (prefix + text)[1..] == prefix[1..] + text && (prefix + text)[0] == prefix[0];
      StartAfter(prefix[1..], text);
    }
  }

  /**
   * In any output, the scanner slices exactly a printed array or object, whatever
   * follows it, if and only if nothing before it opens a bracket or brace. A log line
   * such as `[info]` before the value makes it slice the log line instead.
   */
  lemma SlicesPrintedValue(prefix: string, j: Json, suffix: string)
    requires IsJson(j) && (j.Arr? || j.Obj?)
    ensures ExtentOf(prefix + Text(j) + suffix) == Some(Extent(|prefix|, |prefix| + |Text(j)|))
      <==> '[' !in prefix && '{' !in prefix
  {
    hide Text, Scan;
    var text := prefix + Text(j) + suffix;
    ValueScan(j, suffix);
    if forall c :: c in prefix ==> !IsOpening(c) {
      assert text == prefix + (Text(j) + suffix);
      assert (Text(j) + suffix)[0] == Text(j)[0];
      StartAfter(prefix, Text(j) + suffix);
      assert text[|prefix|..] == Text(j) + suffix;
      OpeningKind(j);
    } else {
      var c :| c in prefix && IsOpening(c);
      var k :| 0 <= k < |prefix| && prefix[k] == c;
      assert text[k] == c;
    }
  }

  lemma OpeningKind(j: Json)
    requires j.Arr? || j.Obj?
    ensures Text(j) != "" && Text(j)[0] == (if j.Arr? then '[' else '{')
  {
  }
}

/**
 * The parser of `.http` files reads back what the printer wrote.
 */
module HttpRoundTrip {
  import opened Options
  import opened Text
  import opened TextWords
  import opened HttpFile

  // ---- Cases that can be written ----

  predicate IsWord(s: string) {
    s != "" && IsWordPart(s)
  }

  predicate HeaderFits(h: Field) {
    Trimmed(h.name) && Trimmed(h.value) && ':' !in h.name && '\n' !in h.name && '\n' !in h.value
  }

  /** No separator stands inside a token, and names and values are trimmed. The query and the body may be anything. */
  predicate WellFormed(c: Case) {
    && IsWord(c.verb) && IsWord(c.path) && '?' !in c.path
    && forall h :: h in c.AllHeaders() ==> HeaderFits(h)
  }

  /** Form decoding undoes percent-encoding, and an encoded query holds no white space. */
  ghost predicate Faithful(codec: Codec) {
    forall fields :: FaithfulAt(codec, fields)
  }

  ghost predicate FaithfulAt(codec: Codec, fields: seq<Field>) {
    && IsWordPart(QueryText(codec, fields))
    && (QueryText(codec, fields) == "" ==> fields == [])
    && (fields != [] ==> codec.decode(QueryText(codec, fields)) == fields)
  }

  // ---- What the headers and the query mean ----

  /** The fields with their names in lower case. */
  function Folded(fields: seq<Field>): seq<Field> {
    seq(|fields|, i requires 0 <= i < |fields| => Field(Lower(fields[i].name), fields[i].value))
  }

  function ShapeOf(values: seq<string>): Option<FieldValue> {
    if values == [] then None else Some(Shape(values))
  }

  /** Each name maps to its values: one as it is, several as a list. */
  ghost predicate Grouped(t: HeaderTable, fields: seq<Field>) {
    && (forall key :: ValueAt(t.headers, key) == ShapeOf(ValuesUnder(fields, key)))
    && t.contentType == LastOf(ValuesUnder(fields, "content-type"))
  }

  function LastOf(values: seq<string>): Option<string> {
    if values == [] then None else Some(values[|values| - 1])
  }

  lemma {:induction false} ValuesOfName(fields: seq<Field>, key: string)
    ensures key in NamesOf(fields) <==> ValuesUnder(fields, key) != []
  {
    if fields != [] {
      var n := |fields| - 1;
      ValuesOfName(fields[..n], key);
      assert fields == fields[..n] + [fields[n]];
    }
  }

  /** The query maps every name but the empty one to its values. */
  lemma QueryIsGrouped(fields: seq<Field>, key: string)
    requires key != ""
    ensures ValueAt(QueryOf(fields), key) == ShapeOf(ValuesUnder(fields, key))
  {
    ValuesOfName(fields, key);
  }

  function ValuesOf(v: FieldValue): seq<string> {
    match v case One(value) => [value] case Many(values) => values
  }

  ghost predicate DistinctNames(params: seq<Param>) {
    forall i, k :: 0 <= i < k < |params| ==> params[i].name != params[k].name
  }

  lemma {:induction false} ValuesAppend(a: seq<Field>, b: seq<Field>, key: string)
    ensures ValuesUnder(a + b, key) == ValuesUnder(a, key) + ValuesUnder(b, key)
  {
    if b == [] {
      assert a + b == a;
    } else {
      var n := |b| - 1;
      assert (a + b)[..|a + b| - 1] == a + b[..n];
      ValuesAppend(a, b[..n], key);
    }
  }

  lemma {:induction false} ValuesOfList(name: string, values: seq<string>, key: string)
    ensures ValuesUnder(ParamFields(Param(name, Many(values))), key) == if key == name then values else []
  {
    if values != [] {
      var n := |values| - 1;
      var fields := ParamFields(Param(name, Many(values)));
      assert fields[..n] == ParamFields(Param(name, Many(values[..n])));
      ValuesOfList(name, values[..n], key);
    }
  }

  lemma ValuesOfParam(p: Param, key: string)
    ensures ValuesUnder(ParamFields(p), key) == if key == p.name then ValuesOf(p.values) else []
  {
    match p.values
    case One(value) =>
      assert ParamFields(p)[..0] == [];
    case Many(values) => ValuesOfList(p.name, values, key);
  }

  lemma {:induction false} ValuesOfQuery(params: seq<Param>, i: nat)
    requires i < |params| && DistinctNames(params)
    ensures ValuesUnder(QueryFields(params), params[i].name) == ValuesOf(params[i].values)
    decreases |params|, 1
  {
    hide ValuesUnder, ParamFields, ValuesOf;
    var n := |params| - 1;
    ValuesAppend(QueryFields(params[..n]), ParamFields(params[n]), params[i].name);
    ValuesOfParam(params[n], params[i].name);
    if i < n {
      ValuesOfQuery(params[..n], i);
    } else {
      NotUnder(params[..n], params[n].name);
    }
  }

  lemma {:induction false} NotUnder(params: seq<Param>, name: string)
    requires forall p :: p in params ==> p.name != name
    ensures ValuesUnder(QueryFields(params), name) == []
  {
    hide ParamFields, ValuesOf;
    if params != [] {
      var n := |params| - 1;
      assert params[n] in params;
      ValuesAppend(QueryFields(params[..n]), ParamFields(params[n]), name);
      ValuesOfParam(params[n], name);
      NotUnder(params[..n], name);
    }
  }

  /**
   * A named parameter comes back with its values, and in its own shape if and only if it
   * is one value or a list of several: a list of one comes back as the value, an empty
   * list not at all.
   */
  lemma ParamComesBack(params: seq<Param>, i: nat)
    requires i < |params| && DistinctNames(params) && params[i].name != ""
    ensures var back := ValueAt(QueryOf(QueryFields(params)), params[i].name);
      && back == ShapeOf(ValuesOf(params[i].values))
      && (back == Some(params[i].values) <==> params[i].values.One? || |params[i].values.values| >= 2)
  {
    hide ValuesUnder, QueryFields, QueryOf;
    ValuesOfQuery(params, i);
    QueryIsGrouped(QueryFields(params), params[i].name);
  }

  // ---- One line ----

  lemma TrimSpaceBefore(value: string)
    requires Trimmed(value)
    ensures Trim([' '] + value) == value
  {
    assert ([' '] + value)[0] == ' ' && ([' '] + value)[1..] == value;
    TrimmedStays(value);
  }

  lemma HoldsNonSpace(s: string, i: nat)
    requires i < |s| && !IsSpace(s[i])
    ensures Trim(s) != ""
  {
    TrimStartKeeps(s, i);
    TrimStartIsSuffix(s);
    TrimEndKeeps(TrimStart(s), 0);
  }

  lemma {:induction false} TrimStartKeeps(s: string, i: nat)
    requires i < |s| && !IsSpace(s[i])
    ensures TrimStart(s) != ""
  {
    if IsSpace(s[0]) {
      TrimStartKeeps(s[1..], i - 1);
    }
  }

  lemma {:induction false} TrimEndKeeps(s: string, i: nat)
    requires i < |s| && !IsSpace(s[i])
    ensures TrimEnd(s) != ""
  {
    if IsSpace(s[|s| - 1]) {
      TrimEndKeeps(s[..|s| - 1], i);
    }
  }

  /** A printed header line is read as that header. */
  lemma HeaderReadsBack(t: HeaderTable, h: Field)
    requires HeaderFits(h)
    ensures ReadHeader(t, HeaderText(h)) == WithHeader(t, Lower(h.name), h.value)
  {
    hide WithHeader, Lower;
    var line := HeaderText(h);
    var tail := [' '] + h.value;
    assert line == h.name + [':'] + tail by { assert ": " == [':'] + [' ']; }
    IndexOfFirst(h.name, ':', tail);
    assert line[|h.name|] == ':' && line[..|h.name|] == h.name && line[|h.name| + 1..] == tail;
    HoldsNonSpace(line, |h.name|);
    TrimmedStays(h.name);
    TrimSpaceBefore(h.value);
  }

  lemma {:induction false} HeadersReadBack(headers: seq<Field>)
    requires forall h :: h in headers ==> HeaderFits(h)
    ensures Grouped(ReadHeaders(HeaderTexts(headers)), Folded(headers))
  {
    hide HeaderFits, HeaderText, ReadHeader, Grouped, Lower;
    if headers == [] {
      GroupedNothing();
    } else {
      var n := |headers| - 1;
      HeadersReadBack(headers[..n]);
      assert HeaderTexts(headers)[..n] == HeaderTexts(headers[..n]);
      HeaderReadsBack(ReadHeaders(HeaderTexts(headers[..n])), headers[n]);
      assert headers[n] in headers;
      assert Folded(headers)[..n] == Folded(headers[..n]);
      GroupedMore(ReadHeaders(HeaderTexts(headers[..n])), Folded(headers));
    }
  }

  lemma GroupedNothing()
    ensures Grouped(HeaderTable(map[], None), [])
  {
  }

  lemma GroupedMore(t: HeaderTable, fields: seq<Field>)
    requires fields != [] && Grouped(t, fields[..|fields| - 1])
    ensures Grouped(WithHeader(t, fields[|fields| - 1].name, fields[|fields| - 1].value), fields)
  {
    var n := |fields| - 1;
    var name, value := fields[n].name, fields[n].value;
    var next := WithHeader(t, name, value);
    assert ValuesUnder(fields, "content-type")
        == ValuesUnder(fields[..n], "content-type") + if name == "content-type" then [value] else [];
    forall key ensures ValueAt(next.headers, key) == ShapeOf(ValuesUnder(fields, key)) {
      var before := ValuesUnder(fields[..n], key);
      assert ValueAt(t.headers, key) == ShapeOf(before);
      assert ValuesUnder(fields, key) == before + if name == key then [value] else [];
      ShapeOfMore(before, value);
    }
  }

  lemma ShapeOfMore(values: seq<string>, value: string)
    ensures ShapeOf(values + [value]) == Some(HttpFile.Extended(ShapeOf(values), value))
      && ShapeOf(values + []) == ShapeOf(values)
  {
    assert |values| == 1 ==> values + [value] == [values[0], value];
    assert values + [] == values;
  }

  /** The request line is read as the method and the address. */
  lemma RequestReadsBack(codec: Codec, c: Case)
    requires WellFormed(c) && Faithful(codec)
    ensures RequestLineOf(RequestText(codec, c)) == Some(RequestLine(Upper(c.verb), c.Address(codec)))
  {
    var words := [Upper(c.verb), c.Address(codec), "HTTP/1.1"];
    UpperWord(c.verb);
    AddressIsWord(codec, c);
    RequestIsLine(codec, c);
    WordsReadBack(words);
    var line := RequestText(codec, c);
    assert line[0] == Upper(c.verb)[0] && line[|line| - 1] == '1';
    TrimmedStays(line);
  }

  lemma AddressIsWord(codec: Codec, c: Case)
    requires WellFormed(c) && Faithful(codec)
    ensures IsWord(c.Address(codec))
  {
    hide QueryText, QueryFields;
    assert FaithfulAt(codec, c.Fields());
  }

  lemma RequestIsLine(codec: Codec, c: Case)
    ensures RequestText(codec, c) == Line([Upper(c.verb), c.Address(codec), "HTTP/1.1"])
  {
    var verb, address, version := Upper(c.verb), c.Address(codec), "HTTP/1.1";
    assert [verb, address, version][1..] == [address, version] && [address, version][1..] == [version];
    assert Line([version]) == version;
    assert Line([address, version]) == address + [' '] + Line([version]);
    assert " HTTP/1.1" == [' '] + version && " " == [' '];
    ConcatAssoc(address, [' '], version);
    ConcatAssoc(verb + [' '], address, [' '] + version);
  }

  lemma UpperWord(s: string)
    requires IsWord(s)
    ensures IsWord(Upper(s)) && Upper(Upper(s)) == Upper(s)
  {
    forall c | c in Upper(s) ensures !IsSpace(c) {
      var i :| 0 <= i < |s| && c == UpperChar(s[i]);
      assert s[i] in s;
    }
  }

  // ---- The head as a text ----

  /** A text that ends in no line break and holds neither an empty line nor a carriage return before a line end. */
  predicate Calm(s: string) {
    && s != "" && s[|s| - 1] != '\n' && s[|s| - 1] != '\r'
    && forall i: nat :: i + 1 < |s| && s[i + 1] == '\n' ==> s[i] != '\n' && s[i] != '\r'
  }

  predicate CalmLine(s: string) {
    s != "" && '\n' !in s && s[|s| - 1] != '\r'
  }

  lemma {:induction false} JoinIsCalm(lines: seq<string>)
    requires lines != [] && forall line :: line in lines ==> CalmLine(line)
    ensures Calm(Join(lines, '\n')) && Join(lines, '\n')[0] != '\n'
  {
    assert lines[0] in lines;
    var first := lines[0];
    assert first[0] in first;
    if |lines| == 1 {
      LineIsCalm(first);
    } else {
      assert forall line :: line in lines[1..] ==> line in lines;
      JoinIsCalm(lines[1..]);
      CalmJoined(first, Join(lines[1..], '\n'));
    }
  }

  lemma LineIsCalm(s: string)
    requires CalmLine(s)
    ensures Calm(s)
  {
    forall i: nat | i + 1 < |s| ensures s[i + 1] == '\n' ==> s[i] != '\n' && s[i] != '\r' {
      assert s[i + 1] in s;
    }
    assert s[|s| - 1] in s;
  }

  lemma CalmJoined(first: string, rest: string)
    requires CalmLine(first) && Calm(rest) && rest[0] != '\n'
    ensures Calm(first + ['\n'] + rest)
  {
    LineIsCalm(first);
    var s := first + ['\n'] + rest;
    var n := |first|;
    forall i: nat | i + 1 < |s| ensures s[i + 1] == '\n' ==> s[i] != '\n' && s[i] != '\r' {
      if i + 1 < n {
        assert s[i + 1] == first[i + 1] && first[i + 1] in first;
      } else if i + 1 > n + 1 {
        assert s[i + 1] == rest[i - n] && s[i] == rest[i - n - 1];
      } else {
        assert s[n + 1] == rest[0];
        assert s[n - 1] == first[n - 1];
      }
    }
  }

  /** Normalizing leaves a calm head alone and goes on after it. */
  lemma {:induction false} NormalizedAfter(head: string, rest: string)
    requires Calm(head)
    ensures Normalized(head + ['\n'] + rest) == head + ['\n'] + Normalized(rest)
  {
    var text := head + ['\n'] + rest;
    assert text[0] == head[0];
    if |head| == 1 {
      assert text[1..] == ['\n'] + rest && (['\n'] + rest)[1..] == rest;
    } else {
      assert text[1] == head[1] && text[1..] == head[1..] + ['\n'] + rest;
      NormalizedAfter(head[1..], rest);
      assert [head[0]] + (head[1..] + ['\n'] + Normalized(rest)) == head + ['\n'] + Normalized(rest);
    }
  }

  /** The first empty line is the one after the head. */
  lemma {:induction false} BlankAfter(head: string, rest: string)
    requires Calm(head)
    ensures BlankLine(head + ['\n'] + rest) == if rest != "" && rest[0] == '\n' then |head|
      else |head| + 1 + BlankLine(rest)
  {
    var text := head + ['\n'] + rest;
    assert text[0] == head[0];
    if |head| == 1 {
      assert text[1..] == ['\n'] + rest && (['\n'] + rest)[1..] == rest;
    } else {
      assert text[1] == head[1] && text[1..] == head[1..] + ['\n'] + rest;
      BlankAfter(head[1..], rest);
    }
  }

  lemma RequestIsCalm(codec: Codec, c: Case)
    requires WellFormed(c) && Faithful(codec)
    ensures CalmLine(RequestText(codec, c))
  {
    var line := RequestText(codec, c);
    UpperWord(c.verb);
    AddressIsWord(codec, c);
    assert line[|line| - 1] == '1';
  }

  lemma HeaderIsCalm(h: Field)
    requires HeaderFits(h)
    ensures CalmLine(HeaderText(h))
  {
    var line := HeaderText(h);
    assert line[|line| - 1] == if h.value == "" then ' ' else h.value[|h.value| - 1];
  }

  lemma HeadIsCalm(codec: Codec, c: Case)
    requires WellFormed(c) && Faithful(codec)
    ensures forall line :: line in HeadLines(codec, c) ==> CalmLine(line)
  {
    hide CalmLine, HeaderFits, RequestText, HeaderText;
    RequestIsCalm(codec, c);
    forall line | line in HeadLines(codec, c) ensures CalmLine(line) {
      if line != RequestText(codec, c) {
        var i :| 0 <= i < |HeaderTexts(c.AllHeaders())| && line == HeaderTexts(c.AllHeaders())[i];
        assert c.AllHeaders()[i] in c.AllHeaders();
        HeaderIsCalm(c.AllHeaders()[i]);
      }
    }
  }

  // ---- The round trip ----

  function HeadOf(codec: Codec, c: Case): string {
    Join(HeadLines(codec, c), '\n')
  }

  lemma BuiltParts(codec: Codec, c: Case)
    ensures Built(codec, c) == HeadOf(codec, c) + ['\n'] + if c.body.Some? then ['\n'] + c.body.value else ""
    ensures HeadOf(codec, c) + ['\n'] == Join(HeadLines(codec, c) + [""], '\n')
  {
    hide HeadLines;
    var head := HeadLines(codec, c);
    HeadNotEmpty(codec, c);
    assert Join([""], '\n') == "";
    JoinOfTwo(head, [""], '\n');
    if c.body.Some? {
      var b := c.body.value;
      assert head + [""] + [b] == head + ["", b];
      assert ["", b][1..] == [b] && Join([b], '\n') == b;
      assert Join(["", b], '\n') == "" + ['\n'] + Join([b], '\n');
      JoinOfTwo(head, ["", b], '\n');
    } else {
      assert head + [""] + [] == head + [""];
    }
  }

  /** What is left of a body: line ends normalized, the text trimmed. */
  function BodyRead(c: Case): string {
    if c.body.Some? then Trim(Normalized(c.body.value)) else ""
  }

  /** The lines and the body the parser cuts the file into. */
  lemma FileCuts(codec: Codec, c: Case)
    requires WellFormed(c) && Faithful(codec)
    ensures var normalized := Normalized(Built(codec, c)); var blank := BlankLine(normalized);
      && Split(normalized[..blank], '\n') == HeadLines(codec, c) + (if c.body.Some? then [] else [""])
      && Trim(if blank == |normalized| then "" else normalized[blank + 2..]) == BodyRead(c)
  {
    hide HeadLines, Trim, WellFormed, Calm, CalmLine;
    var head := HeadOf(codec, c);
    var rest := if c.body.Some? then ['\n'] + c.body.value else "";
    HeadIsCalm(codec, c);
    assert HeadLines(codec, c) != [] by { HeadNotEmpty(codec, c); }
    JoinIsCalm(HeadLines(codec, c));
    BuiltParts(codec, c);
    NormalizedAfter(head, rest);
    BlankAfter(head, Normalized(rest));
    var normalized := Normalized(Built(codec, c));
    LinesSplit(codec, c);
    if c.body.Some? {
      assert rest[1..] == c.body.value;
      assert Normalized(rest) == ['\n'] + Normalized(c.body.value);
      assert normalized[..|head|] == head && normalized[|head| + 2..] == Normalized(c.body.value);
      assert HeadLines(codec, c) + [] == HeadLines(codec, c);
    } else {
      assert normalized == head + ['\n'] && normalized[..|normalized|] == normalized;
      assert Trim("") == "" by { TrimmedStays(""); }
    }
  }

  lemma HeadNotEmpty(codec: Codec, c: Case)
    ensures HeadLines(codec, c) != [] && HeadLines(codec, c)[0] == RequestText(codec, c)
      && HeadLines(codec, c)[1..] == HeaderTexts(c.AllHeaders())
  {
  }

  lemma LinesSplit(codec: Codec, c: Case)
    requires WellFormed(c) && Faithful(codec)
    ensures Split(HeadOf(codec, c), '\n') == HeadLines(codec, c)
    ensures Split(HeadOf(codec, c) + ['\n'], '\n') == HeadLines(codec, c) + [""]
  {
    hide HeadLines, WellFormed, Join;
    HeadIsCalm(codec, c);
    HeadNotEmpty(codec, c);
    BuiltParts(codec, c);
    SplitJoin(HeadLines(codec, c), '\n');
    SplitJoin(HeadLines(codec, c) + [""], '\n');
  }

  /** The request a case is read as; only a body declared JSON that is none is refused. */
  ghost predicate ReadsAs<J>(r: Option<Request<J>>, c: Case, bodyText: string, parse: string -> Option<J>) {
    match BodyOf(bodyText, LastOf(ValuesUnder(Folded(c.AllHeaders()), "content-type")), parse)
    case None => r == None
    case Some(body) =>
      && r.Some?
      && r.value.verb == Upper(c.verb) && r.value.path == c.path && r.value.query == QueryOf(c.Fields())
      && Grouped(HeaderTable(r.value.headers, r.value.contentType), Folded(c.AllHeaders()))
      && r.value.body == body
      && r.value.rawBody == if bodyText != "" then Some(bodyText) else None
  }

  lemma AssembledFrom<J>(
    codec: Codec, lines: seq<string>, verb: string, address: string, table: HeaderTable, bodyText: string,
    parse: string -> Option<J>)
    requires lines != [] && RequestLineOf(lines[0]) == Some(RequestLine(verb, address))
      && ReadHeaders(lines[1..]) == table
    ensures var q := IndexOf(address, '?');
      Assembled(codec, lines, bodyText, parse) == match BodyOf(bodyText, table.contentType, parse)
        case None => None
        case Some(body) =>
          Some(Request(Upper(verb), address[..q], ReadQuery(codec, if q == |address| then "" else address[q + 1..]),
                       table.headers, table.contentType, body, if bodyText != "" then Some(bodyText) else None))
  {
    hide RequestLineOf, ReadHeaders, BodyOf, Upper, ReadQuery;
  }

  lemma AssembledReadsAs<J>(codec: Codec, c: Case, tail: seq<string>, bodyText: string, parse: string -> Option<J>)
    requires WellFormed(c) && Faithful(codec) && (tail == [] || tail == [""])
    ensures HeadLines(codec, c) + tail != []
    ensures ReadsAs(Assembled(codec, HeadLines(codec, c) + tail, bodyText, parse), c, bodyText, parse)
  {
    hide RequestText, RequestLineOf, ReadHeaders, BodyOf, ValuesUnder, HeaderTexts, HeaderFits, Upper, HeadLines,
      Assembled, LastOf;
    var lines := HeadLines(codec, c) + tail;
    HeadNotEmpty(codec, c);
    var texts := HeaderTexts(c.AllHeaders());
    assert lines[0] == RequestText(codec, c) && lines[1..] == texts + tail;
    RequestReadsBack(codec, c);
    UpperWord(c.verb);
    HeadersReadBack(c.AllHeaders());
    TailAddsNothing(texts, tail);
    AddressSplits(codec, c);
    AssembledFrom(codec, lines, Upper(c.verb), c.Address(codec), ReadHeaders(texts), bodyText, parse);
  }

  lemma TailAddsNothing(texts: seq<string>, tail: seq<string>)
    requires tail == [] || tail == [""]
    ensures ReadHeaders(texts + tail) == ReadHeaders(texts)
  {
    if tail == [] {
      assert texts + tail == texts;
    } else {
      assert (texts + tail)[..|texts|] == texts;
      TrimmedStays("");
    }
  }

  lemma AddressSplits(codec: Codec, c: Case)
    requires WellFormed(c) && Faithful(codec)
    ensures var a := c.Address(codec); var q := IndexOf(a, '?');
      a[..q] == c.path && ReadQuery(codec, if q == |a| then "" else a[q + 1..]) == QueryOf(c.Fields())
  {
    hide QueryText, QueryFields;
    var a := c.Address(codec);
    NoText(codec);
    if c.query.Some? {
      var text := QueryText(codec, c.Fields());
      assert a == c.path + ['?'] + text;
      IndexOfFirst(c.path, '?', text);
      assert FaithfulAt(codec, c.Fields());
      NoFields();
    } else {
      assert a == c.path;
      IndexOfFirst(c.path, '?', "");
      NoFields();
    }
  }

  lemma NoText(codec: Codec)
    ensures QueryText(codec, []) == ""
  {
  }

  lemma NoFields()
    ensures QueryFields([]) == [] && QueryOf([]) == map[]
  {
  }

  /**
   * Parsing what was printed returns the method in upper case, the path, the query, every
   * header value under its lower-case name in order, the content type and the body.
   */
  lemma FileReadsBack<J>(codec: Codec, c: Case, parse: string -> Option<J>)
    requires WellFormed(c) && Faithful(codec)
    ensures ReadsAs(Parsed(codec, Built(codec, c), parse), c, BodyRead(c), parse)
  {
    hide WellFormed, Built, BodyRead, HeadLines, ReadsAs, Assembled, Trim, Split, Normalized;
    FileCuts(codec, c);
    AssembledReadsAs(codec, c, if c.body.Some? then [] else [""], BodyRead(c), parse);
  }

  /** The content type a case is read with: the last one printed. */
  function TypeRead(c: Case): Option<string> {
    LastOf(ValuesUnder(Folded(c.AllHeaders()), "content-type"))
  }

  predicate OpensLikeJson(text: string) {
    StartsWith(text, "{") || StartsWith(text, "[")
  }

  /**
   * What becomes of a body. The file is refused only for a body declared JSON that is
   * none. The body is handed on as JSON exactly when it is some and was declared so, or
   * opens like JSON and was not declared at all; a declared text is left as it is,
   * whatever a JSON parser would make of it.
   */
  lemma BodyIsTakenAs<J>(codec: Codec, c: Case, parse: string -> Option<J>)
    requires WellFormed(c) && Faithful(codec)
    ensures var r, text, ct := Parsed(codec, Built(codec, c), parse), BodyRead(c), TypeRead(c);
      && (r.None? <==> text != "" && DeclaresJson(ct) && parse(text).None?)
      && (r.Some? ==>
            && (r.value.body.NoBody? <==> text == "")
            && (r.value.body.Json?
              <==> text != "" && parse(text).Some? && (DeclaresJson(ct) || (ct.None? && OpensLikeJson(text))))
            && (r.value.body.Json? ==> parse(text) == Some(r.value.body.value))
            && (r.value.body.Plain? ==> r.value.body.text == text)
            && (ct.Some? && !DeclaresJson(ct) && text != "" ==> r.value.body == Plain(text)))
  {
    hide WellFormed, Faithful, Parsed, Built, BodyRead, DeclaresJson, Grouped, ValuesUnder;
    FileReadsBack(codec, c, parse);
    UndeclaredIsNoJson();
  }

  lemma UndeclaredIsNoJson()
    ensures !DeclaresJson(None)
  {
    TrimmedStays("");
    assert Split("", ';')[0] == "";
  }

  /**
   * The body of an accepted file comes back as it was, absent or not, if and only if it is
   * absent, or is not empty, is trimmed, and has no carriage return before a line feed. An
   * empty body comes back as none.
   */
  lemma BodyComesBack<J>(codec: Codec, c: Case, parse: string -> Option<J>)
    requires WellFormed(c) && Faithful(codec)
    ensures var r := Parsed(codec, Built(codec, c), parse);
      r.Some? ==>
        (r.value.rawBody == c.body
         <==> c.body.None? || (c.body.value != "" && Trimmed(c.body.value) && Normalized(c.body.value) == c.body.value))
  {
    hide WellFormed, Faithful, Parsed, Built, Grouped, Trimmed, Normalized;
    FileReadsBack(codec, c, parse);
    if c.body.Some? {
      TextComesBack(c);
    }
  }

  lemma TextComesBack(c: Case)
    requires c.body.Some?
    ensures BodyRead(c) == c.body.value <==> Trimmed(c.body.value) && Normalized(c.body.value) == c.body.value
  {
    var body := c.body.value;
    NormalizedShorter(body);
    if Trimmed(body) {
      TrimmedStays(body);
    }
    var t := Normalized(body);
    TrimStartIsSuffix(t);
    TrimEndIsPrefix(TrimStart(t));
    TrimIsTrimmed(t);
    assert Trim(t) == body ==> |Trim(t)| == |t|;
    assert |Trim(t)| == |t| ==> Trim(t) == t;
  }

  lemma {:induction false} NormalizedShorter(s: string)
    ensures |Normalized(s)| <= |s|
    ensures |Normalized(s)| == |s| ==> Normalized(s) == s
    decreases |s|
  {
    if |s| >= 2 && s[0] == '\r' && s[1] == '\n' {
      NormalizedShorter(s[2..]);
    } else if s != "" {
      NormalizedShorter(s[1..]);
    }
  }

  /** The same file with carriage returns before its line ends. */
  function WithReturns(text: string): string {
    if text == "" then "" else (if text[0] == '\n' then "\r\n" else [text[0]]) + WithReturns(text[1..])
  }

  lemma {:induction false} ReturnsAreDropped(text: string)
    ensures Normalized(WithReturns(text)) == text
    decreases |text|
  {
    if text != "" {
      var rest := WithReturns(text[1..]);
      ReturnsAreDropped(text[1..]);
      if text[0] == '\n' {
        assert ("\r\n" + rest)[2..] == rest;
      } else {
        assert ([text[0]] + rest)[1..] == rest;
        assert rest != "" ==> rest[0] != '\n' by { ReturnsStart(text[1..]); }
      }
      assert text == [text[0]] + text[1..];
    }
  }

  lemma ReturnsStart(text: string)
    ensures WithReturns(text) != "" ==> WithReturns(text)[0] != '\n'
  {
  }

  /** A file whose lines end in carriage return and line feed is read as the same request. */
  lemma ReturnsReadBack<J>(codec: Codec, c: Case, parse: string -> Option<J>)
    requires WellFormed(c) && Faithful(codec) && (c.body.Some? ==> Normalized(c.body.value) == c.body.value)
    ensures ReadsAs(Parsed(codec, WithReturns(Built(codec, c)), parse), c, BodyRead(c), parse)
  {
    hide WellFormed, BodyRead, ReadsAs, Assembled, Trim, Split, Built, WithReturns, Join;
    FileReadsBack(codec, c, parse);
    ReturnsAreDropped(Built(codec, c));
    BuiltIsNormal(codec, c);
  }

  lemma BuiltIsNormal(codec: Codec, c: Case)
    requires WellFormed(c) && Faithful(codec) && (c.body.Some? ==> Normalized(c.body.value) == c.body.value)
    ensures Normalized(Built(codec, c)) == Built(codec, c)
  {
    hide HeadLines, WellFormed, Calm, CalmLine, Built;
    HeadIsCalm(codec, c);
    HeadNotEmpty(codec, c);
    JoinIsCalm(HeadLines(codec, c));
    BuiltParts(codec, c);
    var rest := if c.body.Some? then ['\n'] + c.body.value else "";
    NormalizedAfter(HeadOf(codec, c), rest);
    assert c.body.Some? ==> rest[1..] == c.body.value;
  }
}

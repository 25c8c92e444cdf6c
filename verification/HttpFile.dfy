/**
 * The `.http` file format: its printer and its parser.
 */
module HttpFile {
  import opened Options
  import opened Text
  import opened TextWords

  // ---- Letter case, over ASCII ----

  function UpperChar(c: char): char {
    if 'a' <= c <= 'z' then c - 'a' + 'A' else c
  }

  function LowerChar(c: char): char {
    if 'A' <= c <= 'Z' then c - 'A' + 'a' else c
  }

  function Upper(s: string): string {
    seq(|s|, i requires 0 <= i < |s| => UpperChar(s[i]))
  }

  function Lower(s: string): string {
    seq(|s|, i requires 0 <= i < |s| => LowerChar(s[i]))
  }

  // ---- Fields of a query or a head ----

  /** One name and one value, as written. */
  datatype Field = Field(name: string, value: string)

  /** What a name maps to: one value as it is, several as a list. */
  datatype FieldValue = One(value: string) | Many(values: seq<string>)

  /** The values written under a name, in order. */
  function ValuesUnder(fields: seq<Field>, key: string): seq<string> {
    if fields == [] then []
    else
      var last := fields[|fields| - 1];
      ValuesUnder(fields[..|fields| - 1], key) + if last.name == key then [last.value] else []
  }

  function NamesOf(fields: seq<Field>): set<string> {
    set f | f in fields :: f.name
  }

  function Shape(values: seq<string>): FieldValue {
    if |values| == 1 then One(values[0]) else Many(values)
  }

  function ValueAt(table: map<string, FieldValue>, key: string): Option<FieldValue> {
    if key in table then Some(table[key]) else None
  }

  // ---- The query ----

  /** Percent-encoding of one name or value, and form decoding of a whole query. */
  datatype Codec = Codec(encode: string -> string, decode: string -> seq<Field>)

  /** One parameter of a case: a name with one value or several. */
  datatype Param = Param(name: string, values: FieldValue)

  function ParamFields(p: Param): seq<Field> {
    match p.values
    case One(value) => [Field(p.name, value)]
    case Many(values) => seq(|values|, i requires 0 <= i < |values| => Field(p.name, values[i]))
  }

  /** The fields of a query, parameter by parameter. */
  function QueryFields(params: seq<Param>): seq<Field> {
    if params == [] then [] else QueryFields(params[..|params| - 1]) + ParamFields(params[|params| - 1])
  }

  function FieldTexts(codec: Codec, fields: seq<Field>): seq<string> {
    seq(|fields|, i requires 0 <= i < |fields| => codec.encode(fields[i].name) + "=" + codec.encode(fields[i].value))
  }

  function QueryText(codec: Codec, fields: seq<Field>): string {
    Join(FieldTexts(codec, fields), '&')
  }

  /** What a decoded query is read as: every name but the empty one, with all its values. */
  function QueryOf(fields: seq<Field>): map<string, FieldValue> {
    map key | key in NamesOf(fields) && key != "" :: Shape(ValuesUnder(fields, key))
  }

  // ---- The printer ----

  /** A case to send; `body` is the text of the body. */
  datatype Case = Case(
    verb: string, path: string, query: Option<seq<Param>>, contentType: Option<string>, headers: seq<Field>,
    body: Option<string>)
  {
    function Fields(): seq<Field> {
      QueryFields(query.GetOr([]))
    }

    function Address(codec: Codec): string {
      path + if query.Some? then "?" + QueryText(codec, Fields()) else ""
    }

    /** The content type as a header, unless it is empty. */
    function TypeHeaders(): seq<Field> {
      if contentType.Some? && contentType.value != "" then [Field("Content-Type", contentType.value)] else []
    }

    /** The headers in the order they are printed. */
    function AllHeaders(): seq<Field> {
      TypeHeaders() + headers
    }
  }

  function HeaderText(h: Field): string {
    h.name + ": " + h.value
  }

  function HeaderTexts(headers: seq<Field>): seq<string> {
    seq(|headers|, i requires 0 <= i < |headers| => HeaderText(headers[i]))
  }

  function RequestText(codec: Codec, c: Case): string {
    Upper(c.verb) + " " + c.Address(codec) + " HTTP/1.1"
  }

  function HeadLines(codec: Codec, c: Case): seq<string> {
    [RequestText(codec, c)] + HeaderTexts(c.AllHeaders())
  }

  function Built(codec: Codec, c: Case): string {
    Join(HeadLines(codec, c) + [""] + (if c.body.Some? then [c.body.value] else []), '\n')
  }

  /** The query, parameter by parameter and value by value. */
  method BuildQuery(codec: Codec, params: seq<Param>) returns (text: string)
    ensures text == QueryText(codec, QueryFields(params))
  {
    var fields: seq<Field> := [];
    for i := 0 to |params|
      invariant fields == QueryFields(params[..i])
    {
      assert params[..i + 1][..i] == params[..i];
      fields := fields + ParamFields(params[i]);
    }
    assert params[..|params|] == params;
    text := QueryText(codec, fields);
  }

  lemma AddressParts(codec: Codec, c: Case)
    ensures c.query.Some? ==> c.Address(codec) == c.path + "?" + QueryText(codec, QueryFields(c.query.value))
    ensures c.query.None? ==> c.Address(codec) == c.path
  {
    hide QueryText, QueryFields;
  }

  method BuildHttpFile(codec: Codec, c: Case) returns (text: string)
    ensures text == Built(codec, c)
  {
    hide HeaderText, Join, QueryText, QueryFields, Upper;
    var address := c.path;
    if c.query.Some? {
      var query := BuildQuery(codec, c.query.value);
      address := address + "?" + query;
    }
    assert address == c.Address(codec) by { AddressParts(codec, c); }
    var lines := [Upper(c.verb) + " " + address + " HTTP/1.1"];
    assert lines == [RequestText(codec, c)];
    if c.contentType.Some? && c.contentType.value != "" {
      lines := lines + [HeaderText(Field("Content-Type", c.contentType.value))];
    }
    ghost var before := lines;
    assert before == [RequestText(codec, c)] + HeaderTexts(c.TypeHeaders());
    for i := 0 to |c.headers|
      invariant lines == before + HeaderTexts(c.headers[..i])
    {
      assert c.headers[..i + 1] == c.headers[..i] + [c.headers[i]];
      lines := lines + [HeaderText(c.headers[i])];
    }
    assert c.headers[..|c.headers|] == c.headers;
    assert lines == HeadLines(codec, c);
    lines := lines + [""];
    if c.body.Some? {
      lines := lines + [c.body.value];
    } else {
      assert lines + [] == lines;
    }
    return Join(lines, '\n');
  }

  // ---- The parser ----

  datatype Body<J> = NoBody | Json(value: J) | Plain(text: string)

  datatype Request<J> = Request(
    verb: string, path: string, query: map<string, FieldValue>, headers: map<string, FieldValue>,
    contentType: Option<string>, body: Body<J>, rawBody: Option<string>)

  function Normalized(text: string): string
    decreases |text|
  {
    if text == "" then ""
    else if |text| >= 2 && text[0] == '\r' && text[1] == '\n' then ['\n'] + Normalized(text[2..])
    else [text[0]] + Normalized(text[1..])
  }

  /** Where the first two line ends in a row stand, or the length. */
  function BlankLine(text: string): (i: nat)
    ensures i <= |text|
    ensures i < |text| ==> i + 2 <= |text|
  {
    if text == "" then 0
    else if |text| >= 2 && text[0] == '\n' && text[1] == '\n' then 0
    else 1 + BlankLine(text[1..])
  }

  datatype RequestLine = RequestLine(verb: string, address: string)

  /** Two words, or three of which the last names a protocol version. */
  function RequestLineOf(line: string): Option<RequestLine> {
    var words := Words(Trim(line));
    if |words| == 2 || (|words| == 3 && StartsWith(words[2], "HTTP/") && |words[2]| > 5)
    then Some(RequestLine(words[0], words[1]))
    else None
  }

  datatype HeaderTable = HeaderTable(headers: map<string, FieldValue>, contentType: Option<string>)

  function Extended(prev: Option<FieldValue>, value: string): FieldValue {
    match prev
    case None => One(value)
    case Some(One(first)) => Many([first, value])
    case Some(Many(values)) => Many(values + [value])
  }

  function WithHeader(t: HeaderTable, key: string, value: string): HeaderTable {
    HeaderTable(t.headers[key := Extended(ValueAt(t.headers, key), value)],
                if key == "content-type" then Some(value) else t.contentType)
  }

  /** What one header line adds; a blank line and a line without a colon add nothing. */
  function ReadHeader(t: HeaderTable, line: string): HeaderTable {
    var colon := IndexOf(line, ':');
    if Trim(line) == "" || colon == |line| then t
    else WithHeader(t, Lower(Trim(line[..colon])), Trim(line[colon + 1..]))
  }

  function ReadHeaders(lines: seq<string>): HeaderTable {
    if lines == [] then HeaderTable(map[], None)
    else ReadHeader(ReadHeaders(lines[..|lines| - 1]), lines[|lines| - 1])
  }

  function MediaTypeOf(contentType: Option<string>): string {
    Lower(Trim(Split(contentType.GetOr(""), ';')[0]))
  }

  predicate DeclaresJson(contentType: Option<string>) {
    MediaTypeOf(contentType) == "application/json" || EndsWith(MediaTypeOf(contentType), "+json")
  }

  /** The body as the validator sees it; a declared-JSON text that is none refuses the file. */
  function BodyOf<J>(text: string, contentType: Option<string>, parse: string -> Option<J>): Option<Body<J>> {
    if text == "" then Some(NoBody)
    else if DeclaresJson(contentType) then
      match parse(text) case None => None case Some(j) => Some(Json(j))
    else if contentType.None? && (StartsWith(text, "{") || StartsWith(text, "[")) then
      match parse(text) case None => Some(Plain(text)) case Some(j) => Some(Json(j))
    else Some(Plain(text))
  }

  /** The query of an address; an empty one is not decoded. */
  function ReadQuery(codec: Codec, text: string): map<string, FieldValue> {
    if text == "" then map[] else QueryOf(codec.decode(text))
  }

  /** The request a head and a body stand for. */
  function Assembled<J>(codec: Codec, lines: seq<string>, bodyText: string,
    parse: string -> Option<J>): Option<Request<J>>
    requires lines != []
  {
    match RequestLineOf(lines[0])
    case None => None
    case Some(r) =>
      var q := IndexOf(r.address, '?');
      var table := ReadHeaders(lines[1..]);
      match BodyOf(bodyText, table.contentType, parse)
      case None => None
      case Some(body) =>
        Some(Request(Upper(r.verb), r.address[..q],
          ReadQuery(codec, if q == |r.address| then "" else r.address[q + 1..]),
                     table.headers, table.contentType, body, if bodyText != "" then Some(bodyText) else None))
  }

  function Parsed<J>(codec: Codec, text: string, parse: string -> Option<J>): Option<Request<J>> {
    var normalized := Normalized(text);
    var blank := BlankLine(normalized);
    Assembled(codec, Split(normalized[..blank], '\n'),
              Trim(if blank == |normalized| then "" else normalized[blank + 2..]), parse)
  }

  method ParseHeaders(lines: seq<string>) returns (headers: map<string, FieldValue>, contentType: Option<string>)
    ensures HeaderTable(headers, contentType) == ReadHeaders(lines)
  {
    hide Trim, Lower;
    headers, contentType := map[], None;
    for i := 0 to |lines|
      invariant HeaderTable(headers, contentType) == ReadHeaders(lines[..i])
    {
      assert lines[..i + 1][..i] == lines[..i];
      var line := lines[i];
      if Trim(line) == "" {
        continue;
      }
      var colon := IndexOf(line, ':');
      if colon == |line| {
        continue;
      }
      var key, value := Lower(Trim(line[..colon])), Trim(line[colon + 1..]);
      if key == "content-type" {
        contentType := Some(value);
      }
      if key !in headers {
        headers := headers[key := One(value)];
      } else if headers[key].Many? {
        headers := headers[key := Many(headers[key].values + [value])];
      } else {
        headers := headers[key := Many([headers[key].value, value])];
      }
    }
    assert lines[..|lines|] == lines;
  }

  method ParseBody<J>(bodyText: string, contentType: Option<string>, parse: string -> Option<J>)
    returns (body: Option<Body<J>>)
    ensures body == BodyOf(bodyText, contentType, parse)
  {
    if bodyText == "" {
      return Some(NoBody);
    }
    if DeclaresJson(contentType) {
      var value := parse(bodyText);
      return if value.Some? then Some(Json(value.value)) else None;
    }
    if contentType.None? && (StartsWith(bodyText, "{") || StartsWith(bodyText, "[")) {
      var value := parse(bodyText);
      return Some(if value.Some? then Json(value.value) else Plain(bodyText));
    }
    return Some(Plain(bodyText));
  }

  /** Every distinct name of a decoded query, with all its values. */
  method ParseQuery(codec: Codec, text: string) returns (query: map<string, FieldValue>)
    ensures query == ReadQuery(codec, text)
  {
    query := map[];
    if text == "" {
      return;
    }
    var fields := codec.decode(text);
    var done: set<string> := {};
    for i := 0 to |fields|
      invariant done == NamesOf(fields[..i])
      invariant query == map key | key in done && key != "" :: Shape(ValuesUnder(fields, key))
    {
      var key := fields[i].name;
      assert fields[..i + 1] == fields[..i] + [fields[i]];
      assert NamesOf(fields[..i + 1]) == NamesOf(fields[..i]) + {key};
      if key in done {
        continue;
      }
      done := done + {key};
      if key == "" {
        continue;
      }
      query := query[key := Shape(ValuesUnder(fields, key))];
    }
    assert fields[..|fields|] == fields;
  }

  method ParseHttpFile<J>(codec: Codec, text: string, parse: string -> Option<J>) returns (request: Option<Request<J>>)
    ensures request == Parsed(codec, text, parse)
  {
    hide Words, Trim, Split, Normalized, BodyOf, ReadHeaders, RequestLineOf, ReadQuery;
    var normalized := Normalized(text);
    var blank := BlankLine(normalized);
    var headerPart := normalized[..blank];
    var bodyPart := if blank == |normalized| then "" else normalized[blank + 2..];
    var lines := Split(headerPart, '\n');
    var requestLine := RequestLineOf(lines[0]);
    lines := lines[1..];
    if requestLine.None? {
      return None;
    }
    var address := requestLine.value.address;
    var q := IndexOf(address, '?');
    var path := address[..q];
    var query := ParseQuery(codec, if q == |address| then "" else address[q + 1..]);
    var headers, contentType := ParseHeaders(lines);
    var bodyText := Trim(bodyPart);
    var body := ParseBody(bodyText, contentType, parse);
    if body.None? {
      return None;
    }
    return Some(Request(Upper(requestLine.value.verb), path, query, headers, contentType, body.value,
                        if bodyText != "" then Some(bodyText) else None));
  }
}

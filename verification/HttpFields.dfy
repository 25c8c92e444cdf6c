/**
 * What the parts of an `.http` file are read as, said from their characters.
 */
module HttpFields {
  import opened Options
  import opened Text
  import opened TextWords
  import opened HttpFile

  /** Folding moves the 26 letters to the other case and leaves every other character. */
  lemma LowerExactly(s: string, i: nat)
    requires i < |s|
    ensures |Lower(s)| == |s| == |Upper(s)|
    ensures Lower(s)[i] == if 'A' <= s[i] <= 'Z' then s[i] + ' ' else s[i]
    ensures Upper(s)[i] == if 'a' <= s[i] <= 'z' then s[i] - ' ' else s[i]
  {
  }

  /** A content type declares JSON by what stands before its first semicolon. */
  lemma JsonTypeExactly(media: string, rest: string)
    requires ';' !in media
    ensures DeclaresJson(Some(media + ";" + rest)) <==> IsJsonType(Lower(Trim(media)))
    ensures DeclaresJson(Some(media)) <==> IsJsonType(Lower(Trim(media)))
    ensures !DeclaresJson(None)
  {
    SplitFirst(media, rest, ';');
    assert media + ";" + rest == media + [';'] + rest;
    assert Split("", ';') == [""];
    TrimmedStays("");
    assert !EndsWith("", "+json") && Lower("") == "";
  }

  predicate IsJsonType(media: string) {
    media == "application/json" || (|media| >= 5 && media[|media| - 5..] == "+json")
  }

  /** A request line is two words, or three of which the last is a protocol version. */
  lemma RequestLineExactly(words: seq<string>)
    requires AreWords(words) && words != []
    ensures RequestLineOf(Line(words)) ==
      if |words| == 2 || (|words| == 3 && |words[2]| > 5 && words[2][..5] == "HTTP/")
      then Some(RequestLine(words[0], words[1])) else None
  {
    hide AreWords, Words, Line, Trim;
    WordsReadBack(words);
    LineIsTrimmed(words);
    TrimmedStays(Line(words));
  }

  lemma {:induction false} LineIsTrimmed(words: seq<string>)
    requires AreWords(words) && words != []
    ensures Line(words) != "" && Trimmed(Line(words))
  {
    assert words[0] in words;
    if |words| > 1 {
      LineIsTrimmed(words[1..]);
      var line, rest := Line(words), Line(words[1..]);
      assert line == words[0] + [' '] + rest;
      assert line[0] == words[0][0] && line[|line| - 1] == rest[|rest| - 1];
    }
  }

  /** A line with a colon is a header: the trimmed name in lower case, and the trimmed text after the first colon. */
  lemma HeaderLineExactly(t: HeaderTable, name: string, value: string)
    requires ':' !in name
    ensures var key, text := Lower(Trim(name)), Trim(value); var r := ReadHeader(t, name + ":" + value);
      && key in r.headers && r.headers.Keys == t.headers.Keys + {key}
      && (forall other :: other in t.headers && other != key ==> r.headers[other] == t.headers[other])
      && r.headers[key] ==
           (if key !in t.headers then One(text)
            else if t.headers[key].One? then Many([t.headers[key].value, text])
            else Many(t.headers[key].values + [text]))
      && r.contentType == if key == "content-type" then Some(text) else t.contentType
  {
    hide Trim, Lower;
    var line := name + ":" + value;
    assert line == name + [':'] + value;
    IndexOfFirst(name, ':', value);
    HoldsColon(line, |name|);
    assert line[..|name|] == name && line[|name| + 1..] == value;
  }

  lemma HoldsColon(line: string, i: nat)
    requires i < |line| && line[i] == ':'
    ensures Trim(line) != ""
  {
    TrimStartKeeps(line, i);
    var start := TrimStart(line);
    var j :| 0 <= j < |start| && start[j] == ':';
    TrimEndKeeps(start, j);
  }

  lemma {:induction false} TrimStartKeeps(s: string, i: nat)
    requires i < |s| && s[i] == ':'
    ensures ':' in TrimStart(s)
  {
    if IsSpace(s[0]) {
      TrimStartKeeps(s[1..], i - 1);
    }
  }

  lemma {:induction false} TrimEndKeeps(s: string, i: nat)
    requires i < |s| && s[i] == ':'
    ensures TrimEnd(s) != ""
  {
    if IsSpace(s[|s| - 1]) {
      TrimEndKeeps(s[..|s| - 1], i);
    }
  }

  /** A line without a colon, blank ones included, adds nothing. */
  lemma OtherLineAddsNothing(t: HeaderTable, line: string)
    requires ':' !in line
    ensures ReadHeader(t, line) == t
  {
  }

  /**
   * What a body is read as: nothing when it is empty; JSON, or a refusal, when it is
   * declared JSON; JSON if it is some when it is not declared and opens like it; else text.
   */
  lemma BodyExactly<J>(text: string, contentType: Option<string>, parse: string -> Option<J>)
    ensures var body := BodyOf(text, contentType, parse);
      && (body.None? <==> text != "" && DeclaresJson(contentType) && parse(text).None?)
      && (body == Some(NoBody) <==> text == "")
      && (text != "" && parse(text).Some? ==>
            (body == Some(Json(parse(text).value)) <==> MayBeJson(text, contentType)))
      && (text != "" && parse(text).None? && !DeclaresJson(contentType) ==> body == Some(Plain(text)))
      && (text != "" && contentType.Some? && !DeclaresJson(contentType) ==> body == Some(Plain(text)))
      && (text != "" && contentType.None? && !OpensJson(text) ==> body == Some(Plain(text)))
  {
    JsonTypeExactly("", "");
  }

  /** Declared JSON, or not declared and opening like it. */
  predicate MayBeJson(text: string, contentType: Option<string>) {
    DeclaresJson(contentType) || (contentType.None? && OpensJson(text))
  }

  predicate OpensJson(text: string) {
    text != "" && (text[0] == '{' || text[0] == '[')
  }

  // ---- What is printed ----

  /** The content type is printed first, unless there is none or it is empty; then the headers, in order. */
  lemma HeadersPrinted(c: Case)
    ensures c.contentType.None? || c.contentType == Some("") ==> c.AllHeaders() == c.headers
    ensures c.contentType.Some? && c.contentType.value != "" ==>
      c.AllHeaders() == [Field("Content-Type", c.contentType.value)] + c.headers
  {
    assert [] + c.headers == c.headers;
  }

  /** Nothing an encoder writes is a separator of the query. */
  ghost predicate WritesNoSeparator(codec: Codec) {
    forall s :: IsPlain(codec.encode(s))
  }

  predicate IsPlain(s: string) {
    '&' !in s && '=' !in s
  }

  /**
   * The query splits at its ampersands into one text for each field, and that at its equals sign into
   * name and value.
   */
  lemma QuerySplits(codec: Codec, fields: seq<Field>, i: nat)
    requires WritesNoSeparator(codec) && i < |fields|
    ensures |Split(QueryText(codec, fields), '&')| == |fields|
    ensures Split(Split(QueryText(codec, fields), '&')[i], '=')
      == [codec.encode(fields[i].name), codec.encode(fields[i].value)]
  {
    var texts := FieldTexts(codec, fields);
    forall text | text in texts ensures '&' !in text {
      var k :| 0 <= k < |texts| && texts[k] == text;
      assert IsPlain(codec.encode(fields[k].name)) && IsPlain(codec.encode(fields[k].value));
    }
    SplitJoin(texts, '&');
    var name, value := codec.encode(fields[i].name), codec.encode(fields[i].value);
    assert IsPlain(name) && IsPlain(value);
    assert texts[i] == name + ['='] + value;
    SplitFirst(name, value, '=');
    SplitFirst(value, "", '=');
  }

  /** The fields of a query: each parameter's values in order, one field for each. */
  lemma {:induction false} FieldsExactly(params: seq<Param>, f: Field)
    ensures f in QueryFields(params) <==> exists p :: p in params && p.name == f.name && HasValue(p.values, f.value)
  {
    if params != [] {
      var n := |params| - 1;
      FieldsExactly(params[..n], f);
      assert params == params[..n] + [params[n]];
      ParamHas(params[n], f);
    }
  }

  predicate HasValue(values: FieldValue, value: string) {
    match values case One(only) => value == only case Many(all) => value in all
  }

  lemma ParamHas(p: Param, f: Field)
    ensures f in ParamFields(p) <==> p.name == f.name && HasValue(p.values, f.value)
  {
    if p.values.Many? && f.value in p.values.values && p.name == f.name {
      var i :| 0 <= i < |p.values.values| && p.values.values[i] == f.value;
      assert ParamFields(p)[i] == f;
    }
  }

  /**
   * White space is what ECMAScript trims: the line ends and tabs, the space separators of Unicode, and
   * the byte order mark.
   */
  lemma SpaceExactly(c: char)
    ensures IsSpace(c) <==>
      || c == '\t' || c == '\n' || c == '\U{000B}' || c == '\U{000C}' || c == '\r' || c == ' '
      || c == '\U{00A0}' || c == '\U{1680}' || ('\U{2000}' <= c && c <= '\U{200A}')
      || c == '\U{2028}' || c == '\U{2029}' || c == '\U{202F}' || c == '\U{205F}' || c == '\U{3000}' || c == '\U{FEFF}'
  {
  }
}

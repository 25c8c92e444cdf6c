/**
 * Addresses of rejected values: a path within a value, written onto the pointer of the value (RFC 6901).
 */
module ReasonPointers {
  import opened Options
  import SchemaHeap
  import opened Findings
  import opened Spans
  import opened Text

  function Replaced(s: string, c: char, text: string): string {
    if s == "" then "" else (if s[0] == c then text else [s[0]]) + Replaced(s[1..], c, text)
  }

  /** A segment as a pointer spells it: first every tilde, then every slash. */
  function Escaped(segment: string): string {
    Replaced(Replaced(segment, '~', "~0"), '/', "~1")
  }

  /** What a reader of the pointer makes of a token (section 4 of RFC 6901). */
  function Unescaped(token: string): string
    decreases |token|
  {
    if token == "" then ""
    else if |token| >= 2 && token[0] == '~' && token[1] == '1' then "/" + Unescaped(token[2..])
    else if |token| >= 2 && token[0] == '~' && token[1] == '0' then "~" + Unescaped(token[2..])
    else [token[0]] + Unescaped(token[1..])
  }

  method PointerFor(pointer: string, path: seq<string>) returns (out: string)
    ensures out == Extended(pointer, path)
  {
    out := pointer;
    for i := 0 to |path|
      invariant out == Extended(pointer, path[..i])
    {
      assert path[..i + 1][..i] == path[..i];
      out := out + "/" + Escaped(path[i]);
    }
    assert path[..|path|] == path;
  }

  function Extended(pointer: string, path: seq<string>): string {
    if path == [] then pointer else Extended(pointer, path[..|path| - 1]) + "/" + Escaped(path[|path| - 1])
  }

  /** The segments a pointer names; the empty pointer names the whole document. */
  function Segments(pointer: string): seq<string> {
    if pointer == "" then [] else AllUnescaped(Split(pointer[1..], '/'))
  }

  function AllUnescaped(tokens: seq<string>): seq<string> {
    if tokens == [] then [] else AllUnescaped(tokens[..|tokens| - 1]) + [Unescaped(tokens[|tokens| - 1])]
  }

  predicate IsPointer(pointer: string) {
    pointer == "" || pointer[0] == '/'
  }

  lemma {:induction false} ReplacedJoins(a: string, b: string, c: char, text: string)
    ensures Replaced(a + b, c, text) == Replaced(a, c, text) + Replaced(b, c, text)
  {
    if a == "" {
      assert a + b == b;
    } else {
      assert (a + b)[0] == a[0] && (a + b)[1..] == a[1..] + b;
      ReplacedJoins(a[1..], b, c, text);
    }
  }

  /** Escaping goes character by character, although it is done in two passes over the segment. */
  lemma EscapedStep(segment: string)
    requires segment != ""
    ensures Escaped(segment) == Escaped([segment[0]]) + Escaped(segment[1..])
    ensures Escaped([segment[0]])
      == (if segment[0] == '~' then "~0" else if segment[0] == '/' then "~1" else [segment[0]])
  {
    var c := segment[0];
    assert segment == [c] + segment[1..];
    ReplacedJoins([c], segment[1..], '~', "~0");
    ReplacedJoins(Replaced([c], '~', "~0"), Replaced(segment[1..], '~', "~0"), '/', "~1");
    assert [c][1..] == "";
    assert Replaced([c], '~', "~0") == if c == '~' then "~0" else [c];
    assert "~0"[1..] == "0" && "0"[1..] == "";
  }

  /** A spelled segment holds no slash, so it cannot be split, and it reads back as the segment. */
  lemma {:induction false} EscapedReadsBack(segment: string)
    ensures '/' !in Escaped(segment) && Unescaped(Escaped(segment)) == segment
  {
    hide Escaped;
    if segment == "" {
      EscapedNothing();
    } else {
      EscapedStep(segment);
      EscapedReadsBack(segment[1..]);
      var head, tail := Escaped([segment[0]]), Escaped(segment[1..]);
      assert (head + tail)[|head|..] == tail;
      assert segment == [segment[0]] + segment[1..];
    }
  }

  /** The two-pass spelling is the one the schema inventory gives its own pointers. */
  lemma {:induction false} EscapedAsInInventory(segment: string)
    ensures Escaped(segment) == SchemaHeap.Escape(segment)
  {
    hide Escaped;
    if segment == "" {
      EscapedNothing();
    } else {
      EscapedStep(segment);
      EscapedAsInInventory(segment[1..]);
    }
  }

  lemma EscapedNothing()
    ensures Escaped("") == ""
  {
  }

  lemma {:induction false} SplitLast(s: string, last: string)
    requires '/' !in last
    ensures Split(s + ['/'] + last, '/') == Split(s, '/') + [last]
  {
    var n := IndexOf(s, '/');
    if n == |s| {
      assert s[..n] == s;
      SplitFirst(s, last, '/');
      SplitFirst(last, "", '/');
    } else {
      var head, tail := s[..n], s[n + 1..];
      assert s == head + ['/'] + tail;
      SplitFirst(head, tail, '/');
      SplitLast(tail, last);
      SplitFirst(head, tail + ['/'] + last, '/');
      assert s + ['/'] + last == head + ['/'] + (tail + ['/'] + last);
      ConcatAssoc([head], Split(tail, '/'), [last]);
    }
  }

  lemma OneSegmentMore(pointer: string, segment: string)
    requires IsPointer(pointer)
    ensures IsPointer(pointer + "/" + Escaped(segment))
    ensures Segments(pointer + "/" + Escaped(segment)) == Segments(pointer) + [segment]
  {
    var token := Escaped(segment);
    var longer := pointer + "/" + token;
    EscapedReadsBack(segment);
    if pointer == "" {
      assert longer[1..] == token;
      SplitFirst(token, "", '/');
      assert Split(longer[1..], '/') == [token];
      assert AllUnescaped([token]) == [segment] by { assert [token][..0] == []; }
    } else {
      assert longer[1..] == pointer[1..] + ['/'] + token;
      SplitLast(pointer[1..], token);
      assert (Split(pointer[1..], '/') + [token])[..|Split(pointer[1..], '/')|] == Split(pointer[1..], '/');
    }
  }

  /**
   * A path written onto a pointer is read back as the pointer's own segments and then the path,
   * whatever the names hold.
   */
  lemma {:induction false} PathReadsBack(pointer: string, path: seq<string>)
    requires IsPointer(pointer)
    ensures IsPointer(Extended(pointer, path)) && Segments(Extended(pointer, path)) == Segments(pointer) + path
  {
    if path != [] {
      var n := |path| - 1;
      PathReadsBack(pointer, path[..n]);
      OneSegmentMore(Extended(pointer, path[..n]), path[n]);
      assert path == path[..n] + [path[n]];
    }
  }

  // ---- The inventory's own pointers ----

  lemma {:induction false} PlainEscape(s: string)
    requires '~' !in s && '/' !in s
    ensures SchemaHeap.Escape(s) == s
  {
    if s != "" {
      PlainEscape(s[1..]);
      assert s == [s[0]] + s[1..];
    }
  }

  /** The segments of a subschema below its parent: its keyword, then the index or name under it. */
  function StepOf(e: SchemaHeap.Entry): seq<string> {
    match e.at
    case Single => [e.key]
    case Index(digits) => [e.key, digits]
    case Name(name) => [e.key, name]
  }

  /** The pointer of a subschema reads back as its parent's segments and its own, whatever its name holds. */
  lemma ChildPointerReadsBack(parent: string, e: SchemaHeap.Entry)
    requires IsPointer(parent) && '~' !in e.key && '/' !in e.key
    ensures var pointer := SchemaHeap.ChildPointer(parent, e);
      IsPointer(pointer) && Segments(pointer) == Segments(parent) + StepOf(e)
  {
    hide Segments, Escaped, IsPointer;
    PlainEscape(e.key);
    EscapedAsInInventory(e.key);
    OneSegmentMore(parent, e.key);
    var below := parent + "/" + e.key;
    match e.at
    case Single =>
      assert below + "" == below;
    case Index(digits) =>
      EscapedAsInInventory(digits);
      OneSegmentMore(below, digits);
      assert below + ("/" + SchemaHeap.Escape(digits)) == below + "/" + SchemaHeap.Escape(digits);
      assert Segments(parent) + [e.key] + [digits] == Segments(parent) + [e.key, digits];
    case Name(name) =>
      EscapedAsInInventory(name);
      OneSegmentMore(below, name);
      assert below + ("/" + SchemaHeap.Escape(name)) == below + "/" + SchemaHeap.Escape(name);
      assert Segments(parent) + [e.key] + [name] == Segments(parent) + [e.key, name];
  }

  // ---- Where the reasons sit ----

  datatype ReasonPointer = ReasonPointer(index: nat, pointer: string)

  function PointersAmong(reasons: seq<Reason>, pointer: string): seq<ReasonPointer> {
    if reasons == [] then []
    else
      var n := |reasons| - 1;
      PointersAmong(reasons[..n], pointer) + match LocatedPathOf(reasons[n])
        case None => []
        case Some(path) => [ReasonPointer(n, Extended(pointer, path))]
  }

  method ReasonPointersFor(f: Finding) returns (out: seq<ReasonPointer>)
    ensures out == if f.target.None? then [] else PointersAmong(f.reasons, f.target.value.pointer)
  {
    out := [];
    if f.target.None? {
      return;
    }
    for i := 0 to |f.reasons|
      invariant out == PointersAmong(f.reasons[..i], f.target.value.pointer)
    {
      assert f.reasons[..i + 1][..i] == f.reasons[..i];
      var path := LocatedPathOf(f.reasons[i]);
      if path.None? {
        continue;
      }
      var pointer := PointerFor(f.target.value.pointer, path.value);
      out := out + [ReasonPointer(i, pointer)];
    }
    assert f.reasons[..|f.reasons|] == f.reasons;
  }

  /** A reason is given an address if and only if it names a position inside the value. */
  lemma {:induction false} ReasonIsAddressed(reasons: seq<Reason>, pointer: string, i: nat, where: string)
    requires i < |reasons|
    ensures ReasonPointer(i, where) in PointersAmong(reasons, pointer)
      <==> LocatedPathOf(reasons[i]).Some? && where == Extended(pointer, LocatedPathOf(reasons[i]).value)
  {
    hide LocatedPathOf, Extended;
    var n := |reasons| - 1;
    IndexesBelow(reasons[..n], pointer);
    if i < n {
      ReasonIsAddressed(reasons[..n], pointer, i, where);
    }
  }

  /** The member a container lacks, as the path to it ends; nothing for reasons about a value that is there. */
  function MissingMember(r: Reason): seq<string> {
    if ReasonTargetFor(r.code) == Self || r.path == [] then [] else [r.path[|r.path| - 1]]
  }

  /**
   * The address names the position the reason's path names inside the value, or the value
   * holding it where the last segment names a member that is missing. It never names the
   * rejected value as a whole.
   */
  lemma AddressNamesPosition(reasons: seq<Reason>, pointer: string, i: nat, where: string)
    requires i < |reasons| && IsPointer(pointer) && ReasonPointer(i, where) in PointersAmong(reasons, pointer)
    ensures IsPointer(where) && Segments(pointer) < Segments(where)
    ensures Segments(where) + MissingMember(reasons[i]) == Segments(pointer) + reasons[i].path
  {
    hide LocatedPathOf, Segments, IsPointer, ReasonTargetFor, PointersAmong;
    ReasonIsAddressed(reasons, pointer, i, where);
    LocatedPaths(reasons[i]);
    PathReadsBack(pointer, LocatedPathOf(reasons[i]).value);
  }

  lemma LocatedPaths(r: Reason)
    ensures LocatedPathOf(r).Some? <==> r.path != [] && (ReasonTargetFor(r.code) == Container ==> |r.path| > 1)
    ensures LocatedPathOf(r).Some? ==> LocatedPathOf(r).value != []
    ensures LocatedPathOf(r).Some? ==>
      LocatedPathOf(r).value + MissingMember(r) == r.path
  {
  }

  lemma {:induction false} IndexesBelow(reasons: seq<Reason>, pointer: string)
    ensures forall p :: p in PointersAmong(reasons, pointer) ==> p.index < |reasons|
  {
    if reasons != [] {
      IndexesBelow(reasons[..|reasons| - 1], pointer);
    }
  }
}

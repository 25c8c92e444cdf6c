/**
 * Schemas as the checker meets them: a finite graph of JavaScript objects.
 *
 * Objects are compared by identity and may be shared or cyclic, so a schema
 * value is either the index of an object in the heap or some other value
 * (a boolean, a number, `null`, an array), which has no subschemas.
 */
module SchemaHeap {
  import opened Options

  type Id = nat

  datatype Value = Obj(id: Id) | Other(tag: int)

  /** How a subschema sits under its keyword: directly, in an array, or in a map. */
  datatype Step = Single | Index(digits: string) | Name(name: string)

  datatype Entry = Entry(key: string, at: Step, value: Value)

  /** `$ref` and `$dynamicRef` as written; only a string is ever followed. */
  datatype RefField = Absent | NotAString | Text(ref: string)

  datatype RefKind = StaticRef | DynamicRef

  /** The parts of a schema object the inventory reads. */
  datatype Schema = Schema(
    resourceId: Option<string>,
    dialectUri: Option<string>,
    ref: RefField,
    dynamicRef: RefField,
    dynamicAnchor: Option<string>,
    entries: seq<Entry>)

  type Heap = seq<Schema>

  const EMPTY_SCHEMA := Schema(None, None, Absent, Absent, None, [])

  /** The object an identity names. An identity outside the heap names an object with nothing in it. */
  function SchemaOf(heap: Heap, id: Id): Schema {
    if id < |heap| then heap[id] else EMPTY_SCHEMA
  }

  predicate InHeap(heap: Heap, v: Value) {
    v.Obj? ==> v.id < |heap|
  }

  ghost function IdsBelow(n: nat): (ids: set<Id>)
    ensures forall id: Id :: id in ids <==> id < n
    ensures |ids| == n
  {
    if n == 0 then {} else IdsBelow(n - 1) + {n - 1}
  }

  /** How many objects of the heap a set has not reached; every walk below terminates on it. */
  ghost function Unreached(heap: Heap, reached: set<Id>): nat {
    |IdsBelow(|heap|) - reached|
  }

  lemma UnreachedShrinks(heap: Heap, small: set<Id>, large: set<Id>)
    requires small <= large
    ensures Unreached(heap, large) <= Unreached(heap, small)
    ensures (exists id: Id :: id < |heap| && id in large && id !in small)
      ==> Unreached(heap, large) < Unreached(heap, small)
  {
    SetSizes(IdsBelow(|heap|) - large, IdsBelow(|heap|) - small);
    if id: Id :| id < |heap| && id in large && id !in small {
      SetSizes(IdsBelow(|heap|) - large, IdsBelow(|heap|) - small - {id});
    }
  }

  lemma SetSizes<T>(a: set<T>, b: set<T>)
    requires a <= b
    ensures |a| <= |b|
  {
    assert b == a + (b - a);
    assert |b| == |a| + |b - a|;
  }

  /** OAS 3.0 drops every sibling of `$ref` except the two prose fields. */
  predicate Discarded(s: Schema, key: string, suppress: bool) {
    suppress && s.ref != Absent && key != "$ref" && key != "description" && key != "summary"
  }

  function KeptFrom(s: Schema, suppress: bool, entries: seq<Entry>): seq<Entry> {
    if entries == [] then []
    else KeptOne(s, suppress, entries[0]) + KeptFrom(s, suppress, entries[1..])
  }

  function KeptOne(s: Schema, suppress: bool, e: Entry): seq<Entry> {
    if Discarded(s, e.key, suppress) then [] else [e]
  }

  lemma {:induction false} KeptFromExactly(s: Schema, suppress: bool, entries: seq<Entry>)
    ensures forall e :: e in KeptFrom(s, suppress, entries) <==> e in entries && !Discarded(s, e.key, suppress)
  {
    if entries != [] {
      KeptFromExactly(s, suppress, entries[1..]);
      assert entries == [entries[0]] + entries[1..];
    }
  }

  /** The subschemas a walk descends into, in keyword order. */
  function Kept(s: Schema, suppress: bool): seq<Entry> {
    KeptFrom(s, suppress, s.entries)
  }

  /** The reference a walk follows for one keyword, if it follows one. */
  function RefOf(s: Schema, kind: RefKind, suppress: bool): Option<string> {
    match kind
    case StaticRef =>
      if s.ref.Text? && !Discarded(s, "$ref", suppress) then Some(s.ref.ref) else None
    case DynamicRef =>
      if s.dynamicRef.Text? && !Discarded(s, "$dynamicRef", suppress) then Some(s.dynamicRef.ref) else None
  }

  /** RFC 6901 escaping of one reference token. */
  function Escape(token: string): string {
    if token == "" then ""
    else (if token[0] == '~' then "~0" else if token[0] == '/' then "~1" else [token[0]]) + Escape(token[1..])
  }

  /** The pointer of a subschema, given the pointer of the schema that holds it. */
  function ChildPointer(parent: string, e: Entry): string {
    parent + "/" + e.key +
    match e.at
    case Single => ""
    case Index(digits) => "/" + Escape(digits)
    case Name(name) => "/" + Escape(name)
  }

  /** The dotted rendering of the same step. */
  function ChildPath(parent: string, e: Entry): string {
    var step := match e.at
      case Single => e.key
      case Index(digits) => e.key + "[" + digits + "]"
      case Name(name) => e.key + "." + name;
    if parent == "" then step else parent + "." + step
  }
}

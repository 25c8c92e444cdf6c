/**
 * How references are read while the inventory is built.
 *
 * Resolving a reference is the reference resolver's work and is a parameter
 * here: it may answer differently in every resolution scope. What the inventory
 * itself computes, the document pointer a reference lands on, is spelled out.
 */
module References {
  import opened Options
  import opened SchemaHeap
  import opened Dialects

  /** The roots a resolution graph was built from; rebuilding the graph is a new scope. */
  datatype Scope = Scope(authored: seq<Root>, additional: seq<Root>)

  /** What the URI part of a reference names. */
  datatype Resource = DocumentRoot | SchemaNode(value: Value) | NoResource

  datatype Resolver = Resolver(
    /** The schema a reference resolves to, or nothing where resolving it throws. */
    target: (Scope, string, Id) -> Option<Value>,
    /** The resource the part before the fragment names. */
    resource: (Scope, string, Id) -> Resource,
    /** Whether the reference could be made absolute against its base. */
    absolute: (Scope, string, Id) -> bool,
    /** The fragment read as a JSON pointer; a plain-name fragment is not one. */
    fragment: (string, bool) -> Option<string>,
    /** The base URI in force at an object. */
    base: (Scope, Id) -> string,
    /** The object a resource's dynamic anchor names. */
    dynamicAnchor: (Scope, string, string) -> Option<Id>)

  /** The schema a reference reaches; a resolver answers with values of the document only. */
  function Target(c: Config, refs: Resolver, scope: Scope, ref: string, from: Id): Option<Value> {
    match refs.target(scope, ref, from)
    case None => None
    case Some(Other(tag)) => Some(Other(tag))
    case Some(Obj(id)) => if id < |c.heap| then Some(Obj(id)) else None
  }

  function PointerOf(t: Tables, v: Value): Option<string> {
    if Recorded(t, v) then Some(t.nodes[v.id].pointer) else None
  }

  /** The document pointer of a reference whose target is known: the target's own, else resource plus fragment. */
  function RefPointer(refs: Resolver, scope: Scope, t: Tables, ref: string, from: Id, target: Value): Option<string> {
    if PointerOf(t, target).Some? then PointerOf(t, target)
    else
      match refs.fragment(ref, refs.absolute(scope, ref, from))
      case None => None
      case Some(fragment) =>
        match refs.resource(scope, ref, from)
        case DocumentRoot => Some(fragment)
        case SchemaNode(root) =>
          (match PointerOf(t, root) case None => None case Some(prefix) => Some(prefix + fragment))
        case NoResource => None
  }

  /** The reference of one keyword that the inventory follows: kept, a string, and resolvable. */
  datatype Followed = Followed(target: Value, pointer: Option<string>)

  function Follow(c: Config, refs: Resolver, scope: Scope, t: Tables, from: Id, kind: RefKind): Option<Followed> {
    match RefOf(SchemaOf(c.heap, from), kind, c.Suppress())
    case None => None
    case Some(ref) =>
      match Target(c, refs, scope, ref, from)
      case None => None
      case Some(target) => Some(Followed(target, RefPointer(refs, scope, t, ref, from, target)))
  }

  /** The root a followed reference establishes, when it lands on no known position. */
  function NewRoot(c: Config, refs: Resolver, scope: Scope, t: Tables, from: Id, kind: RefKind): Option<Root> {
    match Follow(c, refs, scope, t, from, kind)
    case None => None
    case Some(followed) =>
      if followed.pointer.None? || followed.pointer.value == "" || followed.pointer.value in t.positions then None
      else Some(Root(followed.target, followed.pointer.value))
  }

  /** Every reference of the first `n` listed schemas lands nowhere, on the document itself, or on a known position. */
  ghost predicate SettledUpTo(c: Config, refs: Resolver, scope: Scope, t: Tables, n: nat) {
    forall i, kind :: 0 <= i < n && i < |t.entries| ==> NewRoot(c, refs, scope, t, t.entries[i].id, kind).None?
  }
}

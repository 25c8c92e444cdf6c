/**
 * Resolving signed terms into what runs, what is reportable, and which terms changed nothing.
 *
 * `Live` says, from the set of keys alone, which keys a report leaves standing. The
 * resolver decides it greedily, most specific spelling first.
 */
module Selection {
  import opened Options
  import opened Codes
  import opened FindingKeys

  /** One parsed term: as written, whether it subtracts, and what it names. */
  datatype Term = Term(text: string, exclude: bool, key: Key)

  datatype Noop = Repeats | AlreadySelected | OutsideSelection | AlreadyExcluded

  datatype Resolved = Resolved(
    base: set<string>, classes: set<string>, compileSchemas: bool, excludeKeys: seq<Key>, reasons: seq<Option<Noop>>)

  // ---- Redundancy, from the set of keys alone ----

  /** What a key names inside a universe of codes. */
  function Inside(reg: Registry, within: set<string>, key: Key): set<string> {
    Expand(reg, key) * within
  }

  ghost predicate InSome(reg: Registry, keys: set<Key>, code: string) {
    exists k :: k in keys && code in Expand(reg, k)
  }

  /** The keys of one kind. */
  function OfKind(keys: set<Key>, kind: Kind): set<Key> {
    set k | k in keys && k.kind == kind
  }

  /** A code some broader key of the set also names. */
  ghost predicate CodeCovered(reg: Registry, keys: set<Key>, code: string) {
    InSome(reg, OfKind(keys, FamilyKey) + OfKind(keys, ClassKey), code)
  }

  /** A family whose codes the classes of the set already name. */
  ghost predicate FamilyCovered(reg: Registry, keys: set<Key>, within: set<string>, key: Key) {
    forall code :: code in Inside(reg, within, key) ==> InSome(reg, OfKind(keys, ClassKey), code)
  }

  ghost predicate LiveFamily(reg: Registry, keys: set<Key>, within: set<string>, key: Key) {
    key in keys && key.kind == FamilyKey && Inside(reg, within, key) != {} && !FamilyCovered(reg, keys, within, key)
  }

  /** A class whose codes live families of the set already name. */
  ghost predicate ClassCovered(reg: Registry, keys: set<Key>, within: set<string>, key: Key) {
    forall code :: code in Inside(reg, within, key)
      ==> exists f :: LiveFamily(reg, keys, within, f) && code in Expand(reg, f)
  }

  ghost predicate Covered(reg: Registry, keys: set<Key>, within: set<string>, key: Key) {
    match key.kind
    case CodeKey => CodeCovered(reg, keys, key.value)
    case FamilyKey => FamilyCovered(reg, keys, within, key)
    case ClassKey => ClassCovered(reg, keys, within, key)
  }

  /** A key that still changes something: it names a code of the universe that the others leave to it. */
  ghost predicate Live(reg: Registry, keys: set<Key>, within: set<string>, key: Key) {
    key in keys && Inside(reg, within, key) != {} && !Covered(reg, keys, within, key)
  }

  ghost predicate AllParsed(reg: Registry, keys: set<Key>) {
    forall k :: k in keys ==> Parsed(reg, k)
  }

  lemma LiveFamilyIsLive(reg: Registry, keys: set<Key>, within: set<string>, key: Key)
    ensures LiveFamily(reg, keys, within, key) <==> key.kind == FamilyKey && Live(reg, keys, within, key)
  {
  }

  lemma CodeNamesItself(reg: Registry, key: Key, code: string)
    requires key.kind == CodeKey && code in Expand(reg, key)
    ensures code == key.value
  {
  }

  /** A covered key's codes are named by a broader key, or for a class by a live family. */
  lemma CoveringKey(reg: Registry, keys: set<Key>, within: set<string>, key: Key, code: string) returns (other: Key)
    requires Covered(reg, keys, within, key) && code in Inside(reg, within, key)
    ensures other in keys && code in Inside(reg, within, other)
    ensures match key.kind
      case CodeKey => other.kind != CodeKey
      case FamilyKey => other.kind == ClassKey
      case ClassKey => LiveFamily(reg, keys, within, other)
  {
    hide Expand;
    match key.kind
    case CodeKey =>
      CodeNamesItself(reg, key, code);
      other :| other in OfKind(keys, FamilyKey) + OfKind(keys, ClassKey) && code in Expand(reg, other);
    case FamilyKey =>
      assert InSome(reg, OfKind(keys, ClassKey), code);
      other :| other in OfKind(keys, ClassKey) && code in Expand(reg, other);
    case ClassKey =>
      other :| LiveFamily(reg, keys, within, other) && code in Expand(reg, other);
  }

  /** Whatever a key names inside the universe, some live key names. */
  lemma LiveKeysCover(reg: Registry, keys: set<Key>, within: set<string>, key: Key, code: string) returns (live: Key)
    requires key in keys && code in Inside(reg, within, key)
    ensures Live(reg, keys, within, live) && code in Inside(reg, within, live)
  {
    hide Inside, Covered, LiveFamily;
    live := key;
    if live.kind == CodeKey && Covered(reg, keys, within, live) {
      live := CoveringKey(reg, keys, within, live, code);
    }
    if live.kind == FamilyKey && Covered(reg, keys, within, live) {
      live := CoveringKey(reg, keys, within, live, code);
    }
    if live.kind == ClassKey && Covered(reg, keys, within, live) {
      live := CoveringKey(reg, keys, within, live, code);
      LiveFamilyIsLive(reg, keys, within, live);
    }
  }

  /** Every live key names a code of the universe that no other live key names. */
  lemma LiveKeyIsNeeded(reg: Registry, keys: set<Key>, within: set<string>, key: Key) returns (code: string)
    requires Valid(reg) && AllParsed(reg, keys) && Live(reg, keys, within, key)
    ensures code in Inside(reg, within, key)
    ensures forall other :: Live(reg, keys, within, other) && other != key ==> code !in Expand(reg, other)
  {
    hide Expand, Parsed, Valid;
    code :| code in Inside(reg, within, key);
    if key.kind == FamilyKey {
      code :| code in Inside(reg, within, key) && !InSome(reg, OfKind(keys, ClassKey), code);
    } else if key.kind == ClassKey {
      code :| code in Inside(reg, within, key)
        && !exists f :: LiveFamily(reg, keys, within, f) && code in Expand(reg, f);
    }
    forall other | Live(reg, keys, within, other) && other != key ensures code !in Expand(reg, other) {
      NeededAgainst(reg, keys, within, key, code, other);
    }
  }

  lemma BroaderCovers(reg: Registry, keys: set<Key>, key: Key, code: string)
    requires key in keys && key.kind != CodeKey && code in Expand(reg, key)
    ensures CodeCovered(reg, keys, code)
  {
    hide Expand;
    assert key in OfKind(keys, FamilyKey) + OfKind(keys, ClassKey);
  }

  /** The code a live key is needed for, against one other live key. */
  lemma NeededAgainst(reg: Registry, keys: set<Key>, within: set<string>, key: Key, code: string, other: Key)
    requires Valid(reg) && AllParsed(reg, keys) && Live(reg, keys, within, key) && Live(reg, keys, within, other)
      && other != key
    requires code in Inside(reg, within, key)
    requires key.kind == FamilyKey ==> !InSome(reg, OfKind(keys, ClassKey), code)
    requires key.kind == ClassKey ==> !exists f :: LiveFamily(reg, keys, within, f) && code in Expand(reg, f)
    ensures code !in Expand(reg, other)
  {
    hide Expand, Parsed, Valid, CodeCovered;
    if key.kind == other.kind {
      SameKindApart(reg, key, other);
    } else if code in Expand(reg, other) {
      if other.kind == CodeKey {
        CodeNamesItself(reg, other, code);
        BroaderCovers(reg, keys, key, code);
      } else if key.kind == CodeKey {
        CodeNamesItself(reg, key, code);
        BroaderCovers(reg, keys, other, code);
      }
    }
  }

  /** The set of live keys. */
  ghost function LiveKeys(reg: Registry, keys: set<Key>, within: set<string>): set<Key> {
    set k | k in keys && Live(reg, keys, within, k)
  }

  /** Keeping only the live keys leaves every one of them live. */
  lemma LiveKeysStayLive(reg: Registry, keys: set<Key>, within: set<string>)
    requires Valid(reg) && AllParsed(reg, keys)
    ensures LiveKeys(reg, LiveKeys(reg, keys, within), within) == LiveKeys(reg, keys, within)
  {
    hide Expand, Parsed, Valid;
    var left := LiveKeys(reg, keys, within);
    forall key | key in left ensures Live(reg, left, within, key) {
      var code := LiveKeyIsNeeded(reg, keys, within, key);
      if Covered(reg, left, within, key) {
        var other := CoveringKey(reg, left, within, key, code);
      }
    }
  }
}

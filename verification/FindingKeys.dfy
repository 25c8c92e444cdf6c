/**
 * The keys that name findings on the command line: a code, a family of codes, or a class.
 */
module FindingKeys {
  import opened Options
  import opened Text
  import opened Codes

  datatype Kind = CodeKey | FamilyKey | ClassKey

  datatype Key = Key(kind: Kind, value: string)

  /** Every code a key may select; the malformed class's are not among them. */
  function Selectable(reg: Registry): set<string> {
    set cls, code | cls in reg.classes && code in CodesOf(reg, cls) :: code
  }

  /** Every code a check can emit. */
  function AllCodes(reg: Registry): set<string> {
    Selectable(reg) + set code | code in CodesOf(reg, "malformed")
  }

  /** The part of a code before its first slash. */
  function FamilyOf(code: string): Option<string> {
    if '/' in code then Some(code[..IndexOf(code, '/')]) else None
  }

  function Families(reg: Registry): set<string> {
    set code | code in AllCodes(reg) && FamilyOf(code).Some? :: FamilyOf(code).value
  }

  /** Read one key; a text that names nothing is refused. */
  function ParseKey(reg: Registry, text: string): Option<Key> {
    if text == "" then None
    else if EndsWith(text, "/*") then
      var family := text[..|text| - 2];
      if family in Families(reg) then Some(Key(FamilyKey, family)) else None
    else if '*' in text then None
    else if text in reg.classes then Some(Key(ClassKey, text))
    else if text in AllCodes(reg) then Some(Key(CodeKey, text))
    else None
  }

  /** How a key is written. */
  function KeyText(key: Key): string {
    if key.kind == FamilyKey then key.value + "/*" else key.value
  }

  /** A key that names something selectable. */
  ghost predicate Parsed(reg: Registry, key: Key) {
    match key.kind
    case CodeKey => key.value in Selectable(reg)
    case FamilyKey => '/' !in key.value && exists code :: code in Selectable(reg) && FamilyOf(code) == Some(key.value)
    case ClassKey => key.value in reg.classes
  }

  /** Every selectable code a key names. */
  function Expand(reg: Registry, key: Key): set<string> {
    match key.kind
    case CodeKey => if key.value in Selectable(reg) then {key.value} else {}
    case FamilyKey => set code | code in Selectable(reg) && StartsWith(code, key.value + "/")
    case ClassKey => set code | code in CodesOf(reg, key.value)
  }

  lemma FamilyIsPrefix(code: string, family: string)
    requires '/' !in family
    ensures StartsWith(code, family + "/") <==> FamilyOf(code) == Some(family)
  {
    if StartsWith(code, family + "/") {
      var rest := code[|family| + 1..];
      assert (family + "/")[|family|] == '/';
      assert code[|family|] == '/' && code[..|family|] == family;
      assert code == family + ['/'] + rest;
      IndexOfFirst(family, '/', rest);
    }
    if FamilyOf(code) == Some(family) {
      assert code[..|family|] == family && code[|family|] == '/';
      assert code[..|family| + 1] == family + "/";
    }
  }

  /** The family is what stands before the code's first slash. */
  predicate InFamily(code: string, family: string) {
    '/' !in family && |family| < |code| && code[..|family|] == family && code[|family|] == '/'
  }

  lemma FamilyExactly(code: string, family: string)
    ensures InFamily(code, family) <==> '/' in code && code[..IndexOf(code, '/')] == family
  {
    if InFamily(code, family) {
      assert code == family + ['/'] + code[|family| + 1..];
      IndexOfFirst(family, '/', code[|family| + 1..]);
    }
  }

  /** A code the registry declares, the malformed ones included. */
  predicate IsDeclared(reg: Registry, code: string) {
    (exists cls :: cls in reg.classes && code in CodesOf(reg, cls)) || code in CodesOf(reg, "malformed")
  }

  /**
   * A text reads as a family when it is one a declared code has, with a slash and a star;
   * without a star as the class it spells, or else as the declared code. Nothing else reads.
   */
  lemma KeyReadExactly(reg: Registry, text: string, key: Key)
    ensures ParseKey(reg, text) == Some(key) <==>
      match key.kind
      case FamilyKey =>
        text == key.value + "/*" && exists code :: IsDeclared(reg, code) && InFamily(code, key.value)
      case ClassKey => text == key.value && text != "" && '*' !in text && text in reg.classes
      case CodeKey => text == key.value && text != "" && '*' !in text && text !in reg.classes && IsDeclared(reg, text)
  {
    hide InFamily;
    StarAtEnd(text);
    forall code ensures IsDeclared(reg, code) <==> code in AllCodes(reg) {
    }
    forall code ensures InFamily(code, key.value) <==> FamilyOf(code) == Some(key.value) {
      FamilyExactly(code, key.value);
    }
    if key.kind == FamilyKey && text == key.value + "/*" {
      assert text[..|text| - 2] == key.value && text[|text| - 2..] == "/*";
    }
    if EndsWith(text, "/*") {
      assert text == text[..|text| - 2] + "/*";
    }
  }

  /** Everything the parser accepts names something, other than the malformed codes its callers refuse first. */
  lemma ParsedKeysName(reg: Registry, text: string)
    requires Valid(reg) && ParseKey(reg, text).Some? && text !in CodesOf(reg, "malformed")
    ensures Parsed(reg, ParseKey(reg, text).value)
  {
    var key := ParseKey(reg, text).value;
    if key.kind == FamilyKey {
      var code :| code in AllCodes(reg) && FamilyOf(code) == Some(key.value);
      assert code !in CodesOf(reg, "malformed");
      assert code in Selectable(reg);
    }
  }

  /** What a key is written as reads back as the key, unless a class is spelled the same way. */
  lemma KeysReadBack(reg: Registry, key: Key)
    requires Valid(reg) && Parsed(reg, key) && key.value != "" && '*' !in key.value
    ensures ParseKey(reg, KeyText(key))
      == Some(if key.value in reg.classes && key.kind == CodeKey then Key(ClassKey, key.value) else key)
  {
    match key.kind
    case FamilyKey =>
      var code :| code in Selectable(reg) && FamilyOf(code) == Some(key.value);
      assert code in AllCodes(reg);
      var text := key.value + "/*";
      assert text[..|text| - 2] == key.value && text[|text| - 2..] == "/*";
    case CodeKey =>
      StarAtEnd(key.value);
    case ClassKey =>
      StarAtEnd(key.value);
  }

  /** The text reads as the key that names the one code. */
  ghost predicate Names(reg: Registry, text: string, code: string) {
    ParseKey(reg, text) == Some(Key(CodeKey, code))
  }

  /** A selectable code can be named by itself exactly when no class is spelled like it. */
  lemma CodeCanBeNamed(reg: Registry, code: string)
    requires code in Selectable(reg) && code != "" && '*' !in code
    ensures (exists text :: Names(reg, text, code)) <==> code !in reg.classes
  {
    if text :| Names(reg, text, code) {
      assert text == code;
    }
    if code !in reg.classes {
      StarAtEnd(code);
      assert Names(reg, code, code);
    }
  }

  lemma StarAtEnd(s: string)
    ensures EndsWith(s, "/*") ==> '*' in s
  {
    if EndsWith(s, "/*") {
      assert s[|s| - 2..][1] == s[|s| - 1];
    }
  }

  lemma ExpandsToSomething(reg: Registry, key: Key)
    requires Valid(reg) && Parsed(reg, key)
    ensures Expand(reg, key) != {} && Expand(reg, key) <= Selectable(reg)
  {
    match key.kind
    case CodeKey =>
    case FamilyKey =>
      var code :| code in Selectable(reg) && FamilyOf(code) == Some(key.value);
      FamilyIsPrefix(code, key.value);
      assert code in Expand(reg, key);
    case ClassKey =>
      assert CodesOf(reg, key.value)[0] in CodesOf(reg, key.value);
      assert CodesOf(reg, key.value)[0] in Expand(reg, key);
  }

  /** Two different keys of one kind name no code in common. */
  lemma SameKindApart(reg: Registry, a: Key, b: Key)
    requires Valid(reg) && Parsed(reg, a) && Parsed(reg, b) && a.kind == b.kind && a != b
    ensures Expand(reg, a) !! Expand(reg, b)
  {
    match a.kind
    case CodeKey =>
    case FamilyKey =>
      forall code | code in Expand(reg, a) ensures code !in Expand(reg, b) {
        FamilyIsPrefix(code, a.value);
        FamilyIsPrefix(code, b.value);
      }
    case ClassKey =>
      assert Apart(CodesOf(reg, a.value), CodesOf(reg, b.value));
  }
}

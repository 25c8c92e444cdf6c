/**
 * The repository's vocabulary keeps its classes apart: no code belongs to two.
 */
module CodesApart {
  import opened Options
  import opened Codes
  import opened FindingKeys

  /** Each code has the character at the given place. */
  predicate Marked(codes: seq<string>, c: char, places: seq<nat>) {
    |places| == |codes| && forall i :: 0 <= i < |codes| ==> places[i] < |codes[i]| && codes[i][places[i]] == c
  }

  predicate Without(codes: seq<string>, c: char) {
    forall code :: code in codes ==> c !in code
  }

  /** Codes that all hold a character are apart from codes that all lack it. */
  lemma MarkedApart(a: seq<string>, c: char, places: seq<nat>, b: seq<string>)
    requires Marked(a, c, places) && Without(b, c)
    ensures Apart(a, b)
  {
    forall x | x in a ensures x !in b {
      var i :| 0 <= i < |a| && a[i] == x;
      assert c in x;
    }
  }

  lemma HyphenedSchemaCodes()
    ensures Marked(COMPILER_CODES, '-', [7, 7, 10]) && Marked(WALK_CODES, '-', [6, 11])
  {
  }

  lemma HyphenedFamilyCodes()
    ensures Marked(FAMILY_CODES, '-', [6, 6, 6, 6, 6, 21, 18, 22, 22, 22])
  {
  }

  lemma SlashedFamilyCodes()
    ensures Marked(FAMILY_CODES, '/', [14, 14, 14, 14, 14, 13, 13, 13, 13, 13])
  {
  }

  lemma HyphenedHygieneCodes()
    ensures Marked(USE_CODES, '-', [6, 6, 11]) && Marked(PATH_CODES, '-', [4, 4, 4, 9, 9])
  {
  }

  lemma HyphenedServerCodes()
    ensures Marked(SERVER_CODES, '-', [8, 6, 6, 6]) && Marked(HYGIENE_POLICY_CODES, '-', [5, 8, 11, 7])
  {
  }

  lemma HyphenedOtherCodes()
    ensures Marked(EXAMPLES_CODES, '-', [7, 7]) && Marked(REDOS_CODES, '-', [9]) && Marked(MALFORMED_CODES, '-', [9])
  {
  }

  lemma NumberCodesPlain()
    ensures Without(NUMBER_CODES, '-')
  {
  }

  lemma LengthCodesPlain()
    ensures Without(LENGTH_CODES, '-')
  {
  }

  lemma MemberCodesPlain()
    ensures Without(MEMBER_CODES, '-')
  {
  }

  lemma LogicCodesPlain()
    ensures Without(LOGIC_CODES, '-')
  {
  }

  lemma UseCodesUnslashed()
    ensures Without(USE_CODES, '/')
  {
  }

  lemma PolicyCodesUnslashed()
    ensures Without(HYGIENE_POLICY_CODES, '/')
  {
  }

  lemma PathCodesUnslashed()
    ensures Without(PATH_CODES, '/')
  {
  }

  lemma ServerCodesUnslashed()
    ensures Without(SERVER_CODES, '/')
  {
  }

  lemma OtherCodesUnslashed()
    ensures Without(EXAMPLES_CODES, '/') && Without(REDOS_CODES, '/') && Without(MALFORMED_CODES, '/')
  {
  }

  lemma CompilerApart()
    ensures Apart(COMPILER_CODES, USE_CODES) && Apart(COMPILER_CODES, PATH_CODES)
    ensures Apart(COMPILER_CODES, SERVER_CODES) && Apart(COMPILER_CODES, HYGIENE_POLICY_CODES)
  {
  }

  lemma WalkApart()
    ensures Apart(WALK_CODES, USE_CODES) && Apart(WALK_CODES, PATH_CODES)
    ensures Apart(WALK_CODES, SERVER_CODES) && Apart(WALK_CODES, HYGIENE_POLICY_CODES)
  {
  }

  lemma FewApart()
    ensures Apart(COMPILER_CODES, EXAMPLES_CODES) && Apart(COMPILER_CODES, REDOS_CODES)
      && Apart(COMPILER_CODES, MALFORMED_CODES)
    ensures Apart(WALK_CODES, EXAMPLES_CODES) && Apart(WALK_CODES, REDOS_CODES) && Apart(WALK_CODES, MALFORMED_CODES)
    ensures Apart(EXAMPLES_CODES, REDOS_CODES) && Apart(EXAMPLES_CODES, MALFORMED_CODES)
      && Apart(REDOS_CODES, MALFORMED_CODES)
  {
  }

  lemma HygienePiecesApart(other: seq<string>)
    requires other in [EXAMPLES_CODES, REDOS_CODES, MALFORMED_CODES]
    ensures Apart(USE_CODES, other) && Apart(PATH_CODES, other) && Apart(SERVER_CODES, other)
      && Apart(HYGIENE_POLICY_CODES, other)
  {
  }

  lemma ApartJoins(a: seq<string>, b: seq<string>, other: seq<string>)
    requires Apart(a, other) && Apart(b, other)
    ensures Apart(a + b, other)
  {
  }

  lemma HygieneApart(other: seq<string>)
    requires Apart(USE_CODES, other) && Apart(PATH_CODES, other) && Apart(SERVER_CODES, other)
      && Apart(HYGIENE_POLICY_CODES, other)
    ensures Apart(HygieneCodes(), other)
  {
    hide USE_CODES, PATH_CODES;
    ApartJoins(USE_CODES, PATH_CODES, other);
    ApartJoins(USE_CODES + PATH_CODES, SERVER_CODES, other);
    ApartJoins(USE_CODES + PATH_CODES + SERVER_CODES, HYGIENE_POLICY_CODES, other);
  }

  lemma SchemaApart(other: seq<string>)
    requires Apart(COMPILER_CODES, other) && Apart(FAMILY_CODES, other) && Apart(WALK_CODES, other)
    ensures Apart(SchemaCodes(), other)
  {
    ApartJoins(COMPILER_CODES, FAMILY_CODES, other);
    ApartJoins(COMPILER_CODES + FAMILY_CODES, WALK_CODES, other);
  }

  lemma WithoutJoins(a: seq<string>, b: seq<string>, c: char)
    requires Without(a, c) && Without(b, c)
    ensures Without(a + b, c)
  {
  }

  /** No conformance code has a hyphen; every other code has one. */
  lemma ConformancePlain()
    ensures Without(ConformanceCodes(), '-')
  {
    NumberCodesPlain();
    LengthCodesPlain();
    MemberCodesPlain();
    LogicCodesPlain();
    WithoutJoins(NUMBER_CODES, LENGTH_CODES, '-');
    WithoutJoins(NUMBER_CODES + LENGTH_CODES, MEMBER_CODES, '-');
    WithoutJoins(NUMBER_CODES + LENGTH_CODES + MEMBER_CODES, LOGIC_CODES, '-');
  }

  lemma ApartFromConformance()
    ensures Apart(HygieneCodes(), ConformanceCodes()) && Apart(SchemaCodes(), ConformanceCodes())
    ensures Apart(EXAMPLES_CODES, ConformanceCodes()) && Apart(REDOS_CODES, ConformanceCodes())
    ensures Apart(MALFORMED_CODES, ConformanceCodes())
  {
    hide HygieneCodes, SchemaCodes, ConformanceCodes, Marked, Without, Apart;
    ConformancePlain();
    HyphenedSchemaCodes();
    HyphenedFamilyCodes();
    HyphenedServerCodes();
    HyphenedHygieneCodes();
    HyphenedOtherCodes();
    var other := ConformanceCodes();
    MarkedApart(COMPILER_CODES, '-', [7, 7, 10], other);
    MarkedApart(WALK_CODES, '-', [6, 11], other);
    MarkedApart(FAMILY_CODES, '-', [6, 6, 6, 6, 6, 21, 18, 22, 22, 22], other);
    MarkedApart(USE_CODES, '-', [6, 6, 11], other);
    MarkedApart(PATH_CODES, '-', [4, 4, 4, 9, 9], other);
    MarkedApart(SERVER_CODES, '-', [8, 6, 6, 6], other);
    MarkedApart(HYGIENE_POLICY_CODES, '-', [5, 8, 11, 7], other);
    MarkedApart(EXAMPLES_CODES, '-', [7, 7], other);
    MarkedApart(REDOS_CODES, '-', [9], other);
    MarkedApart(MALFORMED_CODES, '-', [9], other);
    HygieneApart(other);
    SchemaApart(other);
  }

  lemma FamilyApart(other: seq<string>)
    requires Without(other, '/')
    ensures Apart(FAMILY_CODES, other)
  {
    SlashedFamilyCodes();
    MarkedApart(FAMILY_CODES, '/', [14, 14, 14, 14, 14, 13, 13, 13, 13, 13], other);
  }

  lemma HygieneUnslashed()
    ensures Without(HygieneCodes(), '/')
  {
    UseCodesUnslashed();
    PolicyCodesUnslashed();
    PathCodesUnslashed();
    ServerCodesUnslashed();
    WithoutJoins(USE_CODES, PATH_CODES, '/');
    WithoutJoins(USE_CODES + PATH_CODES, SERVER_CODES, '/');
    WithoutJoins(USE_CODES + PATH_CODES + SERVER_CODES, HYGIENE_POLICY_CODES, '/');
  }

  lemma ApartSym(a: seq<string>, b: seq<string>)
    requires Apart(a, b)
    ensures Apart(b, a)
  {
  }

  lemma SchemaApartFromHygiene()
    ensures Apart(HygieneCodes(), SchemaCodes())
  {
    hide HygieneCodes, SchemaCodes, Apart, Without;
    HygieneUnslashed();
    FamilyApart(HygieneCodes());
    CompilerApart();
    WalkApart();
    ApartSym(COMPILER_CODES, USE_CODES);
    ApartSym(COMPILER_CODES, PATH_CODES);
    ApartSym(COMPILER_CODES, SERVER_CODES);
    ApartSym(COMPILER_CODES, HYGIENE_POLICY_CODES);
    HygieneApart(COMPILER_CODES);
    ApartSym(HygieneCodes(), COMPILER_CODES);
    ApartSym(WALK_CODES, USE_CODES);
    ApartSym(WALK_CODES, PATH_CODES);
    ApartSym(WALK_CODES, SERVER_CODES);
    ApartSym(WALK_CODES, HYGIENE_POLICY_CODES);
    HygieneApart(WALK_CODES);
    ApartSym(HygieneCodes(), WALK_CODES);
    SchemaApart(HygieneCodes());
    ApartSym(SchemaCodes(), HygieneCodes());
  }

  lemma ApartFromFew()
    ensures Apart(HygieneCodes(), EXAMPLES_CODES) && Apart(HygieneCodes(), REDOS_CODES)
      && Apart(HygieneCodes(), MALFORMED_CODES)
    ensures Apart(SchemaCodes(), EXAMPLES_CODES) && Apart(SchemaCodes(), REDOS_CODES)
      && Apart(SchemaCodes(), MALFORMED_CODES)
  {
    hide HygieneCodes, SchemaCodes, Apart, Without;
    FewApart();
    OtherCodesUnslashed();
    FamilyApart(EXAMPLES_CODES);
    FamilyApart(REDOS_CODES);
    FamilyApart(MALFORMED_CODES);
    SchemaApart(EXAMPLES_CODES);
    SchemaApart(REDOS_CODES);
    SchemaApart(MALFORMED_CODES);
    HygienePiecesApart(EXAMPLES_CODES);
    HygienePiecesApart(REDOS_CODES);
    HygienePiecesApart(MALFORMED_CODES);
    HygieneApart(EXAMPLES_CODES);
    HygieneApart(REDOS_CODES);
    HygieneApart(MALFORMED_CODES);
  }

  /** No code is in two of the lists. */
  predicate AllApart(pieces: seq<seq<string>>) {
    forall i, j :: 0 <= i < |pieces| && 0 <= j < |pieces| && i != j ==> Apart(pieces[i], pieces[j])
  }

  lemma ApartFive(h: seq<string>, s: seq<string>, c: seq<string>, e: seq<string>, r: seq<string>)
    requires Apart(h, s) && Apart(h, c) && Apart(h, e) && Apart(h, r)
    requires Apart(s, c) && Apart(s, e) && Apart(s, r) && Apart(e, c) && Apart(r, c) && Apart(e, r)
    ensures AllApart([h, s, c, e, r])
  {
    hide Apart;
    ApartSym(h, s); ApartSym(h, c); ApartSym(h, e); ApartSym(h, r);
    ApartSym(s, c); ApartSym(s, e); ApartSym(s, r);
    ApartSym(e, c); ApartSym(r, c); ApartSym(e, r);
  }

  /** The registry that declares a list for each of its classes, in order. */
  predicate Lists(reg: Registry, pieces: seq<seq<string>>) {
    && |reg.classes| == |pieces|
    && forall i :: 0 <= i < |pieces| ==>
         reg.classes[i] in reg.codes && reg.codes[reg.classes[i]] == pieces[i] && pieces[i] != []
  }

  lemma ValidFromPieces(reg: Registry, pieces: seq<seq<string>>)
    requires Lists(reg, pieces) && AllApart(pieces) && "malformed" !in reg.classes
    requires forall piece :: piece in pieces ==> Apart(piece, CodesOf(reg, "malformed"))
    requires forall code :: code in CodesOf(reg, "malformed") ==> '/' !in code
    ensures Valid(reg)
  {
    hide Apart;
    forall a, b | a in reg.classes && b in reg.classes && a != b ensures Apart(CodesOf(reg, a), CodesOf(reg, b)) {
      var i, j :| 0 <= i < |pieces| && reg.classes[i] == a && 0 <= j < |pieces| && reg.classes[j] == b;
    }
    forall a | a in reg.classes ensures Apart(CodesOf(reg, a), CodesOf(reg, "malformed")) {
      var i :| 0 <= i < |pieces| && reg.classes[i] == a;
      assert pieces[i] in pieces;
    }
  }

  lemma RepositoryLists()
    ensures var reg := Repository();
      && Lists(reg, [HygieneCodes(), SchemaCodes(), ConformanceCodes(), EXAMPLES_CODES, REDOS_CODES])
      && "malformed" !in reg.classes && CodesOf(reg, "malformed") == MALFORMED_CODES
  {
    hide HygieneCodes, SchemaCodes, ConformanceCodes;
    CodesPresent();
  }

  /** The repository's own vocabulary keeps its classes apart. */
  lemma RepositoryIsValid()
    ensures Valid(Repository())
  {
    hide HygieneCodes, SchemaCodes, ConformanceCodes, Apart, Without, Valid;
    SchemaApartFromHygiene();
    ApartFromConformance();
    ApartFromFew();
    FewApart();
    OtherCodesUnslashed();
    CodesPresent();
    MalformedUnslashed();
    ApartSym(MALFORMED_CODES, ConformanceCodes());
    ApartFive(HygieneCodes(), SchemaCodes(), ConformanceCodes(), EXAMPLES_CODES, REDOS_CODES);
    var pieces := [HygieneCodes(), SchemaCodes(), ConformanceCodes(), EXAMPLES_CODES, REDOS_CODES];
    RepositoryLists();
    ValidFromPieces(Repository(), pieces);
  }

  /** A code with a character the code of malformed schemas lacks at that place does not extend it. */
  lemma MarkedOtherwise(codes: seq<string>, c: char, places: seq<nat>, code: string)
    requires Marked(codes, c, places) && code in codes
    requires forall p :: p in places ==> p < |"malformed-schema"| && "malformed-schema"[p] != c
    ensures !("malformed-schema" + "\0" <= code)
  {
    var i :| 0 <= i < |codes| && codes[i] == code;
    var p := places[i];
    assert p in places;
    assert ("malformed-schema" + "\0")[p] == "malformed-schema"[p];
  }

  /** In the repository's vocabulary no schema code extends the code of malformed schemas. */
  lemma RepositoryMalformedApart()
    ensures MalformedApart(Repository())
  {
    hide Marked;
    HyphenedSchemaCodes();
    SlashedFamilyCodes();
    forall code | code in SchemaCodes() ensures !("malformed-schema" + "\0" <= code) {
      if code in COMPILER_CODES {
        MarkedOtherwise(COMPILER_CODES, '-', [7, 7, 10], code);
      } else if code in WALK_CODES {
        MarkedOtherwise(WALK_CODES, '-', [6, 11], code);
      } else {
        MarkedOtherwise(FAMILY_CODES, '/', [14, 14, 14, 14, 14, 13, 13, 13, 13, 13], code);
      }
    }
    assert CHECK_CLASSES[1] == "schema" && MALFORMED_CODES[0] == "malformed-schema";
  }

  lemma MalformedUnslashed()
    ensures forall code :: code in MALFORMED_CODES ==> '/' !in code
  {
    OtherCodesUnslashed();
  }

  lemma CodesPresent()
    ensures HygieneCodes() != [] && SchemaCodes() != [] && ConformanceCodes() != []
  {
    assert HygieneCodes()[0] == "unused-component" && SchemaCodes()[0] == "partial-feature"
      && ConformanceCodes()[0] == "false";
  }

  /**
   * In the repository's vocabulary the conformance code `schema` is spelled like the
   * class: the text names the class, and no text names the code alone.
   */
  lemma SchemaIsReadAsClass()
    ensures "schema" in ConformanceCodes() && ParseKey(Repository(), "schema") == Some(Key(ClassKey, "schema"))
    ensures !exists text :: Names(Repository(), text, "schema")
  {
    hide HygieneCodes, SchemaCodes, AllCodes, Families;
    SchemaAmongConformance();
    assert "schema" in CHECK_CLASSES by { assert CHECK_CLASSES[1] == "schema"; }
    assert "conformance" in CHECK_CLASSES by { assert CHECK_CLASSES[2] == "conformance"; }
    assert CodesOf(Repository(), "conformance") == ConformanceCodes();
    assert "schema" in Selectable(Repository());
    StarAtEnd("schema");
    CodeCanBeNamed(Repository(), "schema");
  }

  lemma SchemaAmongConformance()
    ensures "schema" in ConformanceCodes()
  {
    assert LOGIC_CODES[4] == "schema";
  }
}

/**
 * The finding vocabulary: classes, the codes each class emits, and the keys that name them.
 */
module Codes {

  /** A vocabulary: the classes a term may name, and what codes each class declares. */
  datatype Registry = Registry(classes: seq<string>, codes: map<string, seq<string>>)

  const COMPILER_CODES := [
    "partial-feature", "unknown-keyword", "annotation-value-type"]

  const FAMILY_CODES := [
    "silent-rewrite/ref-siblings-oas30", "silent-rewrite/required-not-in-properties",
    "silent-rewrite/redundant-composition-branches", "silent-rewrite/discriminator-unroutable",
    "silent-rewrite/pattern-not-unicode-mode", "unsatisfiable/pattern-length", "unsatisfiable/enum-member-type",
    "unsatisfiable/composed-properties", "unsatisfiable/composed-enum-empty", "unsatisfiable/composed-enum-members"]

  const WALK_CODES := ["format-not-validated", "unsupported-schema-dialect"]

  const USE_CODES := ["unused-component", "unused-tag", "unreachable-defs"]

  const PATH_CODES := [
    "path-param-undeclared", "path-param-unused", "path-template-malformed", "duplicate-parameter",
    "duplicate-operation-id"]

  const SERVER_CODES := [
    "security-scheme-undeclared", "server-variable-undeclared", "server-variable-default-not-in-enum",
    "server-variable-default-not-in-enum-oas30"]

  const HYGIENE_POLICY_CODES := [
    "route-conflict", "unserved-parameter-location", "unsupported-openapi-version", "ignored-header"]

  const NUMBER_CODES := [
    "false", "type", "const", "enum", "minimum", "maximum", "exclusiveMinimum", "exclusiveMaximum", "multipleOf"]

  const LENGTH_CODES := [
    "minLength", "maxLength", "pattern", "format", "minItems", "maxItems", "uniqueItems", "minProperties",
    "maxProperties"]

  const MEMBER_CODES := [
    "required", "items", "contains", "maxContains", "additionalProperties", "unevaluatedProperties", "unevaluatedItems"]

  const LOGIC_CODES := [
    "not", "allOf", "anyOf", "oneOf", "schema", "discriminator", "dependentRequired", "dependencies", "depth"]

  const EXAMPLES_CODES := ["example-invalid", "example-uncheckable"]

  const REDOS_CODES := ["ambiguous-pattern"]

  const MALFORMED_CODES := ["malformed-schema"]

  function HygieneCodes(): seq<string> { USE_CODES + PATH_CODES + SERVER_CODES + HYGIENE_POLICY_CODES }

  function SchemaCodes(): seq<string> { COMPILER_CODES + FAMILY_CODES + WALK_CODES }

  function ConformanceCodes(): seq<string> { NUMBER_CODES + LENGTH_CODES + MEMBER_CODES + LOGIC_CODES }

  const CHECK_CLASSES := ["hygiene", "schema", "conformance", "examples", "redos"]

  /** The vocabulary the repository declares. */
  function Repository(): Registry {
    Registry(
      CHECK_CLASSES,
      map["hygiene" := HygieneCodes(), "schema" := SchemaCodes(), "conformance" := ConformanceCodes(),
          "examples" := EXAMPLES_CODES, "redos" := REDOS_CODES, "malformed" := MALFORMED_CODES])
  }

  predicate Apart(a: seq<string>, b: seq<string>) {
    forall x :: x in a ==> x !in b
  }

  function CodesOf(reg: Registry, cls: string): seq<string> {
    if cls in reg.codes then reg.codes[cls] else []
  }

  /** The facts selection rests on: every class has codes, and no code belongs to two. */
  ghost predicate Valid(reg: Registry) {
    && "malformed" !in reg.classes
    && (forall cls :: cls in reg.classes ==> cls in reg.codes && reg.codes[cls] != [])
    && (forall a, b :: a in reg.classes && b in reg.classes && a != b ==> Apart(CodesOf(reg, a), CodesOf(reg, b)))
    && (forall a :: a in reg.classes ==> Apart(CodesOf(reg, a), CodesOf(reg, "malformed")))
    && (forall code :: code in CodesOf(reg, "malformed") ==> '/' !in code)
  }

  /**
   * A malformed schema has its own code, and no schema code extends it by the character that separates
   * a key's parts.
   */
  ghost predicate MalformedApart(reg: Registry) {
    && "schema" in reg.classes && "malformed-schema" in CodesOf(reg, "malformed")
    && forall code :: code in CodesOf(reg, "schema") ==> !("malformed-schema" + "\0" <= code)
  }
}

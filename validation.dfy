/** `McpCatalogReconciler.validateMcpCatalog`: the check of a catalog's spec.
    Each of the two required fields is rejected when it is empty or
    whitespace only; the error carries one fixed message per rejected field,
    description first. */
module Validation {
  import opened Wrappers
  import opened Strings

  /** The desired state of an `McpCatalog`. */
  datatype McpCatalogSpec = McpCatalogSpec(description: string, imageRegistry: string)

  /** One rule of the validator that the spec breaks. */
  datatype Violation = DescriptionRequired | ImageRegistryRequired

  const ValidationMessageDescriptionRequired: string := "description is required"
  const ValidationMessageImageRegistryRequired: string := "imageRegistry is required"
  /** Placed between the messages of two violations in one error. */
  const MessageSeparator: string := "; "

  /** The fixed human message of each rule; the two are distinct and neither
      is empty. */
  function Message(v: Violation): (m: string)
    ensures m != []
    ensures m == ValidationMessageDescriptionRequired <==> v == DescriptionRequired
  {
    match v
    case DescriptionRequired => ValidationMessageDescriptionRequired
    case ImageRegistryRequired => ValidationMessageImageRegistryRequired
  }

  /** A required field is missing when nothing is left of it once surrounding
      whitespace is trimmed. */
  predicate Missing(field: string, ws: set<char>) {
    TrimSpace(field, ws) == []
  }

  /** The rules the spec breaks, in the fixed order description, then image
      registry. A rule appears exactly when its field is blank, and no rule
      appears twice. */
  function Violations(spec: McpCatalogSpec, ws: set<char>): (vs: seq<Violation>)
    ensures DescriptionRequired in vs <==> IsBlank(spec.description, ws)
    ensures ImageRegistryRequired in vs <==> IsBlank(spec.imageRegistry, ws)
    ensures |vs| == (if IsBlank(spec.description, ws) then 1 else 0)
                  + (if IsBlank(spec.imageRegistry, ws) then 1 else 0)
    ensures |vs| == 2 ==> vs[0] == DescriptionRequired
  {
    var noDescription := Missing(spec.description, ws);
    var noRegistry := Missing(spec.imageRegistry, ws);
    assert noDescription == IsBlank(spec.description, ws) by {
      TrimSpaceEmptyIffBlank(spec.description, ws);
    }
    assert noRegistry == IsBlank(spec.imageRegistry, ws) by {
      TrimSpaceEmptyIffBlank(spec.imageRegistry, ws);
    }
    var first: seq<Violation> := if noDescription then [DescriptionRequired] else [];
    var second: seq<Violation> := if noRegistry then [ImageRegistryRequired] else [];
    assert DescriptionRequired !in second && ImageRegistryRequired !in first;
    first + second
  }

  /** The messages of `vs`, in the same order. */
  function Messages(vs: seq<Violation>): seq<string> {
    seq(|vs|, i requires 0 <= i < |vs| => Message(vs[i]))
  }

  /** `validateMcpCatalog`: nil (`None`) for a valid spec, otherwise an error
      whose text is the broken rules' messages joined by the separator.
      A spec is valid exactly when both fields hold a non-space character. */
  function ValidateMcpCatalog(spec: McpCatalogSpec, ws: set<char>): (err: Option<string>)
    ensures err == None <==> !IsBlank(spec.description, ws) && !IsBlank(spec.imageRegistry, ws)
  {
    var vs := Violations(spec, ws);
    if vs == [] then None else Some(Join(Messages(vs), MessageSeparator))
  }

  /** An error is reported for every broken rule, and its text names the rule. */
  lemma ValidateReportsViolation(spec: McpCatalogSpec, ws: set<char>, v: Violation)
    requires v in Violations(spec, ws)
    ensures ValidateMcpCatalog(spec, ws).Some?
    ensures Contains(ValidateMcpCatalog(spec, ws).value, Message(v))
  {
    var vs := Violations(spec, ws);
    var ms := Messages(vs);
    assert ValidateMcpCatalog(spec, ws) == Some(Join(ms, MessageSeparator));
    var k :| 0 <= k < |vs| && vs[k] == v;
    assert ms[k] == Message(v);
    JoinContainsEach(ms, MessageSeparator, k);
  }

  /** An empty or whitespace-only description is rejected with the
      description-required message, whatever the image registry holds. */
  lemma ValidateRejectsBlankDescription(spec: McpCatalogSpec, ws: set<char>)
    requires IsBlank(spec.description, ws)
    ensures ValidateMcpCatalog(spec, ws).Some?
    ensures Contains(ValidateMcpCatalog(spec, ws).value, ValidationMessageDescriptionRequired)
  {
    ValidateReportsViolation(spec, ws, DescriptionRequired);
  }

  /** An empty or whitespace-only image registry is rejected with the
      imageRegistry-required message, whatever the description holds. */
  lemma ValidateRejectsBlankImageRegistry(spec: McpCatalogSpec, ws: set<char>)
    requires IsBlank(spec.imageRegistry, ws)
    ensures ValidateMcpCatalog(spec, ws).Some?
    ensures Contains(ValidateMcpCatalog(spec, ws).value, ValidationMessageImageRegistryRequired)
  {
    ValidateReportsViolation(spec, ws, ImageRegistryRequired);
  }

  /** When both fields are blank the one error carries both messages. */
  lemma ValidateReportsBothFields(spec: McpCatalogSpec, ws: set<char>)
    requires IsBlank(spec.description, ws) && IsBlank(spec.imageRegistry, ws)
    ensures ValidateMcpCatalog(spec, ws).Some?
    ensures Contains(ValidateMcpCatalog(spec, ws).value, ValidationMessageDescriptionRequired)
    ensures Contains(ValidateMcpCatalog(spec, ws).value, ValidationMessageImageRegistryRequired)
  {
    ValidateRejectsBlankDescription(spec, ws);
    ValidateRejectsBlankImageRegistry(spec, ws);
  }

  /** When only one field is blank the error is exactly that field's message. */
  lemma ValidateSingleViolationMessage(spec: McpCatalogSpec, ws: set<char>)
    ensures IsBlank(spec.description, ws) && !IsBlank(spec.imageRegistry, ws)
      ==> ValidateMcpCatalog(spec, ws) == Some(ValidationMessageDescriptionRequired)
    ensures !IsBlank(spec.description, ws) && IsBlank(spec.imageRegistry, ws)
      ==> ValidateMcpCatalog(spec, ws) == Some(ValidationMessageImageRegistryRequired)
  {
    var vs := Violations(spec, ws);
    if |vs| == 1 {
      assert Join(Messages(vs), MessageSeparator) == Message(vs[0]);
    }
  }

  /** A whitespace-only field is treated exactly as an empty one. */
  lemma ValidateBlankSameAsEmpty(spec: McpCatalogSpec, ws: set<char>)
    ensures IsBlank(spec.description, ws)
      ==> ValidateMcpCatalog(spec, ws) == ValidateMcpCatalog(spec.(description := ""), ws)
    ensures IsBlank(spec.imageRegistry, ws)
      ==> ValidateMcpCatalog(spec, ws) == ValidateMcpCatalog(spec.(imageRegistry := ""), ws)
  {
    var vs := Violations(spec, ws);
    if IsBlank(spec.description, ws) {
      assert Violations(spec.(description := ""), ws) == vs;
    }
    if IsBlank(spec.imageRegistry, ws) {
      assert Violations(spec.(imageRegistry := ""), ws) == vs;
    }
  }

  /** The six validator cases of the controller test, with Go's whitespace:
      a filled-in spec passes; an empty or whitespace-only description, or
      image registry, is rejected with its message; both empty name both. */
  lemma ValidationTestCases()
    ensures ValidateMcpCatalog(McpCatalogSpec("A valid catalog description", "registry.example.com"), UnicodeSpace) == None
    ensures ValidateMcpCatalog(McpCatalogSpec("", "registry.example.com"), UnicodeSpace)
         == Some(ValidationMessageDescriptionRequired)
    ensures ValidateMcpCatalog(McpCatalogSpec("A valid description", ""), UnicodeSpace)
         == Some(ValidationMessageImageRegistryRequired)
    ensures ValidateMcpCatalog(McpCatalogSpec("   ", "registry.example.com"), UnicodeSpace)
         == Some(ValidationMessageDescriptionRequired)
    ensures ValidateMcpCatalog(McpCatalogSpec("A valid description", "   "), UnicodeSpace)
         == Some(ValidationMessageImageRegistryRequired)
    ensures var err := ValidateMcpCatalog(McpCatalogSpec("", ""), UnicodeSpace);
      err.Some? && Contains(err.value, ValidationMessageDescriptionRequired)
      && Contains(err.value, ValidationMessageImageRegistryRequired)
  {
    var registry, described := "registry.example.com", "A valid description";
    assert !IsBlank(registry, UnicodeSpace) by { assert registry[0] == 'r'; }
    assert !IsBlank(described, UnicodeSpace) by { assert described[0] == 'A'; }
    assert !IsBlank("A valid catalog description", UnicodeSpace) by {
      assert "A valid catalog description"[0] == 'A';
    }
    assert IsBlank("   ", UnicodeSpace);
    ValidateSingleViolationMessage(McpCatalogSpec("", registry), UnicodeSpace);
    ValidateSingleViolationMessage(McpCatalogSpec(described, ""), UnicodeSpace);
    ValidateSingleViolationMessage(McpCatalogSpec("   ", registry), UnicodeSpace);
    ValidateSingleViolationMessage(McpCatalogSpec(described, "   "), UnicodeSpace);
    ValidateReportsBothFields(McpCatalogSpec("", ""), UnicodeSpace);
  }
}

# McpCatalog controller, modelled in Dafny

This project models the core of the `McpCatalog` controller of the MCP catalog
operator: the reconciler that fetches an `McpCatalog` object by its
namespaced name, validates its spec (`description` and `imageRegistry` must
both be non-blank), and records the outcome as a `Ready` status condition.
The behaviour modelled is the behaviour the controller's test suite pins
down, `internal/controller/mcpcatalog_controller_test.go`.

Files, one module each:

- `wrappers.dfy` (`Wrappers`): `Option`, used for lookups and for Go's `error`
  results (`None` is a nil error).
- `strings.dfy` (`Strings`): `Contains` (Go's `strings.Contains`), `TrimSpace`
  (Go's `strings.TrimSpace`, over a whitespace set that is a parameter;
  `UnicodeSpace` is the set `unicode.IsSpace` accepts), `IsBlank`, `Join`.
- `validation.dfy` (`Validation`): the spec, the two rules, and
  `ValidateMcpCatalog`, the pure validator (`validateMcpCatalog`). A field is
  missing when `TrimSpace` leaves nothing of it; the contracts state this as
  "every character is whitespace" and a lemma connects the two.
- `conditions.dfy` (`Conditions`): status conditions with
  `FindStatusCondition` and `SetStatusCondition` (the `meta` helpers), the
  latter as a pure function on the condition list.
- `controller.dfy` (`Controller`): the condition constants, `ReadyCondition`
  (the condition a spec yields), `Reconciled` (the stored object after one
  cycle), the in-memory store `Client` (a class over a
  `map<NamespacedName, McpCatalog>`), the class `McpCatalogReconciler` whose
  `Reconcile` method changes the stored entry in place, and two top-level
  methods of the module that replay the two reconcile test cycles against a
  fresh store and reconciler.

The controller's own source and the CRD types are not part of this model, so
the constants they define are chosen here: the messages
`"description is required"`, `"imageRegistry is required"` and
`"Catalog validated successfully"`, the reasons `ValidationSucceeded` and
`ValidationFailed`, the type `Ready`, and `"; "` between two messages. The
tests only rely on the messages being fixed, distinct and searchable. The
validator checks the description first, so when both fields are blank its
message comes first in the error.

## Model

| member | source | states |
|---|---|---|
| `Strings.TrimSpaceEmptyIffBlank` | internal/controller/mcpcatalog_controller_test.go:201-234 | Trimming whitespace leaves the empty string exactly when every character is whitespace, so `"   "` counts as missing just as `""` does |
| `Strings.TrimSpace` | internal/controller/mcpcatalog_controller_test.go:201-234 | Trimming never lengthens a field, and what it keeps is empty or neither starts nor ends with whitespace |
| `Strings.TrimLeftCutsSpace` | internal/controller/mcpcatalog_controller_test.go:201-221 | Trimming the front keeps a suffix of the field and cuts off only whitespace |
| `Strings.TrimRightCutsSpace` | internal/controller/mcpcatalog_controller_test.go:223-234 | Trimming the back keeps a prefix of the field and cuts off only whitespace |
| `Strings.JoinContainsEach` | internal/controller/mcpcatalog_controller_test.go:236-257 | Every message joined into one error can be found in it as a substring |
| `Validation.Message` | internal/controller/mcpcatalog_controller_test.go:175-257 | Each rule has a fixed non-empty message, and the description-required message belongs to the description rule alone |
| `Validation.Violations` | internal/controller/mcpcatalog_controller_test.go:175-257 | The description rule fires iff the description is blank, the image-registry rule iff the image registry is blank; there are exactly as many violations as blank fields, so none repeats, and description comes first |
| `Validation.ValidateMcpCatalog` | internal/controller/mcpcatalog_controller_test.go:163-173 | No error exactly when both fields hold a non-whitespace character |
| `Validation.ValidateReportsViolation` | internal/controller/mcpcatalog_controller_test.go:175-257 | Every broken rule yields an error whose text contains that rule's message |
| `Validation.ValidateRejectsBlankDescription` | internal/controller/mcpcatalog_controller_test.go:175-186 | A blank description gives an error containing the description-required message |
| `Validation.ValidateRejectsBlankImageRegistry` | internal/controller/mcpcatalog_controller_test.go:188-199 | A blank image registry gives an error containing the imageRegistry-required message |
| `Validation.ValidateReportsBothFields` | internal/controller/mcpcatalog_controller_test.go:236-257 | With both fields blank, the one error contains both messages |
| `Validation.ValidateSingleViolationMessage` | internal/controller/mcpcatalog_controller_test.go:175-199 | With only one field blank, the error is exactly that field's message |
| `Validation.ValidateBlankSameAsEmpty` | internal/controller/mcpcatalog_controller_test.go:201-234 | A whitespace-only field yields the same result as the empty field |
| `Validation.ValidationTestCases` | internal/controller/mcpcatalog_controller_test.go:163-257 | The six validator cases of the test, on their own inputs and Go's whitespace set, give the asserted outcomes |
| `Conditions.FindStatusCondition` | internal/controller/mcpcatalog_controller_test.go:154-155 | The lookup is nil exactly when no entry has the type, and otherwise returns an entry of the list with that type |
| `Conditions.FindStatusConditionFirst` | internal/controller/mcpcatalog_controller_test.go:154-155 | The lookup returns the first entry of the type |
| `Conditions.FindStatusConditionUnique` | internal/controller/mcpcatalog_controller_test.go:95 | In a list with one entry per type, the lookup returns that type's entry wherever it stands |
| `Conditions.SetStatusCondition` | internal/controller/mcpcatalog_controller_test.go:95-99 | The write overwrites an entry of the type in place or appends one: the length grows only when the type was absent, and every resulting entry is an old one or of the written type |
| `Conditions.SetStatusConditionKeepsPosition` | internal/controller/mcpcatalog_controller_test.go:154 | An entry of another type keeps its position and value |
| `Conditions.SetStatusConditionFind` | internal/controller/mcpcatalog_controller_test.go:95-99 | After the write the lookup finds the written status, reason and message; the transition time is kept when the status is unchanged and is the current time otherwise |
| `Conditions.SetStatusConditionKeepsOthers` | internal/controller/mcpcatalog_controller_test.go:154 | The lookup of every other type is unaffected by the write |
| `Conditions.SetStatusConditionKeepsUnique` | internal/controller/mcpcatalog_controller_test.go:154 | The write keeps the list at most one entry per type |
| `Conditions.SetStatusConditionIdempotent` | internal/controller/mcpcatalog_controller_test.go:85-87 | Writing the same condition again at any later time changes nothing |
| `Controller.ReadyCondition` | internal/controller/mcpcatalog_controller_test.go:95-99 | The derived condition is `Ready`; True iff the spec validates; True carries `ValidationSucceeded` and the success message, False carries `ValidationFailed` and the validation error's text; never Unknown |
| `Controller.Reconciled` | internal/controller/mcpcatalog_controller_test.go:140-158 | One reconcile leaves the spec unchanged and a `Ready` condition present |
| `Controller.ReconcileExactlyOneReady` | internal/controller/mcpcatalog_controller_test.go:95-99 | When types were unique before, exactly one `Ready` entry exists after a reconcile |
| `Controller.ReconcileSetsReady` | internal/controller/mcpcatalog_controller_test.go:78-159 | After a reconcile the spec is unchanged and `Ready` is present: True with `ValidationSucceeded` and exactly the success message iff valid, else False with `ValidationFailed` and a message containing each blank field's message |
| `Controller.ReconcileKeepsOtherConditions` | internal/controller/mcpcatalog_controller_test.go:154 | A reconcile changes no condition of another type and keeps one entry per type |
| `Controller.ReconcileTransitionTime` | internal/controller/mcpcatalog_controller_test.go:95-99 | `Ready`'s transition time is unchanged while the outcome is unchanged, and is the reconcile time when the outcome flips or `Ready` is new |
| `Controller.ReconcileIdempotent` | internal/controller/mcpcatalog_controller_test.go:85-87 | Reconciling an already reconciled, unchanged object again yields the same object |
| `Controller.Client.constructor` | internal/controller/mcpcatalog_controller_test.go:64-65 | The store starts with the given objects and no status writes |
| `Controller.Client.Get` | internal/controller/mcpcatalog_controller_test.go:149-151 | Returns the stored object for a stored key and not-found otherwise |
| `Controller.Client.UpdateStatus` | internal/controller/mcpcatalog_controller_test.go:91-100 | Replaces only the conditions of a stored object and counts one write; a key not stored gives `NotFound` and changes nothing |
| `Controller.McpCatalogReconciler.constructor` | internal/controller/mcpcatalog_controller_test.go:80-83 | The reconciler holds the given client |
| `Controller.McpCatalogReconciler.Reconcile` | internal/controller/mcpcatalog_controller_test.go:85-88 | Returns no error, valid spec or not; keeps the set of stored keys; an absent key is a no-op; a stored object becomes `Reconciled` of itself, with one status write exactly when its conditions change |
| `Controller.ReconcileValidCatalog` | internal/controller/mcpcatalog_controller_test.go:78-101 | The valid test catalog, reconciled, can still be fetched and has `Ready` True, `ValidationSucceeded`, and exactly the success message, with no error |
| `Controller.ReconcileInvalidCatalog` | internal/controller/mcpcatalog_controller_test.go:133-159 | The test catalog with a whitespace-only description reconciles without error, is still stored, and has a non-nil `Ready` False, `ValidationFailed`, with a message containing the description-required message |

## Left out

- The Kubernetes client, envtest, the scheme and `context.Context`: the store is an in-memory map inside `Client`.
- Transient store failures (connectivity, timeouts, optimistic-concurrency conflicts) and the requeue they cause: the in-memory store never fails that way, so `Reconcile` never reports them.
- The `reconcile.Result` value and any requeue delay: the tests never inspect it.
- `observedGeneration` and the other object metadata: no test reads them.
- Wall-clock time: the current time is an abstract `nat` passed to `Reconcile`; nothing beyond the transition-time rule is stated about it.
- The Ginkgo scaffolding, `Eventually` polling and the fixed sleep of the tests, and the create/delete setup around each test.
- Mutual exclusion of cycles on the same key and concurrent reconciles: the model is sequential.
- Go's `unicode.IsSpace` is not computed; its set of code points is written out as `UnicodeSpace`, and the validator takes the set as a parameter.

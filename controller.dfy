/** `McpCatalogReconciler`: one reconcile cycle fetches the catalog by key,
    validates its spec and writes the resulting `Ready` condition into the
    stored object's `Status.Conditions`. */
module Controller {
  import opened Wrappers
  import opened Strings
  import opened Validation
  import opened Conditions

  const ConditionTypeReady: string := "Ready"
  const ConditionReasonValidationSucceeded: string := "ValidationSucceeded"
  const ConditionReasonValidationFailed: string := "ValidationFailed"
  const ValidationMessageCatalogSuccess: string := "Catalog validated successfully"

  /** The key of an object in the cluster store. */
  datatype NamespacedName = NamespacedName(namespace: string, name: string)

  /** A stored catalog: its spec and its status conditions. */
  datatype McpCatalog = McpCatalog(spec: McpCatalogSpec, conditions: seq<Condition>)

  /** Errors the store reports. */
  datatype StoreError = NotFound

  /** The `Ready` condition a reconcile at time `now` derives from a spec:
      `True` with the success reason and message exactly when the spec
      validates, otherwise `False` with the failure reason and the validation
      error's text as its message. It is never `Unknown`. */
  function ReadyCondition(spec: McpCatalogSpec, ws: set<char>, now: nat): (c: Condition)
    ensures c.condType == ConditionTypeReady && c.lastTransitionTime == now
    ensures c.status == ConditionTrue <==> !IsBlank(spec.description, ws) && !IsBlank(spec.imageRegistry, ws)
    ensures c.status != ConditionUnknown
    ensures c.status == ConditionTrue ==>
      c.reason == ConditionReasonValidationSucceeded && c.message == ValidationMessageCatalogSuccess
    ensures c.status == ConditionFalse ==>
      c.reason == ConditionReasonValidationFailed && ValidateMcpCatalog(spec, ws) == Some(c.message)
  {
    match ValidateMcpCatalog(spec, ws)
    case None =>
      Condition(ConditionTypeReady, ConditionTrue, ConditionReasonValidationSucceeded,
                ValidationMessageCatalogSuccess, now)
    case Some(msg) =>
      Condition(ConditionTypeReady, ConditionFalse, ConditionReasonValidationFailed, msg, now)
  }

  /** The stored object after one reconcile at time `now`: the spec is left
      alone and a `Ready` condition is present, derived from the spec. */
  function Reconciled(obj: McpCatalog, ws: set<char>, now: nat): (r: McpCatalog)
    ensures r.spec == obj.spec
    ensures FindStatusCondition(r.conditions, ConditionTypeReady).Some?
  {
    var ready := ReadyCondition(obj.spec, ws, now);
    SetStatusConditionFind(obj.conditions, ready);
    obj.(conditions := SetStatusCondition(obj.conditions, ready))
  }

  /** What a reconcile leaves behind: the spec as it was, and a `Ready`
      condition whose status, reason and message follow from validation —
      `True`, `ValidationSucceeded` and the success message for a valid spec;
      `False`, `ValidationFailed` and a message naming each blank field
      otherwise. */
  lemma ReconcileSetsReady(obj: McpCatalog, ws: set<char>, now: nat)
    ensures Reconciled(obj, ws, now).spec == obj.spec
    ensures var ready := FindStatusCondition(Reconciled(obj, ws, now).conditions, ConditionTypeReady);
      ready.Some?
      && (ready.value.status == ConditionTrue
          <==> !IsBlank(obj.spec.description, ws) && !IsBlank(obj.spec.imageRegistry, ws))
      && (ready.value.status == ConditionTrue ==>
            ready.value.reason == ConditionReasonValidationSucceeded
            && ready.value.message == ValidationMessageCatalogSuccess)
      && (ready.value.status != ConditionTrue ==>
            ready.value.status == ConditionFalse && ready.value.reason == ConditionReasonValidationFailed)
      && (IsBlank(obj.spec.description, ws) ==>
            Contains(ready.value.message, ValidationMessageDescriptionRequired))
      && (IsBlank(obj.spec.imageRegistry, ws) ==>
            Contains(ready.value.message, ValidationMessageImageRegistryRequired))
  {
    SetStatusConditionFind(obj.conditions, ReadyCondition(obj.spec, ws, now));
    if IsBlank(obj.spec.description, ws) {
      ValidateRejectsBlankDescription(obj.spec, ws);
    }
    if IsBlank(obj.spec.imageRegistry, ws) {
      ValidateRejectsBlankImageRegistry(obj.spec, ws);
    }
  }

  /** A reconcile touches only the `Ready` entry: every other condition is
      found as before, and a list without repeated types stays so. */
  lemma ReconcileKeepsOtherConditions(obj: McpCatalog, ws: set<char>, now: nat, t: string)
    requires t != ConditionTypeReady
    ensures FindStatusCondition(Reconciled(obj, ws, now).conditions, t)
         == FindStatusCondition(obj.conditions, t)
    ensures UniqueTypes(obj.conditions) ==> UniqueTypes(Reconciled(obj, ws, now).conditions)
  {
    SetStatusConditionKeepsOthers(obj.conditions, ReadyCondition(obj.spec, ws, now), t);
    if UniqueTypes(obj.conditions) {
      SetStatusConditionKeepsUnique(obj.conditions, ReadyCondition(obj.spec, ws, now));
    }
  }

  /** A reconcile of an object whose conditions have one entry per type
      leaves exactly one `Ready` entry: one is found, and no type repeats. */
  lemma ReconcileExactlyOneReady(obj: McpCatalog, ws: set<char>, now: nat)
    requires UniqueTypes(obj.conditions)
    ensures var conds := Reconciled(obj, ws, now).conditions;
      FindStatusCondition(conds, ConditionTypeReady).Some? && UniqueTypes(conds)
  {
    SetStatusConditionKeepsUnique(obj.conditions, ReadyCondition(obj.spec, ws, now));
  }

  /** The transition time of `Ready` stays put while the validation outcome
      stays the same, and becomes `now` when it flips or is first written. */
  lemma ReconcileTransitionTime(obj: McpCatalog, ws: set<char>, now: nat)
    ensures var before := FindStatusCondition(obj.conditions, ConditionTypeReady);
      var after := FindStatusCondition(Reconciled(obj, ws, now).conditions, ConditionTypeReady);
      after.Some?
      && (before.Some? && before.value.status == after.value.status ==>
            after.value.lastTransitionTime == before.value.lastTransitionTime)
      && (before.None? || before.value.status != after.value.status ==>
            after.value.lastTransitionTime == now)
  {
    SetStatusConditionFind(obj.conditions, ReadyCondition(obj.spec, ws, now));
  }

  /** Reconciling an unchanged object again, at any later time, leaves it
      exactly as the first reconcile did. */
  lemma ReconcileIdempotent(obj: McpCatalog, ws: set<char>, now: nat, later: nat)
    ensures Reconciled(Reconciled(obj, ws, now), ws, later) == Reconciled(obj, ws, now)
  {
    var c := ReadyCondition(obj.spec, ws, now);
    assert ReadyCondition(obj.spec, ws, later) == c.(lastTransitionTime := later);
    SetStatusConditionIdempotent(obj.conditions, c, later);
  }

  /** The in-memory stand-in for the cluster client: objects by key, and a
      count of the status writes it has taken. */
  class Client {
    var objects: map<NamespacedName, McpCatalog>
    var statusWrites: nat

    constructor (initial: map<NamespacedName, McpCatalog>)
      ensures objects == initial && statusWrites == 0
    {
      objects := initial;
      statusWrites := 0;
    }

    /** `Get`: the stored object, or `None` when the key is not found. */
    method Get(key: NamespacedName) returns (r: Option<McpCatalog>)
      ensures r.Some? <==> key in objects
      ensures r.Some? ==> r.value == objects[key]
    {
      if key in objects {
        r := Some(objects[key]);
      } else {
        r := None;
      }
    }

    /** `Status().Update`: replaces the stored object's conditions with
      `obj`'s and leaves its spec alone; fails with `NotFound`, changing
      nothing, when the key is not stored. */
    method UpdateStatus(key: NamespacedName, obj: McpCatalog) returns (err: Option<StoreError>)
      modifies this
      ensures key in old(objects) ==>
        err == None
        && objects == old(objects)[key := old(objects)[key].(conditions := obj.conditions)]
        && statusWrites == old(statusWrites) + 1
      ensures key !in old(objects) ==>
        err == Some(NotFound) && objects == old(objects) && statusWrites == old(statusWrites)
    {
      if key in objects {
        objects := objects[key := objects[key].(conditions := obj.conditions)];
        statusWrites := statusWrites + 1;
        err := None;
      } else {
        err := Some(NotFound);
      }
    }
  }

  /** The reconciler, holding its client and the whitespace set its trimming
      uses. */
  class McpCatalogReconciler {
    const client: Client
    const whitespace: set<char>

    constructor (client: Client, whitespace: set<char>)
      ensures this.client == client && this.whitespace == whitespace
    {
      this.client := client;
      this.whitespace := whitespace;
    }

    /** One reconcile cycle for `req` at time `now`. It never returns an
      error, not even for an invalid spec. A key that is not stored is a
      no-op. A stored object stays stored, under the same key, and becomes
      `Reconciled(..)` of what it was; the status is written to the store
      only when the conditions actually change. */
    method Reconcile(req: NamespacedName, now: nat) returns (err: Option<StoreError>)
      modifies client
      ensures err == None
      ensures client.objects.Keys == old(client.objects.Keys)
      ensures req !in old(client.objects) ==>
        client.objects == old(client.objects) && client.statusWrites == old(client.statusWrites)
      ensures req in old(client.objects) ==>
        var before := old(client.objects)[req];
        client.objects == old(client.objects)[req := Reconciled(before, whitespace, now)]
        && client.statusWrites
           == old(client.statusWrites) + if Reconciled(before, whitespace, now) == before then 0 else 1
    {
      var found := client.Get(req);
      if found.None? {
        // The object is gone: nothing to reconcile, and not an error.
        return None;
      }
      var catalog := found.value;
      var ready := ReadyCondition(catalog.spec, whitespace, now);
      var conditions := SetStatusCondition(catalog.conditions, ready);
      if conditions != catalog.conditions {
        var updateErr := client.UpdateStatus(req, catalog.(conditions := conditions));
        // The key was just found, so the in-memory store cannot fail here.
        assert updateErr == None;
      }
      err := None;
    }
  }

  /** The cycle of the test "should successfully reconcile the resource and
      set Ready condition to True": a stored
      catalog with a valid spec, reconciled once, can still be fetched and has a
      `Ready` condition that is `True`, `ValidationSucceeded`, with the
      success message. */
  method ReconcileValidCatalog() returns (err: Option<StoreError>, stored: bool, ready: Option<Condition>)
    ensures err == None && stored
    ensures ready.Some? && ready.value.status == ConditionTrue
    ensures ready.value.reason == ConditionReasonValidationSucceeded
    ensures ready.value.message == ValidationMessageCatalogSuccess
  {
    var key := NamespacedName("default", "test-resource");
    var spec := McpCatalogSpec("Test catalog for server validation", "test-registry.example.com");
    assert !IsBlank(spec.description, UnicodeSpace) by { assert spec.description[0] == 'T'; }
    assert !IsBlank(spec.imageRegistry, UnicodeSpace) by { assert spec.imageRegistry[0] == 't'; }
    var catalog := McpCatalog(spec, []);
    ReconcileSetsReady(catalog, UnicodeSpace, 1);
    var client := new Client(map[key := catalog]);
    var reconciler := new McpCatalogReconciler(client, UnicodeSpace);
    err := reconciler.Reconcile(key, 1);
    var updated := client.Get(key);
    stored := updated.Some?;
    ready := FindStatusCondition(updated.value.conditions, ConditionTypeReady);
  }

  /** The cycle of the test "should set Ready condition to False when
      validation fails": a stored catalog whose
      description is whitespace only still reconciles without error, stays
      stored, and gets a `Ready` condition that is `False`,
      `ValidationFailed`, with a message naming the description. */
  method ReconcileInvalidCatalog() returns (err: Option<StoreError>, stored: bool, ready: Option<Condition>)
    ensures err == None && stored
    ensures ready.Some? && ready.value.status == ConditionFalse
    ensures ready.value.reason == ConditionReasonValidationFailed
    ensures Contains(ready.value.message, ValidationMessageDescriptionRequired)
  {
    var key := NamespacedName("default", "invalid-test-resource");
    var spec := McpCatalogSpec("   ", "test-registry.example.com");
    assert IsBlank(spec.description, UnicodeSpace);
    var catalog := McpCatalog(spec, []);
    ReconcileSetsReady(catalog, UnicodeSpace, 1);
    var client := new Client(map[key := catalog]);
    var reconciler := new McpCatalogReconciler(client, UnicodeSpace);
    err := reconciler.Reconcile(key, 1);
    var updated := client.Get(key);
    stored := updated.Some?;
    ready := FindStatusCondition(updated.value.conditions, ConditionTypeReady);
  }
}

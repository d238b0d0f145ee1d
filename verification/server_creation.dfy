/**
 * `ServerCreationService`: the saga that creates a server. The request is
 * normalised against its egg, rejected without a node, its variables are
 * validated, the server row and its variable rows are committed in one
 * transaction under a fresh uuid, and the daemon is asked to create the
 * server; when the daemon cannot be reached the new server is force-deleted
 * and the error rethrown.
 */
module ServerCreation {
  import opened Wrappers
  import opened PhpValues
  import SV = ServerVariables

  /** The state a freshly created server starts in; later states belong to other flows. */
  datatype ServerState = Installing

  /** The egg `findOrFail($data['egg_id'])` loaded: its docker images in order and its startup command. */
  datatype Egg = Egg(dockerImages: seq<string>, startup: string)

  /** One entry of the validator's output: the egg variable and its checked value. */
  datatype ValidatedVariable = ValidatedVariable(id: nat, value: Value)

  /**
   * `VariableValidatorService::setUserLevel(admin)->handle($eggId, $environment, $validate)`,
   * kept opaque: the validated variables, or the message of the failed rule.
   */
  type VariableValidator = (Value, Value, bool) -> Result<seq<ValidatedVariable>, string>

  /** A row of the servers table, as `createModel` fills it. */
  datatype Server = Server(
    id: nat,
    externalId: Value,
    uuid: string,
    uuidShort: string,
    nodeId: Value,
    name: Value,
    description: Value,
    status: ServerState,
    skipScripts: Value,
    ownerId: Value,
    memory: Value,
    swap: Value,
    disk: Value,
    io: Value,
    cpu: Value,
    threads: Value,
    oomKiller: Value,
    ports: Value,
    eggId: Value,
    startup: Value,
    image: Value,
    databaseLimit: Value,
    allocationLimit: Value,
    backupLimit: Value,
    dockerLabels: Value)

  /** The local record store: servers by id, the variable table, and the next auto-increment id. */
  datatype Store = Store(servers: map<nat, Server>, variables: SV.Table, nextId: nat)

  /** Ids come from auto-increment: every stored id, and every row's server, lies below the next one. */
  predicate Wf(store: Store) {
    && (forall id :: id in store.servers ==> id < store.nextId && store.servers[id].id == id)
    && (forall j :: 0 <= j < |store.variables| ==> store.variables[j].serverId < store.nextId)
  }

  /** No two servers share a uuid, and no two share a short uuid. */
  predicate UniqueUuids(store: Store) {
    forall a, b :: a in store.servers && b in store.servers && a != b ==>
      && store.servers[a].uuid != store.servers[b].uuid
      && store.servers[a].uuidShort != store.servers[b].uuidShort
  }

  /** `substr($uuid, 0, 8)`. */
  function ShortUuid(uuid: string): (short: string)
    ensures |short| == (if |uuid| < 8 then |uuid| else 8)
    ensures short == uuid[..|short|]
  {
    if |uuid| < 8 then uuid else uuid[..8]
  }

  /** The store already has a server with this uuid, or with its short form. */
  predicate UuidTaken(store: Store, uuid: string) {
    exists id :: id in store.servers && (store.servers[id].uuid == uuid || store.servers[id].uuidShort == ShortUuid(uuid))
  }

  /** How the daemon's create call ends. */
  datatype DaemonOutcome = DaemonOk | DaemonConnectionFailure | DaemonOtherFailure

  /** The exceptions `handle` lets escape. */
  datatype CreationError =
    | NodeMissing                  // Assert::false(empty($data['node_id']))
    | VariablesInvalid(message: string)
    | DaemonConnectionLost         // DaemonConnectionException, rethrown after cleanup
    | DaemonFailed                 // any other daemon exception, not compensated

  /** The calls `handle` makes on its collaborators, in order. */
  datatype Event =
    | VariablesValidated
    | ServerCommitted(serverId: nat, uuid: string)
    | DaemonCreateCalled(serverId: nat, startOnCompletion: Value)
    | ServerForceDeleted(serverId: nat)

  /** The first docker image of the egg, or null when it lists none. */
  function FirstImage(egg: Egg): (v: Value)
    ensures |egg.dockerImages| > 0 ==> v == Str(egg.dockerImages[0])
    ensures |egg.dockerImages| == 0 ==> v == Null
  {
    if |egg.dockerImages| > 0 then Str(egg.dockerImages[0]) else Null
  }

  /** `oom_killer` is derived from `oom_disabled` exactly when it is not set and `oom_disabled` is. */
  predicate OomFromDisabled(data: Data) {
    !Isset(data, "oom_killer") && Isset(data, "oom_disabled")
  }

  /** The request after its first lines: `oom_killer` derived, `image` and `startup` filled from the egg. */
  function Normalise(data: Data, egg: Egg): (d: Data)
    ensures d.Keys == data.Keys + {"image", "startup"} + (if OomFromDisabled(data) then {"oom_killer"} else {})
    ensures OomFromDisabled(data) ==> d["oom_killer"] == Bool(!Truthy(data["oom_disabled"]))
    ensures !OomFromDisabled(data) && "oom_killer" in data ==> d["oom_killer"] == data["oom_killer"]
    ensures Isset(data, "image") ==> d["image"] == data["image"]
    ensures !Isset(data, "image") ==> d["image"] == FirstImage(egg)
    ensures Isset(data, "startup") ==> d["startup"] == data["startup"]
    ensures !Isset(data, "startup") ==> d["startup"] == Str(egg.startup)
    ensures forall k :: k in data && k != "oom_killer" && k != "image" && k != "startup" ==> d[k] == data[k]
  {
    var withOom := if OomFromDisabled(data) then data["oom_killer" := Bool(!Truthy(data["oom_disabled"]))] else data;
    var withImage := withOom["image" := Coalesce(withOom, "image", FirstImage(egg))];
    withImage["startup" := Coalesce(withImage, "startup", Str(egg.startup))]
  }

  /** Normalising twice changes nothing more than normalising once. */
  lemma NormaliseIdempotent(data: Data, egg: Egg)
    ensures Normalise(Normalise(data, egg), egg) == Normalise(data, egg)
  {
    var once := Normalise(data, egg);
    var twice := Normalise(once, egg);
    assert !OomFromDisabled(once);
    assert twice.Keys == once.Keys;
    forall k | k in once
      ensures twice[k] == once[k]
    {
    }
  }

  /** `createModel($data)` for the new id and uuid: the server row with its defaults. */
  function NewServer(d: Data, id: nat, uuid: string): (s: Server)
    ensures s.id == id && s.uuid == uuid && s.uuidShort == ShortUuid(uuid)
    ensures s.status == Installing
    ensures s.description == Coalesce(d, "description", Str(""))
    ensures s.skipScripts == Coalesce(d, "skip_scripts", Bool(false))
    ensures s.oomKiller == Coalesce(d, "oom_killer", Bool(false))
    ensures s.ports == Coalesce(d, "ports", List([]))
    ensures s.databaseLimit == Coalesce(d, "database_limit", Int(0))
    ensures s.allocationLimit == Coalesce(d, "allocation_limit", Int(0))
    ensures s.backupLimit == Coalesce(d, "backup_limit", Int(0))
    ensures s.nodeId == ArrGet(d, "node_id", Null) && s.eggId == ArrGet(d, "egg_id", Null)
    ensures s.image == ArrGet(d, "image", Null) && s.startup == ArrGet(d, "startup", Null)
  {
    Server(
      id := id,
      externalId := ArrGet(d, "external_id", Null),
      uuid := uuid,
      uuidShort := ShortUuid(uuid),
      nodeId := ArrGet(d, "node_id", Null),
      name := ArrGet(d, "name", Null),
      description := OrElse(ArrGet(d, "description", Null), Str("")),
      status := Installing,
      skipScripts := OrElse(ArrGet(d, "skip_scripts", Null), Bool(Isset(d, "skip_scripts"))),
      ownerId := ArrGet(d, "owner_id", Null),
      memory := ArrGet(d, "memory", Null),
      swap := ArrGet(d, "swap", Null),
      disk := ArrGet(d, "disk", Null),
      io := ArrGet(d, "io", Null),
      cpu := ArrGet(d, "cpu", Null),
      threads := ArrGet(d, "threads", Null),
      oomKiller := OrElse(ArrGet(d, "oom_killer", Null), Bool(false)),
      ports := OrElse(ArrGet(d, "ports", Null), List([])),
      eggId := ArrGet(d, "egg_id", Null),
      startup := ArrGet(d, "startup", Null),
      image := ArrGet(d, "image", Null),
      databaseLimit := OrElse(ArrGet(d, "database_limit", Null), Int(0)),
      allocationLimit := OrElse(ArrGet(d, "allocation_limit", Null), Int(0)),
      backupLimit := OrElse(ArrGet(d, "backup_limit", Null), Int(0)),
      dockerLabels := ArrGet(d, "docker_labels", Null))
  }

  /** `storeEggVariables`: one row per validated variable, null stored as '', all stamped with the same instant. */
  function VariableRows(serverId: nat, vars: seq<ValidatedVariable>, now: nat): (rows: SV.Table)
    ensures |rows| == |vars|
    ensures forall i :: 0 <= i < |rows| ==>
      && rows[i].serverId == serverId
      && rows[i].variableId == vars[i].id
      && rows[i].value == (if vars[i].value.Null? then Str("") else vars[i].value)
      && rows[i].createdAt == now && rows[i].updatedAt == now
  {
    seq(|vars|, i requires 0 <= i < |vars| => SV.VariableRow(serverId, vars[i].id, OrElse(vars[i].value, Str("")), now, now))
  }

  /**
   * `generateUniqueUuidCombo`: candidate uuids are drawn in order until one
   * is found whose full and short forms are both unused.
   */
  method GenerateUniqueUuid(store: Store, candidates: seq<string>) returns (uuid: string, attempts: nat)
    requires exists k :: 0 <= k < |candidates| && !UuidTaken(store, candidates[k])
    ensures 1 <= attempts <= |candidates| && uuid == candidates[attempts - 1]
    ensures !UuidTaken(store, uuid)
    ensures forall j :: 0 <= j < attempts - 1 ==> UuidTaken(store, candidates[j])
  {
    var i := 0;
    while UuidTaken(store, candidates[i])
      invariant 0 <= i < |candidates|
      invariant forall j :: 0 <= j < i ==> UuidTaken(store, candidates[j])
      invariant exists k :: i <= k < |candidates| && !UuidTaken(store, candidates[k])
      decreases |candidates| - i
    {
      i := i + 1;
    }
    uuid, attempts := candidates[i], i + 1;
  }

  /** The flag handed to the daemon: `Arr::get($data, 'start_on_completion', true) ?? true`. */
  function StartOnCompletion(d: Data): (v: Value)
    ensures !Isset(d, "start_on_completion") ==> v == Bool(true)
    ensures Isset(d, "start_on_completion") ==> v == d["start_on_completion"]
  {
    OrElse(ArrGet(d, "start_on_completion", Bool(true)), Bool(true))
  }

  /** The validator call `handle` makes on the normalised request. */
  function Validate(d: Data, validateVariables: bool, validator: VariableValidator): Result<seq<ValidatedVariable>, string> {
    validator(ArrGet(d, "egg_id", Null), ArrGet(d, "environment", List([])), validateVariables)
  }

  /** The request gets as far as the transaction: it names a node and its variables validate. */
  predicate Admitted(data: Data, egg: Egg, validateVariables: bool, validator: VariableValidator) {
    var d := Normalise(data, egg);
    !IsEmpty(d, "node_id") && Validate(d, validateVariables, validator).Success?
  }

  /** `ServerDeletionService::withForce()->handle($server)`: the local server row and its variable rows go. */
  function ForceDelete(store: Store, id: nat): (after: Store)
    ensures after.servers.Keys == store.servers.Keys - {id}
    ensures forall k :: k in after.servers ==> after.servers[k] == store.servers[k]
    ensures forall row :: row in after.variables <==> row in store.variables && row.serverId != id
    ensures after.nextId == store.nextId
  {
    Store(store.servers - {id}, SV.RemoveServer(store.variables, id), store.nextId)
  }

  /** The transaction's effect: the server row and its variable rows become visible together. */
  function Commit(store: Store, server: Server, rows: SV.Table): Store {
    Store(store.servers[server.id := server], store.variables + rows, store.nextId + 1)
  }

  /** A commit under a fresh id and an unused uuid keeps the store well formed and the uuids unique. */
  lemma CommitKeepsInvariants(store: Store, server: Server, rows: SV.Table)
    requires Wf(store) && server.id == store.nextId
    requires forall j :: 0 <= j < |rows| ==> rows[j].serverId == server.id
    requires !UuidTaken(store, server.uuid) && server.uuidShort == ShortUuid(server.uuid)
    ensures Wf(Commit(store, server, rows))
    ensures UniqueUuids(store) ==> UniqueUuids(Commit(store, server, rows))
  {
    var after := Commit(store, server, rows);
    assert forall j :: 0 <= j < |after.variables| ==> after.variables[j].serverId < after.nextId by {
      forall j | 0 <= j < |after.variables|
        ensures after.variables[j].serverId < after.nextId
      {
        if j < |store.variables| {
          assert after.variables[j] == store.variables[j];
        } else {
          assert after.variables[j] == rows[j - |store.variables|];
        }
      }
    }
  }

  /** Force-deleting the server a commit just added leaves exactly the servers and rows from before it. */
  lemma ForceDeleteUndoesCommit(store: Store, server: Server, rows: SV.Table)
    requires Wf(store) && server.id == store.nextId
    requires forall j :: 0 <= j < |rows| ==> rows[j].serverId == server.id
    ensures ForceDelete(Commit(store, server, rows), server.id).servers == store.servers
    ensures ForceDelete(Commit(store, server, rows), server.id).variables == store.variables
  {
    assert server.id !in store.servers;
    assert store.servers[server.id := server] - {server.id} == store.servers;
    SV.RemoveAppended(store.variables, rows, server.id);
  }

  /** Removing a server keeps the store well formed and its uuids unique. */
  lemma ForceDeleteKeepsInvariants(store: Store, id: nat)
    requires Wf(store)
    ensures Wf(ForceDelete(store, id))
    ensures UniqueUuids(store) ==> UniqueUuids(ForceDelete(store, id))
  {
    var after := ForceDelete(store, id);
    forall j | 0 <= j < |after.variables|
      ensures after.variables[j].serverId < after.nextId
    {
      assert after.variables[j] in store.variables;
    }
  }

  /**
   * The transaction's effect is what the store holds after: the server row
   * built from the request under the next id and an unused candidate uuid,
   * with its variable rows appended.
   */
  predicate StaysCommitted(
    store: Store, after: Store, d: Data, vars: seq<ValidatedVariable>, uuid: string, candidates: seq<string>, now: nat)
  {
    && uuid in candidates && !UuidTaken(store, uuid)
    && after == Commit(store, NewServer(d, store.nextId, uuid), VariableRows(store.nextId, vars, now))
  }

  /**
   * The part of `handle` after validation: the transaction (uuid, server
   * row, variable rows), then the daemon call and, when the daemon cannot
   * be reached, the compensating force-delete.
   */
  method Provision(
    store: Store, d: Data, vars: seq<ValidatedVariable>, candidates: seq<string>, now: nat, daemon: DaemonOutcome)
    returns (result: Result<Server, CreationError>, after: Store, trace: seq<Event>)
    requires Wf(store)
    requires exists k :: 0 <= k < |candidates| && !UuidTaken(store, candidates[k])
    ensures Wf(after)
    ensures UniqueUuids(store) ==> UniqueUuids(after)
    ensures |trace| >= 2
    ensures trace[0].ServerCommitted? && trace[0].serverId == store.nextId
    ensures trace[1] == DaemonCreateCalled(store.nextId, StartOnCompletion(d))
    ensures result.Success? <==> daemon == DaemonOk
    ensures result.Success? ==> result.value == NewServer(d, store.nextId, trace[0].uuid)
    ensures daemon == DaemonConnectionFailure ==>
      && result == Failure(DaemonConnectionLost)
      && after.servers == store.servers
      && after.variables == store.variables
      && trace == [trace[0], DaemonCreateCalled(store.nextId, StartOnCompletion(d)), ServerForceDeleted(store.nextId)]
    ensures daemon == DaemonOtherFailure ==> result == Failure(DaemonFailed) && |trace| == 2
    // any answer but a lost connection leaves the transaction's effect in place
    ensures daemon != DaemonConnectionFailure ==> StaysCommitted(store, after, d, vars, trace[0].uuid, candidates, now)
  {
    var uuid, attempts := GenerateUniqueUuid(store, candidates);
    var id := store.nextId;
    var server := NewServer(d, id, uuid);
    var rows := VariableRows(id, vars, now);
    result, after, trace := CommitThenCreate(store, server, rows, StartOnCompletion(d), daemon);
  }

  /**
   * The transaction that stores a prepared server with its variable rows,
   * then the daemon call and, when the daemon cannot be reached, the
   * compensating force-delete.
   */
  method CommitThenCreate(store: Store, server: Server, rows: SV.Table, start: Value, daemon: DaemonOutcome)
    returns (result: Result<Server, CreationError>, after: Store, trace: seq<Event>)
    requires Wf(store) && server.id == store.nextId
    requires forall j :: 0 <= j < |rows| ==> rows[j].serverId == server.id
    requires !UuidTaken(store, server.uuid) && server.uuidShort == ShortUuid(server.uuid)
    ensures Wf(after)
    ensures UniqueUuids(store) ==> UniqueUuids(after)
    ensures |trace| >= 2 && trace[0] == ServerCommitted(server.id, server.uuid) && trace[1] == DaemonCreateCalled(server.id, start)
    ensures result.Success? <==> daemon == DaemonOk
    ensures daemon != DaemonConnectionFailure ==> after == Commit(store, server, rows) && |trace| == 2
    ensures daemon == DaemonOk ==> result == Success(server)
    ensures daemon == DaemonConnectionFailure ==>
      && result == Failure(DaemonConnectionLost)
      && after.servers == store.servers
      && after.variables == store.variables
      && trace == [ServerCommitted(server.id, server.uuid), DaemonCreateCalled(server.id, start), ServerForceDeleted(server.id)]
    ensures daemon == DaemonOtherFailure ==> result == Failure(DaemonFailed)
  {
    var committed := Commit(store, server, rows);
    CommitKeepsInvariants(store, server, rows);
    trace := [ServerCommitted(server.id, server.uuid), DaemonCreateCalled(server.id, start)];
    match daemon {
      case DaemonOk =>
        result, after := Success(server), committed;
      case DaemonConnectionFailure =>
        ForceDeleteUndoesCommit(store, server, rows);
        ForceDeleteKeepsInvariants(committed, server.id);
        result, after := Failure(DaemonConnectionLost), ForceDelete(committed, server.id);
        trace := trace + [ServerForceDeleted(server.id)];
      case DaemonOtherFailure =>
        result, after := Failure(DaemonFailed), committed;
    }
  }

  /**
   * `handle($data)`: the creation saga. The daemon's answer and the uuid
   * stream are inputs; `trace` lists the collaborator calls made.
   */
  method Handle(
    store: Store, data: Data, egg: Egg, validateVariables: bool, validator: VariableValidator,
    candidates: seq<string>, now: nat, daemon: DaemonOutcome)
    returns (result: Result<Server, CreationError>, after: Store, trace: seq<Event>)
    requires Wf(store)
    requires exists k :: 0 <= k < |candidates| && !UuidTaken(store, candidates[k])
    ensures Wf(after)
    ensures UniqueUuids(store) ==> UniqueUuids(after)
    // fail fast: no node means no validation, no transaction and no daemon call
    ensures IsEmpty(Normalise(data, egg), "node_id") ==> result == Failure(NodeMissing) && after == store && trace == []
    ensures !IsEmpty(Normalise(data, egg), "node_id") ==> |trace| >= 1 && trace[0] == VariablesValidated
    ensures !Admitted(data, egg, validateVariables, validator) ==> after == store && |trace| <= 1
    ensures !IsEmpty(Normalise(data, egg), "node_id") && !Admitted(data, egg, validateVariables, validator) ==>
      result == Failure(VariablesInvalid(Validate(Normalise(data, egg), validateVariables, validator).error))
    // the daemon is called after the commit, with the start flag defaulting to true
    ensures Admitted(data, egg, validateVariables, validator) ==>
      && |trace| >= 3
      && trace[1].ServerCommitted? && trace[1].serverId == store.nextId
      && trace[2] == DaemonCreateCalled(store.nextId, StartOnCompletion(Normalise(data, egg)))
    // success: the new server is returned
    ensures result.Success? <==> Admitted(data, egg, validateVariables, validator) && daemon == DaemonOk
    ensures result.Success? ==> result.value == NewServer(Normalise(data, egg), store.nextId, trace[1].uuid)
    // unless the daemon cannot be reached, the server and one row per validated variable stay stored
    ensures Admitted(data, egg, validateVariables, validator) && daemon != DaemonConnectionFailure ==>
      StaysCommitted(store, after, Normalise(data, egg), Validate(Normalise(data, egg), validateVariables, validator).value,
                     trace[1].uuid, candidates, now)
    // unreachable daemon: compensated, the store is back to its servers and rows, the error rethrown
    ensures Admitted(data, egg, validateVariables, validator) && daemon == DaemonConnectionFailure ==>
      && result == Failure(DaemonConnectionLost)
      && after.servers == store.servers
      && after.variables == store.variables
      && trace[|trace| - 1] == ServerForceDeleted(store.nextId)
    // any other daemon failure: not compensated, the error rethrown
    ensures Admitted(data, egg, validateVariables, validator) && daemon == DaemonOtherFailure ==> result == Failure(DaemonFailed)
  {
    var d := Normalise(data, egg);
    if IsEmpty(d, "node_id") {
      return Failure(NodeMissing), store, [];
    }
    var checked := Validate(d, validateVariables, validator);
    if checked.Failure? {
      return Failure(VariablesInvalid(checked.error)), store, [VariablesValidated];
    }
    assert Admitted(data, egg, validateVariables, validator);
    var provisioned;
    result, after, provisioned := Provision(store, d, checked.value, candidates, now, daemon);
    trace := [VariablesValidated] + provisioned;
    assert trace[1..] == provisioned;
  }
}

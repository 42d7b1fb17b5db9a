/** Task records (storage/schema.py). Time stamps are not modelled. */
module Schema {
  import opened RingMath
  import opened Wrappers

  datatype Json = Null | Bool(b: bool) | Int(n: int) | Str(s: string) | Obj(text: string)
  {
    /** isinstance(x, int), which also accepts booleans. */
    predicate IsInt() { Int? || Bool? }
  }

  datatype Status = REGISTERED | QUEUED | RUNNING | COMPLETED | FAILED | CANCELLED | DELETED

  /** A status as it arrives: one of the known ones, or some other text. */
  datatype StatusField = Known(status: Status) | Unsupported

  datatype TaskInput = TaskInput(taskId: string, jobId: Option<string>, kind: Option<string>, payload: Option<Json>,
                                 priority: Json, status: StatusField, result: Json, error: Json)

  datatype TaskRecord = TaskRecord(taskId: string, jobId: string, kind: string, payload: Json, priority: Json,
                                   status: Status, result: Json, error: Json, version: nat, deleted: bool,
                                   primary: Id, replicationFactor: nat, replicas: seq<Id>)

  /** extra: the patch names a field that may not be patched. */
  datatype Patch = Patch(extra: bool, status: Option<StatusField>, result: Option<Json>, error: Option<Json>,
                         payload: Option<Json>, priority: Option<Json>)

  /** White space, as str.strip removes it. */
  predicate IsSpace(c: char)
  {
    var n := c as int;
    9 <= n <= 13 || 28 <= n <= 32 || n == 0x85 || n == 0xa0 || n == 0x1680 || 0x2000 <= n <= 0x200a
    || n == 0x2028 || n == 0x2029 || n == 0x202f || n == 0x205f || n == 0x3000
  }

  /** Blanks, tabs and line ends among others, but no character of a usual id. */
  lemma SpaceMeaning(c: char)
    ensures c in [' ', '\t', '\n', '\r'] ==> IsSpace(c)
    ensures '!' <= c <= '~' ==> !IsSpace(c)
  {
  }

  function TrimLeft(s: string): (r: string)
    ensures |r| <= |s| && r == s[|s| - |r|..] && (r != "" ==> !IsSpace(r[0]))
    ensures forall i :: 0 <= i < |s| - |r| ==> IsSpace(s[i])
  {
    if s != "" && IsSpace(s[0]) then TrimLeft(s[1..]) else s
  }

  function TrimRight(s: string): (r: string)
    ensures |r| <= |s| && r == s[..|r|] && (r != "" ==> !IsSpace(r[|r| - 1]))
    ensures forall i :: |r| <= i < |s| ==> IsSpace(s[i])
  {
    if s != "" && IsSpace(s[|s| - 1]) then TrimRight(s[..|s| - 1]) else s
  }

  /** strip */
  function Trim(s: string): string {
    TrimRight(TrimLeft(s))
  }

  /** Trimming once is enough. */
  lemma TrimTwice(s: string)
    ensures Trim(Trim(s)) == Trim(s)
  {
    var l := TrimLeft(s);
    var r := TrimRight(l);
    if r != "" {
      assert r[0] == l[0];
      assert TrimLeft(r) == r;
    }
    assert TrimRight(r) == r;
  }

  /** The key of a trimmed, non-empty id. */
  function TaskKey(id: string): (key: string)
  {
    "task:" + id
  }

  /** build_task_key, which raises for a blank id. */
  function BuildTaskKey(id: string): Option<string>
  {
    if Trim(id) == "" then None else Some(TaskKey(Trim(id)))
  }

  lemma TaskKeyInjective(a: string, b: string)
    ensures TaskKey(a) == TaskKey(b) ==> a == b
  {
    assert TaskKey(a)[5..] == a && TaskKey(b)[5..] == b;
  }

  /** Two ids have the same key exactly if they differ in surrounding white space only. */
  lemma SameKeyIff(a: string, b: string)
    requires BuildTaskKey(a).Some? && BuildTaskKey(b).Some?
    ensures BuildTaskKey(a) == BuildTaskKey(b) <==> Trim(a) == Trim(b)
  {
    TaskKeyInjective(Trim(a), Trim(b));
  }

  function CreateTaskRecord(input: TaskInput, owner: Id, k: nat, id: string): Option<TaskRecord>
  {
    if input.jobId.None? || input.kind.None? || input.payload.None? then None
    else if input.jobId.value == "" || input.kind.value == "" || id == "" then None
    else if input.status.Unsupported? || !input.priority.IsInt() then None
    else Some(TaskRecord(id, input.jobId.value, input.kind.value, input.payload.value, input.priority,
                         input.status.status, input.result, input.error, 1, false,
                         owner, if k >= 1 then k else 1, []))
  }

  function SetReplicaNodes(r: TaskRecord, replicas: seq<Id>): TaskRecord {
    r.(replicas := replicas, version := r.version + 1)
  }

  function MarkDeleted(r: TaskRecord): TaskRecord {
    r.(status := DELETED, deleted := true, version := r.version + 1)
  }

  /** The inputs that are refused: a field is missing, blank or of the wrong kind. */
  predicate InputRefused(input: TaskInput, id: string)
  {
    input.jobId == None || input.kind == None || input.payload == None
    || input.jobId == Some("") || input.kind == Some("") || id == ""
    || input.status == Unsupported || !(input.priority.Int? || input.priority.Bool?)
  }

  /** The record has what the input gave. */
  predicate StoresInput(r: TaskRecord, input: TaskInput)
  {
    Some(r.jobId) == input.jobId && Some(r.kind) == input.kind && Some(r.payload) == input.payload
    && r.priority == input.priority && Known(r.status) == input.status
    && r.result == input.result && r.error == input.error
  }

  /** Which inputs are refused, and what a new record and the record with its replicas hold otherwise. */
  lemma CreateMeaning(input: TaskInput, owner: Id, k: nat, id: string, replicas: seq<Id>)
    ensures CreateTaskRecord(input, owner, k, id).None? <==> InputRefused(input, id)
    ensures CreateTaskRecord(input, owner, k, id).Some? ==>
              var r := CreateTaskRecord(input, owner, k, id).value;
              var placed := SetReplicaNodes(r, replicas);
              && StoresInput(r, input) && r.taskId == id && r.version == 1 && !r.deleted
              && r.primary == owner && r.replicas == [] && r.replicationFactor >= 1
              && (r.replicationFactor == k || (k == 0 && r.replicationFactor == 1))
              && StoresInput(placed, input) && placed.taskId == id && placed.version == 2 && !placed.deleted
              && placed.primary == owner && placed.replicas == replicas
              && placed.replicationFactor == r.replicationFactor
  {
  }

  function UpdateTaskRecord(r: TaskRecord, p: Patch): Option<TaskRecord>
  {
    if p.extra then None
    else if p.status.Some? && p.status.value.Unsupported? then None
    else if p.payload.Some? && !p.payload.value.Obj? then None
    else if p.priority.Some? && !p.priority.value.IsInt() then None
    else
      var status := if p.status.Some? then p.status.value.status else r.status;
      Some(r.(status := status,
              deleted := r.deleted || (p.status.Some? && status == DELETED),
              result := if p.result.Some? then p.result.value else r.result,
              error := if p.error.Some? then p.error.value else r.error,
              payload := if p.payload.Some? then p.payload.value else r.payload,
              priority := if p.priority.Some? then p.priority.value else r.priority,
              version := r.version + 1))
  }

  function Patched<T>(field: Option<T>, was: T): T {
    if field.Some? then field.value else was
  }

  /** The patches that are refused: another field is named, the status is unknown, the payload is no
      object or the priority no integer. */
  predicate PatchRefused(p: Patch)
  {
    p.extra || p.status == Some(Unsupported)
    || (p.payload.Some? && !p.payload.value.Obj?)
    || (p.priority.Some? && !(p.priority.value.Int? || p.priority.value.Bool?))
  }

  /** u is r with the fields that p names. */
  predicate IsPatched(u: TaskRecord, r: TaskRecord, p: Patch)
  {
    Known(u.status) == Patched(p.status, Known(r.status)) && u.result == Patched(p.result, r.result)
    && u.error == Patched(p.error, r.error) && u.payload == Patched(p.payload, r.payload)
    && u.priority == Patched(p.priority, r.priority)
    && (u.deleted <==> r.deleted || p.status == Some(Known(DELETED))) && u.version == r.version + 1
    && u.taskId == r.taskId && u.jobId == r.jobId && u.kind == r.kind
    && u.primary == r.primary && u.replicationFactor == r.replicationFactor && u.replicas == r.replicas
  }

  /** A patch is refused exactly in these cases. Otherwise each field it names has the
      given value and every other one stays, the deleted flag is raised by the status DELETED and never
      lowered, and applying the patch again changes only the version. */
  lemma UpdateMeaning(r: TaskRecord, p: Patch)
    ensures UpdateTaskRecord(r, p).None? <==> PatchRefused(p)
    ensures UpdateTaskRecord(r, p).Some? ==>
              var u := UpdateTaskRecord(r, p).value;
              IsPatched(u, r, p) && UpdateTaskRecord(u, p) == Some(u.(version := u.version + 1))
  {
  }
}

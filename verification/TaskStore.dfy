/** TaskService: register, get, update and deregister, issued at any node, against the
    replicated stores (storage/task_service.py, lines 34-213). */
module TaskStore {
  import opened RingMath
  import opened Lookup
  import opened Networks
  import opened Replication
  import opened Chains
  import opened Schema
  import opened Wrappers

  const PRIMARY_WRITE_RETRIES := 2

  datatype Error = Invalid | Conflict | NotFound | Unavailable

  datatype Op =
    | Register(input: TaskInput, freshId: string)
    | Get(id: string)
    | Update(id: string, patch: Patch)
    | Deregister(id: string, hard: bool)
  {
    /** The task the operation is about. */
    function TaskId(): string {
      if Register? && input.taskId != "" then input.taskId
      else if Register? then freshId
      else id
    }
  }

  /** An id that is given, but blank: the source refuses it. */
  predicate Blank(op: Op)
  {
    op.Register? && op.input.taskId != "" && Trim(op.input.taskId) == ""
  }

  function TrimField(field: Option<string>): Option<string> {
    if field.Some? then Some(Trim(field.value)) else None
  }

  /** The operation with its ids and names stripped of white space, as the records store them. */
  function Trimmed(op: Op): Op
  {
    match op
    case Register(input, freshId) =>
      Register(input.(taskId := Trim(input.taskId), jobId := TrimField(input.jobId), kind := TrimField(input.kind)),
          freshId)
    case Get(id) => Get(Trim(id))
    case Update(id, patch) => Update(Trim(id), patch)
    case Deregister(id, hard) => Deregister(Trim(id), hard)
  }

  datatype Outcome = Record(task: TaskRecord) | Missing | Removed | Failed(error: Error)

  // The specification: one dictionary

  /** Where a ring puts a task: the owner and the replicas behind it. */
  ghost function Place(r: Ring, hash: string -> Id, k: nat, id: string): (chain: seq<Id>)
    requires r.WF() && k > 0 && hash(TaskKey(id)) < r.Size()
    ensures |chain| > 0
  {
    ChainOf(r, Owner(r.Size(), r.nodes.Keys, hash(TaskKey(id))), k)
  }

  type Dict = map<string, TaskRecord>

  function DictRegister(dict: Dict, chain: seq<Id>, k: nat, input: TaskInput, id: string): (Dict, Outcome)
    requires |chain| > 0
  {
    if input.taskId != "" && id in dict && dict[id].status != DELETED then (dict, Failed(Conflict)) else
      match CreateTaskRecord(input, chain[0], k, id)
      case None => (dict, Failed(Invalid))
      case Some(task) =>
        var placed := SetReplicaNodes(task, chain[1..]);
        (dict[id := placed], Record(placed))
  }

  function DictUpdate(dict: Dict, id: string, patch: Patch): (Dict, Outcome)
  {
    if id !in dict then (dict, Failed(NotFound))
    else if dict[id].status == DELETED then (dict, Failed(Invalid))
    else
      match UpdateTaskRecord(dict[id], patch)
      case None => (dict, Failed(Invalid))
      case Some(task) => (dict[id := task], Record(task))
  }

  function DictDeregister(dict: Dict, id: string, hard: bool): (Dict, Outcome)
  {
    if id !in dict then (dict, Failed(NotFound))
    else if hard then (dict - {id}, Removed)
    else (dict[id := MarkDeleted(dict[id])], Record(MarkDeleted(dict[id])))
  }

  /** What each operation does to a dictionary from task ids to records. */
  function DictOp(dict: Dict, chain: seq<Id>, k: nat, op: Op): (Dict, Outcome)
    requires |chain| > 0
  {
    if op.TaskId() == "" then (dict, Failed(Invalid)) else
      match op
      case Register(input, _) => DictRegister(dict, chain, k, input, op.TaskId())
      case Get(id) => (dict, if id in dict then Record(dict[id]) else Missing)
      case Update(id, patch) => DictUpdate(dict, id, patch)
      case Deregister(id, hard) => DictDeregister(dict, id, hard)
  }

  /** What a request as it arrives does to the dictionary. */
  function DictRequest(dict: Dict, chain: seq<Id>, k: nat, op: Op): (Dict, Outcome)
    requires |chain| > 0
  {
    if Blank(op) then (dict, Failed(Invalid)) else DictOp(dict, chain, k, Trimmed(op))
  }

  /** Stripping twice is stripping once, and a request means the same stripped or not, unless it gives
      a blank id: that is refused, where no id at all asks for a fresh one. */
  lemma TrimmedMeansTheSame(dict: Dict, chain: seq<Id>, k: nat, op: Op)
    requires |chain| > 0
    ensures Trimmed(Trimmed(op)) == Trimmed(op) && !Blank(Trimmed(op))
    ensures !Blank(op) ==> DictRequest(dict, chain, k, Trimmed(op)) == DictRequest(dict, chain, k, op)
    ensures Blank(op) <==> op.Register? && op.input.taskId != "" && Trimmed(op).input.taskId == ""
    ensures Blank(op) ==> DictRequest(dict, chain, k, op) == (dict, Failed(Invalid))
  {
    match op {
      case Register(input, _) =>
        TrimTwice(input.taskId);
        if input.jobId.Some? {
          TrimTwice(input.jobId.value);
        }
        if input.kind.Some? {
          TrimTwice(input.kind.value);
        }
      case Get(id) => TrimTwice(id);
      case Update(id, _) => TrimTwice(id);
      case Deregister(id, _) => TrimTwice(id);
    }
  }

  /** Every node of the chain has exactly what the dictionary has for the id. */
  ghost predicate AgreesOn(stores: map<Id, map<string, TaskRecord>>, chain: seq<Id>, dict: Dict, id: string)
  {
    forall n :: n in chain ==>
                  n in stores
                  && (id in dict ==> TaskKey(id) in stores[n] && stores[n][TaskKey(id)] == dict[id])
                  && (id !in dict ==> TaskKey(id) !in stores[n])
  }

  /** The stores represent the dictionary: for each task, the primary and every replica on its
      chain hold the dictionary's record, or none of them holds any. */
  ghost predicate Represents(r: Ring, hash: string -> Id, k: nat,
                             stores: map<Id, map<string, TaskRecord>>, dict: Dict)
    requires r.WF() && k > 0 && forall s {:trigger hash(s)} :: hash(s) < r.Size()
  {
    forall id {:trigger AgreesOn(stores, Place(r, hash, k, id), dict, id)} :: AgreesOn(stores, Place(r, hash, k, id),
        dict, id)
  }

  lemma ChainIsAll(p: Id, targets: seq<Id>, n: Id)
    ensures n in [p] + targets <==> n == p || n in targets
  {
  }

  /** Writing one task to its whole chain is one dictionary update. */
  lemma WriteRepresents(r: Ring, hash: string -> Id, k: nat, stores: map<Id, map<string, TaskRecord>>, dict: Dict,
                        p: Id, targets: seq<Id>, id: string, v: TaskRecord)
    requires r.WF() && k > 0 && forall s {:trigger hash(s)} :: hash(s) < r.Size()
    requires Represents(r, hash, k, stores, dict) && Place(r, hash, k, id) == [p] + targets
    ensures Represents(r, hash, k, WriteAll(WriteAll(stores, [p], TaskKey(id), v), targets, TaskKey(id), v),
            dict[id := v])
  {
    var t := WriteAll(WriteAll(stores, [p], TaskKey(id), v), targets, TaskKey(id), v);
    forall x ensures AgreesOn(t, Place(r, hash, k, x), dict[id := v], x) {
      assert AgreesOn(stores, Place(r, hash, k, x), dict, x);
      TaskKeyInjective(x, id);
      forall n | n in Place(r, hash, k, x)
        ensures n in t && (x in dict[id := v] ==> TaskKey(x) in t[n] && t[n][TaskKey(x)] == dict[id := v][x])
        ensures x !in dict[id := v] ==> TaskKey(x) !in t[n]
      {
        ChainIsAll(p, targets, n);
      }
    }
  }

  lemma DeleteAgrees(stores: map<Id, map<string, TaskRecord>>, chain: seq<Id>, erased: seq<Id>, dict: Dict, id: string,
                     x: string)
    requires AgreesOn(stores, chain, dict, x) && (x == id ==> forall n :: n in chain ==> n in erased)
    ensures AgreesOn(DeleteAll(stores, erased, TaskKey(id)), chain, dict - {id}, x)
  {
    TaskKeyInjective(x, id);
  }

  lemma DeleteRepresents(r: Ring, hash: string -> Id, k: nat, stores: map<Id, map<string, TaskRecord>>, dict: Dict,
                         p: Id, targets: seq<Id>, id: string)
    requires r.WF() && k > 0 && forall s {:trigger hash(s)} :: hash(s) < r.Size()
    requires Represents(r, hash, k, stores, dict) && Place(r, hash, k, id) == [p] + targets
    ensures Represents(r, hash, k, DeleteAll(DeleteAll(stores, [p], TaskKey(id)), targets, TaskKey(id)), dict - {id})
  {
    DeleteBoth(stores, [p], targets, TaskKey(id));
    var t := DeleteAll(DeleteAll(stores, [p], TaskKey(id)), targets, TaskKey(id));
    forall x ensures AgreesOn(t, Place(r, hash, k, x), dict - {id}, x) {
      assert AgreesOn(stores, Place(r, hash, k, x), dict, x);
      DeleteAgrees(stores, Place(r, hash, k, x), [p] + targets, dict, id, x);
    }
  }

  lemma DistinctWritten(p: Id, targets: seq<Id>, written: seq<Id>)
    requires Distinct([p] + targets) && Distinct(written) && forall n :: n in written ==> n in targets
    ensures Distinct([p] + written)
  {
    var all := [p] + targets;
    forall j | 0 <= j < |written| ensures written[j] != p {
      assert written[j] in targets;
      var i :| 0 <= i < |targets| && targets[i] == written[j];
      assert all[0] == p && all[i + 1] == targets[i];
    }
  }

  /** Replicas of an absent task have no copy. */
  lemma {:induction false} NoCopy(stores: map<Id, map<string, TaskRecord>>, ns: seq<Id>, key: string)
    requires forall n :: n in ns && n in stores ==> key !in stores[n]
    ensures FirstCopy(stores, ns, key) == None
  {
    if ns != [] {
      NoCopy(stores, ns[1..], key);
    }
  }

  /** The first copy along a chain that agrees with the dictionary is the dictionary's record. */
  lemma CopiesShowDict(stores: map<Id, map<string, TaskRecord>>, chain: seq<Id>, dict: Dict, id: string)
    requires chain != [] && AgreesOn(stores, chain, dict, id)
    ensures FirstCopy(stores, chain, TaskKey(id)) == if id in dict then Some(dict[id]) else None
  {
    assert chain[0] in chain;
    if id !in dict {
      NoCopy(stores, chain, TaskKey(id));
    }
  }

  /** Where a write to a remote node lands, if it does: each failed attempt is followed by a new
      lookup of the key, which hashes to h, at self. */
  function Landing(answers: (nat, Id) -> bool, route: (nat, Id, Id) -> Id, self: Id, h: Id, node: Id, t: nat,
                   retries: nat): Option<Id>
    decreases retries
  {
    if answers(t, node) then Some(node)
    else if retries == 0 then None
    else Landing(answers, route, self, h, route(t + 1, self, h), t + 2, retries - 1)
  }

  /** The three nodes that are tried in turn, and when. */
  lemma LandingMeaning(answers: (nat, Id) -> bool, route: (nat, Id, Id) -> Id, self: Id, h: Id, node: Id, t: nat)
    ensures var second, third := route(t + 1, self, h), route(t + 3, self, h);
            Landing(answers, route, self, h, node, t, PRIMARY_WRITE_RETRIES)
            == if answers(t, node) then Some(node)
               else if answers(t + 2, second) then Some(second)
               else if answers(t + 4, third) then Some(third)
               else None
  {
    assert Landing(answers, route, self, h, route(t + 3, self, h), t + 4, 0)
           == if answers(t + 4, route(t + 3, self, h)) then Some(route(t + 3, self, h)) else None;
  }

  /** The copy some node holds, patched or closed. */
  ghost predicate UpdatesCopy(stores: map<Id, map<string, TaskRecord>>, key: string, patch: Patch, u: TaskRecord)
  {
    exists n :: n in stores && key in stores[n] && UpdateTaskRecord(stores[n][key], patch) == Some(u)
  }

  ghost predicate ClosesCopy(stores: map<Id, map<string, TaskRecord>>, key: string, u: TaskRecord)
  {
    exists n :: n in stores && key in stores[n] && u == MarkDeleted(stores[n][key])
  }

  /** COMPLETE is backed by a quorum if the write landed on the primary, or k is at most 2. */
  lemma QuorumHolds(stores: map<Id, map<string, TaskRecord>>, landed: Id, primary: Id, report: WriteReport, k: nat,
                    key: string, v: TaskRecord)
    requires k > 0 && landed in stores && primary in stores && (forall n :: n in report.written ==> n in stores)
    requires Distinct([primary] + report.written) && report.complete && 1 + |report.written| >= Quorum(k)
    requires landed == primary || k <= 2
    ensures |Holders(AfterWrite(stores, landed, report, key, v), key, v)| >= Quorum(k)
  {
    if landed == primary {
      CompleteSurvivesCrashes(stores, primary, report, k, key, v, {});
    } else {
      WrittenHold(stores, landed, report, key, v);
      SubsetCount({landed}, Holders(AfterWrite(stores, landed, report, key, v), key, v));
    }
  }

  class TaskService {
    const self: Id
    const net: Network<TaskRecord>
    const repl: ReplicationManager<TaskRecord>
    const hash: string -> Id

    ghost predicate Valid()
      reads this, repl, net
    {
      repl.net == net && repl.Valid() && self in net.ring.nodes
      && forall s {:trigger hash(s)} :: hash(s) < net.ring.Size()
    }

    /** The service runs on this network, with this hash and this replication factor. */
    ghost predicate On(net: Network<TaskRecord>, hash: string -> Id, k: nat)
      reads this, repl, this.net
    {
      Valid() && this.net == net && this.hash == hash && repl.k == k
    }

    /** The ring is ideal, every call is answered, and this node is not asked for its own id. */
    ghost predicate Settled(id: string)
      reads this, repl, net
    {
      Valid() && net.Reliable() && net.ring.IdealSucc() && !AsksOwnId(net.ring, self, hash(TaskKey(id)))
    }

    ghost predicate Shows(dict: Dict)
      requires net.ring.WF() && repl.k > 0 && forall s {:trigger hash(s)} :: hash(s) < net.ring.Size()
      reads net`stores
    {
      Represents(net.ring, hash, repl.k, net.stores, dict)
    }

    constructor (self: Id, net: Network<TaskRecord>, replicationK: nat, hash: string -> Id)
      requires net.Valid() && self in net.ring.nodes && forall s {:trigger hash(s)} :: hash(s) < net.ring.Size()
      ensures Valid() && this.self == self && this.net == net && this.hash == hash
      ensures repl.k == if replicationK >= 1 then replicationK else 1
    {
      this.self, this.net, this.hash := self, net, hash;
      this.repl := new ReplicationManager(net, replicationK);
    }

    method OwnerForKey(key: string) returns (owner: Id)
      requires Valid()
      modifies net`tick
      ensures Valid() && net.tick == old(net.tick) + 1
      ensures owner in net.ring.nodes && owner == net.route(old(net.tick), self, hash(key))
      ensures net.Reliable() && net.ring.IdealSucc() && !AsksOwnId(net.ring, self, hash(key)) ==>
                owner == Owner(net.ring.Size(), net.ring.nodes.Keys, hash(key))
    {
      owner := net.FindSuccessor(self, hash(key));
      if net.ring.IdealSucc() {
        LookupCorrect(net.ring, self, hash(key));
      }
    }

    /** The node that takes a primary write begun at tick t, if one does. */
    function LandsOn(node: Id, key: string, t: nat): Option<Id>
    {
      if node == self then Some(self)
      else Landing(net.answers, net.route, self, hash(key), node, t, PRIMARY_WRITE_RETRIES)
    }

    /** Every new lookup of the key would name this node again. */
    ghost predicate StableRoute(node: Id, key: string)
    {
      forall t: nat {:trigger net.route(t, self, hash(key))} :: net.route(t, self, hash(key)) == node
    }

    /** landed is the node that took the write; after a failed attempt the owner is looked up again. */
    method PutOnNode(node: Id, key: string, v: TaskRecord) returns (ok: bool, landed: Id)
      requires Valid() && node in net.ring.nodes
      modifies net`tick, net`stores
      ensures Valid() && landed in net.ring.nodes && net.tick >= old(net.tick) + if node == self then 0 else 1
      ensures net.stores == if ok then WriteAll(old(net.stores), [landed], key, v) else old(net.stores)
      ensures net.Reliable() || node == self ==> ok && landed == node
      ensures (if ok then Some(landed) else None) == LandsOn(node, key, old(net.tick))
      ensures StableRoute(node, key) ==> landed == node
    {
      if node == self {
        net.PutLocal(self, key, v);
        assert net.stores == WriteAll(old(net.stores), [node], key, v);
        return true, node;
      }
      ok, landed := PutRemote(node, key, v);
    }

    /** The attempts at a remote primary. */
    method PutRemote(node: Id, key: string, v: TaskRecord) returns (ok: bool, landed: Id)
      requires Valid() && node in net.ring.nodes && node != self
      modifies net`tick, net`stores
      ensures Valid() && landed in net.ring.nodes && net.tick > old(net.tick)
      ensures net.stores == if ok then WriteAll(old(net.stores), [landed], key, v) else old(net.stores)
      ensures net.Reliable() ==> ok && landed == node
      ensures (if ok then Some(landed) else None) == LandsOn(node, key, old(net.tick))
      ensures StableRoute(node, key) ==> landed == node
    {
      ok, landed := false, node;
      for attempt := 0 to PRIMARY_WRITE_RETRIES + 1
        invariant Valid() && landed in net.ring.nodes && net.stores == old(net.stores) && !ok
        invariant net.tick >= old(net.tick) && (attempt > 0 ==> net.tick > old(net.tick))
        invariant attempt == 0 || StableRoute(node, key) ==> landed == node
        invariant LandsOn(node, key, old(net.tick)) == if attempt > PRIMARY_WRITE_RETRIES then None
                  else Landing(net.answers, net.route, self, hash(key), landed, net.tick,
                      PRIMARY_WRITE_RETRIES - attempt)
      {
        ok := net.Put(landed, key, v);
        if ok {
          assert net.stores == WriteAll(old(net.stores), [landed], key, v);
          return;
        }
        if attempt < PRIMARY_WRITE_RETRIES {
          landed := net.FindSuccessor(self, hash(key));
        }
      }
    }

    /** A node answers itself without a call. */
    predicate Reads(node: Id, t: nat)
    {
      node == self || net.answers(t, node)
    }

    /** A node that does not answer counts as one without a copy. */
    method GetOnNode(node: Id, key: string) returns (v: Option<TaskRecord>)
      requires Valid() && node in net.ring.nodes
      modifies net`tick
      ensures Valid() && net.tick == old(net.tick) + if node == self then 0 else 1
      ensures v == if Reads(node, old(net.tick)) && key in net.stores[node] then Some(net.stores[node][key]) else None
    {
      if node == self {
        v := if key in net.stores[node] then Some(net.stores[node][key]) else None;
      } else {
        var ok;
        ok, v := net.Get(node, key);
      }
    }

    method DeleteOnNode(node: Id, key: string) returns (ok: bool)
      requires Valid() && node in net.ring.nodes
      modifies net`tick, net`stores
      ensures Valid() && net.tick >= old(net.tick) && ok == Reads(node, old(net.tick))
      ensures net.stores == if ok then DeleteAll(old(net.stores), [node], key) else old(net.stores)
    {
      if node == self {
        net.DeleteLocal(self, key);
        ok := true;
      } else {
        ok := net.Delete(node, key);
      }
      assert ok ==> net.stores == DeleteAll(old(net.stores), [node], key);
    }

    /** What a read finds that asks primary at tick t: its copy, if it answers and has one; otherwise
        the first copy that a replica behind it answers with, once the chain has been walked. */
    ghost predicate ReadsFrom(primary: Id, key: string, t: nat, stores: map<Id, map<string, TaskRecord>>,
                              found: Option<TaskRecord>, targets: seq<Id>)
      requires net.ring.WF()
    {
      var next := t + if primary == self then 0 else 1;
      if Reads(primary, t) && primary in stores && key in stores[primary] then found == Some(stores[primary][key])
      else
        Walk(net.ring, net.answers, primary, repl.k, next, [primary] + targets)
        && found == FirstAnswered(net.answers, stores, targets, key, next + 1 + |targets|)
    }

    lemma ReadsACopy(primary: Id, key: string, t: nat, stores: map<Id, map<string, TaskRecord>>,
                     found: Option<TaskRecord>, targets: seq<Id>)
      requires net.ring.WF() && ReadsFrom(primary, key, t, stores, found, targets) && found.Some?
      ensures exists n :: n in stores && key in stores[n] && stores[n][key] == found.value
    {
      if !(Reads(primary, t) && primary in stores && key in stores[primary]) {
        AnsweredIsCopy(net.answers, stores, targets, key, t + (if primary == self then 0 else 1) + 1 + |targets|);
      }
    }

    /** When everybody answers it is the first copy along the chain. */
    lemma ReadsFirstCopy(primary: Id, key: string, t: nat, stores: map<Id, map<string, TaskRecord>>,
                         found: Option<TaskRecord>, targets: seq<Id>)
      requires net.ring.WF() && primary in net.ring.nodes && stores.Keys == net.ring.nodes.Keys && repl.k > 0
      requires net.AnswersFrom(t) && ReadsFrom(primary, key, t, stores, found, targets)
      ensures found == FirstCopy(stores, ChainOf(net.ring, primary, repl.k), key)
    {
      if key !in stores[primary] {
        var next := t + if primary == self then 0 else 1;
        AnsweredIsFirst(net.answers, stores, targets, key, next + 1 + |targets|);
        assert Complete(net.ring, repl.k, [primary] + targets);
        assert ([primary] + targets)[1..] == targets;
      }
    }

    method ReadChain(primary: Id, key: string) returns (found: Option<TaskRecord>, ghost targets: seq<Id>)
      requires Valid() && primary in net.ring.nodes
      modifies net`tick
      ensures Valid() && ReadsFrom(primary, key, old(net.tick), net.stores, found, targets)
    {
      found := GetOnNode(primary, key);
      targets := [];
      if found.None? {
        ghost var start, at;
        found, targets, start, at := repl.ReadFromReplicas(key, primary);
      }
    }

    /** Reads never write, whatever fails; and what is read is somebody's copy. */
    method GetTask(id: string, ghost dict: Dict) returns (found: Option<TaskRecord>, ghost targets: seq<Id>)
      requires Valid() && id != ""
      modifies net`tick
      ensures Valid()
      ensures ReadsFrom(net.route(old(net.tick), self, hash(TaskKey(id))), TaskKey(id), old(net.tick) + 1, net.stores,
                  found, targets)
      ensures found.Some? ==>
                exists n :: n in net.stores && TaskKey(id) in net.stores[n]
                            && net.stores[n][TaskKey(id)] == found.value
      ensures Settled(id) ==> found == FirstCopy(net.stores, Place(net.ring, hash, repl.k, id), TaskKey(id))
      ensures Settled(id) && Shows(dict) ==> found == if id in dict then Some(dict[id]) else None
    {
      var primary := OwnerForKey(TaskKey(id));
      assert Settled(id) ==> ChainOf(net.ring, primary, repl.k) == Place(net.ring, hash, repl.k, id);
      ghost var start := net.tick;
      found, targets := ReadChain(primary, TaskKey(id));
      if Settled(id) {
        ReadsFirstCopy(primary, TaskKey(id), start, net.stores, found, targets);
      }
      if found.Some? {
        ReadsACopy(primary, TaskKey(id), start, net.stores, found, targets);
      }
      if Settled(id) && Shows(dict) {
        CopiesShowDict(net.stores, Place(net.ring, hash, repl.k, id), dict, id);
      }
    }

    /** What a write of a key that begins at tick t reports: where the primary write landed, and then
        the replica write. */
    ghost predicate WritesFrom(primary: Id, key: string, t: nat, ok: bool, landed: Id, report: WriteReport)
      requires net.ring.WF()
    {
      (if ok then Some(landed) else None) == LandsOn(primary, key, t)
      && (ok ==>
            ReplicatedFrom(net.ring, net.answers, primary, repl.k, t + if primary == self then 0 else 1, report)
            && Distinct([primary] + report.written) && (forall n :: n in report.written ==> n in report.targets)
            && report.complete == (1 + |report.written| >= Quorum(repl.k)))
    }

    /** Primary write, then replicas: the tail of register, update and soft deregister. A COMPLETE
        report means a quorum of copies if this node is the primary, or lookups of the key are stable,
        or k is at most 2. */
    method WriteTask(id: string, v: TaskRecord, primary: Id) returns (ok: bool, report: WriteReport, ghost landed: Id)
      requires Valid() && primary in net.ring.nodes
      modifies net`tick, net`stores
      ensures Valid() && landed in net.ring.nodes
      ensures WritesFrom(primary, TaskKey(id), old(net.tick), ok, landed, report)
      ensures net.stores == if ok then AfterWrite(old(net.stores), landed, report, TaskKey(id), v) else old(net.stores)
      ensures ok && report.complete && (self == primary || StableRoute(primary, TaskKey(id)) || repl.k <= 2) ==>
                |Holders(net.stores, TaskKey(id), v)| >= Quorum(repl.k)
      ensures ok && net.AnswersFrom(old(net.tick) + if primary == self then 0 else 1) ==>
                Complete(net.ring, repl.k, [primary] + report.targets) && report.written == report.targets
      ensures net.Reliable() ==> ok && landed == primary
    {
      report := WriteReport([], [], false);
      ok, landed := PutOnNode(primary, TaskKey(id), v);
      if !ok {
        return;
      }
      ghost var later := net.tick;
      report := repl.ReplicateWrite(TaskKey(id), v, primary);
      DistinctWritten(primary, report.targets, report.written);
      ReplicatedEarlier(net.ring, net.answers, primary, repl.k, later, report,
          old(net.tick) + if primary == self then 0 else 1);
      if report.complete && (landed == primary || repl.k <= 2) {
        QuorumHolds(old(net.stores), landed, primary, report, repl.k, TaskKey(id), v);
      }
    }

    /** The same write, as it shows in the dictionary. */
    method WriteShown(id: string, v: TaskRecord, primary: Id, ghost dict: Dict)
      returns (ok: bool, report: WriteReport, ghost landed: Id)
      requires Valid() && primary in net.ring.nodes
      modifies net`tick, net`stores
      ensures Valid() && landed in net.ring.nodes
      ensures WritesFrom(primary, TaskKey(id), old(net.tick), ok, landed, report)
      ensures net.stores == if ok then AfterWrite(old(net.stores), landed, report, TaskKey(id), v) else old(net.stores)
      ensures net.Reliable() ==> ok && landed == primary
      ensures net.Reliable() && old(Shows(dict)) && primary == Place(net.ring, hash, repl.k, id)[0]
              ==> Shows(dict[id := v])
    {
      ok, report, landed := WriteTask(id, v, primary);
      if net.Reliable() && old(Shows(dict)) && primary == Place(net.ring, hash, repl.k, id)[0] {
        assert Place(net.ring, hash, repl.k, id) == [primary] + report.targets;
        WriteRepresents(net.ring, hash, repl.k, old(net.stores), dict, primary, report.targets, id, v);
      }
    }

    /** A registration from tick t on, once its id is settled and its primary is looked up: the walk
        that gives the record its replicas, and the write. */
    ghost predicate RegistersFrom(id: string, input: TaskInput, primary: Id, t: nat, chain: seq<Id>, out: Outcome,
                                  landed: Id, report: WriteReport)
      requires net.ring.WF()
    {
      match CreateTaskRecord(input, primary, repl.k, id)
      case None => out == Failed(Invalid)
      case Some(task) =>
        Walk(net.ring, net.answers, primary, repl.k, t, chain)
        && WritesFrom(primary, TaskKey(id), t + |chain|, out.Record?, landed, report)
        && (out.Record? ==> out.task == SetReplicaNodes(task, chain[1..]))
    }

    /** Gives the record its replicas and writes it. */
    method WritePlaced(id: string, task: TaskRecord, primary: Id, ghost dict: Dict)
      returns (ok: bool, placed: TaskRecord, report: WriteReport, ghost landed: Id, ghost chain: seq<Id>)
      requires Valid() && primary in net.ring.nodes
      modifies net`tick, net`stores
      ensures Valid() && landed in net.ring.nodes
      ensures Walk(net.ring, net.answers, primary, repl.k, old(net.tick), chain)
      ensures placed == SetReplicaNodes(task, chain[1..])
      ensures WritesFrom(primary, TaskKey(id), old(net.tick) + |chain|, ok, landed, report)
      ensures net.stores
              == if ok then AfterWrite(old(net.stores), landed, report, TaskKey(id), placed) else old(net.stores)
      ensures net.Reliable() ==> ok && chain == ChainOf(net.ring, primary, repl.k)
      ensures net.Reliable() && old(Shows(dict)) && primary == Place(net.ring, hash, repl.k, id)[0]
              ==> Shows(dict[id := placed])
    {
      var nodes := repl.GetSuccessorChain(primary);
      chain := nodes;
      placed := SetReplicaNodes(task, nodes[1..]);
      ok, report, landed := WriteShown(id, placed, primary, dict);
    }

    /** A registration whose id is not in use. */
    method RegisterNew(input: TaskInput, id: string, primary: Id, ghost dict: Dict)
      returns (out: Outcome, report: WriteReport, ghost landed: Id, ghost chain: seq<Id>)
      requires Valid() && id != "" && primary in net.ring.nodes
      modifies net`tick, net`stores
      ensures Valid() && (out.Failed? || out.Record?)
      ensures out.Failed? ==> net.stores == old(net.stores)
      ensures out.Record? ==> landed in net.ring.nodes && out.task.taskId == id
                              && net.stores == AfterWrite(old(net.stores), landed, report, TaskKey(id), out.task)
      ensures RegistersFrom(id, input, primary, old(net.tick), chain, out, landed, report)
      ensures net.Reliable() && old(Shows(dict)) && primary == Place(net.ring, hash, repl.k, id)[0]
              && (input.taskId == "" || id !in dict || dict[id].status == DELETED) ==>
                (var result := DictRegister(dict, Place(net.ring, hash, repl.k, id), repl.k, input, id);
                 out == result.1 && Shows(result.0))
    {
      report, landed, chain := WriteReport([], [], false), self, [];
      var task := CreateTaskRecord(input, primary, repl.k, id);
      if task.None? {
        return Failed(Invalid), report, landed, chain;
      }
      var ok, placed;
      ok, placed, report, landed, chain := WritePlaced(id, task.value, primary, dict);
      assert net.Reliable() && primary == Place(net.ring, hash, repl.k, id)[0] ==>
          ok && chain == Place(net.ring, hash, repl.k, id);
      out := if ok then Record(placed) else Failed(Unavailable);
    }

    /** Some record that is not deleted has this id. */
    method IsTaken(id: string, ghost dict: Dict) returns (taken: bool)
      requires Valid() && id != ""
      modifies net`tick
      ensures Valid()
      ensures old(Settled(id)) && old(Shows(dict)) ==> taken == (id in dict && dict[id].status != DELETED)
    {
      var existing, asked := GetTask(id, dict);
      taken := existing.Some? && existing.value.status != DELETED;
    }

    /** chain: the walk that gave the record its replicas. */
    method RegisterTask(input: TaskInput, freshId: string, ghost dict: Dict)
      returns (out: Outcome, report: WriteReport, ghost landed: Id, ghost chain: seq<Id>)
      requires Valid()
      modifies net`tick, net`stores
      ensures Valid()
      ensures out.Failed? ==> net.stores == old(net.stores)
      ensures !out.Failed? ==> out.Record? && landed in net.ring.nodes
                               && net.stores
                                  == AfterWrite(old(net.stores), landed, report, TaskKey(out.task.taskId), out.task)
      ensures input.taskId == "" && freshId != "" ==>
                RegistersFrom(freshId, input, net.route(old(net.tick), self, hash(TaskKey(freshId))),
                    old(net.tick) + 1, chain, out, landed, report)
      ensures var id := if input.taskId != "" then input.taskId else freshId;
              id != "" && old(Settled(id)) && old(Shows(dict)) ==>
                (var result := DictRegister(dict, Place(net.ring, hash, repl.k, id), repl.k, input, id);
                 out == result.1 && Shows(result.0))
      ensures input.taskId == "" && freshId == "" ==> out == Failed(Invalid)
    {
      report, landed, chain := WriteReport([], [], false), self, [];
      var id := if input.taskId != "" then input.taskId else freshId;
      if input.taskId != "" {
        var taken := IsTaken(input.taskId, dict);
        if taken {
          return Failed(Conflict), report, landed, chain;
        }
      }
      if id == "" {
        return Failed(Invalid), report, landed, chain;
      }
      var primary := OwnerForKey(TaskKey(id));
      assert old(Settled(id)) ==> primary == Place(net.ring, hash, repl.k, id)[0];
      out, report, landed, chain := RegisterNew(input, id, primary, dict);
    }

    method UpdateTask(id: string, patch: Patch, ghost dict: Dict)
      returns (out: Outcome, report: WriteReport, ghost landed: Id)
      requires Valid()
      modifies net`tick, net`stores
      ensures Valid()
      ensures out.Failed? ==> net.stores == old(net.stores)
      ensures !out.Failed? ==> out.Record? && landed in net.ring.nodes
                               && net.stores == AfterWrite(old(net.stores), landed, report, TaskKey(id), out.task)
      ensures out.Record? ==> UpdatesCopy(old(net.stores), TaskKey(id), patch, out.task)
      ensures id != "" && old(Settled(id)) && old(Shows(dict)) ==>
                out == DictUpdate(dict, id, patch).1 && Shows(DictUpdate(dict, id, patch).0)
      ensures id == "" ==> out == Failed(Invalid)
    {
      report, landed := WriteReport([], [], false), self;
      if id == "" {
        return Failed(Invalid), report, landed;
      }
      var primary := OwnerForKey(TaskKey(id));
      var existing, asked := GetTask(id, dict);
      if existing.None? {
        return Failed(NotFound), report, landed;
      }
      if existing.value.status == DELETED {
        return Failed(Invalid), report, landed;
      }
      var updated := UpdateTaskRecord(existing.value, patch);
      if updated.None? {
        return Failed(Invalid), report, landed;
      }
      var ok;
      ok, report, landed := WriteShown(id, updated.value, primary, dict);
      out := if ok then Record(updated.value) else Failed(Unavailable);
    }

    /** The nodes that a delete from tick t on reaches behind the primary: every one that answers all the
        time, and none that is silent. */
    ghost predicate ErasesFrom(primary: Id, t: nat, erased: seq<Id>)
      requires net.ring.WF() && erased != []
    {
      exists targets ::
        ReplicatedFrom(net.ring, net.answers, primary, repl.k, t, WriteReport(targets, erased[1..], false))
    }

    method EraseTask(key: string, primary: Id) returns (ok: bool, ghost erased: seq<Id>)
      requires Valid() && primary in net.ring.nodes
      modifies net`tick, net`stores
      ensures Valid() && ok == Reads(primary, old(net.tick))
      ensures !ok ==> net.stores == old(net.stores)
      ensures ok ==> erased != [] && erased[0] == primary && ErasesFrom(primary, old(net.tick), erased)
                     && net.stores == DeleteAll(old(net.stores), erased, key)
      ensures net.Reliable() ==> erased == ChainOf(net.ring, primary, repl.k)
    {
      ghost var start := net.tick;
      ok := DeleteOnNode(primary, key);
      erased := [primary];
      if ok {
        ghost var later := net.tick;
        var targets, deleted := repl.DeleteReplicas(key, primary);
        ghost var report := WriteReport(targets, deleted, false);
        erased := [primary] + deleted;
        assert erased[1..] == deleted;
        ReplicatedEarlier(net.ring, net.answers, primary, repl.k, later, report, start);
        DeleteBoth(old(net.stores), [primary], deleted, key);
      }
    }

    /** erased: the nodes that lost the task, the primary first. */
    method HardDelete(id: string, primary: Id, ghost dict: Dict) returns (ok: bool, ghost erased: seq<Id>)
      requires Valid() && primary in net.ring.nodes
      modifies net`tick, net`stores
      ensures Valid() && ok == Reads(primary, old(net.tick))
      ensures !ok ==> net.stores == old(net.stores)
      ensures ok ==> erased != [] && erased[0] == primary && ErasesFrom(primary, old(net.tick), erased)
                     && net.stores == DeleteAll(old(net.stores), erased, TaskKey(id))
      ensures net.Reliable() && old(Shows(dict)) && primary == Place(net.ring, hash, repl.k, id)[0]
              ==> Shows(dict - {id})
    {
      ok, erased := EraseTask(TaskKey(id), primary);
      if net.Reliable() && old(Shows(dict)) && primary == Place(net.ring, hash, repl.k, id)[0] {
        assert Place(net.ring, hash, repl.k, id) == [primary] + erased[1..];
        DeleteBoth(old(net.stores), [primary], erased[1..], TaskKey(id));
        DeleteRepresents(net.ring, hash, repl.k, old(net.stores), dict, primary, erased[1..], id);
      }
    }

    method DeregisterTask(id: string, hard: bool, ghost dict: Dict)
      returns (out: Outcome, report: WriteReport, ghost landed: Id, ghost erased: seq<Id>)
      requires Valid()
      modifies net`tick, net`stores
      ensures Valid()
      ensures out.Failed? ==> net.stores == old(net.stores)
      ensures out.Record? ==> !hard && landed in net.ring.nodes
                              && net.stores == AfterWrite(old(net.stores), landed, report, TaskKey(id), out.task)
      ensures out.Record? ==> ClosesCopy(old(net.stores), TaskKey(id), out.task)
      ensures out == Removed ==> hard && erased != [] && net.stores == DeleteAll(old(net.stores), erased, TaskKey(id))
      ensures id != "" && old(Settled(id)) && old(Shows(dict)) ==>
                out == DictDeregister(dict, id, hard).1 && Shows(DictDeregister(dict, id, hard).0)
      ensures id == "" ==> out == Failed(Invalid)
    {
      report, landed, erased := WriteReport([], [], false), self, [];
      if id == "" {
        return Failed(Invalid), report, landed, erased;
      }
      var primary := OwnerForKey(TaskKey(id));
      var existing, asked := GetTask(id, dict);
      if existing.None? {
        return Failed(NotFound), report, landed, erased;
      }
      var ok;
      if hard {
        ok, erased := HardDelete(id, primary, dict);
        return if ok then Removed else Failed(Unavailable), report, landed, erased;
      }
      var marked := MarkDeleted(existing.value);
      ok, report, landed := WriteShown(id, marked, primary, dict);
      out := if ok then Record(marked) else Failed(Unavailable);
    }

    /** One client request, as it arrives. */
    method Perform(request: Op, ghost dict: Dict) returns (out: Outcome)
      requires Valid()
      modifies net`tick, net`stores
      ensures Valid()
      ensures out.Failed? || request.Get? ==> net.stores == old(net.stores)
      ensures old(Settled(Trimmed(request).TaskId())) && old(Shows(dict)) ==>
                (var result := DictRequest(dict, Place(net.ring, hash, repl.k, Trimmed(request).TaskId()), repl.k,
                    request);
                 out == result.1 && Shows(result.0))
    {
      if Blank(request) {
        return Failed(Invalid);
      }
      out := PerformTrimmed(Trimmed(request), dict);
    }

    method PerformTrimmed(op: Op, ghost dict: Dict) returns (out: Outcome)
      requires Valid()
      modifies net`tick, net`stores
      ensures Valid()
      ensures out.Failed? || op.Get? ==> net.stores == old(net.stores)
      ensures old(Settled(op.TaskId())) && old(Shows(dict)) ==>
                (var result := DictOp(dict, Place(net.ring, hash, repl.k, op.TaskId()), repl.k, op);
                 out == result.1 && Shows(result.0))
    {
      var report;
      ghost var landed, erased, chain;
      match op {
        case Register(input, freshId) => out, report, landed, chain := RegisterTask(input, freshId, dict);
        case Update(id, patch) => out, report, landed := UpdateTask(id, patch, dict);
        case Deregister(id, hard) => out, report, landed, erased := DeregisterTask(id, hard, dict);
        case Get(id) =>
          if id == "" {
            out := Failed(Invalid);
          } else {
            var found, asked := GetTask(id, dict);
            out := if found.Some? then Record(found.value) else Missing;
          }
      }
    }
  }

  // Whole runs

  /** The dictionary and the answers after a sequence of operations. */
  ghost function DictRun(r: Ring, hash: string -> Id, k: nat, dict: Dict, ops: seq<Op>): (Dict, seq<Outcome>)
    requires r.WF() && k > 0 && forall s {:trigger hash(s)} :: hash(s) < r.Size()
  {
    if ops == [] then (dict, []) else
      var (before, outs) := DictRun(r, hash, k, dict, ops[..|ops| - 1]);
      var op := ops[|ops| - 1];
      var (after, out) := DictRequest(before, Place(r, hash, k, Trimmed(op).TaskId()), k, op);
      (after, outs + [out])
  }

  /** What a successful write keeps of a record: who it is and where it lives. */
  ghost predicate SameTask(a: TaskRecord, b: TaskRecord)
  {
    a.taskId == b.taskId && a.jobId == b.jobId && a.kind == b.kind
    && a.primary == b.primary && a.replicationFactor == b.replicationFactor && a.replicas == b.replicas
  }

  /** An operation touches one task only. Each update and soft deregister raises the version by
      one and keeps the identity; a registration starts the record anew, on its whole chain. */
  lemma DictOpMeaning(dict: Dict, chain: seq<Id>, k: nat, op: Op, x: string)
    requires |chain| > 0
    ensures var (after, out) := DictOp(dict, chain, k, op);
            var id := op.TaskId();
            && (out.Failed? || op.Get? ==> after == dict)
            && (x != id ==> (x in after <==> x in dict) && (x in dict ==> after[x] == dict[x]))
            && (out == Removed ==> id in dict && after.Keys == dict.Keys - {id})
            && (out.Record? ==> id in after && after[id] == out.task)
            && (out.Record? && op.Register? ==>
                  out.task.taskId == id && out.task.version == 2 && !out.task.deleted
                  && StoresInput(out.task, op.input) && [out.task.primary] + out.task.replicas == chain
                  && out.task.replicationFactor == (if k >= 1 then k else 1)
                  && (op.input.taskId != "" && id in dict ==> dict[id].status == DELETED))
            && (out.Record? && (op.Update? || op.Deregister?) ==>
                  id in dict && out.task.version == dict[id].version + 1 && SameTask(out.task, dict[id])
                  && (dict[id].deleted ==> out.task.deleted))
  {
    assert [chain[0]] + chain[1..] == chain;
    if op.Register? {
      CreateMeaning(op.input, chain[0], k, op.TaskId(), chain[1..]);
    }
  }

  /** The record u is r, closed by a soft delete. */
  ghost predicate IsClosed(u: TaskRecord, r: TaskRecord)
  {
    u.status == DELETED && u.deleted && u.version == r.version + 1 && SameTask(u, r)
    && u.payload == r.payload && u.priority == r.priority && u.result == r.result && u.error == r.error
  }

  /** When each operation succeeds, with what record, and which error it gives otherwise. */
  lemma DictOpOutcome(dict: Dict, chain: seq<Id>, k: nat, op: Op)
    requires |chain| > 0
    ensures var (after, out) := DictOp(dict, chain, k, op);
            var id := op.TaskId();
            if id == "" then out == Failed(Invalid) else
              match op
              case Register(input, _) =>
                if input.taskId != "" && id in dict && dict[id].status != DELETED then out == Failed(Conflict)
                else if InputRefused(input, id) then out == Failed(Invalid)
                else out.Record?
              case Get(_) => out == if id in dict then Record(dict[id]) else Missing
              case Update(_, patch) =>
                if id !in dict then out == Failed(NotFound)
                else if dict[id].status == DELETED || PatchRefused(patch) then out == Failed(Invalid)
                else out.Record? && IsPatched(out.task, dict[id], patch)
              case Deregister(_, hard) =>
                if id !in dict then out == Failed(NotFound)
                else if hard then out == Removed
                else out.Record? && IsClosed(out.task, dict[id])
  {
    match op
    case Register(input, _) => CreateMeaning(input, chain[0], k, op.TaskId(), chain[1..]);
    case Update(id, patch) =>
      if id in dict {
        UpdateMeaning(dict[id], patch);
      }
    case _ =>
  }

  /** A soft delete closes a task: it can be read as DELETED and is refused to updates, and its id
      can be registered again. */
  lemma SoftDeleteCloses(dict: Dict, chain: seq<Id>, k: nat, id: string, patch: Patch, input: TaskInput)
    requires |chain| > 0 && id != "" && id in dict && input.taskId == id
    ensures var after := DictOp(dict, chain, k, Deregister(id, false)).0;
            && DictOp(after, chain, k, Get(id)).1.Record? && DictOp(after, chain, k, Get(id)).1.task.status == DELETED
            && DictOp(after, chain, k, Update(id, patch)) == (after, Failed(Invalid))
            && DictOp(after, chain, k, Register(input, "")).1 != Failed(Conflict)
            && (dict[id].status != DELETED ==> DictOp(dict, chain, k, Register(input, "")) == (dict, Failed(Conflict)))
  {
    var after := DictOp(dict, chain, k, Deregister(id, false)).0;
    assert after[id] == MarkDeleted(dict[id]);
  }

  predicate AsAsked(task: TaskRecord, input: TaskInput, freshId: string)
  {
    task.taskId != "" && task.taskId == (if input.taskId == "" then freshId else Trim(input.taskId))
    && task.jobId != "" && input.jobId.Some? && task.jobId == Trim(input.jobId.value)
    && task.kind != "" && input.kind.Some? && task.kind == Trim(input.kind.value)
    && input.payload == Some(task.payload) && input.priority == task.priority && input.status == Known(task.status)
    && input.result == task.result && input.error == task.error
  }

  /** A registration stores what was asked for, stripped of white space; a blank id, job id or kind is
      refused like a missing one. */
  lemma RegisterRequest(dict: Dict, chain: seq<Id>, k: nat, input: TaskInput, freshId: string)
    requires |chain| > 0
    ensures var (after, out) := DictRequest(dict, chain, k, Register(input, freshId));
            && (out.Record? ==> AsAsked(out.task, input, freshId) && after == dict[out.task.taskId := out.task])
            && (!out.Record? ==> after == dict && (out == Failed(Invalid) || out == Failed(Conflict)))
            && (input.taskId != "" && Trim(input.taskId) == "" ==> out == Failed(Invalid))
  {
    var op := Register(input, freshId);
    if !Blank(op) {
      CreateMeaning(Trimmed(op).input, chain[0], k, Trimmed(op).TaskId(), chain[1..]);
    }
  }

  lemma DictRunStep(r: Ring, hash: string -> Id, k: nat, dict: Dict, ops: seq<Op>, i: nat)
    requires r.WF() && k > 0 && i < |ops| && forall s {:trigger hash(s)} :: hash(s) < r.Size()
    ensures var (before, outs) := DictRun(r, hash, k, dict, ops[..i]);
            var (after, out) := DictRequest(before, Place(r, hash, k, Trimmed(ops[i]).TaskId()), k, ops[i]);
            DictRun(r, hash, k, dict, ops[..i + 1]) == (after, outs + [out])
  {
    assert ops[..i + 1][..i] == ops[..i];
  }

  /** Store refinement: clients that issue operations at any entry nodes of a settled ring, one
      after the other, get the answers one dictionary would give. */
  method RunAll(services: seq<TaskService>, ops: seq<Op>, ghost dict: Dict,
                ghost net: Network<TaskRecord>, ghost hash: string -> Id, ghost k: nat)
    returns (outs: seq<Outcome>)
    requires |services| == |ops| && net.Valid() && k > 0 && forall s {:trigger hash(s)} :: hash(s) < net.ring.Size()
    requires forall i {:trigger services[i]} ::
               0 <= i < |services| ==> services[i].On(net, hash, k) && services[i].Settled(Trimmed(ops[i]).TaskId())
    requires Represents(net.ring, hash, k, net.stores, dict)
    modifies net`tick, net`stores
    ensures net.Valid() && outs == DictRun(net.ring, hash, k, dict, ops).1
    ensures Represents(net.ring, hash, k, net.stores, DictRun(net.ring, hash, k, dict, ops).0)
  {
    outs := [];
    ghost var now := dict;
    for i := 0 to |ops|
      invariant net.Valid() && (now, outs) == DictRun(net.ring, hash, k, dict, ops[..i])
      invariant Represents(net.ring, hash, k, net.stores, now)
    {
      var service := services[i];
      assert service.Settled(Trimmed(ops[i]).TaskId());
      DictRunStep(net.ring, hash, k, dict, ops, i);
      var out := service.Perform(ops[i], now);
      now := DictRequest(now, Place(net.ring, hash, k, Trimmed(ops[i]).TaskId()), k, ops[i]).0;
      outs := outs + [out];
    }
    assert ops[..|ops|] == ops;
  }
}

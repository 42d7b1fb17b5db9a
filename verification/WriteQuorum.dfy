/** When a COMPLETE write is not backed by a quorum of copies (storage/task_service.py, lines 44-76;
    storage/replication.py, lines 14-16 and 85-124). */
module WriteQuorum {
  import opened RingMath
  import opened Lookup
  import opened Networks
  import opened Replication
  import opened Chains
  import opened Schema
  import opened TaskStore
  import opened Wrappers

  /** A walk that is cut short only at nodes outside a prefix of the full chain covers that prefix. */
  lemma ReachesFirst(r: Ring, p: Id, k: nat, first: seq<Id>, chain: seq<Id>)
    requires r.WF() && p in r.nodes && k > 0 && IsChain(r, p, k, chain)
    requires first != [] && first <= ChainOf(r, p, k)
    requires Complete(r, k, chain) || chain[|chain| - 1] !in first
    ensures first <= chain
  {
    var full := ChainOf(r, p, k);
    var n := if |chain| < |first| then |chain| else |first|;
    ChainsAgree(r, p, k, chain, full, n - 1);
    assert chain[..n] == full[..n] == first[..n];
    assert chain[n - 1] == chain[..n][n - 1] == first[..n][n - 1] == first[n - 1];
    assert Complete(r, k, chain) ==> chain == full;
    assert first == first[..|first|];
  }

  /** From tick t on the nodes of first answer every call, and the others none. */
  ghost predicate OnlyAnswering(answers: (nat, Id) -> bool, first: seq<Id>, t: nat)
  {
    forall n :: if n in first then Speaks(answers, n, t) else Silent(answers, n, t)
  }

  lemma DistinctTail(p: Id, s: seq<Id>)
    requires Distinct([p] + s)
    ensures Distinct(s)
  {
    assert forall i :: 0 <= i < |s| ==> ([p] + s)[i + 1] == s[i];
  }

  lemma OneFewer(first: seq<Id>, rest: seq<Id>)
    requires Distinct(first) && first != [] && Distinct(rest)
    requires forall n :: n in rest <==> n in first && n != first[0]
    ensures |rest| == |first| - 1
  {
    DistinctCount(rest);
    DistinctCount(first);
    assert Elements(rest) == Elements(first) - {first[0]};
  }

  /** If only a prefix of the full chain answers from tick t on, and all of it does, the replica
      write reaches that prefix but for the primary, and nobody else. */
  lemma ReachesSpeakers(r: Ring, answers: (nat, Id) -> bool, p: Id, k: nat, t: nat, report: WriteReport,
                        first: seq<Id>)
    requires r.WF() && p in r.nodes && k > 0 && ReplicatedFrom(r, answers, p, k, t, report)
    requires Distinct([p] + report.written) && forall n :: n in report.written ==> n in report.targets
    requires first != [] && first <= ChainOf(r, p, k)
    requires OnlyAnswering(answers, first, t)
    ensures forall n :: n in report.written <==> n in first && n != p
    ensures Distinct(report.written) && |report.written| == |first| - 1 && first <= [p] + report.targets
  {
    var chain := [p] + report.targets;
    ReachesFirst(r, p, k, first, chain);
    ChainTail(r, p, k, chain);
    assert chain[1..] == report.targets;
    forall n ensures n in report.written <==> n in first && n != p {
      assert n in chain <==> n == p || n in report.targets;
    }
    DistinctTail(p, report.written);
    OneFewer(first, report.written);
  }

  /** A write that landed on one of the replicas has no more copies than there are replicas. */
  lemma CopiesAreReplicas(stores: map<Id, map<string, TaskRecord>>, landed: Id, report: WriteReport, key: string,
                          v: TaskRecord)
    requires landed in stores && landed in report.written && forall n :: n in report.written ==> n in stores
    requires Distinct(report.written) && forall n :: n in stores ==> stores[n] == map[]
    ensures |Holders(AfterWrite(stores, landed, report, key, v), key, v)| == |report.written|
  {
    assert Holders(stores, key, v) == {};
    WrittenHold(stores, landed, report, key, v);
    DistinctCount(report.written);
    assert {landed} + Elements(report.written) == Elements(report.written);
  }

  /** So if the primary write landed on another node of that prefix, the prefix has one node more than
      the task has copies. */
  lemma FewCopies(r: Ring, answers: (nat, Id) -> bool, p: Id, elsewhere: Id, k: nat, t: nat, report: WriteReport,
                  first: seq<Id>, stores: map<Id, map<string, TaskRecord>>, key: string, v: TaskRecord)
    requires r.WF() && p in r.nodes && k > 0 && ReplicatedFrom(r, answers, p, k, t, report)
    requires Distinct([p] + report.written) && forall n :: n in report.written ==> n in report.targets
    requires elsewhere in first && elsewhere != p && first <= ChainOf(r, p, k) && OnlyAnswering(answers, first, t)
    requires stores.Keys == r.nodes.Keys && forall n :: n in stores ==> stores[n] == map[]
    ensures 1 + |report.written| == |first| && first <= [p] + report.targets
    ensures |Holders(AfterWrite(stores, elsewhere, report, key, v), key, v)| == |first| - 1
  {
    ReachesSpeakers(r, answers, p, k, t, report, first);
    ChainTail(r, p, k, [p] + report.targets);
    assert forall n :: n in report.targets ==> n in ([p] + report.targets)[1..];
    CopiesAreReplicas(stores, elsewhere, report, key, v);
  }

  /** The primary misses the calls of ticks 1 and 2. */
  function LateAnswers(first: seq<Id>): (nat, Id) -> bool {
    (t: nat, n: Id) => t > 2 && n in first
  }

  /** The first lookup names the primary, the others name elsewhere. */
  function MovingRoute(primary: Id, elsewhere: Id): (nat, Id, Id) -> Id {
    (t: nat, n: Id, key: Id) => if t == 0 then primary else elsewhere
  }

  lemma LandsElsewhere(r: Ring, self: Id, primary: Id, elsewhere: Id, k: nat, first: seq<Id>, h: Id, chain: seq<Id>)
    requires r.WF() && Walk(r, LateAnswers(first), primary, k, 1, chain) && elsewhere in first
    ensures |chain| == 1 && OnlyAnswering(LateAnswers(first), first, 3)
    ensures Landing(LateAnswers(first), MovingRoute(primary, elsewhere), self, h, primary, 2, PRIMARY_WRITE_RETRIES)
            == Some(elsewhere)
  {
    assert !LateAnswers(first)(1 + 0, chain[0]);
  }

  /** For every k >= 3 and every ring whose chain from the primary has ceil(k/2) nodes or more: register
      a task at another node, and let the lookup name the primary, the primary miss its first two calls,
      the lookup after the failed write name some node elsewhere among the first ceil(k/2) of the chain,
      and these nodes answer every later call, the others none. Then the write is reported COMPLETE but
      has fewer than ceil(k/2) copies. So without the three conditions in the contract of WriteTask the
      report promises nothing. */
  method MissedQuorum(r: Ring, self: Id, primary: Id, elsewhere: Id, k: nat, first: seq<Id>, hash: string -> Id,
                      input: TaskInput, id: string)
    returns (out: Outcome, report: WriteReport, stores: map<Id, map<string, TaskRecord>>)
    requires r.WF() && self in r.nodes && primary in r.nodes && self != primary && k >= 3
    requires first <= ChainOf(r, primary, k) && |first| == Quorum(k) && elsewhere in first && elsewhere != primary
    requires forall s {:trigger hash(s)} :: hash(s) < r.Size()
    requires input.taskId == "" && CreateTaskRecord(input, primary, k, id).Some?
    ensures out.Record? && out.task.primary == primary
    ensures report.complete && report.complete == (1 + |report.written| >= Quorum(k))
    ensures IsChain(r, primary, k, [primary] + report.targets) && first <= [primary] + report.targets
    ensures stores.Keys == r.nodes.Keys && |Holders(stores, TaskKey(id), out.task)| < Quorum(k)
  {
    var net := new Network(r, LateAnswers(first), MovingRoute(primary, elsewhere));
    var service := new TaskService(self, net, k, hash);
    ghost var empty := net.stores;
    ghost var landed, chain;
    out, report, landed, chain := service.RegisterTask(input, id, map[]);
    LandsElsewhere(r, self, primary, elsewhere, k, first, hash(TaskKey(id)), chain);
    assert out.Record? && landed == elsewhere;
    stores := net.stores;
    FewCopies(r, LateAnswers(first), primary, elsewhere, k, 3, report, first, empty, TaskKey(id), out.task);
  }
}

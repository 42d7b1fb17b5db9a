/** ReplicationManager: the successor chain, replica writes, deletes and reads, and the quorum
    (storage/replication.py). */
module Replication {
  import opened RingMath
  import opened Lookup
  import opened Networks
  import opened Wrappers

  const REPLICA_RETRIES := 2

  /** ceil(k / 2) */
  function Quorum(k: nat): nat {
    (k + 1) / 2
  }

  /** It is half of k, rounded up. */
  lemma QuorumIsHalf(k: nat)
    ensures k <= 2 * Quorum(k) <= k + 1
  {
  }

  /** A replica call gets an answer at the first, second or third attempt. */
  predicate AnswersInThree(answers: (nat, Id) -> bool, n: Id, t: nat) {
    answers(t, n) || answers(t + 1, n) || answers(t + 2, n)
  }

  ghost predicate Distinct(s: seq<Id>)
  {
    forall i, j :: 0 <= i < j < |s| ==> s[i] != s[j]
  }

  /** A duplicate-free walk along successor pointers, of at most target nodes, starting at p. */
  ghost predicate IsChain(r: Ring, p: Id, target: nat, chain: seq<Id>)
    requires r.WF()
  {
    0 < |chain| <= target && chain[0] == p && Distinct(chain)
    && (forall i :: 0 <= i < |chain| ==> chain[i] in r.nodes)
    && (forall i {:trigger chain[i + 1]} :: 0 <= i < |chain| - 1 ==> chain[i + 1] == r.Succ(chain[i]))
  }

  /** The walk did not stop early: it is full, or came back to a node it has visited. */
  ghost predicate Complete(r: Ring, target: nat, chain: seq<Id>)
    requires r.WF() && |chain| > 0 && forall i :: 0 <= i < |chain| ==> chain[i] in r.nodes
  {
    |chain| == target || r.Succ(chain[|chain| - 1]) in chain
  }

  lemma ChainTail(r: Ring, p: Id, target: nat, chain: seq<Id>)
    requires r.WF() && IsChain(r, p, target, chain)
    ensures chain == [p] + chain[1..] && Distinct(chain[1..]) && p !in chain[1..]
    ensures forall i :: 0 <= i < |chain| - 1 ==> chain[1..][i] in r.nodes
  {
    var tail := chain[1..];
    assert forall i :: 0 <= i < |tail| ==> tail[i] == chain[i + 1];
  }

  lemma ExtendChain(r: Ring, p: Id, k: nat, chain: seq<Id>, x: Id)
    requires r.WF() && x in r.nodes && x !in chain && |chain| < k
    requires if chain == [] then x == p else IsChain(r, p, k, chain) && x == r.Succ(chain[|chain| - 1])
    ensures IsChain(r, p, k, chain + [x])
  {
  }

  /** The walk that asks one node a tick from tick t on; it stops early only where it gets no answer. */
  ghost predicate Walk(r: Ring, answers: (nat, Id) -> bool, p: Id, k: nat, t: nat, chain: seq<Id>)
    requires r.WF()
  {
    IsChain(r, p, k, chain)
    && (forall i :: 0 <= i < |chain| - 1 ==> answers(t + i, chain[i]))
    && (Complete(r, k, chain) || !answers(t + |chain| - 1, chain[|chain| - 1]))
  }

  /** What a replica write or delete that begins at tick t or later reports: its walk stops early only at a node
      that does not answer all the time, and it reaches every replica that does, and none that is
      silent. */
  ghost predicate ReplicatedFrom(r: Ring, answers: (nat, Id) -> bool, p: Id, k: nat, t: nat, report: WriteReport)
    requires r.WF()
  {
    var chain := [p] + report.targets;
    IsChain(r, p, k, chain) && (Complete(r, k, chain) || !Speaks(answers, chain[|chain| - 1], t))
    && forall n {:trigger n in report.targets} :: n in report.targets ==>
         (Speaks(answers, n, t) ==> n in report.written) && (Silent(answers, n, t) ==> n !in report.written)
  }

  lemma ReplicatedEarlier(r: Ring, answers: (nat, Id) -> bool, p: Id, k: nat, t: nat, report: WriteReport, s: nat)
    requires r.WF() && ReplicatedFrom(r, answers, p, k, t, report) && s <= t
    ensures ReplicatedFrom(r, answers, p, k, s, report)
  {
  }

  datatype WriteReport = WriteReport(targets: seq<Id>, written: seq<Id>, complete: bool)

  class ReplicationManager<V> {
    const net: Network<V>
    const k: nat

    ghost predicate Valid()
      reads this, net
    {
      net.Valid() && k >= 1
    }

    constructor (net: Network<V>, replicationK: nat)
      requires net.Valid()
      ensures Valid() && this.net == net && k == if replicationK >= 1 then replicationK else 1
    {
      this.net := net;
      this.k := if replicationK >= 1 then replicationK else 1;
    }

    method GetSuccessorChain(primary: Id) returns (chain: seq<Id>)
      requires Valid() && primary in net.ring.nodes
      modifies net`tick
      ensures Valid() && net.tick == old(net.tick) + |chain| && IsChain(net.ring, primary, k, chain)
      ensures Walk(net.ring, net.answers, primary, k, old(net.tick), chain)
      ensures net.AnswersFrom(old(net.tick)) ==> Complete(net.ring, k, chain)
    {
      chain := [];
      var visited := {};
      var current := primary;
      while |chain| < k
        invariant Valid() && net.tick == old(net.tick) + |chain| && current in net.ring.nodes
        invariant forall i :: 0 <= i < |chain| ==> net.answers(old(net.tick) + i, chain[i])
        invariant |chain| <= k && forall x :: x in visited <==> x in chain
        invariant if chain == [] then current == primary
                  else IsChain(net.ring, primary, k, chain) && current == net.ring.Succ(chain[|chain| - 1])
        decreases k - |chain|
      {
        if current in visited {
          break;
        }
        ExtendChain(net.ring, primary, k, chain, current);
        visited := visited + {current};
        chain := chain + [current];
        var succ := net.SuccessorOf(current);
        if succ.None? || succ.value == current {
          break;
        }
        current := succ.value;
      }
    }

    method PutWithRetry(replica: Id, key: string, v: V) returns (ok: bool)
      requires Valid() && replica in net.ring.nodes
      modifies net`tick, net`stores
      ensures Valid() && net.tick >= old(net.tick)
      ensures net.stores == if ok then WriteAll(old(net.stores), [replica], key, v) else old(net.stores)
      ensures ok == AnswersInThree(net.answers, replica, old(net.tick))
      ensures Speaks(net.answers, replica, old(net.tick)) ==> ok
      ensures Silent(net.answers, replica, old(net.tick)) ==> !ok
    {
      ok := false;
      for attempt := 0 to REPLICA_RETRIES + 1
        invariant Valid() && net.tick >= old(net.tick) && net.stores == old(net.stores) && !ok
        invariant net.tick == old(net.tick) + attempt
        invariant forall u: nat :: old(net.tick) <= u < net.tick ==> !net.answers(u, replica)
      {
        ok := net.Put(replica, key, v);
        if ok {
          assert net.stores == WriteAll(old(net.stores), [replica], key, v);
          return;
        }
      }
    }

    method DeleteWithRetry(replica: Id, key: string) returns (ok: bool)
      requires Valid() && replica in net.ring.nodes
      modifies net`tick, net`stores
      ensures Valid() && net.tick >= old(net.tick)
      ensures net.stores == if ok then DeleteAll(old(net.stores), [replica], key) else old(net.stores)
      ensures ok == AnswersInThree(net.answers, replica, old(net.tick))
      ensures net.AnswersFrom(old(net.tick)) ==> ok
    {
      ok := false;
      for attempt := 0 to REPLICA_RETRIES + 1
        invariant Valid() && net.tick >= old(net.tick) && net.stores == old(net.stores)
        invariant net.tick == old(net.tick) + attempt
        invariant forall u: nat :: old(net.tick) <= u < net.tick ==> !net.answers(u, replica)
      {
        ok := net.Delete(replica, key);
        if ok {
          assert net.stores == DeleteAll(old(net.stores), [replica], key);
          return;
        }
      }
    }

    /** The replicas that took the record. */
    method WriteReplicas(targets: seq<Id>, key: string, v: V) returns (written: seq<Id>)
      requires Valid() && Distinct(targets) && forall i :: 0 <= i < |targets| ==> targets[i] in net.ring.nodes
      modifies net`tick, net`stores
      ensures Valid() && net.tick >= old(net.tick)
      ensures net.stores == WriteAll(old(net.stores), written, key, v)
      ensures Distinct(written) && forall n :: n in written ==> n in targets
      ensures forall n {:trigger n in targets} :: n in targets ==>
                (Speaks(net.answers, n, old(net.tick)) ==> n in written)
                && (Silent(net.answers, n, old(net.tick)) ==> n !in written)
      ensures net.AnswersFrom(old(net.tick)) ==> written == targets
    {
      written := [];
      assert net.stores == WriteAll(old(net.stores), written, key, v);
      for i := 0 to |targets|
        invariant Valid() && net.tick >= old(net.tick)
        invariant net.stores == WriteAll(old(net.stores), written, key, v)
        invariant Distinct(written) && forall n :: n in written ==> n in targets[..i]
        invariant forall n {:trigger n in targets[..i]} :: n in targets[..i] ==>
                    (Speaks(net.answers, n, old(net.tick)) ==> n in written)
                    && (Silent(net.answers, n, old(net.tick)) ==> n !in written)
        invariant net.AnswersFrom(old(net.tick)) ==> written == targets[..i]
      {
        assert net.AnswersFrom(old(net.tick)) ==> Speaks(net.answers, targets[i], net.tick);
        assert targets[i] !in targets[..i];
        var ok := PutWithRetry(targets[i], key, v);
        if ok {
          WriteOneMore(old(net.stores), written, targets[i], key, v);
          written := written + [targets[i]];
        }
        assert targets[..i + 1] == targets[..i] + [targets[i]];
      }
      assert targets[..|targets|] == targets;
    }

    /** Writes the record to the chain behind the primary. COMPLETE counts the primary as written. */
    method ReplicateWrite(key: string, v: V, primary: Id) returns (report: WriteReport)
      requires Valid() && primary in net.ring.nodes
      modifies net`tick, net`stores
      ensures Valid() && net.tick >= old(net.tick) && IsChain(net.ring, primary, k, [primary] + report.targets)
      ensures net.stores == WriteAll(old(net.stores), report.written, key, v)
      ensures Distinct(report.written) && forall n :: n in report.written ==> n in report.targets && n in net.ring.nodes
      ensures report.complete == (1 + |report.written| >= Quorum(k))
      ensures ReplicatedFrom(net.ring, net.answers, primary, k, old(net.tick), report)
      ensures net.AnswersFrom(old(net.tick)) ==>
                Complete(net.ring, k, [primary] + report.targets) && report.written == report.targets
    {
      var chain := GetSuccessorChain(primary);
      ChainTail(net.ring, primary, k, chain);
      var written := WriteReplicas(chain[1..], key, v);
      report := WriteReport(chain[1..], written, 1 + |written| >= Quorum(k));
    }

    /** The nodes that lost the record. */
    method EraseReplicas(targets: seq<Id>, key: string) returns (deleted: seq<Id>)
      requires Valid() && Distinct(targets) && forall i :: 0 <= i < |targets| ==> targets[i] in net.ring.nodes
      modifies net`tick, net`stores
      ensures Valid() && net.tick >= old(net.tick)
      ensures net.stores == DeleteAll(old(net.stores), deleted, key)
      ensures Distinct(deleted) && forall n :: n in deleted ==> n in targets
      ensures forall n {:trigger n in targets} :: n in targets ==>
                (Speaks(net.answers, n, old(net.tick)) ==> n in deleted)
                && (Silent(net.answers, n, old(net.tick)) ==> n !in deleted)
      ensures net.AnswersFrom(old(net.tick)) ==> deleted == targets
    {
      deleted := [];
      assert net.stores == DeleteAll(old(net.stores), deleted, key);
      for i := 0 to |targets|
        invariant Valid() && net.tick >= old(net.tick)
        invariant net.stores == DeleteAll(old(net.stores), deleted, key)
        invariant Distinct(deleted) && forall n :: n in deleted ==> n in targets[..i]
        invariant forall n {:trigger n in targets[..i]} :: n in targets[..i] ==>
                    (Speaks(net.answers, n, old(net.tick)) ==> n in deleted)
                    && (Silent(net.answers, n, old(net.tick)) ==> n !in deleted)
        invariant net.AnswersFrom(old(net.tick)) ==> deleted == targets[..i]
      {
        assert targets[i] !in targets[..i];
        var ok := DeleteWithRetry(targets[i], key);
        if ok {
          DeleteOneMore(old(net.stores), deleted, targets[i], key);
          deleted := deleted + [targets[i]];
        }
        assert targets[..i + 1] == targets[..i] + [targets[i]];
      }
      assert targets[..|targets|] == targets;
    }

    method DeleteReplicas(key: string, primary: Id) returns (targets: seq<Id>, deleted: seq<Id>)
      requires Valid() && primary in net.ring.nodes
      modifies net`tick, net`stores
      ensures Valid() && net.tick >= old(net.tick) && IsChain(net.ring, primary, k, [primary] + targets)
      ensures net.stores == DeleteAll(old(net.stores), deleted, key)
      ensures Distinct(deleted) && forall n :: n in deleted ==> n in targets
      ensures ReplicatedFrom(net.ring, net.answers, primary, k, old(net.tick), WriteReport(targets, deleted, false))
      ensures net.AnswersFrom(old(net.tick)) ==> Complete(net.ring, k, [primary] + targets) && deleted == targets
    {
      var chain := GetSuccessorChain(primary);
      ChainTail(net.ring, primary, k, chain);
      targets := chain[1..];
      deleted := EraseReplicas(targets, key);
    }

    /** Asks the nodes in order until one answers with a copy. */
    method AskInOrder(ns: seq<Id>, key: string) returns (v: Option<V>)
      requires Valid() && forall i :: 0 <= i < |ns| ==> ns[i] in net.ring.nodes
      modifies net`tick
      ensures Valid() && net.tick >= old(net.tick)
      ensures v == FirstAnswered(net.answers, net.stores, ns, key, old(net.tick))
    {
      for i := 0 to |ns|
        invariant Valid() && net.tick == old(net.tick) + i
        invariant FirstAnswered(net.answers, net.stores, ns, key, old(net.tick))
                  == FirstAnswered(net.answers, net.stores, ns[i..], key, net.tick)
      {
        var ok, value := net.Get(ns[i], key);
        if value.Some? {
          return value;
        }
        assert ns[i..][1..] == ns[i + 1..];
      }
      v := None;
    }

    /** The copy of the first replica that answers with one, silent replicas before it or not, and
        nothing only if no replica does. start is the tick of the first question, and at the position of
        the replica that is read. */
    method ReadFromReplicas(key: string, primary: Id)
      returns (v: Option<V>, ghost targets: seq<Id>, ghost start: nat, ghost at: nat)
      requires Valid() && primary in net.ring.nodes
      modifies net`tick
      ensures Valid() && net.tick >= start && start == old(net.tick) + 1 + |targets|
      ensures Walk(net.ring, net.answers, primary, k, old(net.tick), [primary] + targets)
      ensures v == FirstAnswered(net.answers, net.stores, targets, key, start)
      ensures at <= |targets| && forall j: nat :: j < at ==> !HasAnswer(net.answers, net.stores, targets, key, start, j)
      ensures if at == |targets| then v == None
              else HasAnswer(net.answers, net.stores, targets, key, start, at)
                   && v == Some(net.stores[targets[at]][key])
      ensures v.Some? ==>
                exists n :: n in targets && n in net.stores && key in net.stores[n] && net.stores[n][key] == v.value
      ensures net.AnswersFrom(old(net.tick)) ==>
                Complete(net.ring, k, [primary] + targets) && v == FirstCopy(net.stores, targets, key)
    {
      var chain := GetSuccessorChain(primary);
      targets, start := chain[1..], net.tick;
      ChainTail(net.ring, primary, k, chain);
      v := AskInOrder(chain[1..], key);
      at := FirstAnsweredAt(net.answers, net.stores, targets, key, start);
      if net.AnswersFrom(start) {
        AnsweredIsFirst(net.answers, net.stores, targets, key, start);
      }
    }
  }
}

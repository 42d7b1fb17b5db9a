/** Concurrent updates of one worker's assignment record on its primary, under the per-key lock
    (storage/worker_assignment.py, lines 35-45, 63-82, 129-202 and 254-276). */
module LockedQueue {
  import opened Recovery
  import opened Wrappers

  datatype Op = AppendTask(t: TaskId) | RemoveTask(t: TaskId) | DeleteAll

  /** The stored record, without its time stamps. */
  datatype Record = Record(tasks: seq<TaskId>, version: nat)

  /** changed: the appended or removed flag; for a delete, whether there was a record. */
  datatype Reply = Reply(changed: bool, tasks: seq<TaskId>)

  /** A call is on its way to the lock, holds it, has read the record, is about to release the
      lock, or has returned. */
  datatype Phase =
    | Waiting
    | Locked
    | HaveRead(current: Option<Record>)
    | Releasing(reply: Reply)
    | Returned(reply: Reply)

  /** turn: how many calls had got the lock before this one. */
  datatype Call = Call(op: Op, phase: Phase, turn: nat)

  datatype Entry = Entry(id: nat, op: Op)

  /** record: what the primary stores. log: the calls that got the lock, in that order. */
  datatype State = State(record: Option<Record>, holder: Option<nat>, calls: map<nat, Call>, log: seq<Entry>)

  const START := State(None, None, map[], [])

  function Tasks(record: Option<Record>): seq<TaskId> {
    if record.Some? then record.value.tasks else []
  }

  // What the operations do one at a time

  /** _bump, or _new_record when there is none. */
  function Bump(record: Option<Record>, tasks: seq<TaskId>): Record {
    Record(tasks, if record.Some? then record.value.version + 1 else 1)
  }

  /** Whether the operation changes the record. */
  predicate Effective(record: Option<Record>, op: Op)
  {
    match op
    case AppendTask(t) => t !in Tasks(record)
    case RemoveTask(t) => t in Tasks(record)
    case DeleteAll => record.Some?
  }

  function Apply(record: Option<Record>, op: Op): Option<Record>
  {
    if !Effective(record, op) then record
    else
      match op
      case AppendTask(t) => Some(Bump(record, Tasks(record) + [t]))
      case RemoveTask(t) => Some(Bump(record, Without(Tasks(record), t)))
      case DeleteAll => None
  }

  function ReplyOf(record: Option<Record>, op: Op): Reply {
    Reply(Effective(record, op), Tasks(Apply(record, op)))
  }

  /** What a caller is told, by the list before and after the call: an append reports that it appended
      exactly if the task was not there, and answers with a list that has it; a removal that it removed
      exactly if it was, and answers with one that has not; a delete whether there was a record. Other
      tasks stay. */
  predicate Tells(before: seq<TaskId>, existed: bool, op: Op, reply: Reply)
  {
    match op
    case AppendTask(t) =>
      (reply.changed <==> t !in before) && reply.tasks == if t in before then before else before + [t]
    case RemoveTask(t) =>
      (reply.changed <==> t in before) && t !in reply.tasks
      && (!reply.changed ==> reply.tasks == before) && |reply.tasks| <= |before|
      && (forall x :: x in before && x != t ==> x in reply.tasks) && (forall x :: x in reply.tasks ==> x in before)
    case DeleteAll => (reply.changed <==> existed) && reply.tasks == []
  }

  lemma ReplyMeaning(record: Option<Record>, op: Op)
    ensures Tells(Tasks(record), record.Some?, op, ReplyOf(record, op))
    ensures ReplyOf(record, op).tasks == Tasks(Apply(record, op))
  {
  }

  /** The operations of a log, one after the other. */
  ghost function Replay(log: seq<Entry>): Option<Record>
  {
    if log == [] then None else Apply(Replay(log[..|log| - 1]), log[|log| - 1].op)
  }

  // Steps of concurrent calls

  datatype Action = Begin(id: nat, op: Op) | Acquire(id: nat) | Read(id: nat) | Write(id: nat) | Release(id: nat)

  predicate Enabled(s: State, a: Action)
  {
    match a
    case Begin(id, _) => id !in s.calls
    case Acquire(id) => id in s.calls && s.calls[id].phase.Waiting? && s.holder.None?
    case Read(id) => id in s.calls && s.calls[id].phase.Locked?
    case Write(id) => id in s.calls && s.calls[id].phase.HaveRead?
    case Release(id) => id in s.calls && s.calls[id].phase.Releasing?
  }

  function InPhase(s: State, id: nat, phase: Phase): State
    requires id in s.calls
  {
    s.(calls := s.calls[id := s.calls[id].(phase := phase)])
  }

  /** A write stores what the call computes from the record it read, not from the one stored. */
  function Do(s: State, a: Action): State
    requires Enabled(s, a)
  {
    match a
    case Begin(id, op) => s.(calls := s.calls[id := Call(op, Waiting, 0)])
    case Acquire(id) =>
      var c := s.calls[id];
      s.(holder := Some(id), calls := s.calls[id := c.(phase := Locked, turn := |s.log|)], log := s.log
          + [Entry(id, c.op)])
    case Read(id) => InPhase(s, id, HaveRead(s.record))
    case Write(id) =>
      var c := s.calls[id];
      var seen := c.phase.current;
      InPhase(if Effective(seen, c.op) then s.(record := Apply(seen, c.op)) else s, id, Releasing(ReplyOf(seen, c.op)))
    case Release(id) => InPhase(s, id, Returned(s.calls[id].phase.reply)).(holder := None)
  }

  ghost predicate Legal(s: State, acts: seq<Action>)
    decreases |acts|
  {
    acts == [] || (Enabled(s, acts[0]) && Legal(Do(s, acts[0]), acts[1..]))
  }

  ghost function Exec(s: State, acts: seq<Action>): State
    requires Legal(s, acts)
    decreases |acts|
  {
    if acts == [] then s else Exec(Do(s, acts[0]), acts[1..])
  }

  // Invariant

  /** The record as the call found it. */
  ghost function Before(s: State, id: nat): Option<Record>
    requires id in s.calls && s.calls[id].turn <= |s.log|
  {
    Replay(s.log[..s.calls[id].turn])
  }

  ghost predicate CallInv(s: State, id: nat)
    requires id in s.calls
  {
    var c := s.calls[id];
    if c.phase.Waiting? then s.holder != Some(id)
    else
      c.turn < |s.log| && s.log[c.turn] == Entry(id, c.op)
      && match c.phase
         case Returned(reply) => s.holder != Some(id) && reply == ReplyOf(Before(s, id), c.op)
         case _ =>
           s.holder == Some(id) && c.turn == |s.log| - 1
           && match c.phase
              case HaveRead(current) => current == s.record == Before(s, id)
              case Releasing(reply) => reply == ReplyOf(Before(s, id), c.op) && s.record == Replay(s.log)
              case _ => s.record == Before(s, id)
  }

  ghost predicate Inv(s: State)
  {
    (forall id {:trigger CallInv(s, id)} :: id in s.calls ==> CallInv(s, id))
    && (s.holder.Some? ==> s.holder.value in s.calls)
    && (s.holder.None? ==> s.record == Replay(s.log))
  }

  lemma StepKeepsInv(s: State, a: Action)
    requires Inv(s) && Enabled(s, a)
    ensures Inv(Do(s, a))
  {
    var n, id := Do(s, a), a.id;
    assert id in s.calls ==> CallInv(s, id);
    if a.Acquire? {
      assert n.log[..|s.log|] == s.log;
    }
    if a.Write? {
      assert s.log[..|s.log| - 1] == s.log[..s.calls[id].turn];
    }
    forall x | x in n.calls ensures CallInv(n, x) {
      if x != id {
        assert CallInv(s, x);
        if !n.calls[x].phase.Waiting? {
          assert n.log[..n.calls[x].turn] == s.log[..s.calls[x].turn];
        }
      }
    }
  }

  lemma {:induction false} RunKeepsInv(s: State, acts: seq<Action>)
    requires Inv(s) && Legal(s, acts)
    ensures Inv(Exec(s, acts))
    decreases |acts|
  {
    if acts != [] {
      StepKeepsInv(s, acts[0]);
      RunKeepsInv(Do(s, acts[0]), acts[1..]);
    }
  }

  // Main results

  /** Under any interleaving: whenever the lock is free, the stored record is the replay of all
      calls in the order in which they got the lock, and every call that returned got the reply
      it gets in that replay. */
  lemma Linearizable(acts: seq<Action>, id: nat)
    requires Legal(START, acts)
    ensures var s := Exec(START, acts);
            && (s.holder.None? ==> s.record == Replay(s.log))
            && (id in s.calls && s.calls[id].phase.Returned? ==>
                  s.calls[id].turn < |s.log| && s.log[s.calls[id].turn] == Entry(id, s.calls[id].op)
                  && s.calls[id].phase.reply == ReplyOf(Replay(s.log[..s.calls[id].turn]), s.calls[id].op)
                  && Tells(Tasks(Replay(s.log[..s.calls[id].turn])), Replay(s.log[..s.calls[id].turn]).Some?,
                      s.calls[id].op, s.calls[id].phase.reply))
  {
    RunKeepsInv(START, acts);
    var s := Exec(START, acts);
    assert id in s.calls ==> CallInv(s, id);
    if id in s.calls && s.calls[id].phase.Returned? {
      ReplyMeaning(Replay(s.log[..s.calls[id].turn]), s.calls[id].op);
    }
  }

  ghost predicate LaterTurn(s: State, n: State, id: nat)
  {
    s.log <= n.log
    && (id in s.calls && !s.calls[id].phase.Waiting? ==>
          id in n.calls && !n.calls[id].phase.Waiting? && n.calls[id].turn == s.calls[id].turn)
    && (id in n.calls && !n.calls[id].phase.Waiting? && (id in s.calls ==> s.calls[id].phase.Waiting?)
       ==> n.calls[id].turn >= |s.log|)
  }

  lemma {:induction false} TurnsAreKept(s: State, acts: seq<Action>, id: nat)
    requires Legal(s, acts)
    ensures LaterTurn(s, Exec(s, acts), id)
    decreases |acts|
  {
    if acts != [] {
      var m := Do(s, acts[0]);
      assert s.log <= m.log && LaterTurn(s, m, id);
      TurnsAreKept(m, acts[1..], id);
    }
  }

  /** The order respects real time: a call that began after another had returned comes after it. */
  lemma OrderRespectsTime(before: seq<Action>, after: seq<Action>, first: nat, second: nat)
    requires Legal(START, before) && Legal(Exec(START, before), after)
    requires var s := Exec(START, before); first in s.calls && s.calls[first].phase.Returned? && second !in s.calls
    requires var n := Exec(Exec(START, before), after); second in n.calls && !n.calls[second].phase.Waiting?
    ensures var n := Exec(Exec(START, before), after); first in n.calls && n.calls[first].turn < n.calls[second].turn
  {
    RunKeepsInv(START, before);
    var s := Exec(START, before);
    assert CallInv(s, first);
    TurnsAreKept(s, after, first);
    TurnsAreKept(s, after, second);
  }

  // What the replay of a log looks like

  /** The last operation of the log about t, if any. */
  ghost function LastAbout(log: seq<Entry>, t: TaskId): Option<Op>
  {
    if log == [] then None
    else
      var op := log[|log| - 1].op;
      if op == AppendTask(t) || op == RemoveTask(t) || op == DeleteAll then Some(op) else LastAbout(log[..|log| - 1], t)
  }

  /** Effective changes since the last effective delete. */
  ghost function Changes(log: seq<Entry>): nat
  {
    if log == [] then 0
    else
      var rest := log[..|log| - 1];
      var op := log[|log| - 1].op;
      if !Effective(Replay(rest), op) then Changes(rest)
      else if op == DeleteAll then 0
      else Changes(rest) + 1
  }

  /** No update is lost: a task is in the list exactly if the last operation about it appended it.
      The list has no duplicates, and the version counts the effective changes. */
  lemma {:induction false} NothingIsLost(log: seq<Entry>, t: TaskId)
    ensures t in Tasks(Replay(log)) <==> LastAbout(log, t) == Some(AppendTask(t))
    ensures NoDuplicates(Tasks(Replay(log)))
    ensures if Replay(log).Some? then Replay(log).value.version == Changes(log) > 0 else Changes(log) == 0
  {
    if log != [] {
      var rest := log[..|log| - 1];
      NothingIsLost(rest, t);
      if log[|log| - 1].op.RemoveTask? {
        WithoutKeepsDistinct(Tasks(Replay(rest)), log[|log| - 1].op.t);
      }
    }
  }

  /** Retrying an append that had landed changes nothing, unless the task was removed in between. */
  lemma RetryIsHarmless(log: seq<Entry>, t: TaskId, id: nat)
    ensures Replay(log + [Entry(id, AppendTask(t))]) == Replay(log) <==> LastAbout(log, t) == Some(AppendTask(t))
  {
    assert (log + [Entry(id, AppendTask(t))])[..|log|] == log;
    NothingIsLost(log, t);
  }

  /** The list under every interleaving, as a reader sees it while no update is under way. */
  lemma QueueIsExact(acts: seq<Action>, t: TaskId)
    requires Legal(START, acts) && Exec(START, acts).holder.None?
    ensures var s := Exec(START, acts);
            && NoDuplicates(Tasks(s.record))
            && (t in Tasks(s.record) <==> LastAbout(s.log, t) == Some(AppendTask(t)))
            && (s.record.Some? ==> s.record.value.version == Changes(s.log))
  {
    RunKeepsInv(START, acts);
    NothingIsLost(Exec(START, acts).log, t);
  }
}

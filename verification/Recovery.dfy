/** HT1 records, HT2 queues, and what the server handlers and the recovery manager do to them
    (chord/server.py, lines 2358-2517 and 2626-2671; chord/recovery.py, lines 54-91 and 279-446;
    storage/worker_assignment.py, lines 129-202). */
module Recovery {
  import opened Wrappers

  type TaskId = string
  type WorkerId = string

  datatype Status = PENDING | RUNNING | SUCCESS | FAILURE

  /** OtherFailure: any other failure type, None included. */
  datatype Failure = WorkerCrash | TaskTimeout | TaskFailure | OtherFailure

  datatype Path = RETRY_SAME | RETRY_DIFFERENT | WAIT_AND_RETRY | GIVE_UP

  /** Entries of recovery_history. */
  datatype Event = Retried(path: Path, worker: WorkerId) | Waited | GaveUp

  /** The fields of an HT1 record that scheduling looks at. waiting: recovery_status is WAITING_FOR_RETRY. */
  datatype Task = Task(status: Status, worker: WorkerId, result: Option<string>,
                       attempts: nat, maxAttempts: nat, retryOnFailure: bool, timedOut: bool,
                       waiting: bool, retryAt: nat, lastFailure: Option<Failure>, history: seq<Event>)

  /** build_result_record with the defaults that createTask uses. */
  function NewTask(worker: WorkerId): Task {
    Task(PENDING, worker, None, 0, 3, false, false, false, 0, None, [])
  }

  /** A record as createTask writes it: PENDING at its worker, three attempts allowed and none made. */
  predicate IsNew(task: Task, worker: WorkerId)
  {
    task.status == PENDING && task.worker == worker && task.result.None?
    && task.attempts == 0 && task.maxAttempts == 3 && task.history == [] && task.lastFailure.None?
    && !task.waiting && !task.timedOut && !task.retryOnFailure
  }

  // HT2

  type Queues = map<WorkerId, seq<TaskId>>

  function Queue(q: Queues, w: WorkerId): seq<TaskId> {
    if w in q then q[w] else []
  }

  ghost predicate NoDuplicates<T>(s: seq<T>)
  {
    forall i, j :: 0 <= i < j < |s| ==> s[i] != s[j]
  }

  /** All entries but t, in order. */
  function Without(s: seq<TaskId>, t: TaskId): (r: seq<TaskId>)
    ensures t !in r && |r| <= |s| && (t !in s ==> r == s)
    ensures forall x :: x != t ==> (x in r <==> x in s)
  {
    if s == [] then []
    else
      var rest := Without(s[1..], t);
      assert s == [s[0]] + s[1..];
      if s[0] == t then rest else [s[0]] + rest
  }

  lemma {:induction false} WithoutKeepsDistinct(s: seq<TaskId>, t: TaskId)
    requires NoDuplicates(s)
    ensures NoDuplicates(Without(s, t))
  {
    if s != [] {
      WithoutKeepsDistinct(s[1..], t);
      assert s[0] !in s[1..];
      assert s[0] != t ==> s[0] !in Without(s[1..], t);
    }
  }

  /** And the others stay in their order. */
  lemma {:induction false} WithoutKeepsOrder(before: seq<TaskId>, t: TaskId, after: seq<TaskId>)
    requires t !in before && t !in after
    ensures Without(before + [t] + after, t) == before + after
  {
    var s := before + [t] + after;
    if before == [] {
      assert s[1..] == after;
    } else {
      assert s[1..] == before[1..] + [t] + after;
      WithoutKeepsOrder(before[1..], t, after);
    }
  }

  lemma WithoutStep(kept: seq<TaskId>, s: seq<TaskId>, i: nat, t: TaskId)
    requires i < |s|
    ensures kept + Without(s[i..], t) == (if s[i] != t then kept + [s[i]] else kept) + Without(s[i + 1..], t)
  {
    assert s[i..][1..] == s[i + 1..];
  }

  /** The comprehension in remove_local, as the loop it is. */
  method Filtered(tasks: seq<TaskId>, t: TaskId) returns (kept: seq<TaskId>)
    ensures kept == Without(tasks, t)
  {
    kept := [];
    for i := 0 to |tasks|
      invariant kept + Without(tasks[i..], t) == Without(tasks, t)
    {
      WithoutStep(kept, tasks, i, t);
      if tasks[i] != t {
        kept := kept + [tasks[i]];
      }
    }
  }

  /** append: idempotent on (worker, task). */
  function Append(q: Queues, w: WorkerId, t: TaskId): (r: Queues)
    ensures Queue(r, w) == if t in Queue(q, w) then Queue(q, w) else Queue(q, w) + [t]
    ensures forall x :: x != w ==> Queue(r, x) == Queue(q, x)
  {
    if t in Queue(q, w) then q else q[w := Queue(q, w) + [t]]
  }

  /** remove: idempotent, drops every occurrence. */
  function Remove(q: Queues, w: WorkerId, t: TaskId): (r: Queues)
    ensures Queue(r, w) == Without(Queue(q, w), t)
    ensures forall x :: x != w ==> Queue(r, x) == Queue(q, x)
  {
    if t in Queue(q, w) then q[w := Without(Queue(q, w), t)] else q
  }

  // Recovery decisions

  function ChooseRecoveryPath(task: Task, failure: Failure, hasLiveWorkers: bool): Path
  {
    if task.attempts >= task.maxAttempts then GIVE_UP
    else
      match failure
      case TaskTimeout => if hasLiveWorkers then RETRY_DIFFERENT else WAIT_AND_RETRY
      case WorkerCrash => if hasLiveWorkers then RETRY_DIFFERENT else WAIT_AND_RETRY
      case TaskFailure =>
        if task.retryOnFailure then (if hasLiveWorkers then RETRY_DIFFERENT else WAIT_AND_RETRY) else GIVE_UP
      case OtherFailure => GIVE_UP
  }

  /** First live worker other than the current one, in score order. */
  function FirstOther(scored: seq<WorkerId>, current: WorkerId): Option<WorkerId>
  {
    if scored == [] then None
    else if scored[0] != current then Some(scored[0])
    else FirstOther(scored[1..], current)
  }

  /** scored: live workers, best score first; currentLive: what is_live says of the current worker. */
  function NewWorker(path: Path, current: WorkerId, scored: seq<WorkerId>, currentLive: bool): Option<WorkerId>
  {
    if path == RETRY_SAME && current != "" && currentLive then Some(current)
    else if path == RETRY_DIFFERENT && FirstOther(scored, current).Some? then FirstOther(scored, current)
    else if scored != [] then Some(scored[0])
    else None
  }

  /** What the registry shows while an attempt runs, and the time of a later retry. */
  datatype View = View(scored: seq<WorkerId>, currentLive: bool, retryAt: nat)

  /** _execute: the new record, and the worker the task moves to if it is retried. */
  function Execute(task: Task, path: Path, failure: Failure, view: View): (Task, Option<WorkerId>)
  {
    var u := task.(lastFailure := Some(failure));
    match path
    case GIVE_UP => (u.(status := FAILURE, result := Some("Permanently failed"), history := u.history + [GaveUp]), None)
    case WAIT_AND_RETRY => (u.(waiting := true, retryAt := view.retryAt, history := u.history + [Waited]), None)
    case _ =>
      match NewWorker(path, task.worker, view.scored, view.currentLive)
      case None => (u.(waiting := true, retryAt := view.retryAt, history := u.history + [Waited]), None)
      case Some(w) =>
        (u.(attempts := u.attempts
            + 1, worker := w, status := PENDING, waiting := false, retryAt := 0, timedOut := false,
            history := u.history + [Retried(path, w)]), Some(w))
  }

  /** _attempt_recovery on a freshly read record. */
  function Attempt(task: Task, failure: Failure, view: View): (Task, Option<WorkerId>)
  {
    if task.waiting || task.status == SUCCESS then (task, None)
    else Execute(task, ChooseRecoveryPath(task, failure, view.scored != []), failure, view)
  }

  /** The failure a waiting record remembers. */
  function WaitedFor(task: Task): Failure {
    if task.lastFailure.Some? then task.lastFailure.value else OtherFailure
  }

  /** _retry_waiting_tasks, for a record whose time has come. */
  function RetryWaiting(task: Task, view: View): (Task, Option<WorkerId>)
  {
    Attempt(task.(waiting := false, retryAt := 0), WaitedFor(task), view)
  }

  /** The HT2 part of a retry: leave the old queue, enter the new one. */
  function Requeue(q: Queues, t: TaskId, source: WorkerId, moved: Option<WorkerId>): Queues
  {
    match moved
    case None => q
    case Some(w) => QueuesMoved(q, t, source, w, ALL_CALLS)
  }

  /** Which store calls of an attempt succeed: the fresh read, the HT1 write, and the HT2 remove and
      append of a retry. */
  datatype StoreCalls = StoreCalls(read: bool, put: bool, remove: bool, append: bool)

  const ALL_CALLS := StoreCalls(true, true, true, true)

  datatype Turn = Turn(view: View, calls: StoreCalls)

  function RecordAfter(task: Task, failure: Failure, turn: Turn): Task {
    if turn.calls.read && turn.calls.put then Attempt(task, failure, turn.view).0 else task
  }

  /** The HT2 part of a retry when calls may fail. */
  function QueuesMoved(q: Queues, t: TaskId, source: WorkerId, w: WorkerId, calls: StoreCalls): Queues
  {
    var left := if source != "" && source != w && calls.remove then Remove(q, source, t) else q;
    if calls.append then Append(left, w, t) else left
  }

  /** A move writes two queues at most: the old one loses the task, unless it is the new one, and the new
      one gets it at its end, unless it is there already. */
  lemma MoveMeaning(q: Queues, t: TaskId, source: WorkerId, w: WorkerId, calls: StoreCalls, x: WorkerId)
    ensures Queue(QueuesMoved(q, t, source, w, calls), x)
            == if x == w && calls.append && t !in Queue(q, w) then Queue(q, w) + [t]
               else if x == source && source != "" && source != w && calls.remove then Without(Queue(q, x), t)
               else Queue(q, x)
  {
  }

  function QueuesAfter(q: Queues, t: TaskId, task: Task, failure: Failure, turn: Turn): Queues
  {
    match Attempt(task, failure, turn.view).1
    case None => q
    case Some(w) => if turn.calls.read then QueuesMoved(q, t, task.worker, w, turn.calls) else q
  }

  /** t is queued under its record's worker and under no other. */
  ghost predicate Agrees(t: TaskId, task: Task, q: Queues)
  {
    forall w {:trigger Queue(q, w)} :: t in Queue(q, w) <==> w == task.worker
  }

  /** A retry that moves a task to another worker keeps record and queues in agreement if and only
      if its three writes all land or none does. */
  lemma RetryAgreesIff(q: Queues, t: TaskId, task: Task, failure: Failure, turn: Turn)
    requires Agrees(t, task, q) && task.worker != "" && turn.calls.read
    requires var moved := Attempt(task, failure, turn.view).1; moved.Some? && moved.value != task.worker
    ensures Agrees(t, RecordAfter(task, failure, turn), QueuesAfter(q, t, task, failure, turn)) <==>
            turn.calls.put == turn.calls.remove == turn.calls.append
  {
    var w := Attempt(task, failure, turn.view).1.value;
    var r := QueuesAfter(q, t, task, failure, turn);
    assert Attempt(task, failure, turn.view).0.worker == w;
    assert t in Queue(q, task.worker) && t !in Queue(q, w);
    assert t in Queue(r, task.worker) <==> !turn.calls.remove;
    assert t in Queue(r, w) <==> turn.calls.append;
    forall x | x != w && x != task.worker ensures t !in Queue(r, x) {
      assert Queue(r, x) == Queue(q, x);
    }
  }

  // The detectors' conditions

  predicate DetectTimedOut(task: Task) {
    task.status == FAILURE && task.timedOut && !task.waiting && task.history == []
  }

  predicate DetectFailed(task: Task) {
    task.status == FAILURE && !task.timedOut && !task.waiting && GaveUp !in task.history
  }

  /** Either scan for tasks of dead workers: by HT2 queue or by the record's worker. */
  predicate DetectOrphaned(task: Task) {
    task.status == PENDING || task.status == RUNNING
  }

  predicate DetectWaiting(task: Task, now: nat) {
    task.waiting && task.retryAt <= now
  }

  function ReportedRecord(task: Task, success: bool, result: string): Task {
    task.(status := if success then SUCCESS else FAILURE, result := Some(result))
  }

  /** u is the record after a report: its status says which one, its result is the one given, and
      nothing else differs. */
  predicate IsReported(u: Task, task: Task, success: bool, result: string)
  {
    (u.status == SUCCESS <==> success) && (u.status == FAILURE <==> !success) && u.result == Some(result)
    && u.worker == task.worker && u.attempts == task.attempts && u.maxAttempts == task.maxAttempts
    && u.retryOnFailure == task.retryOnFailure && u.timedOut == task.timedOut && u.waiting == task.waiting
    && u.retryAt == task.retryAt && u.lastFailure == task.lastFailure && u.history == task.history
  }

  /** Tables of the server, updated in place by its handlers and by the recovery manager. */
  class Tables {
    var ht1: map<TaskId, Task>
    var ht2: Queues

    method AppendLocal(w: WorkerId, t: TaskId) returns (appended: bool)
      modifies this`ht2
      ensures ht2 == Append(old(ht2), w, t) && appended == (t !in Queue(old(ht2), w))
    {
      var tasks := if w in ht2 then ht2[w] else [];
      if t in tasks {
        return false;
      }
      ht2 := ht2[w := tasks + [t]];
      return true;
    }

    method RemoveLocal(w: WorkerId, t: TaskId) returns (removed: bool)
      modifies this`ht2
      ensures ht2 == Remove(old(ht2), w, t) && removed == (t in Queue(old(ht2), w))
    {
      var tasks := if w in ht2 then ht2[w] else [];
      if t !in tasks {
        return false;
      }
      var kept := Filtered(tasks, t);
      ht2 := ht2[w := kept];
      return true;
    }

    /** createTask after validation. The flags say which of its store calls fail, without effect.
        A failed idempotency read counts as a new task. */
    method CreateTask(t: TaskId, w: WorkerId, readOk: bool, ht1Ok: bool, ht2Ok: bool, rollbackOk: bool)
      returns (accepted: bool)
      modifies this
      ensures accepted == ((readOk && t in old(ht1)) || (w != "" && ht1Ok && ht2Ok))
      ensures (readOk && t in old(ht1)) || w == "" || !ht1Ok ==> ht1 == old(ht1) && ht2 == old(ht2)
      ensures !(readOk && t in old(ht1)) && w != "" && ht1Ok && ht2Ok ==>
                ht1 == old(ht1)[t := NewTask(w)] && ht2 == Append(old(ht2), w, t) && IsNew(ht1[t], w)
      ensures !(readOk && t in old(ht1)) && w != "" && ht1Ok && !ht2Ok ==>
                ht2 == old(ht2) && ht1 == if rollbackOk then old(ht1) - {t} else old(ht1)[t := NewTask(w)]
      ensures t !in old(ht1) && !accepted ==> (ht1 == old(ht1) && ht2 == old(ht2) <==> w == "" || !ht1Ok || rollbackOk)
    {
      if readOk && t in ht1 {
        return true;
      }
      if w == "" || !ht1Ok {
        return false;
      }
      ghost var before := ht1;
      ht1 := ht1[t := NewTask(w)];
      if !ht2Ok {
        if rollbackOk {
          ht1 := ht1 - {t};
          assert ht1 == before - {t};
          assert t !in before ==> before - {t} == before;
        }
        assert t in before[t := NewTask(w)];
        return false;
      }
      var appended := AppendLocal(w, t);
      return true;
    }

    /** result_complete; cleanup says whether the delayed removal from HT2 is scheduled. */
    method ResultComplete(t: TaskId, success: bool, result: string, putOk: bool) returns (ok: bool, cleanup: bool)
      modifies this`ht1
      ensures ok == (t in old(ht1) && putOk) && cleanup == (ok && success && old(ht1)[t].worker != "")
      ensures ht1.Keys == old(ht1).Keys && forall x :: x in old(ht1) && (x != t || !ok) ==> ht1[x] == old(ht1)[x]
      ensures ok ==> IsReported(ht1[t], old(ht1)[t], success, result)
      ensures ht1 == if ok then old(ht1)[t := ReportedRecord(old(ht1)[t], success, result)] else old(ht1)
    {
      if t !in ht1 || !putOk {
        return false, false;
      }
      ht1 := ht1[t := ht1[t].(status := if success then SUCCESS else FAILURE, result := Some(result))];
      return true, success && ht1[t].worker != "";
    }

    /** One recovery attempt. A store call that fails is logged and skipped. */
    method AttemptRecovery(t: TaskId, failure: Failure, turn: Turn)
      modifies this
      ensures t !in old(ht1) ==> ht1 == old(ht1) && ht2 == old(ht2)
      ensures t in old(ht1) ==>
                ht1 == old(ht1)[t := RecordAfter(old(ht1)[t], failure, turn)]
                && ht2 == QueuesAfter(old(ht2), t, old(ht1)[t], failure, turn)
      ensures !turn.calls.read ==> ht1 == old(ht1) && ht2 == old(ht2)
      ensures !turn.calls.put ==> ht1 == old(ht1)
      ensures !turn.calls.remove && !turn.calls.append ==> ht2 == old(ht2)
      ensures t in old(ht1) && turn.calls.read && turn.calls.put ==>
                ht1[t] == Attempt(old(ht1)[t], failure, turn.view).0
    {
      if t !in ht1 {
        return;
      }
      var current := ht1[t];
      if !turn.calls.read || current.waiting || current.status == SUCCESS {
        assert ht1 == ht1[t := current];
        return;
      }
      var path := ChooseRecoveryPath(current, failure, turn.view.scored != []);
      var (updated, moved) := Execute(current, path, failure, turn.view);
      if turn.calls.put {
        ht1 := ht1[t := updated];
      } else {
        assert ht1 == ht1[t := current];
      }
      if moved.Some? {
        MoveQueued(t, current.worker, moved.value, turn.calls);
      }
    }

    method MoveQueued(t: TaskId, source: WorkerId, w: WorkerId, calls: StoreCalls)
      modifies this`ht2
      ensures ht2 == QueuesMoved(old(ht2), t, source, w, calls)
    {
      if source != "" && source != w && calls.remove {
        var removed := RemoveLocal(source, t);
      }
      if calls.append {
        var appended := AppendLocal(w, t);
      }
    }

    /** _detect_failed_tasks over the records it was given; workers are scored anew for each. */
    method DetectFailedTasks(ids: seq<TaskId>, turns: seq<Turn>)
      requires NoDuplicates(ids) && |turns| == |ids| && forall t :: t in ids ==> t in ht1
      modifies this
      ensures ht1.Keys == old(ht1).Keys
      ensures forall t :: t in old(ht1) && t !in ids ==> ht1[t] == old(ht1)[t]
      ensures forall i :: 0 <= i < |ids| ==> ht1[ids[i]] == FailureHandled(old(ht1)[ids[i]], turns[i])
      ensures ht2 == FailuresRequeued(old(ht2), old(ht1), ids, turns)
    {
      for i := 0 to |ids|
        invariant ht1.Keys == old(ht1).Keys
        invariant forall t :: t in old(ht1) && t !in ids ==> ht1[t] == old(ht1)[t]
        invariant forall j :: i <= j < |ids| ==> ht1[ids[j]] == old(ht1)[ids[j]]
        invariant forall j :: 0 <= j < i ==> ht1[ids[j]] == FailureHandled(old(ht1)[ids[j]], turns[j])
        invariant ht2 == FailuresRequeued(old(ht2), old(ht1), ids[..i], turns[..i])
      {
        RequeuedStep(old(ht2), old(ht1), ids, turns, i);
        if DetectFailed(ht1[ids[i]]) {
          AttemptRecovery(ids[i], TaskFailure, turns[i]);
        }
      }
      assert ids[..|ids|] == ids && turns[..|ids|] == turns;
    }
  }

  /** A record after a scan for failed tasks that saw it. */
  function FailureHandled(task: Task, turn: Turn): Task {
    if DetectFailed(task) then RecordAfter(task, TaskFailure, turn) else task
  }

  function RequeuedOnce(q: Queues, t: TaskId, task: Task, turn: Turn): Queues {
    if DetectFailed(task) then QueuesAfter(q, t, task, TaskFailure, turn) else q
  }

  /** The queues after a scan for failed tasks, record by record. */
  function FailuresRequeued(q: Queues, ht1: map<TaskId, Task>, ids: seq<TaskId>, turns: seq<Turn>): Queues
    requires |turns| == |ids| && forall t :: t in ids ==> t in ht1
  {
    if ids == [] then q
    else
      var n := |ids| - 1;
      RequeuedOnce(FailuresRequeued(q, ht1, ids[..n], turns[..n]), ids[n], ht1[ids[n]], turns[n])
  }

  lemma RequeuedStep(q: Queues, ht1: map<TaskId, Task>, ids: seq<TaskId>, turns: seq<Turn>, i: nat)
    requires i < |turns| == |ids| && forall t :: t in ids ==> t in ht1
    ensures FailuresRequeued(q, ht1, ids[..i + 1], turns[..i + 1])
            == RequeuedOnce(FailuresRequeued(q, ht1, ids[..i], turns[..i]), ids[i], ht1[ids[i]], turns[i])
  {
    assert ids[..i + 1][..i] == ids[..i] && turns[..i + 1][..i] == turns[..i];
  }

  // What an attempt decides

  /** A failure that is retried as long as attempts are left. */
  predicate Retryable(task: Task, failure: Failure) {
    failure == WorkerCrash || failure == TaskTimeout || (failure == TaskFailure && task.retryOnFailure)
  }

  lemma {:induction false} FirstOtherIsFirst(scored: seq<WorkerId>, current: WorkerId) returns (i: nat)
    ensures i <= |scored| && forall j :: 0 <= j < i ==> scored[j] == current
    ensures if i < |scored| then FirstOther(scored, current) == Some(scored[i]) && scored[i] != current
            else FirstOther(scored, current) == None
  {
    i := 0;
    if scored != [] && scored[0] == current {
      var k := FirstOtherIsFirst(scored[1..], current);
      i := k + 1;
      assert forall j :: 0 < j < i ==> scored[j] == scored[1..][j - 1];
    }
  }

  /** The record of a task that moves to w: one attempt more, and a fresh start there. */
  predicate IsRetried(u: Task, task: Task, failure: Failure, w: WorkerId)
  {
    u.status == PENDING && u.worker == w && u.attempts == task.attempts + 1
    && !u.waiting && u.retryAt == 0 && !u.timedOut && u.lastFailure == Some(failure)
    && u.history == task.history + [Retried(RETRY_DIFFERENT, w)]
    && u.result == task.result && u.maxAttempts == task.maxAttempts && u.retryOnFailure == task.retryOnFailure
  }

  /** A waiting or successful task is left alone. While attempts are left, a retryable failure moves the
      task to the best live worker other than its own, or back to its own if no other is live; with
      nobody live the task waits where it is. Every other failure, and any failure without attempts
      left, gives the task up. */
  lemma AttemptMeaning(task: Task, failure: Failure, view: View) returns (i: nat)
    ensures var (u, moved) := Attempt(task, failure, view);
            if task.waiting || task.status == SUCCESS then u == task && moved == None
            else if task.attempts >= task.maxAttempts || !Retryable(task, failure) then
              u == task.(status := FAILURE, result := Some("Permanently failed"), lastFailure := Some(failure),
                  history := task.history + [GaveUp])
              && moved == None
            else if view.scored == [] then
              u == task.(waiting := true, retryAt := view.retryAt, lastFailure := Some(failure),
                  history := task.history + [Waited])
              && moved == None
            else
              i < |view.scored| && moved == Some(view.scored[i]) && IsRetried(u, task, failure, view.scored[i])
              && (view.scored[i] == task.worker <==> forall w :: w in view.scored ==> w == task.worker)
              && (view.scored[i] != task.worker ==> forall j :: 0 <= j < i ==> view.scored[j] == task.worker)
  {
    i := FirstOtherIsFirst(view.scored, task.worker);
    if i == |view.scored| {
      i := 0;
    }
    assert i < |view.scored| ==> view.scored[i] in view.scored;
  }

  /** A record whose wait is over is attempted anew for the failure it waited for, and waits again only
      if still nobody is live. */
  lemma RetryWaitingMeaning(task: Task, view: View)
    requires task.waiting && task.status != SUCCESS && task.lastFailure.Some?
    ensures var (u, moved) := RetryWaiting(task, view);
            var again := task.attempts < task.maxAttempts && Retryable(task, task.lastFailure.value);
            && (moved.Some? <==> again && view.scored != [])
            && (moved.Some? ==> moved.value in view.scored && IsRetried(u, task, task.lastFailure.value, moved.value))
            && (u.waiting <==> again && view.scored == [])
            && (u.waiting ==> u == task.(retryAt := view.retryAt, history := task.history + [Waited]))
            && (!again ==> u.status == FAILURE && u.history == task.history + [GaveUp])
  {
    var i := AttemptMeaning(task.(waiting := false, retryAt := 0), WaitedFor(task), view);
  }

  /** A scan for failed tasks acts on a record exactly if it failed, neither timed out nor waits, and was
      not given up; it retries it, or lets it wait while nobody is live, if it asks for retries and has
      attempts left, and gives it up otherwise. */
  lemma FailureHandledMeaning(task: Task, turn: Turn)
    ensures var u := FailureHandled(task, turn);
            var due := task.status == FAILURE && !task.timedOut && !task.waiting && GaveUp !in task.history
                && turn.calls.read && turn.calls.put;
            if !due then u == task
            else if !task.retryOnFailure || task.attempts >= task.maxAttempts then
              u.status == FAILURE && u.history == task.history + [GaveUp]
            else if turn.view.scored == [] then u.waiting && u.history == task.history + [Waited]
            else exists w :: w in turn.view.scored && IsRetried(u, task, TaskFailure, w)
  {
    var i := AttemptMeaning(task, TaskFailure, turn.view);
    if i < |turn.view.scored| {
      assert turn.view.scored[i] in turn.view.scored;
    }
  }

  // What recovery keeps, record by record

  function Retries(history: seq<Event>): nat
  {
    if history == [] then 0 else Retries(history[..|history| - 1]) + if history[|history| - 1].Retried? then 1 else 0
  }

  function GiveUps(history: seq<Event>): nat
  {
    if history == [] then 0 else GiveUps(history[..|history| - 1]) + if history[|history| - 1].GaveUp? then 1 else 0
  }

  lemma HistoryGrows(history: seq<Event>, e: Event)
    ensures Retries(history + [e]) == Retries(history) + if e.Retried? then 1 else 0
    ensures GiveUps(history + [e]) == GiveUps(history) + if e.GaveUp? then 1 else 0
  {
    assert (history + [e])[..|history|] == history;
  }

  lemma {:induction false} NoGiveUpNoCount(history: seq<Event>)
    ensures GaveUp in history <==> GiveUps(history) > 0
  {
    if history != [] {
      var h := history[..|history| - 1];
      NoGiveUpNoCount(h);
      assert history == h + [history[|history| - 1]];
    }
  }

  /** The retry budget is respected and matches the history. */
  ghost predicate Budgeted(task: Task)
  {
    task.attempts <= task.maxAttempts && task.attempts == Retries(task.history)
  }

  /** Whatever failure is reported, on whatever record, an attempt keeps the budget; attempt_count
      never falls, and rises by one exactly when the task moves to a worker. A finished task keeps
      status, result and worker. */
  lemma AttemptKeepsBudget(task: Task, failure: Failure, view: View)
    requires Budgeted(task)
    ensures var (u, moved) := Attempt(task, failure, view);
            Budgeted(u) && u.maxAttempts == task.maxAttempts
            && u.attempts == task.attempts + (if moved.Some? then 1 else 0)
            && (moved.Some? ==> u.worker == moved.value && u.status == PENDING)
            && (moved.None? ==> u.worker == task.worker)
            && (task.status == SUCCESS ==> u == task)
  {
    var e := AttemptLogsOnce(task, failure, view);
    HistoryGrows(task.history, e);
  }

  /** An attempt that changes anything enters exactly one event. */
  lemma AttemptLogsOnce(task: Task, failure: Failure, view: View) returns (e: Event)
    ensures var (u, moved) := Attempt(task, failure, view);
            if task.waiting || task.status == SUCCESS then u == task && moved.None?
            else u.history == task.history + [e] && e.Retried? == moved.Some?
                 && (e.GaveUp? <==> ChooseRecoveryPath(task, failure, view.scored != []) == GIVE_UP)
                 && (e.GaveUp? ==> u.status == FAILURE && !u.waiting)
  {
    var u := Attempt(task, failure, view).0;
    e := if |u.history| > |task.history| then u.history[|task.history|] else Waited;
  }

  /** A record in which GIVE_UP was entered: it is not waiting, was given up once, and is closed. */
  ghost predicate GivenUpOnce(task: Task)
  {
    GiveUps(task.history) <= 1
    && (GaveUp in task.history ==>
          !task.waiting && (task.status == FAILURE || task.status == SUCCESS) && task.history != [])
  }

  /** One scan step of the recovery manager: some detector's condition holds of the record as it
      is, and the matching attempt is made. */
  ghost predicate ScanStep(task: Task, u: Task, view: View, now: nat)
  {
    || (DetectTimedOut(task) && u == Attempt(task, TaskTimeout, view).0)
    || (DetectFailed(task) && u == Attempt(task, TaskFailure, view).0)
    || (DetectOrphaned(task) && u == Attempt(task, WorkerCrash, view).0)
    || (DetectWaiting(task, now) && u == RetryWaiting(task, view).0)
  }

  lemma AttemptKeepsClosed(task: Task, failure: Failure, view: View)
    requires GiveUps(task.history) == 0
    ensures var u := Attempt(task, failure, view).0;
            GiveUps(u.history) <= 1 && (GiveUps(u.history) > 0 ==> u.status == FAILURE && !u.waiting)
            && (task.status == SUCCESS ==> u == task)
  {
    var e := AttemptLogsOnce(task, failure, view);
    HistoryGrows(task.history, e);
  }

  /** No scan touches a given-up record, so GIVE_UP is entered at most once; no scan changes
      status, result or worker of a SUCCESS record. */
  lemma ScanKeepsClosed(task: Task, u: Task, view: View, now: nat)
    requires GivenUpOnce(task) && ScanStep(task, u, view, now)
    ensures GivenUpOnce(u) && GaveUp !in task.history
    ensures task.status == SUCCESS ==>
              u.status == SUCCESS && u.result == task.result && u.worker == task.worker && u.history == task.history
  {
    NoGiveUpNoCount(task.history);
    NoGiveUpNoCount(u.history);
    AttemptKeepsClosed(task, TaskTimeout, view);
    AttemptKeepsClosed(task, TaskFailure, view);
    AttemptKeepsClosed(task, WorkerCrash, view);
    AttemptKeepsClosed(task.(waiting := false, retryAt := 0), WaitedFor(task), view);
  }

  /** A report by the worker keeps a given-up record closed. */
  lemma ReportKeepsClosed(task: Task, success: bool, result: string)
    requires GivenUpOnce(task)
    ensures GivenUpOnce(ReportedRecord(task, success, result))
  {
  }

  /** The write of a report. */
  ghost predicate Reported(task: Task, u: Task)
  {
    exists success, result :: u == ReportedRecord(task, success, result)
  }

  /** The write of a rebalancing pass: a PENDING task is given to another worker. */
  predicate Reassigned(task: Task, u: Task)
  {
    task.status == PENDING && u == task.(worker := u.worker)
  }

  /** What may happen to a record, one write at a time: a scan acts on it, its worker reports, or a
      rebalancing pass moves it. */
  ghost predicate RecordStep(task: Task, u: Task)
  {
    (exists view, now :: ScanStep(task, u, view, now)) || Reported(task, u) || Reassigned(task, u)
  }

  ghost predicate RecordRun(states: seq<Task>)
  {
    |states| > 0 && states[0].status == PENDING && states[0].attempts == 0 && states[0].history == []
        && !states[0].waiting
    && forall i {:trigger StepAt(states, i)} :: 0 < i < |states| ==> StepAt(states, i)
  }

  ghost predicate StepAt(states: seq<Task>, i: nat)
    requires 0 < i < |states|
  {
    RecordStep(states[i - 1], states[i])
  }

  /** A later state of a record: the budget holds and matches the history, attempt_count never
      falls, and once GIVE_UP is entered it is never entered again and nothing is retried. */
  ghost predicate SafeSince(task: Task, u: Task)
  {
    Budgeted(u) && GivenUpOnce(u) && task.attempts <= u.attempts && u.maxAttempts == task.maxAttempts
    && (GaveUp in task.history ==> u.history == task.history && u.attempts == task.attempts)
  }

  lemma {:induction false} RecordRunsAreSafe(states: seq<Task>, i: nat, j: nat)
    requires RecordRun(states) && i <= j < |states|
    ensures SafeSince(states[i], states[j])
    decreases j
  {
    if j > 0 {
      RecordRunsAreSafe(states, if i < j then i else j - 1, j - 1);
      assert StepAt(states, j);
      SafeStep(states[j - 1], states[j]);
      SafeSinceTransitive(states[if i < j then i else j - 1], states[j - 1], states[j]);
    }
  }

  lemma SafeSinceTransitive(a: Task, b: Task, c: Task)
    requires SafeSince(a, b) && SafeSince(b, c)
    ensures SafeSince(a, c) && SafeSince(c, c)
  {
  }

  lemma ScanKeepsBudget(task: Task, u: Task, view: View, now: nat)
    requires Budgeted(task) && ScanStep(task, u, view, now)
    ensures Budgeted(u) && task.attempts <= u.attempts && u.maxAttempts == task.maxAttempts
  {
    AttemptKeepsBudget(task, TaskTimeout, view);
    AttemptKeepsBudget(task, TaskFailure, view);
    AttemptKeepsBudget(task, WorkerCrash, view);
    AttemptKeepsBudget(task.(waiting := false, retryAt := 0), WaitedFor(task), view);
  }

  lemma SafeStep(task: Task, u: Task)
    requires RecordStep(task, u) && SafeSince(task, task)
    ensures SafeSince(task, u)
  {
    if view, now :| ScanStep(task, u, view, now) {
      ScanKeepsClosed(task, u, view, now);
      ScanKeepsBudget(task, u, view, now);
    } else if success, result :| u == ReportedRecord(task, success, result) {
      ReportKeepsClosed(task, success, result);
    }
  }

  // The lives of the records that the server creates

  /** Nothing sets timed_out or retry_on_failure on a record that createTask wrote, so the detector
      for timed-out tasks never fires. */
  lemma {:induction false} NeverTimedOut(states: seq<Task>, w: WorkerId, i: nat)
    requires RecordRun(states) && states[0] == NewTask(w) && i < |states|
    ensures !states[i].timedOut && !states[i].retryOnFailure && !DetectTimedOut(states[i]) && states[i].maxAttempts == 3
    decreases i
  {
    if i > 0 {
      NeverTimedOut(states, w, i - 1);
      assert StepAt(states, i);
    }
  }

  /** A reported failure is final: unless the record waits for a retry after a crash, all that can
      happen to it is another report, or to be given up. */
  lemma ReportedFailureIsFinal(states: seq<Task>, w: WorkerId, i: nat)
    requires RecordRun(states) && states[0] == NewTask(w) && i + 1 < |states|
    requires states[i].status == FAILURE && !states[i].waiting
    ensures Reported(states[i], states[i + 1])
            || (GaveUp !in states[i].history && states[i + 1].status == FAILURE && !states[i + 1].waiting
                && states[i + 1].history == states[i].history + [GaveUp])
  {
    NeverTimedOut(states, w, i);
    assert StepAt(states, i + 1);
  }

  /** A scan retries this record. */
  ghost predicate CanBeRetried(task: Task)
  {
    exists u, view, now :: ScanStep(task, u, view, now) && u.attempts > task.attempts
  }

  /** The exact condition under which a failed task of the server is ever retried by a scan. */
  lemma FailureRetriedIff(states: seq<Task>, w: WorkerId, i: nat)
    requires RecordRun(states) && states[0] == NewTask(w) && i < |states| && states[i].status == FAILURE
    ensures CanBeRetried(states[i]) <==>
            states[i].waiting && states[i].attempts < states[i].maxAttempts
            && (states[i].lastFailure == Some(WorkerCrash) || states[i].lastFailure == Some(TaskTimeout))
  {
    NeverTimedOut(states, w, i);
    var task := states[i];
    if task.waiting && task.attempts < task.maxAttempts
        && (task.lastFailure == Some(WorkerCrash) || task.lastFailure == Some(TaskTimeout)) {
      var view := View(["w"], true, 0);
      var u := RetryWaiting(task, view).0;
      assert ScanStep(task, u, view, task.retryAt);
    }
  }

  /** And for a task that has not failed: only the scans for dead workers retry it, whether it runs or
      not, as long as it does not wait and has attempts left. */
  lemma OrphanRetriedIff(task: Task)
    requires task.status == PENDING || task.status == RUNNING
    ensures CanBeRetried(task) <==>
            task.attempts < task.maxAttempts
            && (!task.waiting || (task.lastFailure.Some? && Retryable(task, task.lastFailure.value)))
  {
    var view := View(["w"], true, 0);
    if task.waiting {
      assert ScanStep(task, RetryWaiting(task, view).0, view, task.retryAt);
    } else {
      assert ScanStep(task, Attempt(task, WorkerCrash, view).0, view, 0);
    }
  }
}

/** The scheduler as a whole: handlers, delayed cleanups, recovery attempts and worker processes,
    in any interleaving (chord/server.py, lines 2383-2517 and 2626-2671; chord/recovery.py,
    lines 279-446; chord/task_runner.py, lines 120-183). Handlers and per-record attempts are atomic. */
module Scheduler {
  import opened Recovery
  import opened Wrappers

  /** A worker process: the assignment list it fetched last, how far it is through it, and the
      task ids it has claimed. */
  datatype Process = Process(view: seq<TaskId>, pos: nat, recovering: bool, seen: set<TaskId>)

  /** reported: tasks whose current assignment has been reported. queuedAt: every worker a task was
      ever queued for. runs: the workers that executed a task, in order. */
  datatype System = System(ht1: map<TaskId, Task>, ht2: Queues, reported: set<TaskId>,
                           cleanups: set<(WorkerId, TaskId)>,
                           queuedAt: map<TaskId, set<WorkerId>>, processes: map<WorkerId, Process>,
                           runs: map<TaskId, seq<WorkerId>>)
  {
    function Runs(t: TaskId): seq<WorkerId> {
      if t in runs then runs[t] else []
    }
  }

  const EMPTY := System(map[], map[], {}, {}, map[], map[], map[])

  /** answered: whether the worker's fetch of its queue or of a record succeeds. */
  datatype Action =
    | Create(t: TaskId, w: WorkerId, ht1Ok: bool, ht2Ok: bool)
    | Report(t: TaskId, success: bool, result: string)
    | Cleanup(w: WorkerId, t: TaskId)
    | Recover(t: TaskId, failure: Failure, view: View)
    | RetryAfterWait(t: TaskId, view: View)
    | Start(w: WorkerId, answered: bool)
    | RecoverNext(w: WorkerId, answered: bool)
    | Poll(w: WorkerId, answered: bool)
    | PollNext(w: WorkerId, answered: bool)

  predicate Enabled(s: System, a: Action)
  {
    match a
    case Create(t, w, _, _) => true
    case Report(t, _, _) => t in s.ht1 && t !in s.reported
    case Cleanup(w, t) => (w, t) in s.cleanups
    case Recover(t, _, view) => t in s.ht1 && "" !in view.scored
    case RetryAfterWait(t, view) => t in s.ht1 && s.ht1[t].waiting && "" !in view.scored
    case Start(w, _) => w !in s.processes
    case RecoverNext(w, _) => w in s.processes && s.processes[w].recovering
    case Poll(w, _) => w in s.processes && !s.processes[w].recovering
    case PollNext(w, _) => w in s.processes && !s.processes[w].recovering && s.processes[w].pos < |s.processes[w].view|
  }

  /** The record after an attempt, the queues, and what the move pays for. */
  function AfterAttempt(s: System, t: TaskId, outcome: (Task, Option<WorkerId>)): System
    requires t in s.ht1
  {
    var (u, moved) := outcome;
    s.(ht1 := s.ht1[t := u],
       ht2 := Requeue(s.ht2, t, s.ht1[t].worker, moved),
       reported := if moved.Some? then s.reported - {t} else s.reported,
       queuedAt := if moved.Some? && t in s.queuedAt then s.queuedAt[t := s.queuedAt[t] + {moved.value}]
           else s.queuedAt)
  }

  /** w claims t; the claim and the execution it leads to count as one run. */
  function Claim(s: System, w: WorkerId, t: TaskId, execute: bool): System
    requires w in s.processes
  {
    var p := s.processes[w];
    s.(processes := s.processes[w := p.(pos := p.pos + 1, seen := p.seen + {t})],
       runs := if execute then s.runs[t := s.Runs(t) + [w]] else s.runs)
  }

  function Do(s: System, a: Action): System
    requires Enabled(s, a)
  {
    match a
    case Create(t, w, ht1Ok, ht2Ok) =>
      if t in s.ht1 || w == "" || !ht1Ok || !ht2Ok then s
      else s.(ht1 := s.ht1[t := NewTask(w)], ht2 := Append(s.ht2, w, t), queuedAt := s.queuedAt[t := {w}],
              reported := s.reported - {t})
    case Report(t, success, result) =>
      s.(ht1 := s.ht1[t := ReportedRecord(s.ht1[t], success, result)],
         reported := s.reported + {t},
         cleanups := if success then s.cleanups + {(s.ht1[t].worker, t)} else s.cleanups)
    case Cleanup(w, t) => s.(ht2 := Remove(s.ht2, w, t))
    case Recover(t, failure, view) => AfterAttempt(s, t, Attempt(s.ht1[t], failure, view))
    case RetryAfterWait(t, view) => AfterAttempt(s, t, RetryWaiting(s.ht1[t], view))
    case Start(w, answered) =>
      s.(processes := s.processes[w := Process(if answered then Queue(s.ht2, w) else [], 0, true, {})])
    case RecoverNext(w, answered) =>
      var p := s.processes[w];
      if p.pos >= |p.view| then s.(processes := s.processes[w := p.(view := [], pos := 0, recovering := false)])
      else
        var t := p.view[p.pos];
        Claim(s, w, t, answered && t in s.ht1 && s.ht1[t].status == PENDING)
    case Poll(w, answered) =>
      s.(processes := s.processes[w := s.processes[w].(view := if answered then Queue(s.ht2, w) else [], pos := 0)])
    case PollNext(w, answered) =>
      var p := s.processes[w];
      var t := p.view[p.pos];
      if !answered || t !in s.ht1 then s.(processes := s.processes[w := p.(pos := p.pos + 1)])
      else if s.ht1[t].status != PENDING then Claim(s, w, t, false)
      else if t in p.seen then s.(processes := s.processes[w := p.(pos := p.pos + 1)])
      else Claim(s, w, t, true)
  }

  // Invariants

  /** The task is in no queue but its worker's, and it is in that one until it succeeds. */
  ghost predicate TaskInv(s: System, t: TaskId)
    requires t in s.ht1
  {
    var task := s.ht1[t];
    task.worker != "" && Budgeted(task)
    && (task.status == SUCCESS ==> t in s.reported)
    && (task.status != SUCCESS ==> t in Queue(s.ht2, task.worker))
    && t in s.queuedAt && task.worker in s.queuedAt[t] && |s.queuedAt[t]| <= 1 + task.attempts
  }

  ghost predicate QueueInv(s: System, w: WorkerId)
  {
    NoDuplicates(Queue(s.ht2, w))
    && forall t :: t in Queue(s.ht2, w) ==> t in s.ht1 && s.ht1[t].worker == w
  }

  ghost predicate ProcessInv(s: System, w: WorkerId)
    requires w in s.processes
  {
    var p := s.processes[w];
    NoDuplicates(p.view) && p.pos <= |p.view|
    && (forall t :: t in p.view ==> t in s.queuedAt && w in s.queuedAt[t])
    && (p.recovering ==> forall t :: t in p.seen ==> t in p.view[..p.pos])
  }

  /** Each process runs a task at most once, and only tasks that were queued for it. */
  ghost predicate RunsInv(s: System, t: TaskId)
  {
    NoDuplicates(s.Runs(t))
    && forall w :: w in s.Runs(t) ==>
                     w in s.processes && t in s.processes[w].seen && t in s.queuedAt && w in s.queuedAt[t]
  }

  ghost predicate Inv(s: System)
  {
    s.queuedAt.Keys == s.ht1.Keys
    && (forall t {:trigger TaskInv(s, t)} :: t in s.ht1 ==> TaskInv(s, t))
    && (forall w {:trigger QueueInv(s, w)} :: QueueInv(s, w))
    && (forall w {:trigger ProcessInv(s, w)} :: w in s.processes ==> ProcessInv(s, w))
    && (forall t {:trigger RunsInv(s, t)} :: RunsInv(s, t))
    && (forall c :: c in s.cleanups ==> c.1 in s.ht1 && s.ht1[c.1].status == SUCCESS && s.ht1[c.1].worker == c.0)
  }

  /** What only grows: the invariant of processes and runs depends on nothing else of the tables. */
  lemma TablesOnly(s: System, n: System)
    requires Inv(s) && n.processes == s.processes && n.runs == s.runs && s.queuedAt.Keys <= n.queuedAt.Keys
    requires forall t :: t in s.queuedAt ==> s.queuedAt[t] <= n.queuedAt[t]
    ensures forall w {:trigger ProcessInv(n, w)} :: w in n.processes ==> ProcessInv(n, w)
    ensures forall t {:trigger RunsInv(n, t)} :: RunsInv(n, t)
  {
    forall w | w in n.processes ensures ProcessInv(n, w) {
      assert ProcessInv(s, w);
    }
    forall t ensures RunsInv(n, t) {
      assert RunsInv(s, t);
    }
  }

  lemma CreateKeepsInv(s: System, a: Action)
    requires Inv(s) && a.Create? && Enabled(s, a)
    ensures Inv(Do(s, a))
  {
    var n, t, w := Do(s, a), a.t, a.w;
    if n != s {
      assert QueueInv(s, w);
      forall x | x in n.ht1 ensures TaskInv(n, x) {
        if x != t {
          assert TaskInv(s, x);
        }
      }
      forall x ensures QueueInv(n, x) {
        assert QueueInv(s, x);
      }
      TablesOnly(s, n);
    }
  }

  lemma ReportKeepsInv(s: System, a: Action)
    requires Inv(s) && a.Report? && Enabled(s, a)
    ensures Inv(Do(s, a))
  {
    var n, t := Do(s, a), a.t;
    assert TaskInv(s, t);
    forall x | x in n.ht1 ensures TaskInv(n, x) {
      assert TaskInv(s, x);
    }
    forall x ensures QueueInv(n, x) {
      assert QueueInv(s, x);
    }
    TablesOnly(s, n);
  }

  lemma CleanupKeepsInv(s: System, a: Action)
    requires Inv(s) && a.Cleanup? && Enabled(s, a)
    ensures Inv(Do(s, a))
  {
    var n, t := Do(s, a), a.t;
    assert s.ht1[(a.w, t).1].status == SUCCESS;
    forall x | x in n.ht1 ensures TaskInv(n, x) {
      assert TaskInv(s, x);
    }
    forall x ensures QueueInv(n, x) {
      assert QueueInv(s, x);
      WithoutKeepsDistinct(Queue(s.ht2, x), t);
    }
    TablesOnly(s, n);
  }

  /** Moving a task: out of its worker's queue, into the new worker's, and nowhere else. */
  lemma RequeueMoves(s: System, t: TaskId, w: WorkerId, x: WorkerId)
    requires Inv(s) && t in s.ht1 && w != ""
    ensures var q := Requeue(s.ht2, t, s.ht1[t].worker, Some(w));
            NoDuplicates(Queue(q, x)) && (t in Queue(q, x) <==> x == w)
            && forall y :: y != t ==> (y in Queue(q, x) <==> y in Queue(s.ht2, x))
  {
    assert TaskInv(s, t) && QueueInv(s, x);
    WithoutKeepsDistinct(Queue(s.ht2, x), t);
  }

  lemma AttemptKeepsTasks(s: System, t: TaskId, base: Task, failure: Failure, view: View)
    requires Inv(s) && t in s.ht1 && "" !in view.scored
    requires base == s.ht1[t] || base == s.ht1[t].(waiting := false, retryAt := 0)
    ensures var n := AfterAttempt(s, t, Attempt(base, failure, view));
            forall x {:trigger TaskInv(n, x)} :: x in n.ht1 ==> TaskInv(n, x)
  {
    assert TaskInv(s, t);
    var (u, moved) := Attempt(base, failure, view);
    AttemptKeepsBudget(base, failure, view);
    var n := AfterAttempt(s, t, (u, moved));
    if moved.Some? {
      MovedIsNamed(base, failure, view);
    }
    forall x | x in n.ht1 ensures TaskInv(n, x) {
      assert TaskInv(s, x);
      if moved.Some? {
        RequeueMoves(s, t, moved.value, n.ht1[x].worker);
      }
    }
  }

  lemma AttemptKeepsQueues(s: System, t: TaskId, base: Task, failure: Failure, view: View, w: WorkerId)
    requires Inv(s) && t in s.ht1 && "" !in view.scored
    requires base == s.ht1[t] || base == s.ht1[t].(waiting := false, retryAt := 0)
    ensures QueueInv(AfterAttempt(s, t, Attempt(base, failure, view)), w)
  {
    assert QueueInv(s, w) && TaskInv(s, t);
    var moved := Attempt(base, failure, view).1;
    AttemptKeepsBudget(base, failure, view);
    if moved.Some? {
      MovedIsNamed(base, failure, view);
      RequeueMoves(s, t, moved.value, w);
    }
  }

  lemma AttemptKeepsInv(s: System, t: TaskId, base: Task, failure: Failure, view: View)
    requires Inv(s) && t in s.ht1 && "" !in view.scored
    requires base == s.ht1[t] || base == s.ht1[t].(waiting := false, retryAt := 0)
    ensures Inv(AfterAttempt(s, t, Attempt(base, failure, view)))
  {
    assert TaskInv(s, t);
    AttemptKeepsBudget(base, failure, view);
    AttemptKeepsTasks(s, t, base, failure, view);
    var n := AfterAttempt(s, t, Attempt(base, failure, view));
    forall w ensures QueueInv(n, w) {
      AttemptKeepsQueues(s, t, base, failure, view, w);
    }
    TablesOnly(s, n);
  }

  lemma {:induction false} FirstOtherIsListed(scored: seq<WorkerId>, current: WorkerId)
    ensures FirstOther(scored, current).Some? ==> FirstOther(scored, current).value in scored
  {
    if scored != [] {
      FirstOtherIsListed(scored[1..], current);
    }
  }

  /** A task only moves to a worker with a name, and never if it had succeeded. */
  lemma MovedIsNamed(task: Task, failure: Failure, view: View)
    requires "" !in view.scored && Attempt(task, failure, view).1.Some?
    ensures Attempt(task, failure, view).1.value != "" && task.status != SUCCESS
  {
    FirstOtherIsListed(view.scored, task.worker);
  }

  /** The tables are as they were. */
  lemma ProcessesOnly(s: System, n: System)
    requires Inv(s) && n.ht1 == s.ht1 && n.ht2 == s.ht2 && n.reported == s.reported && n.cleanups == s.cleanups
             && n.queuedAt == s.queuedAt
    ensures forall t {:trigger TaskInv(n, t)} :: t in n.ht1 ==> TaskInv(n, t)
    ensures forall w {:trigger QueueInv(n, w)} :: QueueInv(n, w)
  {
    forall t | t in n.ht1 ensures TaskInv(n, t) {
      assert TaskInv(s, t);
    }
    forall w ensures QueueInv(n, w) {
      assert QueueInv(s, w);
    }
  }

  /** A fetched list is duplicate-free and names only tasks queued for the worker. */
  lemma FetchKeepsInv(s: System, w: WorkerId, p: Process)
    requires Inv(s) && p.pos == 0 && (p.view == Queue(s.ht2, w) || p.view == [])
    requires w in s.processes ==> p.seen == s.processes[w].seen && !p.recovering
    requires w !in s.processes ==> p.seen == {}
    ensures Inv(s.(processes := s.processes[w := p]))
  {
    var n := s.(processes := s.processes[w := p]);
    ProcessesOnly(s, n);
    assert QueueInv(s, w);
    forall t | t in p.view ensures t in s.queuedAt && w in s.queuedAt[t] {
      assert TaskInv(s, t);
    }
    forall x | x in n.processes ensures ProcessInv(n, x) {
      if x != w {
        assert ProcessInv(s, x);
      }
    }
    forall t ensures RunsInv(n, t) {
      assert RunsInv(s, t);
    }
  }

  /** A claim of a task that this process has not claimed before. */
  lemma ClaimKeepsInv(s: System, w: WorkerId, execute: bool)
    requires Inv(s) && w in s.processes && s.processes[w].pos < |s.processes[w].view|
    requires execute ==> s.processes[w].view[s.processes[w].pos] !in s.processes[w].seen
    ensures Inv(Claim(s, w, s.processes[w].view[s.processes[w].pos], execute))
  {
    var p := s.processes[w];
    var t := p.view[p.pos];
    var n := Claim(s, w, t, execute);
    ProcessesOnly(s, n);
    assert ProcessInv(s, w);
    assert p.view[..p.pos + 1] == p.view[..p.pos] + [t];
    forall x | x in n.processes ensures ProcessInv(n, x) {
      assert ProcessInv(s, x);
    }
    forall x ensures RunsInv(n, x) {
      assert RunsInv(s, x);
    }
  }

  lemma SkipKeepsInv(s: System, w: WorkerId, p: Process)
    requires Inv(s) && w in s.processes && !p.recovering && p.seen == s.processes[w].seen
    requires (p.view == s.processes[w].view && p.pos <= |p.view|) || (p.view == [] && p.pos == 0)
    ensures Inv(s.(processes := s.processes[w := p]))
  {
    var n := s.(processes := s.processes[w := p]);
    ProcessesOnly(s, n);
    forall x | x in n.processes ensures ProcessInv(n, x) {
      assert ProcessInv(s, x);
    }
    forall t ensures RunsInv(n, t) {
      assert RunsInv(s, t);
    }
  }

  lemma WorkerKeepsInv(s: System, a: Action)
    requires Inv(s) && Enabled(s, a) && (a.Start? || a.RecoverNext? || a.Poll? || a.PollNext?)
    ensures Inv(Do(s, a))
  {
    match a {
      case Start(w, answered) => FetchKeepsInv(s, w, Process(if answered then Queue(s.ht2, w) else [], 0, true, {}));
      case Poll(w, answered) =>
        FetchKeepsInv(s, w, s.processes[w].(view := if answered then Queue(s.ht2, w) else [], pos := 0));
      case RecoverNext(w, answered) =>
        var p := s.processes[w];
        assert ProcessInv(s, w);
        if p.pos >= |p.view| {
          SkipKeepsInv(s, w, p.(view := [], pos := 0, recovering := false));
        } else {
          assert p.view[p.pos] !in p.view[..p.pos];
          ClaimKeepsInv(s, w, answered && p.view[p.pos] in s.ht1 && s.ht1[p.view[p.pos]].status == PENDING);
        }
      case PollNext(w, answered) =>
        var p := s.processes[w];
        var t := p.view[p.pos];
        if !answered || t !in s.ht1 || (s.ht1[t].status == PENDING && t in p.seen) {
          SkipKeepsInv(s, w, p.(pos := p.pos + 1));
        } else {
          ClaimKeepsInv(s, w, s.ht1[t].status == PENDING);
        }
    }
  }

  lemma StepKeepsInv(s: System, a: Action)
    requires Inv(s) && Enabled(s, a)
    ensures Inv(Do(s, a))
  {
    match a {
      case Create(_, _, _, _) => CreateKeepsInv(s, a);
      case Report(_, _, _) => ReportKeepsInv(s, a);
      case Cleanup(_, _) => CleanupKeepsInv(s, a);
      case Recover(t, failure, view) => AttemptKeepsInv(s, t, s.ht1[t], failure, view);
      case RetryAfterWait(t, view) =>
        var task := s.ht1[t];
        AttemptKeepsInv(s, t, task.(waiting := false, retryAt := 0),
                        WaitedFor(task), view);
      case _ => WorkerKeepsInv(s, a);
    }
  }

  // What single steps do

  /** A report leaves the status it names and its result, touches no other record and no queue, and
      schedules the cleanup of the worker's queue exactly if it is a success. */
  lemma ReportMeaning(s: System, t: TaskId, success: bool, result: string)
    requires Enabled(s, Report(t, success, result))
    ensures var n := Do(s, Report(t, success, result));
            && n.ht1.Keys == s.ht1.Keys && IsReported(n.ht1[t], s.ht1[t], success, result)
            && (forall x :: x in s.ht1 && x != t ==> n.ht1[x] == s.ht1[x])
            && n.ht2 == s.ht2 && n.processes == s.processes && n.runs == s.runs
            && (forall c :: c in n.cleanups <==> c in s.cleanups || (success && c == (s.ht1[t].worker, t)))
  {
  }

  /** After its cleanup a finished task is in no queue; all other entries stay. */
  lemma CleanupClears(s: System, w: WorkerId, t: TaskId, x: WorkerId)
    requires Inv(s) && Enabled(s, Cleanup(w, t))
    ensures var n := Do(s, Cleanup(w, t));
            && s.ht1[t].status == SUCCESS && n.ht1 == s.ht1
            && t !in Queue(n.ht2, x) && forall y :: y != t ==> (y in Queue(n.ht2, x) <==> y in Queue(s.ht2, x))
  {
    assert QueueInv(s, x);
    assert (w, t).1 == t && (w, t).0 == w;
  }

  /** The task that a worker's step is about. */
  function Current(s: System, w: WorkerId): Option<TaskId>
  {
    if w in s.processes && s.processes[w].pos < |s.processes[w].view|
    then Some(s.processes[w].view[s.processes[w].pos]) else None
  }

  /** A task is executed only by a step of a worker that comes to it, gets its record and finds it
      PENDING, and that, unless it recovers its list after a start, has not claimed it before. Then it
      is executed once. */
  lemma RunsOnlyPending(s: System, a: Action, t: TaskId)
    requires Enabled(s, a)
    ensures var n := Do(s, a);
            var runs := (a.RecoverNext? || a.PollNext?) && a.answered && Current(s, a.w) == Some(t)
                && t in s.ht1 && s.ht1[t].status == PENDING
                && (a.PollNext? ==> t !in s.processes[a.w].seen);
            n.Runs(t) == if runs then s.Runs(t) + [a.w] else s.Runs(t)
  {
  }

  /** What a worker that comes to a task claims: every task while it recovers, and otherwise every one
      whose record it gets. */
  lemma ClaimMeaning(s: System, a: Action, t: TaskId)
    requires Enabled(s, a) && (a.RecoverNext? || a.PollNext?) && Current(s, a.w).Some?
    ensures var p, u := s.processes[a.w], Do(s, a).processes[a.w];
            && u.pos == p.pos + 1 && u.view == p.view && u.recovering == p.recovering
            && (t in u.seen <==>
                  t in p.seen || (Current(s, a.w) == Some(t) && (a.RecoverNext? || (a.answered && t in s.ht1))))
  {
  }

  // Runs of the whole system

  ghost predicate Legal(s: System, acts: seq<Action>)
    decreases |acts|
  {
    acts == [] || (Enabled(s, acts[0]) && Legal(Do(s, acts[0]), acts[1..]))
  }

  ghost function Exec(s: System, acts: seq<Action>): System
    requires Legal(s, acts)
    decreases |acts|
  {
    if acts == [] then s else Exec(Do(s, acts[0]), acts[1..])
  }

  lemma {:induction false} RunKeepsInv(s: System, acts: seq<Action>)
    requires Inv(s) && Legal(s, acts)
    ensures Inv(Exec(s, acts))
    decreases |acts|
  {
    if acts != [] {
      StepKeepsInv(s, acts[0]);
      RunKeepsInv(Do(s, acts[0]), acts[1..]);
    }
  }

  /** HT1 and HT2 agree after every run: a PENDING task is queued exactly once, under the worker
      its record names, and under no other. */
  lemma TablesAgree(acts: seq<Action>, t: TaskId, w: WorkerId)
    requires Legal(EMPTY, acts) && t in Exec(EMPTY, acts).ht1 && Exec(EMPTY, acts).ht1[t].status == PENDING
    ensures var s := Exec(EMPTY, acts);
            multiset(Queue(s.ht2, w))[t] == if w == s.ht1[t].worker then 1 else 0
  {
    RunKeepsInv(EMPTY, acts);
    var s := Exec(EMPTY, acts);
    assert TaskInv(s, t) && QueueInv(s, w);
    CountOfMember(Queue(s.ht2, w), t);
  }

  lemma {:induction false} CountOfMember(s: seq<TaskId>, t: TaskId)
    requires NoDuplicates(s)
    ensures multiset(s)[t] == if t in s then 1 else 0
  {
    if s != [] {
      CountOfMember(s[1..], t);
      assert s == [s[0]] + s[1..];
    }
  }

  /** However workers crash, poll and report: a task is executed at most 1 + max_attempts times
      over the whole run, and never twice by the same worker process. */
  lemma BoundedExecution(acts: seq<Action>, t: TaskId)
    requires Legal(EMPTY, acts)
    ensures var s := Exec(EMPTY, acts);
            NoDuplicates(s.Runs(t)) && (t !in s.ht1 ==> s.Runs(t) == [])
            && (t in s.ht1 ==> |s.Runs(t)| <= 1 + s.ht1[t].attempts <= 1 + s.ht1[t].maxAttempts)
  {
    RunKeepsInv(EMPTY, acts);
    var s := Exec(EMPTY, acts);
    assert |s.Runs(t)| > 0 ==> s.Runs(t)[0] in s.Runs(t);
    assert RunsInv(s, t);
    if t in s.ht1 {
      assert TaskInv(s, t);
      DistinctFit(s.Runs(t), s.queuedAt[t]);
    }
  }

  lemma {:induction false} DistinctFit(s: seq<WorkerId>, ws: set<WorkerId>)
    requires NoDuplicates(s) && forall w :: w in s ==> w in ws
    ensures |s| <= |ws|
  {
    if s != [] {
      assert s[0] in ws && s[0] !in s[1..];
      DistinctFit(s[1..], ws - {s[0]});
    }
  }

  lemma ClaimIsKept(s: System, a: Action, w: WorkerId, t: TaskId)
    requires Inv(s) && Enabled(s, a) && w in s.processes && t in s.processes[w].seen
    ensures var n := Do(s, a); w in n.processes && t in n.processes[w].seen && (w in n.Runs(t) <==> w in s.Runs(t))
  {
    assert ProcessInv(s, w);
  }

  /** A process that has claimed a task never runs it (again), whatever happens to the record. */
  lemma {:induction false} ClaimedIsNeverRerun(s: System, acts: seq<Action>, w: WorkerId, t: TaskId)
    requires Inv(s) && Legal(s, acts) && w in s.processes && t in s.processes[w].seen
    ensures var n := Exec(s, acts);
            w in n.processes && t in n.processes[w].seen && (w in n.Runs(t) <==> w in s.Runs(t))
    decreases |acts|
  {
    if acts != [] {
      ClaimIsKept(s, acts[0], w, t);
      StepKeepsInv(s, acts[0]);
      ClaimedIsNeverRerun(Do(s, acts[0]), acts[1..], w, t);
    }
  }

  // Which tasks a worker process still runs

  /** How often w has executed t. */
  ghost function RunsBy(s: System, t: TaskId, w: WorkerId): nat {
    multiset(s.Runs(t))[w]
  }

  /** Some continuation lets w execute t. */
  ghost predicate CanStillRun(s: System, t: TaskId, w: WorkerId)
  {
    exists acts :: Legal(s, acts) && RunsBy(Exec(s, acts), t, w) > RunsBy(s, t, w)
  }

  /** t waits for w, whose process has not claimed it. */
  ghost predicate Awaits(s: System, t: TaskId, w: WorkerId)
  {
    t in s.ht1 && s.ht1[t].status == PENDING && w in s.processes && t !in s.processes[w].seen && t in Queue(s.ht2, w)
  }

  lemma Prepend(s: System, a: Action, rest: seq<Action>)
    requires Enabled(s, a) && Legal(Do(s, a), rest)
    ensures Legal(s, [a] + rest) && Exec(s, [a] + rest) == Exec(Do(s, a), rest)
  {
    assert ([a] + rest)[1..] == rest;
  }

  lemma OneStep(s: System, a: Action)
    requires Enabled(s, a)
    ensures Legal(s, [a]) && Exec(s, [a]) == Do(s, a)
  {
    assert [a][1..] == [];
  }

  /** One more entry of the list that is not t. */
  lemma PollPasses(s: System, t: TaskId, w: WorkerId)
    requires Awaits(s, t, w) && !s.processes[w].recovering && s.processes[w].pos < |s.processes[w].view|
    requires var p := s.processes[w]; p.view[p.pos] != t && t in p.view[p.pos..]
    ensures var p, n := s.processes[w], Do(s, PollNext(w, true));
            Awaits(n, t, w) && !n.processes[w].recovering && n.processes[w].view == p.view
                && n.processes[w].pos == p.pos + 1
            && t in p.view[p.pos + 1..]
  {
    var p := s.processes[w];
    assert p.view[p.pos..] == [p.view[p.pos]] + p.view[p.pos + 1..];
  }

  /** The process polls through its list until it comes to t. */
  lemma {:induction false} PollUntil(s: System, t: TaskId, w: WorkerId) returns (acts: seq<Action>)
    requires Awaits(s, t, w) && !s.processes[w].recovering && s.processes[w].pos <= |s.processes[w].view|
    requires t in s.processes[w].view[s.processes[w].pos..]
    ensures Legal(s, acts) && w in Exec(s, acts).Runs(t)
    decreases |s.processes[w].view| - s.processes[w].pos
  {
    var p := s.processes[w];
    var a := PollNext(w, true);
    if p.view[p.pos] == t {
      acts := [a];
      OneStep(s, a);
    } else {
      PollPasses(s, t, w);
      var rest := PollUntil(Do(s, a), t, w);
      acts := [a] + rest;
      Prepend(s, a, rest);
    }
  }

  lemma PollRuns(s: System, t: TaskId, w: WorkerId) returns (acts: seq<Action>)
    requires Awaits(s, t, w) && !s.processes[w].recovering
    ensures Legal(s, acts) && w in Exec(s, acts).Runs(t)
  {
    var a := Poll(w, true);
    assert Queue(s.ht2, w)[0..] == Queue(s.ht2, w);
    var rest := PollUntil(Do(s, a), t, w);
    acts := [a] + rest;
    Prepend(s, a, rest);
  }

  /** A recovering process comes to t in its list, or starts to poll. */
  lemma {:induction false} RecoveryRuns(s: System, t: TaskId, w: WorkerId) returns (acts: seq<Action>)
    requires Awaits(s, t, w) && s.processes[w].recovering
    ensures Legal(s, acts) && w in Exec(s, acts).Runs(t)
    decreases |s.processes[w].view| - s.processes[w].pos
  {
    var p := s.processes[w];
    var a := RecoverNext(w, true);
    if p.pos < |p.view| && p.view[p.pos] == t {
      acts := [a];
      OneStep(s, a);
    } else {
      var rest;
      if p.pos < |p.view| {
        rest := RecoveryRuns(Do(s, a), t, w);
      } else {
        rest := PollRuns(Do(s, a), t, w);
      }
      acts := [a] + rest;
      Prepend(s, a, rest);
    }
  }

  lemma WorkerRuns(s: System, t: TaskId, w: WorkerId) returns (acts: seq<Action>)
    requires t in s.ht1 && s.ht1[t].status == PENDING && t in Queue(s.ht2, w)
    requires w in s.processes ==> t !in s.processes[w].seen
    ensures Legal(s, acts) && w in Exec(s, acts).Runs(t)
  {
    if w !in s.processes {
      var a := Start(w, true);
      var rest := RecoveryRuns(Do(s, a), t, w);
      acts := [a] + rest;
      Prepend(s, a, rest);
    } else if s.processes[w].recovering {
      acts := RecoveryRuns(s, t, w);
    } else {
      acts := PollRuns(s, t, w);
    }
  }

  lemma RunsByIsMembership(s: System, t: TaskId, w: WorkerId)
    requires Inv(s)
    ensures RunsBy(s, t, w) == if w in s.Runs(t) then 1 else 0
  {
    assert RunsInv(s, t);
    CountOfMember(s.Runs(t), w);
  }

  /** The exact condition: the worker of a PENDING task will run it in some continuation if and only
      if it has no process yet, or a process that has not claimed the task. */
  lemma CanStillRunIff(s: System, t: TaskId)
    requires Inv(s) && t in s.ht1 && s.ht1[t].status == PENDING
    ensures var w := s.ht1[t].worker;
            CanStillRun(s, t, w) <==> w !in s.processes || t !in s.processes[w].seen
  {
    var w := s.ht1[t].worker;
    assert TaskInv(s, t) && RunsInv(s, t);
    RunsByIsMembership(s, t, w);
    if w in s.processes && t in s.processes[w].seen {
      forall acts | Legal(s, acts) ensures RunsBy(Exec(s, acts), t, w) == RunsBy(s, t, w) {
        ClaimedIsNeverRerun(s, acts, w, t);
        RunKeepsInv(s, acts);
        RunsByIsMembership(Exec(s, acts), t, w);
      }
    } else {
      var acts := WorkerRuns(s, t, w);
      RunKeepsInv(s, acts);
      RunsByIsMembership(Exec(s, acts), t, w);
    }
  }

  /** So a retry is lost, whichever live worker it goes to and whoever else is live, if and only if
      that worker's process has claimed the task before. */
  lemma RetryIsRunIff(s: System, t: TaskId, failure: Failure, view: View)
    requires Inv(s) && Enabled(s, Recover(t, failure, view)) && Attempt(s.ht1[t], failure, view).1.Some?
    ensures var w, m := Attempt(s.ht1[t], failure, view).1.value, Do(s, Recover(t, failure, view));
            m.ht1[t].worker == w && m.ht1[t].status == PENDING
            && (CanStillRun(m, t, w) <==> w !in s.processes || t !in s.processes[w].seen)
  {
    var m := Do(s, Recover(t, failure, view));
    assert TaskInv(s, t);
    AttemptKeepsBudget(s.ht1[t], failure, view);
    StepKeepsInv(s, Recover(t, failure, view));
    CanStillRunIff(m, t);
  }

  /** When the worker of a task is the only live one, a retry gives the task back to it: the record
      is PENDING again and queued, but that process has claimed the task and will not run it. */
  lemma RetryOnSameWorkerIsLost(s: System, t: TaskId, failure: Failure, view: View, acts: seq<Action>)
    requires Inv(s) && Enabled(s, Recover(t, failure, view)) && !s.ht1[t].waiting && s.ht1[t].status != SUCCESS
    requires ChooseRecoveryPath(s.ht1[t], failure, view.scored != []) == RETRY_DIFFERENT
             && view.scored == [s.ht1[t].worker]
    requires s.ht1[t].worker in s.processes && t in s.processes[s.ht1[t].worker].seen
    requires Legal(Do(s, Recover(t, failure, view)), acts)
    ensures var w := s.ht1[t].worker;
            var m := Do(s, Recover(t, failure, view));
            m.ht1[t].status == PENDING && m.ht1[t].worker == w && t in Queue(m.ht2, w)
            && (w in Exec(m, acts).Runs(t) <==> w in s.Runs(t))
  {
    assert TaskInv(s, t);
    assert view.scored[1..] == [] && FirstOther(view.scored, s.ht1[t].worker) == None;
    StepKeepsInv(s, Recover(t, failure, view));
    ClaimedIsNeverRerun(Do(s, Recover(t, failure, view)), acts, s.ht1[t].worker, t);
  }

  ghost predicate Reachable(s: System)
  {
    exists acts :: Legal(EMPTY, acts) && Exec(EMPTY, acts) == s
  }

  lemma {:induction false} RunOn(s: System, before: seq<Action>, a: Action)
    requires Legal(s, before) && Enabled(Exec(s, before), a)
    ensures Legal(s, before + [a]) && Exec(s, before + [a]) == Do(Exec(s, before), a)
    decreases |before|
  {
    if before == [] {
      OneStep(s, a);
      assert [] + [a] == [a];
    } else {
      RunOn(Do(s, before[0]), before[1..], a);
      Prepend(s, before[0], before[1..] + [a]);
      assert [before[0]] + (before[1..] + [a]) == before + [a];
    }
  }

  ghost function Initially(): (s: System)
    ensures s == EMPTY && Reachable(s)
  {
    assert Legal(EMPTY, []) && Exec(EMPTY, []) == EMPTY;
    EMPTY
  }

  type ReachedSystem = s: System | Reachable(s) ghost witness Initially()

  lemma Take(s: ReachedSystem, a: Action) returns (n: ReachedSystem)
    requires Enabled(s, a)
    ensures n == Do(s, a)
  {
    var acts :| Legal(EMPTY, acts) && Exec(EMPTY, acts) == s;
    RunOn(EMPTY, acts, a);
    n := Do(s, a);
  }

  lemma ReachedInv(s: ReachedSystem)
    ensures Inv(s)
  {
    var acts :| Legal(EMPTY, acts) && Exec(EMPTY, acts) == s;
    RunKeepsInv(EMPTY, acts);
  }

  /** t is the only task, is PENDING at w after some attempts, and v's process has claimed it. */
  ghost predicate OnlyTask(s: System, t: TaskId, w: WorkerId, attempts: nat, v: WorkerId)
  {
    t in s.ht1 && s.ht1[t].worker == w && s.ht1[t].status == PENDING && s.ht1[t].attempts == attempts
    && s.ht1[t].maxAttempts == 3 && !s.ht1[t].waiting && v in s.processes && t in s.processes[v].seen
  }

  /** v starts and executes its first task. */
  lemma RunFirst(t: TaskId, v: WorkerId) returns (s: ReachedSystem)
    requires v != ""
    ensures OnlyTask(s, t, v, 0, v)
  {
    s := Take(Initially(), Create(t, v, true, true));
    assert s.ht1 == map[t := NewTask(v)] && Queue(s.ht2, v) == [t];
    s := Take(s, Start(v, true));
    s := Take(s, RecoverNext(v, true));
  }

  lemma MoveTask(s: ReachedSystem, t: TaskId, from: WorkerId, to: WorkerId, attempts: nat, v: WorkerId,
                 scored: seq<WorkerId>)
    returns (n: ReachedSystem)
    requires OnlyTask(s, t, from, attempts, v) && attempts < 3 && "" !in scored && FirstOther(scored, from) == Some(to)
    ensures OnlyTask(n, t, to, attempts + 1, v)
  {
    n := Take(s, Recover(t, WorkerCrash, View(scored, false, 0)));
  }

  /** A run after which a task is lost although two workers are live: it was executed at v, moved to
      w when v missed its heartbeats, and back to v when w did. */
  lemma RetryCanBeLost(t: TaskId, v: WorkerId, w: WorkerId) returns (s: ReachedSystem)
    requires v != "" && w != "" && v != w
    ensures t in s.ht1 && s.ht1[t].status == PENDING && s.ht1[t].worker == v && !CanStillRun(s, t, v)
  {
    s := RunFirst(t, v);
    s := MoveTask(s, t, v, w, 0, v, [w]);
    s := MoveTask(s, t, w, v, 1, v, [v, w]);
    ReachedInv(s);
    CanStillRunIff(s, t);
  }
}

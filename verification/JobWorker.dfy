/** The worker thread of a node and its pool of job runs (chord/worker.py, lines 15-206). */
module JobWorker {

  type Key = string

  const MAX_JOB_RETRIES := 3
  const JOB_TIMEOUT := 120

  datatype Status = PENDING | CLAIMED | RUNNING | DONE | FAILED

  /** startedAt is 0 while the job has no start time. */
  datatype Job = Job(status: Status, retries: nat, startedAt: nat)

  // What the steps do to one job, each under the node's lock

  function Claimed(job: Job, now: nat): Job {
    job.(status := CLAIMED, startedAt := now)
  }

  predicate TimedOut(job: Job, now: nat) {
    job.status == RUNNING && now - (if job.startedAt == 0 then now else job.startedAt) > JOB_TIMEOUT
  }

  function Reaped(job: Job, now: nat): Job {
    if !TimedOut(job, now) then job
    else if job.retries < MAX_JOB_RETRIES then Job(PENDING, job.retries + 1, 0)
    else job.(status := FAILED)
  }

  /** A job that has been RUNNING for too long is PENDING again with one retry more, or FAILED if it has
      none left; every other job is as it was. */
  predicate IsReaped(u: Job, job: Job, now: nat)
  {
    if job.status == RUNNING && job.startedAt > 0 && now > job.startedAt + JOB_TIMEOUT then
      if job.retries < MAX_JOB_RETRIES then u.status == PENDING && u.retries == job.retries + 1 && u.startedAt == 0
      else u.status == FAILED && u.retries == job.retries && u.startedAt == job.startedAt
    else u == job
  }

  function ReapAll(jobs: map<Key, Job>, now: nat): map<Key, Job> {
    map k | k in jobs :: Reaped(jobs[k], now)
  }

  /** The write a run makes, if the job is still there. */
  function SetStatus(jobs: map<Key, Job>, k: Key, status: Status): map<Key, Job> {
    if k in jobs then jobs[k := jobs[k].(status := status)] else jobs
  }

  function Requeued(jobs: map<Key, Job>, k: Key, next: nat): map<Key, Job> {
    if k in jobs then jobs[k := Job(PENDING, next, 0)] else jobs
  }

  /** The jobs in the data store, which the worker thread changes in place. */
  class JobStore {
    var jobs: map<Key, Job>

    method TryClaim(k: Key, now: nat) returns (claimed: bool)
      modifies this
      ensures claimed == (k in old(jobs) && old(jobs)[k].status == PENDING)
      ensures jobs == if claimed then old(jobs)[k := Claimed(old(jobs)[k], now)] else old(jobs)
      ensures claimed ==> jobs[k] == Job(CLAIMED, old(jobs)[k].retries, now)
    {
      if k !in jobs || jobs[k].status != PENDING {
        return false;
      }
      jobs := jobs[k := jobs[k].(status := CLAIMED, startedAt := now)];
      return true;
    }

    /** keys: the keys of the store, in its order. */
    method ReapTimedOut(keys: seq<Key>, now: nat)
      requires (forall i, j :: 0 <= i < j < |keys| ==> keys[i] != keys[j]) && forall k :: k in keys <==> k in jobs
      modifies this
      ensures jobs == ReapAll(old(jobs), now) && jobs.Keys == old(jobs).Keys
      ensures forall k :: k in jobs ==> IsReaped(jobs[k], old(jobs)[k], now)
    {
      for i := 0 to |keys|
        invariant jobs.Keys == old(jobs).Keys
        invariant forall j :: 0 <= j < i ==> jobs[keys[j]] == Reaped(old(jobs)[keys[j]], now)
        invariant forall j :: i <= j < |keys| ==> jobs[keys[j]] == old(jobs)[keys[j]]
      {
        var v := jobs[keys[i]];
        if v.status == RUNNING {
          var started := if v.startedAt == 0 then now else v.startedAt;
          if now - started > JOB_TIMEOUT {
            if v.retries < MAX_JOB_RETRIES {
              jobs := jobs[keys[i] := v.(status := PENDING, retries := v.retries + 1, startedAt := 0)];
            } else {
              jobs := jobs[keys[i] := v.(status := FAILED)];
            }
          }
        }
      }
      forall k | k in jobs ensures jobs[k] == Reaped(old(jobs)[k], now) {
        assert k in keys;
      }
    }
  }

  // The worker thread and its runs, step by step

  /** How far a run is: handed to the pool, executing, asleep before it queues the job again with
      the retry count it has worked out, about to write FAILED, or over. */
  datatype Stage = Submitted | Executing | Sleeping(next: nat) | GivingUp | Ended

  datatype Run = Run(key: Key, stage: Stage)

  /** clock: time of the last step that read it. todo: what is left of the list of the last scan.
      episodes: how often a job became PENDING; claims and executions: how often it was claimed and
      started. */
  datatype System = System(clock: nat, jobs: map<Key, Job>, todo: seq<Key>, runs: map<nat, Run>,
                           episodes: map<Key, nat>, claims: map<Key, nat>, executions: map<Key, nat>)

  const EMPTY := System(1, map[], [], map[], map[], map[], map[])

  function Count(m: map<Key, nat>, k: Key): nat {
    if k in m then m[k] else 0
  }

  datatype Action =
    | Submit(k: Key)
    | Scan(found: seq<Key>)
    | TryClaim(id: nat, now: nat)
    | Reap(now: nat)
    | Begin(id: nat)
    | Succeed(id: nat)
    | Fail(id: nat)
    | QueueAgain(id: nat)
    | GiveUp(id: nat)

  predicate AtStage(s: System, id: nat, stage: Stage) {
    id in s.runs && s.runs[id].stage == stage
  }

  ghost predicate Enabled(s: System, a: Action)
  {
    match a
    case Submit(k) => k !in s.jobs
    case Scan(found) => s.todo == [] && forall k :: k in found <==> k in s.jobs && s.jobs[k].status == PENDING
    case TryClaim(id, now) => s.todo != [] && id !in s.runs && now >= s.clock
    case Reap(now) => s.todo == [] && now >= s.clock
    case Begin(id) => AtStage(s, id, Submitted)
    case Succeed(id) => AtStage(s, id, Executing)
    case Fail(id) => AtStage(s, id, Executing)
    case QueueAgain(id) => id in s.runs && s.runs[id].stage.Sleeping?
    case GiveUp(id) => AtStage(s, id, GivingUp)
  }

  predicate IsPending(jobs: map<Key, Job>, k: Key) {
    k in jobs && jobs[k].status == PENDING
  }

  /** Store the jobs, and count those that became PENDING. */
  function Store(s: System, jobs: map<Key, Job>): System {
    s.(jobs := jobs,
       episodes := map k | k in jobs :: Count(s.episodes, k) + if IsPending(jobs, k) && !IsPending(s.jobs, k) then 1
           else 0)
  }

  function ToStage(s: System, id: nat, stage: Stage): System
    requires id in s.runs
  {
    s.(runs := s.runs[id := s.runs[id].(stage := stage)])
  }

  ghost function Do(s: System, a: Action): System
    requires Enabled(s, a)
  {
    match a
    case Submit(k) => Store(s, s.jobs[k := Job(PENDING, 0, 0)])
    case Scan(found) => s.(todo := found)
    case TryClaim(id, now) =>
      var k := s.todo[0];
      var n := s.(clock := now, todo := s.todo[1..]);
      if !IsPending(s.jobs, k) then n
      else
        Store(n, s.jobs[k := Claimed(s.jobs[k], now)]).(
          runs := s.runs[id := Run(k, Submitted)], claims := s.claims[k := Count(s.claims, k) + 1])
    case Reap(now) => Store(s, ReapAll(s.jobs, now)).(clock := now)
    case Begin(id) =>
      var k := s.runs[id].key;
      ToStage(Store(s, SetStatus(s.jobs, k, RUNNING)), id,
          Executing).(executions := s.executions[k := Count(s.executions, k) + 1])
    case Succeed(id) => ToStage(Store(s, SetStatus(s.jobs, s.runs[id].key, DONE)), id, Ended)
    case Fail(id) =>
      var k := s.runs[id].key;
      var retries := if k in s.jobs then s.jobs[k].retries else MAX_JOB_RETRIES;
      ToStage(s, id, if retries < MAX_JOB_RETRIES then Sleeping(retries + 1) else GivingUp)
    case QueueAgain(id) => ToStage(Store(s, Requeued(s.jobs, s.runs[id].key, s.runs[id].stage.next)), id, Ended)
    case GiveUp(id) => ToStage(Store(s, SetStatus(s.jobs, s.runs[id].key, FAILED)), id, Ended)
  }

  ghost predicate Legal(s: System, acts: seq<Action>)
    decreases |acts|
  {
    acts == [] || (Enabled(s, acts[0]) && Legal(Do(s, acts[0]), acts[1..]))
  }

  ghost function Exec(s: System, acts: seq<Action>): System
    requires Legal(s, acts)
    decreases |acts|
  {
    if acts == [] then s else Exec(Do(s, acts[0]), acts[1..])
  }

  lemma TwoSteps(s: System, a: Action, b: Action)
    requires Enabled(s, a) && Enabled(Do(s, a), b)
    ensures Legal(s, [a, b]) && Exec(s, [a, b]) == Do(Do(s, a), b)
  {
    assert [a, b][1..] == [b] && [b][1..] == [];
    assert Exec(Do(s, a), [b]) == Do(Do(s, a), b);
  }

  /** What becomes of a claimed job if nobody else writes to it: it is RUNNING while it executes and
      DONE if it succeeds. Other jobs are not touched. */
  lemma RunSucceeds(s: System, id: nat)
    requires AtStage(s, id, Submitted) && s.runs[id].key in s.jobs
    ensures var k, acts := s.runs[id].key, [Begin(id), Succeed(id)];
            Do(s, Begin(id)).jobs == s.jobs[k := s.jobs[k].(status := RUNNING)]
            && Legal(s, acts) && Exec(s, acts).jobs == s.jobs[k := s.jobs[k].(status := DONE)]
            && AtStage(Exec(s, acts), id, Ended)
  {
    TwoSteps(s, Begin(id), Succeed(id));
  }

  /** If it fails it is PENDING again with one retry more, or FAILED when it has had all its retries. */
  lemma RunFails(s: System, id: nat)
    requires AtStage(s, id, Executing) && s.runs[id].key in s.jobs
    ensures var k, job := s.runs[id].key, s.jobs[s.runs[id].key];
            var acts := [Fail(id), if job.retries < MAX_JOB_RETRIES then QueueAgain(id) else GiveUp(id)];
            Do(s, Fail(id)).jobs == s.jobs && Legal(s, acts)
            && Exec(s, acts).jobs == s.jobs[k := if job.retries < MAX_JOB_RETRIES then Job(PENDING, job.retries + 1, 0)
                                                 else job.(status := FAILED)]
            && AtStage(Exec(s, acts), id, Ended)
  {
    var k := s.runs[id].key;
    TwoSteps(s, Fail(id), if s.jobs[k].retries < MAX_JOB_RETRIES then QueueAgain(id) else GiveUp(id));
  }

  // Every run, with or without timeouts

  predicate OfRun(a: Action) {
    a.Begin? || a.Succeed? || a.Fail? || a.QueueAgain? || a.GiveUp?
  }

  ghost predicate JobInv(s: System, k: Key)
    requires k in s.jobs
  {
    s.jobs[k].retries <= MAX_JOB_RETRIES
    && Count(s.claims, k) + (if IsPending(s.jobs, k) then 1 else 0) <= Count(s.episodes, k)
  }

  ghost predicate RunInv(s: System, id: nat)
    requires id in s.runs
  {
    s.runs[id].key in s.jobs && (s.runs[id].stage.Sleeping? ==> s.runs[id].stage.next <= MAX_JOB_RETRIES)
  }

  ghost predicate Inv(s: System)
  {
    (forall k {:trigger JobInv(s, k)} :: k in s.jobs ==> JobInv(s, k))
    && (forall id {:trigger RunInv(s, id)} :: id in s.runs ==> RunInv(s, id))
    && s.claims.Keys <= s.jobs.Keys && s.executions.Keys <= s.jobs.Keys
  }

  lemma StepKeepsRetries(s: System, a: Action, k: Key)
    requires Inv(s) && Enabled(s, a) && k in Do(s, a).jobs
    ensures Do(s, a).jobs[k].retries <= MAX_JOB_RETRIES
  {
    assert k in s.jobs ==> JobInv(s, k);
    assert OfRun(a) ==> RunInv(s, a.id);
  }

  lemma StepKeepsClaims(s: System, a: Action, k: Key)
    requires Inv(s) && Enabled(s, a) && k in Do(s, a).jobs
    ensures var n := Do(s, a); Count(n.claims, k) + (if IsPending(n.jobs, k) then 1 else 0) <= Count(n.episodes, k)
  {
    assert k in s.jobs ==> JobInv(s, k);
  }

  lemma StepKeepsRun(s: System, a: Action, id: nat)
    requires Inv(s) && Enabled(s, a) && id in Do(s, a).runs
    ensures RunInv(Do(s, a), id)
  {
    assert id in s.runs ==> RunInv(s, id);
  }

  lemma StepKeepsInv(s: System, a: Action)
    requires Inv(s) && Enabled(s, a)
    ensures Inv(Do(s, a))
  {
    var n := Do(s, a);
    assert OfRun(a) ==> RunInv(s, a.id);
    forall k | k in n.jobs ensures JobInv(n, k) {
      StepKeepsRetries(s, a, k);
      StepKeepsClaims(s, a, k);
    }
    forall id | id in n.runs ensures RunInv(n, id) {
      StepKeepsRun(s, a, id);
    }
  }

  lemma {:induction false} RunKeepsInv(s: System, acts: seq<Action>)
    requires Inv(s) && Legal(s, acts)
    ensures Inv(Exec(s, acts))
    decreases |acts|
  {
    if acts != [] {
      StepKeepsInv(s, acts[0]);
      RunKeepsInv(Do(s, acts[0]), acts[1..]);
    }
  }

  /** Whatever the interleaving and however many timeouts: the retry count stays within its limit,
      and a job is claimed at most once for each time it became PENDING. */
  lemma RetriesAndClaimsBounded(acts: seq<Action>, k: Key)
    requires Legal(EMPTY, acts) && k in Exec(EMPTY, acts).jobs
    ensures var s := Exec(EMPTY, acts);
            s.jobs[k].retries <= MAX_JOB_RETRIES
            && Count(s.claims, k) <= Count(s.episodes, k)
            && (s.jobs[k].status == PENDING ==> Count(s.claims, k) < Count(s.episodes, k))
  {
    RunKeepsInv(EMPTY, acts);
    assert JobInv(Exec(EMPTY, acts), k);
  }

  // The retry budget

  /** The write of a run that slept: it takes back retries that were counted meanwhile, or counts
      none although the job becomes PENDING once more. */
  ghost predicate TakesBackRetry(s: System, a: Action, k: Key)
  {
    a.QueueAgain? && Enabled(s, a) && s.runs[a.id].key == k && k in s.jobs
    && s.runs[a.id].stage.next < s.jobs[k].retries + if IsPending(s.jobs, k) then 0 else 1
  }

  /** Retries that are counted but not yet used by a new episode. */
  ghost function Credit(s: System, k: Key): int
    requires k in s.jobs
  {
    1 + s.jobs[k].retries - Count(s.episodes, k)
  }

  /** The exact step that overdraws the retry budget, timeouts or not. */
  lemma CreditFallsIff(s: System, a: Action, k: Key)
    requires Inv(s) && Enabled(s, a) && k in s.jobs
    ensures k in Do(s, a).jobs && (Credit(Do(s, a), k) < Credit(s, k) <==> TakesBackRetry(s, a, k))
  {
    assert JobInv(s, k);
    assert OfRun(a) ==> RunInv(s, a.id);
  }

  /** Claimed runs of k that have not started. */
  ghost function Waiting(s: System, k: Key): set<nat>
  {
    set id | id in s.runs && s.runs[id] == Run(k, Submitted)
  }

  /** Every execution was claimed. */
  ghost predicate Started(s: System, k: Key)
  {
    Count(s.executions, k) + |Waiting(s, k)| == Count(s.claims, k)
  }

  lemma BeginKeepsStarted(s: System, id: nat, k: Key)
    requires AtStage(s, id, Submitted) && Started(s, k)
    ensures Started(Do(s, Begin(id)), k)
  {
    var n := Do(s, Begin(id));
    assert Waiting(n, k) == Waiting(s, k) - {id};
  }

  lemma ClaimKeepsStarted(s: System, a: Action, k: Key)
    requires a.TryClaim? && Enabled(s, a) && Started(s, k)
    ensures Started(Do(s, a), k)
  {
    var n := Do(s, a);
    if IsPending(s.jobs, s.todo[0]) && s.todo[0] == k {
      assert Waiting(n, k) == Waiting(s, k) + {a.id};
    } else {
      assert Waiting(n, k) == Waiting(s, k);
    }
  }

  lemma StepKeepsStarted(s: System, a: Action, k: Key)
    requires Enabled(s, a) && Started(s, k)
    ensures Started(Do(s, a), k)
  {
    if a.Begin? {
      BeginKeepsStarted(s, a.id, k);
    } else if a.TryClaim? {
      ClaimKeepsStarted(s, a, k);
    } else {
      assert Waiting(Do(s, a), k) == Waiting(s, k);
    }
  }

  ghost predicate NothingTakenBack(s: System, acts: seq<Action>, k: Key)
    requires Legal(s, acts)
    decreases |acts|
  {
    acts == [] || (!TakesBackRetry(s, acts[0], k) && NothingTakenBack(Do(s, acts[0]), acts[1..], k))
  }

  ghost predicate InBudget(s: System, k: Key)
  {
    Inv(s) && Started(s, k) && (k in s.jobs ==> Credit(s, k) >= 0) && (k !in s.jobs ==> Count(s.executions, k) == 0)
  }

  lemma {:induction false} RunKeepsBudget(s: System, acts: seq<Action>, k: Key)
    requires Legal(s, acts) && NothingTakenBack(s, acts, k) && InBudget(s, k)
    requires k !in s.jobs ==> Count(s.episodes, k) == 0
    ensures InBudget(Exec(s, acts), k)
    decreases |acts|
  {
    if acts != [] {
      StepKeepsInv(s, acts[0]);
      StepKeepsStarted(s, acts[0], k);
      if k in s.jobs {
        CreditFallsIff(s, acts[0], k);
      }
      RunKeepsBudget(Do(s, acts[0]), acts[1..], k);
    }
  }

  /** In every interleaving, with any timeouts: a job is executed at most MAX_JOB_RETRIES + 1 times
      if no run that slept takes back a retry. */
  lemma BudgetHoldsIfRequeuesRaise(acts: seq<Action>, k: Key)
    requires Legal(EMPTY, acts) && NothingTakenBack(EMPTY, acts, k)
    ensures Count(Exec(EMPTY, acts).executions, k) <= MAX_JOB_RETRIES + 1
  {
    assert Waiting(EMPTY, k) == {};
    RunKeepsBudget(EMPTY, acts, k);
    var s := Exec(EMPTY, acts);
    if k in s.jobs {
      assert JobInv(s, k);
    }
  }

  // Runs without timeouts

  predicate Finished(s: System, k: Key) {
    k in s.jobs && (s.jobs[k].status == DONE || s.jobs[k].status == FAILED)
  }

  /** No reaping in the run finds a timed-out job. */
  ghost predicate NoTimeouts(s: System, acts: seq<Action>)
    requires Legal(s, acts)
    decreases |acts|
  {
    acts == []
    || (NoTimeout(s, acts[0]) && NoTimeouts(Do(s, acts[0]), acts[1..]))
  }

  /** What the stage of a run says about its job when nothing times out. */
  ghost predicate QuietRun(s: System, id: nat)
    requires id in s.runs
  {
    var k := s.runs[id].key;
    k in s.jobs
    && match s.runs[id].stage
       case Submitted => s.jobs[k].status == CLAIMED
       case Executing => s.jobs[k].status == RUNNING
       case Sleeping(next) => s.jobs[k].status == RUNNING && next == s.jobs[k].retries + 1
       case GivingUp => s.jobs[k].status == RUNNING
       case Ended => true
  }

  /** Executions so far: the retries, and the one under way or final. */
  ghost predicate QuietJob(s: System, k: Key)
    requires k in s.jobs
  {
    Count(s.executions, k) == s.jobs[k].retries + if s.jobs[k].status == PENDING || s.jobs[k].status == CLAIMED
        then 0 else 1
  }

  /** No two runs of one job are under way. */
  ghost predicate Apart(s: System, i: nat, j: nat)
    requires i in s.runs && j in s.runs
  {
    s.runs[i].key == s.runs[j].key && !s.runs[i].stage.Ended? && !s.runs[j].stage.Ended? ==> i == j
  }

  ghost predicate Quiet(s: System)
  {
    Inv(s)
    && (forall id {:trigger QuietRun(s, id)} :: id in s.runs ==> QuietRun(s, id))
    && (forall k {:trigger QuietJob(s, k)} :: k in s.jobs ==> QuietJob(s, k))
    && (forall i, j {:trigger Apart(s, i, j)} :: i in s.runs && j in s.runs ==> Apart(s, i, j))
  }

  predicate NoTimeout(s: System, a: Action) {
    a.Reap? ==> forall k :: k in s.jobs ==> !TimedOut(s.jobs[k], a.now)
  }

  lemma StepKeepsQuietRun(s: System, a: Action, id: nat)
    requires Quiet(s) && Enabled(s, a) && NoTimeout(s, a) && id in Do(s, a).runs
    ensures QuietRun(Do(s, a), id)
  {
    assert id in s.runs ==> QuietRun(s, id);
    assert OfRun(a) ==> QuietRun(s, a.id);
    assert OfRun(a) && id in s.runs ==> Apart(s, a.id, id);
  }

  lemma StepKeepsQuietJob(s: System, a: Action, k: Key)
    requires Quiet(s) && Enabled(s, a) && NoTimeout(s, a)
    ensures k in Do(s, a).jobs ==> QuietJob(Do(s, a), k)
    ensures Finished(s, k) ==> k in Do(s, a).jobs && Do(s, a).jobs[k] == s.jobs[k]
  {
    assert k in s.jobs ==> QuietJob(s, k);
    assert OfRun(a) ==> QuietRun(s, a.id);
  }

  lemma StepKeepsApart(s: System, a: Action, i: nat, j: nat)
    requires Quiet(s) && Enabled(s, a) && i in Do(s, a).runs && j in Do(s, a).runs
    ensures Apart(Do(s, a), i, j)
  {
    assert i in s.runs ==> QuietRun(s, i);
    assert j in s.runs ==> QuietRun(s, j);
    assert i in s.runs && j in s.runs ==> Apart(s, i, j);
  }

  lemma StepKeepsQuiet(s: System, a: Action)
    requires Quiet(s) && Enabled(s, a) && NoTimeout(s, a)
    ensures Quiet(Do(s, a))
  {
    StepKeepsInv(s, a);
    var n := Do(s, a);
    forall id | id in n.runs ensures QuietRun(n, id) {
      StepKeepsQuietRun(s, a, id);
    }
    forall k | k in n.jobs ensures QuietJob(n, k) {
      StepKeepsQuietJob(s, a, k);
    }
    forall i, j | i in n.runs && j in n.runs ensures Apart(n, i, j) {
      StepKeepsApart(s, a, i, j);
    }
  }

  lemma {:induction false} RunKeepsQuiet(s: System, acts: seq<Action>, k: Key)
    requires Quiet(s) && Legal(s, acts) && NoTimeouts(s, acts)
    ensures Quiet(Exec(s, acts))
    ensures Finished(s, k) ==> k in Exec(s, acts).jobs && Exec(s, acts).jobs[k] == s.jobs[k]
    decreases |acts|
  {
    if acts != [] {
      StepKeepsQuiet(s, acts[0]);
      StepKeepsQuietJob(s, acts[0], k);
      RunKeepsQuiet(Do(s, acts[0]), acts[1..], k);
    }
  }

  /** Without timeouts, a job is executed at most MAX_JOB_RETRIES + 1 times, and DONE and FAILED
      are final. */
  lemma QuietRunsAreBounded(before: seq<Action>, after: seq<Action>, k: Key)
    requires Legal(EMPTY, before) && NoTimeouts(EMPTY, before)
    requires Legal(Exec(EMPTY, before), after) && NoTimeouts(Exec(EMPTY, before), after)
    ensures var s, n := Exec(EMPTY, before), Exec(Exec(EMPTY, before), after);
            && Count(n.executions, k) <= MAX_JOB_RETRIES + 1
            && (Finished(s, k) ==> k in n.jobs && n.jobs[k] == s.jobs[k])
  {
    RunKeepsQuiet(EMPTY, before, k);
    RunKeepsQuiet(Exec(EMPTY, before), after, k);
    var n := Exec(Exec(EMPTY, before), after);
    if k in n.jobs {
      assert QuietJob(n, k) && JobInv(n, k);
    }
  }

  // Finished jobs when there are timeouts

  /** A run is left over that will still write another status. */
  predicate Leftover(s: System, id: nat, k: Key) {
    id in s.runs && s.runs[id].key == k
    && match s.runs[id].stage
       case Ended => false
       case GivingUp => k in s.jobs && s.jobs[k].status == DONE
       case _ => true
  }

  ghost predicate CanReopen(s: System, k: Key) {
    exists id :: Leftover(s, id, k)
  }

  lemma StepKeepsFinal(s: System, a: Action, k: Key)
    requires Enabled(s, a) && Finished(s, k) && !CanReopen(s, k)
    ensures Finished(Do(s, a), k) && !CanReopen(Do(s, a), k) && Do(s, a).jobs[k].status == s.jobs[k].status
  {
    var n := Do(s, a);
    assert OfRun(a) && s.runs[a.id].key == k ==> !Leftover(s, a.id, k);
    forall id ensures !Leftover(n, id, k) {
      assert !Leftover(s, id, k);
    }
  }

  lemma {:induction false} RunKeepsFinal(s: System, acts: seq<Action>, k: Key)
    requires Legal(s, acts) && Finished(s, k) && !CanReopen(s, k)
    ensures k in Exec(s, acts).jobs && Exec(s, acts).jobs[k].status == s.jobs[k].status
    decreases |acts|
  {
    if acts != [] {
      StepKeepsFinal(s, acts[0], k);
      RunKeepsFinal(Do(s, acts[0]), acts[1..], k);
    }
  }

  /** Steps of a left-over run that change the status of its finished job. */
  lemma LeftoverReopens(s: System, id: nat, k: Key) returns (acts: seq<Action>)
    requires Finished(s, k) && Leftover(s, id, k)
    ensures Legal(s, acts) && k in Exec(s, acts).jobs && Exec(s, acts).jobs[k].status != s.jobs[k].status
  {
    match s.runs[id].stage {
      case Submitted => acts := [Begin(id)];
      case Sleeping(_) => acts := [QueueAgain(id)];
      case GivingUp => acts := [GiveUp(id)];
      case Executing =>
        if s.jobs[k].status == FAILED {
          acts := [Succeed(id)];
        } else {
          acts := [Fail(id), if s.jobs[k].retries < MAX_JOB_RETRIES then QueueAgain(id) else GiveUp(id)];
          var m := Do(s, acts[0]);
          assert acts[1..] == [acts[1]] && Enabled(m, acts[1]);
          assert acts[1..][1..] == [];
          assert Exec(m, acts[1..]) == Do(m, acts[1]);
        }
    }
  }

  /** The exact condition: a finished job keeps its status in every continuation if and only if no
      earlier run of it, superseded by a timeout, is still under way. */
  lemma FinalIffNoLeftover(s: System, k: Key)
    requires Finished(s, k)
    ensures !CanReopen(s, k) <==>
            forall acts :: Legal(s, acts) ==>
              k in Exec(s, acts).jobs && Exec(s, acts).jobs[k].status == s.jobs[k].status
  {
    if CanReopen(s, k) {
      var id :| Leftover(s, id, k);
      var acts := LeftoverReopens(s, id, k);
      assert Legal(s, acts);
    } else {
      forall acts | Legal(s, acts) ensures k in Exec(s, acts).jobs && Exec(s, acts).jobs[k].status == s.jobs[k].status {
        RunKeepsFinal(s, acts, k);
      }
    }
  }

  lemma {:induction false} RunOn(s: System, before: seq<Action>, a: Action)
    requires Legal(s, before) && Enabled(Exec(s, before), a)
    ensures Legal(s, before + [a]) && Exec(s, before + [a]) == Do(Exec(s, before), a)
    decreases |before|
  {
    if before == [] {
      assert [a][1..] == [];
    } else {
      assert (before + [a])[1..] == before[1..] + [a];
      RunOn(Do(s, before[0]), before[1..], a);
    }
  }

  /** s comes up in some run of the system. */
  ghost predicate Reachable(s: System)
  {
    exists acts :: Legal(EMPTY, acts) && Exec(EMPTY, acts) == s
  }

  ghost function Initially(): (s: System)
    ensures s == EMPTY && Reachable(s)
  {
    assert Legal(EMPTY, []) && Exec(EMPTY, []) == EMPTY;
    EMPTY
  }

  type ReachedSystem = s: System | Reachable(s) ghost witness Initially()

  lemma Take(s: ReachedSystem, a: Action) returns (n: ReachedSystem)
    requires Enabled(s, a)
    ensures n == Do(s, a)
  {
    var acts :| Legal(EMPTY, acts) && Exec(EMPTY, acts) == s;
    RunOn(EMPTY, acts, a);
    n := Do(s, a);
  }

  /** k is the only job, nothing is left of the last scan, and k was executed count times. */
  ghost predicate OnlyJob(s: System, k: Key, status: Status, retries: nat, count: nat)
  {
    s.jobs.Keys == {k} && s.jobs[k].status == status && s.jobs[k].retries == retries
    && s.jobs[k].startedAt <= s.clock && s.clock > 0 && (status != PENDING ==> s.jobs[k].startedAt > 0)
    && s.todo == [] && Count(s.executions, k) == count
  }

  // Steps of the only job

  lemma ScanStep(s: ReachedSystem, k: Key, retries: nat, count: nat) returns (n: ReachedSystem)
    requires OnlyJob(s, k, PENDING, retries, count)
    ensures n == s.(todo := [k])
  {
    n := Take(s, Scan([k]));
  }

  lemma ClaimStep(s: ReachedSystem, k: Key, retries: nat, count: nat, id: nat) returns (n: ReachedSystem)
    requires OnlyJob(s.(todo := []), k, PENDING, retries, count) && s.todo == [k] && id !in s.runs
    ensures OnlyJob(n, k, CLAIMED, retries, count) && n.runs == s.runs[id := Run(k, Submitted)]
  {
    n := Take(s, TryClaim(id, s.clock));
  }

  lemma BeginStep(s: ReachedSystem, k: Key, retries: nat, count: nat, id: nat) returns (n: ReachedSystem)
    requires OnlyJob(s, k, CLAIMED, retries, count) && AtStage(s, id, Submitted) && s.runs[id].key == k
    ensures OnlyJob(n, k, RUNNING, retries, count + 1) && n.runs == s.runs[id := Run(k, Executing)]
  {
    n := Take(s, Begin(id));
  }

  lemma ReapStep(s: ReachedSystem, k: Key, retries: nat, count: nat) returns (n: ReachedSystem)
    requires OnlyJob(s, k, RUNNING, retries, count) && retries < MAX_JOB_RETRIES
    ensures OnlyJob(n, k, PENDING, retries + 1, count) && n.runs == s.runs
  {
    n := Take(s, Reap(s.clock + 200));
  }

  lemma FailStep(s: ReachedSystem, k: Key, retries: nat, count: nat, id: nat) returns (n: ReachedSystem)
    requires OnlyJob(s, k, RUNNING, retries, count) && AtStage(s, id, Executing) && s.runs[id].key == k
    requires retries < MAX_JOB_RETRIES
    ensures OnlyJob(n, k, RUNNING, retries, count) && n.runs == s.runs[id := Run(k, Sleeping(retries + 1))]
  {
    n := Take(s, Fail(id));
  }

  lemma QueueAgainStep(s: ReachedSystem, k: Key, status: Status, retries: nat, next: nat, count: nat, id: nat)
    returns (n: ReachedSystem)
    requires OnlyJob(s, k, status, retries, count) && AtStage(s, id, Sleeping(next)) && s.runs[id].key == k
    ensures OnlyJob(n, k, PENDING, next, count) && n.runs == s.runs[id := Run(k, Ended)]
  {
    n := Take(s, QueueAgain(id));
  }

  lemma SubmitStep(k: Key) returns (s: ReachedSystem)
    ensures OnlyJob(s, k, PENDING, 0, 0) && s.runs == map[]
  {
    s := Take(Initially(), Submit(k));
  }

  /** The waiting job is scanned, claimed and started. */
  lemma StartOnce(s: ReachedSystem, k: Key, retries: nat, count: nat, id: nat) returns (n: ReachedSystem)
    requires OnlyJob(s, k, PENDING, retries, count) && id !in s.runs
    ensures OnlyJob(n, k, RUNNING, retries, count + 1) && n.runs == s.runs[id := Run(k, Executing)]
  {
    n := ScanStep(s, k, retries, count);
    n := ClaimStep(n, k, retries, count, id);
    n := BeginStep(n, k, retries, count, id);
  }

  /** The first run of the only job, just started. */
  lemma StartFirst(k: Key) returns (s: ReachedSystem)
    ensures OnlyJob(s, k, RUNNING, 0, 1) && s.runs == map[0 := Run(k, Executing)]
  {
    s := SubmitStep(k);
    s := StartOnce(s, k, 0, 0, 0);
  }

  /** Timeouts do leave such runs: a job that timed out is claimed again, and then its first run
      finishes. */
  lemma TimeoutLeavesRun(k: Key) returns (s: ReachedSystem)
    ensures Finished(s, k) && CanReopen(s, k)
  {
    s := StartFirst(k);
    s := ReapStep(s, k, 0, 1);
    s := ScanStep(s, k, 1, 1);
    s := ClaimStep(s, k, 1, 1, 1);
    s := Take(s, Succeed(0));
    assert Leftover(s, 1, k);
  }

  /** A run has failed and sleeps, and meanwhile its job is timed out. */
  lemma SleepThroughTimeout(k: Key) returns (s: ReachedSystem)
    ensures OnlyJob(s, k, PENDING, 1, 1) && s.runs == map[0 := Run(k, Sleeping(1))]
  {
    s := StartFirst(k);
    s := FailStep(s, k, 0, 1, 0);
    s := ReapStep(s, k, 0, 1);
  }

  /** A run fails, the reaper queues the job again while that run sleeps, the next run starts, and
      then the first one queues the job once more: two executions for one retry. */
  lemma LostRetry(k: Key) returns (s: ReachedSystem)
    ensures OnlyJob(s, k, PENDING, 1, 2) && s.runs == map[0 := Run(k, Ended), 1 := Run(k, Executing)]
  {
    s := SleepThroughTimeout(k);
    s := StartOnce(s, k, 1, 1, 1);
    s := QueueAgainStep(s, k, RUNNING, 1, 1, 2, 0);
  }

  lemma FailOnce(s: ReachedSystem, k: Key, retries: nat, count: nat, id: nat) returns (n: ReachedSystem)
    requires OnlyJob(s, k, PENDING, retries, count) && id !in s.runs && retries < MAX_JOB_RETRIES
    ensures OnlyJob(n, k, PENDING, retries + 1, count + 1) && n.runs == s.runs[id := Run(k, Ended)]
  {
    n := StartOnce(s, k, retries, count, id);
    n := FailStep(n, k, retries, count + 1, id);
    n := QueueAgainStep(n, k, RUNNING, retries, retries + 1, count + 1, id);
  }

  /** With timeouts the retry budget does not bound executions. */
  lemma TimeoutExceedsBudget(k: Key) returns (s: ReachedSystem)
    ensures Count(s.executions, k) > MAX_JOB_RETRIES + 1
  {
    s := LostRetry(k);
    for i := 1 to MAX_JOB_RETRIES
      invariant OnlyJob(s, k, PENDING, i, i + 1) && forall id :: id in s.runs ==> id <= i
    {
      s := FailOnce(s, k, i, i + 1, i + 1);
    }
    s := StartOnce(s, k, MAX_JOB_RETRIES, MAX_JOB_RETRIES + 1, MAX_JOB_RETRIES + 1);
  }
}

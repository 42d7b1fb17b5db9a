/** Placement of auto-assigned tasks by worker score (chord/worker_registry.py, lines 31-56, 86-125
    and 176-229; chord/server.py, lines 2403-2437; chord/worker_config.py, lines 14-17). Scores are
    exact reals. */
module Placement {
  import opened Recovery
  import opened Rebalancing
  import opened Wrappers

  const WEIGHT_LOAD := 0.5
  const WEIGHT_LATENCY := 0.3
  const WEIGHT_AVAILABILITY := 0.2
  const LATENCY_NORMALIZATION_MS := 100.0

  datatype Metrics = Metrics(pendingTasks: int, latencyMs: real)

  datatype Stats = Stats(total: nat, successful: nat, failed: nat)
  {
    function SuccessRate(): (r: real)
      ensures successful <= total ==> 0.0 <= r <= 1.0
    {
      if total == 0 then 1.0
      else
        assert successful <= total ==> successful as real / total as real <= 1.0;
        successful as real / total as real
    }
  }

  /** What the scorer looks at. optimistic: assignments since the last heartbeat. */
  datatype Board = Board(metrics: map<WorkerId, Metrics>, stats: map<WorkerId, Stats>, optimistic: map<WorkerId, nat>)

  function Optimistic(b: Board, w: WorkerId): nat {
    if w in b.optimistic then b.optimistic[w] else 0
  }

  function MetricsOf(b: Board, w: WorkerId): Metrics {
    if w in b.metrics then b.metrics[w] else Metrics(0, 0.0)
  }

  function StatsOf(b: Board, w: WorkerId): Stats {
    if w in b.stats then b.stats[w] else Stats(0, 0, 0)
  }

  function Score(b: Board, w: WorkerId): real
  {
    var m := MetricsOf(b, w);
    WEIGHT_LOAD * -((m.pendingTasks + Optimistic(b, w)) as real)
    + WEIGHT_LATENCY * -(m.latencyMs / LATENCY_NORMALIZATION_MS)
    + WEIGHT_AVAILABILITY * StatsOf(b, w).SuccessRate()
  }

  /** Nothing that a worker is scored by differs between two boards. */
  ghost predicate Unscored(b: Board, c: Board, w: WorkerId)
  {
    MetricsOf(b, w) == MetricsOf(c, w) && StatsOf(b, w) == StatsOf(c, w) && Optimistic(b, w) == Optimistic(c, w)
  }

  function Note(b: Board, w: WorkerId): Board {
    b.(optimistic := b.optimistic[w := Optimistic(b, w) + 1])
  }

  /** Head of the live workers sorted by descending score; ties keep the order of the list. */
  function Best(b: Board, live: seq<WorkerId>): (w: WorkerId)
    requires live != []
    ensures w in live && forall x :: x in live ==> Score(b, x) <= Score(b, w)
  {
    if |live| == 1 then live[0]
    else
      var rest := Best(b, live[1..]);
      assert live == [live[0]] + live[1..];
      if Score(b, live[0]) >= Score(b, rest) then live[0] else rest
  }

  /** Of several best workers the first of the list. */
  lemma {:induction false} BestIsFirst(b: Board, live: seq<WorkerId>) returns (i: nat)
    requires live != []
    ensures i < |live| && live[i] == Best(b, live) && forall j :: 0 <= j < i ==> Score(b, live[j]) < Score(b, live[i])
  {
    i := 0;
    if |live| > 1 && Best(b, live) != live[0] {
      var k := BestIsFirst(b, live[1..]);
      i := k + 1;
      assert live[i] == live[1..][k];
      assert forall j :: 0 < j < i ==> live[j] == live[1..][j - 1];
    }
  }

  class WorkerRegistry {
    const timeout: real
    var workers: map<WorkerId, real>
    var metrics: map<WorkerId, Metrics>
    var stats: map<WorkerId, Stats>
    var optimistic: map<WorkerId, nat>

    constructor (timeout: real)
      ensures this.timeout == timeout && workers == map[] && View() == Board(map[], map[], map[])
    {
      this.timeout := timeout;
      workers, metrics, stats, optimistic := map[], map[], map[], map[];
    }

    function View(): Board
      reads this
    {
      Board(metrics, stats, optimistic)
    }

    /** Heard of within the timeout; a timeout of zero or less never expires. */
    predicate IsLive(w: WorkerId, now: real)
      reads `workers
    {
      w in workers && (timeout <= 0.0 || now - workers[w] <= timeout)
    }

    /** A heartbeat refreshes the load and forgets the optimistic count; an empty id raises. */
    method Heartbeat(w: WorkerId, pendingTasks: int, timestamp: Option<real>, now: real) returns (ok: bool)
      modifies this
      ensures ok == (w != "")
      ensures !ok ==> workers == old(workers) && View() == old(View())
      ensures ok ==> workers == old(workers)[w := now] && IsLive(w, now)
                     && Optimistic(View(), w) == 0
                     && MetricsOf(View(), w).pendingTasks == pendingTasks
                     && MetricsOf(View(), w).latencyMs >= 0.0
                     && (timestamp.None? ==> MetricsOf(View(), w).latencyMs == 0.0)
                     && (timestamp.Some? ==> MetricsOf(View(), w).latencyMs
                                             == if now <= timestamp.value then 0.0
                                                else 1000.0 * (now - timestamp.value))
                     && StatsOf(View(), w) == old(StatsOf(View(), w))
                     && (forall x :: x != w ==> Unscored(old(View()), View(), x))
                     && (forall x :: x != w ==> Score(View(), x) == old(Score(View(), x)))
    {
      if w == "" {
        return false;
      }
      var latency := if timestamp.None? then 0.0 else (now - timestamp.value) * 1000.0;
      workers := workers[w := now];
      metrics := metrics[w := Metrics(pendingTasks, if latency < 0.0 then 0.0 else latency)];
      if w !in stats {
        stats := stats[w := Stats(0, 0, 0)];
      }
      optimistic := optimistic - {w};
      return true;
    }

    /** The report of a finished task counts for its worker. */
    method RecordCompletion(w: WorkerId, success: bool)
      modifies this`stats
      ensures w == "" ==> stats == old(stats)
      ensures w != "" ==>
                var was, now := old(StatsOf(View(), w)), StatsOf(View(), w);
                && now.total == was.total + 1 && now.successful == was.successful + (if success then 1 else 0)
                && now.failed == was.failed + (if success then 0 else 1)
                && forall x :: x != w ==> StatsOf(View(), x) == old(StatsOf(View(), x))
    {
      if w != "" {
        var s := if w in stats then stats[w] else Stats(0, 0, 0);
        stats := stats[w := if success then Stats(s.total + 1, s.successful + 1, s.failed)
                     else Stats(s.total + 1, s.successful, s.failed + 1)];
      }
    }

    method NoteAssignment(w: WorkerId)
      modifies this`optimistic
      ensures View() == if w == "" then old(View()) else Note(old(View()), w)
    {
      if w != "" {
        optimistic := optimistic[w := (if w in optimistic then optimistic[w] else 0) + 1];
      }
    }

    /** The live workers; their order decides between equal scores only. */
    method LiveWorkers(now: real) returns (live: seq<WorkerId>)
      ensures NoDuplicates(live) && forall x :: x in live <==> IsLive(x, now)
      ensures forall x :: x in live <==> x in workers && (timeout <= 0.0 || now <= workers[x] + timeout)
    {
      live := [];
      var left := workers.Keys;
      while left != {}
        invariant left <= workers.Keys && NoDuplicates(live)
        invariant forall x :: x in live <==> IsLive(x, now) && x !in left
      {
        var w :| w in left;
        left := left - {w};
        if IsLive(w, now) {
          live := live + [w];
        }
      }
    }

    /** The best live worker, which is counted. The round-robin fallback finds nobody either when
        nobody is live. */
    method PickLive(now: real) returns (w: Option<WorkerId>)
      requires "" !in workers
      modifies this`optimistic
      ensures w.None? ==> View() == old(View()) && forall x :: !IsLive(x, now)
      ensures w.Some? ==> IsLive(w.value, now) && View() == Note(old(View()), w.value)
                          && forall x :: IsLive(x, now) ==> old(Score(View(), x)) <= old(Score(View(), w.value))
    {
      var live := LiveWorkers(now);
      if live == [] {
        return None;
      }
      w := Some(Best(View(), live));
      NoteAssignment(w.value);
    }

    /** The heartbeats that arrive while createTask waits for a spawned worker, in order. */
    method Heartbeats(beats: seq<Beat>)
      modifies this
      ensures forall w {:trigger Beaten(w, beats, old(View()), old(workers), View(), workers)} ::
                Beaten(w, beats, old(View()), old(workers), View(), workers)
    {
      ghost var was, seen := View(), workers;
      for i := 0 to |beats|
        invariant forall w {:trigger Beaten(w, beats[..i], was, seen, View(), workers)} ::
                    Beaten(w, beats[..i], was, seen, View(), workers)
      {
        ghost var b0, w0 := View(), workers;
        var ok := Heartbeat(beats[i].worker, beats[i].pendingTasks, beats[i].timestamp, beats[i].at);
        ghost var next, b1, w1 := beats[..i + 1], View(), workers;
        forall w ensures Beaten(w, next, was, seen, b1, w1) {
          assert Beaten(w, beats[..i], was, seen, b0, w0);
          assert w != beats[i].worker ==> Unscored(b0, b1, w);
          LastBeatNext(beats, i, w);
        }
      }
      assert beats[..|beats|] == beats;
    }

    /** The worker of a new task: the one named by the submitter, which is not counted, or the best
        live one. With nobody live, if a worker was spawned, everybody who has been heard of by the
        time later is scored; board is what they are scored by. */
    method PlaceTask(provided: WorkerId, now: real, spawned: bool, beats: seq<Beat>, later: real)
      returns (w: Option<WorkerId>, ghost board: Board)
      requires "" !in workers && now <= later
      modifies this
      ensures provided != "" ==> w == Some(provided) && View() == old(View())
      ensures provided == "" && (exists x :: old(IsLive(x, now))) ==>
                && w.Some? && old(IsLive(w.value, now)) && View() == Note(old(View()), w.value)
                && (forall x :: old(IsLive(x, now)) ==> old(Score(View(), x)) <= old(Score(View(), w.value)))
      ensures provided == "" && (forall x :: !old(IsLive(x, now))) && !spawned ==> w.None? && View() == old(View())
      ensures provided == "" && (forall x :: !old(IsLive(x, now))) && spawned ==>
                && (forall x :: IsLive(x, later) <==> HeardInTime(beats, x, later))
                && (w.None? <==> forall x :: !HeardInTime(beats, x, later))
                && (w.Some? ==> HeardInTime(beats, w.value, later) && Optimistic(View(), w.value) == 1
                                && View() == Note(board, w.value)
                                && forall x :: HeardInTime(beats, x, later) ==>
                                     Score(board, x) <= Score(board, w.value))
    {
      board := View();
      if provided != "" {
        return Some(provided), board;
      }
      w := PickLive(now);
      assert forall x {:trigger IsLive(x, now)} {:trigger old(IsLive(x, now))} :: IsLive(x, now) == old(IsLive(x, now));
      if w.None? && spawned {
        ghost var was, seen := View(), workers;
        Heartbeats(beats);
        forall x ensures IsLive(x, later) <==> HeardInTime(beats, x, later) {
          assert Beaten(x, beats, was, seen, View(), workers);
          assert !old(IsLive(x, now));
        }
        board := View();
        assert Beaten("", beats, was, seen, View(), workers);
        w := PickLive(later);
        if w.Some? {
          assert HeardInTime(beats, w.value, later);
          assert Beaten(w.value, beats, was, seen, board, workers);
        }
      }
    }

    predicate HeardInTime(beats: seq<Beat>, w: WorkerId, now: real)
    {
      var at := LastBeat(beats, w);
      at.Some? && (timeout <= 0.0 || now - at.value <= timeout)
    }
  }

  /** A heartbeat as it arrives, at time at. */
  datatype Beat = Beat(worker: WorkerId, pendingTasks: int, timestamp: Option<real>, at: real)

  /** What the heartbeats leave of a worker: one that is not heard of is scored and last seen as
      before. */
  ghost predicate Beaten(w: WorkerId, beats: seq<Beat>, was: Board, seen: map<WorkerId, real>, board: Board,
                         workers: map<WorkerId, real>)
  {
    match LastBeat(beats, w)
    case None => Unscored(was, board, w) && (w in workers <==> w in seen) && (w in seen ==> workers[w] == seen[w])
    case Some(at) => w in workers && workers[w] == at && Optimistic(board, w) == 0
  }

  /** When the worker is last heard of; heartbeats without an id are refused. */
  function LastBeat(beats: seq<Beat>, w: WorkerId): (at: Option<real>)
    ensures w == "" ==> at == None
  {
    if beats == [] then None
    else
      var last := beats[|beats| - 1];
      if last.worker == w && w != "" then Some(last.at) else LastBeat(beats[..|beats| - 1], w)
  }

  lemma LastBeatNext(beats: seq<Beat>, i: nat, w: WorkerId)
    requires i < |beats|
    ensures LastBeat(beats[..i + 1], w)
            == if beats[i].worker == w && w != "" then Some(beats[i].at) else LastBeat(beats[..i], w)
  {
    assert beats[..i + 1][..i] == beats[..i];
  }

  /** The part r of the finished tasks was successful; a worker that finished none counts as always
      successful. */
  predicate IsRate(s: Stats, r: real)
  {
    if s.total == 0 then r == 1.0 else r * s.total as real == s.successful as real
  }

  /** Tasks that a worker is known to have: those of its last heartbeat, and those given since. */
  function LoadOf(b: Board, w: WorkerId): int
  {
    (if w in b.metrics then b.metrics[w].pendingTasks else 0) + if w in b.optimistic then b.optimistic[w] else 0
  }

  function LatencyOf(b: Board, w: WorkerId): real
  {
    if w in b.metrics then b.metrics[w].latencyMs else 0.0
  }

  lemma RateIsUnique(s: Stats, r: real)
    requires IsRate(s, r)
    ensures s.SuccessRate() == r
  {
    if s.total > 0 {
      assert r * s.total as real / s.total as real == r;
    }
  }

  /** The trade-off: one task more costs a worker as much as 500/3 milliseconds of latency, or as a
      success rate lower by 2.5, which no worker has. */
  lemma ScoreOrder(b: Board, w: WorkerId, x: WorkerId, rw: real, rx: real)
    requires IsRate(StatsOf(b, w), rw) && IsRate(StatsOf(b, x), rx)
    ensures Score(b, w) <= Score(b, x) <==>
            500.0 * LoadOf(b, w) as real + 3.0 * LatencyOf(b, w) - 200.0 * rw
            >= 500.0 * LoadOf(b, x) as real + 3.0 * LatencyOf(b, x) - 200.0 * rx
  {
    RateIsUnique(StatsOf(b, w), rw);
    RateIsUnique(StatsOf(b, x), rx);
    assert 1000.0 * Score(b, w) == 200.0 * rw - 500.0 * LoadOf(b, w) as real - 3.0 * LatencyOf(b, w);
    assert 1000.0 * Score(b, x) == 200.0 * rx - 500.0 * LoadOf(b, x) as real - 3.0 * LatencyOf(b, x);
  }

  /** A worker that is no more loaded, no farther away and no less successful scores no lower, and
      strictly higher if it is better in one of the three. */
  lemma BetterScoresHigher(b: Board, w: WorkerId, x: WorkerId, rw: real, rx: real)
    requires IsRate(StatsOf(b, w), rw) && IsRate(StatsOf(b, x), rx)
    requires LoadOf(b, w) <= LoadOf(b, x) && LatencyOf(b, w) <= LatencyOf(b, x) && rw >= rx
    ensures Score(b, w) >= Score(b, x)
    ensures LoadOf(b, w) < LoadOf(b, x) || LatencyOf(b, w) < LatencyOf(b, x) || rw > rx ==> Score(b, w) > Score(b, x)
  {
    ScoreOrder(b, w, x, rw, rx);
    ScoreOrder(b, x, w, rx, rw);
  }

  // A burst of submissions within one heartbeat window

  /** The board after n placements with no heartbeat and no completion in between. */
  function Burst(b: Board, live: seq<WorkerId>, n: nat): Board
    requires live != []
  {
    if n == 0 then b
    else
      var before := Burst(b, live, n - 1);
      Note(before, Best(before, live))
  }

  /** How many tasks of the burst went to w. */
  function Given(b: Board, live: seq<WorkerId>, n: nat, w: WorkerId): int
    requires live != []
  {
    Optimistic(Burst(b, live, n), w) - Optimistic(b, w)
  }

  /** An assignment lowers the score of its worker by the load weight, and no other score. */
  lemma NoteScore(b: Board, w: WorkerId, x: WorkerId)
    ensures Optimistic(Note(b, w), x) == Optimistic(b, x) + if x == w then 1 else 0
    ensures Score(Note(b, w), x) == Score(b, x) - if x == w then WEIGHT_LOAD else 0.0
  {
  }

  lemma GivenStep(b: Board, live: seq<WorkerId>, n: nat, x: WorkerId)
    requires live != [] && n > 0
    ensures Given(b, live, n, x) == Given(b, live, n - 1, x) + if x == Best(Burst(b, live, n - 1), live) then 1 else 0
  {
    NoteScore(Burst(b, live, n - 1), Best(Burst(b, live, n - 1), live), x);
  }

  /** Scores fall with the number of assignments. */
  lemma {:induction false} ScoreDrops(b: Board, live: seq<WorkerId>, n: nat, w: WorkerId)
    requires live != []
    ensures Given(b, live, n, w) >= 0 && (w !in live ==> Given(b, live, n, w) == 0)
    ensures Score(Burst(b, live, n), w) == Score(b, w) - WEIGHT_LOAD * Given(b, live, n, w) as real
  {
    if n > 0 {
      ScoreDrops(b, live, n - 1, w);
      GivenStep(b, live, n, w);
      NoteScore(Burst(b, live, n - 1), Best(Burst(b, live, n - 1), live), w);
    }
  }

  /** The workers picked, in order. */
  ghost function Picks(b: Board, live: seq<WorkerId>, n: nat): (r: seq<WorkerId>)
    requires live != []
    ensures |r| == n && forall w :: w in r ==> w in live
  {
    if n == 0 then [] else Picks(b, live, n - 1) + [Best(Burst(b, live, n - 1), live)]
  }

  lemma CountOfPick(picks: seq<WorkerId>, w: WorkerId, x: WorkerId)
    ensures multiset(picks + [w])[x] == multiset(picks)[x] + if x == w then 1 else 0
  {
  }

  lemma {:induction false} GivenCountsPicks(b: Board, live: seq<WorkerId>, n: nat, w: WorkerId)
    requires live != []
    ensures Given(b, live, n, w) == multiset(Picks(b, live, n))[w]
  {
    if n > 0 {
      GivenCountsPicks(b, live, n - 1, w);
      GivenStep(b, live, n, w);
      CountOfPick(Picks(b, live, n - 1), Best(Burst(b, live, n - 1), live), w);
    }
  }

  ghost function Shares(b: Board, live: seq<WorkerId>, n: nat): (m: map<WorkerId, int>)
    requires live != []
    ensures m.Keys == set w | w in live
  {
    map w | w in live :: Given(b, live, n, w)
  }

  /** Every task of the burst went to exactly one live worker. */
  lemma SharesAddUp(b: Board, live: seq<WorkerId>, n: nat)
    requires live != [] && NoDuplicates(live)
    ensures SumLoads(live, Shares(b, live, n)) == n
  {
    var picks := Picks(b, live, n);
    forall w | w in live ensures Shares(b, live, n)[w] == multiset(picks)[w] {
      GivenCountsPicks(b, live, n, w);
    }
    LoadsAddUp(multiset(picks), live, Shares(b, live, n));
  }

  /** Greedy placement: a worker that received a task of the burst is, but for that one task, at
      least as good as every live worker. */
  lemma {:induction false} BurstIsGreedy(b: Board, live: seq<WorkerId>, n: nat, w: WorkerId, x: WorkerId)
    requires live != [] && w in live && x in live && Given(b, live, n, w) > 0
    ensures Score(Burst(b, live, n), w) + WEIGHT_LOAD >= Score(Burst(b, live, n), x)
  {
    if n > 0 {
      var before := Burst(b, live, n - 1);
      var best := Best(before, live);
      GivenStep(b, live, n, w);
      if w != best {
        BurstIsGreedy(b, live, n - 1, w, x);
      }
      NoteScore(before, best, w);
      NoteScore(before, best, x);
    }
  }

  /** Equal workers share a burst evenly. */
  lemma EqualStartsShareEvenly(b: Board, live: seq<WorkerId>, n: nat, w: WorkerId, x: WorkerId)
    requires live != [] && w in live && x in live && Score(b, w) == Score(b, x)
    ensures Given(b, live, n, w) <= Given(b, live, n, x) + 1
  {
    ScoreDrops(b, live, n, w);
    ScoreDrops(b, live, n, x);
    if Given(b, live, n, w) > 0 {
      BurstIsGreedy(b, live, n, w, x);
    }
  }

  lemma {:induction false} SomebodyGetsMore(live: seq<WorkerId>, given: map<WorkerId, int>, other: map<WorkerId, int>,
                                            w: WorkerId)
    requires (forall x :: x in live ==> x in given && x in other) && w in live
    requires SumLoads(live, given) == SumLoads(live, other) && other[w] < given[w]
    ensures exists x :: x in live && other[x] > given[x]
  {
    if forall x :: x in live ==> other[x] <= given[x] {
      SumIsMonotone(live, other, given, w);
    }
  }

  lemma {:induction false} SumIsMonotone(live: seq<WorkerId>, low: map<WorkerId, int>, high: map<WorkerId, int>,
                                         w: WorkerId)
    requires forall x :: x in live ==> x in low && x in high && low[x] <= high[x]
    ensures SumLoads(live, low) <= SumLoads(live, high)
    ensures w in live && low[w] < high[w] ==> SumLoads(live, low) < SumLoads(live, high)
  {
    if live != [] {
      assert live == [live[0]] + live[1..];
      SumIsMonotone(live[1..], low, high, w);
    }
  }

  /** Greedy placement is optimal: however else the same n tasks are spread over the live workers,
      some worker that gets one ends up no better than the worst receiver of the burst. */
  lemma BurstIsOptimal(b: Board, live: seq<WorkerId>, n: nat, other: map<WorkerId, int>, w: WorkerId)
    returns (x: WorkerId)
    requires live != [] && NoDuplicates(live) && w in live && Given(b, live, n, w) > 0
    requires (forall y :: y in live ==> y in other && other[y] >= 0) && SumLoads(live, other) == n
    ensures x in live && other[x] > 0
            && Score(b, x) - WEIGHT_LOAD * other[x] as real <= Score(Burst(b, live, n), w)
  {
    SharesAddUp(b, live, n);
    var given := Shares(b, live, n);
    if other[w] < given[w] {
      SomebodyGetsMore(live, given, other, w);
      x :| x in live && other[x] > given[x];
      BurstIsGreedy(b, live, n, w, x);
    } else {
      x := w;
    }
    ScoreDrops(b, live, n, x);
    assert other[x] as real >= (given[x] + if x == w then 0 else 1) as real;
  }
}

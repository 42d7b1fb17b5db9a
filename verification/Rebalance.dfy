/** One rebalancing pass (chord/server.py, lines 1909-1975), all writes succeeding. */
module Rebalancing {
  import opened Recovery

  function Workers(ht1: map<TaskId, Task>, ids: seq<TaskId>): (r: seq<WorkerId>)
    requires forall t :: t in ids ==> t in ht1
    ensures |r| == |ids|
  {
    seq(|ids|, i requires 0 <= i < |ids| => ht1[ids[i]].worker)
  }

  /** The load of a worker: how many of the given records name it. */
  ghost function Load(ht1: map<TaskId, Task>, ids: seq<TaskId>, w: WorkerId): nat
    requires forall t :: t in ids ==> t in ht1
  {
    multiset(Workers(ht1, ids))[w]
  }

  /** Largest load that does not make a worker overloaded. */
  function Target(p: nat, l: nat): nat
    requires l > 0
  {
    if p / l < 1 then 1 else p / l
  }

  /** The loads that are no more than a fair share of p records on l workers: one, and any that l times
      does not exceed p. */
  predicate Fair(load: int, p: nat, l: nat) {
    load <= 1 || load * l <= p
  }

  /** They are those within the target. */
  lemma TargetMeaning(p: nat, l: nat, load: int)
    requires l > 0
    ensures load <= Target(p, l) <==> Fair(load, p, l)
  {
    var q := p / l;
    assert p == q * l + p % l && 0 <= p % l < l;
    if load <= q {
      TimesGrows(load, q, l);
    } else {
      TimesGrows(q + 1, load, l);
      assert (q + 1) * l == q * l + l;
    }
  }

  lemma TimesGrows(a: int, b: int, l: nat)
    requires a <= b
    ensures a * l <= b * l
  {
  }

  /** First worker of the list with the smallest load. */
  function Lightest(live: seq<WorkerId>, load: map<WorkerId, int>): (w: WorkerId)
    requires live != [] && forall x :: x in live ==> x in load
    ensures w in live && forall x :: x in live ==> load[w] <= load[x]
  {
    if |live| == 1 then live[0]
    else
      var rest := Lightest(live[1..], load);
      assert live == [live[0]] + live[1..];
      if load[live[0]] <= load[rest] then live[0] else rest
  }

  /** Of several lightest workers the first of the list. */
  lemma {:induction false} LightestIsFirst(live: seq<WorkerId>, load: map<WorkerId, int>) returns (i: nat)
    requires live != [] && forall x :: x in live ==> x in load
    ensures i < |live| && live[i] == Lightest(live, load)
    ensures forall j :: 0 <= j < i ==> load[live[i]] < load[live[j]]
  {
    i := 0;
    if |live| > 1 && Lightest(live, load) != live[0] {
      var k := LightestIsFirst(live[1..], load);
      i := k + 1;
      assert live[i] == live[1..][k];
      assert forall j :: 0 < j < i ==> live[j] == live[1..][j - 1];
    }
  }

  /** Pigeonhole: more than n records on each live worker is more than n * |live| records. */
  lemma {:induction false} AllAbove(m: multiset<WorkerId>, live: seq<WorkerId>, n: nat)
    requires NoDuplicates(live) && forall w :: w in live ==> m[w] > n
    ensures |m| >= (n + 1) * |live|
  {
    if live != [] {
      var rest := m[live[0] := 0];
      assert live[0] !in live[1..];
      AllAbove(rest, live[1..], n);
      assert (n + 1) * |live| == (n + 1) * |live[1..]| + (n + 1);
    }
  }

  /** Some live worker is at or below the target, however the records are spread. */
  lemma LightestIsLow(ws: seq<WorkerId>, live: seq<WorkerId>, load: map<WorkerId, int>)
    requires live != [] && NoDuplicates(live)
    requires forall w :: w in live ==> w in load && load[w] == multiset(ws)[w]
    ensures load[Lightest(live, load)] <= Target(|ws|, |live|)
  {
    var average := |ws| / |live|;
    QuotientBound(|ws|, |live|);
    if load[Lightest(live, load)] > average {
      AllAbove(multiset(ws), live, average);
      assert false;
    }
  }

  lemma QuotientBound(p: nat, l: nat)
    requires l > 0
    ensures p / l >= 0 && p < (p / l + 1) * l
  {
    assert p == (p / l) * l + p % l;
  }

  function SumLoads(live: seq<WorkerId>, load: map<WorkerId, int>): int
    requires forall w :: w in live ==> w in load
  {
    if live == [] then 0 else load[live[0]] + SumLoads(live[1..], load)
  }

  /** With every record on a live worker, the loads add up to the number of records. */
  lemma {:induction false} LoadsAddUp(m: multiset<WorkerId>, live: seq<WorkerId>, load: map<WorkerId, int>)
    requires NoDuplicates(live) && forall w :: w in live ==> w in load && load[w] == m[w]
    requires forall w :: w in m ==> w in live
    ensures SumLoads(live, load) == |m|
  {
    if live == [] {
      assert m == multiset{};
    } else {
      var rest := m[live[0] := 0];
      assert live[0] !in live[1..] && live == [live[0]] + live[1..];
      LoadsAddUp(rest, live[1..], load);
    }
  }

  // The pass

  /** The PENDING ones among the given record ids, in order. */
  method GatherPending(tables: Tables, ids: seq<TaskId>) returns (pending: seq<TaskId>)
    requires NoDuplicates(ids) && forall t :: t in ids ==> t in tables.ht1
    ensures NoDuplicates(pending)
    ensures forall t :: t in pending <==> t in ids && tables.ht1[t].status == PENDING
  {
    pending := [];
    for i := 0 to |ids|
      invariant NoDuplicates(pending)
      invariant forall t :: t in pending <==> t in ids[..i] && tables.ht1[t].status == PENDING
    {
      assert ids[..i + 1] == ids[..i] + [ids[i]] && ids[i] !in ids[..i];
      if tables.ht1[ids[i]].status == PENDING {
        pending := pending + [ids[i]];
      }
    }
    assert ids[..|ids|] == ids;
  }

  /** A record and its queue entries after the pass. A task that moved leaves the queue of its old
      worker only if that worker is live. */
  ghost predicate Placed(t: TaskId, was: Task, u: Task, q0: Queues, q: Queues, live: seq<WorkerId>)
  {
    u == was.(worker := u.worker)
    && forall x {:trigger Queue(q, x)} ::
         t in Queue(q, x) <==>
         if u.worker == was.worker then t in Queue(q0, x)
         else x == u.worker || (t in Queue(q0, x) && (x != was.worker || x !in live))
  }

  /** What the pass has done to a worker after i records: an overloaded worker has only lost
      records, so all that is left of its load is still to be looked at. */
  ghost predicate LoadInv(ws0: seq<WorkerId>, ws: seq<WorkerId>, i: nat, n: nat, load: map<WorkerId, int>, w: WorkerId)
    requires i <= |ws0|
  {
    w in load && load[w] == multiset(ws)[w] && (load[w] <= n + 1 || load[w] == multiset(ws0[i..])[w])
  }

  ghost predicate PassInv(ws0: seq<WorkerId>, ws: seq<WorkerId>, i: nat, live: seq<WorkerId>, load: map<WorkerId, int>)
  {
    live != [] && NoDuplicates(live) && |ws| == |ws0| && i <= |ws0| && load.Keys <= (set w | w in live)
    && (forall j :: i <= j < |ws| ==> ws[j] == ws0[j])
    && (forall j :: 0 <= j < i ==> ws[j] in live)
    && (forall w {:trigger LoadInv(ws0, ws, i, Target(|ws0|, |live|), load, w)} ::
          w in live ==> LoadInv(ws0, ws, i, Target(|ws0|, |live|), load, w))
  }

  function Shift(load: map<WorkerId, int>, src: WorkerId, dst: WorkerId): (r: map<WorkerId, int>)
    requires dst in load
  {
    var up := load[dst := load[dst] + 1];
    if src in load then up[src := up[src] - 1] else up
  }

  /** The lightest worker is below any worker the pass moves a record from, so the guard that
      would skip the move never applies. */
  lemma MoveIsBalancing(ws0: seq<WorkerId>, ws: seq<WorkerId>, i: nat, live: seq<WorkerId>, load: map<WorkerId, int>)
    requires PassInv(ws0, ws, i, live, load) && i < |ws|
    requires ws[i] in load ==> load[ws[i]] > Target(|ws|, |live|)
    ensures forall w :: w in live ==> w in load
    ensures var dst := Lightest(live, load);
            dst != ws[i] && load[dst] <= Target(|ws|, |live|) && (ws[i] in load ==> load[dst] < load[ws[i]])
  {
    forall w | w in live ensures w in load && load[w] == multiset(ws)[w] {
      assert LoadInv(ws0, ws, i, Target(|ws0|, |live|), load, w);
    }
    LightestIsLow(ws, live, load);
  }

  lemma MoveKeepsLoad(ws0: seq<WorkerId>, ws: seq<WorkerId>, i: nat, n: nat, load: map<WorkerId, int>, dst: WorkerId,
                      w: WorkerId)
    requires i < |ws| == |ws0| && ws[i] == ws0[i] && dst in load && dst != ws[i] && load[dst] <= n
    requires LoadInv(ws0, ws, i, n, load, w)
    ensures LoadInv(ws0, ws[i := dst], i + 1, n, Shift(load, ws[i], dst), w)
  {
    assert ws0[i..] == [ws0[i]] + ws0[i + 1..];
  }

  lemma MoveOne(ws0: seq<WorkerId>, ws: seq<WorkerId>, i: nat, live: seq<WorkerId>, load: map<WorkerId, int>)
    requires PassInv(ws0, ws, i, live, load) && i < |ws|
    requires ws[i] in load ==> load[ws[i]] > Target(|ws|, |live|)
    ensures (forall w :: w in live ==> w in load)
            && PassInv(ws0, ws[i := Lightest(live, load)], i + 1, live, Shift(load, ws[i], Lightest(live, load)))
  {
    MoveIsBalancing(ws0, ws, i, live, load);
    var n, dst := Target(|ws0|, |live|), Lightest(live, load);
    forall w | w in live ensures LoadInv(ws0, ws[i := dst], i + 1, n, Shift(load, ws[i], dst), w) {
      assert LoadInv(ws0, ws, i, n, load, w);
      MoveKeepsLoad(ws0, ws, i, n, load, dst, w);
    }
  }

  lemma KeepOne(ws0: seq<WorkerId>, ws: seq<WorkerId>, i: nat, live: seq<WorkerId>, load: map<WorkerId, int>)
    requires PassInv(ws0, ws, i, live, load) && i < |ws|
    requires ws[i] in load && load[ws[i]] <= Target(|ws|, |live|)
    ensures PassInv(ws0, ws, i + 1, live, load)
  {
    var n := Target(|ws0|, |live|);
    assert ws0[i..] == [ws0[i]] + ws0[i + 1..];
    forall w | w in live ensures LoadInv(ws0, ws, i + 1, n, load, w) {
      assert LoadInv(ws0, ws, i, n, load, w);
    }
  }

  /** When every record has been looked at, no worker is far above the target and nothing is lost. */
  lemma PassEnds(ws0: seq<WorkerId>, ws: seq<WorkerId>, live: seq<WorkerId>, load: map<WorkerId, int>)
    requires PassInv(ws0, ws, |ws0|, live, load)
    ensures forall w :: w in ws ==> w in live
    ensures forall w :: w in live ==> w in load && load[w] == multiset(ws)[w] && Fair(load[w] - 1, |ws|, |live|)
    ensures SumLoads(live, load) == |ws|
  {
    assert ws0[|ws0|..] == [];
    forall w | w in live ensures w in load && load[w] == multiset(ws)[w] && Fair(load[w] - 1, |ws|, |live|) {
      assert LoadInv(ws0, ws, |ws0|, Target(|ws0|, |live|), load, w);
      TargetMeaning(|ws|, |live|, load[w] - 1);
    }
    LoadsAddUp(multiset(ws), live, load);
  }

  /** Queues after one move. */
  function MoveInQueues(q: Queues, t: TaskId, src: WorkerId, srcLive: bool, dst: WorkerId): (r: Queues)
    ensures forall y, x {:trigger y in Queue(r, x)} :: y != t ==> (y in Queue(r, x) <==> y in Queue(q, x))
    ensures forall x {:trigger Queue(r, x)} ::
              t in Queue(r, x) <==> x == dst || (t in Queue(q, x) && (x != src || !srcLive || src == ""))
  {
    Append(if srcLive && src != "" then Remove(q, src, t) else q, dst, t)
  }

  /** Moving a record that was still as found places it; every other record stays as placed. */
  lemma MoveKeepsPlaced(t: TaskId, y: TaskId, ht0: map<TaskId, Task>, ht1: map<TaskId, Task>, q0: Queues, q: Queues,
                        live: seq<WorkerId>, dst: WorkerId)
    requires t in ht0 && t in ht1 && y in ht0 && y in ht1 && "" !in live && ht1[t] == ht0[t] && dst != ht0[t].worker
    requires Placed(t, ht0[t], ht1[t], q0, q, live) && Placed(y, ht0[y], ht1[y], q0, q, live)
    ensures var n := ht1[t := ht1[t].(worker := dst)];
            Placed(y, ht0[y], n[y], q0, MoveInQueues(q, t, ht1[t].worker, ht1[t].worker in live, dst), live)
  {
  }

  method MoveRecord(tables: Tables, t: TaskId, src: WorkerId, srcLive: bool, dst: WorkerId)
    requires t in tables.ht1
    modifies tables
    ensures tables.ht1 == old(tables.ht1)[t := old(tables.ht1)[t].(worker := dst)]
    ensures tables.ht2 == MoveInQueues(old(tables.ht2), t, src, srcLive, dst)
  {
    tables.ht1 := tables.ht1[t := tables.ht1[t].(worker := dst)];
    if srcLive && src != "" {
      var removed := tables.RemoveLocal(src, t);
    }
    var appended := tables.AppendLocal(dst, t);
  }

  method CountLoads(tables: Tables, pending: seq<TaskId>, live: seq<WorkerId>) returns (load: map<WorkerId, int>)
    requires forall t :: t in pending ==> t in tables.ht1
    ensures load.Keys == set w | w in live
    ensures forall w :: w in live ==> load[w] == Load(tables.ht1, pending, w)
  {
    load := map w | w in live :: 0;
    for i := 0 to |pending|
      invariant load.Keys == set w | w in live
      invariant forall w :: w in live ==> load[w] == Load(tables.ht1, pending[..i], w)
    {
      var w := tables.ht1[pending[i]].worker;
      assert Workers(tables.ht1, pending[..i + 1]) == Workers(tables.ht1, pending[..i]) + [w];
      if w in load {
        load := load[w := load[w] + 1];
      }
    }
    assert pending[..|pending|] == pending;
  }

  /** Records and queues as the pass leaves them. */
  ghost predicate AllPlaced(ids: seq<TaskId>, ht0: map<TaskId, Task>, ht1: map<TaskId, Task>, q0: Queues, q: Queues,
                            live: seq<WorkerId>)
    requires forall t :: t in ids ==> t in ht0
  {
    ht1.Keys == ht0.Keys
    && (forall t :: t in ht0 && t !in ids ==> ht1[t] == ht0[t])
    && (forall t {:trigger Placed(t, ht0[t], ht1[t], q0, q, live)} :: t in ids ==>
          Placed(t, ht0[t], ht1[t], q0, q, live))
  }

  lemma MoveKeepsAllPlaced(ids: seq<TaskId>, t: TaskId, ht0: map<TaskId, Task>, ht1: map<TaskId, Task>, q0: Queues,
                           q: Queues,
                           live: seq<WorkerId>, dst: WorkerId)
    requires (forall y :: y in ids ==> y in ht0) && AllPlaced(ids, ht0, ht1, q0, q, live)
    requires t in ids && "" !in live && ht1[t] == ht0[t] && dst != ht0[t].worker
    ensures AllPlaced(ids, ht0, ht1[t := ht1[t].(worker := dst)], q0,
            MoveInQueues(q, t, ht1[t].worker, ht1[t].worker in live, dst), live)
  {
    var n := ht1[t := ht1[t].(worker := dst)];
    var q' := MoveInQueues(q, t, ht1[t].worker, ht1[t].worker in live, dst);
    assert Placed(t, ht0[t], ht1[t], q0, q, live);
    forall y | y in ids ensures Placed(y, ht0[y], n[y], q0, q', live) {
      assert Placed(y, ht0[y], ht1[y], q0, q, live);
      MoveKeepsPlaced(t, y, ht0, ht1, q0, q, live, dst);
    }
  }

  /** How many of the first i records changed worker. */
  ghost function Moves(ws0: seq<WorkerId>, ws: seq<WorkerId>, i: nat): nat
    requires i <= |ws0| == |ws|
  {
    if i == 0 then 0 else Moves(ws0, ws, i - 1) + if ws[i - 1] != ws0[i - 1] then 1 else 0
  }

  lemma {:induction false} MovesOfPrefix(ws0: seq<WorkerId>, ws: seq<WorkerId>, i: nat, k: nat, w: WorkerId)
    requires i <= k < |ws0| == |ws|
    ensures Moves(ws0, ws[k := w], i) == Moves(ws0, ws, i)
  {
    if i > 0 {
      MovesOfPrefix(ws0, ws, i - 1, k, w);
    }
  }

  /** One turn of the loop. */
  method Consider(tables: Tables, pending: seq<TaskId>, i: nat, live: seq<WorkerId>, load: map<WorkerId, int>,
                  ghost ht0: map<TaskId, Task>, ghost q0: Queues)
    returns (moved: bool, r: map<WorkerId, int>)
    requires i < |pending| && NoDuplicates(pending) && "" !in live && forall t :: t in pending ==> t in ht0
    requires AllPlaced(pending, ht0, tables.ht1, q0, tables.ht2, live)
    requires PassInv(Workers(ht0, pending), Workers(tables.ht1, pending), i, live, load)
    modifies tables
    ensures AllPlaced(pending, ht0, tables.ht1, q0, tables.ht2, live)
    ensures PassInv(Workers(ht0, pending), Workers(tables.ht1, pending), i + 1, live, r)
    ensures Workers(tables.ht1, pending) == Workers(old(tables.ht1), pending)[i := tables.ht1[pending[i]].worker]
    ensures moved == (tables.ht1[pending[i]].worker != ht0[pending[i]].worker)
    ensures var src := old(tables.ht1)[pending[i]].worker;
            !moved <==> src in load && Fair(load[src], |pending|, |live|)
    ensures moved ==> var dst := tables.ht1[pending[i]].worker;
                      dst in live && dst in load && forall w :: w in live ==> w in load && load[dst] <= load[w]
  {
    var t := pending[i];
    var src := tables.ht1[t].worker;
    ghost var ws0, ws := Workers(ht0, pending), Workers(tables.ht1, pending);
    ghost var htBefore, qBefore := tables.ht1, tables.ht2;
    assert ws[i] == src && ws[i := src] == ws && Placed(t, ht0[t], htBefore[t], q0, qBefore, live);
    if src in load {
      TargetMeaning(|pending|, |live|, load[src]);
    }
    if src in load && load[src] <= Target(|pending|, |live|) {
      KeepOne(ws0, ws, i, live, load);
      return false, load;
    }
    MoveOne(ws0, ws, i, live, load);
    MoveIsBalancing(ws0, ws, i, live, load);
    var dst := Lightest(live, load);
    if src in load && load[dst] >= load[src] {
      assert false; // "not actually a balancing move" never happens
    }
    MoveRecord(tables, t, src, src in load, dst);
    assert Workers(tables.ht1, pending) == ws[i := dst];
    MoveKeepsAllPlaced(pending, t, ht0, htBefore, q0, qBefore, live, dst);
    return true, Shift(load, src, dst);
  }

  method MoveExcess(tables: Tables, pending: seq<TaskId>, live: seq<WorkerId>, load0: map<WorkerId, int>)
    returns (moved: nat, load: map<WorkerId, int>)
    requires NoDuplicates(pending) && "" !in live && forall t :: t in pending ==> t in tables.ht1
    requires AllPlaced(pending, tables.ht1, tables.ht1, tables.ht2, tables.ht2, live)
    requires PassInv(Workers(tables.ht1, pending), Workers(tables.ht1, pending), 0, live, load0)
    modifies tables
    ensures AllPlaced(pending, old(tables.ht1), tables.ht1, old(tables.ht2), tables.ht2, live)
    ensures PassInv(Workers(old(tables.ht1), pending), Workers(tables.ht1, pending), |pending|, live, load)
    ensures moved == Moves(Workers(old(tables.ht1), pending), Workers(tables.ht1, pending), |pending|)
  {
    moved, load := 0, load0;
    ghost var ht0, q0 := tables.ht1, tables.ht2;
    ghost var ws0 := Workers(ht0, pending);
    for i := 0 to |pending|
      invariant AllPlaced(pending, ht0, tables.ht1, q0, tables.ht2, live)
      invariant PassInv(ws0, Workers(tables.ht1, pending), i, live, load)
      invariant moved == Moves(ws0, Workers(tables.ht1, pending), i)
    {
      ghost var ws := Workers(tables.ht1, pending);
      var move: bool;
      move, load := Consider(tables, pending, i, live, load, ht0, q0);
      MovesOfPrefix(ws0, ws, i, i, tables.ht1[pending[i]].worker);
      moved := moved + if move then 1 else 0;
    }
  }

  lemma WorkersAreLive(ht1: map<TaskId, Task>, ids: seq<TaskId>, live: seq<WorkerId>)
    requires (forall t :: t in ids ==> t in ht1) && forall w :: w in Workers(ht1, ids) ==> w in live
    ensures forall t :: t in ids ==> ht1[t].worker in live
  {
    forall t | t in ids ensures ht1[t].worker in live {
      var j :| 0 <= j < |ids| && ids[j] == t;
      assert Workers(ht1, ids)[j] in live;
    }
  }

  /** Every pending record ends on a live worker, and every live worker with at most one record more
      than a fair share. */
  method Rebalance(tables: Tables, ids: seq<TaskId>, live: seq<WorkerId>)
    returns (moved: nat, load: map<WorkerId, int>, pending: seq<TaskId>)
    requires NoDuplicates(ids) && NoDuplicates(live) && "" !in live && forall t :: t in ids ==> t in tables.ht1
    modifies tables
    ensures NoDuplicates(pending) && forall t :: t in pending <==> t in ids && old(tables.ht1)[t].status == PENDING
    ensures AllPlaced(pending, old(tables.ht1), tables.ht1, old(tables.ht2), tables.ht2, live)
    ensures |live| < 2 || pending == [] ==> moved == 0 && tables.ht1 == old(tables.ht1) && tables.ht2 == old(tables.ht2)
    ensures |live| >= 2 && pending != [] ==>
              && (forall t :: t in pending ==> tables.ht1[t].worker in live)
              && (forall w :: w in live ==> w in load && load[w] == Load(tables.ht1, pending, w)
                                            && Fair(load[w] - 1, |pending|, |live|))
              && SumLoads(live, load) == |pending|
              && moved == Moves(Workers(old(tables.ht1), pending), Workers(tables.ht1, pending), |pending|)
  {
    moved, load := 0, map[];
    pending := GatherPending(tables, ids);
    if |live| < 2 || pending == [] {
      return;
    }
    load := CountLoads(tables, pending, live);
    ghost var ws0 := Workers(tables.ht1, pending);
    assert ws0[0..] == ws0;
    moved, load := MoveExcess(tables, pending, live, load);
    PassEnds(ws0, Workers(tables.ht1, pending), live, load);
    WorkersAreLive(tables.ht1, pending, live);
  }

  // Agreement of HT1 and HT2 across a pass

  /** A pass keeps a record and the queues in agreement if and only if the record was on a live
      worker or stayed where it was: the queue of a worker that is gone is not cleaned. */
  lemma AgreesAfterPass(t: TaskId, was: Task, u: Task, q0: Queues, q: Queues, live: seq<WorkerId>)
    requires Placed(t, was, u, q0, q, live) && Agrees(t, was, q0) && u.worker in live
    ensures Agrees(t, u, q) <==> was.worker in live
  {
    assert t in Queue(q0, was.worker);
    assert t in Queue(q, was.worker) <==> was.worker == u.worker || was.worker !in live;
    if was.worker in live {
      forall w ensures t in Queue(q, w) <==> w == u.worker {
        assert t in Queue(q0, w) <==> w == was.worker;
      }
    }
  }

  /** Such a record, after the move of a pass: v is gone, w is live, and the task is queued twice. */
  lemma OrphanIsQueuedTwice(t: TaskId, v: WorkerId, w: WorkerId) returns (task: Task, q0: Queues)
    requires v != "" && w != "" && v != w
    ensures task.worker == v && task.status == PENDING && Agrees(t, task, q0)
    ensures var u, q := task.(worker := w), MoveInQueues(q0, t, v, false, w);
            Placed(t, task, u, q0, q, [w]) && !Agrees(t, u, q) && t in Queue(q, v) && t in Queue(q, w)
  {
    task, q0 := NewTask(v), map[v := [t]];
    assert Agrees(t, task, q0);
    var u, q := task.(worker := w), MoveInQueues(q0, t, v, false, w);
    AgreesAfterPass(t, task, u, q0, q, [w]);
  }
}

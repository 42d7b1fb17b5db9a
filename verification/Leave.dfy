/** Graceful leave (chord/node.py, lines 348-388; chord/server.py, lines 147-163). */
module Leaving {
  import opened RingMath
  import opened ChordNodes
  import opened Stabilization
  import opened Wrappers

  /** Which of the three remote calls of a leave succeed; a failed one is logged and skipped. */
  datatype Calls = Calls(bulkPut: bool, updatePredecessor: bool, updateSuccessor: bool)

  /** Pointers of all nodes after n's leave call. */
  function LeavePointers(nodes: map<Id, Node>, n: Id, calls: Calls): map<Id, Node>
    requires n in nodes && Joined(nodes, n)
  {
    var s, pred := nodes[n].fingers[0], nodes[n].pred;
    if s == n || pred.None? then nodes
    else
      var p := pred.value;
      var t := if calls.updatePredecessor then nodes[s := nodes[s].(pred := pred)] else nodes;
      if calls.updateSuccessor then t[p := t[p].(fingers := t[p].fingers[0 := s])] else t
  }

  function LeaveStores<V>(nodes: map<Id, Node>, stores: map<Id, map<string, V>>, n: Id, calls: Calls): map<Id,
                          map<string, V>>
    requires n in nodes && Joined(nodes, n) && stores.Keys == nodes.Keys
  {
    var s := nodes[n].fingers[0];
    if s == n || !calls.bulkPut then stores else stores[s := stores[s] + stores[n]]
  }

  /** n's successor and predecessor are nodes, and have finger tables. */
  predicate Joined(nodes: map<Id, Node>, n: Id)
  {
    n in nodes && |nodes[n].fingers| > 0 && nodes[n].fingers[0] in nodes && |nodes[nodes[n].fingers[0]].fingers| > 0
    && (nodes[n].pred.Some? ==> nodes[n].pred.value in nodes && |nodes[nodes[n].pred.value].fingers| > 0)
  }

  /** What each call of a leave does, by itself: the successor gets the leaver's predecessor, the
      predecessor the leaver's successor, and the successor the leaver's copies. A node alone leaves
      everything as it is, and one without a predecessor all pointers. */
  lemma LeaveMeaning<V>(nodes: map<Id, Node>, stores: map<Id, map<string, V>>, n: Id, calls: Calls, x: Id, key: string)
    requires n in nodes && Joined(nodes, n) && stores.Keys == nodes.Keys && x in nodes
    ensures var t, u := LeavePointers(nodes, n, calls), LeaveStores(nodes, stores, n, calls);
            var s, pred := nodes[n].fingers[0], nodes[n].pred;
            && t.Keys == nodes.Keys && u.Keys == stores.Keys && t[x].phase == nodes[x].phase
            && t[x].pred == (if x == s && s != n && pred.Some? && calls.updatePredecessor then pred else nodes[x].pred)
            && |t[x].fingers| == |nodes[x].fingers|
            && (forall i :: 0 < i < |t[x].fingers| ==> t[x].fingers[i] == nodes[x].fingers[i])
            && (|t[x].fingers| > 0 ==>
                  t[x].fingers[0]
                  == if Some(x) == pred && s != n && calls.updateSuccessor then s else nodes[x].fingers[0])
            && (var taken := x == s && s != n && calls.bulkPut && key in stores[n];
                (key in u[x] <==> key in stores[x] || taken)
                && (key in u[x] ==> u[x][key] == if taken then stores[n][key] else stores[x][key]))
  {
  }

  class Deployment<V> {
    var nodes: map<Id, Node>
    var stores: map<Id, map<string, V>>

    method BulkPut(to: Id, items: map<string, V>)
      requires to in stores
      modifies this`stores
      ensures stores == old(stores)[to := old(stores)[to] + items]
    {
      stores := stores[to := stores[to] + items];
    }

    method UpdatePredecessor(at: Id, pred: Id)
      requires at in nodes
      modifies this`nodes
      ensures nodes == old(nodes)[at := old(nodes)[at].(pred := Some(pred))]
    {
      nodes := nodes[at := nodes[at].(pred := Some(pred))];
    }

    method UpdateSuccessor(at: Id, succ: Id)
      requires at in nodes && |nodes[at].fingers| > 0
      modifies this`nodes
      ensures nodes == old(nodes)[at := old(nodes)[at].(fingers := old(nodes)[at].fingers[0 := succ])]
    {
      nodes := nodes[at := nodes[at].(fingers := nodes[at].fingers[0 := succ])];
    }

    method Leave(n: Id, calls: Calls)
      requires n in nodes && Joined(nodes, n) && stores.Keys == nodes.Keys
      modifies this
      ensures nodes == LeavePointers(old(nodes), n, calls)
      ensures stores == LeaveStores(old(nodes), old(stores), n, calls)
    {
      var succ, pred := nodes[n].fingers[0], nodes[n].pred;
      if succ == n {
        return;
      }
      if calls.bulkPut {
        if stores[n] != map[] {
          BulkPut(succ, stores[n]);
        } else {
          assert stores[succ] + stores[n] == stores[succ];
          assert stores[succ := stores[succ] + stores[n]] == stores;
        }
      }
      if pred.Some? && calls.updatePredecessor {
        UpdatePredecessor(succ, pred.value);
      }
      if pred.Some? && calls.updateSuccessor {
        UpdateSuccessor(pred.value, succ);
      }
    }
  }

  // What a leave achieves when all three calls succeed

  const ALL := Calls(true, true, true)

  /** n leaves from between p and s: the arc from p now ends at s. */
  lemma ArcJoins(size: nat, p: Id, n: Id, s: Id, y: Id)
    requires p < size && n < size && s < size && y < size
    requires p != n && s != n && y != n
    requires Span(size, p, n) <= Span(size, p, y) && Span(size, p, n) <= Span(size, p, s)
    requires Span(size, n, s) <= Span(size, n, y)
    ensures Span(size, p, s) <= Span(size, p, y)
  {
  }

  ghost function Remaining(nodes: map<Id, Node>, n: Id): map<Id, Node>
    requires n in nodes && Joined(nodes, n)
  {
    LeavePointers(nodes, n, ALL) - {n}
  }

  lemma IdealIsJoined(size: nat, nodes: map<Id, Node>, n: Id, other: Id) returns (p: Id, s: Id)
    requires (forall y :: y in nodes ==> y < size) && IdealPointers(size, nodes)
    requires n in nodes && other in nodes && other != n
    ensures Joined(nodes, n) && nodes[n].pred == Some(p) && nodes[n].fingers[0] == s
    ensures p in nodes && s in nodes && p != n && s != n && nodes[p].fingers[0] == n && nodes[s].pred == Some(n)
  {
    p := SomebodyPointsAt(size, nodes, n, other);
    assert IdealAt(size, nodes, n) && IdealAt(size, nodes, p);
    s := nodes[n].fingers[0];
    assert IdealAt(size, nodes, s);
    assert other in nodes.Keys && nodes.Keys != {n};
  }

  /** After a graceful leave the remaining nodes form the ideal ring, whether two nodes were
      there or more. */
  lemma LeaveKeepsIdeal(size: nat, nodes: map<Id, Node>, n: Id, other: Id)
    requires (forall y :: y in nodes ==> y < size) && IdealPointers(size, nodes)
    requires n in nodes && other in nodes && other != n
    ensures Joined(nodes, n) && Remaining(nodes, n).Keys == nodes.Keys - {n}
    ensures IdealPointers(size, Remaining(nodes, n))
  {
    var p, s := IdealIsJoined(size, nodes, n, other);
    var rest := Remaining(nodes, n);
    assert rest.Keys == nodes.Keys - {n};
    forall x | x in rest ensures IdealAt(size, rest, x) {
      RemainingIdealAt(size, nodes, n, p, s, x);
    }
  }

  lemma RemainingIdealAt(size: nat, nodes: map<Id, Node>, n: Id, p: Id, s: Id, x: Id)
    requires (forall y :: y in nodes ==> y < size) && IdealPointers(size, nodes)
    requires Joined(nodes, n) && nodes[n].pred == Some(p) && nodes[n].fingers[0] == s
    requires p in nodes && s in nodes && p != n && s != n && nodes[p].fingers[0] == n && nodes[s].pred == Some(n)
    requires x in nodes && x != n && Remaining(nodes, n).Keys == nodes.Keys - {n}
    ensures IdealAt(size, Remaining(nodes, n), x)
  {
    var rest := Remaining(nodes, n);
    assert IdealAt(size, nodes, x) && IdealAt(size, nodes, n) && IdealAt(size, nodes, p);
    var q := rest[x].fingers[0];
    assert q == if x == p then s else nodes[x].fingers[0];
    assert x in nodes.Keys && n in nodes.Keys && s in nodes.Keys && nodes.Keys != {x};
    if x != p {
      assert nodes[q].pred == Some(x);
      assert q != n && q != s;
    }
    forall y | y in rest ensures Span(size, x, q) <= Span(size, x, y) {
      assert y in nodes.Keys;
      if x == p {
        ArcJoins(size, p, n, s, y);
      }
    }
  }

  /** Keys change owner only if they were the leaver's; those go to its successor. */
  lemma OwnersAfterLeave(size: nat, nodes: map<Id, Node>, n: Id, other: Id, key: Id)
    requires (forall y :: y in nodes ==> y < size) && IdealPointers(size, nodes) && key < size
    requires n in nodes && other in nodes && other != n
    ensures other in nodes.Keys - {n} && Joined(nodes, n)
    ensures var was, now := Owner(size, nodes.Keys, key), Owner(size, nodes.Keys - {n}, key);
            now == if was == n then nodes[n].fingers[0] else was
  {
    var p, s := IdealIsJoined(size, nodes, n, other);
    var was, rest := Owner(size, nodes.Keys, key), nodes.Keys - {n};
    assert IdealAt(size, nodes, n);
    assert IsOwner(size, nodes.Keys, key, was);
    assert s in rest && other in rest;
    if was == n {
      forall y | y in rest ensures Dist(size, key, s) <= Dist(size, key, y) {
        OwnerPassesOn(size, key, n, s, y);
      }
      assert IsOwner(size, rest, key, s);
    } else {
      assert IsOwner(size, rest, key, was);
    }
  }

  lemma OwnerPassesOn(size: nat, key: Id, n: Id, s: Id, y: Id)
    requires key < size && n < size && s < size && y < size && s != n && y != n
    requires Dist(size, key, n) <= Dist(size, key, y) && Dist(size, key, n) <= Dist(size, key, s)
    requires Span(size, n, s) <= Span(size, n, y)
    ensures Dist(size, key, s) <= Dist(size, key, y)
  {
  }

  /** No key disappears, and every key the leaver owned is at its new owner, with the leaver's value. */
  lemma LeaveKeepsData<V>(size: nat, nodes: map<Id, Node>, stores: map<Id, map<string, V>>, n: Id, other: Id,
                          key: string, hash: Id)
    requires (forall y :: y in nodes ==> y < size) && IdealPointers(size, nodes) && stores.Keys == nodes.Keys
             && hash < size
    requires n in nodes && other in nodes && other != n && Joined(nodes, n)
    ensures other in nodes.Keys - {n}
    ensures var after := LeaveStores(nodes, stores, n, ALL);
            (exists x :: x in stores && key in stores[x]) ==> exists x :: x in after && x != n && key in after[x]
    ensures var after := LeaveStores(nodes, stores, n, ALL);
            Owner(size, nodes.Keys, hash) == n && key in stores[n] ==>
              var now := Owner(size, nodes.Keys - {n}, hash);
              now != n && key in after[now] && after[now][key] == stores[n][key]
  {
    OwnersAfterLeave(size, nodes, n, other, hash);
    var p, s := IdealIsJoined(size, nodes, n, other);
    var after := LeaveStores(nodes, stores, n, ALL);
    if x :| x in stores && key in stores[x] {
      assert key in after[if x == n then s else x];
    }
  }

  /** The handoff overwrites: a key that stays with the leaver's successor s keeps s's value if
      and only if the leaver has no copy of it, or the same one. For every other remaining owner
      nothing changes. So a stale copy on a leaver can replace the current record. */
  lemma LeaveKeepsOwnerValue<V>(size: nat, nodes: map<Id, Node>, stores: map<Id, map<string, V>>, n: Id, other: Id,
                                key: string, hash: Id)
    requires (forall y :: y in nodes ==> y < size) && IdealPointers(size, nodes) && stores.Keys == nodes.Keys
             && hash < size
    requires n in nodes && other in nodes && other != n && Joined(nodes, n)
    requires Owner(size, nodes.Keys, hash) != n && key in stores[Owner(size, nodes.Keys, hash)]
    ensures other in nodes.Keys - {n}
    ensures var was, now, after := Owner(size, nodes.Keys, hash), Owner(size, nodes.Keys - {n}, hash),
            LeaveStores(nodes, stores, n, ALL);
            now == was && key in after[now]
            && (after[now][key] == stores[was][key] <==>
                was != nodes[n].fingers[0] || key !in stores[n] || stores[n][key] == stores[was][key])
  {
    OwnersAfterLeave(size, nodes, n, other, hash);
  }

  /** Such a leave: nodes 0 and 1 form the ideal ring of four points, 1 owns the key and has its
      current value, and 0, which has an old copy, leaves. */
  lemma StaleCopyReplaces(key: string, current: int, stale: int)
    returns (nodes: map<Id, Node>, stores: map<Id, map<string, int>>)
    requires current != stale
    ensures nodes.Keys == {0, 1} == stores.Keys && IdealPointers(4, nodes) && Joined(nodes, 0)
    ensures nodes.Keys - {0} == {1} && Owner(4, nodes.Keys, 1) == 1 && Owner(4, {1}, 1) == 1
    ensures stores[1] == map[key := current]
    ensures LeaveStores(nodes, stores, 0, ALL)[1] == map[key := stale]
  {
    nodes := map[0 := Node(Some(1), [1, 0], Idle), 1 := Node(Some(0), [0, 0], Idle)];
    stores := map[0 := map[key := stale], 1 := map[key := current]];
    assert nodes.Keys == {0, 1};
    assert IdealAt(4, nodes, 0) && IdealAt(4, nodes, 1);
    assert IsOwner(4, {0, 1}, 1, 1);
    OwnersAfterLeave(4, nodes, 0, 1, 1);
  }
}

/** What becomes of stored records when nodes join without data handoff (chord/node.py, lines
    174-190; storage/task_service.py, lines 122-162). */
module Handoff {
  import opened RingMath
  import opened Lookup
  import opened Networks
  import opened Replication
  import opened Chains
  import opened Schema
  import opened TaskStore
  import opened Wrappers

  // Joins

  /** Members that a clockwise walk from the key meets before it meets o. */
  ghost function Before(r: Ring, key: Id, o: Id): set<Id>
    requires r.WF() && key < r.Size() && o < r.Size()
  {
    set x | x in r.nodes && Dist(r.Size(), key, x) < Dist(r.Size(), key, o)
  }

  /** Distances from the key and distances from its owner order members alike. */
  lemma SameOrder(size: nat, key: Id, p: Id, x: Id, y: Id)
    requires key < size && p < size && x < size && y < size
    requires Dist(size, key, p) <= Dist(size, key, x) && Dist(size, key, p) <= Dist(size, key, y)
    ensures Dist(size, key, x) < Dist(size, key, y) <==> Dist(size, p, x) <= Dist(size, p, y) && x != y
  {
  }

  lemma EarlierInSeq(c: seq<Id>, i: nat, x: Id)
    requires Distinct(c) && i < |c|
    ensures x in c[..i] <==> x in c[..i + 1] && x != c[i]
  {
    assert c[..i + 1] == c[..i] + [c[i]];
  }

  lemma BeforeIffEarlier(r: Ring, key: Id, k: nat, i: nat, x: Id)
    requires r.WF() && r.IdealSucc() && key < r.Size() && k > 0 && x in r.nodes
    requires i < |ChainOf(r, Owner(r.Size(), r.nodes.Keys, key), k)|
    ensures var c := ChainOf(r, Owner(r.Size(), r.nodes.Keys, key), k);
            x in Before(r, key, c[i]) <==> x in c[..i]
  {
    var p := Owner(r.Size(), r.nodes.Keys, key);
    var c := ChainOf(r, p, k);
    assert c[i] in r.nodes.Keys && x in r.nodes.Keys;
    IdealChainOrder(r, p, k, x, i);
    SameOrder(r.Size(), key, p, x, c[i]);
    EarlierInSeq(c, i, x);
  }

  /** The i-th node of the owner's chain has exactly the i earlier ones of the chain before it. */
  lemma BeforeOnChain(r: Ring, key: Id, k: nat, i: nat)
    requires r.WF() && r.IdealSucc() && key < r.Size() && k > 0
    requires i < |ChainOf(r, Owner(r.Size(), r.nodes.Keys, key), k)|
    ensures var c := ChainOf(r, Owner(r.Size(), r.nodes.Keys, key), k);
            Before(r, key, c[i]) == Elements(c[..i]) && |Before(r, key, c[i])| == i
  {
    var c := ChainOf(r, Owner(r.Size(), r.nodes.Keys, key), k);
    forall x | x in r.nodes ensures x in Before(r, key, c[i]) <==> x in Elements(c[..i]) {
      BeforeIffEarlier(r, key, k, i, x);
    }
    assert Before(r, key, c[i]) == Elements(c[..i]);
    DistinctCount(c[..i]);
  }

  /** A member with b members before it is the b-th node of the owner's chain, if the chain is that long. */
  lemma RankOnChain(r: Ring, key: Id, k: nat, o: Id)
    requires r.WF() && r.IdealSucc() && key < r.Size() && k > 0 && o in r.nodes
    ensures var c, b := ChainOf(r, Owner(r.Size(), r.nodes.Keys, key), k), |Before(r, key, o)|;
            if b < k then b < |c| && c[b] == o else |c| == k && o !in c
  {
    var p := Owner(r.Size(), r.nodes.Keys, key);
    var c, before := ChainOf(r, p, k), Before(r, key, o);
    IdealChainLength(r, p, k);
    SubsetCount(before + {o}, r.nodes.Keys);
    if |before| < k {
      var d := c[|before|];
      BeforeOnChain(r, key, k, |before|);
      NobodyBetween(r, key, o, d);
    } else if o in c {
      var i :| 0 <= i < |c| && c[i] == o;
      BeforeOnChain(r, key, k, i);
      assert false;
    }
  }

  /** Two members with equally many members before them are the same. */
  lemma NobodyBetween(r: Ring, key: Id, x: Id, y: Id)
    requires r.WF() && key < r.Size() && x in r.nodes && y in r.nodes
    requires |Before(r, key, x)| == |Before(r, key, y)|
    ensures x == y
  {
    var a, b := Before(r, key, x), Before(r, key, y);
    if Dist(r.Size(), key, x) < Dist(r.Size(), key, y) {
      SubsetCount(a + {x}, b);
    } else if Dist(r.Size(), key, y) < Dist(r.Size(), key, x) {
      SubsetCount(b + {y}, a);
    }
  }

  lemma {:induction false} FirstCopyAt<V>(stores: map<Id, map<string, V>>, ns: seq<Id>, key: string, j: nat)
    requires j < |ns| && forall i :: 0 <= i < j ==> ns[i] in stores && key !in stores[ns[i]]
    requires ns[j] in stores && key in stores[ns[j]]
    ensures FirstCopy(stores, ns, key) == Some(stores[ns[j]][key])
  {
    if j > 0 {
      FirstCopyAt(stores, ns[1..], key, j - 1);
    }
  }

  lemma {:induction false} FirstCopyNone<V>(stores: map<Id, map<string, V>>, ns: seq<Id>, key: string)
    requires forall i :: 0 <= i < |ns| ==> ns[i] in stores && key !in stores[ns[i]]
    ensures FirstCopy(stores, ns, key) == None
  {
    if ns != [] {
      FirstCopyNone(stores, ns[1..], key);
    }
  }

  /** was is the ring at the last write, r the ring now: the same nodes and some newcomers, whose
      stores have no copy of the key. o, the owner then, still has the record. Reading the owner
      and then its replicas, as get_task does, finds the record if and only if fewer than k
      newcomers lie between the key and o. */
  lemma ReadAfterJoins<V>(was: Ring, r: Ring, id: Id, k: nat, stores: map<Id, map<string, V>>, key: string)
    requires was.WF() && r.WF() && was.m == r.m && was.nodes.Keys <= r.nodes.Keys && stores.Keys == r.nodes.Keys
    requires r.IdealSucc() && id < r.Size() && k > 0
    requires forall n :: n in r.nodes && n !in was.nodes ==> key !in stores[n]
    requires key in stores[Owner(was.Size(), was.nodes.Keys, id)]
    ensures var o, chain := Owner(was.Size(), was.nodes.Keys, id), ChainOf(r, Owner(r.Size(), r.nodes.Keys, id), k);
            FirstCopy(stores, chain, key) == Some(stores[o][key]) <==> |Before(r, id, o)| < k
  {
    var o := Owner(was.Size(), was.nodes.Keys, id);
    var c, before := ChainOf(r, Owner(r.Size(), r.nodes.Keys, id), k), Before(r, id, o);
    assert o in was.nodes.Keys;
    RankOnChain(r, id, k, o);
    forall i | 0 <= i < |c| && i < |before| ensures c[i] in stores && key !in stores[c[i]] {
      EarlierAreNew(was, r, id, k, o, i);
    }
    if |before| < k {
      FirstCopyAt(stores, c, key, |before|);
    } else {
      FirstCopyNone(stores, c, key);
    }
  }

  lemma EarlierAreNew(was: Ring, r: Ring, id: Id, k: nat, o: Id, i: nat)
    requires was.WF() && r.WF() && was.m == r.m && was.nodes.Keys <= r.nodes.Keys && r.IdealSucc() && id < r.Size()
             && k > 0
    requires o == Owner(was.Size(), was.nodes.Keys, id)
    requires i < |ChainOf(r, Owner(r.Size(), r.nodes.Keys, id), k)| && i < |Before(r, id, o)|
    ensures var x := ChainOf(r, Owner(r.Size(), r.nodes.Keys, id), k)[i]; x in r.nodes && x !in was.nodes
  {
    var x := ChainOf(r, Owner(r.Size(), r.nodes.Keys, id), k)[i];
    BeforeOnChain(r, id, k, i);
    if x in was.nodes.Keys {
      SubsetCount(Before(r, id, o), Before(r, id, x));
    }
  }

  lemma OnlyNewcomersBefore(was: Ring, r: Ring, id: Id)
    requires was.WF() && r.WF() && was.m == r.m && was.nodes.Keys <= r.nodes.Keys && id < r.Size()
    ensures |Before(r, id, Owner(was.Size(), was.nodes.Keys, id))| <= |r.nodes.Keys| - |was.nodes.Keys|
  {
    var o := Owner(was.Size(), was.nodes.Keys, id);
    assert o in was.nodes.Keys;
    assert Before(r, id, o) <= r.nodes.Keys - was.nodes.Keys;
    SubsetCount(Before(r, id, o), r.nodes.Keys - was.nodes.Keys);
    assert |r.nodes.Keys - was.nodes.Keys| == |r.nodes.Keys| - |was.nodes.Keys|;
  }

  /** So up to k - 1 joins since the last write never hide a record. */
  lemma ReadSurvivesJoins<V>(was: Ring, r: Ring, id: Id, k: nat, stores: map<Id, map<string, V>>, key: string)
    requires was.WF() && r.WF() && was.m == r.m && was.nodes.Keys <= r.nodes.Keys && stores.Keys == r.nodes.Keys
    requires r.IdealSucc() && id < r.Size() && k > 0
    requires forall n :: n in r.nodes && n !in was.nodes ==> key !in stores[n]
    requires key in stores[Owner(was.Size(), was.nodes.Keys, id)]
    requires |r.nodes.Keys| - |was.nodes.Keys| < k
    ensures FirstCopy(stores, ChainOf(r, Owner(r.Size(), r.nodes.Keys, id), k), key)
            == Some(stores[Owner(was.Size(), was.nodes.Keys, id)][key])
  {
    OnlyNewcomersBefore(was, r, id);
    ReadAfterJoins(was, r, id, k, stores, key);
  }

  /** The same for get_task, asked of any entry node of the grown ring when all answer: it returns the
      record of the old owner if and only if fewer than k newcomers lie between the key and that
      owner; and so it does after up to k - 1 joins. */
  method GetAfterJoins(service: TaskService, was: Ring, id: string) returns (found: Option<TaskRecord>)
    requires id != "" && service.Settled(id)
    requires was.WF() && was.m == service.net.ring.m && was.nodes.Keys <= service.net.ring.nodes.Keys
    requires forall n :: n in service.net.ring.nodes && n !in was.nodes ==> TaskKey(id) !in service.net.stores[n]
    requires var o := Owner(was.Size(), was.nodes.Keys, service.hash(TaskKey(id)));
             o in service.net.stores && TaskKey(id) in service.net.stores[o]
    modifies service.net`tick
    ensures var r, h := service.net.ring, service.hash(TaskKey(id));
            var o := Owner(was.Size(), was.nodes.Keys, h);
            && (found == Some(service.net.stores[o][TaskKey(id)]) <==> |Before(r, h, o)| < service.repl.k)
            && (|r.nodes.Keys| - |was.nodes.Keys| < service.repl.k
               ==> found == Some(service.net.stores[o][TaskKey(id)]))
  {
    ghost var asked;
    found, asked := service.GetTask(id, map[]);
    var r, h := service.net.ring, service.hash(TaskKey(id));
    ReadAfterJoins(was, r, h, service.repl.k, service.net.stores, TaskKey(id));
    OnlyNewcomersBefore(was, r, h);
  }
}

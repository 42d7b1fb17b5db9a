/** What the successor chain and the quorum report mean (storage/replication.py, lines 14-53, 85-124). */
module Chains {
  import opened RingMath
  import opened Lookup
  import opened Networks
  import opened Replication

  function Elements(s: seq<Id>): set<Id> {
    set x | x in s
  }

  lemma {:induction false} DistinctCount(s: seq<Id>)
    requires Distinct(s)
    ensures |Elements(s)| == |s|
  {
    if s != [] {
      var t := s[..|s| - 1];
      DistinctCount(t);
      assert Elements(s) == Elements(t) + {s[|s| - 1]};
    }
  }

  lemma {:induction false} ChainsAgree(r: Ring, p: Id, k: nat, c: seq<Id>, d: seq<Id>, i: nat)
    requires r.WF() && IsChain(r, p, k, c) && IsChain(r, p, k, d) && i < |c| && i < |d|
    ensures c[..i + 1] == d[..i + 1]
  {
    if i > 0 {
      ChainsAgree(r, p, k, c, d, i - 1);
      assert c[i - 1] == c[..i][i - 1] == d[..i][i - 1] == d[i - 1];
      assert c[i - 1 + 1] == r.Succ(c[i - 1]) && d[i - 1 + 1] == r.Succ(d[i - 1]);
      assert c[..i + 1] == c[..i] + [c[i]] && d[..i + 1] == d[..i] + [d[i]];
    }
  }

  lemma ShorterIsNotComplete(r: Ring, p: Id, k: nat, c: seq<Id>, d: seq<Id>)
    requires r.WF() && IsChain(r, p, k, c) && IsChain(r, p, k, d) && |c| < |d|
    ensures !Complete(r, k, c)
  {
    var last := |c| - 1;
    ChainsAgree(r, p, k, c, d, last);
    assert c == d[..last + 1];
    assert d[last + 1] == r.Succ(d[last]);
    assert d[last + 1] !in d[..last + 1];
  }

  /** On a fixed ring the completed walk is determined by where it starts and how long it may get. */
  lemma ChainUnique(r: Ring, p: Id, k: nat, c: seq<Id>, d: seq<Id>)
    requires r.WF() && IsChain(r, p, k, c) && IsChain(r, p, k, d) && Complete(r, k, c) && Complete(r, k, d)
    ensures c == d
  {
    if |c| < |d| {
      ShorterIsNotComplete(r, p, k, c, d);
    } else if |d| < |c| {
      ShorterIsNotComplete(r, p, k, d, c);
    } else {
      ChainsAgree(r, p, k, c, d, |c| - 1);
      assert c == c[..|c|] && d == d[..|d|];
    }
  }

  ghost function Extend(r: Ring, p: Id, k: nat, c: seq<Id>): (d: seq<Id>)
    requires r.WF() && IsChain(r, p, k, c)
    ensures IsChain(r, p, k, d) && Complete(r, k, d)
    decreases k - |c|
  {
    if Complete(r, k, c) then c else Extend(r, p, k, c + [r.Succ(c[|c| - 1])])
  }

  /** The chain that get_successor_chain returns when every call is answered. */
  ghost function ChainOf(r: Ring, p: Id, k: nat): (c: seq<Id>)
    requires r.WF() && p in r.nodes && k > 0
    ensures IsChain(r, p, k, c) && Complete(r, k, c)
    ensures forall d :: IsChain(r, p, k, d) && Complete(r, k, d) ==> d == c
  {
    var c := Extend(r, p, k, [p]);
    assert forall d :: IsChain(r, p, k, d) && Complete(r, k, d) ==> d == c by {
      forall d | IsChain(r, p, k, d) && Complete(r, k, d) ensures d == c {
        ChainUnique(r, p, k, c, d);
      }
    }
    c
  }

  /** d is the first member after c: walking on from c, seen from p. */
  lemma NextInOrder(size: nat, p: Id, c: Id, d: Id, x: Id)
    requires p < size && c < size && d < size && x < size && d != p
    requires Span(size, c, d) <= Span(size, c, p) && Span(size, c, d) <= Span(size, c, x)
    ensures Dist(size, p, c) < Dist(size, p, d)
    ensures Dist(size, p, x) <= Dist(size, p, d) ==> x == d || Dist(size, p, x) <= Dist(size, p, c)
  {
  }

  /** On an ideal ring the i-th node of a chain is the i-th member clockwise: everybody as
      near to p as chain[i] is among the first i + 1 nodes. */
  lemma {:induction false} ChainIsClockwise(r: Ring, p: Id, k: nat, c: seq<Id>, i: nat, x: Id)
    requires r.WF() && r.IdealSucc() && IsChain(r, p, k, c) && i < |c| && x in r.nodes
    ensures Dist(r.Size(), p, x) <= Dist(r.Size(), p, c[i]) ==> x in c[..i + 1]
    ensures forall j :: 0 <= j < i ==> Dist(r.Size(), p, c[j]) < Dist(r.Size(), p, c[i])
  {
    if i > 0 {
      ChainIsClockwise(r, p, k, c, i - 1, x);
      assert c[i - 1 + 1] == r.Succ(c[i - 1]);
      assert IsNext(r.Size(), r.nodes.Keys, c[i - 1], c[i]);
      assert p in r.nodes.Keys && x in r.nodes.Keys && c[i] != c[0];
      NextInOrder(r.Size(), p, c[i - 1], c[i], x);
      assert c[..i + 1] == c[..i] + [c[i]];
    }
  }

  lemma LastBackToStart(size: nat, p: Id, last: Id, back: Id, x: Id)
    requires p < size && last < size && back < size && x < size
    requires Span(size, last, back) <= Span(size, last, p) && Span(size, last, back) <= Span(size, last, x)
    requires Dist(size, p, back) <= Dist(size, p, last)
    ensures Dist(size, p, x) <= Dist(size, p, last)
  {
  }

  /** A chain that stopped early on an ideal ring has met every member. */
  lemma ShortChainHasAll(r: Ring, p: Id, k: nat, c: seq<Id>, x: Id)
    requires r.WF() && r.IdealSucc() && IsChain(r, p, k, c) && r.Succ(c[|c| - 1]) in c && x in r.nodes
    ensures x in c
  {
    var n := |c| - 1;
    var j :| 0 <= j < |c| && c[j] == r.Succ(c[n]);
    ChainIsClockwise(r, p, k, c, n, x);
    assert IsNext(r.Size(), r.nodes.Keys, c[n], c[j]);
    assert p in r.nodes.Keys && x in r.nodes.Keys;
    LastBackToStart(r.Size(), p, c[n], c[j], x);
  }

  /** On an ideal answering ring the chain has min(k, N) nodes. */
  lemma IdealChainLength(r: Ring, p: Id, k: nat)
    requires r.WF() && r.IdealSucc() && p in r.nodes && k > 0
    ensures |ChainOf(r, p, k)| == if k <= |r.nodes.Keys| then k else |r.nodes.Keys|
  {
    var c := ChainOf(r, p, k);
    DistinctCount(c);
    SubsetCount(Elements(c), r.nodes.Keys);
    if |c| < k {
      forall y | y in r.nodes.Keys ensures y in Elements(c) {
        ShortChainHasAll(r, p, k, c, y);
      }
      assert Elements(c) == r.nodes.Keys;
    }
  }

  /** They are the first ones clockwise from the primary: whoever is no farther than the i-th
      node of the chain is among its first i + 1 nodes. */
  lemma IdealChainOrder(r: Ring, p: Id, k: nat, x: Id, i: nat)
    requires r.WF() && r.IdealSucc() && p in r.nodes && k > 0
    requires x in r.nodes && i < |ChainOf(r, p, k)|
    ensures Dist(r.Size(), p, x) <= Dist(r.Size(), p, ChainOf(r, p, k)[i]) <==> x in ChainOf(r, p, k)[..i + 1]
  {
    var c := ChainOf(r, p, k);
    ChainIsClockwise(r, p, k, c, i, x);
  }

  // The quorum

  ghost function Holders<V>(stores: map<Id, map<string, V>>, key: string, v: V): set<Id>
  {
    set n | n in stores && key in stores[n] && stores[n][key] == v
  }

  /** The stores after the primary write has landed on one node and the replicas were written. */
  ghost function AfterWrite<V>(stores: map<Id, map<string, V>>, landed: Id, report: WriteReport, key: string,
                               v: V): map<Id, map<string, V>>
  {
    WriteAll(WriteAll(stores, [landed], key, v), report.written, key, v)
  }

  lemma WrittenHold<V>(stores: map<Id, map<string, V>>, landed: Id, report: WriteReport, key: string, v: V)
    requires landed in stores && forall n :: n in report.written ==> n in stores
    ensures Holders(AfterWrite(stores, landed, report, key, v), key, v)
            == {landed} + Elements(report.written) + Holders(stores, key, v)
  {
  }

  /** When the primary write landed on the node the report counts as primary, COMPLETE means that
      at least ceil(k/2) distinct nodes hold the record, so any smaller set of crashes leaves a copy. */
  lemma CompleteSurvivesCrashes<V>(stores: map<Id, map<string, V>>, primary: Id, report: WriteReport, k: nat,
                                   key: string, v: V, crashed: set<Id>)
    requires primary in stores && forall n :: n in report.written ==> n in stores
    requires Distinct([primary] + report.written) && report.complete == (1 + |report.written| >= Quorum(k))
    requires report.complete && |crashed| < Quorum(k)
    ensures |Holders(AfterWrite(stores, primary, report, key, v), key, v)| >= Quorum(k)
    ensures exists n :: n in Holders(AfterWrite(stores, primary, report, key, v), key, v) && n !in crashed
  {
    var h, all := Holders(AfterWrite(stores, primary, report, key, v), key, v), [primary] + report.written;
    DistinctCount(all);
    WrittenHold(stores, primary, report, key, v);
    assert Elements(all) <= h;
    SubsetCount(Elements(all), h);
    if h <= crashed {
      SubsetCount(h, crashed);
    }
    var n :| n in h && n !in crashed;
  }

  /** A retried primary write may land on another node than the report counts. Then a COMPLETE
      report is backed by a quorum of copies exactly when that node is not one of the replicas
      written anyway, or enough replicas were written without it. */
  lemma CompleteWhenLandedElsewhere<V>(stores: map<Id, map<string, V>>, landed: Id, report: WriteReport, k: nat,
                                       key: string, v: V)
    requires landed in stores && forall n :: n in report.written ==> n in stores
    requires Distinct(report.written) && report.complete == (1 + |report.written| >= Quorum(k)) && report.complete
    requires Holders(stores, key, v) == {}
    ensures |Holders(AfterWrite(stores, landed, report, key, v), key, v)| >= Quorum(k)
            <==> landed !in report.written || |report.written| >= Quorum(k)
  {
    WrittenHold(stores, landed, report, key, v);
    DistinctCount(report.written);
    var w := Elements(report.written);
    if landed in report.written {
      assert {landed} + w == w;
    } else {
      assert |{landed} + w| == 1 + |w|;
    }
  }

  /** The bad case exists: k = 3, the write lands on the one replica that is written too. */
  lemma CompleteCanMissQuorum() returns (stores: map<Id, map<string, int>>, report: WriteReport)
    ensures report.complete && report.complete == (1 + |report.written| >= Quorum(3)) && Distinct([0] + report.targets)
    ensures |Holders(AfterWrite(stores, 1, report, "task:a", 7), "task:a", 7)| < Quorum(3)
  {
    stores := map[0 := map[], 1 := map[], 2 := map[]];
    report := WriteReport([1, 2], [1], true);
    CompleteWhenLandedElsewhere(stores, 1, report, 3, "task:a", 7);
  }
}

/** Whole stabilize calls, and the rings in which they stop (chord/node.py, lines 194-278). */
module Stabilization {
  import opened RingMath
  import opened ChordNodes
  import opened Lookup
  import opened Protocol
  import opened Convergence
  import opened Wrappers

  /** A ring between maintenance calls: the join-only invariant, and no stabilize half done. */
  ghost predicate Calm(b: Id, r: Ring)
  {
    Inv(System(b, r, {})) && forall n {:trigger r.nodes[n].phase} :: n in r.nodes ==> r.nodes[n].phase.Idle?
  }

  /** n's successor is the next member, and has n as predecessor. A node alone has no predecessor,
      or itself. Fingers above 0 are not looked at. */
  ghost predicate IdealAt(size: nat, nodes: map<Id, Node>, n: Id)
    requires forall x :: x in nodes ==> x < size
  {
    n in nodes && |nodes[n].fingers| > 0 && nodes[n].fingers[0] in nodes
    && IsNext(size, nodes.Keys, n, nodes[n].fingers[0])
    && if nodes.Keys == {n} then nodes[n].pred.None? || nodes[n].pred == Some(n)
       else nodes[nodes[n].fingers[0]].pred == Some(n)
  }

  ghost predicate IdealPointers(size: nat, nodes: map<Id, Node>)
    requires forall x :: x in nodes ==> x < size
  {
    forall n {:trigger IdealAt(size, nodes, n)} :: n in nodes ==> IdealAt(size, nodes, n)
  }

  ghost predicate Ideal(r: Ring)
    requires r.WF()
  {
    IdealPointers(r.Size(), r.nodes)
  }

  lemma IdealHasIdealSucc(r: Ring)
    requires r.WF() && Ideal(r)
    ensures r.IdealSucc()
  {
    forall n | n in r.nodes ensures IsNext(r.Size(), r.nodes.Keys, n, r.Succ(n)) {
      assert IdealAt(r.Size(), r.nodes, n);
    }
  }

  function SetNode(r: Ring, n: Id, v: Node): Ring {
    r.(nodes := r.nodes[n := v])
  }

  /** One whole stabilize call of n, including the notify it sends, with nothing in between. */
  ghost function Stabilize(r: Ring, n: Id): Ring
    requires r.WF() && n in r.nodes
  {
    var v, s := r.nodes[n], r.Succ(n);
    if s == n then
      if v.pred.Some? && v.pred.value != n then SetNode(r, n, v.(fingers := v.fingers[0 := v.pred.value])) else r
    else
      var w := ApplyHeard(n, v.(phase := Heard(r.nodes[s].pred)));
      var t := SetNode(r, n, w);
      SetNode(t, w.Succ(), Notified(w.Succ(), t.nodes[w.Succ()], n))
  }

  ghost function StabilizeActions(r: Ring, n: Id): seq<Action>
    requires r.WF() && n in r.nodes
  {
    var v, s := r.nodes[n], r.Succ(n);
    if s == n then
      if v.pred.Some? && v.pred.value != n then [Snapshot(n), AdoptPredecessor(n)] else [Snapshot(n)]
    else
      [Snapshot(n), AskPredecessor(n), ApplyAnswer(n),
       HandleNotify(ApplyHeard(n, v.(phase := Heard(r.nodes[s].pred))).Succ(), n)]
  }

  lemma RunStep(s: System, acts: seq<Action>)
    requires Inv(s) && s.ring.WF() && acts != [] && Enabled(s, acts[0]) && Legal(Do(s, acts[0]), acts[1..])
    ensures Legal(s, acts) && Exec(s, acts) == Exec(Do(s, acts[0]), acts[1..])
  {
  }

  /** The four critical sections of the general case, one after the other. */
  lemma StabilizeWithNeighbour(s: System, n: Id)
    requires Inv(s) && s.ring.WF() && n in s.ring.nodes && s.ring.nodes[n].phase.Idle? && s.ring.Succ(n) != n
    ensures var acts := StabilizeActions(s.ring, n);
            Legal(s, acts) && Exec(s, acts).ring == Stabilize(s.ring, n)
  {
    var acts := StabilizeActions(s.ring, n);
    var v := s.ring.nodes[n];
    var s1 := Do(s, acts[0]);
    StepKeepsInv(s, acts[0]);
    var s2 := Do(s1, acts[1]);
    StepKeepsInv(s1, acts[1]);
    var s3 := Do(s2, acts[2]);
    StepKeepsInv(s2, acts[2]);
    var w := ApplyHeard(n, v.(phase := Heard(s.ring.nodes[s.ring.Succ(n)].pred)));
    assert s3.ring.nodes == s.ring.nodes[n := w];
    var s4 := Do(s3, acts[3]);
    assert s4.ring == Stabilize(s.ring, n);
    assert acts[1..][0] == acts[1] && acts[1..][1..][0] == acts[2] && acts[1..][1..][1..][0] == acts[3];
    assert acts[1..][1..][1..][1..] == [];
    StepKeepsInv(s3, acts[3]);
    RunStep(s3, acts[1..][1..][1..]);
    RunStep(s2, acts[1..][1..]);
    RunStep(s1, acts[1..]);
    RunStep(s, acts);
  }

  lemma StabilizeAlone(s: System, n: Id)
    requires Inv(s) && s.ring.WF() && n in s.ring.nodes && s.ring.nodes[n].phase.Idle? && s.ring.Succ(n) == n
    ensures var acts := StabilizeActions(s.ring, n);
            Legal(s, acts) && Exec(s, acts).ring == Stabilize(s.ring, n)
  {
    var acts := StabilizeActions(s.ring, n);
    var s1 := Do(s, acts[0]);
    StepKeepsInv(s, acts[0]);
    if |acts| == 2 {
      assert acts[1..][0] == acts[1] && acts[1..][1..] == [];
      var s2 := Do(s1, acts[1]);
      assert s2.ring.nodes == Stabilize(s.ring, n).nodes;
      StepKeepsInv(s1, acts[1]);
      RunStep(s1, acts[1..]);
    } else {
      assert acts[1..] == [];
      assert s1.ring.nodes == s.ring.nodes;
    }
    RunStep(s, acts);
  }

  /** Stabilize is the uninterrupted run of its critical sections, so it inherits their properties. */
  lemma StabilizeIsRun(b: Id, r: Ring, n: Id)
    requires Calm(b, r) && r.WF() && n in r.nodes
    ensures var s, acts := System(b, r, {}), StabilizeActions(r, n);
            Legal(s, acts) && Exec(s, acts).ring == Stabilize(r, n)
  {
    if r.Succ(n) == n {
      StabilizeAlone(System(b, r, {}), n);
    } else {
      StabilizeWithNeighbour(System(b, r, {}), n);
    }
  }

  // Where stabilization stops

  /** A stabilize call of n would change nothing. */
  ghost predicate Stuck(r: Ring, n: Id)
    requires r.WF() && n in r.nodes
  {
    Stabilize(r, n) == r
  }

  ghost predicate Quiescent(r: Ring)
    requires r.WF()
  {
    forall n {:trigger Stuck(r, n)} :: n in r.nodes ==> Stuck(r, n)
  }

  /** n has another node as successor, which has n as predecessor. */
  ghost predicate LinkedBack(r: Ring, n: Id)
    requires r.WF() && n in r.nodes
  {
    r.Succ(n) != n && r.nodes[r.Succ(n)].pred == Some(n)
  }

  ghost predicate AllLinkedBack(r: Ring)
    requires r.WF()
  {
    forall n {:trigger LinkedBack(r, n)} :: n in r.nodes ==> LinkedBack(r, n)
  }

  /** n is linked back, or is its own successor and knows no other node. */
  ghost predicate Settled(r: Ring, n: Id)
    requires r.WF() && n in r.nodes
  {
    LinkedBack(r, n) || (r.Succ(n) == n && (r.nodes[n].pred.None? || r.nodes[n].pred == Some(n)))
  }

  /** The predecessor of n's successor does not lie between the two, and a notify from n does not
      replace it. */
  ghost predicate Agreed(r: Ring, n: Id)
    requires r.WF() && n in r.nodes
  {
    var s := r.Succ(n);
    var x := r.nodes[s].pred;
    x.Some? && !InRange(x.value, n, s, false) && !InRange(n, x.value, s, false)
  }

  lemma AgreedIsLinkedBack(s: System, n: Id)
    requires Inv(s) && s.ring.WF() && n in s.ring.nodes && s.ring.Succ(n) != n && Agreed(s.ring, n)
    ensures LinkedBack(s.ring, n)
  {
    var succ := s.ring.Succ(n);
    InvNode(s, succ);
    InRangeIsSpan(s.Size(), s.ring.nodes[succ].pred.value, n, succ);
    InRangeIsSpan(s.Size(), n, s.ring.nodes[succ].pred.value, succ);
  }

  /** If neither the stabilize of n nor the notify it sends changes anything, n is its
      successor's predecessor. */
  lemma StuckArc(b: Id, r: Ring, n: Id)
    requires Calm(b, r) && r.WF() && n in r.nodes && r.Succ(n) != n && Stuck(r, n)
    ensures LinkedBack(r, n)
  {
    var size, s, v := r.Size(), r.Succ(n), r.nodes[n];
    var x := r.nodes[s].pred;
    InvNode(System(b, r, {}), s);
    var w := ApplyHeard(n, v.(phase := Heard(x)));
    if x.Some? {
      InRangeIsSpan(size, x.value, n, s);
    }
    assert w.Succ() != n;
    assert Stabilize(r, n).nodes[n].fingers[0] == w.Succ();
    assert Stabilize(r, n).nodes[s] == Notified(s, r.nodes[s], n);
    AgreedIsLinkedBack(System(b, r, {}), n);
  }

  /** Some node other than boot points at boot, if there is another node at all. */
  lemma {:induction false} LastHop(s: System, n: Id) returns (l: Id)
    requires Inv(s) && s.ring.WF() && n in s.ring.nodes && n != s.boot
    ensures l in s.ring.nodes && l != s.boot && s.ring.Succ(l) == s.boot
    decreases s.Size() - Span(s.Size(), s.boot, n)
  {
    if s.ring.Succ(n) == s.boot {
      l := n;
    } else {
      OneStepInOrder(s, n);
      l := LastHop(s, s.ring.Succ(n));
    }
  }

  lemma NobodyAlone(s: System)
    requires Inv(s) && s.ring.WF() && s.Members() != {s.boot}
    requires forall n {:trigger Settled(s.ring, n)} :: n in s.ring.nodes ==> Settled(s.ring, n)
    ensures AllLinkedBack(s.ring)
  {
    assert s.boot in s.Members();
    var other :| other in s.Members() && other != s.boot;
    var l := LastHop(s, other);
    assert Settled(s.ring, l);
    forall n | n in s.ring.nodes ensures LinkedBack(s.ring, n) {
      InvNode(s, n);
      assert Settled(s.ring, n);
    }
  }

  /** The single-node branch of stabilize: a node that is its own successor and knows a
      predecessor adopts it. */
  lemma AdoptChanges(r: Ring, b: Id, l: Id)
    requires r.WF() && b in r.nodes && r.nodes[b].pred == Some(l) && l != b && r.Succ(b) == b
    ensures !Stuck(r, b)
  {
    assert Stabilize(r, b).nodes[b].fingers[0] == l;
  }

  /** v is the successor of some node in ns. */
  ghost predicate HasSource(r: Ring, ns: set<Id>, v: Id)
    requires r.WF() && ns <= r.nodes.Keys
  {
    exists x {:trigger r.Succ(x)} :: x in ns && r.Succ(x) == v
  }

  lemma NoSharedSuccessor(r: Ring, x: Id, y: Id)
    requires r.WF() && AllLinkedBack(r) && x in r.nodes && y in r.nodes && r.Succ(x) == r.Succ(y)
    ensures x == y
  {
    assert LinkedBack(r, x) && LinkedBack(r, y);
  }

  /** No two nodes share a successor, so |ns| nodes have |ns| successors. */
  lemma {:induction false} SuccessorsOf(r: Ring, ns: set<Id>) returns (image: set<Id>)
    requires r.WF() && AllLinkedBack(r) && ns <= r.nodes.Keys
    ensures image <= r.nodes.Keys && |image| == |ns|
    ensures forall v {:trigger HasSource(r, ns, v)} :: v in image ==> HasSource(r, ns, v)
    decreases |ns|
  {
    image := {};
    if ns != {} {
      var x :| x in ns;
      var rest := SuccessorsOf(r, ns - {x});
      if r.Succ(x) in rest {
        assert HasSource(r, ns - {x}, r.Succ(x));
        var y :| y in ns - {x} && r.Succ(y) == r.Succ(x);
        NoSharedSuccessor(r, x, y);
        assert false;
      }
      image := rest + {r.Succ(x)};
      forall v | v in image ensures HasSource(r, ns, v) {
        if v != r.Succ(x) {
          assert HasSource(r, ns - {x}, v);
        }
      }
    }
  }

  /** Every node is somebody's successor. */
  lemma SuccOnto(r: Ring, z: Id) returns (w: Id)
    requires r.WF() && z in r.nodes && AllLinkedBack(r)
    ensures w in r.nodes && r.Succ(w) == z
  {
    var image := SuccessorsOf(r, r.nodes.Keys);
    SubsetCount(image, r.nodes.Keys);
    assert HasSource(r, r.nodes.Keys, z);
    w :| w in r.nodes.Keys && r.Succ(w) == z;
  }

  lemma SkippedEarlier(size: nat, b: Id, n: Id, w: Id, z: Id, q: Id)
    requires b < size && n < size && w < size && z < size && q < size
    requires z != b && w != n
    requires Span(size, n, z) < Span(size, n, q)
    requires n != b ==> Span(size, n, q) <= Span(size, n, b)
    requires w != b ==> Span(size, w, z) <= Span(size, w, b)
    requires w != z
    ensures (n != b && Span(size, w, n) < Span(size, w, z) && Span(size, b, n) < Span(size, b, z))
            || (w != b && Span(size, n, w) < Span(size, n, q) && Span(size, b, w) < Span(size, b, z))
  {
  }

  /** In such a ring no arc passes over a member: an arc over z would mean an arc over an earlier
      member too, because z itself is the end of some other arc. */
  lemma {:induction false} NoArcSkips(s: System, n: Id, z: Id)
    requires Inv(s) && s.ring.WF() && n in s.ring.nodes && z in s.ring.nodes
    requires AllLinkedBack(s.ring)
    ensures Span(s.Size(), n, s.ring.Succ(n)) <= Span(s.Size(), n, z)
    decreases Span(s.Size(), s.boot, z)
  {
    var b, r := s.boot, s.ring;
    InvNode(s, n);
    if Span(r.Size(), n, z) < Span(r.Size(), n, r.Succ(n)) && z != b {
      var w := SuccOnto(r, z);
      InvNode(s, w);
      SkippedEarlier(r.Size(), b, n, w, z, r.Succ(n));
      if n != b && Span(r.Size(), w, n) < Span(r.Size(), w, z) && Span(r.Size(), b, n) < Span(r.Size(), b, z) {
        NoArcSkips(s, w, n);
      } else {
        NoArcSkips(s, n, w);
      }
    }
  }

  lemma NextByArcs(s: System, n: Id)
    requires Inv(s) && s.ring.WF() && n in s.ring.nodes && AllLinkedBack(s.ring)
    ensures IsNext(s.Size(), s.Members(), n, s.ring.Succ(n))
  {
    forall z | z in s.ring.nodes ensures Span(s.Size(), n, s.ring.Succ(n)) <= Span(s.Size(), n, z) {
      NoArcSkips(s, n, z);
    }
  }

  lemma AloneIsIdeal(s: System)
    requires Inv(s) && s.ring.WF() && s.Members() == {s.boot}
    ensures Ideal(s.ring)
  {
    InvNode(s, s.boot);
    assert s.ring.nodes[s.boot].fingers[0] in s.Members();
    forall n | n in s.ring.nodes ensures IdealAt(s.Size(), s.ring.nodes, n) {
      assert n in s.Members();
    }
  }

  /** A ring of the join-only protocol in which every node is settled is the ideal ring. */
  lemma SettledIsIdeal(s: System)
    requires Inv(s) && s.ring.WF()
    requires forall n {:trigger Settled(s.ring, n)} :: n in s.ring.nodes ==> Settled(s.ring, n)
    ensures Ideal(s.ring)
  {
    if s.Members() == {s.boot} {
      AloneIsIdeal(s);
    } else {
      NobodyAlone(s);
      forall n | n in s.ring.nodes ensures IdealAt(s.Size(), s.ring.nodes, n) {
        NextByArcs(s, n);
        assert LinkedBack(s.ring, n);
        assert s.ring.Succ(n) in s.Members();
      }
    }
  }

  /** A ring of the join-only protocol that no stabilize call can change is the ideal ring,
      and the ideal ring is one that no stabilize call can change. */
  lemma QuiescentIffIdeal(b: Id, r: Ring)
    requires Calm(b, r) && r.WF()
    ensures Quiescent(r) <==> Ideal(r)
  {
    if Quiescent(r) {
      QuiescentIsIdeal(b, r);
    }
    if Ideal(r) {
      forall n | n in r.nodes ensures Stuck(r, n) {
        IdealIsStuck(b, r, n);
      }
    }
  }

  lemma QuiescentIsIdeal(b: Id, r: Ring)
    requires Calm(b, r) && r.WF() && Quiescent(r)
    ensures Ideal(r)
  {
    forall n | n in r.nodes ensures Settled(r, n) {
      assert Stuck(r, n);
      if r.Succ(n) != n {
        StuckArc(b, r, n);
      } else if r.nodes[n].pred.Some? && r.nodes[n].pred.value != n {
        AdoptChanges(r, n, r.nodes[n].pred.value);
      }
    }
    SettledIsIdeal(System(b, r, {}));
  }

  lemma IdealIsStuck(b: Id, r: Ring, n: Id)
    requires Calm(b, r) && r.WF() && Ideal(r) && n in r.nodes
    ensures Stabilize(r, n) == r
  {
    var v, s := r.nodes[n], r.Succ(n);
    InvNode(System(b, r, {}), n);
    assert IdealAt(r.Size(), r.nodes, n);
    if s == n {
      assert IsNext(r.Size(), r.nodes.Keys, n, n);
      forall x | x in r.nodes ensures x == n {
        assert x in r.nodes.Keys;
      }
      assert r.nodes.Keys == {n};
    } else {
      assert s in r.nodes.Keys && r.nodes.Keys != {n};
      InRangeIsSpan(r.Size(), n, n, s);
      var w := ApplyHeard(n, v.(phase := Heard(r.nodes[s].pred)));
      assert w == v;
      assert SetNode(r, n, v).nodes == r.nodes;
      InRangeIsSpan(r.Size(), n, n, s);
      assert Notified(s, r.nodes[s], n) == r.nodes[s];
      assert SetNode(r, s, r.nodes[s]).nodes == r.nodes;
    }
  }

  /** In an ideal ring some node has n as successor; walk towards n from x. */
  lemma {:induction false} SomebodyPointsAt(size: nat, nodes: map<Id, Node>, n: Id, x: Id) returns (w: Id)
    requires (forall y :: y in nodes ==> y < size) && IdealPointers(size, nodes)
    requires n in nodes && x in nodes && x != n
    ensures w in nodes && w != n && |nodes[w].fingers| > 0 && nodes[w].fingers[0] == n
    ensures nodes[n].pred == Some(w)
    decreases Span(size, x, n)
  {
    assert IdealAt(size, nodes, x);
    var q := nodes[x].fingers[0];
    assert x in nodes.Keys && n in nodes.Keys;
    if q == n {
      w := x;
      assert nodes.Keys != {x};
    } else {
      SpanSplits(size, x, q, n);
      w := SomebodyPointsAt(size, nodes, n, q);
    }
  }
}

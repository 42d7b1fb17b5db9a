/** What the join-only invariant means for the successor graph, and why stabilization ends in
    the ideal ring (chord/node.py, lines 194-278). */
module Convergence {
  import opened RingMath
  import opened ChordNodes
  import opened Lookup
  import opened Protocol
  import opened Wrappers

  // The successor graph

  /** The node reached from n by following k successor pointers. */
  ghost function Orbit(r: Ring, n: Id, k: nat): (x: Id)
    requires r.WF() && n in r.nodes
    ensures x in r.nodes
  {
    if k == 0 then n else r.Succ(Orbit(r, n, k - 1))
  }

  lemma OneStepInOrder(s: System, n: Id)
    requires Inv(s) && s.ring.WF() && n in s.ring.nodes && n != s.boot
    ensures Span(s.Size(), s.boot, n) < Span(s.Size(), s.boot, s.ring.Succ(n))
  {
    InvNode(s, n);
  }

  /** While a walk has not met boot it moves in id order, as seen from boot. */
  lemma {:induction false} WalkInOrder(s: System, n: Id, i: nat, j: nat)
    requires Inv(s) && s.ring.WF() && n in s.ring.nodes && i < j
    requires forall k :: i <= k < j ==> Orbit(s.ring, n, k) != s.boot
    ensures Span(s.Size(), s.boot, Orbit(s.ring, n, i)) < Span(s.Size(), s.boot, Orbit(s.ring, n, j))
    decreases j
  {
    OneStepInOrder(s, Orbit(s.ring, n, j - 1));
    if i < j - 1 {
      WalkInOrder(s, n, i, j - 1);
    }
  }

  lemma {:induction false} OrbitAdds(r: Ring, n: Id, i: nat, j: nat)
    requires r.WF() && n in r.nodes
    ensures Orbit(r, Orbit(r, n, i), j) == Orbit(r, n, i + j)
  {
    if j > 0 {
      OrbitAdds(r, n, i, j - 1);
    }
  }

  lemma {:induction false} WalkMeetsBoot(s: System, n: Id, i: nat) returns (k: nat)
    requires Inv(s) && s.ring.WF() && n in s.ring.nodes
    ensures i <= k && Orbit(s.ring, n, k) == s.boot
    decreases s.Size() - Span(s.Size(), s.boot, Orbit(s.ring, n, i))
  {
    var x := Orbit(s.ring, n, i);
    if x == s.boot {
      k := i;
    } else {
      OneStepInOrder(s, x);
      assert Orbit(s.ring, n, i + 1) == s.ring.Succ(x);
      k := WalkMeetsBoot(s, n, i + 1);
    }
  }

  /** Every node reaches boot. */
  lemma EveryNodeReachesBoot(s: System, n: Id)
    requires Inv(s) && s.ring.WF() && n in s.ring.nodes
    ensures exists k: nat :: Orbit(s.ring, n, k) == s.boot
  {
    var k := WalkMeetsBoot(s, n, 0);
  }

  /** The successor graph has one cycle only: a node that comes back to itself is on the
      walk that starts at boot, and passes boot on its way. */
  lemma OneCycle(s: System, n: Id, k: nat) returns (j: nat)
    requires Inv(s) && s.ring.WF() && n in s.ring.nodes && k > 0 && Orbit(s.ring, n, k) == n
    ensures j < k && Orbit(s.ring, n, j) == s.boot && Orbit(s.ring, s.boot, k - j) == n
  {
    if forall i :: 0 <= i < k ==> Orbit(s.ring, n, i) != s.boot {
      WalkInOrder(s, n, 0, k);
      assert false;
    } else {
      j :| 0 <= j < k && Orbit(s.ring, n, j) == s.boot;
      OrbitAdds(s.ring, n, j, k - j);
    }
  }

  /** The cycle winds once: up to its first return to boot, the walk from boot meets nodes in
      id order. */
  lemma CycleWindsOnce(s: System, i: nat, j: nat)
    requires Inv(s) && s.ring.WF() && 1 <= i < j
    requires forall k :: 1 <= k < j ==> Orbit(s.ring, s.boot, k) != s.boot
    ensures Span(s.Size(), s.boot, Orbit(s.ring, s.boot, i)) < Span(s.Size(), s.boot, Orbit(s.ring, s.boot, j))
  {
    WalkInOrder(s, s.boot, i, j);
  }

  // The convergence measure

  /** Span to the successor, plus span from the predecessor; nothing known counts 2^M. */
  ghost function Cost(size: nat, n: Id, v: Node): nat
    requires n < size && |v.fingers| > 0
  {
    (if v.Succ() < size then Span(size, n, v.Succ()) else size)
    + (if v.pred.Some? && v.pred.value < size then Span(size, v.pred.value, n) else size)
  }

  ghost function SumCost(r: Ring, ns: set<Id>): nat
    requires r.WF() && ns <= r.nodes.Keys
  {
    if ns == {} then 0 else
      var x :| x in ns;
      Cost(r.Size(), x, r.nodes[x]) + SumCost(r, ns - {x})
  }

  ghost function Measure(r: Ring): nat
    requires r.WF()
  {
    SumCost(r, r.nodes.Keys)
  }

  lemma {:induction false} SumSplits(r: Ring, ns: set<Id>, x: Id)
    requires r.WF() && ns <= r.nodes.Keys && x in ns
    ensures SumCost(r, ns) == Cost(r.Size(), x, r.nodes[x]) + SumCost(r, ns - {x})
  {
    var y :| y in ns && SumCost(r, ns) == Cost(r.Size(), y, r.nodes[y]) + SumCost(r, ns - {y});
    if y != x {
      SumSplits(r, ns - {y}, x);
      SumSplits(r, ns - {x}, y);
      assert ns - {y} - {x} == ns - {x} - {y};
    }
  }

  lemma {:induction false} SumSame(r: Ring, t: Ring, ns: set<Id>)
    requires r.WF() && t.WF() && ns <= r.nodes.Keys && ns <= t.nodes.Keys && r.m == t.m
    requires forall x :: x in ns ==> Cost(r.Size(), x, r.nodes[x]) == Cost(t.Size(), x, t.nodes[x])
    ensures SumCost(r, ns) == SumCost(t, ns)
  {
    if ns != {} {
      var x :| x in ns;
      SumSplits(r, ns, x);
      SumSplits(t, ns, x);
      SumSame(r, t, ns - {x});
    }
  }

  /** Changing one node changes the measure by that node's cost. */
  lemma MeasureOfUpdate(r: Ring, n: Id, v: Node)
    requires r.WF() && n in r.nodes && |v.fingers| == r.m && r.(nodes := r.nodes[n := v]).WF()
    ensures Measure(r.(nodes := r.nodes[n := v])) - Cost(r.Size(), n, v) == Measure(r) - Cost(r.Size(), n, r.nodes[n])
  {
    var t := r.(nodes := r.nodes[n := v]);
    assert t.nodes.Keys == r.nodes.Keys;
    SumSplits(r, r.nodes.Keys, n);
    SumSplits(t, r.nodes.Keys, n);
    SumSame(r, t, r.nodes.Keys - {n});
  }

  lemma {:induction false} MeasureBound(r: Ring, ns: set<Id>)
    requires r.WF() && ns <= r.nodes.Keys
    ensures SumCost(r, ns) <= 2 * r.Size() * |ns|
  {
    if ns != {} {
      var x :| x in ns;
      SumSplits(r, ns, x);
      MeasureBound(r, ns - {x});
      assert 2 * r.Size() * |ns| == 2 * r.Size() * (|ns| - 1) + 2 * r.Size();
    }
  }

  /** Successor and predecessor of every node. */
  ghost function Pointers(r: Ring): map<Id, (Id, Option<Id>)>
    requires r.WF()
  {
    map n | n in r.nodes :: (r.Succ(n), r.nodes[n].pred)
  }

  /** A cost can only fall, and falls whenever the successor or the predecessor changes. */
  ghost predicate Improves(size: nat, n: Id, v: Node, w: Node)
    requires n < size && |v.fingers| > 0 && |w.fingers| > 0
  {
    Cost(size, n, w) <= Cost(size, n, v)
    && (w.Succ() != v.Succ() || w.pred != v.pred ==> Cost(size, n, w) < Cost(size, n, v))
  }

  lemma NotifyImproves(size: nat, n: Id, v: Node, c: Id)
    requires n < size && c < size && c != n && |v.fingers| > 0
    requires v.pred.Some? ==> v.pred.value < size && v.pred.value != n
    ensures Improves(size, n, v, Notified(n, v, c))
  {
    if v.pred.Some? {
      InRangeIsSpan(size, c, v.pred.value, n);
      if Span(size, v.pred.value, c) < Span(size, v.pred.value, n) {
        SpanSplits(size, v.pred.value, c, n);
      }
    }
  }

  /** Actions that only send messages. */
  predicate OnlySends(a: Action)
  {
    a.StartJoin? || a.Hop? || a.StartFix?
  }

  /** The node an action writes, and what it writes there. */
  lemma ActionImproves(s: System, a: Action) returns (n: Id, v: Node)
    requires Inv(s) && s.ring.WF() && Enabled(s, a) && !a.FinishJoin? && !OnlySends(a)
    ensures n in s.ring.nodes && Do(s, a).ring == s.ring.(nodes := s.ring.nodes[n := v])
    ensures |v.fingers| == s.ring.m && Improves(s.Size(), n, s.ring.nodes[n], v)
  {
    n := if a.HandleNotify? then a.dst else a.n;
    InvNode(s, n);
    var u := s.ring.nodes[n];
    match a {
      case Snapshot(_) => v := BeginStabilize(n, u);
      case AdoptPredecessor(_) => v := FinishAdopt(u);
      case AskPredecessor(_) => v := u.(phase := Heard(s.ring.nodes[u.phase.s].pred));
      case ApplyAnswer(_) =>
        v := ApplyHeard(n, u);
        if u.phase.x.Some? {
          InRangeIsSpan(s.Size(), u.phase.x.value, n, u.Succ());
        }
      case HandleNotify(_, c) =>
        assert MsgInv(s.ring.m, s.boot, s.Members(), Notify(n, c));
        v := Notified(n, u, c);
        NotifyImproves(s.Size(), n, u, c);
      case FinishFix(_, i, r) => v := u.(fingers := u.fingers[i := r]);
    }
  }

  lemma UpdateLowersMeasure(r: Ring, n: Id, v: Node)
    requires r.WF() && n in r.nodes && |v.fingers| == r.m && r.(nodes := r.nodes[n := v]).WF()
    requires Improves(r.Size(), n, r.nodes[n], v)
    ensures var t := r.(nodes := r.nodes[n := v]);
            Measure(t) <= Measure(r) && (Pointers(t) != Pointers(r) ==> Measure(t) < Measure(r))
  {
    var t := r.(nodes := r.nodes[n := v]);
    MeasureOfUpdate(r, n, v);
    if v.Succ() == r.Succ(n) && v.pred == r.nodes[n].pred {
      assert Pointers(t) == Pointers(r);
    }
  }

  /** With joins stopped, no step raises the measure, and every step that changes a successor
      or a predecessor lowers it. */
  lemma StepLowersMeasure(s: System, a: Action)
    requires Inv(s) && s.ring.WF() && Enabled(s, a) && !a.FinishJoin?
    ensures var t := Do(s, a);
            t.ring.WF() && t.Members() == s.Members() && Measure(t.ring) <= Measure(s.ring)
            && (Pointers(t.ring) != Pointers(s.ring) ==> Measure(t.ring) < Measure(s.ring))
  {
    StepKeepsInv(s, a);
    if OnlySends(a) {
      assert Do(s, a).ring == s.ring;
    } else {
      var n, v := ActionImproves(s, a);
      UpdateLowersMeasure(s.ring, n, v);
      assert s.ring.nodes[n := v].Keys == s.ring.nodes.Keys;
    }
  }

  /** How many steps of a run changed a successor or a predecessor. */
  ghost function Changes(s: System, acts: seq<Action>): nat
    requires Inv(s) && Legal(s, acts)
    decreases |acts|
  {
    if acts == [] then 0 else
      StepKeepsInv(s, acts[0]);
      (if Pointers(Do(s, acts[0]).ring) != Pointers(s.ring) then 1 else 0) + Changes(Do(s, acts[0]), acts[1..])
  }

  /** Any run without further joins, of any length, makes at most 2 * 2^M * |members| pointer changes. */
  lemma {:induction false} ChangesBounded(s: System, acts: seq<Action>)
    requires Inv(s) && s.ring.WF() && Legal(s, acts) && forall a :: a in acts ==> !a.FinishJoin?
    ensures Inv(Exec(s, acts)) && Exec(s, acts).ring.WF()
    ensures Changes(s, acts) + Measure(Exec(s, acts).ring) <= Measure(s.ring) <= 2 * s.Size() * |s.Members()|
    decreases |acts|
  {
    MeasureBound(s.ring, s.Members());
    if acts != [] {
      assert acts[0] in acts;
      StepKeepsInv(s, acts[0]);
      StepLowersMeasure(s, acts[0]);
      ChangesBounded(Do(s, acts[0]), acts[1..]);
    }
  }
}

/** Convergence of the protocol as it runs: stabilize calls of different nodes overlap, messages are
    late or repeated, lookups and finger repairs go on (chord/node.py, lines 194-303). */
module Interleaving {
  import opened RingMath
  import opened ChordNodes
  import opened Lookup
  import opened Protocol
  import opened Convergence
  import opened Stabilization
  import opened Wrappers

  // The ideal ring is stable

  lemma SamePointersSameIdeal(r: Ring, t: Ring)
    requires r.WF() && t.WF() && r.m == t.m && r.nodes.Keys == t.nodes.Keys && Pointers(r) == Pointers(t) && Ideal(r)
    ensures Ideal(t)
  {
    forall n | n in t.nodes ensures IdealAt(t.Size(), t.nodes, n) {
      assert IdealAt(r.Size(), r.nodes, n);
      assert Pointers(r)[n] == Pointers(t)[n];
      assert Pointers(r)[r.Succ(n)] == Pointers(t)[r.Succ(n)];
    }
  }

  lemma IdealNeverAdopts(s: System, n: Id)
    requires Inv(s) && s.ring.WF() && Ideal(s.ring) && n in s.ring.nodes
    ensures !s.ring.nodes[n].phase.Adopt?
  {
    InvNode(s, n);
    assert IdealAt(s.Size(), s.ring.nodes, n);
    forall x | x in s.ring.nodes ensures s.ring.nodes[n].phase.Adopt? ==> x == n {
      assert x in s.Members();
    }
  }

  /** Nobody lies between a node and its successor, so no answer changes an ideal successor. */
  lemma AnswerIsStill(s: System, n: Id)
    requires Inv(s) && s.ring.WF() && Ideal(s.ring) && Enabled(s, ApplyAnswer(n)) && Do(s, ApplyAnswer(n)).ring.WF()
    ensures Pointers(Do(s, ApplyAnswer(n)).ring) == Pointers(s.ring)
  {
    var v := s.ring.nodes[n];
    InvNode(s, n);
    assert IdealAt(s.Size(), s.ring.nodes, n);
    if v.phase.x.Some? {
      assert v.phase.x.value in s.Members();
      InRangeIsSpan(s.Size(), v.phase.x.value, n, v.Succ());
    }
    assert ApplyHeard(n, v) == v.(phase := Idle);
  }

  /** Nor does any notify, however old, change an ideal predecessor. */
  lemma NotifyIsStill(s: System, dst: Id, c: Id)
    requires Inv(s) && s.ring.WF() && Ideal(s.ring) && Enabled(s, HandleNotify(dst, c))
             && Do(s, HandleNotify(dst, c)).ring.WF()
    ensures Pointers(Do(s, HandleNotify(dst, c)).ring) == Pointers(s.ring)
  {
    assert MsgInv(s.ring.m, s.boot, s.Members(), Notify(dst, c));
    var p := SomebodyPointsAt(s.Size(), s.ring.nodes, dst, c);
    assert IdealAt(s.Size(), s.ring.nodes, p);
    assert c in s.Members();
    InRangeIsSpan(s.Size(), c, p, dst);
    assert Notified(dst, s.ring.nodes[dst], c) == s.ring.nodes[dst];
  }

  /** Steps that write no successor and no predecessor in any ring. */
  predicate WritesNoPointer(a: Action)
  {
    a.StartJoin? || a.Hop? || a.StartFix? || a.Snapshot? || a.AskPredecessor? || a.FinishFix?
  }

  lemma OthersAreStill(s: System, a: Action)
    requires Inv(s) && s.ring.WF() && Enabled(s, a) && WritesNoPointer(a) && Do(s, a).ring.WF()
    ensures Pointers(Do(s, a).ring) == Pointers(s.ring)
  {
    if OnlySends(a) {
      assert Do(s, a).ring == s.ring;
    } else {
      CallsAreStill(s, a);
    }
  }

  lemma CallsAreStill(s: System, a: Action)
    requires s.ring.WF() && Enabled(s, a) && (a.Snapshot? || a.AskPredecessor? || a.FinishFix?) && Do(s, a).ring.WF()
    ensures Pointers(Do(s, a).ring) == Pointers(s.ring)
  {
    var t, v := Do(s, a).ring, Do(s, a).ring.nodes[a.n];
    assert t.nodes == s.ring.nodes[a.n := v];
    assert v.fingers[0] == s.ring.nodes[a.n].fingers[0] && v.pred == s.ring.nodes[a.n].pred;
  }

  /** In the ideal ring no step but a join changes a successor or a predecessor, whatever stabilize
      calls are half done and whatever messages are still under way. */
  lemma IdealIsStable(s: System, a: Action)
    requires Inv(s) && s.ring.WF() && Ideal(s.ring) && Enabled(s, a) && !a.FinishJoin?
    ensures Do(s, a).ring.WF() && Pointers(Do(s, a).ring) == Pointers(s.ring) && Ideal(Do(s, a).ring)
  {
    StepKeepsInv(s, a);
    StepLowersMeasure(s, a);
    if a.ApplyAnswer? {
      AnswerIsStill(s, a.n);
    } else if a.HandleNotify? {
      NotifyIsStill(s, a.dst, a.candidate);
    } else if a.AdoptPredecessor? {
      IdealNeverAdopts(s, a.n);
    } else {
      OthersAreStill(s, a);
    }
    SamePointersSameIdeal(s.ring, Do(s, a).ring);
  }

  ghost predicate NoJoins(acts: seq<Action>)
  {
    forall a :: a in acts ==> !a.FinishJoin?
  }

  lemma {:induction false} IdealStays(s: System, acts: seq<Action>)
    requires Inv(s) && s.ring.WF() && Ideal(s.ring) && Legal(s, acts) && NoJoins(acts)
    ensures Exec(s, acts).ring.WF() && Ideal(Exec(s, acts).ring) && Pointers(Exec(s, acts).ring) == Pointers(s.ring)
    decreases |acts|
  {
    if acts != [] {
      assert acts[0] in acts;
      StepKeepsInv(s, acts[0]);
      IdealIsStable(s, acts[0]);
      IdealStays(Do(s, acts[0]), acts[1..]);
    }
  }

  // Rounds

  /** n, which is in the middle of a stabilize call, completes it: it adopts its predecessor, or
      applies the answer, and then the notify it sends is handled. */
  ghost predicate Finishes(s: System, acts: seq<Action>, n: Id)
    requires Legal(s, acts) && n in s.ring.nodes
    decreases |acts|
  {
    s.ring.nodes[n].phase.Idle?
    || (acts != []
        && if acts[0] == ApplyAnswer(n) then HandleNotify(Do(s, acts[0]).ring.nodes[n].fingers[0], n) in acts[1..]
           else n in Do(s, acts[0]).ring.nodes && Finishes(Do(s, acts[0]), acts[1..], n))
  }

  /** n makes a complete stabilize call somewhere in acts. */
  ghost predicate Stabilizes(s: System, acts: seq<Action>, n: Id)
    requires Legal(s, acts)
    decreases |acts|
  {
    acts != []
    && ((acts[0] == Snapshot(n) && n in Do(s, acts[0]).ring.nodes && Finishes(Do(s, acts[0]), acts[1..], n))
        || Stabilizes(Do(s, acts[0]), acts[1..], n))
  }

  /** A stretch of a run in which every member makes a complete stabilize call. Anything else may
      happen in between, other calls of the same nodes included; but nobody joins. */
  ghost predicate Round(s: System, acts: seq<Action>)
  {
    s.ring.WF() && Legal(s, acts) && NoJoins(acts)
    && forall n {:trigger Stabilizes(s, acts, n)} :: n in s.ring.nodes ==> Stabilizes(s, acts, n)
  }

  /** What n's stabilize call knows is up to date. */
  ghost predicate FreshPhase(r: Ring, n: Id)
    requires r.WF() && n in r.nodes
  {
    match r.nodes[n].phase
    case Idle => true
    case Adopt(p) => r.Succ(n) == n && r.nodes[n].pred == Some(p) && p != n
    case Ask(x) => x == r.Succ(n) && x != n
    case Heard(x) => r.Succ(n) != n && x == r.nodes[r.Succ(n)].pred
  }

  /** The step changes no successor and no predecessor. */
  ghost predicate Still(s: System, a: Action)
    requires s.ring.WF() && Enabled(s, a)
  {
    !a.FinishJoin? && Do(s, a).ring.WF() && Do(s, a).ring.nodes.Keys == s.ring.nodes.Keys
    && Pointers(Do(s, a).ring) == Pointers(s.ring)
  }

  lemma StillPointers(s: System, a: Action, n: Id)
    requires s.ring.WF() && Enabled(s, a) && Still(s, a) && n in s.ring.nodes
    ensures Do(s, a).ring.Succ(n) == s.ring.Succ(n) && Do(s, a).ring.nodes[n].pred == s.ring.nodes[n].pred
  {
    assert Pointers(Do(s, a).ring)[n] == Pointers(s.ring)[n];
  }

  lemma SnapshotIsFresh(s: System, n: Id)
    requires Inv(s) && s.ring.WF() && Enabled(s, Snapshot(n)) && Still(s, Snapshot(n))
    ensures FreshPhase(Do(s, Snapshot(n)).ring, n)
    ensures Do(s, Snapshot(n)).ring.nodes[n].phase.Idle? ==> Settled(Do(s, Snapshot(n)).ring, n)
  {
    InvNode(s, n);
    StillPointers(s, Snapshot(n), n);
  }

  /** The node of a step of stabilize. */
  predicate OfStabilize(a: Action, n: Id)
  {
    (a.Snapshot? || a.AdoptPredecessor? || a.AskPredecessor? || a.ApplyAnswer?) && a.n == n
  }

  lemma PhaseIsKept(s: System, a: Action, n: Id)
    requires s.ring.WF() && Enabled(s, a) && !a.FinishJoin? && !OfStabilize(a, n) && n in s.ring.nodes
    ensures n in Do(s, a).ring.nodes && Do(s, a).ring.nodes[n].phase == s.ring.nodes[n].phase
  {
  }

  lemma StillKeepsFresh(s: System, a: Action, n: Id)
    requires Inv(s) && s.ring.WF() && Enabled(s, a) && Still(s, a) && n in s.ring.nodes && FreshPhase(s.ring, n)
    ensures FreshPhase(Do(s, a).ring, n)
  {
    StillPointers(s, a, n);
    StillPointers(s, a, s.ring.Succ(n));
    if !OfStabilize(a, n) {
      PhaseIsKept(s, a, n);
    } else if a.Snapshot? {
      SnapshotIsFresh(s, n);
    }
  }

  /** While pointers are still, a notify that was handled would not change its target at any time. */
  lemma {:induction false} StillNotify(s: System, acts: seq<Action>, d: Id, n: Id)
    requires Inv(s) && s.ring.WF() && Legal(s, acts) && NoJoins(acts) && Changes(s, acts) == 0
    requires d in s.ring.nodes && n in s.ring.nodes && n != d && HandleNotify(d, n) in acts
    ensures s.ring.nodes[d].pred == Some(n)
            || (s.ring.nodes[d].pred.Some? && !InRange(n, s.ring.nodes[d].pred.value, d, false))
    decreases |acts|
  {
    assert acts[0] in acts;
    StepKeepsInv(s, acts[0]);
    StepLowersMeasure(s, acts[0]);
    StillPointers(s, acts[0], d);
    if acts[0] != HandleNotify(d, n) {
      StillNotify(Do(s, acts[0]), acts[1..], d, n);
    }
  }

  lemma SettledStays(s: System, a: Action, n: Id)
    requires s.ring.WF() && Enabled(s, a) && Still(s, a) && n in s.ring.nodes && Settled(Do(s, a).ring, n)
    ensures Settled(s.ring, n)
  {
    StillPointers(s, a, n);
    StillPointers(s, a, s.ring.Succ(n));
  }

  lemma AppliedIsSettled(s: System, acts: seq<Action>, n: Id)
    requires Inv(s) && s.ring.WF() && Legal(s, acts) && NoJoins(acts) && Changes(s, acts) == 0
    requires acts != [] && acts[0] == ApplyAnswer(n) && n in s.ring.nodes && FreshPhase(s.ring, n)
             && Finishes(s, acts, n)
    ensures Settled(s.ring, n)
  {
    var a, succ := acts[0], s.ring.Succ(n);
    assert a in acts;
    StepKeepsInv(s, a);
    StepLowersMeasure(s, a);
    StillPointers(s, a, n);
    StillPointers(s, a, succ);
    InvNode(s, n);
    InvNode(s, succ);
    StillNotify(Do(s, a), acts[1..], succ, n);
    if s.ring.nodes[succ].pred != Some(n) {
      AgreedIsLinkedBack(s, n);
    }
  }

  lemma AdoptIsNotStill(s: System, n: Id)
    requires s.ring.WF() && n in s.ring.nodes && FreshPhase(s.ring, n) && Enabled(s, AdoptPredecessor(n))
    ensures !Still(s, AdoptPredecessor(n))
  {
    if Still(s, AdoptPredecessor(n)) {
      StillPointers(s, AdoptPredecessor(n), n);
    }
  }

  /** The call goes on: the step neither adopts nor applies the answer. */
  lemma CallGoesOn(s: System, acts: seq<Action>, n: Id)
    requires Legal(s, acts) && acts != [] && s.ring.WF() && n in s.ring.nodes && !s.ring.nodes[n].phase.Idle?
             && !acts[0].FinishJoin?
    requires acts[0] != ApplyAnswer(n) && acts[0] != AdoptPredecessor(n) && Finishes(s, acts, n)
    ensures var t := Do(s, acts[0]);
            n in t.ring.nodes && !t.ring.nodes[n].phase.Idle? && Finishes(t, acts[1..], n)
  {
    if !OfStabilize(acts[0], n) {
      PhaseIsKept(s, acts[0], n);
    }
  }

  /** A call that is completed while pointers are still leaves its node settled. */
  lemma {:induction false} StillFinishes(s: System, acts: seq<Action>, n: Id)
    requires Inv(s) && s.ring.WF() && Legal(s, acts) && NoJoins(acts) && Changes(s, acts) == 0
    requires n in s.ring.nodes && !s.ring.nodes[n].phase.Idle? && FreshPhase(s.ring, n) && Finishes(s, acts, n)
    ensures Settled(s.ring, n)
    decreases |acts|
  {
    var a := acts[0];
    assert a in acts;
    StepKeepsInv(s, a);
    StepLowersMeasure(s, a);
    if a == ApplyAnswer(n) {
      AppliedIsSettled(s, acts, n);
    } else {
      if a == AdoptPredecessor(n) {
        AdoptIsNotStill(s, n);
      }
      CallGoesOn(s, acts, n);
      StillKeepsFresh(s, a, n);
      StillFinishes(Do(s, a), acts[1..], n);
      SettledStays(s, a, n);
    }
  }

  lemma {:induction false} StillStabilizes(s: System, acts: seq<Action>, n: Id)
    requires Inv(s) && s.ring.WF() && Legal(s, acts) && NoJoins(acts) && Changes(s, acts) == 0
    requires n in s.ring.nodes && Stabilizes(s, acts, n)
    ensures Settled(s.ring, n)
    decreases |acts|
  {
    var a := acts[0];
    assert a in acts;
    StepKeepsInv(s, a);
    StepLowersMeasure(s, a);
    if a == Snapshot(n) && Finishes(Do(s, a), acts[1..], n) {
      SnapshotIsFresh(s, n);
      if !Do(s, a).ring.nodes[n].phase.Idle? {
        StillFinishes(Do(s, a), acts[1..], n);
      }
    } else {
      StillStabilizes(Do(s, a), acts[1..], n);
    }
    SettledStays(s, a, n);
  }

  /** A round lowers the measure, or the ring is ideal. */
  lemma RoundProgress(s: System, acts: seq<Action>)
    requires Inv(s) && Round(s, acts)
    ensures Inv(Exec(s, acts)) && Exec(s, acts).ring.WF() && Exec(s, acts).Members() == s.Members()
    ensures Measure(Exec(s, acts).ring) < Measure(s.ring) || (Ideal(s.ring) && Ideal(Exec(s, acts).ring))
  {
    ChangesBounded(s, acts);
    MembersStay(s, acts);
    if Changes(s, acts) == 0 {
      forall n | n in s.ring.nodes ensures Settled(s.ring, n) {
        StillStabilizes(s, acts, n);
      }
      SettledIsIdeal(s);
      IdealStays(s, acts);
    }
  }

  lemma {:induction false} MembersStay(s: System, acts: seq<Action>)
    requires Inv(s) && s.ring.WF() && Legal(s, acts) && NoJoins(acts)
    ensures Exec(s, acts).Members() == s.Members() && Exec(s, acts).ring.m == s.ring.m
    decreases |acts|
  {
    if acts != [] {
      assert acts[0] in acts;
      StepKeepsInv(s, acts[0]);
      StepLowersMeasure(s, acts[0]);
      MembersStay(Do(s, acts[0]), acts[1..]);
    }
  }

  // Runs made of rounds

  ghost predicate RunOfRounds(s: System, rounds: seq<seq<Action>>)
    decreases |rounds|
  {
    rounds == [] || (Round(s, rounds[0]) && RunOfRounds(Exec(s, rounds[0]), rounds[1..]))
  }

  ghost function ExecRounds(s: System, rounds: seq<seq<Action>>): System
    requires RunOfRounds(s, rounds)
    decreases |rounds|
  {
    if rounds == [] then s else ExecRounds(Exec(s, rounds[0]), rounds[1..])
  }

  /** After k rounds the measure has fallen by k, or the ring is ideal. */
  lemma {:induction false} RoundsProgress(s: System, rounds: seq<seq<Action>>)
    requires Inv(s) && s.ring.WF() && RunOfRounds(s, rounds)
    ensures var t := ExecRounds(s, rounds);
            Inv(t) && t.ring.WF() && t.Members() == s.Members()
            && (Ideal(t.ring) || (!Ideal(s.ring) && Measure(t.ring) + |rounds| <= Measure(s.ring)))
    decreases |rounds|
  {
    if rounds != [] {
      RoundProgress(s, rounds[0]);
      if Ideal(s.ring) {
        IdealStays(s, rounds[0]);
      }
      RoundsProgress(Exec(s, rounds[0]), rounds[1..]);
    }
  }

  // Rounds can always be made

  lemma {:induction false} LegalConcat(s: System, a: seq<Action>, b: seq<Action>)
    requires Legal(s, a) && Legal(Exec(s, a), b)
    ensures Legal(s, a + b) && Exec(s, a + b) == Exec(Exec(s, a), b)
    decreases |a|
  {
    if a == [] {
      assert a + b == b;
    } else {
      assert (a + b)[1..] == a[1..] + b;
      LegalConcat(Do(s, a[0]), a[1..], b);
    }
  }

  lemma {:induction false} FinishesMore(s: System, a: seq<Action>, b: seq<Action>, n: Id)
    requires Legal(s, a) && Legal(s, a + b) && n in s.ring.nodes && Finishes(s, a, n)
    ensures Finishes(s, a + b, n)
    decreases |a|
  {
    if !s.ring.nodes[n].phase.Idle? {
      assert (a + b)[1..] == a[1..] + b;
      if a[0] != ApplyAnswer(n) {
        FinishesMore(Do(s, a[0]), a[1..], b, n);
      }
    }
  }

  lemma {:induction false} StabilizesMore(s: System, a: seq<Action>, b: seq<Action>, n: Id)
    requires Legal(s, a) && Legal(s, a + b) && Stabilizes(s, a, n)
    ensures Stabilizes(s, a + b, n)
    decreases |a|
  {
    assert (a + b)[1..] == a[1..] + b;
    if a[0] == Snapshot(n) && n in Do(s, a[0]).ring.nodes && Finishes(Do(s, a[0]), a[1..], n) {
      FinishesMore(Do(s, a[0]), a[1..], b, n);
    } else {
      StabilizesMore(Do(s, a[0]), a[1..], b, n);
    }
  }

  lemma {:induction false} StabilizesLater(s: System, a: seq<Action>, b: seq<Action>, n: Id)
    requires Legal(s, a) && Legal(Exec(s, a), b) && Legal(s, a + b) && Stabilizes(Exec(s, a), b, n)
    ensures Stabilizes(s, a + b, n)
    decreases |a|
  {
    if a == [] {
      assert a + b == b;
    } else {
      assert (a + b)[1..] == a[1..] + b;
      StabilizesLater(Do(s, a[0]), a[1..], b, n);
    }
  }

  /** A half-done call can be brought to its end. */
  lemma {:induction false} ToIdle(s: System, n: Id) returns (acts: seq<Action>)
    requires Inv(s) && s.ring.WF() && n in s.ring.nodes
    ensures Legal(s, acts) && NoJoins(acts)
    ensures var t := Exec(s, acts);
            Inv(t) && t.ring.WF() && t.Members() == s.Members() && n in t.ring.nodes && t.ring.nodes[n].phase.Idle?
    decreases var phase := s.ring.nodes[n].phase; if phase.Idle? then 0 else if phase.Ask? then 2 else 1
  {
    InvNode(s, n);
    match s.ring.nodes[n].phase {
      case Idle => acts := [];
      case Adopt(_) => acts := ToIdleBy(s, n, AdoptPredecessor(n));
      case Ask(_) => acts := ToIdleBy(s, n, AskPredecessor(n));
      case Heard(_) => acts := ToIdleBy(s, n, ApplyAnswer(n));
    }
  }

  lemma {:induction false} ToIdleBy(s: System, n: Id, a: Action) returns (acts: seq<Action>)
    requires Inv(s) && s.ring.WF() && n in s.ring.nodes && Enabled(s, a) && !s.ring.nodes[n].phase.Idle?
    requires a == AdoptPredecessor(n) || a == AskPredecessor(n) || a == ApplyAnswer(n)
    ensures Legal(s, acts) && NoJoins(acts)
    ensures var t := Exec(s, acts);
            Inv(t) && t.ring.WF() && t.Members() == s.Members() && n in t.ring.nodes && t.ring.nodes[n].phase.Idle?
    decreases (if s.ring.nodes[n].phase.Ask? then 2 else 1), 0
  {
    StepKeepsInv(s, a);
    StepLowersMeasure(s, a);
    var rest := ToIdle(Do(s, a), n);
    acts := [a] + rest;
    assert acts[1..] == rest;
  }

  lemma ApplyFinishes(s: System, acts: seq<Action>, n: Id)
    requires Legal(s, acts) && |acts| == 2 && acts[0] == ApplyAnswer(n) && n in s.ring.nodes
    requires |s.ring.nodes[n].fingers| > 0 && s.ring.nodes[n].phase.Heard?
    requires acts[1] == HandleNotify(ApplyHeard(n, s.ring.nodes[n]).Succ(), n)
    ensures Finishes(s, acts, n)
  {
    assert acts[1] == acts[1..][0];
  }

  /** A call goes on after a step that neither applies the answer nor is missing. */
  lemma FinishesLater(s: System, acts: seq<Action>, n: Id)
    requires Legal(s, acts) && acts != [] && acts[0] != ApplyAnswer(n) && n in s.ring.nodes
    requires n in Do(s, acts[0]).ring.nodes && Finishes(Do(s, acts[0]), acts[1..], n)
    ensures Finishes(s, acts, n)
  {
  }

  lemma CallWithNeighbour(s: System, n: Id)
    requires Inv(s) && s.ring.WF() && n in s.ring.nodes && s.ring.nodes[n].phase.Idle? && s.ring.Succ(n) != n
    requires Legal(s, StabilizeActions(s.ring, n))
    ensures Finishes(Do(s, Snapshot(n)), StabilizeActions(s.ring, n)[1..], n)
  {
    var acts := StabilizeActions(s.ring, n);
    var s1 := Do(s, acts[0]);
    assert s1.ring.nodes == s.ring.nodes[n := s.ring.nodes[n].(phase := Ask(s.ring.Succ(n)))];
    assert acts[1..][0] == AskPredecessor(n) && acts[1..][1..] == [acts[2], acts[3]];
    var s2 := Do(s1, acts[1]);
    assert s2.ring.nodes[n] == s.ring.nodes[n].(phase := Heard(s.ring.nodes[s.ring.Succ(n)].pred));
    ApplyFinishes(s2, acts[1..][1..], n);
    FinishesLater(s1, acts[1..], n);
  }

  lemma CallStabilizes(s: System, n: Id)
    requires Inv(s) && s.ring.WF() && n in s.ring.nodes && s.ring.nodes[n].phase.Idle?
    requires Legal(s, StabilizeActions(s.ring, n))
    ensures Stabilizes(s, StabilizeActions(s.ring, n), n) && NoJoins(StabilizeActions(s.ring, n))
  {
    var acts := StabilizeActions(s.ring, n);
    if s.ring.Succ(n) != n {
      CallWithNeighbour(s, n);
    } else if |acts| == 2 {
      assert acts[1..][0] == acts[1];
    }
    assert Finishes(Do(s, Snapshot(n)), acts[1..], n);
  }

  /** From every state, any node can make a complete stabilize call. */
  lemma OneCall(s: System, n: Id) returns (acts: seq<Action>)
    requires Inv(s) && s.ring.WF() && n in s.ring.nodes
    ensures Legal(s, acts) && NoJoins(acts) && Stabilizes(s, acts, n)
  {
    var before := ToIdle(s, n);
    var t := Exec(s, before);
    if t.ring.Succ(n) == n {
      StabilizeAlone(t, n);
    } else {
      StabilizeWithNeighbour(t, n);
    }
    CallStabilizes(t, n);
    acts := before + StabilizeActions(t.ring, n);
    LegalConcat(s, before, StabilizeActions(t.ring, n));
    StabilizesLater(s, before, StabilizeActions(t.ring, n), n);
  }

  /** All nodes of ns, one after the other. */
  lemma {:induction false} AllCalls(s: System, ns: set<Id>) returns (acts: seq<Action>)
    requires Inv(s) && s.ring.WF() && ns <= s.Members()
    ensures Legal(s, acts) && NoJoins(acts)
    ensures forall n {:trigger Stabilizes(s, acts, n)} :: n in ns ==> Stabilizes(s, acts, n)
    decreases |ns|
  {
    acts := [];
    if ns != {} {
      var x :| x in ns;
      var before := AllCalls(s, ns - {x});
      var t := Exec(s, before);
      RunKeepsInv(s, before);
      InvGivesWF(t);
      MembersStay(s, before);
      assert x in t.Members();
      var call := OneCall(t, x);
      acts := before + call;
      LegalConcat(s, before, call);
      forall n | n in ns ensures Stabilizes(s, acts, n) {
        if n == x {
          StabilizesLater(s, before, call, n);
        } else {
          StabilizesMore(s, before, call, n);
        }
      }
    }
  }

  /** From every state of the protocol any number of rounds can be made. */
  lemma {:induction false} RoundsExist(s: System, k: nat) returns (rounds: seq<seq<Action>>)
    requires Inv(s) && s.ring.WF()
    ensures RunOfRounds(s, rounds) && |rounds| == k
    decreases k
  {
    rounds := [];
    if k > 0 {
      var acts := AllCalls(s, s.Members());
      assert Round(s, acts);
      RoundProgress(s, acts);
      var rest := RoundsExist(Exec(s, acts), k - 1);
      rounds := [acts] + rest;
      assert rounds[1..] == rest;
    }
  }

  /** Rounds reach the ideal ring, and no later step but a join leaves it. */
  lemma RoundsConverge(s: System, rounds: seq<seq<Action>>, more: seq<Action>)
    requires Inv(s) && s.ring.WF() && RunOfRounds(s, rounds) && |rounds| > Measure(s.ring)
    requires Legal(ExecRounds(s, rounds), more) && NoJoins(more)
    ensures var t := ExecRounds(s, rounds);
            t.ring.WF() && Ideal(t.ring) && Exec(t, more).ring.WF() && Ideal(Exec(t, more).ring)
  {
    RoundsProgress(s, rounds);
    IdealStays(ExecRounds(s, rounds), more);
  }

  /** The state comes up in some run of the join-only protocol from one bootstrap node. */
  ghost predicate Reached(s: System)
  {
    exists m: nat, b: Id, acts: seq<Action> ::
      m > 0 && b < Pow2(m) && Legal(Init(m, b), acts) && s == Exec(Init(m, b), acts)
  }

  lemma ReachedInv(s: System)
    requires Reached(s)
    ensures Inv(s) && s.ring.WF()
  {
    var m: nat, b: Id, acts: seq<Action> :|
      m > 0 && b < Pow2(m) && Legal(Init(m, b), acts) && s == Exec(Init(m, b), acts);
    InitInv(m, b);
    RunKeepsInv(Init(m, b), acts);
    InvGivesWF(s);
  }

  /** The protocol converges as it runs: after any joins, with stabilize calls half done and messages
      under way, a run without joins reaches the ideal ring, and stays there, if it can be cut into
      more than 2 * 2^M * N rounds, each of which has a stabilize call of every node in it from
      beginning to end. How the calls overlap does not matter. It is rounds that count: any number of
      calls of each node may leave the ring as it is, if the nodes call in the wrong order (see
      CountingCallsIsNotEnough). */
  lemma InterleavedConvergence(s: System, rounds: seq<seq<Action>>, more: seq<Action>)
    requires Reached(s) && RunOfRounds(s, rounds) && |rounds| > 2 * s.Size() * |s.Members()|
    requires Legal(ExecRounds(s, rounds), more) && NoJoins(more)
    ensures var t := ExecRounds(s, rounds);
            t.ring.WF() && Ideal(t.ring) && t.ring.IdealSucc()
            && Exec(t, more).ring.WF() && Ideal(Exec(t, more).ring)
  {
    ReachedInv(s);
    MeasureBound(s.ring, s.Members());
    RoundsConverge(s, rounds, more);
    IdealHasIdealSucc(ExecRounds(s, rounds).ring);
  }

  // Counting calls is not enough

  /** k whole stabilize calls of n, one after the other. */
  ghost function Calls(r: Ring, n: Id, k: nat): Ring
    decreases k
  {
    if k == 0 || !r.WF() || n !in r.nodes then r else Calls(Stabilize(r, n), n, k - 1)
  }

  lemma {:induction false} CallsWhenStuck(r: Ring, n: Id, k: nat)
    requires r.WF() && n in r.nodes && Stuck(r, n)
    ensures Calls(r, n, k) == r
    decreases k
  {
    if k > 0 {
      CallsWhenStuck(r, n, k - 1);
    }
  }

  lemma OneCallThenStuck(r: Ring, t: Ring, n: Id, k: nat)
    requires r.WF() && t.WF() && n in r.nodes && n in t.nodes && Stabilize(r, n) == t && Stuck(t, n) && k >= 1
    ensures Calls(r, n, k) == t
  {
    CallsWhenStuck(t, n, k - 1);
  }

  /** The ring of four points with nodes 0, 1 and 2, where 1 and 2 have successor 0; s0 is the successor
      of 0, and p0 and p2 the predecessors of 0 and 2. */
  function ThreeNodes(s0: Id, p0: Option<Id>, p2: Option<Id>): (r: Ring)
    requires s0 in {0, 2} && (p0.Some? ==> p0.value in {1, 2}) && (p2.Some? ==> p2.value == 0)
    ensures r.WF() && r.Size() == 4 && r.nodes.Keys == {0, 1, 2}
  {
    var v0, v1, v2 := Node(p0, [s0, 0], Idle), Node(None, [0, 1], Idle), Node(p2, [0, 2], Idle);
    var r := Ring(2, map[0 := v0, 1 := v1, 2 := v2]);
    assert Pow2(0) == 1 && Pow2(1) == 2 && Pow2(2) == 4;
    assert r.nodes.Keys == {0, 1, 2};
    assert forall i {:trigger v0.fingers[i]} :: 0 <= i < 2 ==> v0.fingers[i] in r.nodes;
    assert forall i {:trigger v1.fingers[i]} :: 0 <= i < 2 ==> v1.fingers[i] in r.nodes;
    assert forall i {:trigger v2.fingers[i]} :: 0 <= i < 2 ==> v2.fingers[i] in r.nodes;
    r
  }

  /** Joins of 1 and 2 at the bootstrap node 0, before anybody stabilizes. */
  lemma JoinBoth() returns (acts: seq<Action>)
    ensures Legal(Init(2, 0), acts) && Exec(Init(2, 0), acts).ring == ThreeNodes(0, None, None)
  {
    assert Pow2(0) == 1 && Pow2(1) == 2 && Pow2(2) == 4;
    acts := [StartJoin(1, 0), Hop(Query(0, 1, Joining(1))), FinishJoin(1, 0)];
    JoinOne(Init(2, 0), 1);
    var more := [StartJoin(2, 0), Hop(Query(0, 2, Joining(2))), FinishJoin(2, 0)];
    var s := Exec(Init(2, 0), acts);
    JoinOne(s, 2);
    LegalConcat(Init(2, 0), acts, more);
    JoinedNodes();
    acts := acts + more;
  }

  lemma JoinedNodes()
    ensures Init(2, 0).With(1, Fresh(2, 1, 0)).With(2, Fresh(2, 2, 0)).ring == ThreeNodes(0, None, None)
  {
    assert Fresh(2, 1, 0).fingers == [0, 1] && Fresh(2, 2, 0).fingers == [0, 2] && Fresh(2, 0, 0).fingers == [0, 0];
    assert Init(2, 0).With(1, Fresh(2, 1, 0)).With(2, Fresh(2, 2, 0)).ring.nodes == ThreeNodes(0, None, None).nodes;
  }

  /** j joins at node 0, which is its own successor. */
  lemma JoinOne(s: System, j: Id)
    requires Inv(s) && s.ring.WF() && 0 in s.ring.nodes && s.ring.Succ(0) == 0 && j < s.Size() && j !in s.ring.nodes
    ensures var acts := [StartJoin(j, 0), Hop(Query(0, j, Joining(j))), FinishJoin(j, 0)];
            Legal(s, acts) && Exec(s, acts).ring == s.With(j, Fresh(s.ring.m, j, 0)).ring
            && Inv(Exec(s, acts)) && Exec(s, acts).ring.WF()
  {
    var acts := [StartJoin(j, 0), Hop(Query(0, j, Joining(j))), FinishJoin(j, 0)];
    var s1 := Do(s, acts[0]);
    StepKeepsInv(s, acts[0]);
    var s2 := Do(s1, acts[1]);
    StepKeepsInv(s1, acts[1]);
    StepKeepsInv(s2, acts[2]);
    assert acts[1..][0] == acts[1] && acts[1..][1..][0] == acts[2] && acts[1..][1..][1..] == [];
    assert Exec(s2, acts[1..][1..]) == Do(s2, acts[2]);
    assert Exec(s1, acts[1..]) == Exec(s2, acts[1..][1..]);
  }

  lemma FirstCalls(k: nat)
    requires k >= 1
    ensures Calls(ThreeNodes(0, None, None), 1, k) == ThreeNodes(0, Some(1), None)
  {
    var r0, r1 := ThreeNodes(0, None, None), ThreeNodes(0, Some(1), None);
    assert Stabilize(r0, 1).nodes == r1.nodes;
    assert Stabilize(r1, 1).nodes == r1.nodes;
    OneCallThenStuck(r0, r1, 1, k);
  }

  lemma SecondCalls(k: nat)
    requires k >= 1
    ensures Calls(ThreeNodes(0, Some(1), None), 2, k) == ThreeNodes(0, Some(2), None)
  {
    var r1, r2 := ThreeNodes(0, Some(1), None), ThreeNodes(0, Some(2), None);
    assert Stabilize(r1, 2).nodes == r2.nodes;
    assert Stabilize(r2, 2).nodes == r2.nodes;
    OneCallThenStuck(r1, r2, 2, k);
  }

  lemma ThirdCalls(k: nat)
    requires k >= 2
    ensures Calls(ThreeNodes(0, Some(2), None), 0, k) == ThreeNodes(2, Some(2), Some(0))
            && Stuck(ThreeNodes(2, Some(2), Some(0)), 0)
  {
    var r2, r3, r4 := ThreeNodes(0, Some(2), None), ThreeNodes(2, Some(2), None), ThreeNodes(2, Some(2), Some(0));
    assert [0, 0][0 := 2] == [2, 0];
    assert Stabilize(r2, 0).nodes == r3.nodes;
    assert Stabilize(r3, 0).nodes == r4.nodes;
    assert Stabilize(r4, 0).nodes == r4.nodes;
    OneCallThenStuck(r3, r4, 0, k - 1);
  }

  /** After these joins let 1 make any number of calls, then 2, then 0: everybody has made as many as
      one likes, and the last ones changed nothing, but 1 still has successor 0 where 2 is next. */
  lemma CountingCallsIsNotEnough(k: nat)
    requires k >= 2
    ensures var r := Calls(Calls(Calls(ThreeNodes(0, None, None), 1, k), 2, k), 0, k);
            r == ThreeNodes(2, Some(2), Some(0)) && Stuck(r, 0) && r.Succ(1) == 0 && !Ideal(r)
  {
    FirstCalls(k);
    SecondCalls(k);
    ThirdCalls(k);
    NotIdeal();
  }

  lemma NotIdeal()
    ensures ThreeNodes(2, Some(2), Some(0)).Succ(1) == 0 && !Ideal(ThreeNodes(2, Some(2), Some(0)))
  {
    var r := ThreeNodes(2, Some(2), Some(0));
    assert 2 in r.nodes.Keys && Span(4, 1, 2) < Span(4, 1, 0);
    assert !IdealAt(4, r.nodes, 1);
  }
}

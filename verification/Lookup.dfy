/** find_successor across the ring (chord/node.py, lines 133-170). */
module Lookup {
  import opened RingMath
  import opened ChordNodes
  import opened Wrappers

  /** Pointers of all members; m is the number of bits of an identifier. */
  datatype Ring = Ring(m: nat, nodes: map<Id, Node>)
  {
    function Size(): nat { Pow2(m) }

    /** Every pointer of every member names a member. */
    ghost predicate WF()
    {
      m > 0 && nodes != map[]
      && (forall n :: n in nodes ==> n < Size())
      && (forall n {:trigger nodes[n].fingers} :: n in nodes ==> |nodes[n].fingers| == m)
      && (forall n, i {:trigger nodes[n].fingers[i]} :: n in nodes && 0 <= i < m ==> nodes[n].fingers[i] in nodes)
      && (forall n {:trigger nodes[n].pred} :: n in nodes && nodes[n].pred.Some? ==> nodes[n].pred.value in nodes)
    }

    function Succ(n: Id): Id
      requires WF() && n in nodes
    {
      nodes[n].fingers[0]
    }

    function LastFinger(n: Id): Id
      requires WF() && n in nodes
    {
      nodes[n].fingers[m - 1]
    }

    ghost predicate IdealSucc()
      requires WF()
    {
      forall n {:trigger Succ(n)} :: n in nodes ==> IsNext(Size(), nodes.Keys, n, Succ(n))
    }

    /** Finger i of n points at the owner of n + 2^i. */
    ghost predicate CorrectFinger(n: Id, i: nat)
      requires WF() && n in nodes && i < m
    {
      Pow2(i) < Size() && IsOwner(Size(), nodes.Keys, FingerStart(Size(), n, Pow2(i)), nodes[n].fingers[i])
    }

    ghost predicate CorrectFingers()
      requires WF()
    {
      forall n, i {:trigger CorrectFinger(n, i)} :: n in nodes && 0 <= i < m ==> CorrectFinger(n, i)
    }
  }

  lemma StepOnRing(r: Ring, n: Id, key: Id)
    requires r.WF() && n in r.nodes && key < r.Size()
    ensures OnCircle(r.Size(), n, r.nodes[n].fingers)
    ensures var step := LookupStep(n, r.nodes[n].fingers, key);
            (step.Delegate? ==> step.next in r.nodes && Span(r.Size(), step.next, key) < Span(r.Size(), n, key))
            && (step.Found? ==> step.node == r.Succ(n))
  {
    LookupStepMeaning(r.Size(), n, r.nodes[n].fingers, key);
  }

  /** The answer of member n: its successor, or a member strictly nearer to the key. */
  function StepAt(r: Ring, n: Id, key: Id): (step: Reply)
    requires r.WF() && n in r.nodes && key < r.Size()
    ensures step.Found? ==> step.node == r.Succ(n) && step.node in r.nodes
    ensures step.Delegate? ==> step.next in r.nodes && Span(r.Size(), step.next, key) < Span(r.Size(), n, key)
  {
    StepOnRing(r, n, key);
    LookupStep(n, r.nodes[n].fingers, key)
  }

  /** The whole delegation chain. It ends in every pointer state whatever, because the span
      to the key strictly falls at each delegation. */
  function FindSuccessor(r: Ring, n: Id, key: Id): (owner: Id)
    requires r.WF() && n in r.nodes && key < r.Size()
    ensures owner in r.nodes
    decreases Span(r.Size(), n, key)
  {
    match StepAt(r, n, key)
    case Found(x) => x
    case Delegate(c) => FindSuccessor(r, c, key)
  }

  /** Number of delegations of that chain. */
  function Hops(r: Ring, n: Id, key: Id): nat
    requires r.WF() && n in r.nodes && key < r.Size()
    decreases Span(r.Size(), n, key)
  {
    match StepAt(r, n, key)
    case Found(x) => 0
    case Delegate(c) => 1 + Hops(r, c, key)
  }

  /** The guard that decides whether asking n for a key goes wrong: n is asked for its own id,
      it is not alone, and its last finger still (or rightly) points at itself. */
  predicate AsksOwnId(r: Ring, n: Id, key: Id)
    requires r.WF() && n in r.nodes
  {
    key == n && r.Succ(n) != n && r.LastFinger(n) == n
  }

  /** With correct successors, and every other finger any member at all, a lookup returns the
      first member at or after the key, exactly when the guard above does not hold. */
  lemma {:induction false} LookupCorrect(r: Ring, n: Id, key: Id)
    requires r.WF() && r.IdealSucc() && n in r.nodes && key < r.Size()
    ensures FindSuccessor(r, n, key) == Owner(r.Size(), r.nodes.Keys, key) <==> !AsksOwnId(r, n, key)
    decreases Span(r.Size(), n, key)
  {
    var size, members, fingers := r.Size(), r.nodes.Keys, r.nodes[n].fingers;
    StepOnRing(r, n, key);
    LookupStepMeaning(size, n, fingers, key);
    match LookupStep(n, fingers, key) {
      case Delegate(c) =>
        LookupCorrect(r, c, key);
      case Found(x) =>
        if Span(size, n, key) <= Span(size, n, x) {
          NextOwnsArc(size, members, n, x, key);
        } else {
          assert Dist(size, key, n) < Dist(size, key, x);
        }
    }
  }

  /** Two nodes never disagree about an owner unless one of them is asked for its own id. */
  lemma LookupsAgree(r: Ring, a: Id, b: Id, key: Id)
    requires r.WF() && r.IdealSucc() && a in r.nodes && b in r.nodes && key < r.Size()
    requires !AsksOwnId(r, a, key) && !AsksOwnId(r, b, key)
    ensures FindSuccessor(r, a, key) == FindSuccessor(r, b, key)
  {
    LookupCorrect(r, a, key);
    LookupCorrect(r, b, key);
  }

  /** The guard can hold even when every finger is correct: two nodes, ids 0 and 1, M = 2. */
  lemma OwnIdLookupCanFail() returns (r: Ring)
    ensures r.WF() && r.IdealSucc() && r.CorrectFingers() && r.Size() == 4 && r.nodes.Keys == {0, 1}
    ensures FindSuccessor(r, 0, 0) == 1 && Owner(r.Size(), r.nodes.Keys, 0) == 0
  {
    var v0, v1 := Node(Some(1), [1, 0], Idle), Node(Some(0), [0, 0], Idle);
    r := Ring(2, map[0 := v0, 1 := v1]);
    assert Pow2(0) == 1 && Pow2(1) == 2 && Pow2(2) == 4;
    assert r.nodes.Keys == {0, 1};
    assert forall i {:trigger v0.fingers[i]} :: 0 <= i < 2 ==> v0.fingers[i] in r.nodes;
    assert forall i {:trigger v1.fingers[i]} :: 0 <= i < 2 ==> v1.fingers[i] in r.nodes;
    assert r.WF();
    assert r.IdealSucc();
    assert IsOwner(4, {0, 1}, 1, 1) && IsOwner(4, {0, 1}, 2, 0) && IsOwner(4, {0, 1}, 3, 0);
    assert r.CorrectFinger(0, 0) && r.CorrectFinger(0, 1) && r.CorrectFinger(1, 0) && r.CorrectFinger(1, 1);
    assert r.CorrectFingers();
    LookupCorrect(r, 0, 0);
    assert IsOwner(4, {0, 1}, 0, 0);
    StepOnRing(r, 0, 0);
    assert FindSuccessor(r, 0, 0) in {0, 1};
  }

  // Hop bound

  /** A key lies in the arc just after its last preceding member p. */
  ghost predicate LastBefore(r: Ring, p: Id, key: Id)
    requires r.WF() && key < r.Size()
  {
    p in r.nodes && Span(r.Size(), p, key) <= Span(r.Size(), p, r.Succ(p))
  }

  /** start is step further than n, f the first member after start, q the first member after p,
      and the key lies in (p, q]. */
  lemma FingerReachArithmetic(size: nat, n: Id, p: Id, q: Id, key: Id, f: Id, step: nat)
    requires n < size && p < size && q < size && key < size && f < size && 0 < step < size && key != n
    requires var start := FingerStart(size, n, step);
             Dist(size, start, f) <= Dist(size, start, n) && Dist(size, start, f) <= Dist(size, start, p)
    requires Span(size, p, key) <= Span(size, p, q)
    requires Span(size, p, q) <= Span(size, p, n) && Span(size, p, q) <= Span(size, p, f)
    ensures Span(size, n, f) < Span(size, n, key) ==> step <= Dist(size, n, f) <= Dist(size, n, p)
    ensures step <= Dist(size, n, p) ==> Span(size, n, f) < Span(size, n, key)
  {
  }

  /** A correct finger that lies strictly before the key is at most as far as p, and at least 2^i away. */
  lemma FingerReach(r: Ring, n: Id, p: Id, key: Id, i: nat)
    requires r.WF() && r.IdealSucc() && r.CorrectFingers()
    requires n in r.nodes && key < r.Size() && key != n && LastBefore(r, p, key)
    requires i < r.m
    ensures var f := r.nodes[n].fingers[i];
            (InRange(f, n, key, false) ==> Pow2(i) <= Dist(r.Size(), n, f) <= Dist(r.Size(), n, p))
            && (Pow2(i) <= Dist(r.Size(), n, p) ==> InRange(f, n, key, false))
  {
    var size, f, q := r.Size(), r.nodes[n].fingers[i], r.Succ(p);
    assert r.CorrectFinger(n, i);
    assert IsNext(size, r.nodes.Keys, p, q);
    assert n in r.nodes.Keys && p in r.nodes.Keys && f in r.nodes.Keys;
    FingerReachArithmetic(size, n, p, q, key, f, Pow2(i));
    InRangeIsSpan(size, f, n, key);
  }

  /** The delegate is found by the highest finger j that still precedes the key. */
  lemma DelegateReach(r: Ring, n: Id, p: Id, key: Id, e: nat) returns (j: nat)
    requires r.WF() && r.IdealSucc() && r.CorrectFingers()
    requires n in r.nodes && key < r.Size() && key != n && LastBefore(r, p, key)
    requires LookupStep(n, r.nodes[n].fingers, key).Delegate? && e < r.m
    ensures var c := LookupStep(n, r.nodes[n].fingers, key).next;
            c in r.nodes && Pow2(j) <= Dist(r.Size(), n, c) <= Dist(r.Size(), n, p)
    ensures Pow2(e) <= Dist(r.Size(), n, p) ==> e <= j
  {
    var fingers := r.nodes[n].fingers;
    j := ClosestPicksHighest(n, fingers, key, |fingers|);
    FingerReach(r, n, p, key, j);
    if e > j {
      FingerReach(r, n, p, key, e);
    }
  }

  lemma HalvingArithmetic(size: nat, n: Id, c: Id, p: Id, i: nat, j: nat)
    requires n < size && c < size && p < size
    requires Pow2(j) <= Dist(size, n, c) <= Dist(size, n, p) < Pow2(i)
    requires i > 0 ==> (Pow2(i - 1) <= Dist(size, n, p) ==> i - 1 <= j)
    ensures i > 0 && Dist(size, c, p) < Pow2(i - 1)
  {
    if i > 0 && i - 1 <= j {
      Pow2Monotone(i - 1, j);
    }
  }

  /** One delegation: if the last member before the key is less than 2^i away from n, it is
      less than 2^(i-1) away from the delegate. */
  lemma DelegationHalves(r: Ring, n: Id, p: Id, key: Id, i: nat)
    requires r.WF() && r.IdealSucc() && r.CorrectFingers()
    requires n in r.nodes && key < r.Size() && key != n && LastBefore(r, p, key)
    requires i <= r.m && Dist(r.Size(), n, p) < Pow2(i)
    requires LookupStep(n, r.nodes[n].fingers, key).Delegate?
    ensures i > 0
    ensures var c := LookupStep(n, r.nodes[n].fingers, key).next;
            c in r.nodes && c != key && Dist(r.Size(), c, p) < Pow2(i - 1)
  {
    StepOnRing(r, n, key);
    LookupStepMeaning(r.Size(), n, r.nodes[n].fingers, key);
    var c := LookupStep(n, r.nodes[n].fingers, key).next;
    var j := DelegateReach(r, n, p, key, if i > 0 then i - 1 else 0);
    HalvingArithmetic(r.Size(), n, c, p, i, j);
  }

  /** If the last member before the key is less than 2^i away, at most i delegations are left. */
  lemma {:induction false} HopsWithin(r: Ring, n: Id, p: Id, key: Id, i: nat)
    requires r.WF() && r.IdealSucc() && r.CorrectFingers()
    requires n in r.nodes && key < r.Size() && key != n && LastBefore(r, p, key)
    requires i <= r.m && Dist(r.Size(), n, p) < Pow2(i)
    ensures Hops(r, n, key) <= i
    decreases i
  {
    var step := StepAt(r, n, key);
    if step.Delegate? {
      DelegationHalves(r, n, p, key, i);
      HopsWithin(r, step.next, p, key, i - 1);
    }
  }

  /** Some member is the last one before the key. */
  lemma {:induction false} LastBeforeExists(r: Ring, n: Id, key: Id) returns (p: Id)
    requires r.WF() && r.IdealSucc() && n in r.nodes && key < r.Size()
    ensures LastBefore(r, p, key)
    decreases Span(r.Size(), n, key)
  {
    var size := r.Size();
    if Span(size, n, key) <= Span(size, n, r.Succ(n)) {
      p := n;
    } else {
      SpanSplits(size, n, r.Succ(n), key);
      p := LastBeforeExists(r, r.Succ(n), key);
    }
  }

  /** A lookup in a ring with correct fingers makes at most M delegations. */
  lemma HopBound(r: Ring, n: Id, key: Id)
    requires r.WF() && r.IdealSucc() && r.CorrectFingers()
    requires n in r.nodes && key < r.Size() && key != n
    ensures Hops(r, n, key) <= r.m
  {
    var p := LastBeforeExists(r, n, key);
    HopsWithin(r, n, p, key, r.m);
  }

  // Finger repair

  /** One fix_fingers call of n for finger i, with nothing in between. */
  function Repair(r: Ring, n: Id, i: nat): Ring
    requires r.WF() && n in r.nodes && 1 <= i < r.m
  {
    Pow2Monotone(i, r.m);
    var owner := FindSuccessor(r, n, FingerStart(r.Size(), n, Pow2(i)));
    r.(nodes := r.nodes[n := r.nodes[n].(fingers := r.nodes[n].fingers[i := owner])])
  }

  lemma RepairIsWF(r: Ring, n: Id, i: nat)
    requires r.WF() && n in r.nodes && 1 <= i < r.m
    ensures var t := Repair(r, n, i);
            t.WF() && t.m == r.m && t.nodes.Keys == r.nodes.Keys
  {
    var t := Repair(r, n, i);
    assert t.nodes.Keys == r.nodes.Keys;
    forall x | x in t.nodes
      ensures |t.nodes[x].fingers| == t.m && (t.nodes[x].pred.Some? ==> t.nodes[x].pred.value in t.nodes)
      ensures forall j {:trigger t.nodes[x].fingers[j]} :: 0 <= j < t.m ==> t.nodes[x].fingers[j] in t.nodes
    {
      assert |r.nodes[x].fingers| == r.m;
      assert forall j {:trigger r.nodes[x].fingers[j]} :: 0 <= j < r.m ==> r.nodes[x].fingers[j] in r.nodes;
    }
  }

  lemma RepairIsRing(r: Ring, n: Id, i: nat)
    requires r.WF() && r.IdealSucc() && n in r.nodes && 1 <= i < r.m
    ensures var t := Repair(r, n, i);
            t.WF() && t.IdealSucc() && t.m == r.m && t.nodes.Keys == r.nodes.Keys
  {
    RepairIsWF(r, n, i);
    var t := Repair(r, n, i);
    forall x | x in t.nodes ensures IsNext(t.Size(), t.nodes.Keys, x, t.Succ(x)) {
      assert IsNext(r.Size(), r.nodes.Keys, x, r.Succ(x));
      assert t.Succ(x) == r.Succ(x);
    }
  }

  /** On a ring with correct successors a repair makes its finger correct, whatever the others are,
      and breaks no other one. */
  lemma RepairCorrects(r: Ring, n: Id, i: nat, x: Id, j: nat)
    requires r.WF() && r.IdealSucc() && n in r.nodes && 1 <= i < r.m && x in r.nodes && j < r.m
    requires (x, j) == (n, i) || r.CorrectFinger(x, j)
    ensures var t := Repair(r, n, i);
            t.WF() && t.IdealSucc() && t.m == r.m && t.nodes.Keys == r.nodes.Keys && t.CorrectFinger(x, j)
  {
    RepairIsRing(r, n, i);
    Pow2Monotone(i, r.m);
    LookupCorrect(r, n, FingerStart(r.Size(), n, Pow2(i)));
    var t := Repair(r, n, i);
    assert t.nodes[x].fingers[j] == if (x, j) == (n, i) then FindSuccessor(r, n, FingerStart(r.Size(), n, Pow2(i)))
                                    else r.nodes[x].fingers[j];
  }

  /** Finger 0 is the successor. */
  lemma SuccessorIsCorrectFinger(r: Ring, n: Id)
    requires r.WF() && r.IdealSucc() && n in r.nodes && r.Size() > 1
    ensures r.CorrectFinger(n, 0)
  {
    assert IsNext(r.Size(), r.nodes.Keys, n, r.Succ(n));
    forall x | x in r.nodes
      ensures Dist(r.Size(), FingerStart(r.Size(), n, 1), r.Succ(n)) <= Dist(r.Size(), FingerStart(r.Size(), n, 1), x)
    {
      assert x in r.nodes.Keys;
    }
  }

  ghost predicate Repairable(r: Ring, todo: seq<(Id, nat)>)
  {
    forall p :: p in todo ==> p.0 in r.nodes && 1 <= p.1 < r.m
  }

  ghost function RepairAll(r: Ring, todo: seq<(Id, nat)>): Ring
    requires r.WF() && r.IdealSucc() && Repairable(r, todo)
    decreases |todo|
  {
    if todo == [] then r
    else
      RepairIsRing(r, todo[0].0, todo[0].1);
      RepairAll(Repair(r, todo[0].0, todo[0].1), todo[1..])
  }

  lemma {:induction false} RepairsCorrect(r: Ring, todo: seq<(Id, nat)>, x: Id, j: nat)
    requires r.WF() && r.IdealSucc() && Repairable(r, todo) && x in r.nodes && j < r.m
    requires (x, j) in todo || r.CorrectFinger(x, j)
    ensures var t := RepairAll(r, todo);
            t.WF() && t.IdealSucc() && t.m == r.m && t.nodes.Keys == r.nodes.Keys && t.CorrectFinger(x, j)
    decreases |todo|
  {
    if todo != [] {
      RepairIsRing(r, todo[0].0, todo[0].1);
      assert todo == [todo[0]] + todo[1..];
      if (x, j) == todo[0] || r.CorrectFinger(x, j) {
        RepairCorrects(r, todo[0].0, todo[0].1, x, j);
      }
      RepairsCorrect(Repair(r, todo[0].0, todo[0].1), todo[1..], x, j);
    }
  }

  /** Once successors are correct, one repair of each finger of each node, in any order and with any
      fingers to begin with, makes all fingers correct; from then on every lookup for a key other than
      the asked node's id takes at most M delegations. */
  lemma RepairsGiveHopBound(r: Ring, todo: seq<(Id, nat)>, n: Id, key: Id)
    requires r.WF() && r.IdealSucc() && Repairable(r, todo) && n in r.nodes && key < r.Size() && key != n
    requires forall x, j {:trigger (x, j) in todo} :: x in r.nodes && 1 <= j < r.m ==> (x, j) in todo
    ensures var t := RepairAll(r, todo);
            t.WF() && t.IdealSucc() && t.nodes.Keys == r.nodes.Keys && t.m == r.m && t.CorrectFingers()
            && n in t.nodes && Hops(t, n, key) <= t.m
  {
    var t := RepairAll(r, todo);
    SuccessorIsCorrectFinger(r, n);
    RepairsCorrect(r, todo, n, 0);
    forall x, j | x in t.nodes && 0 <= j < t.m ensures t.CorrectFinger(x, j) {
      assert x in t.nodes.Keys;
      if j == 0 {
        SuccessorIsCorrectFinger(r, x);
      } else {
        assert (x, j) in todo;
      }
      RepairsCorrect(r, todo, x, j);
    }
    HopBound(t, n, key);
  }
}

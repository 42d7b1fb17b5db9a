/** Lookups of join and fix_fingers as they run, hop by hop, between the steps of everybody else
    (chord/node.py, lines 145-190 and 280-303). */
module LookupRuns {
  import opened RingMath
  import opened ChordNodes
  import opened Lookup
  import opened Protocol
  import opened Convergence
  import opened Interleaving
  import opened Wrappers

  // Hops

  /** One hop, in any pointer state: the asked node answers what the whole lookup gives, or passes the
      query on to a member nearer to the key from which the whole lookup gives the same. With correct
      successors that is the owner of the key. */
  lemma HopMeaning(s: System, msg: Message)
    requires Inv(s) && s.ring.WF() && msg.Query? && msg in s.net && msg.at in s.ring.nodes && msg.key < s.Size()
    ensures var r, step := FindSuccessor(s.ring, msg.at, msg.key), StepAt(s.ring, msg.at, msg.key);
            if step.Found? then Do(s, Hop(msg)) == s.Send(Answer(msg.why, r))
            else step.next in s.ring.nodes && Span(s.Size(), step.next, msg.key) < Span(s.Size(), msg.at, msg.key)
                 && FindSuccessor(s.ring, step.next, msg.key) == r
                 && Do(s, Hop(msg)) == s.Send(Query(step.next, msg.key, msg.why))
    ensures s.ring.IdealSucc() ==> IsOwner(s.Size(), s.Members(), msg.key, FindSuccessor(s.ring, msg.at, msg.key))
  {
    assert MsgInv(s.ring.m, s.boot, s.Members(), msg);
    if s.ring.IdealSucc() {
      LookupCorrect(s.ring, msg.at, msg.key);
    }
  }

  /** The message answers a lookup with r, or asks on and will, if the ring stays as it is. */
  ghost predicate Promises(r: Ring, msg: Message, why: Purpose, x: Id)
    requires r.WF()
  {
    match msg
    case Notify(_, _) => false
    case Query(at, key, w) => w == why && at in r.nodes && key < r.Size() && x == FindSuccessor(r, at, key)
    case Answer(w, y) => w == why && x == y
  }

  ghost predicate AllHops(acts: seq<Action>)
  {
    forall a :: a in acts ==> a.Hop?
  }

  /** Hops promise nothing that was not promised before. */
  lemma {:induction false} HopsPromise(s: System, acts: seq<Action>, why: Purpose, x: Id, later: Message)
    returns (msg: Message)
    requires Inv(s) && s.ring.WF() && Legal(s, acts) && AllHops(acts)
    requires later in Exec(s, acts).net && Promises(s.ring, later, why, x)
    ensures Exec(s, acts).ring == s.ring && msg in s.net && Promises(s.ring, msg, why, x)
    decreases |acts|
  {
    msg := later;
    if acts != [] {
      assert acts[0] in acts;
      StepKeepsInv(s, acts[0]);
      msg := HopsPromise(Do(s, acts[0]), acts[1..], why, x, later);
      if msg !in s.net {
        assert MsgInv(s.ring.m, s.boot, s.Members(), acts[0].msg);
        HopMeaning(s, acts[0].msg);
        msg := acts[0].msg;
      }
    }
  }

  /** And what is promised is kept: enough hops end with the answer of the whole lookup. */
  lemma {:induction false} HopsEnd(s: System, msg: Message) returns (acts: seq<Action>)
    requires Inv(s) && s.ring.WF() && msg.Query? && msg in s.net && msg.at in s.ring.nodes && msg.key < s.Size()
    ensures Legal(s, acts) && AllHops(acts) && Inv(Exec(s, acts)) && Exec(s, acts).ring == s.ring
    ensures Answer(msg.why, FindSuccessor(s.ring, msg.at, msg.key)) in Exec(s, acts).net
    decreases Span(s.Size(), msg.at, msg.key)
  {
    var step, t := StepAt(s.ring, msg.at, msg.key), Do(s, Hop(msg));
    HopMeaning(s, msg);
    HopKeepsInv(s, msg);
    acts := [];
    if step.Delegate? {
      acts := HopsEnd(t, Query(step.next, msg.key, msg.why));
    }
    var all := [Hop(msg)] + acts;
    assert all[0] == Hop(msg) && all[1..] == acts;
    acts := all;
  }

  // Whole joins and repairs

  /** A join that nobody disturbs: the new successor is what the lookup at the known node gives, which
      is the next member if successors are correct. */
  lemma JoinRun(s: System, j: Id, known: Id) returns (hops: seq<Action>, r: Id)
    requires Inv(s) && s.ring.WF() && Enabled(s, StartJoin(j, known))
    ensures r == FindSuccessor(s.ring, known, j) && AllHops(hops)
    ensures var acts := [StartJoin(j, known)] + hops + [FinishJoin(j, r)];
            Legal(s, acts) && Inv(Exec(s, acts)) && Exec(s, acts).ring.WF()
            && Exec(s, acts).ring == s.With(j, Fresh(s.ring.m, j, r)).ring && Exec(s, acts).ring.Succ(j) == r
            && (s.ring.IdealSucc() ==> IsNext(s.Size(), s.Members() + {j}, j, r))
  {
    var first, s1, q := [StartJoin(j, known)], Do(s, StartJoin(j, known)), Query(known, j, Joining(j));
    r := FindSuccessor(s.ring, known, j);
    StepKeepsInv(s, first[0]);
    hops := HopsEnd(s1, q);
    var s2, last := Exec(s1, hops), [FinishJoin(j, r)];
    StepKeepsInv(s2, last[0]);
    assert last[1..] == [] && first[1..] == [];
    LegalConcat(s, first, hops);
    LegalConcat(s, first + hops, last);
    HopMeaning(s1, q);
    if s.ring.IdealSucc() {
      OwnerIsNext(s.Size(), s.Members(), j, r);
    }
  }

  lemma OwnerIsNext(size: nat, members: set<Id>, j: Id, r: Id)
    requires j < size && j !in members && (forall x :: x in members ==> x < size) && IsOwner(size, members, j, r)
    ensures IsNext(size, members + {j}, j, r)
  {
    forall x | x in members + {j} ensures Span(size, j, r) <= Span(size, j, x) {
      assert x in members ==> Dist(size, j, r) <= Dist(size, j, x);
    }
  }

  /** A repair that nobody disturbs does what a whole repair does. */
  lemma FixRun(s: System, n: Id, i: nat) returns (hops: seq<Action>, r: Id)
    requires Inv(s) && s.ring.WF() && Enabled(s, StartFix(n, i))
    ensures AllHops(hops)
    ensures var acts := [StartFix(n, i)] + hops + [FinishFix(n, i, r)];
            Legal(s, acts) && Inv(Exec(s, acts)) && Exec(s, acts).ring == Repair(s.ring, n, i)
  {
    Pow2Monotone(i, s.ring.m);
    var key := FingerStart(s.Size(), n, Pow2(i));
    var first, s1, q := [StartFix(n, i)], Do(s, StartFix(n, i)), Query(n, key, Fixing(n, i));
    r := FindSuccessor(s.ring, n, key);
    StepKeepsInv(s, first[0]);
    hops := HopsEnd(s1, q);
    var s2, last := Exec(s1, hops), [FinishFix(n, i, r)];
    StepKeepsInv(s2, last[0]);
    assert last[1..] == [] && first[1..] == [];
    LegalConcat(s, first, hops);
    LegalConcat(s, first + hops, last);
  }

  // Among all other steps

  ghost predicate SameMembers(r: Ring, t: Ring)
  {
    t.m == r.m && t.nodes.Keys == r.nodes.Keys
  }

  lemma SuccessorStays(s: System, a: Action, n: Id)
    requires Inv(s) && s.ring.WF() && s.ring.IdealSucc() && Enabled(s, a) && !a.FinishJoin? && n in s.ring.nodes
    requires Do(s, a).ring.WF() && SameMembers(s.ring, Do(s, a).ring)
    ensures IsNext(Do(s, a).Size(), Do(s, a).Members(), n, Do(s, a).ring.Succ(n))
  {
    assert IsNext(s.Size(), s.Members(), n, s.ring.Succ(n));
    InvNode(s, n);
    var v := s.ring.nodes[n];
    assert v.phase.Adopt? ==> v.phase.p in s.Members();
    if a == ApplyAnswer(n) && v.phase.x.Some? {
      assert v.phase.x.value in s.Members();
      InRangeIsSpan(s.Size(), v.phase.x.value, n, v.Succ());
    }
  }

  lemma MembersStayInStep(s: System, a: Action)
    requires Inv(s) && s.ring.WF() && Enabled(s, a) && !a.FinishJoin?
    ensures Inv(Do(s, a)) && Do(s, a).ring.WF() && SameMembers(s.ring, Do(s, a).ring)
  {
    StepKeepsInv(s, a);
    StepLowersMeasure(s, a);
  }

  /** Correct successors stay correct as long as nobody completes a join. */
  lemma SuccessorsStay(s: System, a: Action)
    requires Inv(s) && s.ring.WF() && s.ring.IdealSucc() && Enabled(s, a) && !a.FinishJoin?
    ensures var t := Do(s, a);
            Inv(t) && t.ring.WF() && SameMembers(s.ring, t.ring) && t.ring.IdealSucc()
  {
    MembersStayInStep(s, a);
    var t := Do(s, a).ring;
    forall n | n in t.nodes ensures IsNext(t.Size(), t.nodes.Keys, n, t.Succ(n)) {
      assert n in t.nodes.Keys;
      SuccessorStays(s, a, n);
    }
    assert t.IdealSucc();
  }

  /** x owns the key that the lookup is for. */
  ghost predicate OwnsKeyOf(r: Ring, why: Purpose, x: Id)
    requires r.WF()
  {
    exists key: Id :: IsKeyOf(r.m, why, key) && key < r.Size() && IsOwner(r.Size(), r.nodes.Keys, key, x)
  }

  /** With correct successors every answer sent names the owner, whoever asked, whichever node is asked,
      and whatever stabilizations and finger repairs go on meanwhile. */
  lemma {:induction false} AnswersAreOwners(s: System, acts: seq<Action>, why: Purpose, x: Id)
    requires Inv(s) && s.ring.WF() && s.ring.IdealSucc() && Legal(s, acts) && NoJoins(acts)
    requires Answer(why, x) in Exec(s, acts).net && Answer(why, x) !in s.net
    ensures OwnsKeyOf(s.ring, why, x)
    decreases |acts|
  {
    var a := acts[0];
    assert a in acts;
    SuccessorsStay(s, a);
    var t := Do(s, a);
    if Answer(why, x) in t.net {
      assert a.Hop? && MsgInv(s.ring.m, s.boot, s.Members(), a.msg);
      HopMeaning(s, a.msg);
    } else {
      AnswersAreOwners(t, acts[1..], why, x);
    }
  }

  lemma {:induction false} SuccessorsStayInRuns(s: System, acts: seq<Action>)
    requires Inv(s) && s.ring.WF() && s.ring.IdealSucc() && Legal(s, acts) && NoJoins(acts)
    ensures var t := Exec(s, acts);
            Inv(t) && t.ring.WF() && SameMembers(s.ring, t.ring) && t.ring.IdealSucc()
    decreases |acts|
  {
    if acts != [] {
      assert acts[0] in acts;
      SuccessorsStay(s, acts[0]);
      SuccessorsStayInRuns(Do(s, acts[0]), acts[1..]);
    }
  }

  /** A joiner whose lookup is answered while successors are correct gets the next member. */
  lemma JoinEnds(s: System, acts: seq<Action>, j: Id, r: Id)
    requires Inv(s) && s.ring.WF() && s.ring.IdealSucc() && Legal(s, acts) && NoJoins(acts)
    requires Exec(s, acts).ring.WF() && Enabled(Exec(s, acts), FinishJoin(j, r)) && Answer(Joining(j), r) !in s.net
    ensures var u := Do(Exec(s, acts), FinishJoin(j, r));
            u.ring.WF() && u.Members() == s.Members() + {j} && IsNext(u.Size(), u.Members(), j, u.ring.Succ(j))
  {
    AnswersAreOwners(s, acts, Joining(j), r);
    SuccessorsStayInRuns(s, acts);
    StepKeepsInv(Exec(s, acts), FinishJoin(j, r));
    OwnerIsNext(s.Size(), s.Members(), j, r);
  }

  /** A finger repaired from such an answer is correct. */
  lemma FixEnds(s: System, acts: seq<Action>, n: Id, i: nat, r: Id)
    requires Inv(s) && s.ring.WF() && s.ring.IdealSucc() && Legal(s, acts) && NoJoins(acts)
    requires Exec(s, acts).ring.WF() && Enabled(Exec(s, acts), FinishFix(n, i, r)) && Answer(Fixing(n, i), r) !in s.net
    ensures var u := Do(Exec(s, acts), FinishFix(n, i, r));
            u.ring.WF() && SameMembers(s.ring, u.ring) && u.ring.IdealSucc() && u.ring.CorrectFinger(n, i)
  {
    AnswersAreOwners(s, acts, Fixing(n, i), r);
    SuccessorsStayInRuns(s, acts);
    SuccessorsStay(Exec(s, acts), FinishFix(n, i, r));
  }

  // All fingers

  /** No answer to a repair that is under way is wrong. */
  ghost predicate AnswersRight(s: System)
    requires s.ring.WF()
  {
    forall n, i, x {:trigger Answer(Fixing(n, i), x) in s.net} ::
      n in s.ring.nodes && 1 <= i < s.ring.m && Answer(Fixing(n, i), x) in s.net ==> OwnsKeyOf(s.ring, Fixing(n, i), x)
  }

  predicate Repairs(a: Action, n: Id, i: nat) {
    a.FinishFix? && a.n == n && a.i == i
  }

  /** A finger that is correct, or repaired in the run, is correct from then on. */
  lemma {:induction false} FingerStays(s: System, acts: seq<Action>, n: Id, i: nat)
    requires Inv(s) && s.ring.WF() && s.ring.IdealSucc() && AnswersRight(s) && Legal(s, acts) && NoJoins(acts)
    requires n in s.ring.nodes && i < s.ring.m
    requires s.ring.CorrectFinger(n, i) || exists f :: f in acts && Repairs(f, n, i)
    ensures var t := Exec(s, acts);
            t.ring.WF() && SameMembers(s.ring, t.ring) && t.ring.CorrectFinger(n, i)
    decreases |acts|
  {
    if acts != [] {
      var a := acts[0];
      assert a in acts && acts == [a] + acts[1..];
      SuccessorsStay(s, a);
      var t := Do(s, a);
      OneStepAnswers(s, a);
      if s.ring.CorrectFinger(n, i) || Repairs(a, n, i) {
        FingerAfter(s, a, n, i);
      }
      FingerStays(t, acts[1..], n, i);
    }
  }

  lemma OneStepAnswers(s: System, a: Action)
    requires Inv(s) && s.ring.WF() && s.ring.IdealSucc() && AnswersRight(s) && Enabled(s, a) && !a.FinishJoin?
    ensures Do(s, a).ring.WF() && AnswersRight(Do(s, a))
  {
    SuccessorsStay(s, a);
    var t := Do(s, a);
    forall n, i: nat, x | n in t.ring.nodes && 1 <= i < t.ring.m && Answer(Fixing(n, i), x) in t.net
      ensures OwnsKeyOf(t.ring, Fixing(n, i), x)
    {
      var why := Fixing(n, i);
      assert n in t.ring.nodes.Keys;
      if Answer(why, x) !in s.net {
        assert [a][1..] == [];
        AnswersAreOwners(s, [a], why, x);
      }
      var key: Id :| IsKeyOf(s.ring.m, why, key) && key < s.Size() && IsOwner(s.Size(), s.Members(), key, x);
      assert IsKeyOf(t.ring.m, why, key);
    }
  }

  lemma FingerAfter(s: System, a: Action, n: Id, i: nat)
    requires Inv(s) && s.ring.WF() && s.ring.IdealSucc() && AnswersRight(s) && Enabled(s, a) && !a.FinishJoin?
    requires n in s.ring.nodes && i < s.ring.m && Do(s, a).ring.WF() && SameMembers(s.ring, Do(s, a).ring)
    requires s.ring.CorrectFinger(n, i) || Repairs(a, n, i)
    requires Do(s, a).ring.IdealSucc()
    ensures Do(s, a).ring.CorrectFinger(n, i)
  {
    var t := Do(s, a);
    if Repairs(a, n, i) {
      assert OwnsKeyOf(s.ring, Fixing(n, i), a.r);
    } else if i == 0 {
      SuccessorIsCorrectFinger(t.ring, n);
    } else {
      assert t.ring.nodes[n].fingers[i] == s.ring.nodes[n].fingers[i];
    }
  }

  lemma {:induction false} NetGrows(s: System, acts: seq<Action>, msg: Message)
    requires Legal(s, acts) && msg in s.net
    ensures msg in Exec(s, acts).net
    decreases |acts|
  {
    if acts != [] {
      NetGrows(Do(s, acts[0]), acts[1..], msg);
    }
  }

  /** A wrong answer that is under way can spoil its finger after any run. */
  lemma WrongAnswerSpoils(s: System, acts: seq<Action>, n: Id, i: nat, x: Id)
    requires Inv(s) && s.ring.WF() && s.ring.IdealSucc() && Legal(s, acts) && NoJoins(acts)
    requires n in s.ring.nodes && 1 <= i < s.ring.m && Answer(Fixing(n, i), x) in s.net
    requires !OwnsKeyOf(s.ring, Fixing(n, i), x)
    ensures var t := Exec(s, acts);
            t.ring.WF() && Enabled(t, FinishFix(n, i, x)) && Do(t, FinishFix(n, i, x)).ring.WF()
            && n in Do(t, FinishFix(n, i, x)).ring.nodes && !Do(t, FinishFix(n, i, x)).ring.CorrectFinger(n, i)
  {
    NetGrows(s, acts, Answer(Fixing(n, i), x));
    SuccessorsStayInRuns(s, acts);
    var t := Exec(s, acts);
    assert n in t.ring.nodes.Keys;
    SuccessorsStay(t, FinishFix(n, i, x));
    var u := Do(t, FinishFix(n, i, x)).ring;
    assert n in u.nodes.Keys;
    Pow2Monotone(i, s.ring.m);
    assert u.nodes[n].fingers[i] == x;
    assert IsKeyOf(s.ring.m, Fixing(n, i), FingerStart(s.Size(), n, Pow2(i)));
  }

  /** Once successors are correct and no wrong answer to a repair is under way, every run in which each finger is
      repaired once, joins apart, makes all fingers correct, however the repairs overlap with each other
      and with stabilize calls; then every lookup for a key other than the asked node's id takes at most
      M delegations. */
  lemma FingersConverge(s: System, acts: seq<Action>, n: Id, key: Id)
    requires Inv(s) && s.ring.WF() && s.ring.IdealSucc() && AnswersRight(s) && Legal(s, acts) && NoJoins(acts)
    requires forall x, i {:trigger s.ring.CorrectFinger(x, i)} ::
               x in s.ring.nodes && 1 <= i < s.ring.m ==> exists f :: f in acts && Repairs(f, x, i)
    requires n in s.ring.nodes && key < s.Size() && key != n
    ensures var t := Exec(s, acts).ring;
            t.WF() && SameMembers(s.ring, t) && t.IdealSucc() && t.CorrectFingers() && Hops(t, n, key) <= t.m
  {
    SuccessorsStayInRuns(s, acts);
    var t := Exec(s, acts).ring;
    forall x, i | x in t.nodes && 0 <= i < t.m ensures t.CorrectFinger(x, i) {
      assert x in t.nodes.Keys;
      if i == 0 {
        SuccessorIsCorrectFinger(s.ring, x);
      } else {
        assert s.ring.CorrectFinger(x, i) || !s.ring.CorrectFinger(x, i);
      }
      FingerStays(s, acts, x, i);
    }
    HopBound(t, n, key);
  }
}

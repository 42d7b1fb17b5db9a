/** The join-only protocol as interleaved steps: join, stabilize split at its lock and RPC
    boundaries, notify and fix_fingers (chord/node.py, lines 145-303). A message, once sent, stays
    in net and may be handled any number of times and arbitrarily late, which covers every delay,
    overtaking and retry of the transport. */
module Protocol {
  import opened RingMath
  import opened ChordNodes
  import opened Lookup
  import opened Wrappers

  /** What a lookup in flight is for. */
  datatype Purpose = Joining(j: Id) | Fixing(n: Id, i: nat)

  datatype Message =
    | Notify(dst: Id, candidate: Id)
    | Query(at: Id, key: Id, why: Purpose)
    | Answer(why: Purpose, r: Id)

  datatype System = System(boot: Id, ring: Ring, net: set<Message>)
  {
    function Size(): nat { ring.Size() }

    function Members(): set<Id> { ring.nodes.Keys }

    function With(n: Id, v: Node): System {
      this.(ring := ring.(nodes := ring.nodes[n := v]))
    }

    function Send(msg: Message): System {
      this.(net := net + {msg})
    }
  }

  /** A node as constructed and joined with successor r. */
  function Fresh(m: nat, n: Id, r: Id): Node
    requires m > 0
  {
    Node(None, seq(m, i => n)[0 := r], Idle)
  }

  /** So it is what the constructor and join leave of a node object. */
  method NewMember<V>(m: nat, n: Id, looked: Option<Id>) returns (node: ChordNode<V>)
    requires m > 0 && n < Pow2(m)
    ensures fresh(node) && node.Valid() && node.m == m && node.id == n && node.dataStore == map[]
    ensures node.State() == Fresh(m, n, if looked.Some? then looked.value else n)
  {
    node := new ChordNode(m, n);
    node.Join(looked);
  }

  function Init(m: nat, b: Id): System
    requires m > 0 && b < Pow2(m)
  {
    System(b, Ring(m, map[b := Fresh(m, b, b)]), {})
  }

  datatype Action =
    | StartJoin(j: Id, known: Id)
    | FinishJoin(j: Id, r: Id)
    | Hop(msg: Message)
    | Snapshot(n: Id)
    | AdoptPredecessor(n: Id)
    | AskPredecessor(n: Id)
    | ApplyAnswer(n: Id)
    | HandleNotify(dst: Id, candidate: Id)
    | StartFix(n: Id, i: nat)
    | FinishFix(n: Id, i: nat, r: Id)

  ghost predicate Enabled(s: System, a: Action)
    requires s.ring.WF()
  {
    var nodes := s.ring.nodes;
    match a
    case StartJoin(j, known) => j < s.Size() && j !in nodes && known in nodes
    case FinishJoin(j, r) => j !in nodes && Answer(Joining(j), r) in s.net
    case Hop(msg) => msg.Query? && msg in s.net && msg.at in nodes
    case Snapshot(n) => n in nodes && nodes[n].phase.Idle?
    case AdoptPredecessor(n) => n in nodes && nodes[n].phase.Adopt?
    case AskPredecessor(n) => n in nodes && nodes[n].phase.Ask? && nodes[n].phase.s in nodes
    case ApplyAnswer(n) => n in nodes && nodes[n].phase.Heard?
    case HandleNotify(dst, c) => dst in nodes && Notify(dst, c) in s.net
    case StartFix(n, i) => n in nodes && nodes[n].phase.Idle? && 1 <= i < s.ring.m
    case FinishFix(n, i, r) => n in nodes && 1 <= i < s.ring.m && Answer(Fixing(n, i), r) in s.net
  }

  /** The system after an enabled step. */
  ghost function Do(s: System, a: Action): System
    requires s.ring.WF() && Enabled(s, a)
  {
    var nodes := s.ring.nodes;
    match a
    case StartJoin(j, known) => s.Send(Query(known, j, Joining(j)))
    case FinishJoin(j, r) => s.With(j, Fresh(s.ring.m, j, r))
    case Hop(msg) =>
      (match LookupStep(msg.at, nodes[msg.at].fingers, msg.key)
       case Found(r) => s.Send(Answer(msg.why, r))
       case Delegate(c) => s.Send(Query(c, msg.key, msg.why)))
    case Snapshot(n) => s.With(n, BeginStabilize(n, nodes[n]))
    case AdoptPredecessor(n) => s.With(n, FinishAdopt(nodes[n]))
    case AskPredecessor(n) => s.With(n, nodes[n].(phase := Heard(nodes[nodes[n].phase.s].pred)))
    case ApplyAnswer(n) =>
      var v := ApplyHeard(n, nodes[n]);
      s.With(n, v).Send(Notify(v.Succ(), n))
    case HandleNotify(dst, c) => s.With(dst, Notified(dst, nodes[dst], c))
    case StartFix(n, i) =>
      Pow2Monotone(i, s.ring.m);
      s.Send(Query(n, FingerStart(s.Size(), n, Pow2(i)), Fixing(n, i)))
    case FinishFix(n, i, r) => s.With(n, nodes[n].(fingers := nodes[n].fingers[i := r]))
  }

  // The inductive invariant

  /** succ in (n, boot], for every node but the bootstrap node. */
  ghost predicate NodeInv(m: nat, boot: Id, members: set<Id>, n: Id, v: Node)
  {
    m > 0 && n < Pow2(m) && boot < Pow2(m) && |v.fingers| == m
    && (forall i {:trigger v.fingers[i]} :: 0 <= i < m ==> v.fingers[i] in members)
    && v.fingers[0] < Pow2(m)
    && (n != boot ==> Span(Pow2(m), n, v.fingers[0]) <= Span(Pow2(m), n, boot))
    && (v.pred.Some? ==> v.pred.value in members && v.pred.value != n)
    && match v.phase
       case Idle => true
       case Adopt(p) => n == boot && v.fingers[0] == n && p in members && p != n
       case Ask(x) => x in members && x != n && v.fingers[0] != n
       case Heard(x) => v.fingers[0] != n && (x.Some? ==> x.value in members)
  }

  /** The key a lookup is for. */
  ghost predicate IsKeyOf(m: nat, why: Purpose, key: Id)
  {
    match why
    case Joining(j) => key == j
    case Fixing(n, i) => n < Pow2(m) && Pow2(i) < Pow2(m) && key == FingerStart(Pow2(m), n, Pow2(i))
  }

  ghost predicate MsgInv(m: nat, boot: Id, members: set<Id>, msg: Message)
  {
    boot < Pow2(m)
    && match msg
       case Notify(dst, c) => dst in members && c in members && dst != c
       case Query(at, key, why) =>
         at in members && key < Pow2(m) && key != at && IsKeyOf(m, why, key)
       case Answer(why, r) =>
         r in members && r < Pow2(m)
         && (why.Joining? && why.j !in members ==>
               why.j < Pow2(m) && Span(Pow2(m), why.j, r) <= Span(Pow2(m), why.j, boot))
  }

  ghost predicate NodesInv(s: System)
  {
    forall n {:trigger NodeInv(s.ring.m, s.boot, s.Members(), n, s.ring.nodes[n])} ::
      n in s.ring.nodes ==> NodeInv(s.ring.m, s.boot, s.Members(), n, s.ring.nodes[n])
  }

  ghost predicate NetInv(s: System)
  {
    forall msg {:trigger MsgInv(s.ring.m, s.boot, s.Members(), msg)} ::
      msg in s.net ==> MsgInv(s.ring.m, s.boot, s.Members(), msg)
  }

  ghost predicate Inv(s: System)
  {
    s.ring.m > 0 && s.boot in s.ring.nodes
    && (forall n :: n in s.ring.nodes ==> n < s.Size())
    && NodesInv(s) && NetInv(s)
  }

  lemma InvNode(s: System, n: Id)
    requires Inv(s) && n in s.ring.nodes
    ensures NodeInv(s.ring.m, s.boot, s.Members(), n, s.ring.nodes[n])
  {
  }

  lemma InvGivesWF(s: System)
    requires Inv(s)
    ensures s.ring.WF()
  {
    forall n | n in s.ring.nodes
      ensures |s.ring.nodes[n].fingers| == s.ring.m
      ensures forall i {:trigger s.ring.nodes[n].fingers[i]} :: 0 <= i < s.ring.m ==>
                s.ring.nodes[n].fingers[i] in s.ring.nodes
      ensures s.ring.nodes[n].pred.Some? ==> s.ring.nodes[n].pred.value in s.ring.nodes
    {
      InvNode(s, n);
    }
  }

  /** What holds of a node or a message keeps holding when members are added. */
  lemma NodeInvGrows(m: nat, boot: Id, members: set<Id>, more: set<Id>, n: Id, v: Node)
    requires NodeInv(m, boot, members, n, v) && members <= more
    ensures NodeInv(m, boot, more, n, v)
  {
  }

  lemma MsgInvGrows(m: nat, boot: Id, members: set<Id>, more: set<Id>, msg: Message)
    requires MsgInv(m, boot, members, msg) && members <= more
    ensures MsgInv(m, boot, more, msg)
  {
  }

  /** Replacing or adding one good node keeps the invariant. */
  lemma WithKeepsInv(s: System, n: Id, v: Node)
    requires Inv(s) && n < s.Size()
    requires NodeInv(s.ring.m, s.boot, s.Members() + {n}, n, v)
    ensures Inv(s.With(n, v))
  {
    var t := s.With(n, v);
    assert t.Members() == s.Members() + {n};
    forall k | k in t.ring.nodes ensures NodeInv(t.ring.m, t.boot, t.Members(), k, t.ring.nodes[k]) {
      if k != n {
        InvNode(s, k);
        NodeInvGrows(s.ring.m, s.boot, s.Members(), t.Members(), k, s.ring.nodes[k]);
      }
    }
    forall msg | msg in t.net ensures MsgInv(t.ring.m, t.boot, t.Members(), msg) {
      MsgInvGrows(s.ring.m, s.boot, s.Members(), t.Members(), msg);
    }
  }

  lemma SendKeepsInv(s: System, msg: Message)
    requires Inv(s) && MsgInv(s.ring.m, s.boot, s.Members(), msg)
    ensures Inv(s.Send(msg))
  {
    var t := s.Send(msg);
    forall x | x in t.net ensures MsgInv(t.ring.m, t.boot, t.Members(), x) {
    }
    forall k | k in t.ring.nodes ensures NodeInv(t.ring.m, t.boot, t.Members(), k, t.ring.nodes[k]) {
      InvNode(s, k);
    }
  }

  /** A lookup for a joiner j that ends at member `at` names a member in (j, boot]. */
  lemma HopKeepsInv(s: System, msg: Message)
    requires Inv(s) && msg.Query? && msg in s.net && msg.at in s.ring.nodes
    ensures s.ring.WF() && Inv(Do(s, Hop(msg)))
  {
    InvGivesWF(s);
    var size, at, key := s.Size(), msg.at, msg.key;
    var fingers := s.ring.nodes[at].fingers;
    assert MsgInv(s.ring.m, s.boot, s.Members(), msg);
    InvNode(s, at);
    StepOnRing(s.ring, at, key);
    LookupStepMeaning(size, at, fingers, key);
    match LookupStep(at, fingers, key) {
      case Found(r) =>
        if msg.why.Joining? && msg.why.j !in s.ring.nodes {
          assert Span(size, at, key) < Span(size, at, r) <= Span(size, at, s.boot);
          SpanSplits(size, at, key, r);
          SpanSplits(size, at, key, s.boot);
        }
        SendKeepsInv(s, Answer(msg.why, r));
      case Delegate(c) =>
        SendKeepsInv(s, Query(c, key, msg.why));
    }
  }

  lemma StabilizeKeepsInv(s: System, a: Action)
    requires Inv(s) && s.ring.WF() && Enabled(s, a)
    requires a.Snapshot? || a.AdoptPredecessor? || a.AskPredecessor? || a.ApplyAnswer?
    ensures Inv(Do(s, a))
  {
    var n := a.n;
    var v := s.ring.nodes[n];
    InvNode(s, n);
    assert s.Members() + {n} == s.Members();
    match a {
      case Snapshot(_) => WithKeepsInv(s, n, BeginStabilize(n, v));
      case AdoptPredecessor(_) => WithKeepsInv(s, n, FinishAdopt(v));
      case AskPredecessor(_) => WithKeepsInv(s, n, v.(phase := Heard(s.ring.nodes[v.phase.s].pred)));
      case ApplyAnswer(_) =>
        var w := ApplyHeard(n, v);
        if v.phase.x.Some? {
          InRangeIsSpan(s.Size(), v.phase.x.value, n, v.Succ());
        }
        WithKeepsInv(s, n, w);
        SendKeepsInv(s.With(n, w), Notify(w.Succ(), n));
    }
  }

  /** Every step keeps the invariant. */
  lemma StepKeepsInv(s: System, a: Action)
    requires Inv(s) && s.ring.WF() && Enabled(s, a)
    ensures Inv(Do(s, a)) && Do(s, a).ring.WF()
  {
    match a {
      case StartJoin(j, known) => SendKeepsInv(s, Query(known, j, Joining(j)));
      case FinishJoin(j, r) =>
        assert MsgInv(s.ring.m, s.boot, s.Members(), Answer(Joining(j), r));
        WithKeepsInv(s, j, Fresh(s.ring.m, j, r));
      case Hop(msg) => HopKeepsInv(s, msg);
      case HandleNotify(dst, c) =>
        assert MsgInv(s.ring.m, s.boot, s.Members(), Notify(dst, c));
        InvNode(s, dst);
        assert s.Members() + {dst} == s.Members();
        WithKeepsInv(s, dst, Notified(dst, s.ring.nodes[dst], c));
      case StartFix(n, i) =>
        Pow2Monotone(i, s.ring.m);
        SendKeepsInv(s, Query(n, FingerStart(s.Size(), n, Pow2(i)), Fixing(n, i)));
      case FinishFix(n, i, r) =>
        assert MsgInv(s.ring.m, s.boot, s.Members(), Answer(Fixing(n, i), r));
        InvNode(s, n);
        assert s.Members() + {n} == s.Members();
        WithKeepsInv(s, n, s.ring.nodes[n].(fingers := s.ring.nodes[n].fingers[i := r]));
      case _ => StabilizeKeepsInv(s, a);
    }
    InvGivesWF(Do(s, a));
  }

  // Runs

  /** Every action of the run is enabled when its turn comes. */
  ghost predicate Legal(s: System, acts: seq<Action>)
    decreases |acts|
  {
    acts == [] || (s.ring.WF() && Enabled(s, acts[0]) && Legal(Do(s, acts[0]), acts[1..]))
  }

  ghost function Exec(s: System, acts: seq<Action>): System
    requires Legal(s, acts)
    decreases |acts|
  {
    if acts == [] then s else Exec(Do(s, acts[0]), acts[1..])
  }

  lemma {:induction false} RunKeepsInv(s: System, acts: seq<Action>)
    requires Inv(s) && Legal(s, acts)
    ensures Inv(Exec(s, acts)) && Exec(s, acts).boot == s.boot
    ensures s.Members() <= Exec(s, acts).Members()
    decreases |acts|
  {
    if acts != [] {
      StepKeepsInv(s, acts[0]);
      RunKeepsInv(Do(s, acts[0]), acts[1..]);
    }
  }

  lemma InitInv(m: nat, b: Id)
    requires m > 0 && b < Pow2(m)
    ensures Inv(Init(m, b))
  {
    var s := Init(m, b);
    assert NodeInv(m, b, {b}, b, Fresh(m, b, b));
    assert s.Members() == {b};
  }

  /** Safety over all runs from one bootstrap node: every pointer names a member, and every
      node but the bootstrap node has its successor in (n, boot]. */
  lemma JoinOnlySafety(m: nat, b: Id, acts: seq<Action>)
    requires m > 0 && b < Pow2(m) && Legal(Init(m, b), acts)
    ensures var s := Exec(Init(m, b), acts);
            s.ring.WF() && s.boot == b && b in s.ring.nodes
            && forall n {:trigger s.ring.Succ(n)} :: n in s.ring.nodes && n != b ==> InRange(s.ring.Succ(n), n, b, true)
  {
    InitInv(m, b);
    RunKeepsInv(Init(m, b), acts);
    var s := Exec(Init(m, b), acts);
    InvGivesWF(s);
    forall n | n in s.ring.nodes && n != b ensures InRange(s.ring.Succ(n), n, b, true) {
      InvNode(s, n);
      InRangeIsSpan(s.Size(), s.ring.Succ(n), n, b);
    }
  }
}

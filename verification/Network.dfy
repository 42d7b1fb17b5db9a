/** The node stores as the transport reaches them (chord/node.py, lines 392-417;
    chord/transport.py). Each call takes one tick; whether the callee answers is up to an
    arbitrary oracle, and a call that is not answered has no effect. */
module Networks {
  import opened RingMath
  import opened ChordNodes
  import L = Lookup
  import opened Lookup
  import opened Wrappers

  /** v is written under key at every node of ns, and nowhere else. */
  function WriteAll<V>(stores: map<Id, map<string, V>>, ns: seq<Id>, key: string, v: V): map<Id, map<string, V>>
  {
    map n | n in stores :: if n in ns then stores[n][key := v] else stores[n]
  }

  function DeleteAll<V>(stores: map<Id, map<string, V>>, ns: seq<Id>, key: string): map<Id, map<string, V>>
  {
    map n | n in stores :: if n in ns then stores[n] - {key} else stores[n]
  }

  /** The copy found first when the nodes of ns are asked in order. */
  function FirstCopy<V>(stores: map<Id, map<string, V>>, ns: seq<Id>, key: string): Option<V>
  {
    if ns == [] then None
    else if ns[0] in stores && key in stores[ns[0]] then Some(stores[ns[0]][key])
    else FirstCopy(stores, ns[1..], key)
  }

  /** n answers every call from tick t on, or none. */
  ghost predicate Speaks(answers: (nat, Id) -> bool, n: Id, t: nat)
  {
    forall u: nat {:trigger answers(u, n)} :: u >= t ==> answers(u, n)
  }

  ghost predicate Silent(answers: (nat, Id) -> bool, n: Id, t: nat)
  {
    forall u: nat {:trigger answers(u, n)} :: u >= t ==> !answers(u, n)
  }

  /** The first copy that is answered when the nodes of ns are asked in order from tick t on. */
  function FirstAnswered<V>(answers: (nat, Id) -> bool, stores: map<Id, map<string, V>>, ns: seq<Id>, key: string,
                            t: nat): Option<V>
  {
    if ns == [] then None
    else if answers(t, ns[0]) && ns[0] in stores && key in stores[ns[0]] then Some(stores[ns[0]][key])
    else FirstAnswered(answers, stores, ns[1..], key, t + 1)
  }

  /** The i-th node of ns, asked at tick t + i, answers with a copy. */
  predicate HasAnswer<V>(answers: (nat, Id) -> bool, stores: map<Id, map<string, V>>, ns: seq<Id>, key: string, t: nat,
                         i: nat)
  {
    i < |ns| && answers(t + i, ns[i]) && ns[i] in stores && key in stores[ns[i]]
  }

  /** The copy that is read is that of the first node that answers with one, however many nodes before
      it are silent; nothing is read only if nobody answers with a copy. */
  lemma {:induction false} FirstAnsweredAt<V>(answers: (nat, Id) -> bool, stores: map<Id, map<string, V>>,
                                              ns: seq<Id>, key: string, t: nat) returns (i: nat)
    ensures i <= |ns| && forall j: nat :: j < i ==> !HasAnswer(answers, stores, ns, key, t, j)
    ensures i < |ns| ==> HasAnswer(answers, stores, ns, key, t, i)
    ensures FirstAnswered(answers, stores, ns, key, t) == if i < |ns| then Some(stores[ns[i]][key]) else None
  {
    i := 0;
    if ns != [] && !HasAnswer(answers, stores, ns, key, t, 0) {
      var k := FirstAnsweredAt(answers, stores, ns[1..], key, t + 1);
      i := k + 1;
      forall j: nat | 0 < j < i ensures !HasAnswer(answers, stores, ns, key, t, j) {
        assert !HasAnswer(answers, stores, ns[1..], key, t + 1, j - 1);
      }
      assert i < |ns| ==> HasAnswer(answers, stores, ns[1..], key, t + 1, k);
    }
  }

  lemma {:induction false} AnsweredIsFirst<V>(answers: (nat, Id) -> bool, stores: map<Id, map<string, V>>,
                                              ns: seq<Id>, key: string, t: nat)
    requires forall u: nat, n: Id {:trigger answers(u, n)} :: u >= t ==> answers(u, n)
    ensures FirstAnswered(answers, stores, ns, key, t) == FirstCopy(stores, ns, key)
  {
    if ns != [] {
      AnsweredIsFirst(answers, stores, ns[1..], key, t + 1);
    }
  }

  /** What is answered is a copy of one of the nodes asked. */
  lemma {:induction false} AnsweredIsCopy<V>(answers: (nat, Id) -> bool, stores: map<Id, map<string, V>>, ns: seq<Id>,
                                             key: string, t: nat)
    requires FirstAnswered(answers, stores, ns, key, t).Some?
    ensures exists n :: n in ns && n in stores && key in stores[n]
                        && FirstAnswered(answers, stores, ns, key, t) == Some(stores[n][key])
  {
    if !(answers(t, ns[0]) && ns[0] in stores && key in stores[ns[0]]) {
      AnsweredIsCopy(answers, stores, ns[1..], key, t + 1);
      var n :| n in ns[1..] && n in stores && key in stores[n]
               && FirstAnswered(answers, stores, ns, key, t) == Some(stores[n][key]);
      assert n in ns;
    }
  }

  lemma DeleteBoth<V>(stores: map<Id, map<string, V>>, a: seq<Id>, b: seq<Id>, key: string)
    ensures DeleteAll(DeleteAll(stores, a, key), b, key) == DeleteAll(stores, a + b, key)
  {
    forall n | n in stores
      ensures DeleteAll(DeleteAll(stores, a, key), b, key)[n] == DeleteAll(stores, a + b, key)[n]
    {
      assert stores[n] - {key} - {key} == stores[n] - {key};
      assert n in a + b <==> n in a || n in b;
    }
  }

  lemma WriteOneMore<V>(stores: map<Id, map<string, V>>, ns: seq<Id>, x: Id, key: string, v: V)
    ensures WriteAll(WriteAll(stores, ns, key, v), [x], key, v) == WriteAll(stores, ns + [x], key, v)
  {
    forall n | n in stores
      ensures WriteAll(WriteAll(stores, ns, key, v), [x], key, v)[n] == WriteAll(stores, ns + [x], key, v)[n]
    {
      assert stores[n][key := v][key := v] == stores[n][key := v];
      assert n in ns + [x] <==> n in ns || n == x;
    }
  }

  lemma DeleteOneMore<V>(stores: map<Id, map<string, V>>, ns: seq<Id>, x: Id, key: string)
    ensures DeleteAll(DeleteAll(stores, ns, key), [x], key) == DeleteAll(stores, ns + [x], key)
  {
    forall n | n in stores
      ensures DeleteAll(DeleteAll(stores, ns, key), [x], key)[n] == DeleteAll(stores, ns + [x], key)[n]
    {
      assert stores[n] - {key} - {key} == stores[n] - {key};
      assert n in ns + [x] <==> n in ns || n == x;
    }
  }

  class Network<V> {
    /** answers(t, n): node n answers the call made at tick t. */
    const answers: (nat, Id) -> bool
    /** route(t, n, key): what find_successor(key) gave at tick t when n was asked. */
    const route: (nat, Id, Id) -> Id
    const ring: Ring
    var tick: nat
    var stores: map<Id, map<string, V>>

    ghost predicate Valid()
      reads this
    {
      ring.WF() && stores.Keys == ring.nodes.Keys
      && forall t: nat, n: Id, key: Id {:trigger route(t, n, key)} :: route(t, n, key) in ring.nodes
    }

    /** Every call from tick t0 on is answered. */
    ghost predicate AnswersFrom(t0: nat)
    {
      forall t: nat, n: Id {:trigger answers(t, n)} :: t >= t0 ==> answers(t, n)
    }

    /** Every call is answered, and lookups run on the ring as it is. */
    ghost predicate Reliable()
      reads this
    {
      ring.WF()
      && (forall t: nat, n: Id {:trigger answers(t, n)} :: answers(t, n))
      && (forall t: nat, n: Id, key: Id {:trigger route(t, n, key)} ::
            n in ring.nodes && key < ring.Size() ==> route(t, n, key) == L.FindSuccessor(ring, n, key))
    }

    constructor (ring: Ring, answers: (nat, Id) -> bool, route: (nat, Id, Id) -> Id)
      requires ring.WF() && forall t: nat, n: Id, key: Id {:trigger route(t, n, key)} :: route(t, n, key) in ring.nodes
      ensures Valid() && tick == 0 && this.ring == ring && this.answers == answers && this.route == route
      ensures forall n :: n in stores ==> stores[n] == map[]
    {
      this.ring, this.answers, this.route := ring, answers, route;
      tick := 0;
      stores := map n | n in ring.nodes :: map[];
    }

    method FindSuccessor(n: Id, key: Id) returns (owner: Id)
      requires Valid()
      modifies this`tick
      ensures Valid() && tick == old(tick) + 1 && owner in ring.nodes && owner == route(old(tick), n, key)
    {
      owner := route(tick, n, key);
      tick := tick + 1;
    }

    /** get_state, of which only the successor is used. */
    method SuccessorOf(n: Id) returns (succ: Option<Id>)
      requires Valid() && n in ring.nodes
      modifies this`tick
      ensures Valid() && tick == old(tick) + 1
      ensures succ == if answers(old(tick), n) then Some(ring.Succ(n)) else None
      ensures succ.Some? ==> succ.value in ring.nodes
    {
      succ := if answers(tick, n) then Some(ring.nodes[n].fingers[0]) else None;
      tick := tick + 1;
    }

    method Put(n: Id, key: string, v: V) returns (ok: bool)
      requires Valid() && n in ring.nodes
      modifies this`tick, this`stores
      ensures Valid() && tick == old(tick) + 1 && ok == answers(old(tick), n)
      ensures stores == if ok then old(stores)[n := old(stores)[n][key := v]] else old(stores)
    {
      ok := answers(tick, n);
      tick := tick + 1;
      if ok {
        stores := stores[n := stores[n][key := v]];
      }
    }

    /** A node writing its own store. */
    method PutLocal(n: Id, key: string, v: V)
      requires Valid() && n in ring.nodes
      modifies this`stores
      ensures Valid() && stores == old(stores)[n := old(stores)[n][key := v]]
    {
      stores := stores[n := stores[n][key := v]];
    }

    method DeleteLocal(n: Id, key: string)
      requires Valid() && n in ring.nodes
      modifies this`stores
      ensures Valid() && stores == old(stores)[n := old(stores)[n] - {key}]
    {
      stores := stores[n := stores[n] - {key}];
    }

    method Get(n: Id, key: string) returns (ok: bool, v: Option<V>)
      requires Valid() && n in ring.nodes
      modifies this`tick
      ensures Valid() && tick == old(tick) + 1 && ok == answers(old(tick), n)
      ensures v == if ok && key in stores[n] then Some(stores[n][key]) else None
    {
      ok := answers(tick, n);
      tick := tick + 1;
      v := if ok && key in stores[n] then Some(stores[n][key]) else None;
    }

    method Delete(n: Id, key: string) returns (ok: bool)
      requires Valid() && n in ring.nodes
      modifies this`tick, this`stores
      ensures Valid() && tick == old(tick) + 1 && ok == answers(old(tick), n)
      ensures stores == if ok then old(stores)[n := old(stores)[n] - {key}] else old(stores)
    {
      ok := answers(tick, n);
      tick := tick + 1;
      if ok {
        stores := stores[n := stores[n] - {key}];
      }
    }
  }
}

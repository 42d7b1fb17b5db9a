/** One Chord node (chord/node.py): its pointers, its local lookup, and the
    critical sections of the maintenance thread. */
module ChordNodes {
  import opened RingMath
  import opened Wrappers

  /** Answer of the local part of find_successor: done, or ask another node. */
  datatype Reply = Found(node: Id) | Delegate(next: Id)

  /** Where the maintenance thread stands inside stabilize, with its local variables. */
  datatype Phase =
    | Idle
    | Adopt(p: Id)             // successor was itself; about to adopt the predecessor it saw
    | Ask(s: Id)               // about to ask s for its predecessor
    | Heard(x: Option<Id>)     // has the answer, has not applied it yet

  datatype Node = Node(pred: Option<Id>, fingers: seq<Id>, phase: Phase)
  {
    function Succ(): Id
      requires |fingers| > 0
    {
      fingers[0]
    }
  }

  // Lookup

  /** The walk from finger i-1 down to finger 0 in _closest_preceding_node. */
  function ClosestFrom(id: Id, fingers: seq<Id>, key: Id, i: nat): Id
    requires i <= |fingers|
  {
    if i == 0 then id
    else if InRange(fingers[i - 1], id, key, false) then fingers[i - 1]
    else ClosestFrom(id, fingers, key, i - 1)
  }

  function LookupStep(id: Id, fingers: seq<Id>, key: Id): Reply
    requires |fingers| > 0
  {
    if InRange(key, id, fingers[0], true) then Found(fingers[0])
    else
      var c := ClosestFrom(id, fingers, key, |fingers|);
      if c == id then Found(fingers[0]) else Delegate(c)
  }

  /** Which finger the walk picks: the highest one strictly between the node and the key. */
  lemma {:induction false} ClosestPicksHighest(id: Id, fingers: seq<Id>, key: Id, i: nat) returns (j: int)
    requires i <= |fingers|
    ensures -1 <= j < i
    ensures j >= 0 ==> ClosestFrom(id, fingers, key, i) == fingers[j] && InRange(fingers[j], id, key, false)
    ensures j == -1 ==> ClosestFrom(id, fingers, key, i) == id
    ensures forall k :: j < k < i ==> !InRange(fingers[k], id, key, false)
  {
    if i == 0 {
      j := -1;
    } else if InRange(fingers[i - 1], id, key, false) {
      j := i - 1;
    } else {
      j := ClosestPicksHighest(id, fingers, key, i - 1);
    }
  }

  /** A node whose fingers all lie on the circle. */
  ghost predicate OnCircle(size: nat, id: Id, fingers: seq<Id>)
  {
    id < size && |fingers| > 0 && forall k :: 0 <= k < |fingers| ==> fingers[k] < size
  }

  /** What one local step of find_successor gives, in terms of spans. A delegate is always
      one of the fingers, strictly nearer to the key, and not the key itself. */
  lemma LookupStepMeaning(size: nat, id: Id, fingers: seq<Id>, key: Id)
    requires OnCircle(size, id, fingers) && key < size
    ensures LookupStep(id, fingers, key).Delegate? ==>
              var c := LookupStep(id, fingers, key).next;
              c in fingers && c != id && Span(size, c, key) < Span(size, id, key)
              && (key != id ==> c != key && Span(size, id, c) < Span(size, id, key))
    ensures LookupStep(id, fingers, key).Found? ==>
              LookupStep(id, fingers, key).node == fingers[0]
              && (Span(size, id, key) <= Span(size, id, fingers[0])
                  || (key == id && fingers[|fingers| - 1] == id))
    ensures key == id && fingers[0] != id ==>
              (LookupStep(id, fingers, key).Found? <==> fingers[|fingers| - 1] == id)
  {
    InRangeIsSpan(size, key, id, fingers[0]);
    var j := ClosestPicksHighest(id, fingers, key, |fingers|);
    if j >= 0 {
      InRangeIsSpan(size, fingers[j], id, key);
    }
    if j != 0 {
      InRangeIsSpan(size, fingers[0], id, key);
    }
  }

  // The critical sections of stabilize and notify

  /** First lock block of stabilize (lines 213-226): snapshot, and the single-node case. */
  function BeginStabilize(id: Id, v: Node): Node
    requires |v.fingers| > 0
  {
    if v.Succ() == id then
      if v.pred.Some? && v.pred.value != id then v.(phase := Adopt(v.pred.value)) else v.(phase := Idle)
    else v.(phase := Ask(v.Succ()))
  }

  /** Lines 224-225: the successor becomes the predecessor seen in the snapshot. */
  function FinishAdopt(v: Node): Node
    requires |v.fingers| > 0 && v.phase.Adopt?
  {
    v.(fingers := v.fingers[0 := v.phase.p], phase := Idle)
  }

  /** Lines 233-238: compare the answer with the successor as it is now. */
  function ApplyHeard(id: Id, v: Node): Node
    requires |v.fingers| > 0 && v.phase.Heard?
  {
    var x := v.phase.x;
    if x.Some? && InRange(x.value, id, v.Succ(), false)
    then v.(fingers := v.fingers[0 := x.value], phase := Idle)
    else v.(phase := Idle)
  }

  /** notify, lines 268-278. */
  function Notified(id: Id, v: Node, candidate: Id): Node
  {
    if v.pred.None? || InRange(candidate, v.pred.value, id, false) then v.(pred := Some(candidate)) else v
  }

  /** The node object, updated in place under its lock. */
  class ChordNode<V> {
    const m: nat
    const id: Id
    var predecessor: Option<Id>
    var fingers: seq<Id>
    var phase: Phase
    var dataStore: map<string, V>

    ghost predicate Valid()
      reads this
    {
      m > 0 && |fingers| == m && id < Pow2(m)
    }

    ghost function State(): Node
      reads this
    {
      Node(predecessor, fingers, phase)
    }

    /** A node starts as a one-node ring: every finger is itself. */
    constructor (m: nat, id: Id)
      requires m > 0 && id < Pow2(m)
      ensures Valid() && this.m == m && this.id == id
      ensures State() == Node(None, seq(m, i => id), Idle)
      ensures dataStore == map[]
    {
      this.m, this.id := m, id;
      predecessor, phase, dataStore := None, Idle, map[];
      fingers := seq(m, i => id);
    }

    method ClosestPrecedingNode(key: Id) returns (c: Id)
      requires Valid()
      ensures c == ClosestFrom(id, fingers, key, |fingers|)
      ensures c == id || c in fingers
    {
      for i := |fingers| downto 0
        invariant ClosestFrom(id, fingers, key, |fingers|) == ClosestFrom(id, fingers, key, i)
      {
        if InRange(fingers[i], id, key, false) {
          return fingers[i];
        }
      }
      return id;
    }

    /** The part of find_successor that runs on this node. */
    method FindSuccessor(key: Id) returns (r: Reply)
      requires Valid()
      ensures r == LookupStep(id, fingers, key)
    {
      if InRange(key, id, fingers[0], true) {
        return Found(fingers[0]);
      }
      var c := ClosestPrecedingNode(key);
      if c == id {
        return Found(fingers[0]);
      }
      return Delegate(c);
    }

    /** join: bootstrap when nobody is known, else take the looked-up successor. */
    method Join(looked: Option<Id>)
      requires Valid()
      modifies this`predecessor, this`fingers
      ensures Valid()
      ensures State() == old(State()).(pred := None,
                                       fingers := old(fingers)[0 := if looked.None? then id else looked.value])
    {
      predecessor := None;
      if looked.None? {
        fingers := fingers[0 := id];
      } else {
        fingers := fingers[0 := looked.value];
      }
    }

    method StabilizeSnapshot()
      requires Valid()
      modifies this`phase
      ensures Valid() && State() == BeginStabilize(id, old(State()))
    {
      if fingers[0] == id {
        if predecessor.Some? && predecessor.value != id {
          phase := Adopt(predecessor.value);
        } else {
          phase := Idle;
        }
      } else {
        phase := Ask(fingers[0]);
      }
    }

    method StabilizeAdopt()
      requires Valid() && phase.Adopt?
      modifies this`fingers, this`phase
      ensures Valid() && State() == FinishAdopt(old(State()))
    {
      fingers, phase := fingers[0 := phase.p], Idle;
    }

    /** Returns the address to notify. */
    method StabilizeApply() returns (notifyNode: Id)
      requires Valid() && phase.Heard?
      modifies this`fingers, this`phase
      ensures Valid() && State() == ApplyHeard(id, old(State()))
      ensures notifyNode == State().Succ()
    {
      var x := phase.x;
      if x.Some? && InRange(x.value, id, fingers[0], false) {
        fingers := fingers[0 := x.value];
      }
      notifyNode := fingers[0];
      phase := Idle;
    }

    method Notify(candidate: Id)
      requires Valid()
      modifies this`predecessor
      ensures Valid() && State() == Notified(id, old(State()), candidate)
    {
      if predecessor.None? || InRange(candidate, predecessor.value, id, false) {
        predecessor := Some(candidate);
      }
    }

    /** Last lock block of fix_fingers. */
    method SetFinger(i: nat, r: Id)
      requires Valid() && 1 <= i < m
      modifies this`fingers
      ensures Valid() && State() == old(State()).(fingers := old(fingers)[i := r])
    {
      fingers := fingers[i := r];
    }

    // Local data store

    method Put(key: string, value: V)
      modifies this`dataStore
      ensures dataStore == old(dataStore)[key := value]
    {
      dataStore := dataStore[key := value];
    }

    method Get(key: string) returns (value: Option<V>)
      ensures value == if key in dataStore then Some(dataStore[key]) else None
    {
      value := if key in dataStore then Some(dataStore[key]) else None;
    }

    method Delete(key: string) returns (removed: bool)
      modifies this`dataStore
      ensures removed == (key in old(dataStore))
      ensures dataStore == old(dataStore) - {key}
    {
      removed := key in dataStore;
      dataStore := dataStore - {key};
    }

    method BulkPut(items: map<string, V>)
      modifies this`dataStore
      ensures dataStore == old(dataStore) + items
    {
      dataStore := dataStore + items;
    }
  }
}

/** The ring walk behind GET /api/ring (chord/server.py, lines 618-659). */
module RingWalk {

  type Address = string

  /** What a node answers about itself. An empty address stands for a missing one. */
  datatype State = State(id: int, successor: Address, fingers: seq<Address>)

  /** The answering nodes, by address; every other address raises. */
  type Net = map<Address, State>

  /** Node ids tell the answering nodes apart. */
  ghost predicate DistinctIds(net: Net)
  {
    forall a, b :: a in net && b in net && net[a].id == net[b].id ==> a == b
  }

  /** The addresses the walk may go to from a node. */
  function Links(s: State): set<Address>
  {
    set b | b in [s.successor] + s.fingers && b != ""
  }

  /** A path along pointers, through answering nodes only. */
  ghost predicate Path(net: Net, path: seq<Address>)
  {
    path != [] && path[0] in net
    && forall i {:trigger path[i]} :: 0 < i < |path| ==>
         path[i] in net && path[i - 1] in net && path[i] in Links(net[path[i - 1]])
  }

  ghost predicate Reachable(net: Net, start: Address, a: Address)
  {
    exists path :: Path(net, path) && path[0] == start && path[|path| - 1] == a
  }

  lemma PathExtends(net: Net, path: seq<Address>, b: Address)
    requires Path(net, path) && path[|path| - 1] in net && b in net && b in Links(net[path[|path| - 1]])
    ensures Path(net, path + [b])
  {
    var longer := path + [b];
    forall i {:trigger longer[i]} | 0 < i < |longer|
      ensures longer[i] in net && longer[i - 1] in net && longer[i] in Links(net[longer[i - 1]])
    {
      if i < |path| {
        assert longer[i] == path[i] && longer[i - 1] == path[i - 1];
      }
    }
  }

  lemma ReachNext(net: Net, start: Address, a: Address, b: Address)
    requires Reachable(net, start, a) && a in net && b in net && b in Links(net[a])
    ensures Reachable(net, start, b)
  {
    var path :| Path(net, path) && path[0] == start && path[|path| - 1] == a;
    PathExtends(net, path, b);
    var longer := path + [b];
    assert longer[0] == start && longer[|longer| - 1] == b;
  }

  /** A set of nodes that contains the start and is closed under pointers contains what is reachable. */
  lemma {:induction false} ClosedContains(net: Net, path: seq<Address>, closed: set<Address>)
    requires Path(net, path) && path[0] in closed
    requires forall a {:trigger Links(net[a])} :: a in closed && a in net ==> Links(net[a]) <= closed
    ensures path[|path| - 1] in closed
  {
    if |path| > 1 {
      var n := |path| - 1;
      var shorter := path[..n];
      assert Path(net, shorter);
      ClosedContains(net, shorter, closed);
      assert path[n] in Links(net[path[n - 1]]);
    }
  }

  /** All addresses the walk can come across. */
  ghost function Universe(net: Net, self: Address): set<Address>
  {
    {self} + set a, b | a in net && b in Links(net[a]) :: b
  }

  /** nodes lists the states of the visited nodes that answered, which sit at addrs. */
  ghost predicate Listed(net: Net, nodes: seq<State>, addrs: seq<Address>, visited: set<Address>)
  {
    |addrs| == |nodes|
    && (forall i {:trigger addrs[i]} :: 0 <= i < |addrs| ==>
          addrs[i] in net && addrs[i] in visited && nodes[i] == net[addrs[i]])
    && (forall i, j {:trigger addrs[i], addrs[j]} :: 0 <= i < j < |addrs| ==> addrs[i] != addrs[j])
    && (forall a :: a in net && a in visited ==> a in addrs)
  }

  /** Everything found so far is reachable. */
  ghost predicate Sound(net: Net, self: Address, found: set<Address>)
  {
    found <= Universe(net, self)
    && forall a {:trigger Reachable(net, self, a)} :: a in found && a in net ==> Reachable(net, self, a)
  }

  /** The pointers of visited nodes have been found. */
  ghost predicate Closed(net: Net, visited: set<Address>, found: set<Address>)
  {
    visited <= found && forall a {:trigger Links(net[a])} :: a in visited && a in net ==> Links(net[a]) <= found
  }

  function Elements(s: seq<Address>): set<Address> {
    set a | a in s
  }

  /** The addresses that answering node s adds to the worklist. */
  method Enqueue(s: State, toVisit0: seq<Address>, visited: set<Address>) returns (toVisit: seq<Address>)
    ensures toVisit0 <= toVisit && Elements(toVisit) == Elements(toVisit0) + (Links(s) - visited)
  {
    toVisit := toVisit0;
    if s.successor != "" && s.successor !in visited {
      toVisit := toVisit + [s.successor];
    }
    for i := 0 to |s.fingers|
      invariant toVisit0 <= toVisit
      invariant forall b :: b in toVisit <==>
                              b in toVisit0 || (b != "" && (b == s.successor || b in s.fingers[..i]) && b !in visited)
    {
      var f := s.fingers[i];
      assert s.fingers[..i + 1] == s.fingers[..i] + [f];
      if f != "" && f !in visited {
        toVisit := toVisit + [f];
      }
    }
    assert s.fingers[..|s.fingers|] == s.fingers;
  }

  lemma FindKeepsSound(net: Net, self: Address, found: set<Address>, addr: Address)
    requires Sound(net, self, found) && addr in found && addr in net
    ensures Sound(net, self, found + Links(net[addr]))
  {
    assert Reachable(net, self, addr);
    forall b | b in found + Links(net[addr]) && b in net ensures Reachable(net, self, b) {
      if b !in found {
        ReachNext(net, self, addr, b);
      }
    }
  }

  lemma AtMostOneListed(net: Net, nodes: seq<State>, addrs: seq<Address>, visited: set<Address>, addr: Address)
    requires DistinctIds(net) && Listed(net, nodes, addrs, visited) && addr in net && addr !in visited
    ensures forall s :: s in nodes ==> s.id != net[addr].id
    ensures Listed(net, nodes + [net[addr]], addrs + [addr], visited + {addr})
  {
    forall s | s in nodes ensures s.id != net[addr].id {
      var i :| 0 <= i < |nodes| && nodes[i] == s;
      assert addrs[i] in net && addrs[i] in visited;
    }
  }

  /** When nothing is left to visit, the list is exactly what is reachable. */
  lemma WalkIsComplete(net: Net, self: Address, nodes: seq<State>, addrs: seq<Address>, visited: set<Address>)
    requires DistinctIds(net) && Listed(net, nodes, addrs, visited)
    requires Sound(net, self, visited) && Closed(net, visited, visited) && self in visited
    ensures forall i, j :: 0 <= i < j < |nodes| ==> nodes[i].id != nodes[j].id
    ensures forall a {:trigger Reachable(net, self, a)} :: a in net ==> (Reachable(net, self, a) <==> net[a] in nodes)
    ensures forall s :: s in nodes ==> exists a :: a in net && net[a] == s
  {
    forall i, j | 0 <= i < j < |nodes| ensures nodes[i].id != nodes[j].id {
      assert addrs[i] != addrs[j];
    }
    forall s | s in nodes ensures exists a :: a in net && net[a] == s {
      var i :| 0 <= i < |nodes| && nodes[i] == s;
      assert addrs[i] in net;
    }
    forall a | a in net ensures Reachable(net, self, a) <==> net[a] in nodes {
      ListedIffVisited(net, nodes, addrs, visited, a);
      if Reachable(net, self, a) {
        var path :| Path(net, path) && path[0] == self && path[|path| - 1] == a;
        ClosedContains(net, path, visited);
      }
    }
  }

  lemma ListedIffVisited(net: Net, nodes: seq<State>, addrs: seq<Address>, visited: set<Address>, a: Address)
    requires DistinctIds(net) && Listed(net, nodes, addrs, visited) && a in net
    ensures a in visited <==> net[a] in nodes
  {
    if a in visited {
      var i :| 0 <= i < |addrs| && addrs[i] == a;
      assert nodes[i] == net[a];
    }
    if net[a] in nodes {
      var i :| 0 <= i < |nodes| && nodes[i] == net[a];
      assert addrs[i] in visited && net[addrs[i]].id == net[a].id;
    }
  }

  /** Then the successor and every finger of a listed node, if they answer, are listed as well. */
  lemma PointersAreListed(net: Net, self: Address, nodes: seq<State>, addrs: seq<Address>, visited: set<Address>)
    requires DistinctIds(net) && Listed(net, nodes, addrs, visited)
    requires Closed(net, visited, visited) && self in visited
    ensures self in net ==> net[self] in nodes
    ensures forall s :: s in nodes && s.successor != "" && s.successor in net ==> net[s.successor] in nodes
    ensures forall s, i :: s in nodes && 0 <= i < |s.fingers| && s.fingers[i] != "" && s.fingers[i] in net ==>
                             net[s.fingers[i]] in nodes
  {
    forall a | a in net ensures a in visited <==> net[a] in nodes {
      ListedIffVisited(net, nodes, addrs, visited, a);
    }
    forall s, b | s in nodes && b in [s.successor] + s.fingers && b != "" && b in net ensures net[b] in nodes {
      var k :| 0 <= k < |nodes| && nodes[k] == s;
      assert addrs[k] in visited && net[addrs[k]] == s;
      assert b in Links(net[addrs[k]]);
    }
    forall s, i | s in nodes && 0 <= i < |s.fingers| && s.fingers[i] != "" && s.fingers[i] in net
      ensures net[s.fingers[i]] in nodes
    {
      assert s.fingers[i] in [s.successor] + s.fingers;
    }
  }

  /** State of the walk; found: visited or on the worklist. */
  ghost predicate WalkInv(net: Net, self: Address, nodes: seq<State>, addrs: seq<Address>, visited: set<Address>,
                          found: set<Address>)
  {
    Listed(net, nodes, addrs, visited) && Sound(net, self, found) && Closed(net, visited, found) && self in found
  }

  lemma WalkStarts(net: Net, self: Address)
    requires self in net
    ensures WalkInv(net, self, [], [], {}, {self})
  {
    assert Path(net, [self]);
    assert Reachable(net, self, self);
  }

  lemma VisitSilent(net: Net, self: Address, nodes: seq<State>, addrs: seq<Address>, visited: set<Address>,
                    found: set<Address>, addr: Address)
    requires WalkInv(net, self, nodes, addrs, visited, found) && addr in found && addr !in net
    ensures WalkInv(net, self, nodes, addrs, visited + {addr}, found)
  {
  }

  lemma VisitAnswering(net: Net, self: Address, nodes: seq<State>, addrs: seq<Address>, visited: set<Address>,
                       found: set<Address>, addr: Address)
    requires DistinctIds(net) && WalkInv(net, self, nodes, addrs, visited, found) && addr in found
             && addr !in visited && addr in net
    ensures forall s :: s in nodes ==> s.id != net[addr].id
    ensures WalkInv(net, self, nodes + [net[addr]], addrs + [addr], visited + {addr}, found + Links(net[addr]))
  {
    AtMostOneListed(net, nodes, addrs, visited, addr);
    FindKeepsSound(net, self, found, addr);
  }

  lemma FoundIsInUniverse(net: Net, self: Address, nodes: seq<State>, addrs: seq<Address>, visited: set<Address>,
                          found: set<Address>, addr: Address)
    requires WalkInv(net, self, nodes, addrs, visited, found) && addr in found
    ensures addr in Universe(net, self)
  {
  }

  lemma HeadIsFound(s: seq<Address>)
    requires s != []
    ensures Elements(s) == {s[0]} + Elements(s[1..])
  {
    assert s == [s[0]] + s[1..];
  }

  /** Visit an address for the first time. */
  method Visit(net: Net, self: Address, nodes: seq<State>, ghost addrs: seq<Address>, visited: set<Address>,
               toVisit: seq<Address>)
    returns (listed: seq<State>, ghost at: seq<Address>, next: seq<Address>)
    requires DistinctIds(net) && toVisit != [] && toVisit[0] !in visited
    requires WalkInv(net, self, nodes, addrs, visited, visited + Elements(toVisit))
    ensures WalkInv(net, self, listed, at, visited + {toVisit[0]}, visited + {toVisit[0]} + Elements(next))
  {
    var addr, rest := toVisit[0], toVisit[1..];
    ghost var found := visited + Elements(toVisit);
    HeadIsFound(toVisit);
    listed, at, next := nodes, addrs, rest;
    if addr !in net {
      VisitSilent(net, self, nodes, addrs, visited, found, addr);
      assert visited + {addr} + Elements(next) == found;
    } else {
      VisitAnswering(net, self, nodes, addrs, visited, found, addr);
      if exists s | s in nodes :: s.id == net[addr].id {
        assert false; // node ids are distinct
      } else {
        listed, at := nodes + [net[addr]], addrs + [addr];
        next := Enqueue(net[addr], rest, visited + {addr});
        assert visited + {addr} + Elements(next) == found + Links(net[addr]);
      }
    }
  }

  /** The walk ends, and lists each answering node that is reachable from this one, once, and no
      other. */
  method ApiRing(net: Net, self: Address) returns (nodes: seq<State>)
    requires self in net && DistinctIds(net)
    ensures forall i, j :: 0 <= i < j < |nodes| ==> nodes[i].id != nodes[j].id
    ensures forall a {:trigger Reachable(net, self, a)} :: a in net ==> (Reachable(net, self, a) <==> net[a] in nodes)
    ensures forall s :: s in nodes ==> exists a :: a in net && net[a] == s
    ensures net[self] in nodes
    ensures forall s :: s in nodes && s.successor != "" && s.successor in net ==> net[s.successor] in nodes
    ensures forall s, i :: s in nodes && 0 <= i < |s.fingers| && s.fingers[i] != "" && s.fingers[i] in net ==>
                             net[s.fingers[i]] in nodes
  {
    nodes := [];
    var toVisit := [self];
    var visited: set<Address> := {};
    ghost var addrs: seq<Address> := [];
    ghost var all := Universe(net, self);
    ghost var left := all;
    WalkStarts(net, self);
    assert visited + Elements(toVisit) == {self};
    while toVisit != []
      invariant WalkInv(net, self, nodes, addrs, visited, visited + Elements(toVisit))
      invariant all == Universe(net, self) && left == all - visited
      decreases left, |toVisit|
    {
      var addr := toVisit[0];
      HeadIsFound(toVisit);
      if addr in visited {
        assert visited + Elements(toVisit[1..]) == visited + Elements(toVisit);
        toVisit := toVisit[1..];
      } else {
        FoundIsInUniverse(net, self, nodes, addrs, visited, visited + Elements(toVisit), addr);
        left := left - {addr};
        nodes, addrs, toVisit := Visit(net, self, nodes, addrs, visited, toVisit);
        visited := visited + {addr};
      }
    }
    assert visited + Elements(toVisit) == visited;
    WalkIsComplete(net, self, nodes, addrs, visited);
    PointersAreListed(net, self, nodes, addrs, visited);
  }
}

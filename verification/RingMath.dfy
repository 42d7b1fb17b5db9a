/** Arithmetic on the identifier circle of 2^M points (chord/node.py, lines 18-37). */
module RingMath {

  type Id = nat

  function Pow2(k: nat): (p: nat)
    ensures p > k
  {
    if k == 0 then 1 else 2 * Pow2(k - 1)
  }

  lemma {:induction false} Pow2Monotone(i: nat, j: nat)
    requires i <= j
    ensures Pow2(i) <= Pow2(j)
    ensures i < j ==> 2 * Pow2(i) <= Pow2(j)
    decreases j - i
  {
    if i < j {
      Pow2Monotone(i, j - 1);
    }
  }

  /** Clockwise distance from a to b. */
  function Dist(size: nat, a: Id, b: Id): (d: nat)
    requires a < size && b < size
    ensures d < size && (a + d == b || a + d == b + size)
  {
    if a <= b then b - a else b + size - a
  }

  /** Clockwise distance, where going from a point to itself takes the whole circle. */
  function Span(size: nat, a: Id, b: Id): (d: nat)
    requires a < size && b < size
    ensures 1 <= d <= size
  {
    if a == b then size else Dist(size, a, b)
  }

  /** in_range: is x in the arc (a, b), or (a, b] when inclusive? */
  predicate InRange(x: Id, a: Id, b: Id, inclusive: bool)
  {
    if a == b then true
    else if a < b then
      if inclusive then a < x <= b else a < x < b
    else
      if inclusive then x > a || x <= b else x > a || x < b
  }

  /** The comparisons in in_range are exactly comparisons of clockwise spans from a. */
  lemma InRangeIsSpan(size: nat, x: Id, a: Id, b: Id)
    requires x < size && a < size && b < size
    ensures InRange(x, a, b, true) <==> Span(size, a, x) <= Span(size, a, b)
    ensures InRange(x, a, b, false) <==> a == b || Span(size, a, x) < Span(size, a, b)
  {
  }

  /** Three points met in the order a, x, b: the spans add up. */
  lemma SpanSplits(size: nat, a: Id, x: Id, b: Id)
    requires a < size && x < size && b < size
    requires Span(size, a, x) < Span(size, a, b)
    ensures Span(size, a, b) == Span(size, a, x) + Span(size, x, b)
  {
  }

  /** (n + 2^i) mod 2^M, the start of finger i. */
  function FingerStart(size: nat, n: Id, step: nat): (t: Id)
    requires n < size && step < size
    ensures t < size
    ensures Dist(size, n, t) == step
  {
    if n + step < size then n + step else n + step - size
  }

  // Members of the ring

  lemma SubsetCount(a: set<Id>, b: set<Id>)
    requires a <= b
    ensures |a| <= |b|
    ensures |a| == |b| ==> a == b
  {
    assert b == a + (b - a);
  }

  /** r is the first member met going clockwise from key, key itself included. */
  ghost predicate IsOwner(size: nat, members: set<Id>, key: Id, r: Id)
    requires key < size && forall x :: x in members ==> x < size
  {
    r in members && forall x :: x in members ==> Dist(size, key, r) <= Dist(size, key, x)
  }

  /** r is the first member met going clockwise from n, n itself last. */
  ghost predicate IsNext(size: nat, members: set<Id>, n: Id, r: Id)
    requires n < size && forall x :: x in members ==> x < size
  {
    r in members && forall x :: x in members ==> Span(size, n, r) <= Span(size, n, x)
  }

  lemma {:induction false} OwnerExists(size: nat, members: set<Id>, key: Id)
    requires key < size && members != {} && forall x :: x in members ==> x < size
    ensures exists r :: IsOwner(size, members, key, r)
    decreases |members|
  {
    var x :| x in members;
    if members == {x} {
      assert IsOwner(size, members, key, x);
    } else {
      var rest := members - {x};
      assert members == rest + {x} && rest != {};
      OwnerExists(size, rest, key);
      var r :| IsOwner(size, rest, key, r);
      assert IsOwner(size, members, key, if Dist(size, key, x) < Dist(size, key, r) then x else r);
    }
  }

  ghost function Owner(size: nat, members: set<Id>, key: Id): (r: Id)
    requires key < size && members != {} && forall x :: x in members ==> x < size
    ensures IsOwner(size, members, key, r)
    ensures forall x :: IsOwner(size, members, key, x) ==> x == r
  {
    OwnerExists(size, members, key);
    var r :| IsOwner(size, members, key, r);
    r
  }

  /** If nothing lies between n and its next member, that member owns every key in the arc. */
  lemma NextOwnsArc(size: nat, members: set<Id>, n: Id, r: Id, key: Id)
    requires n < size && key < size && forall x :: x in members ==> x < size
    requires IsNext(size, members, n, r)
    requires Span(size, n, key) <= Span(size, n, r)
    ensures IsOwner(size, members, key, r)
  {
    forall x | x in members ensures Dist(size, key, r) <= Dist(size, key, x) {
      assert Span(size, n, r) <= Span(size, n, x);
    }
  }
}

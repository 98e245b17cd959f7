/** Clockwise owner order on a hash circle, defined without any array (cluster/mesh/hashring.go). */
module RingOrder {
  import opened Bytes
  import opened Words
  import opened Kv

  /** A virtual node with its host resolved. */
  datatype Spot = Spot(hash: Word, node: NodeId)

  /** Clockwise distance from `h` to `x`. */
  function Dist(h: Word, x: Word): Word {
    (x - h) % TWO_64
  }

  lemma DistOrder(h: Word, x: Word, y: Word)
    ensures Dist(h, x) == if x >= h then x - h else x - h + TWO_64
    ensures Dist(h, x) == Dist(h, y) ==> x == y
  {
  }

  /** Some spot of `m` is closer to `h` than every spot of `n`. */
  ghost predicate Before(spots: set<Spot>, h: Word, m: NodeId, n: NodeId) {
    exists u <- spots :: u.node == m && CloserThanAll(spots, h, u, n)
  }

  ghost predicate CloserThanAll(spots: set<Spot>, h: Word, u: Spot, n: NodeId) {
    forall v <- spots :: v.node == n ==> Dist(h, u.hash) < Dist(h, v.hash)
  }

  function Nodes(spots: set<Spot>): set<NodeId> {
    set u | u in spots :: u.node
  }

  /** `order` lists every node with a spot once, nearest first. */
  ghost predicate OwnerOrder(spots: set<Spot>, h: Word, order: seq<NodeId>) {
    && (forall n :: n in order <==> n in Nodes(spots))
    && (forall i, j :: 0 <= i < j < |order| ==> Before(spots, h, order[i], order[j]))
  }

  lemma BeforeAsymmetric(spots: set<Spot>, h: Word, m: NodeId, n: NodeId)
    ensures !(Before(spots, h, m, n) && Before(spots, h, n, m))
  {
  }

  /** The spots alone determine the order. */
  lemma OwnerOrderUnique(spots: set<Spot>, h: Word, a: seq<NodeId>, b: seq<NodeId>)
    requires OwnerOrder(spots, h, a) && OwnerOrder(spots, h, b)
    ensures a == b
  {
    SameOrder(spots, h, a, b);
  }

  ghost predicate Ordered(spots: set<Spot>, h: Word, order: seq<NodeId>) {
    forall i, j :: 0 <= i < j < |order| ==> Before(spots, h, order[i], order[j])
  }

  lemma {:induction false} SameOrder(spots: set<Spot>, h: Word, a: seq<NodeId>, b: seq<NodeId>)
    requires Ordered(spots, h, a) && Ordered(spots, h, b) && forall n :: n in a <==> n in b
    ensures a == b
    decreases |a|
  {
    if a == [] {
      HeadIsMember(b);
    } else {
      assert a[0] in b;
      assert b[0] in a;
      var i :| 0 <= i < |a| && a[i] == b[0];
      var j :| 0 <= j < |b| && b[j] == a[0];
      assert i > 0 ==> Before(spots, h, a[0], b[0]);
      assert j > 0 ==> Before(spots, h, b[0], a[0]);
      BeforeAsymmetric(spots, h, a[0], b[0]);
      forall n ensures n in a[1..] <==> n in b[1..] {
        TailMembers(spots, h, a, n);
        TailMembers(spots, h, b, n);
      }
      SameOrder(spots, h, a[1..], b[1..]);
    }
  }

  lemma HeadIsMember(a: seq<NodeId>)
    ensures a == [] || a[0] in a
  {
  }

  lemma TailMembers(spots: set<Spot>, h: Word, a: seq<NodeId>, n: NodeId)
    requires Ordered(spots, h, a) && a != []
    ensures n in a[1..] <==> n in a && n != a[0]
  {
    forall i | 0 < i < |a| ensures a[i] != a[0] {
      assert Before(spots, h, a[0], a[i]);
      BeforeAsymmetric(spots, h, a[0], a[i]);
    }
  }

  // ------------------------------------------------------------------ removing a node

  function Without(order: seq<NodeId>, n: NodeId): seq<NodeId> {
    if order == [] then []
    else
      var rest := Without(order[..|order| - 1], n);
      if order[|order| - 1] == n then rest else rest + [order[|order| - 1]]
  }

  function SpotsWithout(spots: set<Spot>, n: NodeId): set<Spot> {
    set u | u in spots && u.node != n
  }

  lemma {:induction false} WithoutMembers(order: seq<NodeId>, n: NodeId)
    ensures forall m :: m in Without(order, n) <==> m in order && m != n
    ensures n !in order ==> Without(order, n) == order
  {
    if order != [] {
      WithoutMembers(order[..|order| - 1], n);
      assert order == order[..|order| - 1] + [order[|order| - 1]];
    }
  }

  lemma BeforeSurvives(spots: set<Spot>, h: Word, gone: NodeId, m: NodeId, n: NodeId)
    requires Before(spots, h, m, n) && m != gone
    ensures Before(SpotsWithout(spots, gone), h, m, n)
  {
    var u :| u in spots && u.node == m && CloserThanAll(spots, h, u, n);
    assert u in SpotsWithout(spots, gone);
  }

  lemma {:induction false} WithoutOrdered(spots: set<Spot>, h: Word, order: seq<NodeId>, gone: NodeId)
    requires Ordered(spots, h, order)
    ensures Ordered(SpotsWithout(spots, gone), h, Without(order, gone))
  {
    if order != [] {
      var front, last := order[..|order| - 1], order[|order| - 1];
      WithoutOrdered(spots, h, front, gone);
      WithoutMembers(front, gone);
      if last != gone {
        var rest := Without(front, gone);
        forall i | 0 <= i < |rest| ensures Before(SpotsWithout(spots, gone), h, rest[i], last) {
          assert rest[i] in front;
          var j :| 0 <= j < |front| && front[j] == rest[i];
          assert Before(spots, h, order[j], order[|order| - 1]);
          BeforeSurvives(spots, h, gone, rest[i], last);
        }
      }
    }
  }

  /** Removing a node filters it out of every owner order and changes nothing else. */
  lemma RemovalFilters(spots: set<Spot>, h: Word, order: seq<NodeId>, gone: NodeId)
    requires OwnerOrder(spots, h, order)
    ensures OwnerOrder(SpotsWithout(spots, gone), h, Without(order, gone))
  {
    WithoutOrdered(spots, h, order, gone);
    WithoutMembers(order, gone);
    forall n | n in Nodes(spots) && n != gone ensures n in Nodes(SpotsWithout(spots, gone)) {
      var u :| u in spots && u.node == n;
      assert u in SpotsWithout(spots, gone);
    }
  }

  function Take(order: seq<NodeId>, n: int): seq<NodeId> {
    if n <= 0 then [] else if |order| <= n then order else order[..n]
  }

  /** The first `rf` owners change only if the removed node was among them. */
  lemma {:induction false} RemovalKeepsOwners(order: seq<NodeId>, gone: NodeId, rf: int)
    requires gone !in Take(order, rf)
    ensures Take(Without(order, gone), rf) == Take(order, rf)
  {
    if |order| <= rf || rf <= 0 {
      WithoutMembers(order, gone);
    } else {
      WithoutSplit(order[..rf], order[rf..], gone);
      WithoutMembers(order[..rf], gone);
      assert order[..rf] + order[rf..] == order;
    }
  }

  lemma {:induction false} WithoutSplit(a: seq<NodeId>, b: seq<NodeId>, n: NodeId)
    ensures Without(a + b, n) == Without(a, n) + Without(b, n)
  {
    if b == [] {
      assert a + b == a;
    } else {
      WithoutSplit(a, b[..|b| - 1], n);
      assert (a + b)[..|a + b| - 1] == a + b[..|b| - 1];
    }
  }
}

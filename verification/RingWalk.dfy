/** The walk GetOwners makes over the sorted virtual nodes, and why it yields the owner order. */
module RingWalk {
  import opened Bytes
  import opened Kv
  import opened RingOrder

  ghost predicate Sorted(r: seq<Spot>) {
    forall i, j :: 0 <= i < j < |r| ==> r[i].hash <= r[j].hash
  }

  /** No two nodes share a position on the circle. */
  ghost predicate NoCross(spots: set<Spot>) {
    forall u, v :: u in spots && v in spots && u.hash == v.hash ==> u.node == v.node
  }

  /** The answer of the binary search: the first position at or after `h`. */
  ghost predicate IsStart(r: seq<Spot>, h: Word, s: nat) {
    && s <= |r|
    && (forall i :: 0 <= i < s ==> r[i].hash < h)
    && (forall i :: s <= i < |r| ==> r[i].hash >= h)
  }

  function Clockwise(r: seq<Spot>, s: nat): seq<Spot>
    requires s <= |r|
  {
    r[s..] + r[..s]
  }

  /** Hosts in order of first appearance. */
  function Distinct(ss: seq<Spot>): seq<NodeId> {
    if ss == [] then []
    else
      var seen, last := Distinct(ss[..|ss| - 1]), ss[|ss| - 1].node;
      if last in seen then seen else seen + [last]
  }

  lemma ClockwiseByDistance(r: seq<Spot>, h: Word, s: nat)
    requires Sorted(r) && IsStart(r, h, s)
    ensures var c := Clockwise(r, s);
            Elements(c) == Elements(r) && ByDistance(c, h)
  {
    var c := Clockwise(r, s);
    assert r == r[..s] + r[s..];
    forall i, j | 0 <= i < j < |c| ensures Dist(h, c[i].hash) <= Dist(h, c[j].hash) {
      DistOrder(h, c[i].hash, c[j].hash);
      DistOrder(h, c[j].hash, c[i].hash);
    }
  }

  /** `m` shows up at `p`, where `n` has not been seen yet. */
  ghost predicate FirstAt(ss: seq<Spot>, p: nat, m: NodeId, n: NodeId) {
    p < |ss| && ss[p].node == m && forall q :: 0 <= q <= p ==> ss[q].node != n
  }

  lemma {:induction false} DistinctMembers(ss: seq<Spot>)
    ensures forall n :: n in Distinct(ss) <==> n in Nodes(Elements(ss))
    ensures forall n :: n in Distinct(ss) <==> exists q :: 0 <= q < |ss| && ss[q].node == n
  {
    if ss != [] {
      var front, last := ss[..|ss| - 1], ss[|ss| - 1];
      DistinctMembers(front);
      assert Elements(ss) == Elements(front) + {last};
      assert Nodes(Elements(ss)) == Nodes(Elements(front)) + {last.node};
      forall n ensures n in Distinct(ss) <==> exists q :: 0 <= q < |ss| && ss[q].node == n {
        if n == last.node { assert ss[|ss| - 1].node == n; }
      }
    }
  }

  lemma {:induction false} DistinctFirst(ss: seq<Spot>, i: nat, j: nat)
    requires i < j < |Distinct(ss)|
    ensures exists p: nat :: FirstAt(ss, p, Distinct(ss)[i], Distinct(ss)[j])
  {
    var front, last := ss[..|ss| - 1], ss[|ss| - 1].node;
    var seen := Distinct(front);
    if j < |seen| {
      DistinctFirst(front, i, j);
      var p: nat :| FirstAt(front, p, seen[i], seen[j]);
      assert FirstAt(ss, p, Distinct(ss)[i], Distinct(ss)[j]);
    } else {
      DistinctMembers(front);
      assert seen[i] in seen;
      var p :| 0 <= p < |front| && front[p].node == seen[i];
      assert FirstAt(ss, p, Distinct(ss)[i], Distinct(ss)[j]);
    }
  }

  /** Nearest first, as seen from `h`. */
  ghost predicate ByDistance(c: seq<Spot>, h: Word) {
    forall i, j :: 0 <= i < j < |c| ==> Dist(h, c[i].hash) <= Dist(h, c[j].hash)
  }

  /** Going through spots nearest first and skipping repeated hosts lists the hosts by their nearest spot. */
  lemma NearestFirst(c: seq<Spot>, h: Word)
    requires ByDistance(c, h) && NoCross(Elements(c))
    ensures OwnerOrder(Elements(c), h, Distinct(c))
  {
    var spots, order := Elements(c), Distinct(c);
    DistinctMembers(c);
    forall i, j | 0 <= i < j < |order| ensures Before(spots, h, order[i], order[j]) {
      DistinctFirst(c, i, j);
      var p: nat :| FirstAt(c, p, order[i], order[j]);
      FirstIsNearer(c, h, p, order[i], order[j]);
    }
  }

  /** So does the walk over the sorted array. */
  lemma WalkIsOwnerOrder(r: seq<Spot>, h: Word, s: nat)
    requires Sorted(r) && IsStart(r, h, s) && NoCross(Elements(r))
    ensures OwnerOrder(Elements(r), h, Distinct(Clockwise(r, s)))
  {
    ClockwiseByDistance(r, h, s);
    NearestFirst(Clockwise(r, s), h);
  }

  lemma FirstIsNearer(c: seq<Spot>, h: Word, p: nat, m: NodeId, n: NodeId)
    requires FirstAt(c, p, m, n) && NoCross(Elements(c)) && ByDistance(c, h)
    ensures Before(Elements(c), h, m, n)
  {
    var u := c[p];
    assert u in Elements(c);
    forall v | v in Elements(c) && v.node == n ensures Dist(h, u.hash) < Dist(h, v.hash) {
      var q :| 0 <= q < |c| && c[q] == v;
      DistOrder(h, u.hash, v.hash);
    }
    assert CloserThanAll(Elements(c), h, u, n);
  }

  /** Any two arrangements of the same spots give the same walk from every point. */
  lemma WalkDependsOnSpots(r: seq<Spot>, s: nat, r': seq<Spot>, s': nat, h: Word)
    requires Sorted(r) && IsStart(r, h, s) && Sorted(r') && IsStart(r', h, s')
    requires Elements(r) == Elements(r') && NoCross(Elements(r))
    ensures Distinct(Clockwise(r, s)) == Distinct(Clockwise(r', s'))
  {
    WalkIsOwnerOrder(r, h, s);
    WalkIsOwnerOrder(r', h, s');
    OwnerOrderUnique(Elements(r), h, Distinct(Clockwise(r, s)), Distinct(Clockwise(r', s')));
  }

  // ------------------------------------------------------------------ and only then

  function Swap(r: seq<Spot>, i: nat, j: nat): seq<Spot>
    requires i < |r| && j < |r|
  {
    r[i := r[j]][j := r[i]]
  }

  /** Exchanging two spots at one position on the circle gives another arrangement the sort may return. */
  lemma SwapKeepsSorted(r: seq<Spot>, i: nat, j: nat)
    requires Sorted(r) && i < |r| && j < |r| && r[i].hash == r[j].hash
    ensures Sorted(Swap(r, i, j)) && multiset(Swap(r, i, j)) == multiset(r) && Elements(Swap(r, i, j)) == Elements(r)
    ensures forall h, s :: IsStart(r, h, s) ==> IsStart(Swap(r, i, j), h, s)
  {
    var t := Swap(r, i, j);
    assert forall k :: 0 <= k < |r| ==> t[k].hash == r[k].hash;
    assert multiset(t) == multiset(r);
    forall u ensures u in t <==> u in r {
      assert u in t <==> u in multiset(t);
      assert u in r <==> u in multiset(r);
    }
  }

  lemma {:induction false} DistinctHead(ss: seq<Spot>)
    requires ss != []
    ensures Distinct(ss) != [] && Distinct(ss)[0] == ss[0].node
  {
    if |ss| > 1 { DistinctHead(ss[..|ss| - 1]); }
  }

  /** Some arrangement of the same spots starts its walk at `h` with `u`. */
  lemma MoveToFront(r: seq<Spot>, h: Word, s: nat, u: Spot) returns (t: seq<Spot>)
    requires Sorted(r) && IsStart(r, h, s) && u in r && u.hash == h
    ensures Sorted(t) && IsStart(t, h, s) && multiset(t) == multiset(r)
    ensures Distinct(Clockwise(t, s)) != [] && Distinct(Clockwise(t, s))[0] == u.node
  {
    var i :| 0 <= i < |r| && r[i] == u;
    t := Swap(r, i, s);
    SwapKeepsSorted(r, i, s);
    assert Clockwise(t, s)[0] == u;
    DistinctHead(Clockwise(t, s));
  }

  /** All arrangements of `r` walk alike from every point. */
  ghost predicate WalksAlike(r: seq<Spot>) {
    forall t, t', h, s :: IsArrangement(t, r) && IsArrangement(t', r) && IsStart(t, h, s) && IsStart(t', h, s) ==>
      Distinct(Clockwise(t, s)) == Distinct(Clockwise(t', s))
  }

  ghost predicate IsArrangement(t: seq<Spot>, r: seq<Spot>) {
    Sorted(t) && multiset(t) == multiset(r)
  }

  lemma ArrangementMembers(t: seq<Spot>, r: seq<Spot>)
    requires multiset(t) == multiset(r)
    ensures Elements(t) == Elements(r)
  {
    forall u ensures u in t <==> u in r {
      assert u in t <==> u in multiset(t);
      assert u in r <==> u in multiset(r);
    }
  }

  lemma StartExists(r: seq<Spot>, u: Spot) returns (s: nat)
    requires Sorted(r) && u in r
    ensures IsStart(r, u.hash, s) && s < |r| && r[s].hash == u.hash
  {
    s :| 0 <= s < |r| && r[s] == u;
    while s > 0 && r[s - 1].hash == u.hash
      invariant s < |r| && r[s].hash == u.hash
    {
      s := s - 1;
    }
  }

  /** The walk is independent of how the sort breaks ties exactly when no two nodes share a position. */
  lemma WalksAlikeIff(r: seq<Spot>)
    requires Sorted(r)
    ensures WalksAlike(r) <==> NoCross(Elements(r))
  {
    if NoCross(Elements(r)) {
      forall t, t', h, s | IsArrangement(t, r) && IsArrangement(t', r) && IsStart(t, h, s) && IsStart(t', h, s)
        ensures Distinct(Clockwise(t, s)) == Distinct(Clockwise(t', s))
      {
        ArrangementMembers(t, r);
        ArrangementMembers(t', r);
        WalkDependsOnSpots(t, s, t', s, h);
      }
    } else {
      var u, v :| u in Elements(r) && v in Elements(r) && u.hash == v.hash && u.node != v.node;
      var s := StartExists(r, u);
      var t := MoveToFront(r, u.hash, s, u);
      var t' := MoveToFront(r, u.hash, s, v);
      assert IsArrangement(t, r) && IsArrangement(t', r) && IsStart(t, u.hash, s) && IsStart(t', u.hash, s);
      assert Distinct(Clockwise(t, s)) != Distinct(Clockwise(t', s));
    }
  }

  // ------------------------------------------------------------------ dropping a node from the array

  /** The spots of everyone but `gone`, in their order. */
  function Drop(ss: seq<Spot>, gone: NodeId): seq<Spot> {
    if ss == [] then []
    else
      var rest, last := Drop(ss[..|ss| - 1], gone), ss[|ss| - 1];
      if last.node == gone then rest else rest + [last]
  }

  lemma {:induction false} DropMembers(ss: seq<Spot>, gone: NodeId)
    ensures forall u :: u in Drop(ss, gone) <==> u in ss && u.node != gone
    ensures Elements(Drop(ss, gone)) == SpotsWithout(Elements(ss), gone)
  {
    if ss != [] {
      DropMembers(ss[..|ss| - 1], gone);
      assert ss == ss[..|ss| - 1] + [ss[|ss| - 1]];
    }
  }

  /** Dropping a node's spots and then listing hosts is listing hosts and then dropping the node. */
  lemma {:induction false} DistinctOfDrop(ss: seq<Spot>, gone: NodeId)
    ensures Distinct(Drop(ss, gone)) == Without(Distinct(ss), gone)
  {
    if ss != [] {
      var front, last := ss[..|ss| - 1], ss[|ss| - 1];
      DistinctOfDrop(front, gone);
      WithoutMembers(Distinct(front), gone);
      assert Drop(front, gone) + [last] != [] && (Drop(front, gone) + [last])[..|Drop(front, gone)|] == Drop(front, gone);
      assert (Distinct(front) + [last.node])[..|Distinct(front)|] == Distinct(front);
    }
  }

  lemma {:induction false} DropSorted(r: seq<Spot>, gone: NodeId)
    requires Sorted(r)
    ensures Sorted(Drop(r, gone))
  {
    if r != [] {
      var front, last := r[..|r| - 1], r[|r| - 1];
      DropSorted(front, gone);
      DropMembers(front, gone);
      forall i | 0 <= i < |Drop(front, gone)| ensures Drop(front, gone)[i].hash <= last.hash {
        assert Drop(front, gone)[i] in Drop(front, gone);
      }
    }
  }

  lemma {:induction false} DropByDistance(c: seq<Spot>, h: Word, gone: NodeId)
    requires ByDistance(c, h)
    ensures ByDistance(Drop(c, gone), h)
  {
    if c != [] {
      var front, last := c[..|c| - 1], c[|c| - 1];
      DropByDistance(front, h, gone);
      DropMembers(front, gone);
      forall i | 0 <= i < |Drop(front, gone)| ensures Dist(h, Drop(front, gone)[i].hash) <= Dist(h, last.hash) {
        assert Drop(front, gone)[i] in Drop(front, gone);
      }
    }
  }

  /** Only positions shared by the remaining nodes matter: without them, the walk of the rest is the old walk filtered. */
  lemma RemovalFiltersWalk(r: seq<Spot>, s: nat, after: seq<Spot>, s': nat, h: Word, gone: NodeId)
    requires Sorted(r) && IsStart(r, h, s) && Sorted(after) && IsStart(after, h, s')
    requires Elements(after) == SpotsWithout(Elements(r), gone) && NoCross(Elements(after))
    ensures Distinct(Clockwise(after, s')) == Without(Distinct(Clockwise(r, s)), gone)
  {
    var c := Clockwise(r, s);
    ClockwiseByDistance(r, h, s);
    DropMembers(c, gone);
    DropByDistance(c, h, gone);
    NearestFirst(Drop(c, gone), h);
    DistinctOfDrop(c, gone);
    WalkIsOwnerOrder(after, h, s');
    OwnerOrderUnique(Elements(after), h, Distinct(Clockwise(after, s')), Without(Distinct(c), gone));
  }
}

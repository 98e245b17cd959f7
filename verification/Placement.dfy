/** The consistent hash ring and its recycled virtual-node arrays (cluster/mesh/hashring.go). */
module Placement {
  import opened Bytes
  import opened Kv
  import opened Digits
  import opened RingOrder
  import opened RingWalk

  const DEFAULT_VNODES := 128

  datatype VNode = VNode(hash: Word, nodeIdx: nat)

  /** SHA-256 of a string, truncated to 64 bits. */
  type SecureHash = ByteString -> Word

  /** fmt.Sprintf("%s-%d", id, j). */
  function Label(id: NodeId, j: nat): ByteString {
    id + [45] + Decimal(j)
  }

  /** Distinct virtual nodes never hash the same label: the digits hold no dash. */
  lemma LabelInjective(a: NodeId, i: nat, b: NodeId, j: nat)
    requires Label(a, i) == Label(b, j)
    ensures a == b && i == j
  {
    DashLast(a, Decimal(i), b, Decimal(j));
    DecimalInjective(i, j);
  }

  /** The label is the id, a dash, and the number in decimal. */
  lemma LabelReads(id: NodeId, j: nat)
    requires j <= MAX_INT
    ensures var s := Label(id, j); |id| < |s| && s[..|id|] == id && s[|id|] == 45 && ParseInt(s[|id| + 1..]) == Some(j)
  {
    var s := Label(id, j);
    assert s[..|id|] == id && s[|id| + 1..] == Decimal(j);
    ParseDecimal(j);
  }

  lemma DashLast(a: ByteString, x: ByteString, b: ByteString, y: ByteString)
    requires a + [45] + x == b + [45] + y && 45 !in x && 45 !in y
    ensures a == b && x == y
  {
    var s := a + [45] + x;
    assert s[|a|] == 45 && s[|b|] == 45;
    forall k | |a| < k < |s| ensures s[k] != 45 { assert s[k] == x[k - |a| - 1]; }
    forall k | |b| < k < |s| ensures s[k] != 45 { assert s[k] == y[k - |b| - 1]; }
    assert a == s[..|a|] && b == s[..|b|] && x == s[|a| + 1..] && y == s[|b| + 1..];
  }

  /** A missing or negative weight counts as the default. */
  function Weight(weights: map<NodeId, int>, id: NodeId): nat {
    if id !in weights || weights[id] < 0 then DEFAULT_VNODES else weights[id]
  }

  /** The circle a configuration stands for: the members are the keys. */
  function SpotsOf(sha: SecureHash, weights: map<NodeId, int>): set<Spot> {
    set id, j | id in weights.Keys && 0 <= j < Weight(weights, id) :: Spot(sha(Label(id, j)), id)
  }

  // ------------------------------------------------------------------ the sort

  ghost predicate ByHash(vs: seq<VNode>) {
    forall i, j :: 0 <= i < j < |vs| ==> vs[i].hash <= vs[j].hash
  }

  function Insert(v: VNode, vs: seq<VNode>): seq<VNode> {
    if vs == [] || v.hash <= vs[0].hash then [v] + vs else [vs[0]] + Insert(v, vs[1..])
  }

  /** A sort by hash with no tie-break. */
  function SortByHash(vs: seq<VNode>): seq<VNode> {
    if vs == [] then [] else Insert(vs[0], SortByHash(vs[1..]))
  }

  lemma {:induction false} InsertSorts(v: VNode, vs: seq<VNode>)
    requires ByHash(vs)
    ensures ByHash(Insert(v, vs)) && multiset(Insert(v, vs)) == multiset(vs) + multiset{v}
  {
    if vs != [] && v.hash > vs[0].hash {
      InsertSorts(v, vs[1..]);
      assert vs == [vs[0]] + vs[1..];
      var rest := Insert(v, vs[1..]);
      forall i | 0 <= i < |rest| ensures vs[0].hash <= rest[i].hash {
        assert rest[i] in multiset(rest);
        assert rest[i] == v || rest[i] in vs[1..];
      }
    }
  }

  lemma {:induction false} SortSorts(vs: seq<VNode>)
    ensures ByHash(SortByHash(vs)) && multiset(SortByHash(vs)) == multiset(vs)
  {
    if vs != [] {
      SortSorts(vs[1..]);
      InsertSorts(vs[0], SortByHash(vs[1..]));
      assert vs == [vs[0]] + vs[1..];
    }
  }

  /** slices.SortFunc: by hash, in an order it chooses among equal hashes. */
  method SortPrefix(a: array<VNode>, n: nat)
    requires n <= a.Length
    modifies a
    ensures ByHash(a[..n]) && multiset(a[..n]) == multiset(old(a[..n]))
  {
    var sorted := SortByHash(a[..n]);
    SortSorts(a[..n]);
    assert |multiset(sorted)| == |sorted| && |multiset(a[..n])| == n;
    for i := 0 to n
      invariant a[..i] == sorted[..i]
    {
      a[i] := sorted[i];
    }
    assert sorted[..n] == sorted;
  }

  // ------------------------------------------------------------------ the ring's bookkeeping as values

  /** Indices point back at their node; duplicates in the list are allowed. */
  ghost predicate Indexed(nodes: map<NodeId, nat>, nodeList: seq<NodeId>) {
    && (forall id :: id in nodes <==> id in nodeList)
    && (forall id :: id in nodes ==> nodes[id] < |nodeList| && nodeList[nodes[id]] == id)
  }

  ghost predicate Resolves(vs: seq<VNode>, nodeList: seq<NodeId>) {
    forall v <- vs :: v.nodeIdx < |nodeList|
  }

  function Resolve(vs: seq<VNode>, nodeList: seq<NodeId>): seq<Spot>
    requires Resolves(vs, nodeList)
  {
    seq(|vs|, i requires 0 <= i < |vs| => assert vs[i] in vs; Spot(vs[i].hash, nodeList[vs[i].nodeIdx]))
  }

  /** The virtual nodes of one list entry, in order of their number. */
  function Row(sha: SecureHash, id: NodeId, idx: nat, w: nat): seq<VNode> {
    seq(w, j requires 0 <= j => VNode(sha(Label(id, j)), idx))
  }

  /** What the fill loop writes for the first `n` list entries. */
  function Rows(sha: SecureHash, nodes: map<NodeId, nat>, weights: map<NodeId, int>, nodeList: seq<NodeId>): seq<VNode>
    requires forall id <- nodeList :: id in nodes
  {
    if nodeList == [] then []
    else
      var last := nodeList[|nodeList| - 1];
      Rows(sha, nodes, weights, nodeList[..|nodeList| - 1]) + Row(sha, last, nodes[last], Weight(weights, last))
  }

  lemma {:induction false} RowsPrefix(sha: SecureHash, nodes: map<NodeId, nat>, weights: map<NodeId, int>, nodeList: seq<NodeId>, i: nat)
    requires (forall id <- nodeList :: id in nodes) && i <= |nodeList|
    ensures |Rows(sha, nodes, weights, nodeList[..i])| <= |Rows(sha, nodes, weights, nodeList)|
  {
    if i < |nodeList| {
      RowsPrefix(sha, nodes, weights, nodeList[..|nodeList| - 1], i);
      assert nodeList[..|nodeList| - 1][..i] == nodeList[..i];
    } else {
      assert nodeList[..i] == nodeList;
    }
  }

  lemma {:induction false} RowsMembers(sha: SecureHash, nodes: map<NodeId, nat>, weights: map<NodeId, int>, nodeList: seq<NodeId>)
    requires forall id <- nodeList :: id in nodes
    ensures forall v :: v in Rows(sha, nodes, weights, nodeList) <==>
              exists id, j :: id in nodeList && 0 <= j < Weight(weights, id) && v == VNode(sha(Label(id, j)), nodes[id])
  {
    if nodeList != [] {
      var front, last := nodeList[..|nodeList| - 1], nodeList[|nodeList| - 1];
      RowsMembers(sha, nodes, weights, front);
      var row := Row(sha, last, nodes[last], Weight(weights, last));
      forall v | v in Rows(sha, nodes, weights, nodeList)
        ensures exists id, j :: id in nodeList && 0 <= j < Weight(weights, id) && v == VNode(sha(Label(id, j)), nodes[id])
      {
        if v in Rows(sha, nodes, weights, front) {
          var id, j :| id in front && 0 <= j < Weight(weights, id) && v == VNode(sha(Label(id, j)), nodes[id]);
          assert id in nodeList;
        } else {
          var j :| 0 <= j < |row| && row[j] == v;
          assert last in nodeList && v == VNode(sha(Label(last, j)), nodes[last]);
        }
      }
      forall id, j | id in nodeList && 0 <= j < Weight(weights, id)
        ensures VNode(sha(Label(id, j)), nodes[id]) in Rows(sha, nodes, weights, nodeList)
      {
        if id in front {
          assert VNode(sha(Label(id, j)), nodes[id]) in Rows(sha, nodes, weights, front);
        } else {
          assert row[j] == VNode(sha(Label(id, j)), nodes[id]);
        }
      }
    }
  }

  /** Any sorted permutation of the rows resolves to the circle of the configuration. */
  lemma RowsAreSpots(sha: SecureHash, nodes: map<NodeId, nat>, weights: map<NodeId, int>, nodeList: seq<NodeId>, vs: seq<VNode>)
    requires Indexed(nodes, nodeList) && weights.Keys == nodes.Keys
    requires ByHash(vs) && multiset(vs) == multiset(Rows(sha, nodes, weights, nodeList))
    ensures Resolves(vs, nodeList)
    ensures Sorted(Resolve(vs, nodeList)) && Elements(Resolve(vs, nodeList)) == SpotsOf(sha, weights)
  {
    var rows := Rows(sha, nodes, weights, nodeList);
    RowsMembers(sha, nodes, weights, nodeList);
    forall v ensures v in vs <==> v in rows {
      assert v in vs <==> v in multiset(vs);
      assert v in rows <==> v in multiset(rows);
    }
    var r, spots := Resolve(vs, nodeList), SpotsOf(sha, weights);
    forall u | u in r ensures u in spots {
      var i :| 0 <= i < |r| && r[i] == u;
      assert vs[i] in vs;
      var id, j :| id in nodeList && 0 <= j < Weight(weights, id) && vs[i] == VNode(sha(Label(id, j)), nodes[id]);
      assert u == Spot(sha(Label(id, j)), id);
    }
    forall u | u in spots ensures u in r {
      var id, j :| id in weights.Keys && 0 <= j < Weight(weights, id) && u == Spot(sha(Label(id, j)), id);
      var v := VNode(sha(Label(id, j)), nodes[id]);
      assert v in vs;
      var i :| 0 <= i < |vs| && vs[i] == v;
      assert r[i] == u;
    }
  }

  // ------------------------------------------------------------------ what a lookup answers

  function Start(r: seq<Spot>, h: Word): (s: nat)
    ensures s <= |r| && (Sorted(r) ==> IsStart(r, h, s))
  {
    if r == [] || r[0].hash >= h then 0 else 1 + Start(r[1..], h)
  }

  lemma StartUnique(r: seq<Spot>, h: Word, s: nat)
    requires Sorted(r) && IsStart(r, h, s)
    ensures s == Start(r, h)
  {
    var t := Start(r, h);
    assert s < |r| ==> r[s].hash >= h;
    assert t < |r| ==> r[t].hash >= h;
  }

  /** Every host clockwise from `h`, each once. */
  function Walk(r: seq<Spot>, h: Word): seq<NodeId> {
    Distinct(Clockwise(r, Start(r, h)))
  }

  function Owners(r: seq<Spot>, h: Word, rf: int): seq<NodeId> {
    Take(Walk(r, h), rf)
  }

  lemma {:induction false} DistinctCounts(ss: seq<Spot>)
    ensures |Distinct(ss)| == |Nodes(Elements(ss))|
    ensures NoRepeats(Distinct(ss))
  {
    if ss != [] {
      var front, last := ss[..|ss| - 1], ss[|ss| - 1];
      DistinctCounts(front);
      DistinctMembers(front);
      assert Elements(ss) == Elements(front) + {last};
      assert Nodes(Elements(ss)) == Nodes(Elements(front)) + {last.node};
    } else {
      assert Nodes(Elements(ss)) == {};
    }
  }

  lemma ClockwiseMembers(r: seq<Spot>, s: nat)
    requires s <= |r|
    ensures Elements(Clockwise(r, s)) == Elements(r)
  {
    assert r == r[..s] + r[s..];
  }

  function Min(a: int, b: int): int { if a <= b then a else b }

  /** The hosts a configuration gives at least one virtual node. */
  function Weighted(weights: map<NodeId, int>): set<NodeId> {
    set id | id in weights.Keys && Weight(weights, id) > 0
  }

  lemma WeightedNodes(sha: SecureHash, weights: map<NodeId, int>)
    ensures Nodes(SpotsOf(sha, weights)) == Weighted(weights)
  {
    forall id | id in Weighted(weights) ensures id in Nodes(SpotsOf(sha, weights)) {
      assert Spot(sha(Label(id, 0)), id) in SpotsOf(sha, weights);
    }
  }

  lemma WalkShape(sha: SecureHash, weights: map<NodeId, int>, r: seq<Spot>, h: Word)
    requires Sorted(r) && Elements(r) == SpotsOf(sha, weights)
    ensures |Walk(r, h)| == |Weighted(weights)| && NoRepeats(Walk(r, h))
    ensures forall id :: id in Walk(r, h) <==> id in Weighted(weights)
  {
    var c := Clockwise(r, Start(r, h));
    ClockwiseMembers(r, Start(r, h));
    DistinctCounts(c);
    DistinctMembers(c);
    WeightedNodes(sha, weights);
  }

  ghost predicate NoRepeats(order: seq<NodeId>) {
    forall i, j :: 0 <= i < j < |order| ==> order[i] != order[j]
  }

  /** How many owners, which, and how they nest: true whatever the sort does with ties. */
  lemma OwnersShape(sha: SecureHash, weights: map<NodeId, int>, r: seq<Spot>, h: Word, rf: int, more: int)
    requires Sorted(r) && Elements(r) == SpotsOf(sha, weights) && rf <= more
    ensures |Owners(r, h, rf)| == Min(if rf < 0 then 0 else rf, |Weighted(weights)|)
    ensures NoRepeats(Owners(r, h, rf)) && forall id <- Owners(r, h, rf) :: id in Weighted(weights)
    ensures Owners(r, h, rf) <= Owners(r, h, more)
  {
    WalkShape(sha, weights, r, h);
  }

  /** Two rings of one configuration answer alike, however each came to it. */
  lemma HistoryIndependence(sha: SecureHash, weights: map<NodeId, int>, r: seq<Spot>, r': seq<Spot>, h: Word, rf: int)
    requires Sorted(r) && Sorted(r') && Elements(r) == Elements(r') == SpotsOf(sha, weights)
    requires NoCross(SpotsOf(sha, weights))
    ensures Owners(r, h, rf) == Owners(r', h, rf)
  {
    WalkDependsOnSpots(r, Start(r, h), r', Start(r', h), h);
  }

  /** Every ring with the spots of `r` gives the owners `r` gives. */
  ghost predicate SpotsDecide(r: seq<Spot>) {
    forall t, h, rf :: Sorted(t) && Elements(t) == Elements(r) ==> Owners(t, h, rf) == Owners(r, h, rf)
  }

  /** The configuration alone decides the owners exactly when no two members share a position. */
  lemma SpotsDecideIff(r: seq<Spot>)
    requires Sorted(r)
    ensures SpotsDecide(r) <==> NoCross(Elements(r))
  {
    if NoCross(Elements(r)) {
      forall t, h, rf | Sorted(t) && Elements(t) == Elements(r) ensures Owners(t, h, rf) == Owners(r, h, rf) {
        WalkDependsOnSpots(t, Start(t, h), r, Start(r, h), h);
      }
    } else {
      var u, v :| u in Elements(r) && v in Elements(r) && u.hash == v.hash && u.node != v.node;
      var s := StartExists(r, u);
      var t := LeadBy(r, s, u);
      var t' := LeadBy(r, s, v);
      assert Owners(t, u.hash, 1)[0] != Owners(t', u.hash, 1)[0];
    }
  }

  /** Some ring of the same spots names `u` first at its own position. */
  lemma LeadBy(r: seq<Spot>, s: nat, u: Spot) returns (t: seq<Spot>)
    requires Sorted(r) && IsStart(r, u.hash, s) && u in r
    ensures Sorted(t) && Elements(t) == Elements(r)
    ensures Owners(t, u.hash, 1) == [u.node]
  {
    t := MoveToFront(r, u.hash, s, u);
    ArrangementMembers(t, r);
    StartUnique(t, u.hash, s);
  }

  lemma SpotsOfRemoval(sha: SecureHash, weights: map<NodeId, int>, gone: NodeId)
    ensures SpotsOf(sha, weights - {gone}) == SpotsWithout(SpotsOf(sha, weights), gone)
  {
    var rest := weights - {gone};
    forall u | u in SpotsOf(sha, weights) && u.node != gone ensures u in SpotsOf(sha, rest) {
      var id, j :| id in weights.Keys && 0 <= j < Weight(weights, id) && u == Spot(sha(Label(id, j)), id);
      assert id in rest.Keys && Weight(rest, id) == Weight(weights, id);
    }
    forall u | u in SpotsOf(sha, rest) ensures u in SpotsOf(sha, weights) && u.node != gone {
      var id, j :| id in rest.Keys && 0 <= j < Weight(rest, id) && u == Spot(sha(Label(id, j)), id);
      assert id in weights.Keys && Weight(rest, id) == Weight(weights, id);
    }
  }

  /**
    * Removing a node deletes it from every walk and moves nothing else, so the owners of a key change
    * only if the removed node was one of them. Read right to left it is what adding a node does.
    */
  lemma RemovalMovesOnlyItsKeys(sha: SecureHash, weights: map<NodeId, int>, gone: NodeId,
                                r: seq<Spot>, after: seq<Spot>, h: Word, rf: int)
    requires Sorted(r) && Elements(r) == SpotsOf(sha, weights)
    requires Sorted(after) && Elements(after) == SpotsOf(sha, weights - {gone}) && NoCross(Elements(after))
    ensures Walk(after, h) == Without(Walk(r, h), gone)
    ensures gone !in Owners(r, h, rf) ==> Owners(after, h, rf) == Owners(r, h, rf)
    ensures forall id <- Owners(r, h, rf) :: id != gone ==> id in Owners(after, h, rf)
  {
    SpotsOfRemoval(sha, weights, gone);
    RemovalFiltersWalk(r, Start(r, h), after, Start(after, h), h, gone);
    if gone !in Owners(r, h, rf) { RemovalKeepsOwners(Walk(r, h), gone, rf); }
    SurvivorsStay(Walk(r, h), gone, rf);
  }

  /** Every ring of the remaining spots walks as `r` does, leaving out the removed node. */
  ghost predicate RemovalOnlyFilters(r: seq<Spot>, gone: NodeId) {
    forall after, h :: Sorted(after) && Elements(after) == SpotsWithout(Elements(r), gone) ==>
      Walk(after, h) == Without(Walk(r, h), gone)
  }

  /** Removal disturbs nobody else exactly when no two of the remaining members share a position. */
  lemma RemovalFiltersIff(r: seq<Spot>, gone: NodeId)
    requires Sorted(r)
    ensures RemovalOnlyFilters(r, gone) <==> NoCross(SpotsWithout(Elements(r), gone))
  {
    var spots := SpotsWithout(Elements(r), gone);
    if NoCross(spots) {
      forall after, h | Sorted(after) && Elements(after) == spots ensures Walk(after, h) == Without(Walk(r, h), gone) {
        RemovalFiltersWalk(r, Start(r, h), after, Start(after, h), h, gone);
      }
    } else {
      var u, v :| u in spots && v in spots && u.hash == v.hash && u.node != v.node;
      DropSorted(r, gone);
      DropMembers(r, gone);
      var rest := Drop(r, gone);
      assert u in Elements(rest) && v in Elements(rest);
      var s := StartExists(rest, u);
      var t := LeadBy(rest, s, u);
      var t' := LeadBy(rest, s, v);
      assert Owners(t, u.hash, 1)[0] != Owners(t', u.hash, 1)[0];
      assert Walk(t, u.hash) != Walk(t', u.hash);
    }
  }

  lemma SurvivorsStay(order: seq<NodeId>, gone: NodeId, rf: int)
    ensures forall id <- Take(order, rf) :: id != gone ==> id in Take(Without(order, gone), rf)
  {
    if 0 < rf {
      var n := if |order| <= rf then |order| else rf;
      assert order == order[..n] + order[n..];
      WithoutSplit(order[..n], order[n..], gone);
      WithoutMembers(order[..n], gone);
      WithoutShrinks(order[..n], gone);
      var kept := Without(order[..n], gone);
      assert Take(order, rf) == order[..n];
      assert kept <= Take(Without(order, gone), rf);
      forall id | id in order[..n] && id != gone ensures id in Take(Without(order, gone), rf) {
        assert id in kept;
      }
    }
  }

  lemma {:induction false} WithoutShrinks(order: seq<NodeId>, n: NodeId)
    ensures |Without(order, n)| <= |order|
  {
    if order != [] { WithoutShrinks(order[..|order| - 1], n); }
  }

  // ------------------------------------------------------------------ what a weight means

  /** A member's positions: one for each number below its weight, or below 128 if that is negative; a stranger has none. */
  lemma SpotsOfMember(sha: SecureHash, weights: map<NodeId, int>, u: Spot)
    ensures u in SpotsOf(sha, weights) <==>
            u.node in weights
            && exists j: nat :: j < (if weights[u.node] < 0 then 128 else weights[u.node]) && u.hash == sha(Label(u.node, j))
  {
    if u.node in weights {
      if u in SpotsOf(sha, weights) {
        var id, j :| id in weights.Keys && 0 <= j < Weight(weights, id) && u == Spot(sha(Label(id, j)), id);
        assert j < if weights[u.node] < 0 then 128 else weights[u.node];
      }
      if j: nat :| j < (if weights[u.node] < 0 then 128 else weights[u.node]) && u.hash == sha(Label(u.node, j)) {
        assert u == Spot(sha(Label(u.node, j)), u.node);
      }
    }
  }

  /** Only members of nonzero weight own anything. */
  lemma WeightlessOwnsNothing(sha: SecureHash, weights: map<NodeId, int>, r: seq<Spot>, h: Word, rf: int)
    requires Sorted(r) && Elements(r) == SpotsOf(sha, weights)
    ensures forall id <- Owners(r, h, rf) :: id in weights && weights[id] != 0
    ensures (forall id :: id in weights ==> weights[id] == 0) <==> Walk(r, h) == []
  {
    WalkShape(sha, weights, r, h);
    OwnersShape(sha, weights, r, h, rf, rf);
    if Walk(r, h) == [] {
      forall id | id in weights ensures weights[id] == 0 { assert id !in Walk(r, h); }
    } else {
      assert Walk(r, h)[0] in Walk(r, h);
    }
  }

  /** A new weight touches no position of anyone else. */
  lemma ReweighSpots(sha: SecureHash, weights: map<NodeId, int>, id: NodeId, w: int)
    ensures SpotsWithout(SpotsOf(sha, weights[id := w]), id) == SpotsWithout(SpotsOf(sha, weights), id)
  {
    forall u: Spot | u.node != id ensures u in SpotsOf(sha, weights[id := w]) <==> u in SpotsOf(sha, weights) {
      SpotsOfMember(sha, weights, u);
      SpotsOfMember(sha, weights[id := w], u);
    }
  }

  /** Joining or changing its weight, a member never changes the order of the others, when no two of those share a position. */
  lemma ReweighKeepsOthers(sha: SecureHash, weights: map<NodeId, int>, id: NodeId, w: int,
                           r: seq<Spot>, after: seq<Spot>, h: Word)
    requires Sorted(r) && Elements(r) == SpotsOf(sha, weights)
    requires Sorted(after) && Elements(after) == SpotsOf(sha, weights[id := w])
    requires NoCross(SpotsWithout(SpotsOf(sha, weights), id))
    ensures Without(Walk(after, h), id) == Without(Walk(r, h), id)
  {
    ReweighSpots(sha, weights, id, w);
    var rest := Drop(r, id);
    DropSorted(r, id);
    DropMembers(r, id);
    RemovalFiltersWalk(r, Start(r, h), rest, Start(rest, h), h, id);
    RemovalFiltersWalk(after, Start(after, h), rest, Start(rest, h), h, id);
  }

  /** Raising a weight only adds positions, all of that member. */
  lemma RaisedWeightAdds(sha: SecureHash, weights: map<NodeId, int>, id: NodeId, w: int, u: Spot)
    requires id in weights && 0 <= weights[id] <= w
    ensures u in SpotsOf(sha, weights) ==> u in SpotsOf(sha, weights[id := w])
    ensures u in SpotsOf(sha, weights[id := w]) && u !in SpotsOf(sha, weights) ==>
              u.node == id && exists j: nat :: weights[id] <= j < w && u.hash == sha(Label(id, j))
  {
    SpotsOfMember(sha, weights, u);
    SpotsOfMember(sha, weights[id := w], u);
  }

  lemma {:induction false} FirstOfWalk(r: seq<Spot>, h: Word) returns (u: Spot)
    requires Sorted(r) && r != []
    ensures Owners(r, h, 1) == [u.node] && u in Elements(r)
    ensures forall v <- Elements(r) :: Dist(h, u.hash) <= Dist(h, v.hash)
  {
    var c := Clockwise(r, Start(r, h));
    ClockwiseByDistance(r, h, Start(r, h));
    u := c[0];
    DistinctHead(c);
    assert u in Elements(c);
    forall v | v in Elements(r) ensures Dist(h, u.hash) <= Dist(h, v.hash) {
      assert v in Elements(c);
      var i :| 0 <= i < |c| && c[i] == v;
    }
  }

  /** So the owner of a key stays, or becomes that member, when no two members shared a position before. */
  lemma RaisedWeightTakesOver(sha: SecureHash, weights: map<NodeId, int>, id: NodeId, w: int,
                              r: seq<Spot>, after: seq<Spot>, h: Word)
    requires id in weights && 0 <= weights[id] <= w
    requires Sorted(r) && Elements(r) == SpotsOf(sha, weights) && NoCross(Elements(r))
    requires Sorted(after) && Elements(after) == SpotsOf(sha, weights[id := w])
    ensures Owners(after, h, 1) == Owners(r, h, 1) || Owners(after, h, 1) == [id]
  {
    if r != [] {
      assert r[0] in Elements(r);
      RaisedWeightAdds(sha, weights, id, w, r[0]);
      assert after != [];
    }
    if after != [] {
      var v := FirstOfWalk(after, h);
      RaisedWeightAdds(sha, weights, id, w, v);
      if v.node != id {
        assert v in Elements(r);
        var u := FirstOfWalk(r, h);
        RaisedWeightAdds(sha, weights, id, w, u);
        DistOrder(h, u.hash, v.hash);
      }
    }
  }
}

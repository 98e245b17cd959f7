/** The consistent hash ring, its operations and the shared pool of virtual-node arrays (cluster/mesh/hashring.go). */
module Rings {
  import opened Bytes
  import opened Kv
  import opened RingOrder
  import opened RingWalk
  import opened Placement

  const NEW_CAPACITY := 1024

  /** vnodeSlicePool, shared by every ring of the process. */
  class VnodePool {
    var free: set<array<VNode>>

    constructor ()
      ensures free == {}
    {
      free := {};
    }
  }

  /** A change to the membership, as a caller asks for it. */
  datatype Change =
    | Add(id: NodeId, weight: int)
    | AddMany(ids: seq<NodeId>)
    | Update(id: NodeId, weight: int)
    | Remove(id: NodeId)

  function WithDefaults(weights: map<NodeId, int>, ids: seq<NodeId>): map<NodeId, int> {
    (map id | id in ids :: DEFAULT_VNODES) + weights
  }

  /** The members with their weights after a change. */
  function Changed(weights: map<NodeId, int>, c: Change): map<NodeId, int> {
    match c
    case Add(id, w) => weights[id := w]
    case AddMany(ids) => WithDefaults(weights, ids)
    case Update(id, w) => if id in weights then weights[id := w] else weights
    case Remove(id) => weights - {id}
  }

  function AllChanged(weights: map<NodeId, int>, cs: seq<Change>): map<NodeId, int> {
    if cs == [] then weights else Changed(AllChanged(weights, cs[..|cs| - 1]), cs[|cs| - 1])
  }

  /** The change says something about member `id`, given whether it is one. */
  predicate Concerns(c: Change, id: NodeId, member: bool) {
    match c
    case Add(n, _) => n == id
    case AddMany(ids) => id in ids && !member
    case Update(n, _) => n == id && member
    case Remove(n) => n == id && member
  }

  /** The weight it then has, or None if it leaves. */
  function Told(c: Change): Option<int> {
    match c
    case Add(_, w) => Some(w)
    case AddMany(_) => Some(128)
    case Update(_, w) => Some(w)
    case Remove(_) => None
  }

  function WeightOf(weights: map<NodeId, int>, id: NodeId): Option<int> {
    if id in weights then Some(weights[id]) else None
  }

  /** Change `i` of the history concerned `id` when its turn came. */
  ghost predicate Concerned(weights: map<NodeId, int>, cs: seq<Change>, id: NodeId, i: nat)
    requires i < |cs|
  {
    Concerns(cs[i], id, id in AllChanged(weights, cs[..i]))
  }

  lemma ChangeTells(weights: map<NodeId, int>, c: Change, id: NodeId)
    ensures WeightOf(Changed(weights, c), id) == if Concerns(c, id, id in weights) then Told(c) else WeightOf(weights, id)
  {
  }

  /** No change from position `i` on concerned `id`. */
  ghost predicate QuietFrom(weights: map<NodeId, int>, cs: seq<Change>, id: NodeId, i: nat) {
    forall j: nat :: i <= j < |cs| ==> !Concerned(weights, cs, id, j)
  }

  lemma {:induction false} NothingSince(weights: map<NodeId, int>, cs: seq<Change>, id: NodeId, i: nat)
    requires i <= |cs| && QuietFrom(weights, cs, id, i)
    ensures WeightOf(AllChanged(weights, cs), id) == WeightOf(AllChanged(weights, cs[..i]), id)
  {
    if i < |cs| {
      var n := |cs| - 1;
      QuietFront(weights, cs, id, i);
      NothingSince(weights, cs[..n], id, i);
      assert cs[..n][..i] == cs[..i];
      ChangeTells(AllChanged(weights, cs[..n]), cs[n], id);
      assert !Concerned(weights, cs, id, n);
    } else {
      assert cs[..i] == cs;
    }
  }

  lemma QuietFront(weights: map<NodeId, int>, cs: seq<Change>, id: NodeId, i: nat)
    requires i < |cs| && QuietFrom(weights, cs, id, i)
    ensures QuietFrom(weights, cs[..|cs| - 1], id, i)
  {
    var front := cs[..|cs| - 1];
    forall j: nat | i <= j < |front| ensures !Concerned(weights, front, id, j) {
      assert front[..j] == cs[..j];
      assert !Concerned(weights, cs, id, j);
    }
  }

  /**
    * Over any history: a node's weight is what the last change that concerned it said, and the one it had at the start if
    * none did. Adding several concerns only strangers, an update or a removal only members.
    */
  lemma LastChangeDecides(weights: map<NodeId, int>, cs: seq<Change>, id: NodeId, i: nat)
    requires i <= |cs| && QuietFrom(weights, cs, id, i) && (i > 0 ==> Concerned(weights, cs, id, i - 1))
    ensures WeightOf(AllChanged(weights, cs), id) == if i > 0 then Told(cs[i - 1]) else WeightOf(weights, id)
  {
    NothingSince(weights, cs, id, i);
    if i > 0 {
      assert cs[..i][..i - 1] == cs[..i - 1];
      ChangeTells(AllChanged(weights, cs[..i - 1]), cs[i - 1], id);
    } else {
      assert cs[..i] == [];
    }
  }

  class HashRing {
    const sha: SecureHash
    const pool: VnodePool
    var nodes: map<NodeId, nat>
    var weights: map<NodeId, int>
    var nodeList: seq<NodeId>
    var vnodes: array<VNode>
    var len: nat

    ghost predicate Listed()
      reads this
    {
      Indexed(nodes, nodeList) && weights.Keys == nodes.Keys
    }

    /** The published array holds exactly the virtual nodes of the members, by hash. */
    ghost predicate Valid()
      reads this, vnodes
    {
      && Listed()
      && len <= vnodes.Length
      && ByHash(vnodes[..len])
      && multiset(vnodes[..len]) == multiset(Rows(sha, nodes, weights, nodeList))
    }

    /** The circle as lookups see it. */
    ghost function Spots(): (r: seq<Spot>)
      requires Valid()
      reads this, vnodes
    {
      RowsAreSpots(sha, nodes, weights, nodeList, vnodes[..len]);
      Resolve(vnodes[..len], nodeList)
    }

    /** Published and abstract circle agree. */
    lemma Circle()
      requires Valid()
      ensures Sorted(Spots()) && Elements(Spots()) == SpotsOf(sha, weights) && |Spots()| == len
      ensures Resolves(vnodes[..len], nodeList) && forall u <- Spots() :: u.node in nodeList
    {
      RowsAreSpots(sha, nodes, weights, nodeList, vnodes[..len]);
      var r := Spots();
      forall u | u in r ensures u.node in nodeList {
        var i :| 0 <= i < |r| && r[i] == u;
        assert vnodes[..len][i] in vnodes[..len];
      }
    }

    /** The published positions, told from the weights: as many numbered ones as the weight says, 128 if it is negative. */
    lemma Published(u: Spot)
      requires Valid()
      ensures u in Spots() <==>
              u.node in weights
              && exists j: nat :: j < (if weights[u.node] < 0 then 128 else weights[u.node]) && u.hash == sha(Label(u.node, j))
    {
      Circle();
      SpotsOfMember(sha, weights, u);
      assert u in Spots() <==> u in Elements(Spots());
    }

    constructor (sha: SecureHash, pool: VnodePool)
      ensures Valid() && fresh(vnodes) && this.sha == sha && this.pool == pool
      ensures weights == map[] && len == 0
    {
      this.sha := sha;
      this.pool := pool;
      nodes, weights, nodeList, len := map[], map[], [], 0;
      vnodes := new VNode[0];
    }

    // ---------------------------------------------------------------- rebuilding

    method EffectiveWeight(id: NodeId) returns (w: nat)
      ensures w == Weight(weights, id)
    {
      if id !in weights || weights[id] < 0 { w := DEFAULT_VNODES; } else { w := weights[id]; }
    }

    method Total() returns (total: nat)
      requires Listed()
      ensures total == |Rows(sha, nodes, weights, nodeList)|
    {
      total := 0;
      for i := 0 to |nodeList|
        invariant total == |Rows(sha, nodes, weights, nodeList[..i])|
      {
        var w := EffectiveWeight(nodeList[i]);
        assert nodeList[..i + 1][..i] == nodeList[..i];
        total := total + w;
      }
      assert nodeList[..|nodeList|] == nodeList;
    }

    /** Every slot below the total is rewritten, so nothing of the array's last use survives. */
    method Fill(a: array<VNode>)
      requires Listed() && |Rows(sha, nodes, weights, nodeList)| <= a.Length
      modifies a
      ensures a[..|Rows(sha, nodes, weights, nodeList)|] == Rows(sha, nodes, weights, nodeList)
    {
      var next := 0;
      for i := 0 to |nodeList|
        invariant next == |Rows(sha, nodes, weights, nodeList[..i])| <= a.Length
        invariant a[..next] == Rows(sha, nodes, weights, nodeList[..i])
      {
        RowsPrefix(sha, nodes, weights, nodeList, i + 1);
        assert nodeList[..i + 1][..i] == nodeList[..i];
        next := FillRow(a, nodeList[i], next);
      }
      assert nodeList[..|nodeList|] == nodeList;
    }

    method FillRow(a: array<VNode>, id: NodeId, start: nat) returns (next: nat)
      requires id in nodes && start + Weight(weights, id) <= a.Length
      modifies a
      ensures next == start + Weight(weights, id)
      ensures a[..next] == old(a[..start]) + Row(sha, id, nodes[id], Weight(weights, id))
    {
      var w := EffectiveWeight(id);
      next := start;
      for j := 0 to w
        invariant next == start + j
        invariant a[..start] == old(a[..start])
        invariant a[start..next] == Row(sha, id, nodes[id], w)[..j]
      {
        a[next] := VNode(sha(Label(id, j)), nodes[id]);
        next := next + 1;
      }
      assert a[..next] == a[..start] + a[start..next];
    }

    /** The lease: what the pool hands out if it is large enough, otherwise a new array. */
    method Lease(pick: array?<VNode>, total: nat) returns (a: array<VNode>)
      requires pick != null ==> pick in pool.free
      modifies pool
      ensures a.Length >= total && (a == pick || fresh(a))
      ensures pool.free == old(pool.free) - {pick}
    {
      var leased: array<VNode>;
      if pick == null {
        leased := new VNode[NEW_CAPACITY];
      } else {
        leased := pick;
        pool.free := pool.free - {pick};
      }
      if leased.Length >= total { a := leased; } else { a := new VNode[total]; }
    }

    /**
      * Build the new ring in leased space, publish it, recycle the retired array. `pick` is what the
      * pool's Get returns: one of its arrays, or null for a new one.
      */
    method RebuildVnodes(pick: array?<VNode>)
      requires Listed() && vnodes !in pool.free && (pick != null ==> pick in pool.free)
      modifies this`vnodes, this`len, pool, pick
      ensures Valid()
      ensures vnodes == pick || fresh(vnodes)
      ensures pool.free == old(pool.free) - {pick} + if old(vnodes).Length > 0 then {old(vnodes)} else {}
    {
      var total := Total();
      var a := Lease(pick, total);
      Fill(a);
      SortPrefix(a, total);
      var retired := vnodes;
      vnodes, len := a, total;
      if retired.Length > 0 { pool.free := pool.free + {retired}; }
    }

    // ---------------------------------------------------------------- membership

    method AddNodeWithWeight(id: NodeId, weight: int, pick: array?<VNode>)
      requires Valid() && vnodes !in pool.free && (pick != null ==> pick in pool.free)
      modifies this, pool, pick
      ensures Valid() && weights == old(Changed(weights, Add(id, weight)))
      ensures vnodes == pick || fresh(vnodes)
      ensures pool.free == old(pool.free) - {pick} + if old(vnodes).Length > 0 then {old(vnodes)} else {}
    {
      Join(id, weight);
      RebuildVnodes(pick);
    }

    /** A new id goes to the end of the list; a known one only gets the weight. */
    method Join(id: NodeId, weight: int)
      requires Listed()
      modifies this`nodes, this`nodeList, this`weights
      ensures Listed() && weights == old(weights)[id := weight]
    {
      if id !in nodes {
        IndexedAppend(nodes, nodeList, id);
        nodes := nodes[id := |nodeList|];
        nodeList := nodeList + [id];
      }
      weights := weights[id := weight];
    }

    method UpdateNodeWeight(id: NodeId, weight: int, pick: array?<VNode>)
      requires Valid() && vnodes !in pool.free && (pick != null ==> pick in pool.free)
      modifies this, pool, pick
      ensures Valid() && weights == old(Changed(weights, Update(id, weight)))
      ensures id !in old(weights) ==> vnodes == old(vnodes) && pool.free == old(pool.free)
      ensures id in old(weights) ==>
                && (vnodes == pick || fresh(vnodes))
                && pool.free == old(pool.free) - {pick} + if old(vnodes).Length > 0 then {old(vnodes)} else {}
    {
      if id !in nodes { return; }
      weights := weights[id := weight];
      RebuildVnodes(pick);
    }

    /** A repeated id is listed twice and indexed by its last position. */
    method AddNodes(ids: seq<NodeId>, pick: array?<VNode>)
      requires Valid() && vnodes !in pool.free && (pick != null ==> pick in pool.free)
      modifies this, pool, pick
      ensures Valid() && weights == old(Changed(weights, AddMany(ids)))
      ensures weights == old(weights) ==> vnodes == old(vnodes) && pool.free == old(pool.free)
      ensures weights != old(weights) ==>
                && (vnodes == pick || fresh(vnodes))
                && pool.free == old(pool.free) - {pick} + if old(vnodes).Length > 0 then {old(vnodes)} else {}
    {
      var newNodes := Absent(ids);
      NewOnly(weights, ids, newNodes);
      if newNodes == [] { return; }
      assert newNodes[0] in newNodes && newNodes[0] !in weights;
      Enlist(newNodes);
      RebuildVnodes(pick);
    }

    method Absent(ids: seq<NodeId>) returns (newNodes: seq<NodeId>)
      ensures forall id :: id in newNodes <==> id in ids && id !in nodes
    {
      newNodes := [];
      for i := 0 to |ids|
        invariant forall id :: id in newNodes <==> id in ids[..i] && id !in nodes
      {
        assert ids[..i + 1] == ids[..i] + [ids[i]];
        if ids[i] !in nodes { newNodes := newNodes + [ids[i]]; }
      }
      assert ids[..|ids|] == ids;
    }

    method Enlist(newNodes: seq<NodeId>)
      requires Listed() && forall id <- newNodes :: id !in weights
      modifies this`nodes, this`nodeList, this`weights
      ensures Listed() && weights == WithDefaults(old(weights), newNodes)
    {
      for i := 0 to |newNodes|
        invariant Listed() && weights == WithDefaults(old(weights), newNodes[..i])
      {
        var id := newNodes[i];
        IndexedAppend(nodes, nodeList, id);
        WithOneMore(old(weights), newNodes, i);
        nodes, nodeList := nodes[id := |nodeList|], nodeList + [id];
        weights := weights[id := DEFAULT_VNODES];
      }
      assert newNodes[..|newNodes|] == newNodes;
    }

    method RemoveNode(id: NodeId, pick: array?<VNode>)
      requires Valid() && vnodes !in pool.free && (pick != null ==> pick in pool.free)
      modifies this, pool, pick
      ensures Valid() && weights == old(Changed(weights, Remove(id)))
      ensures id !in old(weights) ==> vnodes == old(vnodes) && pool.free == old(pool.free)
      ensures id in old(weights) ==>
                && (vnodes == pick || fresh(vnodes))
                && pool.free == old(pool.free) - {pick} + if old(vnodes).Length > 0 then {old(vnodes)} else {}
    {
      if id !in nodes { return; }
      nodeList, nodes := Others(id);
      weights := weights - {id};
      RebuildVnodes(pick);
    }

    method Others(id: NodeId) returns (newNodeList: seq<NodeId>, newNodes: map<NodeId, nat>)
      ensures Indexed(newNodes, newNodeList)
      ensures forall n :: n in newNodeList <==> n in nodeList && n != id
    {
      newNodeList, newNodes := [], map[];
      for i := 0 to |nodeList|
        invariant Indexed(newNodes, newNodeList)
        invariant forall n :: n in newNodeList <==> n in nodeList[..i] && n != id
      {
        assert nodeList[..i + 1] == nodeList[..i] + [nodeList[i]];
        if nodeList[i] != id {
          IndexedAppend(newNodes, newNodeList, nodeList[i]);
          newNodes := newNodes[nodeList[i] := |newNodeList|];
          newNodeList := newNodeList + [nodeList[i]];
        }
      }
      assert nodeList[..|nodeList|] == nodeList;
    }

    method Apply(c: Change, pick: array?<VNode>)
      requires Valid() && vnodes !in pool.free && (pick != null ==> pick in pool.free)
      modifies this, pool, pick
      ensures Valid() && weights == Changed(old(weights), c)
      ensures vnodes !in pool.free && pool.free <= old(pool.free) + {old(vnodes)}
      ensures vnodes == old(vnodes) || vnodes == pick || fresh(vnodes)
    {
      match c {
        case Add(id, w) => AddNodeWithWeight(id, w, pick);
        case AddMany(ids) => AddNodes(ids, pick);
        case Update(id, w) => UpdateNodeWeight(id, w, pick);
        case Remove(id) => RemoveNode(id, pick);
      }
    }

    // ---------------------------------------------------------------- lookups

    /** sort.Search: the first virtual node at or after `h`. */
    method Search(h: Word) returns (idx: nat)
      requires Valid()
      ensures idx == Start(Spots(), h) <= len
    {
      idx := Bisect(h);
      Circle();
      assert forall i :: 0 <= i < len ==> Spots()[i].hash == vnodes[i].hash;
      StartUnique(Spots(), h, idx);
    }

    method Bisect(h: Word) returns (lo: nat)
      requires len <= vnodes.Length && ByHash(vnodes[..len])
      ensures lo <= len
      ensures forall i :: 0 <= i < lo ==> vnodes[i].hash < h
      ensures forall i :: lo <= i < len ==> vnodes[i].hash >= h
    {
      var hi := len;
      lo := 0;
      while lo < hi
        invariant 0 <= lo <= hi <= len
        invariant forall i :: 0 <= i < lo ==> vnodes[i].hash < h
        invariant forall i :: hi <= i < len ==> vnodes[i].hash >= h
      {
        var mid := (lo + hi) / 2;
        assert forall i :: 0 <= i < len ==> vnodes[..len][i] == vnodes[i];
        if vnodes[mid].hash >= h { hi := mid; } else { lo := mid + 1; }
      }
    }

    method Host(i: nat) returns (node: NodeId)
      requires Valid() && i < len
      ensures |Spots()| == len && node == Spots()[i].node
    {
      Circle();
      assert vnodes[i] in vnodes[..len];
      node := nodeList[vnodes[i].nodeIdx];
    }

    /** The host `i` places on from `idx`, round the circle. */
    method HostFrom(idx: nat, i: nat) returns (node: NodeId)
      requires Valid() && |Spots()| == len && idx <= len && i < len
      ensures node == Clockwise(Spots(), idx)[i].node
    {
      ModuloWalk(Spots(), idx, i);
      node := Host((idx + i) % len);
    }

    /** The first owner, or the empty id when no member has a virtual node. */
    method GetNode(key: Key) returns (node: NodeId)
      requires Valid()
      ensures Weighted(weights) == {} ==> node == []
      ensures Weighted(weights) != {} ==> Owners(Spots(), sha(key), 1) == [node]
    {
      var h := sha(key);
      Circle();
      WalkShape(sha, weights, Spots(), h);
      if len == 0 { return []; }
      var idx := Search(h);
      var c := Clockwise(Spots(), idx);
      DistinctHead(c);
      assert Walk(Spots(), h)[0] in Walk(Spots(), h);
      if idx == len { idx := 0; }
      node := Host(idx);
    }

    /** The hosts met first walking clockwise from the key. */
    method GetOwners(key: Key, rf: int) returns (owners: seq<NodeId>)
      requires Valid()
      ensures owners == Owners(Spots(), sha(key), rf)
      ensures forall id <- owners :: id in weights && weights[id] != 0
    {
      Circle();
      assert forall id <- Owners(Spots(), sha(key), rf) :: id in weights && weights[id] != 0 by {
        WeightlessOwnsNothing(sha, weights, Spots(), sha(key), rf);
      }
      if len == 0 { return []; }
      var target := Min(rf, |nodeList|);
      if target <= 0 { return []; }
      var idx := Search(sha(key));
      ghost var met;
      owners, met := Gather(idx, target);
      ghost var c := Clockwise(Spots(), idx);
      ClockwiseMembers(Spots(), idx);
      assert forall u <- c :: u in Elements(c);
      HostsBounded(nodeList, c);
      WalkStopsAt(c, met, owners, rf, |nodeList|);
    }

    /** One host further; a host already met is skipped. */
    method GatherOne(idx: nat, i: nat, owners: seq<NodeId>, ghost c: seq<Spot>) returns (owners': seq<NodeId>)
      requires Valid() && |Spots()| == len && idx <= len && i < len && c == Clockwise(Spots(), idx)
      requires owners == Distinct(c[..i])
      ensures owners' == Distinct(c[..i + 1]) && |owners'| <= |owners| + 1
    {
      var node := HostFrom(idx, i);
      DistinctStep(c, i);
      owners' := if node in owners then owners else owners + [node];
    }

    method Gather(idx: nat, target: nat) returns (owners: seq<NodeId>, ghost met: nat)
      requires Valid() && 0 < len == |Spots()| && idx <= len
      ensures met <= len && owners == Distinct(Clockwise(Spots(), idx)[..met])
      ensures |owners| <= target && (met < len ==> |owners| == target)
    {
      ghost var c := Clockwise(Spots(), idx);
      owners := [];
      var i := 0;
      while i < len && |owners| < target
        invariant 0 <= i <= len == |c|
        invariant owners == Distinct(c[..i]) && |owners| <= target
      {
        owners := GatherOne(idx, i, owners, c);
        i := i + 1;
      }
      met := i;
    }
  }

  // ------------------------------------------------------------------ many rings, one pool

  /** No live array is in the pool, and no two rings share one. */
  ghost predicate Isolated(pool: VnodePool, rings: set<HashRing>)
    reads pool, rings
  {
    && (forall r <- rings :: r.pool == pool && r.vnodes !in pool.free)
    && (forall r, s :: r in rings && s in rings && r != s ==> r.vnodes != s.vnodes)
  }

  ghost function Arrays(rings: set<HashRing>): set<array<VNode>>
    reads rings
  {
    set r | r in rings :: r.vnodes
  }

  /** One change to one ring keeps all rings isolated and leaves every other circle as it was. */
  method Perform(pool: VnodePool, ghost rings: set<HashRing>, ring: HashRing, c: Change, pick: array?<VNode>)
    requires Isolated(pool, rings) && ring in rings && forall r <- rings :: r.Valid()
    requires pick != null ==> pick in pool.free
    modifies ring, pool, pick
    ensures Isolated(pool, rings) && forall r <- rings :: r.Valid()
    ensures ring.weights == Changed(old(ring.weights), c)
    ensures forall r <- rings :: r != ring ==> r.vnodes == old(r.vnodes) && r.weights == old(r.weights) && r.Spots() == old(r.Spots())
    ensures pool.free <= old(pool.free) + {old(ring.vnodes)}
    ensures ring.vnodes == old(ring.vnodes) || ring.vnodes == pick || fresh(ring.vnodes)
  {
    ring.Apply(c, pick);
    forall r | r in rings && r != ring
      ensures r.Valid() && r.weights == old(r.weights) && r.Spots() == old(r.Spots())
      ensures r.vnodes !in pool.free && r.vnodes != ring.vnodes
    {
    }
  }

  function Own(history: seq<(HashRing, Change)>, r: HashRing): seq<Change> {
    if history == [] then []
    else Own(history[..|history| - 1], r) + if history[|history| - 1].0 == r then [history[|history| - 1].1] else []
  }

  lemma OwnStep(history: seq<(HashRing, Change)>, i: nat, r: HashRing, w: map<NodeId, int>)
    requires i < |history|
    ensures AllChanged(w, Own(history[..i + 1], r)) ==
            var before := AllChanged(w, Own(history[..i], r));
            if history[i].0 == r then Changed(before, history[i].1) else before
  {
    assert history[..i + 1][..i] == history[..i];
    var own := Own(history[..i], r);
    assert (own + [history[i].1])[..|own|] == own;
    assert own + [] == own;
  }

  /**
    * Any interleaving of changes to any number of rings, whatever arrays the pool hands out: each ring
    * ends up with exactly its own changes.
    */
  method RunChanges(pool: VnodePool, rings: set<HashRing>, history: seq<(HashRing, Change)>)
    requires Isolated(pool, rings) && forall r <- rings :: r.Valid()
    requires forall e <- history :: e.0 in rings
    modifies rings, pool, pool.free, Arrays(rings)
    ensures Isolated(pool, rings) && forall r <- rings :: r.Valid()
    ensures forall r <- rings :: r.weights == AllChanged(old(r.weights), Own(history, r))
  {
    ghost var reach := pool.free + Arrays(rings);
    for i := 0 to |history|
      invariant Isolated(pool, rings) && forall r <- rings :: r.Valid()
      invariant pool.free + Arrays(rings) <= reach
      invariant forall a <- reach :: a in old(pool.free + Arrays(rings)) || fresh(a)
      invariant forall r <- rings :: r.weights == AllChanged(old(r.weights), Own(history[..i], r))
    {
      assert history[i] in history;
      ghost var before := map r | r in rings :: r.weights;
      reach := PerformAny(pool, rings, history[i].0, history[i].1, reach);
      forall r | r in rings ensures r.weights == AllChanged(old(r.weights), Own(history[..i + 1], r)) {
        OwnStep(history, i, r, old(r.weights));
        assert before[r] == AllChanged(old(r.weights), Own(history[..i], r));
      }
    }
    assert history[..|history|] == history;
  }

  /** One change, with whatever array the pool hands out. */
  method PerformAny(pool: VnodePool, ghost rings: set<HashRing>, ring: HashRing, c: Change, ghost reach: set<array<VNode>>)
    returns (ghost reached: set<array<VNode>>)
    requires Isolated(pool, rings) && ring in rings && forall r <- rings :: r.Valid()
    requires pool.free + Arrays(rings) <= reach
    modifies ring, pool, reach
    ensures Isolated(pool, rings) && forall r <- rings :: r.Valid()
    ensures pool.free + Arrays(rings) <= reached && forall a <- reached :: a in reach || fresh(a)
    ensures forall r <- rings :: r.weights == if r == ring then Changed(old(r.weights), c) else old(r.weights)
  {
    var pick: array?<VNode> := null;
    if * {
      if pool.free != {} { pick :| pick in pool.free; }
    }
    assert ring.vnodes in Arrays(rings);
    Perform(pool, rings, ring, c, pick);
    reached := reach + {ring.vnodes};
    forall r | r in rings ensures r.vnodes in reached {
      assert r != ring ==> old(r.vnodes) in old(Arrays(rings));
    }
  }

  /** Members and weights decide the owners: neither the order of changes nor the arrays matter. */
  lemma EqualRingsAgree(a: HashRing, b: HashRing, key: Key, rf: int)
    requires a.Valid() && b.Valid() && a.sha == b.sha && a.weights == b.weights
    requires NoCross(SpotsOf(a.sha, a.weights))
    ensures Owners(a.Spots(), a.sha(key), rf) == Owners(b.Spots(), b.sha(key), rf)
  {
    a.Circle();
    b.Circle();
    HistoryIndependence(a.sha, a.weights, a.Spots(), b.Spots(), a.sha(key), rf);
  }

  lemma WalkStopsAt(c: seq<Spot>, i: nat, owners: seq<NodeId>, rf: int, n: nat)
    requires i <= |c| && owners == Distinct(c[..i]) && |Distinct(c)| <= n
    requires 0 < Min(rf, n) && |owners| <= Min(rf, n) && (i < |c| ==> |owners| == Min(rf, n))
    ensures owners == Take(Distinct(c), rf)
  {
    DistinctGrows(c, i);
    if i == |c| { assert c[..i] == c; }
  }

  lemma IndexedAppend(nodes: map<NodeId, nat>, nodeList: seq<NodeId>, id: NodeId)
    requires Indexed(nodes, nodeList)
    ensures Indexed(nodes[id := |nodeList|], nodeList + [id])
  {
  }

  lemma WithOneMore(weights: map<NodeId, int>, ids: seq<NodeId>, i: nat)
    requires i < |ids| && ids[i] !in weights
    ensures WithDefaults(weights, ids[..i + 1]) == WithDefaults(weights, ids[..i])[ids[i] := DEFAULT_VNODES]
  {
    assert ids[..i + 1] == ids[..i] + [ids[i]];
  }

  lemma DistinctStep(c: seq<Spot>, i: nat)
    requires i < |c|
    ensures var seen := Distinct(c[..i]);
            Distinct(c[..i + 1]) == if c[i].node in seen then seen else seen + [c[i].node]
  {
    assert c[..i + 1][..i] == c[..i];
  }

  lemma ModuloWalk(r: seq<Spot>, s: nat, i: nat)
    requires s <= |r| && i < |r|
    ensures Clockwise(r, s)[i] == r[(s + i) % |r|]
  {
    if s + i < |r| {
      assert (s + i) % |r| == s + i;
    } else {
      assert (s + i) % |r| == s + i - |r|;
    }
  }

  lemma {:induction false} DistinctGrows(ss: seq<Spot>, i: nat)
    requires i <= |ss|
    ensures Distinct(ss[..i]) <= Distinct(ss)
  {
    if i < |ss| {
      DistinctGrows(ss[..|ss| - 1], i);
      assert ss[..|ss| - 1][..i] == ss[..i];
    } else {
      assert ss[..i] == ss;
    }
  }

  lemma {:induction false} ElementsBounded(s: seq<NodeId>)
    ensures |Elements(s)| <= |s|
  {
    if s == [] {
      assert Elements(s) == {};
    } else {
      ElementsBounded(s[1..]);
      assert s == [s[0]] + s[1..];
      assert Elements(s) == Elements(s[1..]) + {s[0]};
    }
  }

  lemma SubsetBounded(a: set<NodeId>, b: set<NodeId>)
    requires a <= b
    ensures |a| <= |b|
  {
    assert b == a + (b - a);
  }

  lemma HostsBounded(nodeList: seq<NodeId>, c: seq<Spot>)
    requires forall u <- c :: u.node in nodeList
    ensures |Distinct(c)| <= |nodeList|
  {
    DistinctCounts(c);
    ElementsBounded(nodeList);
    SubsetBounded(Nodes(Elements(c)), Elements(nodeList));
  }

  lemma NewOnly(weights: map<NodeId, int>, ids: seq<NodeId>, newNodes: seq<NodeId>)
    requires forall id :: id in newNodes <==> id in ids && id !in weights
    ensures WithDefaults(weights, newNodes) == WithDefaults(weights, ids)
    ensures newNodes == [] ==> WithDefaults(weights, ids) == weights
  {
  }
}

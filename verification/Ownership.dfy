/** Who owns a key, to the gateway and to anti-entropy (cluster/gateway/gateway.go, cluster/entropy/sync.go). */
module Ownership {
  import opened Bytes
  import opened Kv
  import opened Lww
  import opened DigestTree
  import opened RingOrder
  import opened RingWalk
  import opened Placement
  import opened Entropy

  /** getReplicationFactor: the gateway and isOwner take a factor of 0 or less as 1. */
  function Clamped(rf: int): int {
    if rf <= 0 then 1 else rf
  }

  /** Every node the gateway writes to is one that anti-entropy serves. */
  ghost predicate GatewayOwnersServed(r: seq<Spot>, rf: int) {
    forall h: Word, n :: n in Owners(r, h, Clamped(rf)) ==> n in Owners(r, h, rf)
  }

  /** On a circle with at least one virtual node that holds exactly for a factor of 1 or more. */
  lemma GatewayOwnersServedIff(sha: SecureHash, weights: map<NodeId, int>, r: seq<Spot>, rf: int)
    requires Sorted(r) && Elements(r) == SpotsOf(sha, weights) && Weighted(weights) != {}
    ensures GatewayOwnersServed(r, rf) <==> rf >= 1
  {
    if rf < 1 {
      var h: Word := 0;
      OwnersShape(sha, weights, r, h, 1, 1);
      var id :| id in Weighted(weights);
      assert |Owners(r, h, 1)| == 1;
      assert Owners(r, h, 1)[0] in Owners(r, h, Clamped(rf)) && Owners(r, h, rf) == [];
    }
  }

  /** The syncer asks the ring that `r` describes. */
  ghost predicate Asks(s: Syncer, sha: SecureHash, r: seq<Spot>) {
    forall k, n :: s.getOwners(k, n) == Owners(r, sha(k), n)
  }

  /** The same for a syncer: outside single-node mode it serves the gateway's owners exactly for a factor of 1 or more. */
  lemma SyncerServesIff(s: Syncer, sha: SecureHash, weights: map<NodeId, int>, r: seq<Spot>, k: Key)
    requires Sorted(r) && Elements(r) == SpotsOf(sha, weights) && Weighted(weights) != {} && Asks(s, sha, r)
    ensures (forall n :: n in Owners(r, sha(k), Clamped(s.replicationFactor)) ==> s.Owns(n)(k))
            <==> s.singleNode || s.replicationFactor >= 1
  {
    var h, rf := sha(k), s.replicationFactor;
    assert s.getOwners(k, rf) == Owners(r, h, rf);
    if !s.singleNode && rf < 1 {
      OwnersShape(sha, weights, r, h, 1, 1);
      var id :| id in Weighted(weights);
      assert |Owners(r, h, 1)| == 1;
      var n := Owners(r, h, 1)[0];
      assert n in Owners(r, h, Clamped(rf)) && !s.Owns(n)(k);
    }
  }

  /** Whom a syncer serves, and nobody else: outside single-node mode exactly the owners its ring names for its factor. */
  lemma ServesOnlyOwners(s: Syncer, sha: SecureHash, r: seq<Spot>, n: NodeId, k: Key)
    requires Asks(s, sha, r) && !s.singleNode
    ensures s.Owns(n)(k) <==> n in Owners(r, sha(k), s.replicationFactor)
    ensures s.replicationFactor >= 1 ==> (s.Owns(n)(k) <==> n in Owners(r, sha(k), Clamped(s.replicationFactor)))
  {
    assert s.getOwners(k, s.replicationFactor) == Owners(r, sha(k), s.replicationFactor);
  }

  /** A pull brings a requester only keys it owns, and at a factor of 1 or more only keys the gateway writes to it. */
  method PullForOwner(s: Syncer, cfg: PullConfig, ghost sha: SecureHash, ghost r: seq<Spot>)
      returns (sets: seq<Request>, deletes: seq<Request>)
    requires s.sw.Valid() && Asks(s, sha, r) && !s.singleNode
    ensures forall q <- sets + deletes ::
              && q.key in s.sw.hm.contents && q == BuildRequest(q.key, s.sw.hm.contents[q.key])
              && cfg.requester in Owners(r, sha(q.key), s.replicationFactor)
              && (s.replicationFactor >= 1 ==> cfg.requester in Owners(r, sha(q.key), Clamped(s.replicationFactor)))
  {
    sets, deletes := s.Pull(cfg);
    ghost var m, owns := s.sw.hm.contents, s.Owns(cfg.requester);
    ghost var live := Answer(s.sw.hm.xx, s.sw.hm.fp, m, cfg, owns, false);
    ghost var dead := Answer(s.sw.hm.xx, s.sw.hm.fp, m, cfg, owns, true);
    AnswerOwned(s.sw.hm.xx, s.sw.hm.fp, m, cfg, owns, false);
    AnswerOwned(s.sw.hm.xx, s.sw.hm.fp, m, cfg, owns, true);
    forall q | q in sets + deletes
      ensures q.key in m && q == BuildRequest(q.key, m[q.key]) && cfg.requester in Owners(r, sha(q.key), s.replicationFactor)
    {
      assert q in sets || q in deletes;
      ServesOnlyOwners(s, sha, r, cfg.requester, q.key);
    }
  }

  lemma AnswerOwned(xx: Hash, fp: Fingerprint, m: Replica, cfg: PullConfig, owns: Key -> bool, dead: bool)
    ensures forall k :: k in Answer(xx, fp, m, cfg, owns, dead) ==>
              k in m && Answer(xx, fp, m, cfg, owns, dead)[k] == m[k] && owns(k)
  {
  }

  /** At a factor of 0 or less every key has an owner to write to, and a pull returns nothing to anyone. */
  lemma NothingPulledAtZero(s: Syncer, sha: SecureHash, weights: map<NodeId, int>, r: seq<Spot>,
                            xx: Hash, fp: Fingerprint, m: Replica, cfg: PullConfig, requester: NodeId, dead: bool, k: Key)
    requires Sorted(r) && Elements(r) == SpotsOf(sha, weights) && Weighted(weights) != {} && Asks(s, sha, r)
    requires s.replicationFactor <= 0 && !s.singleNode
    ensures |Owners(r, sha(k), Clamped(s.replicationFactor))| == 1
    ensures Answer(xx, fp, m, cfg, s.Owns(requester), dead) == map[]
  {
    OwnersShape(sha, weights, r, sha(k), 1, 1);
    var id :| id in Weighted(weights);
    forall j ensures !s.Owns(requester)(j) {
      assert s.getOwners(j, s.replicationFactor) == Owners(r, sha(j), s.replicationFactor);
    }
    forall j ensures j !in Answer(xx, fp, m, cfg, s.Owns(requester), dead) {}
  }

  /** Both nodes are among those the gateway writes `k` to. */
  ghost predicate Share(a: Syncer, b: Syncer, sha: SecureHash, r: seq<Spot>, k: Key) {
    && a.nodeId in Owners(r, sha(k), Clamped(a.replicationFactor))
    && b.nodeId in Owners(r, sha(k), Clamped(b.replicationFactor))
  }

  lemma ShareServed(a: Syncer, b: Syncer, sha: SecureHash, r: seq<Spot>, k: Key)
    requires Asks(a, sha, r) && Asks(b, sha, r) && a.replicationFactor == b.replicationFactor
    requires !a.singleNode && !b.singleNode
    ensures a.replicationFactor >= 1 && Share(a, b, sha, r, k) ==> b.Owns(a.nodeId)(k) && a.Owns(b.nodeId)(k)
    ensures a.replicationFactor <= 0 ==> !b.Owns(a.nodeId)(k) && !a.Owns(b.nodeId)(k)
    ensures a.replicationFactor >= 1 && a.nodeId !in Owners(r, sha(k), Clamped(a.replicationFactor)) ==> !b.Owns(a.nodeId)(k)
    ensures a.replicationFactor >= 1 && b.nodeId !in Owners(r, sha(k), Clamped(b.replicationFactor)) ==> !a.Owns(b.nodeId)(k)
  {
    ServesOnlyOwners(b, sha, r, a.nodeId, k);
    ServesOnlyOwners(a, sha, r, b.nodeId, k);
  }

  ghost predicate SameAt(m: Replica, m': Replica, k: Key) {
    (k in m <==> k in m') && (k in m ==> m'[k] == m[k])
  }

  lemma NothingOwnedNothingMoved(xx: Hash, fp: Fingerprint, a: Replica, b: Replica, id: NodeId, owns: Key -> bool)
    requires forall k :: !owns(k)
    ensures AfterPull(xx, fp, a, b, id, owns) == a
  {
  }

  /**
    * A round each way between two nodes of one ring: at a replication factor of 1 or more it evens out exactly those keys
    * the gateway writes to both that the digests show to differ, and leaves each node's records of keys the gateway does
    * not write to it as they were; at 0 or less it moves nothing.
    */
  method SyncOwners(a: Syncer, b: Syncer, ghost sha: SecureHash, ghost r: seq<Spot>) returns (ended: bool)
    requires a.sw.Valid() && b.sw.Valid() && a.Apart(b) && b.Apart(a)
    requires a.sw.hm.xx == b.sw.hm.xx && a.sw.hm.fp == b.sw.hm.fp
    requires Clean(a.sw.hm.contents) && Clean(b.sw.hm.contents)
    requires Asks(a, sha, r) && Asks(b, sha, r) && a.replicationFactor == b.replicationFactor
    requires !a.singleNode && !b.singleNode
    modifies a.sw, a.sw.clock, a.sw.hm, a.sw.hm.shards, b.sw, b.sw.clock, b.sw.hm, b.sw.hm.shards
    ensures old(BelowMax(a.sw.hm.contents) && BelowMax(b.sw.hm.contents)) ==> ended
    ensures ended && a.replicationFactor >= 1 ==>
              forall k :: Share(a, b, sha, r, k) && (k in old(a.sw.hm.contents) || k in old(b.sw.hm.contents)) ==>
                (Evened(old(a.sw.hm.contents), old(b.sw.hm.contents), a.sw.hm.contents, b.sw.hm.contents, k) <==>
                 Visible(a.sw.hm.xx, a.sw.hm.fp, old(a.sw.hm.contents), old(b.sw.hm.contents), a.sw.hm.contents, k))
    ensures ended && a.replicationFactor >= 1 ==>
              forall k :: a.nodeId !in Owners(r, sha(k), Clamped(a.replicationFactor)) ==>
                SameAt(old(a.sw.hm.contents), a.sw.hm.contents, k)
    ensures ended && a.replicationFactor >= 1 ==>
              forall k :: b.nodeId !in Owners(r, sha(k), Clamped(b.replicationFactor)) ==>
                SameAt(old(b.sw.hm.contents), b.sw.hm.contents, k)
    ensures ended && a.replicationFactor <= 0 ==>
              a.sw.hm.contents == old(a.sw.hm.contents) && b.sw.hm.contents == old(b.sw.hm.contents)
  {
    ghost var xx, fp, m, n := a.sw.hm.xx, a.sw.hm.fp, a.sw.hm.contents, b.sw.hm.contents;
    ended := SyncBothWays(a, b);
    ghost var m', n' := a.sw.hm.contents, b.sw.hm.contents;
    forall k
      ensures a.replicationFactor >= 1 && Share(a, b, sha, r, k) ==> b.Owns(a.nodeId)(k) && a.Owns(b.nodeId)(k)
      ensures a.replicationFactor <= 0 ==> !b.Owns(a.nodeId)(k) && !a.Owns(b.nodeId)(k)
      ensures a.replicationFactor >= 1 && a.nodeId !in Owners(r, sha(k), Clamped(a.replicationFactor)) ==> !b.Owns(a.nodeId)(k)
      ensures a.replicationFactor >= 1 && b.nodeId !in Owners(r, sha(k), Clamped(b.replicationFactor)) ==> !a.Owns(b.nodeId)(k)
    {
      ShareServed(a, b, sha, r, k);
    }
    forall k
      ensures !b.Owns(a.nodeId)(k) && ended ==> SameAt(m, m', k)
      ensures !a.Owns(b.nodeId)(k) && ended ==> SameAt(n, n', k)
    {
      AfterPullExact(xx, fp, m, n, a.nodeId, b.Owns(a.nodeId), k);
      AfterPullExact(xx, fp, n, m', b.nodeId, a.Owns(b.nodeId), k);
    }
    if a.replicationFactor <= 0 {
      NothingOwnedNothingMoved(xx, fp, m, n, a.nodeId, b.Owns(a.nodeId));
      NothingOwnedNothingMoved(xx, fp, n, m', b.nodeId, a.Owns(b.nodeId));
    }
  }
}

/** A replica that is behind by timestamps alone: when the XOR digests show it (getItemHash in core/hashmap/shardedmap.go). */
module Refresh {
  import opened Bytes
  import opened Words
  import opened Kv
  import opened Ties
  import opened Lww
  import opened DigestTree
  import opened Clock
  import opened Entropy

  // ------------------------------------------------------------------ one changed key, seen by the digests

  lemma XorMoves(x: Word, y: Word, z: Word)
    ensures Xor(Xor(x, y), z) == Xor(Xor(x, z), y)
  {
    XorLaws(x, y, z);
    XorLaws(x, z, y);
    XorLaws(y, z, z);
  }

  /** Old term out and new one in moves a digest by their difference. */
  lemma Moved(x: Word, p: Word, q: Word)
    ensures Xor(Xor(x, p), q) == Xor(x, Xor(p, q))
  {
    XorLaws(x, p, q);
  }

  /** By how much a change moves a digest: by `d` where it happens, otherwise not at all. */
  function At(here: bool, d: Word): Word {
    if here then d else 0
  }

  lemma BucketMoves(fp: Fingerprint, p: Replica, k: Key, v: Value)
    requires k in p
    ensures |p[k := v]| == |p| && XorMap(p[k := v]) == Xor(XorMap(p), Xor(p[k].itemHash, v.itemHash))
    ensures BucketDigest(fp, p[k := v]) == Xor(BucketDigest(fp, p), Xor(p[k].itemHash, v.itemHash))
  {
    var d := Xor(p[k].itemHash, v.itemHash);
    assert p[k := v].Keys == p.Keys;
    assert |p| == |p.Keys| && |p[k := v]| == |p[k := v].Keys|;
    XorMapInsert(p, k, v);
    Moved(XorMap(p), p[k].itemHash, v.itemHash);
    XorMoves(XorMap(p), d, fp(|p| % TWO_32));
  }

  lemma ShardMoves(fp: Fingerprint, bs: seq<Replica>, i: nat, k: Key, v: Value)
    requires i < |bs| && k in bs[i]
    ensures ShardDigest(fp, bs[i := bs[i][k := v]]) == Xor(ShardDigest(fp, bs), Xor(bs[i][k].itemHash, v.itemHash))
  {
    var d, bs' := Xor(bs[i][k].itemHash, v.itemHash), bs[i := bs[i][k := v]];
    BucketMoves(fp, bs[i], k, v);
    var x, x' := XorMap(bs[i]), XorMap(bs[i][k := v]);
    assert Xors(bs') == Xors(bs)[i := x'];
    assert Sizes(bs') == Sizes(bs);
    XorSeqUpdate(Xors(bs), i, x');
    SwapIsMove(XorSeq(Xors(bs)), x, d);
    XorMoves(XorSeq(Xors(bs)), d, fp(SumSeq(Sizes(bs)) % TWO_32));
  }

  lemma SwapIsMove(x: Word, y: Word, d: Word)
    ensures Xor(Xor(x, y), Xor(y, d)) == Xor(x, d)
  {
    XorLaws(Xor(x, y), y, d);
    XorLaws(x, y, y);
    XorLaws(y, 0, 0);
    XorLaws(x, 0, 0);
  }

  lemma RootMoves(fp: Fingerprint, t: Tree, h: nat, bs: seq<Replica>, d: Word)
    requires h < |t| && ShardDigest(fp, bs) == Xor(ShardDigest(fp, t[h]), d)
    ensures RootDigest(fp, t[h := bs]) == Xor(RootDigest(fp, t), d)
  {
    var ds := ShardDigests(fp, t);
    assert ShardDigests(fp, t[h := bs]) == ds[h := ShardDigest(fp, bs)];
    XorSeqUpdate(ds, h, ShardDigest(fp, bs));
    SwapIsMove(XorSeq(ds), ds[h], d);
  }

  lemma BucketAfter(xx: Hash, m: Replica, k: Key, v: Value, s: nat, b: nat)
    ensures Bucket(xx, m[k := v], s, b) == if s == ShardOf(xx(k)) && b == BucketOf(xx(k)) then Bucket(xx, m, s, b)[k := v]
                                           else Bucket(xx, m, s, b)
  {
    if s != ShardOf(xx(k)) || b != BucketOf(xx(k)) {
      assert m[k := v] - {k} == m - {k};
      BucketElsewhere(xx, m, m[k := v], k, s, b);
    }
  }

  lemma BucketsAfter(xx: Hash, m: Replica, k: Key, v: Value, s: nat)
    ensures var bs, i := Buckets(xx, m, s), BucketOf(xx(k));
            Buckets(xx, m[k := v], s) == if s == ShardOf(xx(k)) then bs[i := bs[i][k := v]] else bs
  {
    forall b: nat | b < BUCKET_COUNT
      ensures Bucket(xx, m[k := v], s, b) == if s == ShardOf(xx(k)) && b == BucketOf(xx(k)) then Bucket(xx, m, s, b)[k := v]
                                             else Bucket(xx, m, s, b)
    {
      BucketAfter(xx, m, k, v, s, b);
    }
  }

  /** Replacing the record of `k` moves the digests of its bucket, its shard and the root by one difference, and no other. */
  lemma ReplaceMoves(xx: Hash, fp: Fingerprint, m: Replica, k: Key, v: Value, s: nat, b: nat)
    requires k in m && s < SHARD_COUNT && b < BUCKET_COUNT
    ensures var m', d := m[k := v], Xor(m[k].itemHash, v.itemHash);
            var shard := s == ShardOf(xx(k));
            && BucketDigest(fp, Bucket(xx, m', s, b))
               == Xor(BucketDigest(fp, Bucket(xx, m, s, b)), At(shard && b == BucketOf(xx(k)), d))
            && ShardDigest(fp, Buckets(xx, m', s)) == Xor(ShardDigest(fp, Buckets(xx, m, s)), At(shard, d))
  {
    BucketAfter(xx, m, k, v, s, b);
    BucketsAfter(xx, m, k, v, s);
    XorLaws(BucketDigest(fp, Bucket(xx, m, s, b)), 0, 0);
    XorLaws(ShardDigest(fp, Buckets(xx, m, s)), 0, 0);
    if s == ShardOf(xx(k)) {
      ShardMoves(fp, Buckets(xx, m, s), BucketOf(xx(k)), k, v);
      if b == BucketOf(xx(k)) { BucketMoves(fp, Bucket(xx, m, s, b), k, v); }
    }
  }

  lemma ReplaceMovesRoot(xx: Hash, fp: Fingerprint, m: Replica, k: Key, v: Value)
    requires k in m
    ensures RootDigest(fp, TreeOf(xx, m[k := v])) == Xor(RootDigest(fp, TreeOf(xx, m)), Xor(m[k].itemHash, v.itemHash))
  {
    var h, i, t := ShardOf(xx(k)), BucketOf(xx(k)), TreeOf(xx, m);
    HomeLookup(xx, m, k);
    InsertPlaces(xx, m, k, v);
    ShardMoves(fp, t[h], i, k, v);
    RootMoves(fp, t, h, t[h][i := t[h][i][k := v]], Xor(m[k].itemHash, v.itemHash));
  }

  // ------------------------------------------------------------------ records that differ by their timestamps

  /** How far a new timestamp moves the item hash. */
  function StampMove(t: Int64, u: Int64): Word {
    Xor(StampTerm(t), StampTerm(u))
  }

  /** Different timestamps always move it. */
  lemma StampMoveZeroIff(t: Int64, u: Int64)
    ensures StampMove(t, u) == 0 <==> t == u
  {
    XorLaws(StampTerm(t), StampTerm(t), StampTerm(t));
    if StampMove(t, u) == 0 {
      XorInjective(StampTerm(t), StampTerm(t), StampTerm(u));
      RotateInjective(AsUint64(t), AsUint64(u), UP_17, DOWN_17);
    }
  }

  /** The same payload written again at another time. */
  function Stamped(xx: Hash, k: Key, v: Value, t: Int64): Value {
    WithHash(xx, k, v.(timestamp := t))
  }

  /** The item hash is the stamp's term and a part that does not depend on the stamp. */
  lemma StampApart(xx: Hash, hash: Word, v: Value)
    ensures ItemHash(xx, hash, v) == Xor(ItemHash(xx, hash, v.(timestamp := 0)), StampTerm(v.timestamp))
  {
    var t, n, d, m := StampTerm(v.timestamp), NodeTerm(xx, v.nodeId), DataTerm(xx, v.data), Mark(v.tombstone);
    ItemHashTerms(xx, hash, v);
    ItemHashTerms(xx, hash, v.(timestamp := 0));
    RotateZero(UP_17, DOWN_17);
    XorUnit(hash);
    XorMoves(hash, t, n);
    XorMoves(Xor(hash, n), t, d);
    XorMoves(Xor(Xor(hash, n), d), t, m);
  }

  lemma StampedMoves(xx: Hash, k: Key, v: Value, t: Int64)
    requires IsHashed(xx, k, v)
    ensures Xor(v.itemHash, Stamped(xx, k, v, t).itemHash) == StampMove(v.timestamp, t)
  {
    var r := ItemHash(xx, xx(k), v.(timestamp := 0));
    StampApart(xx, xx(k), v);
    StampApart(xx, xx(k), v.(timestamp := t));
    assert v.(timestamp := t).(timestamp := 0) == v.(timestamp := 0);
    XorMoves(r, StampTerm(v.timestamp), Xor(r, StampTerm(t)));
    XorLaws(r, r, StampTerm(t));
    XorLaws(r, r, r);
    XorLaws(0, StampTerm(t), 0);
    XorLaws(StampTerm(t), 0, 0);
    XorLaws(StampTerm(t), StampTerm(v.timestamp), 0);
  }

  /** `a` once the record of `k` has been written again at time `t`. */
  function Refreshed(xx: Hash, a: Replica, k: Key, t: Int64): Replica
    requires k in a
  {
    a[k := Stamped(xx, k, a[k], t)]
  }

  lemma TwoMoves(x: Word, d: Word, e: Word)
    ensures Xor(Xor(x, d), e) == x <==> d == e
  {
    Moved(x, d, e);
    XorLaws(x, 0, 0);
    XorLaws(d, d, d);
    if Xor(Xor(x, d), e) == x {
      XorInjective(x, Xor(d, e), 0);
      XorInjective(d, d, e);
    }
  }

  /** What two refreshed keys look like to the digests above any key `j`. */
  lemma TwoRefreshesShownIff(xx: Hash, fp: Fingerprint, a: Replica, k: Key, t: Int64, l: Key, u: Int64, j: Key)
    requires k in a && l in a && k != l && IsHashed(xx, k, a[k]) && IsHashed(xx, l, a[l])
    ensures var d, e := StampMove(a[k].timestamp, t), StampMove(a[l].timestamp, u);
            var s, i := ShardOf(xx(j)), BucketOf(xx(j));
            Shown(xx, fp, a, Refreshed(xx, Refreshed(xx, a, k, t), l, u), j) <==>
              && d != e
              && At(s == ShardOf(xx(k)), d) != At(s == ShardOf(xx(l)), e)
              && At(s == ShardOf(xx(k)) && i == BucketOf(xx(k)), d) != At(s == ShardOf(xx(l)) && i == BucketOf(xx(l)), e)
  {
    var s, i := ShardOf(xx(j)), BucketOf(xx(j));
    var d, e := StampMove(a[k].timestamp, t), StampMove(a[l].timestamp, u);
    var mid := Refreshed(xx, a, k, t);
    StampedMoves(xx, k, a[k], t);
    StampedMoves(xx, l, a[l], u);
    ReplaceMoves(xx, fp, a, k, Stamped(xx, k, a[k], t), s, i);
    ReplaceMoves(xx, fp, mid, l, Stamped(xx, l, mid[l], u), s, i);
    ReplaceMovesRoot(xx, fp, a, k, Stamped(xx, k, a[k], t));
    ReplaceMovesRoot(xx, fp, mid, l, Stamped(xx, l, mid[l], u));
    TwoMoves(RootDigest(fp, TreeOf(xx, a)), d, e);
    TwoMoves(ShardDigest(fp, Buckets(xx, a, s)), At(s == ShardOf(xx(k)), d), At(s == ShardOf(xx(l)), e));
    TwoMoves(BucketDigest(fp, Bucket(xx, a, s, i)),
             At(s == ShardOf(xx(k)) && i == BucketOf(xx(k)), d), At(s == ShardOf(xx(l)) && i == BucketOf(xx(l)), e));
  }

  /** The two refreshed keys show together, exactly when their stamps move differently. */
  lemma RefreshedKeysShownIff(xx: Hash, fp: Fingerprint, a: Replica, k: Key, t: Int64, l: Key, u: Int64)
    requires k in a && l in a && k != l && IsHashed(xx, k, a[k]) && IsHashed(xx, l, a[l]) && a[k].timestamp != t
    ensures var b := Refreshed(xx, Refreshed(xx, a, k, t), l, u);
            var d, e := StampMove(a[k].timestamp, t), StampMove(a[l].timestamp, u);
            && (Shown(xx, fp, a, b, k) <==> d != e)
            && (a[l].timestamp != u ==> (Shown(xx, fp, a, b, l) <==> d != e))
  {
    TwoRefreshesShownIff(xx, fp, a, k, t, l, u, k);
    TwoRefreshesShownIff(xx, fp, a, k, t, l, u, l);
    StampMoveZeroIff(a[k].timestamp, t);
    StampMoveZeroIff(a[l].timestamp, u);
  }

  /** Only the refreshed keys can be behind. */
  lemma BehindOnRefreshed(xx: Hash, a: Replica, k: Key, t: Int64, l: Key, u: Int64, j: Key)
    requires k in a && l in a && k != l && IsHashed(xx, l, a[l])
    ensures var b := Refreshed(xx, Refreshed(xx, a, k, t), l, u);
            && (a[k].timestamp < t ==> Newer(a, b, k))
            && (Newer(a, b, j) ==> j == k || (j == l && a[l].timestamp != u))
  {
    if j in a { NoneBelowItself(a[j]); }
    HashedIsFixed(xx, l, a[l]);
  }

  lemma NothingPulled(xx: Hash, fp: Fingerprint, a: Replica, b: Replica, id: NodeId, owns: Key -> bool)
    requires RootDigest(fp, TreeOf(xx, a)) == RootDigest(fp, TreeOf(xx, b))
    ensures AfterPull(xx, fp, a, b, id, owns) == a
  {
  }

  lemma ShowsTogether(xx: Hash, fp: Fingerprint, a: Replica, b: Replica, owns: Key -> bool, k: Key, l: Key)
    requires Newer(a, b, k) && owns(k) && forall j :: Newer(a, b, j) ==> j == k || j == l
    requires Newer(a, b, l) ==> (Shown(xx, fp, a, b, l) <==> Shown(xx, fp, a, b, k))
    ensures AllShown(xx, fp, a, b, owns) <==> Shown(xx, fp, a, b, k)
  {
  }

  /**
    * A node that missed the refreshes of two keys, of whatever shards and buckets, catches up on them exactly when the
    * two refreshes move the item hashes differently. Otherwise a pull brings it nothing at all, whatever the hash.
    */
  lemma MissedRefreshesSeenIff(xx: Hash, fp: Fingerprint, a: Replica, k: Key, t: Int64, l: Key, u: Int64,
                               id: NodeId, owns: Key -> bool)
    requires k in a && l in a && k != l && IsHashed(xx, k, a[k]) && IsHashed(xx, l, a[l])
    requires a[k].timestamp < t && owns(k)
    ensures var b := Refreshed(xx, Refreshed(xx, a, k, t), l, u);
            var d, e := StampMove(a[k].timestamp, t), StampMove(a[l].timestamp, u);
            && (CaughtUp(a, b, AfterPull(xx, fp, a, b, id, owns), owns) <==> d != e)
            && (d == e ==> AfterPull(xx, fp, a, b, id, owns) == a)
  {
    var mid := Refreshed(xx, a, k, t);
    var b := Refreshed(xx, mid, l, u);
    ExchangeCatchesUpIff(xx, fp, a, b, id, owns);
    RefreshedKeysShownIff(xx, fp, a, k, t, l, u);
    forall j ensures Newer(a, b, j) ==> j == k || (j == l && a[l].timestamp != u) {
      BehindOnRefreshed(xx, a, k, t, l, u, j);
    }
    BehindOnRefreshed(xx, a, k, t, l, u, k);
    ShowsTogether(xx, fp, a, b, owns, k, l);
    if StampMove(a[k].timestamp, t) == StampMove(a[l].timestamp, u) {
      RootCancels(xx, fp, a, k, t, l, u);
      NothingPulled(xx, fp, a, b, id, owns);
    }
  }

  lemma RootCancels(xx: Hash, fp: Fingerprint, a: Replica, k: Key, t: Int64, l: Key, u: Int64)
    requires k in a && l in a && k != l && IsHashed(xx, k, a[k]) && IsHashed(xx, l, a[l])
    requires StampMove(a[k].timestamp, t) == StampMove(a[l].timestamp, u)
    ensures RootDigest(fp, TreeOf(xx, Refreshed(xx, Refreshed(xx, a, k, t), l, u))) == RootDigest(fp, TreeOf(xx, a))
  {
    var mid := Refreshed(xx, a, k, t);
    StampedMoves(xx, k, a[k], t);
    StampedMoves(xx, l, a[l], u);
    ReplaceMovesRoot(xx, fp, a, k, Stamped(xx, k, a[k], t));
    ReplaceMovesRoot(xx, fp, mid, l, Stamped(xx, l, mid[l], u));
    TwoMoves(RootDigest(fp, TreeOf(xx, a)), StampMove(a[k].timestamp, t), StampMove(a[l].timestamp, u));
  }

  // ------------------------------------------------------------------ one record apart

  lemma MovesIff(x: Word, d: Word)
    ensures Xor(x, d) != x <==> d != 0
  {
    XorUnit(x);
    if Xor(x, d) == x { XorInjective(x, d, 0); }
  }

  lemma DifferenceIff(x: Word, y: Word)
    ensures Xor(x, y) != 0 <==> x != y
  {
    XorLaws(x, x, x);
    if Xor(x, y) == 0 { XorInjective(x, x, y); }
  }

  /** A replica that differs in one record shows it at all levels exactly when the item hashes differ. */
  lemma OneChangeShownIff(xx: Hash, fp: Fingerprint, a: Replica, k: Key, v: Value)
    requires k in a
    ensures Shown(xx, fp, a, a[k := v], k) <==> a[k].itemHash != v.itemHash
  {
    var s, i, d := ShardOf(xx(k)), BucketOf(xx(k)), Xor(a[k].itemHash, v.itemHash);
    DifferenceIff(a[k].itemHash, v.itemHash);
    ReplaceMoves(xx, fp, a, k, v, s, i);
    ReplaceMovesRoot(xx, fp, a, k, v);
    MovesIff(RootDigest(fp, TreeOf(xx, a)), d);
    MovesIff(ShardDigest(fp, Buckets(xx, a, s)), d);
    MovesIff(BucketDigest(fp, Bucket(xx, a, s, i)), d);
  }

  lemma BehindOnOne(a: Replica, k: Key, v: Value, j: Key)
    ensures Newer(a, a[k := v], j) ==> j == k
  {
    if j in a { NoneBelowItself(a[j]); }
  }

  lemma OnlyOneBehind(xx: Hash, fp: Fingerprint, a: Replica, b: Replica, owns: Key -> bool, k: Key)
    requires Newer(a, b, k) && forall j :: Newer(a, b, j) ==> j == k
    ensures AllShown(xx, fp, a, b, owns) <==> !owns(k) || Shown(xx, fp, a, b, k)
  {
  }

  /** So a node behind on one record it owns catches up exactly when the item hashes differ. */
  lemma OneChangeSeenIff(xx: Hash, fp: Fingerprint, a: Replica, k: Key, v: Value, id: NodeId, owns: Key -> bool)
    requires k in a && LwwWins(a[k], v)
    ensures var b := a[k := v];
            CaughtUp(a, b, AfterPull(xx, fp, a, b, id, owns), owns) <==> !owns(k) || a[k].itemHash != v.itemHash
  {
    var b := a[k := v];
    OneChangeShownIff(xx, fp, a, k, v);
    ExchangeCatchesUpIff(xx, fp, a, b, id, owns);
    forall j ensures Newer(a, b, j) ==> j == k { BehindOnOne(a, k, v, j); }
    OnlyOneBehind(xx, fp, a, b, owns, k);
  }

  /** A single missed refresh is always caught up on. */
  lemma OneRefreshSeen(xx: Hash, fp: Fingerprint, a: Replica, k: Key, t: Int64, id: NodeId, owns: Key -> bool)
    requires k in a && IsHashed(xx, k, a[k]) && a[k].timestamp < t
    ensures var b := Refreshed(xx, a, k, t); CaughtUp(a, b, AfterPull(xx, fp, a, b, id, owns), owns)
  {
    StampedMoves(xx, k, a[k], t);
    StampMoveZeroIff(a[k].timestamp, t);
    DifferenceIff(a[k].itemHash, Stamped(xx, k, a[k], t).itemHash);
    OneChangeSeenIff(xx, fp, a, k, Stamped(xx, k, a[k], t), id, owns);
  }

  /** The same write under another node id shows, and if that is the larger one is caught up on, exactly when the ids do
      not collide. */
  lemma OtherNodeSeenIff(xx: Hash, fp: Fingerprint, a: Replica, k: Key, n: NodeId, id: NodeId, owns: Key -> bool)
    requires k in a && IsHashed(xx, k, a[k]) && owns(k)
    ensures var b := a[k := WithHash(xx, k, a[k].(nodeId := n))];
            && (Shown(xx, fp, a, b, k) <==> !PrintsCollide(xx, a[k].nodeId, n))
            && (LexLess(a[k].nodeId, n) ==>
                  (CaughtUp(a, b, AfterPull(xx, fp, a, b, id, owns), owns) <==> !PrintsCollide(xx, a[k].nodeId, n)))
  {
    var v := WithHash(xx, k, a[k].(nodeId := n));
    LexTrichotomy(n, n);
    NodeTermIff(xx, k, a[k], n);
    OneChangeShownIff(xx, fp, a, k, v);
    if LexLess(a[k].nodeId, n) { OneChangeSeenIff(xx, fp, a, k, v, id, owns); }
  }

  // ------------------------------------------------------------------ a family that is never seen

  lemma XorDouble(a: nat, b: nat, bit: nat)
    requires bit < 2
    ensures XorNat(2 * a + bit, 2 * b + bit) == 2 * XorNat(a, b)
  {
    XorHalf(2 * a + bit, 2 * b + bit);
    assert (2 * a + bit) / 2 == a && (2 * b + bit) / 2 == b;
  }

  /** `a` with the `n` bits of `low` below it. */
  function Above(a: nat, n: nat, low: nat): nat {
    if n == 0 then a else 2 * Above(a, n - 1, low / 2) + low % 2
  }

  lemma {:induction false} AboveIsSum(a: nat, n: nat, low: nat)
    requires low < Pow2(n)
    ensures Above(a, n, low) == a * Pow2(n) + low
  {
    if n > 0 {
      AboveIsSum(a, n - 1, low / 2);
      assert a * Pow2(n) == 2 * (a * Pow2(n - 1));
    }
  }

  /** Exclusive or of words that agree in their low bits. */
  lemma {:induction false} XorAbove(a: nat, b: nat, n: nat, low: nat)
    ensures XorNat(Above(a, n, low), Above(b, n, low)) == Above(XorNat(a, b), n, 0)
  {
    if n > 0 {
      XorAbove(a, b, n - 1, low / 2);
      XorDouble(Above(a, n - 1, low / 2), Above(b, n - 1, low / 2), low % 2);
    }
  }

  lemma XorEvenNext(p: nat)
    requires p % 2 == 0
    ensures XorNat(p, p + 1) == 1
  {
    XorHalf(p, p + 1);
    XorNatCancels(p / 2);
    assert (p + 1) / 2 == p / 2;
  }

  /** The term of a stamp without a logical part. */
  lemma MomentTerm(p: Millis)
    ensures StampTerm(Pack(p, 0)) == (p % 0x8000_0000) * 0x2_0000_0000 + p / 0x8000_0000
  {
    RotateParts(Pack(p, 0), UP_17, DOWN_17);
  }

  lemma NextMoment(p: Millis)
    requires p % 2 == 0
    ensures p + 1 <= MAX_PHYSICAL && p % 0x8000_0000 % 2 == 0 && p / 0x8000_0000 < 0x2_0000_0000
    ensures (p + 1) % 0x8000_0000 == p % 0x8000_0000 + 1 && (p + 1) / 0x8000_0000 == p / 0x8000_0000
  {
  }

  /** From an even millisecond to the next the item hash always moves by the same bit. */
  lemma EvenMomentMoves(p: Millis)
    requires p % 2 == 0
    ensures p + 1 <= MAX_PHYSICAL && StampMove(Pack(p, 0), Pack(p + 1, 0)) == 0x2_0000_0000
  {
    NextMoment(p);
    MomentTerm(p);
    MomentTerm(p + 1);
    BitAt33(p % 0x8000_0000, p / 0x8000_0000);
  }

  lemma BitAt33(x: nat, low: nat)
    requires x % 2 == 0 && low < 0x2_0000_0000
    ensures XorNat(x * 0x2_0000_0000 + low, (x + 1) * 0x2_0000_0000 + low) == 0x2_0000_0000
  {
    PowOf33();
    LowestBit(x, low, 33);
  }

  lemma LowestBit(x: nat, low: nat, n: nat)
    requires x % 2 == 0 && low < Pow2(n)
    ensures XorNat(x * Pow2(n) + low, (x + 1) * Pow2(n) + low) == Pow2(n)
  {
    AboveIsSum(x, n, low);
    AboveIsSum(x + 1, n, low);
    AboveIsSum(1, n, 0);
    XorAbove(x, x + 1, n, low);
    XorEvenNext(x);
  }

  lemma PowOf33()
    ensures Pow2(33) == 0x2_0000_0000
  {
    assert Pow2(4) == 16;
    Pow2Square(4, 16);
    Pow2Square(8, 0x100);
    Pow2Square(16, 0x1_0000);
  }

  /**
    * So any two keys that were last written at even milliseconds and are both refreshed one millisecond later stay
    * behind for ever on a node that missed that: every pull from the node that has them returns nothing.
    */
  lemma MissedRefreshesHidden(xx: Hash, fp: Fingerprint, a: Replica, k: Key, p: Millis, l: Key, q: Millis,
                              id: NodeId, owns: Key -> bool)
    requires k in a && l in a && k != l && IsHashed(xx, k, a[k]) && IsHashed(xx, l, a[l])
    requires a[k].timestamp == Pack(p, 0) && a[l].timestamp == Pack(q, 0) && p % 2 == 0 && q % 2 == 0 && owns(k)
    ensures p + 1 <= MAX_PHYSICAL && q + 1 <= MAX_PHYSICAL
    ensures var b := Refreshed(xx, Refreshed(xx, a, k, Pack(p + 1, 0)), l, Pack(q + 1, 0));
            && Newer(a, b, k) && Newer(a, b, l)
            && AfterPull(xx, fp, a, b, id, owns) == a && !CaughtUp(a, b, a, owns)
  {
    EvenMomentMoves(p);
    EvenMomentMoves(q);
    MissedRefreshesSeenIff(xx, fp, a, k, Pack(p + 1, 0), l, Pack(q + 1, 0), id, owns);
  }
}

/** Anti-entropy: three-level digest comparison and two-way convergence (cluster/entropy/sync.go). */
module Entropy {
  import opened Bytes
  import opened Words
  import opened Kv
  import opened Lww
  import opened DigestTree
  import opened ShardedMap
  import opened Writer

  // ------------------------------------------------------------------ requests carry ranks unchanged

  function BuildRequest(k: Key, v: Value): Request {
    if v.tombstone then DeleteRequest(k, v.timestamp, v.nodeId)
    else SetRequest(k, v.data, v.timestamp, v.nodeId)
  }

  /** What a peer stores when it applies the request built from `v`. */
  function Carried(xx: Hash, k: Key, v: Value): Value {
    WithHash(xx, k, ValueOf(BuildRequest(k, v)))
  }

  /** A record survives the trip, rank and item hash included, exactly when it is not a tombstone with a payload. */
  lemma CarriedIntactIff(xx: Hash, k: Key, v: Value)
    requires IsHashed(xx, k, v)
    ensures Carried(xx, k, v) == v <==> (v.tombstone ==> v.data == [])
  {
  }

  // ------------------------------------------------------------------ the mismatch mask

  /** Sub-bucket `b` needs syncing: no usable remote row, or the digests differ. */
  ghost predicate Mismatch(remote: Option<seq<Word>>, local: seq<Word>, b: nat)
    requires b < |local|
  {
    remote.None? || |remote.value| != |local| || local[b] != remote.value[b]
  }

  method CalculateMismatchMask(remote: Option<seq<Word>>, local: seq<Word>) returns (mask: Word)
    requires |local| == BUCKET_COUNT
    ensures forall b :: 0 <= b < BUCKET_COUNT ==> (Bit(mask, b) <==> Mismatch(remote, local, b))
  {
    Pow2At64();
    if remote.None? || |remote.value| != |local| {
      mask := TWO_64 - 1;
      forall b | 0 <= b < BUCKET_COUNT ensures Bit(mask, b) { AllOnes(64, b); }
      return;
    }
    mask := 0;
    forall b: nat ensures !Bit(0, b) { BitsOfZero(b); }
    for i := 0 to BUCKET_COUNT
      invariant mask < Pow2(i)
      invariant Marks(mask, i, local, remote.value)
    {
      Pow2Monotone(i + 1, 64);
      MarkNext(mask, i, local, remote.value);
      if local[i] != remote.value[i] { mask := mask + Pow2(i); }
    }
  }

  /** The bits of `mask` are the differences among the first `n` digests. */
  ghost predicate Marks(mask: Word, n: nat, local: seq<Word>, remote: seq<Word>)
    requires n <= |local| == |remote|
  {
    forall b: nat :: Bit(mask, b) <==> b < n && local[b] != remote[b]
  }

  lemma MarkNext(mask: Word, i: nat, local: seq<Word>, remote: seq<Word>)
    requires i < |local| == |remote| && mask < Pow2(i) && mask + Pow2(i) < TWO_64 && Marks(mask, i, local, remote)
    ensures local[i] != remote[i] ==> Marks(mask + Pow2(i), i + 1, local, remote)
    ensures local[i] == remote[i] ==> Marks(mask, i + 1, local, remote)
  {
    var marked: Word := mask + Pow2(i);
    if local[i] != remote[i] {
      forall b: nat ensures Bit(marked, b) <==> b < i + 1 && local[b] != remote[b] {
        SetBit(mask, i, b);
        assert Bit(mask, b) <==> b < i && local[b] != remote[b];
      }
      assert Marks(marked, i + 1, local, remote);
    } else {
      forall b: nat ensures Bit(mask, b) <==> b < i + 1 && local[b] != remote[b] {
        assert Bit(mask, b) <==> b < i && local[b] != remote[b];
      }
    }
  }

  // ------------------------------------------------------------------ pull

  datatype PullConfig = PullConfig(root: Word, shards: map<int, Word>, buckets: map<int, seq<Word>>, requester: NodeId)

  function RowOf(cfg: PullConfig, s: int): Option<seq<Word>> {
    if s in cfg.buckets then Some(cfg.buckets[s]) else None
  }

  /** Levels two and three of the comparison, for the bucket that holds hash `h`. */
  ghost predicate Differs(cfg: PullConfig, ds: seq<Word>, rows: seq<seq<Word>>, h: Word)
    requires |ds| == |rows| == SHARD_COUNT && forall s :: 0 <= s < SHARD_COUNT ==> |rows[s]| == BUCKET_COUNT
  {
    var s := ShardOf(h);
    && (s !in cfg.shards || cfg.shards[s] != ds[s])
    && Mismatch(RowOf(cfg, s), rows[s], BucketOf(h))
  }

  /** The entries of the first `n` shards that the comparison singles out. */
  ghost function Singled(xx: Hash, m: Replica, cfg: PullConfig, ds: seq<Word>, rows: seq<seq<Word>>, n: nat): Replica
    requires |ds| == |rows| == SHARD_COUNT && forall s :: 0 <= s < SHARD_COUNT ==> |rows[s]| == BUCKET_COUNT
  {
    map k | k in m && ShardOf(xx(k)) < n && Differs(cfg, ds, rows, xx(k)) :: m[k]
  }

  /** The entries of shard `s` alone that the comparison singles out. */
  ghost function SingledIn(xx: Hash, m: Replica, cfg: PullConfig, ds: seq<Word>, rows: seq<seq<Word>>, s: nat): Replica
    requires |ds| == |rows| == SHARD_COUNT && forall s :: 0 <= s < SHARD_COUNT ==> |rows[s]| == BUCKET_COUNT
  {
    map k | k in m && ShardOf(xx(k)) == s && Differs(cfg, ds, rows, xx(k)) :: m[k]
  }

  lemma SingledNext(xx: Hash, m: Replica, cfg: PullConfig, ds: seq<Word>, rows: seq<seq<Word>>, n: nat)
    requires |ds| == |rows| == SHARD_COUNT && forall s :: 0 <= s < SHARD_COUNT ==> |rows[s]| == BUCKET_COUNT
    ensures Singled(xx, m, cfg, ds, rows, n + 1) == Singled(xx, m, cfg, ds, rows, n) + SingledIn(xx, m, cfg, ds, rows, n)
    ensures Singled(xx, m, cfg, ds, rows, n).Keys !! SingledIn(xx, m, cfg, ds, rows, n).Keys
  {
  }

  lemma SingledByMask(xx: Hash, m: Replica, cfg: PullConfig, ds: seq<Word>, rows: seq<seq<Word>>, s: nat, mask: Word)
    requires |ds| == |rows| == SHARD_COUNT && forall s :: 0 <= s < SHARD_COUNT ==> |rows[s]| == BUCKET_COUNT
    requires s < SHARD_COUNT && (s !in cfg.shards || cfg.shards[s] != ds[s])
    requires forall b :: 0 <= b < BUCKET_COUNT ==> (Bit(mask, b) <==> Mismatch(RowOf(cfg, s), rows[s], b))
    ensures SingledIn(xx, m, cfg, ds, rows, s) == Selected(xx, m, s, mask, BUCKET_COUNT)
  {
  }

  /** Requests for the listed entries the requester owns, live ones or tombstones. */
  function Keep(es: seq<Write>, owns: Key -> bool, dead: bool): seq<Request> {
    if es == [] then []
    else
      var last := es[|es| - 1];
      Keep(es[..|es| - 1], owns, dead)
      + if owns(last.key) && last.value.tombstone == dead then [BuildRequest(last.key, last.value)] else []
  }

  lemma {:induction false} KeepAppend(es: seq<Write>, es': seq<Write>, owns: Key -> bool, dead: bool)
    ensures Keep(es + es', owns, dead) == Keep(es, owns, dead) + Keep(es', owns, dead)
  {
    if es' == [] {
      assert es + es' == es;
    } else {
      KeepAppend(es, es'[..|es'| - 1], owns, dead);
      assert (es + es')[..|es + es'| - 1] == es + es'[..|es'| - 1];
    }
  }

  /** `rs` asks for exactly the entries of `m`, once each. */
  ghost predicate Carries(rs: seq<Request>, m: Replica) {
    && (forall i, j :: 0 <= i < j < |rs| ==> rs[i].key != rs[j].key)
    && (forall r <- rs :: r.key in m && r == BuildRequest(r.key, m[r.key]))
    && (forall k :: k in m ==> BuildRequest(k, m[k]) in rs)
  }

  ghost function Owned(m: Replica, owns: Key -> bool, dead: bool): Replica {
    map k | k in m && owns(k) && m[k].tombstone == dead :: m[k]
  }

  lemma CarriesOneMore(rs: seq<Request>, m: Replica, k: Key, v: Value)
    requires Carries(rs, m) && k !in m
    ensures Carries(rs + [BuildRequest(k, v)], m[k := v])
  {
    forall r | r in rs ensures r.key in m[k := v] && r == BuildRequest(r.key, m[k := v][r.key]) {
      assert r.key in m;
    }
    forall i | 0 <= i < |rs| ensures rs[i].key != k { assert rs[i] in rs; }
  }

  lemma OwnedStep(m: Replica, k: Key, owns: Key -> bool, dead: bool)
    requires k in m
    ensures k !in Owned(m - {k}, owns, dead)
    ensures Owned(m, owns, dead) == if owns(k) && m[k].tombstone == dead then Owned(m - {k}, owns, dead)[k := m[k]]
                                    else Owned(m - {k}, owns, dead)
  {
  }

  lemma {:induction false} KeepCarries(es: seq<Write>, m: Replica, owns: Key -> bool, dead: bool)
    requires Lists(es, m)
    ensures Carries(Keep(es, owns, dead), Owned(m, owns, dead))
    decreases |es|
  {
    if es == [] {
      ListsNothing(m);
    } else {
      var front, last := es[..|es| - 1], es[|es| - 1];
      ListsFront(es, m);
      OwnedStep(m, last.key, owns, dead);
      var rest := Owned(m - {last.key}, owns, dead);
      KeepCarries(front, m - {last.key}, owns, dead);
      CarriesOneMore(Keep(front, owns, dead), rest, last.key, last.value);
    }
  }

  /** The callback of collectShardMismatches, run over the listed entries. */
  method Sift(es: seq<Write>, owns: Key -> bool, sets: seq<Request>, deletes: seq<Request>)
      returns (sets': seq<Request>, deletes': seq<Request>)
    ensures sets' == sets + Keep(es, owns, false)
    ensures deletes' == deletes + Keep(es, owns, true)
  {
    sets', deletes' := sets, deletes;
    for i := 0 to |es|
      invariant sets' == sets + Keep(es[..i], owns, false)
      invariant deletes' == deletes + Keep(es[..i], owns, true)
    {
      var w := es[i];
      assert es[..i + 1][..i] == es[..i];
      if owns(w.key) {
        if w.value.tombstone {
          deletes' := deletes' + [BuildRequest(w.key, w.value)];
        } else {
          sets' := sets' + [BuildRequest(w.key, w.value)];
        }
      }
    }
    assert es[..|es|] == es;
  }

  // ------------------------------------------------------------------ what one exchange achieves

  /** The digests a requester sends: complete, for all shards. */
  ghost function ConfigOf(fp: Fingerprint, t: Tree, requester: NodeId): PullConfig {
    PullConfig(RootDigest(fp, t),
               map s | 0 <= s < |t| :: ShardDigests(fp, t)[s],
               map s | 0 <= s < |t| :: Rows(fp, t)[s], requester)
  }

  /** Everything Pull may return: owned entries of differing buckets in differing shards, if the roots differ. */
  ghost function Answer(xx: Hash, fp: Fingerprint, m: Replica, cfg: PullConfig, owns: Key -> bool, dead: bool): Replica {
    var t := TreeOf(xx, m);
    if cfg.root == RootDigest(fp, t) then map[]
    else Owned(Singled(xx, m, cfg, ShardDigests(fp, t), Rows(fp, t), SHARD_COUNT), owns, dead)
  }

  lemma DigestsAt(xx: Hash, fp: Fingerprint, m: Replica, s: nat, i: nat)
    requires s < SHARD_COUNT && i < BUCKET_COUNT
    ensures var t := TreeOf(xx, m);
            && |ShardDigests(fp, t)| == |Rows(fp, t)| == SHARD_COUNT && |Rows(fp, t)[s]| == BUCKET_COUNT
            && ShardDigests(fp, t)[s] == ShardDigest(fp, Buckets(xx, m, s))
            && Rows(fp, t)[s][i] == BucketDigest(fp, Bucket(xx, m, s, i))
  {
    assert TreeOf(xx, m)[s] == Buckets(xx, m, s);
    assert Buckets(xx, m, s)[i] == Bucket(xx, m, s, i);
  }

  lemma DiffersExact(xx: Hash, fp: Fingerprint, a: Replica, b: Replica, id: NodeId, h: Word)
    ensures var t, u := TreeOf(xx, a), TreeOf(xx, b);
            var s, i := ShardOf(h), BucketOf(h);
            Differs(ConfigOf(fp, t, id), ShardDigests(fp, u), Rows(fp, u), h) <==>
              && ShardDigest(fp, Buckets(xx, a, s)) != ShardDigest(fp, Buckets(xx, b, s))
              && BucketDigest(fp, Bucket(xx, a, s, i)) != BucketDigest(fp, Bucket(xx, b, s, i))
  {
    DigestsAt(xx, fp, a, ShardOf(h), BucketOf(h));
    DigestsAt(xx, fp, b, ShardOf(h), BucketOf(h));
    var cfg, s := ConfigOf(fp, TreeOf(xx, a), id), ShardOf(h);
    assert cfg.shards[s] == ShardDigests(fp, TreeOf(xx, a))[s];
    assert RowOf(cfg, s) == Some(Rows(fp, TreeOf(xx, a))[s]);
  }

  /** The digests tell the two replicas apart at all three levels above `k`. */
  ghost predicate Shown(xx: Hash, fp: Fingerprint, a: Replica, b: Replica, k: Key) {
    var s, i := ShardOf(xx(k)), BucketOf(xx(k));
    && RootDigest(fp, TreeOf(xx, a)) != RootDigest(fp, TreeOf(xx, b))
    && ShardDigest(fp, Buckets(xx, a, s)) != ShardDigest(fp, Buckets(xx, b, s))
    && BucketDigest(fp, Bucket(xx, a, s, i)) != BucketDigest(fp, Bucket(xx, b, s, i))
  }

  /** For a complete request from a replica holding `a`: which entries of `b` come back. */
  lemma AnswerExact(xx: Hash, fp: Fingerprint, a: Replica, b: Replica, id: NodeId, owns: Key -> bool, dead: bool, k: Key)
    ensures k in Answer(xx, fp, b, ConfigOf(fp, TreeOf(xx, a), id), owns, dead) <==>
              k in b && owns(k) && b[k].tombstone == dead && Shown(xx, fp, a, b, k)
  {
    DiffersExact(xx, fp, a, b, id, xx(k));
  }

  /**
    * For any request, complete or not: an owned entry comes back exactly when the roots differ, its shard digest is
    * missing or differs, and its row is missing, of the wrong length, or differs at its bucket.
    */
  lemma AnswerToAny(xx: Hash, fp: Fingerprint, b: Replica, cfg: PullConfig, owns: Key -> bool, dead: bool, k: Key)
    ensures var s, i := ShardOf(xx(k)), BucketOf(xx(k));
            k in Answer(xx, fp, b, cfg, owns, dead) <==>
              && k in b && owns(k) && b[k].tombstone == dead && cfg.root != RootDigest(fp, TreeOf(xx, b))
              && (s in cfg.shards ==> cfg.shards[s] != ShardDigest(fp, Buckets(xx, b, s)))
              && (s in cfg.buckets && |cfg.buckets[s]| == BUCKET_COUNT ==>
                    cfg.buckets[s][i] != BucketDigest(fp, Bucket(xx, b, s, i)))
  {
    DigestsAt(xx, fp, b, ShardOf(xx(k)), BucketOf(xx(k)));
  }

  /** A request that carries nothing but a differing root gets everything the requester owns. */
  lemma BareRequestGetsAll(xx: Hash, fp: Fingerprint, b: Replica, root: Word, id: NodeId, owns: Key -> bool, dead: bool)
    requires root != RootDigest(fp, TreeOf(xx, b))
    ensures Answer(xx, fp, b, PullConfig(root, map[], map[], id), owns, dead) == Owned(b, owns, dead)
  {
    var cfg := PullConfig(root, map[], map[], id);
    forall k ensures k in Answer(xx, fp, b, cfg, owns, dead) <==> k in Owned(b, owns, dead) {
      AnswerToAny(xx, fp, b, cfg, owns, dead, k);
    }
    AnswerWithin(xx, fp, b, cfg, owns);
  }

  /** No entry ever travels from a bucket whose contents agree on both sides. */
  lemma IdenticalBucketsStayHome(xx: Hash, fp: Fingerprint, a: Replica, b: Replica, id: NodeId,
                                 owns: Key -> bool, dead: bool, k: Key)
    requires var s, i := ShardOf(xx(k)), BucketOf(xx(k)); Bucket(xx, a, s, i) == Bucket(xx, b, s, i)
    ensures k !in Answer(xx, fp, b, ConfigOf(fp, TreeOf(xx, a), id), owns, dead)
  {
    AnswerExact(xx, fp, a, b, id, owns, dead, k);
  }

  /** Tombstones carry no payload, which the writer guarantees. */
  ghost predicate Clean(m: Replica) {
    forall k :: k in m && m[k].tombstone ==> m[k].data == []
  }

  /** The writes a batch of requests amounts to. */
  function Applied(xx: Hash, rs: seq<Request>): seq<Write> {
    seq(|rs|, i requires 0 <= i < |rs| => Write(rs[i].key, WithHash(xx, rs[i].key, ValueOf(rs[i]))))
  }

  lemma AppliedNext(xx: Hash, rs: seq<Request>, i: nat)
    requires i < |rs|
    ensures var ws := Applied(xx, rs[..i + 1]);
            ws[..|ws| - 1] == Applied(xx, rs[..i]) && ws[|ws| - 1] == Write(rs[i].key, WithHash(xx, rs[i].key, ValueOf(rs[i])))
  {
  }

  /** `a'` is `a` after catching up with `b` on the keys it owns: nothing lost, everything owned covered, nothing invented. */
  ghost predicate CaughtUp(a: Replica, b: Replica, a': Replica, owns: Key -> bool) {
    && Dominates(a', a)
    && (forall k :: k in b && owns(k) ==> k in a' && AtLeast(a'[k], b[k]))
    && Mixes(a, b, a')
  }

  ghost predicate FromEither(a: Replica, b: Replica, k: Key, v: Value) {
    (k in a && v == a[k]) || (k in b && v == b[k])
  }

  /** Every record of `m` is one of `a` or of `b`. */
  ghost predicate Mixes(a: Replica, b: Replica, m: Replica) {
    forall k :: k in m ==> FromEither(a, b, k, m[k])
  }

  /** The applied batch is exactly the answered entries, with their original values. */
  lemma BatchIsAnswer(xx: Hash, b: Replica, sets: seq<Request>, live: Replica, deletes: seq<Request>, dead: Replica)
    requires AllHashed(xx, b) && Clean(b) && Carries(sets, live) && Carries(deletes, dead)
    requires forall k :: k in live ==> k in b && b[k] == live[k]
    requires forall k :: k in dead ==> k in b && b[k] == dead[k]
    ensures forall w <- Applied(xx, sets + deletes) :: w.key in b && w.value == b[w.key]
    ensures forall k :: k in live || k in dead ==> Write(k, b[k]) in Applied(xx, sets + deletes)
  {
    var rs := sets + deletes;
    var ws := Applied(xx, rs);
    forall w | w in ws ensures w.key in b && w.value == b[w.key] {
      var i :| 0 <= i < |ws| && ws[i] == w;
      assert rs[i] in sets || rs[i] in deletes;
      CarriedIntactIff(xx, w.key, b[w.key]);
    }
    forall k | k in live || k in dead ensures Write(k, b[k]) in ws {
      var r := BuildRequest(k, b[k]);
      assert r in rs;
      var i :| 0 <= i < |rs| && rs[i] == r;
      CarriedIntactIff(xx, k, b[k]);
      assert ws[i] == Write(k, b[k]);
    }
  }

  /** The requester's contents after one exchange, written out directly. */
  ghost function AfterPull(xx: Hash, fp: Fingerprint, a: Replica, b: Replica, id: NodeId, owns: Key -> bool): Replica {
    var cfg := ConfigOf(fp, TreeOf(xx, a), id);
    var sent := Answer(xx, fp, b, cfg, owns, false) + Answer(xx, fp, b, cfg, owns, true);
    map k | k in a.Keys + sent.Keys :: if k in sent && (k !in a || LwwWins(a[k], sent[k])) then sent[k] else a[k]
  }

  lemma ExchangeResult(xx: Hash, fp: Fingerprint, a: Replica, b: Replica, id: NodeId, owns: Key -> bool,
                       sets: seq<Request>, deletes: seq<Request>)
    requires AllHashed(xx, b) && Clean(b)
    requires Carries(sets, Answer(xx, fp, b, ConfigOf(fp, TreeOf(xx, a), id), owns, false))
    requires Carries(deletes, Answer(xx, fp, b, ConfigOf(fp, TreeOf(xx, a), id), owns, true))
    ensures MergeAll(a, Applied(xx, sets + deletes)) == AfterPull(xx, fp, a, b, id, owns)
  {
    var cfg := ConfigOf(fp, TreeOf(xx, a), id);
    AnswerWithin(xx, fp, b, cfg, owns);
    BatchResult(xx, a, b, sets, Answer(xx, fp, b, cfg, owns, false), deletes, Answer(xx, fp, b, cfg, owns, true));
  }

  lemma AnswerWithin(xx: Hash, fp: Fingerprint, b: Replica, cfg: PullConfig, owns: Key -> bool)
    ensures forall dead, k :: k in Answer(xx, fp, b, cfg, owns, dead) ==> k in b && b[k] == Answer(xx, fp, b, cfg, owns, dead)[k]
  {
  }

  lemma BatchResult(xx: Hash, a: Replica, b: Replica, sets: seq<Request>, live: Replica, deletes: seq<Request>, dead: Replica)
    requires AllHashed(xx, b) && Clean(b) && Carries(sets, live) && Carries(deletes, dead)
    requires forall k :: k in live ==> k in b && b[k] == live[k]
    requires forall k :: k in dead ==> k in b && b[k] == dead[k]
    ensures var sent := live + dead;
            MergeAll(a, Applied(xx, sets + deletes)) ==
            map k | k in a.Keys + sent.Keys :: if k in sent && (k !in a || LwwWins(a[k], sent[k])) then sent[k] else a[k]
  {
    BatchIsAnswer(xx, b, sets, live, deletes, dead);
    BatchKeys(xx, sets, live, deletes, dead);
    MergeOnce(a, b, Applied(xx, sets + deletes), live + dead);
  }

  lemma BatchKeys(xx: Hash, sets: seq<Request>, live: Replica, deletes: seq<Request>, dead: Replica)
    requires Carries(sets, live) && Carries(deletes, dead)
    ensures forall w <- Applied(xx, sets + deletes) :: w.key in live || w.key in dead
  {
    forall w | w in Applied(xx, sets + deletes) ensures w.key in live || w.key in dead {
      var i :| 0 <= i < |sets + deletes| && Applied(xx, sets + deletes)[i] == w;
      assert (sets + deletes)[i] in sets || (sets + deletes)[i] in deletes;
    }
  }

  /** Merging writes that agree with `b` takes over exactly the records of `b` that outrank ours. */
  lemma MergeOnce(a: Replica, b: Replica, ws: seq<Write>, sent: Replica)
    requires forall w <- ws :: w.key in sent && w.key in b && w.value == b[w.key]
    requires forall k :: k in sent ==> k in b && sent[k] == b[k] && Write(k, b[k]) in ws
    ensures MergeAll(a, ws) == map k | k in a.Keys + sent.Keys ::
                                 if k in sent && (k !in a || LwwWins(a[k], sent[k])) then sent[k] else a[k]
  {
    MergeAllWinner(a, ws);
    var r := MergeAll(a, ws);
    forall k | k in r
      ensures k in a || k in sent
      ensures r[k] == if k in sent && (k !in a || LwwWins(a[k], sent[k])) then sent[k] else a[k]
    {
      assert IsWinner(a, ws, k, r[k]);
      if k in a && !(k in sent && LwwWins(a[k], sent[k])) { WinnerStays(a, ws, k); }
    }
  }

  /** `b` has a record of `k` that `a` lacks or holds in a lower rank. */
  ghost predicate Newer(a: Replica, b: Replica, k: Key) {
    k in b && (k !in a || LwwWins(a[k], b[k]))
  }

  /** Every newer record among the keys `on` shows in the digests. */
  ghost predicate AllShown(xx: Hash, fp: Fingerprint, a: Replica, b: Replica, on: Key -> bool) {
    forall k :: Newer(a, b, k) && on(k) ==> Shown(xx, fp, a, b, k)
  }

  /** An exchange takes over exactly the owned newer records that show in the digests. */
  lemma AfterPullExact(xx: Hash, fp: Fingerprint, a: Replica, b: Replica, id: NodeId, owns: Key -> bool, k: Key)
    ensures var r := AfterPull(xx, fp, a, b, id, owns);
            if Newer(a, b, k) && owns(k) && Shown(xx, fp, a, b, k) then k in r && r[k] == b[k]
            else (k in r <==> k in a) && (k in a ==> r[k] == a[k])
  {
    var cfg := ConfigOf(fp, TreeOf(xx, a), id);
    AnswerWithin(xx, fp, b, cfg, owns);
    AnswerExact(xx, fp, a, b, id, owns, false, k);
    AnswerExact(xx, fp, a, b, id, owns, true, k);
  }

  /** It keeps the key's rank, takes its record from one side, and covers the peer's unless that is newer and hidden. */
  lemma PulledKey(xx: Hash, fp: Fingerprint, a: Replica, b: Replica, id: NodeId, owns: Key -> bool, k: Key)
    ensures var r := AfterPull(xx, fp, a, b, id, owns);
            && (k in a ==> k in r && AtLeast(r[k], a[k]))
            && (k in r ==> FromEither(a, b, k, r[k]))
            && (k in b && owns(k) ==>
                  (k in r && AtLeast(r[k], b[k]) <==> (Newer(a, b, k) ==> Shown(xx, fp, a, b, k))))
  {
    AfterPullExact(xx, fp, a, b, id, owns, k);
    if k in a { NoneBelowItself(a[k]); }
    if k in b { NoneBelowItself(b[k]); }
    if k in a && k in b { LwwTrichotomy(a[k], b[k]); }
  }

  lemma CaughtUpByKey(a: Replica, b: Replica, r: Replica, owns: Key -> bool, shown: Key -> bool)
    requires forall k :: k in a ==> k in r && AtLeast(r[k], a[k])
    requires Mixes(a, b, r)
    requires forall k :: k in b && owns(k) ==> (k in r && AtLeast(r[k], b[k]) <==> (Newer(a, b, k) ==> shown(k)))
    ensures CaughtUp(a, b, r, owns) <==> forall k :: Newer(a, b, k) && owns(k) ==> shown(k)
  {
  }

  /**
    * One exchange: it never loses or invents anything, and it catches the requester up exactly when every owned record
    * it is behind on shows in the digests.
    */
  lemma ExchangeCatchesUpIff(xx: Hash, fp: Fingerprint, a: Replica, b: Replica, id: NodeId, owns: Key -> bool)
    ensures var r := AfterPull(xx, fp, a, b, id, owns);
            && Dominates(r, a) && Mixes(a, b, r)
            && (CaughtUp(a, b, r, owns) <==> AllShown(xx, fp, a, b, owns))
  {
    var r := AfterPull(xx, fp, a, b, id, owns);
    var shown := k => Shown(xx, fp, a, b, k);
    forall k
      ensures k in a ==> k in r && AtLeast(r[k], a[k])
      ensures k in r ==> FromEither(a, b, k, r[k])
      ensures k in b && owns(k) ==> (k in r && AtLeast(r[k], b[k]) <==> (Newer(a, b, k) ==> shown(k)))
    {
      PulledKey(xx, fp, a, b, id, owns, k);
    }
    CaughtUpByKey(a, b, r, owns, shown);
  }

  lemma NoneBelowItself(v: Value)
    ensures AtLeast(v, v)
  {
    LwwTrichotomy(v, v);
  }

  /** The higher-ranked of the two records of a key. */
  ghost function Best(a: Replica, b: Replica, k: Key): Value
    requires k in a || k in b
  {
    if k !in a then b[k] else if k !in b then a[k] else if LwwWins(a[k], b[k]) then b[k] else a[k]
  }

  /** Two exchanges in opposite directions: both sides hold the larger of the two original ranks. */
  lemma TwoWayConvergence(a: Replica, b: Replica, a': Replica, b': Replica, ownsA: Key -> bool, ownsB: Key -> bool)
    requires CaughtUp(a, b, a', ownsA) && CaughtUp(b, a', b', ownsB)
    ensures Dominates(a', a) && Dominates(b', b)
    ensures forall k :: ownsA(k) && ownsB(k) && (k in a || k in b) ==>
              && k in a' && k in b'
              && Rank(a'[k]) == Rank(b'[k]) == Rank(Best(a, b, k))
  {
    forall k | ownsA(k) && ownsB(k) && (k in a || k in b)
      ensures k in a' && k in b' && Rank(a'[k]) == Rank(b'[k]) == Rank(Best(a, b, k))
    {
      assert k in a';
      if k in a { LwwTrichotomy(a'[k], a[k]); }
      if k in b { LwwTrichotomy(a'[k], b[k]); }
      if k in a && k in b { LwwTrichotomy(a[k], b[k]); }
      LwwTrichotomy(b'[k], a'[k]);
    }
  }

  /** Both sides hold the larger of the two original ranks of `k`. */
  ghost predicate Evened(a: Replica, b: Replica, a': Replica, b': Replica, k: Key)
    requires k in a || k in b
  {
    k in a' && k in b' && Rank(a'[k]) == Rank(b'[k]) == Rank(Best(a, b, k))
  }

  /** What the digests have to show for `k`: in the first exchange if `b` is ahead, in the second one if `a` is. */
  ghost predicate Visible(xx: Hash, fp: Fingerprint, a: Replica, b: Replica, a': Replica, k: Key) {
    && (Newer(a, b, k) ==> Shown(xx, fp, a, b, k))
    && (Newer(b, a, k) ==> Shown(xx, fp, b, a', k))
  }

  /** `r` takes over `b`'s record of `k` if that is newer and shown, and otherwise keeps `a`'s. */
  ghost predicate PulledAt(a: Replica, b: Replica, r: Replica, k: Key, shown: bool) {
    if Newer(a, b, k) && shown then k in r && r[k] == b[k] else (k in r <==> k in a) && (k in a ==> r[k] == a[k])
  }

  lemma EvenedIff(a: Replica, b: Replica, a': Replica, b': Replica, k: Key, first: bool, second: bool)
    requires (k in a || k in b) && PulledAt(a, b, a', k, first) && PulledAt(b, a', b', k, second)
    ensures Evened(a, b, a', b', k) <==> (Newer(a, b, k) ==> first) && (Newer(b, a, k) ==> second)
  {
    if k in a && k in b { LwwTrichotomy(a[k], b[k]); LwwTrichotomy(b[k], a[k]); }
    if k in b { LwwTrichotomy(b[k], b[k]); }
  }

  /** Two exchanges even out a key both sides own exactly when the digests show it. */
  lemma TwoWayIff(xx: Hash, fp: Fingerprint, a: Replica, b: Replica, idA: NodeId, ownsA: Key -> bool,
                  idB: NodeId, ownsB: Key -> bool, k: Key)
    requires ownsA(k) && ownsB(k) && (k in a || k in b)
    ensures var a' := AfterPull(xx, fp, a, b, idA, ownsA);
            var b' := AfterPull(xx, fp, b, a', idB, ownsB);
            Evened(a, b, a', b', k) <==> Visible(xx, fp, a, b, a', k)
  {
    var a' := AfterPull(xx, fp, a, b, idA, ownsA);
    var b' := AfterPull(xx, fp, b, a', idB, ownsB);
    AfterPullExact(xx, fp, a, b, idA, ownsA, k);
    AfterPullExact(xx, fp, b, a', idB, ownsB, k);
    EvenedIff(a, b, a', b', k, Shown(xx, fp, a, b, k), Shown(xx, fp, b, a', k));
  }

  // ------------------------------------------------------------------ the syncer

  class Syncer {
    const sw: StorageWriter
    const nodeId: NodeId
    const singleNode: bool
    const replicationFactor: int
    /** The ring's GetOwners. */
    const getOwners: (Key, int) -> seq<NodeId>

    constructor (sw: StorageWriter, nodeId: NodeId, singleNode: bool, rf: int, getOwners: (Key, int) -> seq<NodeId>)
      ensures this.sw == sw && this.nodeId == nodeId && this.singleNode == singleNode
      ensures replicationFactor == rf && this.getOwners == getOwners
    {
      this.sw, this.nodeId, this.singleNode := sw, nodeId, singleNode;
      replicationFactor, this.getOwners := rf, getOwners;
    }

    predicate IsRequesterResponsible(key: Key, requester: NodeId) {
      singleNode || requester in getOwners(key, replicationFactor)
    }

    method CollectShardMismatches(shardId: int, mask: Word, requester: NodeId, sets: seq<Request>, deletes: seq<Request>)
        returns (sets': seq<Request>, deletes': seq<Request>, ghost es: seq<Write>)
      requires sw.Valid()
      ensures Lists(es, Selected(sw.hm.xx, sw.hm.contents, shardId, mask, BUCKET_COUNT))
      ensures sets' == sets + Keep(es, Owns(requester), false)
      ensures deletes' == deletes + Keep(es, Owns(requester), true)
    {
      var found := sw.hm.RangeShard(shardId, mask);
      sets', deletes' := Sift(found, Owns(requester), sets, deletes);
      es := found;
    }

    function Owns(requester: NodeId): Key -> bool {
      k => IsRequesterResponsible(k, requester)
    }

    /** Levels two and three for one shard. */
    method PullShard(s: nat, cfg: PullConfig, local: seq<Word>, rows: seq<seq<Word>>,
                     sets: seq<Request>, deletes: seq<Request>)
        returns (sets': seq<Request>, deletes': seq<Request>, ghost es: seq<Write>)
      requires sw.Valid() && s < SHARD_COUNT
      requires |local| == |rows| == SHARD_COUNT && forall s :: 0 <= s < SHARD_COUNT ==> |rows[s]| == BUCKET_COUNT
      ensures Lists(es, SingledIn(sw.hm.xx, sw.hm.contents, cfg, local, rows, s))
      ensures sets' == sets + Keep(es, Owns(cfg.requester), false)
      ensures deletes' == deletes + Keep(es, Owns(cfg.requester), true)
    {
      sets', deletes', es := sets, deletes, [];
      if s in cfg.shards && local[s] == cfg.shards[s] {
        assert SingledIn(sw.hm.xx, sw.hm.contents, cfg, local, rows, s) == map[];
        return;
      }
      var mask := CalculateMismatchMask(RowOf(cfg, s), rows[s]);
      SingledByMask(sw.hm.xx, sw.hm.contents, cfg, local, rows, s, mask);
      if mask > 0 {
        sets', deletes', es := CollectShardMismatches(s, mask, cfg.requester, sets, deletes);
      } else {
        NothingSelected(sw.hm.xx, sw.hm.contents, s, mask);
      }
    }

    /** Exactness: every owned entry of a differing bucket, each once, and nothing else. */
    method Pull(cfg: PullConfig) returns (sets: seq<Request>, deletes: seq<Request>)
      requires sw.Valid()
      ensures Carries(sets, Answer(sw.hm.xx, sw.hm.fp, sw.hm.contents, cfg, Owns(cfg.requester), false))
      ensures Carries(deletes, Answer(sw.hm.xx, sw.hm.fp, sw.hm.contents, cfg, Owns(cfg.requester), true))
    {
      sets, deletes := [], [];
      var root := sw.hm.RootDigest();
      if cfg.root == root { return; }
      var local := sw.hm.FillShardDigests();
      var rows := sw.hm.FillDigests();
      ghost var xx, m := sw.hm.xx, sw.hm.contents;
      ghost var owns := Owns(cfg.requester);
      ghost var all: seq<Write> := [];
      for s := 0 to SHARD_COUNT
        invariant Lists(all, Singled(xx, m, cfg, local, rows, s))
        invariant sets == Keep(all, owns, false) && deletes == Keep(all, owns, true)
      {
        ghost var es: seq<Write>;
        sets, deletes, es := PullShard(s, cfg, local, rows, sets, deletes);
        KeepAppend(all, es, owns, false);
        KeepAppend(all, es, owns, true);
        SingledNext(xx, m, cfg, local, rows, s);
        ListsAppend(all, Singled(xx, m, cfg, local, rows, s), es, SingledIn(xx, m, cfg, local, rows, s));
        all := all + es;
      }
      KeepCarries(all, Singled(xx, m, cfg, local, rows, SHARD_COUNT), owns, false);
      KeepCarries(all, Singled(xx, m, cfg, local, rows, SHARD_COUNT), owns, true);
    }

    /** Apply a batch in order, up to a request on which the clock never returns; `done` counts the applied ones. */
    method Push(sets: seq<Request>, deletes: seq<Request>) returns (done: nat)
      requires sw.Valid()
      modifies sw, sw.clock, sw.hm, sw.hm.shards
      ensures sw.Valid() && done <= |sets + deletes|
      ensures sw.hm.contents == MergeAll(old(sw.hm.contents), Applied(sw.hm.xx, (sets + deletes)[..done]))
      ensures done < |sets + deletes| ==> (sets + deletes)[done].timestamp == MAX_INT64
    {
      var rs := sets + deletes;
      done := 0;
      while done < |rs|
        invariant done <= |rs| && sw.Valid()
        invariant sw.hm.contents == MergeAll(old(sw.hm.contents), Applied(sw.hm.xx, rs[..done]))
      {
        AppliedNext(sw.hm.xx, rs, done);
        var ended := sw.Apply(rs[done]);
        if !ended { return; }
        done := done + 1;
      }
    }

    method PreparePullRequest() returns (cfg: PullConfig)
      requires sw.Valid()
      ensures cfg == ConfigOf(sw.hm.fp, TreeOf(sw.hm.xx, sw.hm.contents), nodeId)
    {
      var root := sw.hm.RootDigest();
      var ds := sw.hm.FillShardDigests();
      var rows := sw.hm.FillDigests();
      cfg := PullConfig(root, map s | 0 <= s < |ds| :: ds[s], map s | 0 <= s < |rows| :: rows[s], nodeId);
    }

    /** Digests out, mismatches back. */
    method Fetch(peer: Syncer) returns (sets: seq<Request>, deletes: seq<Request>)
      requires sw.Valid() && peer.sw.Valid()
      requires sw.hm.xx == peer.sw.hm.xx && sw.hm.fp == peer.sw.hm.fp
      requires Clean(peer.sw.hm.contents)
      ensures BelowMax(peer.sw.hm.contents) ==> NoCeiling(sets + deletes)
      ensures MergeAll(sw.hm.contents, Applied(sw.hm.xx, sets + deletes))
              == AfterPull(sw.hm.xx, sw.hm.fp, sw.hm.contents, peer.sw.hm.contents, nodeId, peer.Owns(nodeId))
    {
      var cfg := PreparePullRequest();
      sets, deletes := peer.Pull(cfg);
      ExchangeResult(sw.hm.xx, sw.hm.fp, sw.hm.contents, peer.sw.hm.contents, nodeId, peer.Owns(nodeId), sets, deletes);
      if BelowMax(peer.sw.hm.contents) { BatchBelowMax(peer.sw.hm.contents, sets, deletes); }
    }

    /**
      * One round of the background loop against `peer`: fetched there, applied here. It gets stuck, with part of the
      * batch applied, only on a record stamped MaxInt64.
      */
    method PerformSync(peer: Syncer) returns (ended: bool)
      requires sw.Valid() && peer.sw.Valid() && Apart(peer)
      requires sw.hm.xx == peer.sw.hm.xx && sw.hm.fp == peer.sw.hm.fp
      requires Clean(peer.sw.hm.contents)
      modifies sw, sw.clock, sw.hm, sw.hm.shards
      ensures sw.Valid() && peer.sw.Valid() && (BelowMax(peer.sw.hm.contents) ==> ended)
      ensures Dominates(sw.hm.contents, old(sw.hm.contents))
      ensures ended ==>
                && sw.hm.contents
                   == AfterPull(sw.hm.xx, sw.hm.fp, old(sw.hm.contents), peer.sw.hm.contents, nodeId, peer.Owns(nodeId))
                && (CaughtUp(old(sw.hm.contents), peer.sw.hm.contents, sw.hm.contents, peer.Owns(nodeId))
                    <==> AllShown(sw.hm.xx, sw.hm.fp, old(sw.hm.contents), peer.sw.hm.contents, peer.Owns(nodeId)))
    {
      ghost var before := sw.hm.contents;
      var sets, deletes := Fetch(peer);
      var done := Push(sets, deletes);
      ended := done == |sets + deletes|;
      BatchDone(before, sw.hm.xx, sets + deletes, done);
      ExchangeCatchesUpIff(sw.hm.xx, sw.hm.fp, before, peer.sw.hm.contents, nodeId, peer.Owns(nodeId));
    }

    /** The two nodes share no memory. */
    ghost predicate Apart(peer: Syncer)
      reads this, peer, sw, peer.sw
    {
      && sw != peer.sw && sw.hm != peer.sw.hm && sw.clock != peer.sw.clock
      && (forall s, t :: 0 <= s < |sw.hm.shards| && 0 <= t < |peer.sw.hm.shards| ==> sw.hm.shards[s] != peer.sw.hm.shards[t])
    }
  }

  /** A pulls from B, then B from A, with nothing else writing: no rank drops anywhere, and a key both own ends on both
      with the larger of the two original ranks exactly when the digests show where they differ. The rounds end unless
      some record is stamped MaxInt64. */
  method SyncBothWays(a: Syncer, b: Syncer) returns (ended: bool)
    requires a.sw.Valid() && b.sw.Valid() && a.Apart(b) && b.Apart(a)
    requires a.sw.hm.xx == b.sw.hm.xx && a.sw.hm.fp == b.sw.hm.fp
    requires Clean(a.sw.hm.contents) && Clean(b.sw.hm.contents)
    modifies a.sw, a.sw.clock, a.sw.hm, a.sw.hm.shards, b.sw, b.sw.clock, b.sw.hm, b.sw.hm.shards
    ensures Dominates(a.sw.hm.contents, old(a.sw.hm.contents)) && Dominates(b.sw.hm.contents, old(b.sw.hm.contents))
    ensures old(BelowMax(a.sw.hm.contents) && BelowMax(b.sw.hm.contents)) ==> ended
    ensures ended ==>
              && a.sw.hm.contents == AfterPull(a.sw.hm.xx, a.sw.hm.fp, old(a.sw.hm.contents), old(b.sw.hm.contents),
                                               a.nodeId, b.Owns(a.nodeId))
              && b.sw.hm.contents == AfterPull(a.sw.hm.xx, a.sw.hm.fp, old(b.sw.hm.contents), a.sw.hm.contents,
                                               b.nodeId, a.Owns(b.nodeId))
    ensures ended ==> forall k :: b.Owns(a.nodeId)(k) && a.Owns(b.nodeId)(k)
                                  && (k in old(a.sw.hm.contents) || k in old(b.sw.hm.contents)) ==>
              (Evened(old(a.sw.hm.contents), old(b.sw.hm.contents), a.sw.hm.contents, b.sw.hm.contents, k) <==>
               Visible(a.sw.hm.xx, a.sw.hm.fp, old(a.sw.hm.contents), old(b.sw.hm.contents), a.sw.hm.contents, k))
  {
    ghost var m, n := a.sw.hm.contents, b.sw.hm.contents;
    ghost var xx, fp := a.sw.hm.xx, a.sw.hm.fp;
    ended := a.PerformSync(b);
    ghost var m' := a.sw.hm.contents;
    if !ended {
      SelfDominates(n);
      return;
    }
    ExchangeCatchesUpIff(xx, fp, m, n, a.nodeId, b.Owns(a.nodeId));
    MixKeepsClean(m, n, m');
    ended := b.PerformSync(a);
    if ended {
      forall k | b.Owns(a.nodeId)(k) && a.Owns(b.nodeId)(k) && (k in m || k in n)
        ensures Evened(m, n, m', b.sw.hm.contents, k) <==> Visible(xx, fp, m, n, m', k)
      {
        TwoWayIff(xx, fp, m, n, a.nodeId, b.Owns(a.nodeId), b.nodeId, a.Owns(b.nodeId), k);
      }
    }
  }

  /** A batch that was applied up to a MaxInt64 stamp, or whole. */
  lemma BatchDone(m: Replica, xx: Hash, rs: seq<Request>, done: nat)
    requires done <= |rs| && (done < |rs| ==> rs[done].timestamp == MAX_INT64)
    ensures NoCeiling(rs) ==> done == |rs|
    ensures done == |rs| ==> rs[..done] == rs
    ensures Dominates(MergeAll(m, Applied(xx, rs[..done])), m)
  {
    if done < |rs| { assert rs[done] in rs; }
    MergeAllWinner(m, Applied(xx, rs[..done]));
  }

  lemma SelfDominates(m: Replica)
    ensures Dominates(m, m)
  {
    forall k | k in m ensures AtLeast(m[k], m[k]) { LwwTrichotomy(m[k], m[k]); }
  }

  /** No request carries the one stamp the clock cannot get past. */
  ghost predicate NoCeiling(rs: seq<Request>) {
    forall r <- rs :: r.timestamp != MAX_INT64
  }

  ghost predicate BelowMax(m: Replica) {
    forall k :: k in m ==> m[k].timestamp != MAX_INT64
  }

  lemma MixKeepsClean(a: Replica, b: Replica, m: Replica)
    requires Mixes(a, b, m) && Clean(a) && Clean(b)
    ensures Clean(m) && (BelowMax(a) && BelowMax(b) ==> BelowMax(m))
  {
  }

  lemma BatchBelowMax(m: Replica, sets: seq<Request>, deletes: seq<Request>)
    requires BelowMax(m)
    requires forall r <- sets :: r.key in m && r == BuildRequest(r.key, m[r.key])
    requires forall r <- deletes :: r.key in m && r == BuildRequest(r.key, m[r.key])
    ensures NoCeiling(sets + deletes)
  {
  }

  /** Everything the writer stores is payload-free when dead and below the ceiling when its requests are. */
  lemma {:induction false} WriterKeepsClean(xx: Hash, m: Replica, rs: seq<Request>)
    requires Clean(m)
    ensures Clean(MergeAll(m, Applied(xx, rs)))
    ensures BelowMax(m) && NoCeiling(rs) ==> BelowMax(MergeAll(m, Applied(xx, rs)))
  {
    if rs != [] {
      var front, last := rs[..|rs| - 1], rs[|rs| - 1];
      WriterKeepsClean(xx, m, front);
      assert last in rs;
      assert Applied(xx, rs)[..|rs| - 1] == Applied(xx, front);
    }
  }

  lemma NothingSelected(xx: Hash, m: Replica, s: int, mask: Word)
    requires mask == 0
    ensures Selected(xx, m, s, mask, BUCKET_COUNT) == map[]
  {
    forall b: nat ensures !Bit(0, b) { BitsOfZero(b); }
  }
}

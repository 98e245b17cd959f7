/** What the digests of a replica are: defined on contents, independently of how the map maintains them. */
module DigestTree {
  import opened Bytes
  import opened Words
  import opened Mix
  import opened Kv
  import opened Lww

  const SHARD_COUNT := 128
  const BUCKET_COUNT := 64

  function ShardOf(hash: Word): nat {
    hash % SHARD_COUNT
  }

  function BucketOf(hash: Word): nat {
    (hash / 0x1_0000) % BUCKET_COUNT
  }

  /** The entries that live in sub-bucket `b` of shard `s`. */
  function Bucket(xx: Hash, m: Replica, s: nat, b: nat): Replica {
    map k | k in m && ShardOf(xx(k)) == s && BucketOf(xx(k)) == b :: m[k]
  }

  /** Exclusive or of all item hashes. */
  ghost function XorMap(m: Replica): Word {
    if m == map[] then 0
    else
      var k :| k in m;
      Xor(XorMap(m - {k}), m[k].itemHash)
  }

  /** Any key may be taken out last. */
  lemma {:induction false} XorMapRemove(m: Replica, k: Key)
    requires k in m
    ensures XorMap(m) == Xor(XorMap(m - {k}), m[k].itemHash)
    decreases |m|
  {
    var j :| j in m && XorMap(m) == Xor(XorMap(m - {j}), m[j].itemHash);
    if j != k {
      var rest := m - {j} - {k};
      assert rest == m - {k} - {j};
      XorMapRemove(m - {j}, k);
      XorMapRemove(m - {k}, j);
      var r, x, y := XorMap(rest), m[k].itemHash, m[j].itemHash;
      XorLaws(r, x, y);
      XorLaws(x, y, y);
      XorLaws(r, y, x);
    }
  }

  lemma XorMapInsert(m: Replica, k: Key, v: Value)
    ensures XorMap(m[k := v]) == if k in m then Xor(Xor(XorMap(m), m[k].itemHash), v.itemHash)
                                           else Xor(XorMap(m), v.itemHash)
  {
    XorMapRemove(m[k := v], k);
    assert m[k := v] - {k} == m - {k};
    if k in m {
      XorMapRemove(m, k);
      XorSwap(XorMap(m - {k}), m[k].itemHash, v.itemHash);
    } else {
      assert m - {k} == m;
    }
  }

  lemma XorMapDelete(m: Replica, k: Key)
    requires k in m
    ensures XorMap(m - {k}) == Xor(XorMap(m), m[k].itemHash)
  {
    XorMapRemove(m, k);
    XorLaws(XorMap(m - {k}), m[k].itemHash, m[k].itemHash);
    XorLaws(m[k].itemHash, 0, 0);
    XorLaws(XorMap(m - {k}), 0, 0);
  }

  ghost function XorSeq(ds: seq<Word>): Word {
    if ds == [] then 0 else Xor(XorSeq(ds[..|ds| - 1]), ds[|ds| - 1])
  }

  function SumSeq(ns: seq<nat>): nat {
    if ns == [] then 0 else SumSeq(ns[..|ns| - 1]) + ns[|ns| - 1]
  }

  /** Rolling update of a digest: XOR one term out and another in. */
  lemma {:induction false} XorSeqUpdate(ds: seq<Word>, i: nat, x: Word)
    requires i < |ds|
    ensures XorSeq(ds[i := x]) == Xor(Xor(XorSeq(ds), ds[i]), x)
  {
    var front, last := ds[..|ds| - 1], ds[|ds| - 1];
    if i == |ds| - 1 {
      assert ds[i := x][..|ds| - 1] == front;
      XorSwap(XorSeq(front), last, x);
    } else {
      assert ds[i := x][..|ds| - 1] == front[i := x];
      XorSeqUpdate(front, i, x);
      XorRotate(XorSeq(front), ds[i], x, last);
    }
  }

  lemma {:induction false} SumSeqUpdate(ns: seq<nat>, i: nat, x: nat)
    requires i < |ns|
    ensures SumSeq(ns[i := x]) + ns[i] == SumSeq(ns) + x
  {
    var front := ns[..|ns| - 1];
    if i == |ns| - 1 {
      assert ns[i := x][..|ns| - 1] == front;
    } else {
      assert ns[i := x][..|ns| - 1] == front[i := x];
      SumSeqUpdate(front, i, x);
    }
  }

  lemma XorRotate(r: Word, p: Word, q: Word, t: Word)
    ensures Xor(Xor(Xor(r, p), q), t) == Xor(Xor(Xor(r, t), p), q)
  {
    XorLaws(Xor(r, p), q, t);
    XorLaws(Xor(r, p), t, q);
    XorLaws(q, t, t);
    XorLaws(r, p, t);
    XorLaws(r, t, p);
    XorLaws(p, t, t);
  }

  /** All sub-buckets of shard `s`. */
  function Buckets(xx: Hash, m: Replica, s: nat): seq<Replica> {
    seq(BUCKET_COUNT, b requires 0 <= b => Bucket(xx, m, s, b))
  }

  /** All sub-buckets of all shards. */
  type Tree = seq<seq<Replica>>

  function TreeOf(xx: Hash, m: Replica): Tree {
    seq(SHARD_COUNT, s requires 0 <= s => Buckets(xx, m, s))
  }

  ghost function Xors(bs: seq<Replica>): seq<Word> {
    seq(|bs|, b requires 0 <= b < |bs| => XorMap(bs[b]))
  }

  function Sizes(bs: seq<Replica>): seq<nat> {
    seq(|bs|, b requires 0 <= b < |bs| => |bs[b]|)
  }

  /** The count fingerprint; the code's is MixCount, and only CountSeparates needs to know that. */
  type Fingerprint = Count -> Word

  /** The published digests at the three levels. */
  ghost function BucketDigest(fp: Fingerprint, p: Replica): Word {
    Xor(XorMap(p), fp(|p| % TWO_32))
  }

  ghost function ShardDigest(fp: Fingerprint, bs: seq<Replica>): Word {
    Xor(XorSeq(Xors(bs)), fp(SumSeq(Sizes(bs)) % TWO_32))
  }

  ghost function BucketDigests(fp: Fingerprint, bs: seq<Replica>): seq<Word> {
    seq(|bs|, b requires 0 <= b < |bs| => BucketDigest(fp, bs[b]))
  }

  ghost function Rows(fp: Fingerprint, t: Tree): seq<seq<Word>> {
    seq(|t|, s requires 0 <= s < |t| => BucketDigests(fp, t[s]))
  }

  ghost function ShardDigests(fp: Fingerprint, t: Tree): seq<Word> {
    seq(|t|, s requires 0 <= s < |t| => ShardDigest(fp, t[s]))
  }

  ghost function RootDigest(fp: Fingerprint, t: Tree): Word {
    XorSeq(ShardDigests(fp, t))
  }

  /** Same bucket XOR but a different number of entries: the published digests differ. */
  lemma CountSeparates(p: Replica, q: Replica)
    requires XorMap(p) == XorMap(q) && |p| % TWO_32 != |q| % TWO_32
    ensures BucketDigest(MixCount, p) != BucketDigest(MixCount, q)
  {
    if BucketDigest(MixCount, p) == BucketDigest(MixCount, q) {
      XorInjective(XorMap(p), MixCount(|p| % TWO_32), MixCount(|q| % TWO_32));
      MixCountInjective(|p| % TWO_32, |q| % TWO_32);
    }
  }

  // ------------------------------------------------------------------ digests depend on ranks alone

  ghost predicate SameHashes(a: Replica, b: Replica) {
    a.Keys == b.Keys && forall k :: k in a ==> a[k].itemHash == b[k].itemHash
  }

  lemma {:induction false} XorMapSame(a: Replica, b: Replica)
    requires SameHashes(a, b)
    ensures XorMap(a) == XorMap(b)
    decreases |a|
  {
    if a != map[] {
      var k :| k in a;
      XorMapRemove(a, k);
      XorMapRemove(b, k);
      XorMapSame(a - {k}, b - {k});
    } else {
      assert b == map[];
    }
  }

  lemma BucketSame(xx: Hash, a: Replica, b: Replica, s: nat, i: nat)
    requires SameHashes(a, b)
    ensures XorMap(Bucket(xx, a, s, i)) == XorMap(Bucket(xx, b, s, i))
    ensures |Bucket(xx, a, s, i)| == |Bucket(xx, b, s, i)|
  {
    var p, q := Bucket(xx, a, s, i), Bucket(xx, b, s, i);
    XorMapSame(p, q);
    assert p.Keys == q.Keys;
    assert |p| == |p.Keys| && |q| == |q.Keys|;
  }

  /** Replicas with equal ranks publish equal digests at all three levels. */
  lemma SameRanksSameDigests(xx: Hash, fp: Fingerprint, a: Replica, b: Replica)
    requires SameRanks(a, b)
    ensures Rows(fp, TreeOf(xx, a)) == Rows(fp, TreeOf(xx, b))
    ensures ShardDigests(fp, TreeOf(xx, a)) == ShardDigests(fp, TreeOf(xx, b))
    ensures RootDigest(fp, TreeOf(xx, a)) == RootDigest(fp, TreeOf(xx, b))
  {
    assert forall k :: k in a ==> Rank(a[k]).2 == Rank(b[k]).2;
    forall s: nat
      ensures BucketDigests(fp, Buckets(xx, a, s)) == BucketDigests(fp, Buckets(xx, b, s))
      ensures ShardDigest(fp, Buckets(xx, a, s)) == ShardDigest(fp, Buckets(xx, b, s))
    {
      forall i: nat
        ensures XorMap(Bucket(xx, a, s, i)) == XorMap(Bucket(xx, b, s, i))
        ensures |Bucket(xx, a, s, i)| == |Bucket(xx, b, s, i)|
      {
        BucketSame(xx, a, b, s, i);
      }
      assert Xors(Buckets(xx, a, s)) == Xors(Buckets(xx, b, s));
      assert Sizes(Buckets(xx, a, s)) == Sizes(Buckets(xx, b, s));
    }
  }

  /** The order-independence of last-write-wins, seen through the digests two nodes exchange. */
  lemma ConvergedDigests(xx: Hash, fp: Fingerprint, ws: seq<Write>, ws': seq<Write>)
    requires Elements(ws) == Elements(ws')
    ensures var t, t' := TreeOf(xx, MergeAll(map[], ws)), TreeOf(xx, MergeAll(map[], ws'));
            && Rows(fp, t) == Rows(fp, t')
            && ShardDigests(fp, t) == ShardDigests(fp, t')
            && RootDigest(fp, t) == RootDigest(fp, t')
  {
    Convergence(ws, ws');
    SameRanksSameDigests(xx, fp, MergeAll(map[], ws), MergeAll(map[], ws'));
  }

  // ------------------------------------------------------------------ changing one key

  ghost predicate DifferOnlyAt(m: Replica, m': Replica, k: Key) {
    m - {k} == m' - {k}
  }

  lemma BucketElsewhere(xx: Hash, m: Replica, m': Replica, k: Key, s: nat, b: nat)
    requires DifferOnlyAt(m, m', k)
    requires s != ShardOf(xx(k)) || b != BucketOf(xx(k))
    ensures Bucket(xx, m, s, b) == Bucket(xx, m', s, b)
  {
    forall j | j != k
      ensures j in m <==> j in m'
      ensures j in m ==> m[j] == m'[j]
    {
      assert j in m <==> j in m - {k};
      assert j in m' <==> j in m' - {k};
      if j in m { assert m[j] == (m - {k})[j] == (m' - {k})[j]; }
    }
  }

  /** A lookup in the home bucket answers for the whole map. */
  lemma HomeLookup(xx: Hash, m: Replica, k: Key)
    ensures var p := TreeOf(xx, m)[ShardOf(xx(k))][BucketOf(xx(k))];
            (k in p <==> k in m) && (k in m ==> p[k] == m[k])
  {
  }

  /** Changing one key changes its home bucket and nothing else. */
  lemma TreeChange(xx: Hash, m: Replica, m': Replica, k: Key)
    requires DifferOnlyAt(m, m', k)
    ensures var h, b, t := ShardOf(xx(k)), BucketOf(xx(k)), TreeOf(xx, m);
            TreeOf(xx, m') == t[h := t[h][b := Bucket(xx, m', h, b)]]
  {
    var h, b := ShardOf(xx(k)), BucketOf(xx(k));
    forall s: nat, i: nat | s != h || i != b ensures Bucket(xx, m', s, i) == Bucket(xx, m, s, i) {
      BucketElsewhere(xx, m, m', k, s, i);
    }
    assert Buckets(xx, m', h) == Buckets(xx, m, h)[b := Bucket(xx, m', h, b)];
    assert forall s: nat :: s != h ==> Buckets(xx, m', s) == Buckets(xx, m, s);
  }

  lemma InsertPlaces(xx: Hash, m: Replica, k: Key, v: Value)
    ensures var h, b, t := ShardOf(xx(k)), BucketOf(xx(k)), TreeOf(xx, m);
            TreeOf(xx, m[k := v]) == t[h := t[h][b := t[h][b][k := v]]]
  {
    var h, b := ShardOf(xx(k)), BucketOf(xx(k));
    assert m[k := v] - {k} == m - {k};
    TreeChange(xx, m, m[k := v], k);
    assert Bucket(xx, m[k := v], h, b) == Bucket(xx, m, h, b)[k := v];
  }

  lemma DeletePlaces(xx: Hash, m: Replica, k: Key)
    ensures var h, b, t := ShardOf(xx(k)), BucketOf(xx(k)), TreeOf(xx, m);
            TreeOf(xx, m - {k}) == t[h := t[h][b := t[h][b] - {k}]]
  {
    var h, b := ShardOf(xx(k)), BucketOf(xx(k));
    assert m - {k} == m - {k} - {k};
    TreeChange(xx, m, m - {k}, k);
    assert Bucket(xx, m - {k}, h, b) == Bucket(xx, m, h, b) - {k};
  }

  // ------------------------------------------------------------------ where keys live

  /** Shard and sub-bucket look at different bits of the hash: every pair occurs, whatever the other bits. */
  lemma HomesIndependent(s: nat, b: nat, low: nat, high: nat)
    requires s < SHARD_COUNT && b < BUCKET_COUNT && low < 0x200 && high < 0x400_0000_0000
    ensures var h := ((high * 64 + b) * 512 + low) * 128 + s; h < TWO_64 && ShardOf(h) == s && BucketOf(h) == b
  {
    var h := ((high * 64 + b) * 512 + low) * 128 + s;
    assert h / 0x1_0000 == high * 64 + b;
  }

  /** The same for a shard: equal raw XOR but a different number of entries. */
  lemma ShardCountSeparates(bs: seq<Replica>, cs: seq<Replica>)
    requires XorSeq(Xors(bs)) == XorSeq(Xors(cs)) && SumSeq(Sizes(bs)) % TWO_32 != SumSeq(Sizes(cs)) % TWO_32
    ensures ShardDigest(MixCount, bs) != ShardDigest(MixCount, cs)
  {
    var m, n := SumSeq(Sizes(bs)) % TWO_32, SumSeq(Sizes(cs)) % TWO_32;
    if ShardDigest(MixCount, bs) == ShardDigest(MixCount, cs) {
      XorInjective(XorSeq(Xors(bs)), MixCount(m), MixCount(n));
      MixCountInjective(m, n);
    }
  }
}

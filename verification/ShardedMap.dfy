/** The sharded map with its incrementally maintained digest index (core/hashmap/shardedmap.go). */
module ShardedMap {
  import opened Bytes
  import opened Words
  import opened Mix
  import opened Kv
  import opened Lww
  import opened DigestTree

  /** The fields of one shard, as a value. */
  datatype Index = Index(buckets: seq<Replica>, subDigests: seq<Word>, subCounts: seq<Count>,
                         shardDigest: Word, shardCount: Count)

  /** The digests and counts say exactly what the bucket contents say. */
  ghost predicate Agrees(ix: Index) {
    && |ix.buckets| == |ix.subDigests| == |ix.subCounts| == BUCKET_COUNT
    && ix.subDigests == Xors(ix.buckets)
    && (forall b :: 0 <= b < BUCKET_COUNT ==> ix.subCounts[b] == |ix.buckets[b]| % TWO_32)
    && ix.shardDigest == XorSeq(ix.subDigests)
    && ix.shardCount == SumSeq(Sizes(ix.buckets)) % TWO_32
  }

  function Up(c: Count): Count {
    (c + 1) % TWO_32
  }

  function Down(c: Count): Count {
    (c - 1) % TWO_32
  }

  lemma CountUp(n: nat)
    ensures Up(n % TWO_32) == (n + 1) % TWO_32
  {
  }

  lemma CountDown(n: nat)
    requires n > 0
    ensures Down(n % TWO_32) == (n - 1) % TWO_32
  {
  }

  lemma XorThrough(a: Word, b: Word, delta: Word)
    ensures Xor(Xor(a, b), Xor(b, delta)) == Xor(a, delta)
  {
    XorLaws(Xor(a, b), b, delta);
    XorSwap(a, b, delta);
  }

  function EmptyIndex(): Index {
    Index(seq(BUCKET_COUNT, _ => map[]), seq(BUCKET_COUNT, _ => 0), seq(BUCKET_COUNT, _ => 0), 0, 0)
  }

  lemma EmptyAgrees()
    ensures Agrees(EmptyIndex())
  {
    var bs := EmptyIndex().buckets;
    XorSeqZeros(BUCKET_COUNT);
    assert Xors(bs) == seq(BUCKET_COUNT, _ => 0);
    assert Sizes(bs) == seq(BUCKET_COUNT, _ => 0);
  }

  lemma {:induction false} XorSeqZeros(n: nat)
    ensures XorSeq(seq(n, _ => 0)) == 0 && SumSeq(seq(n, _ => 0)) == 0
  {
    if n > 0 {
      XorSeqZeros(n - 1);
      assert seq<Word>(n, _ => 0)[..n - 1] == seq<Word>(n - 1, _ => 0);
      assert seq<nat>(n, _ => 0)[..n - 1] == seq<nat>(n - 1, _ => 0);
      XorLaws(0, 0, 0);
    }
  }

  /** Every stored value carries the item hash of its own contents. */
  ghost predicate AllHashed(xx: Hash, m: Replica) {
    forall k :: k in m ==> IsHashed(xx, k, m[k])
  }

  lemma HashedInsert(xx: Hash, m: Replica, k: Key, v: Value)
    requires AllHashed(xx, m)
    ensures AllHashed(xx, m[k := WithHash(xx, k, v)])
  {
    assert IsHashed(xx, k, WithHash(xx, k, v));
  }

  lemma HashedDelete(xx: Hash, m: Replica, k: Key)
    requires AllHashed(xx, m)
    ensures AllHashed(xx, m - {k})
  {
  }

  lemma RemoveAbsent(m: Replica, k: Key)
    requires k !in m
    ensures m - {k} == m
  {
  }

  /** Replace bucket `b` by `p`, fold `delta` into both digests and set the two counters. */
  function Rolled(ix: Index, b: nat, p: Replica, delta: Word, sub: Count, total: Count): Index
    requires b < |ix.buckets| && b < |ix.subDigests| && b < |ix.subCounts|
  {
    Index(ix.buckets[b := p], ix.subDigests[b := Xor(ix.subDigests[b], delta)], ix.subCounts[b := sub],
          Xor(ix.shardDigest, delta), total)
  }

  lemma RolledAgrees(ix: Index, b: nat, p: Replica, delta: Word, sub: Count, total: Count)
    requires Agrees(ix) && b < BUCKET_COUNT
    requires XorMap(p) == Xor(XorMap(ix.buckets[b]), delta)
    requires sub == |p| % TWO_32
    requires total == SumSeq(Sizes(ix.buckets[b := p])) % TWO_32
    ensures Agrees(Rolled(ix, b, p, delta, sub, total))
  {
    RolledXors(ix.buckets, b, p);
    XorSeqUpdate(ix.subDigests, b, XorMap(p));
    XorThrough(XorSeq(ix.subDigests), ix.subDigests[b], delta);
  }

  lemma RolledXors(bs: seq<Replica>, b: nat, p: Replica)
    requires b < |bs|
    ensures Xors(bs[b := p]) == Xors(bs)[b := XorMap(p)]
  {
  }

  lemma RolledSizes(bs: seq<Replica>, b: nat, p: Replica)
    requires b < |bs|
    ensures SumSeq(Sizes(bs[b := p])) == SumSeq(Sizes(bs)) - |bs[b]| + |p|
  {
    assert Sizes(bs[b := p]) == Sizes(bs)[b := |p|];
    SumSeqUpdate(Sizes(bs), b, |p|);
  }

  /** A new key: the item hash in, both counters up. */
  lemma InsertAgrees(ix: Index, b: nat, k: Key, v: Value)
    requires Agrees(ix) && b < BUCKET_COUNT && k !in ix.buckets[b]
    ensures Agrees(Rolled(ix, b, ix.buckets[b][k := v], v.itemHash, Up(ix.subCounts[b]), Up(ix.shardCount)))
  {
    var p := ix.buckets[b];
    XorMapInsert(p, k, v);
    assert p[k := v].Keys == p.Keys + {k};
    assert |p[k := v]| == |p[k := v].Keys| == |p.Keys| + 1;
    CountUp(|p|);
    CountUp(SumSeq(Sizes(ix.buckets)));
    RolledSizes(ix.buckets, b, p[k := v]);
    RolledAgrees(ix, b, p[k := v], v.itemHash, Up(ix.subCounts[b]), Up(ix.shardCount));
  }

  /** An update in place: old item hash out, new one in, counters still. */
  lemma UpdateAgrees(ix: Index, b: nat, k: Key, v: Value)
    requires Agrees(ix) && b < BUCKET_COUNT && k in ix.buckets[b]
    ensures var p, out := ix.buckets[b], ix.buckets[b][k].itemHash;
            Agrees(Index(ix.buckets[b := p[k := v]],
                         ix.subDigests[b := Xor(Xor(ix.subDigests[b], out), v.itemHash)],
                         ix.subCounts, Xor(Xor(ix.shardDigest, out), v.itemHash), ix.shardCount))
  {
    var p, out := ix.buckets[b], ix.buckets[b][k].itemHash;
    var delta := Xor(out, v.itemHash);
    XorMapInsert(p, k, v);
    SameSize(p, k, v);
    XorLaws(XorMap(p), out, v.itemHash);
    RolledSizes(ix.buckets, b, p[k := v]);
    RolledAgrees(ix, b, p[k := v], delta, ix.subCounts[b], ix.shardCount);
    OutThenIn(ix, b, p[k := v], out, v.itemHash);
  }

  lemma SameSize(p: Replica, k: Key, v: Value)
    requires k in p
    ensures |p[k := v]| == |p|
  {
    assert p[k := v].Keys == p.Keys;
    assert |p[k := v]| == |p[k := v].Keys| == |p.Keys|;
  }

  /** XORing one hash out and another in is rolling by their difference. */
  lemma OutThenIn(ix: Index, b: nat, p: Replica, out: Word, into: Word)
    requires b < |ix.buckets| == |ix.subDigests| == |ix.subCounts|
    ensures Index(ix.buckets[b := p], ix.subDigests[b := Xor(Xor(ix.subDigests[b], out), into)],
                  ix.subCounts, Xor(Xor(ix.shardDigest, out), into), ix.shardCount)
            == Rolled(ix, b, p, Xor(out, into), ix.subCounts[b], ix.shardCount)
  {
    XorLaws(ix.subDigests[b], out, into);
    XorLaws(ix.shardDigest, out, into);
    assert ix.subCounts[b := ix.subCounts[b]] == ix.subCounts;
  }

  /** A removal: the item hash out, both counters down. */
  lemma DeleteAgrees(ix: Index, b: nat, k: Key)
    requires Agrees(ix) && b < BUCKET_COUNT && k in ix.buckets[b]
    ensures Agrees(Rolled(ix, b, ix.buckets[b] - {k}, ix.buckets[b][k].itemHash,
                          Down(ix.subCounts[b]), Down(ix.shardCount)))
  {
    var p := ix.buckets[b];
    XorMapDelete(p, k);
    assert (p - {k}).Keys == p.Keys - {k};
    assert |p - {k}| == |(p - {k}).Keys| == |p.Keys| - 1;
    SumSeqUpdate(Sizes(ix.buckets), b, 0);
    CountDown(|p|);
    CountDown(SumSeq(Sizes(ix.buckets)));
    RolledSizes(ix.buckets, b, p - {k});
    RolledAgrees(ix, b, p - {k}, p[k].itemHash, Down(ix.subCounts[b]), Down(ix.shardCount));
  }

  /** `es` names every entry of `m` once and nothing else. */
  ghost predicate Lists(es: seq<Write>, m: Replica) {
    && (forall i, j :: 0 <= i < j < |es| ==> es[i].key != es[j].key)
    && (forall w <- es :: w.key in m && m[w.key] == w.value)
    && (forall k :: k in m ==> Write(k, m[k]) in es)
  }

  lemma ListsAppend(es: seq<Write>, p: Replica, es': seq<Write>, q: Replica)
    requires Lists(es, p) && Lists(es', q) && p.Keys !! q.Keys
    ensures Lists(es + es', p + q)
  {
    forall i, j | 0 <= i < j < |es + es'| ensures (es + es')[i].key != (es + es')[j].key {
      if i < |es| <= j {
        assert es[i] in es && es'[j - |es|] in es';
      }
    }
  }

  lemma ListsFront(es: seq<Write>, m: Replica)
    requires Lists(es, m) && es != []
    ensures var last := es[|es| - 1];
            Lists(es[..|es| - 1], m - {last.key}) && last.key in m && m[last.key] == last.value
  {
    var front, last := es[..|es| - 1], es[|es| - 1];
    var m' := m - {last.key};
    assert last in es;
    forall w | w in front ensures w.key in m' && m'[w.key] == w.value { assert w in es; }
    forall k | k in m' ensures Write(k, m'[k]) in front {
      assert Write(k, m[k]) in es && Write(k, m[k]) != last;
    }
  }

  lemma ListsNothing(m: Replica)
    requires Lists([], m)
    ensures m == map[]
  {
    assert forall k :: k in m ==> Write(k, m[k]) in [];
  }

  /** Iteration over one radix tree; the order is not fixed. */
  method Iterate(p: Replica) returns (es: seq<Write>)
    ensures Lists(es, p)
  {
    es := [];
    var rest, done := p.Keys, map[];
    while rest != {}
      invariant rest <= p.Keys && rest !! done.Keys && done.Keys + rest == p.Keys
      invariant forall k :: k in done ==> done[k] == p[k]
      invariant Lists(es, done)
      decreases rest
    {
      var k :| k in rest;
      ListsAppend(es, done, [Write(k, p[k])], map[k := p[k]]);
      es := es + [Write(k, p[k])];
      rest, done := rest - {k}, done + map[k := p[k]];
    }
    assert done == p;
  }

  /** The entries of shard `s` in those of its first `n` buckets that the mask names. */
  ghost function Selected(xx: Hash, m: Replica, s: int, mask: Word, n: nat): Replica {
    map k | k in m && ShardOf(xx(k)) == s && BucketOf(xx(k)) < n && Bit(mask, BucketOf(xx(k))) :: m[k]
  }

  lemma SelectedNext(xx: Hash, m: Replica, s: nat, mask: Word, n: nat)
    ensures !Bit(mask, n) ==> Selected(xx, m, s, mask, n + 1) == Selected(xx, m, s, mask, n)
    ensures Bit(mask, n) ==> Selected(xx, m, s, mask, n + 1) == Selected(xx, m, s, mask, n) + Bucket(xx, m, s, n)
    ensures Selected(xx, m, s, mask, n).Keys !! Bucket(xx, m, s, n).Keys
  {
  }

  class Shard {
    var buckets: seq<Replica>
    var subDigests: seq<Word>
    var subCounts: seq<Count>
    var shardDigest: Word
    var shardCount: Count

    ghost predicate Valid()
      reads this
    {
      Agrees(AsIndex())
    }

    ghost function AsIndex(): Index
      reads this
    {
      Index(buckets, subDigests, subCounts, shardDigest, shardCount)
    }

    constructor ()
      ensures Valid() && buckets == EmptyIndex().buckets
    {
      buckets := seq(BUCKET_COUNT, _ => map[]);
      subDigests := seq(BUCKET_COUNT, _ => 0);
      subCounts := seq(BUCKET_COUNT, _ => 0);
      shardDigest, shardCount := 0, 0;
      new;
      EmptyAgrees();
    }

    /** The in-place update: XOR the old item hash out of both digests and the new one in. */
    method Replace(subIndex: nat, key: Key, val: Value)
      requires Valid() && subIndex < BUCKET_COUNT && key in buckets[subIndex]
      modifies this
      ensures Valid() && buckets == old(buckets)[subIndex := old(buckets)[subIndex][key := val]]
    {
      UpdateAgrees(AsIndex(), subIndex, key, val);
      var oldItemHash := buckets[subIndex][key].itemHash;
      ghost var ds := subDigests;
      subDigests := subDigests[subIndex := Xor(subDigests[subIndex], oldItemHash)];
      shardDigest := Xor(shardDigest, oldItemHash);
      subDigests := subDigests[subIndex := Xor(subDigests[subIndex], val.itemHash)];
      assert subDigests == ds[subIndex := Xor(Xor(ds[subIndex], oldItemHash), val.itemHash)];
      shardDigest := Xor(shardDigest, val.itemHash);
      buckets := buckets[subIndex := buckets[subIndex][key := val]];
    }

    /** The new-key insertion: XOR the item hash in and count it. */
    method Insert(subIndex: nat, key: Key, val: Value)
      requires Valid() && subIndex < BUCKET_COUNT && key !in buckets[subIndex]
      modifies this
      ensures Valid() && buckets == old(buckets)[subIndex := old(buckets)[subIndex][key := val]]
    {
      InsertAgrees(AsIndex(), subIndex, key, val);
      subDigests := subDigests[subIndex := Xor(subDigests[subIndex], val.itemHash)];
      shardDigest := Xor(shardDigest, val.itemHash);
      buckets := buckets[subIndex := buckets[subIndex][key := val]];
      subCounts := subCounts[subIndex := Up(subCounts[subIndex])];
      shardCount := Up(shardCount);
    }

    /** The shard digest as published. */
    method Digest(fp: Fingerprint) returns (d: Word)
      requires Valid()
      ensures d == ShardDigest(fp, buckets)
    {
      d := Xor(shardDigest, fp(shardCount));
    }

    /** The sub-bucket digest as published. */
    method SubDigest(fp: Fingerprint, b: nat) returns (d: Word)
      requires Valid() && b < BUCKET_COUNT
      ensures d == BucketDigest(fp, buckets[b])
    {
      d := Xor(subDigests[b], fp(subCounts[b]));
    }

    method FillRow(fp: Fingerprint) returns (row: seq<Word>)
      requires Valid()
      ensures row == BucketDigests(fp, buckets)
    {
      row := [];
      for b := 0 to BUCKET_COUNT
        invariant row == BucketDigests(fp, buckets)[..b]
      {
        var d := SubDigest(fp, b);
        row := row + [d];
      }
    }

    method Remove(subIndex: nat, key: Key)
      requires Valid() && subIndex < BUCKET_COUNT && key in buckets[subIndex]
      modifies this
      ensures Valid() && buckets == old(buckets)[subIndex := old(buckets)[subIndex] - {key}]
    {
      DeleteAgrees(AsIndex(), subIndex, key);
      var itemHash := buckets[subIndex][key].itemHash;
      subDigests := subDigests[subIndex := Xor(subDigests[subIndex], itemHash)];
      shardDigest := Xor(shardDigest, itemHash);
      buckets := buckets[subIndex := buckets[subIndex] - {key}];
      subCounts := subCounts[subIndex := Down(subCounts[subIndex])];
      shardCount := Down(shardCount);
    }
  }

  class Map {
    const xx: Hash
    const fp: Fingerprint
    const shards: seq<Shard>
    ghost var contents: Replica
    ghost var tree: Tree

    /** `tree` is what the shards hold, and each shard's digests agree with it. */
    ghost predicate Shape()
      reads this, shards
    {
      && |shards| == |tree| == SHARD_COUNT
      && (forall s, t :: 0 <= s < t < |shards| ==> shards[s] != shards[t])
      && (forall s :: 0 <= s < |shards| ==> shards[s].Valid())
      && (forall s :: 0 <= s < |shards| ==> shards[s].buckets == tree[s])
    }

    ghost predicate Valid()
      reads this, shards
    {
      Shape() && tree == TreeOf(xx, contents) && AllHashed(xx, contents)
    }

    constructor (xx: Hash)
      ensures Valid() && this.xx == xx && fp == MixCount && contents == map[] && fresh(shards)
    {
      var ss: seq<Shard> := [];
      for i := 0 to SHARD_COUNT
        invariant |ss| == i
        invariant forall s :: 0 <= s < i ==> fresh(ss[s]) && ss[s].Valid()
        invariant forall s :: 0 <= s < i ==> ss[s].buckets == EmptyIndex().buckets
        invariant forall s, t :: 0 <= s < t < i ==> ss[s] != ss[t]
      {
        var shard := new Shard();
        ss := ss + [shard];
      }
      this.xx, fp := xx, MixCount;
      shards := ss;
      contents := map[];
      tree := TreeOf(xx, map[]);
      new;
      forall s | 0 <= s < SHARD_COUNT ensures shards[s].buckets == tree[s] {
        assert EmptyIndex().buckets == Buckets(xx, map[], s);
      }
    }

    /** Load, with the internal item hash cleared from the copy handed out. */
    method Load(key: Key, hash: Word) returns (r: Option<Value>)
      requires Valid() && hash == xx(key)
      ensures r == if key in contents then Some(contents[key].(itemHash := 0)) else None
    {
      HomeLookup(xx, contents, key);
      var bucket := shards[ShardOf(hash)].buckets[BucketOf(hash)];
      if key !in bucket { return None; }
      return Some(bucket[key].(itemHash := 0));
    }

    /** Tree insertion or in-place swap of an already hashed value, with the index rolled along. */
    method Put(h: nat, b: nat, key: Key, val: Value)
      requires Shape() && h < SHARD_COUNT && b < BUCKET_COUNT
      modifies this`tree, shards[h]
      ensures Shape() && tree == old(tree)[h := old(tree)[h][b := old(tree)[h][b][key := val]]]
    {
      if key in shards[h].buckets[b] {
        shards[h].Replace(b, key, val);
      } else {
        shards[h].Insert(b, key, val);
      }
      tree := tree[h := tree[h][b := tree[h][b][key := val]]];
      forall s | 0 <= s < |shards| && s != h ensures shards[s].Valid() && shards[s].buckets == tree[s] {
        assert shards[s] != shards[h];
      }
    }

    method Take(h: nat, b: nat, key: Key)
      requires Shape() && h < SHARD_COUNT && b < BUCKET_COUNT && key in tree[h][b]
      modifies this`tree, shards[h]
      ensures Shape() && tree == old(tree)[h := old(tree)[h][b := old(tree)[h][b] - {key}]]
    {
      shards[h].Remove(b, key);
      tree := tree[h := tree[h][b := tree[h][b] - {key}]];
      forall s | 0 <= s < |shards| && s != h ensures shards[s].Valid() && shards[s].buckets == tree[s] {
        assert shards[s] != shards[h];
      }
    }

    method Store(key: Key, hash: Word, val: Value)
      requires Valid() && hash == xx(key)
      modifies this, shards[ShardOf(hash)]
      ensures Valid()
      ensures contents == old(contents)[key := WithHash(xx, key, val)]
    {
      var hashed := val.(itemHash := ItemHash(xx, hash, val));
      HashedInsert(xx, contents, key, val);
      InsertPlaces(xx, contents, key, hashed);
      Put(ShardOf(hash), BucketOf(hash), key, hashed);
      contents := contents[key := hashed];
    }

    method StoreLWW(key: Key, hash: Word, val: Value) returns (stored: bool)
      requires Valid() && hash == xx(key)
      modifies this, shards[ShardOf(hash)]
      ensures Valid()
      ensures contents == Merge(old(contents), key, WithHash(xx, key, val))
      ensures stored <==> key !in old(contents) || LwwWins(old(contents)[key], WithHash(xx, key, val))
    {
      var hashed := val.(itemHash := ItemHash(xx, hash, val));
      HomeLookup(xx, contents, key);
      var bucket := shards[ShardOf(hash)].buckets[BucketOf(hash)];
      if key in bucket && !LwwWins(bucket[key], hashed) {
        return false;
      }
      HashedInsert(xx, contents, key, val);
      InsertPlaces(xx, contents, key, hashed);
      Put(ShardOf(hash), BucketOf(hash), key, hashed);
      contents := contents[key := hashed];
      return true;
    }

    method Delete(key: Key, hash: Word)
      requires Valid() && hash == xx(key)
      modifies this, shards[ShardOf(hash)]
      ensures Valid()
      ensures contents == old(contents) - {key}
    {
      HomeLookup(xx, contents, key);
      var bucket := shards[ShardOf(hash)].buckets[BucketOf(hash)];
      if key in bucket {
        DeletePlaces(xx, contents, key);
        HashedDelete(xx, contents, key);
        Take(ShardOf(hash), BucketOf(hash), key);
        contents := contents - {key};
      } else {
        RemoveAbsent(contents, key);
      }
    }

    /** One digest per shard id, in shard order. */
    method FillShardDigests() returns (out: seq<Word>)
      requires Shape()
      ensures out == ShardDigests(fp, tree)
    {
      out := [];
      for i := 0 to SHARD_COUNT
        invariant out == ShardDigests(fp, tree)[..i]
      {
        var d := shards[i].Digest(fp);
        out := out + [d];
      }
    }

    method RootDigest() returns (root: Word)
      requires Shape()
      ensures root == DigestTree.RootDigest(fp, tree)
    {
      root := 0;
      ghost var ds := ShardDigests(fp, tree);
      for i := 0 to SHARD_COUNT
        invariant root == XorSeq(ds[..i])
      {
        var d := shards[i].Digest(fp);
        root := Xor(root, d);
        assert ds[..i + 1][..i] == ds[..i];
      }
      assert ds[..SHARD_COUNT] == ds;
    }

    /** One row of sub-bucket digests per shard id, in shard order. */
    method FillDigests() returns (out: seq<seq<Word>>)
      requires Shape()
      ensures out == Rows(fp, tree)
    {
      out := [];
      for i := 0 to SHARD_COUNT
        invariant out == Rows(fp, tree)[..i]
      {
        var row := shards[i].FillRow(fp);
        out := out + [row];
      }
    }

    /** The entries of the sub-buckets a mismatch mask names, each once; nothing for an unknown shard. */
    method RangeShard(shardId: int, mask: Word) returns (es: seq<Write>)
      requires Valid()
      ensures Lists(es, Selected(xx, contents, shardId, mask, BUCKET_COUNT))
    {
      es := [];
      if shardId < 0 || shardId >= SHARD_COUNT {
        assert Selected(xx, contents, shardId, mask, BUCKET_COUNT) == map[];
        return;
      }
      assert Selected(xx, contents, shardId, mask, 0) == map[];
      for b := 0 to BUCKET_COUNT
        invariant Lists(es, Selected(xx, contents, shardId, mask, b))
      {
        SelectedNext(xx, contents, shardId, mask, b);
        if Bit(mask, b) {
          var found := Iterate(shards[shardId].buckets[b]);
          ListsAppend(es, Selected(xx, contents, shardId, mask, b), found, Bucket(xx, contents, shardId, b));
          es := es + found;
        }
      }
    }
  }
}

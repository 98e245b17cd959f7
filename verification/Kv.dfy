/** Records, their item hashes and the last-write-wins rank (core/hashmap/shardedmap.go). */
module Kv {
  import opened Bytes
  import opened Words

  type Key = ByteString
  type NodeId = ByteString

  /** xxhash, used for keys, node ids and payloads alike. Every theorem holds for any such function. */
  type Hash = ByteString -> Word

  datatype Value = Value(nodeId: NodeId, data: ByteString, timestamp: Int64, tombstone: bool, itemHash: Word)

  function AsUint64(x: Int64): Word {
    if x < 0 then x + 0x1_0000_0000_0000_0000 else x
  }

  function ItemHash(xx: Hash, hash: Word, v: Value): Word {
    var h0 := Xor(hash, Rotate(AsUint64(v.timestamp), 0x2_0000, 0x8000_0000_0000));
    var h1 := if v.nodeId != [] then Xor(h0, Rotate(xx(v.nodeId), 0x8000_0000, 0x2_0000_0000)) else h0;
    var h2 := if |v.data| > 0 then Xor(h1, Rotate(xx(v.data), 0x8000_0000_0000, 0x2_0000)) else h1;
    if v.tombstone then Xor(h2, 0x5555_5555_5555_5555) else h2
  }

  /** The value as the map stores it under `key`: its item hash field recomputed. */
  function WithHash(xx: Hash, key: Key, v: Value): Value {
    v.(itemHash := ItemHash(xx, xx(key), v))
  }

  /** A stored value carries the item hash of its own contents. */
  predicate IsHashed(xx: Hash, key: Key, v: Value) {
    v.itemHash == ItemHash(xx, xx(key), v)
  }

  lemma HashedIsFixed(xx: Hash, key: Key, v: Value)
    requires IsHashed(xx, key, v)
    ensures WithHash(xx, key, v) == v
  {
  }

  predicate LwwWins(existing: Value, incoming: Value) {
    if existing.timestamp != incoming.timestamp then incoming.timestamp > existing.timestamp
    else if existing.nodeId != incoming.nodeId then LexLess(existing.nodeId, incoming.nodeId)
    else incoming.itemHash > existing.itemHash
  }

  /** The rank of a value: what last-write-wins looks at. */
  function Rank(v: Value): (Int64, NodeId, Word) {
    (v.timestamp, v.nodeId, v.itemHash)
  }

  /** `a` ranks at least as high as `b`. */
  predicate AtLeast(a: Value, b: Value) {
    !LwwWins(a, b)
  }

  lemma LwwTransitive(a: Value, b: Value, c: Value)
    requires LwwWins(a, b) && LwwWins(b, c)
    ensures LwwWins(a, c)
  {
    if a.timestamp == b.timestamp == c.timestamp && a.nodeId != b.nodeId && b.nodeId != c.nodeId {
      LexTransitive(a.nodeId, b.nodeId, c.nodeId);
      LexTrichotomy(a.nodeId, a.nodeId);
    }
  }

  /** LwwWins is a strict total order on ranks. */
  lemma LwwTrichotomy(a: Value, b: Value)
    ensures LwwWins(a, b) || LwwWins(b, a) || Rank(a) == Rank(b)
    ensures !(LwwWins(a, b) && LwwWins(b, a))
    ensures Rank(a) == Rank(b) ==> !LwwWins(a, b)
  {
    LexTrichotomy(a.nodeId, b.nodeId);
  }

  /**
    * What wins: the later timestamp; at equal times the node id that is larger at the first differing byte, whatever the
    * hashes; from one node the larger item hash.
    */
  lemma LwwWinsIff(existing: Value, incoming: Value)
    ensures LwwWins(existing, incoming) <==>
            || existing.timestamp < incoming.timestamp
            || (existing.timestamp == incoming.timestamp && Precedes(existing.nodeId, incoming.nodeId))
            || (existing.timestamp == incoming.timestamp && existing.nodeId == incoming.nodeId
                && existing.itemHash < incoming.itemHash)
  {
    LexLessIff(existing.nodeId, incoming.nodeId);
    LexTrichotomy(existing.nodeId, incoming.nodeId);
  }

  lemma AtLeastTransitive(a: Value, b: Value, c: Value)
    requires AtLeast(a, b) && AtLeast(b, c)
    ensures AtLeast(a, c)
  {
    if LwwWins(a, c) {
      LwwTrichotomy(a, b);
      LwwTrichotomy(b, c);
      if LwwWins(b, a) { LwwTransitive(b, a, c); }
      if LwwWins(c, b) { LwwTransitive(a, c, b); }
    }
  }

  /** The wire and log form of a write. */
  datatype Request =
    | SetRequest(key: Key, value: ByteString, timestamp: Int64, nodeId: NodeId)
    | DeleteRequest(key: Key, timestamp: Int64, nodeId: NodeId)

  /** The value a request asks to store; the map fills in its item hash. */
  function ValueOf(r: Request): Value {
    match r
    case SetRequest(_, value, ts, nodeId) => Value(nodeId, value, ts, false, 0)
    case DeleteRequest(_, ts, nodeId) => Value(nodeId, [], ts, true, 0)
  }
}

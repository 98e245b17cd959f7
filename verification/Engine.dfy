/** The single-node engine (core/engine.go) behaves as a plain map. */
module Engine {
  import opened Bytes
  import opened Kv
  import opened Lww
  import opened Clock
  import opened ShardedMap
  import opened Writer

  /** What a client can see of a replica. */
  function View(m: Replica): map<Key, ByteString> {
    map k | k in m && !m[k].tombstone :: m[k].data
  }

  datatype Command = Set(key: Key, value: ByteString) | Delete(key: Key) | Get(key: Key)
  datatype Answer = Stored | Existed(existed: bool) | Found(value: Option<ByteString>)

  /** A plain map. */
  function PlainStep(m: map<Key, ByteString>, c: Command): (map<Key, ByteString>, Answer) {
    match c
    case Set(k, v) => (m[k := v], Stored)
    case Delete(k) => (m - {k}, Existed(k in m))
    case Get(k) => (m, Found(if k in m then Some(m[k]) else None))
  }

  function PlainMap(m: map<Key, ByteString>, cs: seq<Command>): map<Key, ByteString> {
    if cs == [] then m else PlainStep(PlainMap(m, cs[..|cs| - 1]), cs[|cs| - 1]).0
  }

  function PlainAnswers(m: map<Key, ByteString>, cs: seq<Command>): seq<Answer> {
    if cs == [] then [] else
      PlainAnswers(m, cs[..|cs| - 1]) + [PlainStep(PlainMap(m, cs[..|cs| - 1]), cs[|cs| - 1]).1]
  }

  lemma PlainNext(m: map<Key, ByteString>, cs: seq<Command>, n: nat)
    requires n < |cs|
    ensures PlainMap(m, cs[..n + 1]) == PlainStep(PlainMap(m, cs[..n]), cs[n]).0
    ensures PlainAnswers(m, cs[..n + 1]) == PlainAnswers(m, cs[..n]) + [PlainStep(PlainMap(m, cs[..n]), cs[n]).1]
  {
    assert cs[..n + 1][..n] == cs[..n];
  }

  /** No stored timestamp is above the clock word. */
  ghost predicate Covered(m: Replica, state: Stamp) {
    forall k :: k in m ==> m[k].timestamp <= state
  }

  /** A write stamped above everything stored replaces its key, whatever the node id or hash. */
  lemma FreshWriteWins(m: Replica, state: Stamp, k: Key, v: Value, state': Stamp)
    requires Covered(m, state) && state < v.timestamp <= state'
    ensures Merge(m, k, v) == m[k := v] && Covered(m[k := v], state')
    ensures View(m[k := v]) == if v.tombstone then View(m) - {k} else View(m)[k := v.data]
  {
  }

  /** `ts` is what `Now` hands out on clock word `state` at wall-clock sample `now`. */
  ghost predicate Taken(state: Stamp, now: Millis, ts: Int64) {
    if Physical(state) < MAX_PHYSICAL then 0 <= ts && NowAttempt(state, now) == Propose(ts) else ts == MAX_INT64
  }

  /** The record of a write of this engine. */
  function Record(xx: Hash, nodeId: NodeId, k: Key, data: ByteString, tombstone: bool, ts: Int64): Value {
    WithHash(xx, k, Value(nodeId, data, ts, tombstone, 0))
  }

  /**
    * From arbitrary contents, such as those of a restart, which leaves the clock where it is: a write that takes its
    * stamp from clock word `state` and wall-clock sample `now` takes effect exactly when its key has no record, or one the
    * clock has reached, or one the wall clock has passed, or one of the very same stamp that ranks lower.
    */
  lemma WriteTakesEffectIff(m: Replica, state: Stamp, now: Millis, k: Key, v: Value)
    requires Physical(state) < MAX_PHYSICAL && Taken(state, now, v.timestamp)
    ensures Merge(m, k, v) != m <==>
            || k !in m || m[k].timestamp <= state || m[k].timestamp < Pack(now, 0)
            || (m[k].timestamp == v.timestamp && LwwWins(m[k], v))
    ensures View(Merge(m, k, v)) == if Merge(m, k, v) == m then View(m)
                                    else if v.tombstone then View(m) - {k} else View(m)[k := v.data]
  {
    if k !in m || LwwWins(m[k], v) { MergeChanges(m, k, v); }
    if k in m { StampReachesIff(state, now, m[k].timestamp, v.timestamp); }
  }

  lemma StampReachesIff(state: Stamp, now: Millis, ts: Int64, next: Stamp)
    requires NowAttempt(state, now) == Propose(next)
    ensures ts < next <==> ts <= state || ts < Pack(now, 0)
  {
    if now <= Physical(state) {
      PackOrder(Physical(state), Logical(state) + 1, state);
      assert next == state + 1;
    }
  }

  /** A restart after the wall clock has stepped back: the clock starts at 0, and the next set of the key is lost. */
  lemma SetLostAfterRestart(xx: Hash, nodeId: NodeId, k: Key, before: ByteString, value: ByteString)
    ensures var m := map[k := Record(xx, nodeId, k, before, false, Pack(10, 0))];
            var v := Record(xx, nodeId, k, value, false, Pack(5, 0));
            Taken(0, 5, v.timestamp) && Merge(m, k, v) == m && View(Merge(m, k, v)) == map[k := before]
  {
    var m := map[k := Record(xx, nodeId, k, before, false, Pack(10, 0))];
    assert View(m) == map[k := before];
  }

  class Engine {
    const sw: StorageWriter
    const nodeId: NodeId

    ghost predicate Valid()
      reads this, sw, sw.hm, sw.hm.shards, sw.clock
    {
      sw.Valid()
    }

    /** The clock has reached everything stored, as it has unless a restart or a drifted stamp put a record ahead of it. */
    ghost predicate Fresh()
      reads this, sw, sw.hm, sw.clock
    {
      Covered(sw.hm.contents, sw.clock.state)
    }

    /** Below its ceiling the clock still produces fresh stamps. */
    predicate BelowCeiling()
      reads this, sw, sw.clock
    {
      Physical(sw.clock.state) < MAX_PHYSICAL
    }

    constructor (xx: Hash, wall: nat -> Int64, nodeId: NodeId)
      requires Advances(wall)
      ensures Valid() && Fresh() && sw.hm.contents == map[] && sw.clock.state == 0
      ensures fresh(sw) && fresh(sw.hm) && fresh(sw.hm.shards) && fresh(sw.clock)
    {
      var hm := new Map(xx);
      var clock := new HybridClock(wall);
      sw := new StorageWriter(hm, clock);
      this.nodeId := nodeId;
    }

    method Get(key: Key) returns (r: Option<ByteString>)
      requires Valid()
      ensures r == if key in View(sw.hm.contents) then Some(View(sw.hm.contents)[key]) else None
    {
      var iv := sw.hm.Load(key, sw.hm.xx(key));
      if iv.Some? && !iv.value.tombstone { return Some(iv.value.data); }
      return None;
    }

    /** Take a stamp and apply the record; `now` is the wall-clock sample the stamp was taken at. */
    method Put(key: Key, value: ByteString, tombstone: bool) returns (ghost ts: Int64, ghost now: Millis)
      requires Valid() && (tombstone ==> value == [])
      modifies sw, sw.clock, sw.hm, sw.hm.shards
      ensures Valid() && Taken(old(sw.clock.state), now, ts)
      ensures old(BelowCeiling()) ==> old(sw.clock.state) < ts <= sw.clock.state
      ensures sw.hm.contents == Merge(old(sw.hm.contents), key, Record(sw.hm.xx, nodeId, key, value, tombstone, ts))
    {
      var stamp := sw.clock.Now();
      ts, now := stamp, Sample(sw.clock.wall(sw.clock.t - 1));
      var req := if tombstone then DeleteRequest(key, stamp, nodeId) else SetRequest(key, value, stamp, nodeId);
      var ended := sw.Apply(req);
      assert ended;
    }

    method Set(key: Key, value: ByteString) returns (ghost ts: Int64, ghost now: Millis)
      requires Valid()
      modifies sw, sw.clock, sw.hm, sw.hm.shards
      ensures Valid() && Taken(old(sw.clock.state), now, ts)
      ensures sw.hm.contents == Merge(old(sw.hm.contents), key, Record(sw.hm.xx, nodeId, key, value, false, ts))
      ensures old(Fresh() && BelowCeiling()) ==>
                Fresh() && View(sw.hm.contents) == View(old(sw.hm.contents))[key := value]
    {
      ghost var before, m := sw.clock.state, sw.hm.contents;
      ts, now := Put(key, value, false);
      if Physical(before) < MAX_PHYSICAL && Covered(m, before) {
        FreshWriteWins(m, before, key, Record(sw.hm.xx, nodeId, key, value, false, ts), sw.clock.state);
      }
    }

    /** Reports that the key was there even when its tombstone then loses. */
    method Delete(key: Key) returns (existed: bool, ghost ts: Int64, ghost now: Millis)
      requires Valid()
      modifies sw, sw.clock, sw.hm, sw.hm.shards
      ensures Valid() && (existed <==> key in View(old(sw.hm.contents)))
      ensures existed ==>
                && Taken(old(sw.clock.state), now, ts)
                && sw.hm.contents == Merge(old(sw.hm.contents), key, Record(sw.hm.xx, nodeId, key, [], true, ts))
      ensures !existed ==> sw.hm.contents == old(sw.hm.contents)
      ensures old(Fresh() && BelowCeiling()) ==>
                Fresh() && View(sw.hm.contents) == View(old(sw.hm.contents)) - {key}
    {
      var iv := sw.hm.Load(key, sw.hm.xx(key));
      ts, now := 0, 0;
      if iv.None? || iv.value.tombstone {
        assert View(sw.hm.contents) == View(sw.hm.contents) - {key};
        existed := false;
        return;
      }
      existed := true;
      ghost var before, m := sw.clock.state, sw.hm.contents;
      ts, now := Put(key, [], true);
      if Physical(before) < MAX_PHYSICAL && Covered(m, before) {
        FreshWriteWins(m, before, key, Record(sw.hm.xx, nodeId, key, [], true, ts), sw.clock.state);
      }
    }

    method Perform(c: Command) returns (a: Answer)
      requires Valid()
      modifies sw, sw.clock, sw.hm, sw.hm.shards
      ensures Valid()
      ensures old(Fresh() && BelowCeiling()) ==>
                && Fresh() && View(sw.hm.contents) == PlainStep(View(old(sw.hm.contents)), c).0
                && a == PlainStep(View(old(sw.hm.contents)), c).1
    {
      match c
      case Set(k, v) =>
        ghost var ts, now := Set(k, v);
        return Stored;
      case Delete(k) =>
        var existed;
        ghost var ts, now;
        existed, ts, now := Delete(k);
        return Existed(existed);
      case Get(k) => var r := Get(k); return Found(r);
    }
  }

  /** Refinement: once the clock has reached everything stored, under any advancing wall clock that may also step back,
      the answers to any commands are those of a plain map, up to the moment the clock reaches its ceiling. */
  method Serve(e: Engine, cs: seq<Command>) returns (answers: seq<Answer>)
    requires e.Valid() && e.Fresh()
    modifies e.sw, e.sw.clock, e.sw.hm, e.sw.hm.shards
    ensures e.Valid() && e.Fresh() && |answers| <= |cs|
    ensures answers == PlainAnswers(View(old(e.sw.hm.contents)), cs[..|answers|])
    ensures View(e.sw.hm.contents) == PlainMap(View(old(e.sw.hm.contents)), cs[..|answers|])
    ensures |answers| < |cs| ==> !e.BelowCeiling()
  {
    ghost var start := View(e.sw.hm.contents);
    answers := [];
    while |answers| < |cs| && e.BelowCeiling()
      invariant |answers| <= |cs| && e.Valid() && e.Fresh()
      invariant answers == PlainAnswers(start, cs[..|answers|])
      invariant View(e.sw.hm.contents) == PlainMap(start, cs[..|answers|])
      decreases |cs| - |answers|
    {
      var n := |answers|;
      PlainNext(start, cs, n);
      var a := e.Perform(cs[n]);
      answers := answers + [a];
    }
  }

  /** So from an empty store. */
  method RunCommands(xx: Hash, wall: nat -> Int64, nodeId: NodeId, cs: seq<Command>)
      returns (e: Engine, answers: seq<Answer>)
    requires Advances(wall)
    ensures e.Valid() && |answers| <= |cs|
    ensures answers == PlainAnswers(map[], cs[..|answers|])
    ensures View(e.sw.hm.contents) == PlainMap(map[], cs[..|answers|])
    ensures |answers| < |cs| ==> !e.BelowCeiling()
  {
    e := new Engine(xx, wall, nodeId);
    assert View(e.sw.hm.contents) == map[];
    answers := Serve(e, cs);
  }
}

/** Applying mutations: clock, then memory, then log (core/writer/storagewriter.go). */
module Writer {
  import opened Kv
  import opened Lww
  import opened Clock
  import opened ShardedMap

  class StorageWriter {
    const hm: Map
    const clock: HybridClock
    var log: seq<Request>

    ghost predicate Valid()
      reads this, hm, hm.shards, clock
    {
      hm.Valid() && Advances(clock.wall)
    }

    constructor (hm: Map, clock: HybridClock)
      requires hm.Valid() && Advances(clock.wall)
      ensures Valid() && this.hm == hm && this.clock == clock && log == []
    {
      this.hm, this.clock, log := hm, clock, [];
    }

    /** ApplySet and ApplyDelete: the record is merged by rank even if the clock ignored its stamp,
        and it is logged exactly when it changed memory. A call stuck in the clock reaches neither. */
    method Apply(req: Request) returns (ended: bool)
      requires Valid()
      modifies this, clock, hm, hm.shards
      ensures Valid()
      ensures ended <==> !Spins(old(clock.state), req.timestamp, Sample(clock.wall(old(clock.t))))
      ensures hm.contents == if ended then Merge(old(hm.contents), req.key, WithHash(hm.xx, req.key, ValueOf(req)))
                             else old(hm.contents)
      ensures log == if hm.contents == old(hm.contents) then old(log) else old(log) + [req]
      ensures old(clock.state) <= clock.state && old(clock.t) <= clock.t
      ensures ended && Accepts(req.timestamp, Sample(clock.wall(old(clock.t)))) && Physical(old(clock.state)) < MAX_PHYSICAL
              ==> clock.state > req.timestamp
    {
      ended := clock.Update(req.timestamp);
      if !ended { return; }
      var hash := hm.xx(req.key);
      var stored := hm.StoreLWW(req.key, hash, ValueOf(req));
      if !stored { return; }
      MergeChanges(old(hm.contents), req.key, WithHash(hm.xx, req.key, ValueOf(req)));
      log := log + [req];
    }

    method Exists(key: Key) returns (live: bool)
      requires Valid()
      ensures live <==> key in hm.contents && !hm.contents[key].tombstone
    {
      var r := hm.Load(key, hm.xx(key));
      return r.Some? && !r.value.tombstone;
    }
  }

  lemma MergeChanges(m: Replica, k: Key, v: Value)
    requires k !in m || LwwWins(m[k], v)
    ensures Merge(m, k, v) != m
  {
    if k in m { LwwTrichotomy(v, v); } else { assert k in Merge(m, k, v); }
  }
}

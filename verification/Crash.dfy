/** Writes, snapshots and crashes as one step machine (core/snap/snapshot.go, core/wal/wal.go, core/writer, core/engine.go). */
module Crash {
  import opened Bytes
  import opened Kv
  import opened Lww
  import opened DigestTree
  import opened Wal
  import opened Recovery
  import opened ShardedMap

  /** Progress of Snapshotter.Create: offsets segment by segment, then the map shard by shard, rename, clear. */
  datatype Phase =
    | Idle
    | Preparing(offsets: seq<nat>)
    | Encoding(offsets: seq<nat>, shard: nat, left: set<Key>, tmp: Replica)
    | Clearing(offsets: seq<nat>, next: nat)

  /** Memory, writes between memory and log, flushed and buffered log records, the published snapshot.
      `applied` and `flushed` remember every write ever stored in memory and every record ever flushed. */
  datatype State = State(mem: Replica, pending: multiset<Request>, disk: seq<seq<Request>>, buffers: seq<seq<Request>>,
                         snap: Replica, phase: Phase, applied: set<Request>, flushed: set<Request>)

  datatype Action =
    | Apply(req: Request) | Publish(req: Request) | Flush(seg: nat)
    | BeginSnapshot | PrepareSegment | StartShard | EncodeKey(key: Key) | Rename | ClearSegment | Abort
    | CrashAndRecover

  /** The deployment: the key hash and the number of log segments. */
  datatype Env = Env(xx: Hash, segments: nat)

  function SegmentOf(env: Env, k: Key): nat
    requires env.segments > 0
  {
    env.xx(k) % env.segments
  }

  function Stored(env: Env, req: Request): Value {
    WithHash(env.xx, req.key, ValueOf(req))
  }

  function FlushSegment(s: State, i: nat): State
    requires i < |s.disk| == |s.buffers|
  {
    s.(disk := s.disk[i := s.disk[i] + s.buffers[i]], buffers := s.buffers[i := []],
       flushed := s.flushed + Elements(s.buffers[i]))
  }

  /** What start-up makes of the snapshot and the flushed log. */
  function Recovered(env: Env, s: State): Replica {
    Rebuilt(env.xx, s.snap, AbsorbAll(map[], LogEntries(s.disk)))
  }

  function LogEntries(disk: seq<seq<Request>>): seq<Entry> {
    if disk == [] then [] else LogEntries(disk[..|disk| - 1]) + AsEntries(disk[|disk| - 1])
  }

  /** Segment contents after clearSegment; offsets count records here. */
  function ClearedRecords(all: seq<Request>, offset: nat): seq<Request> {
    if offset == 0 || |all| <= offset then [] else all[offset..]
  }

  ghost predicate Shape(env: Env, s: State) {
    && env.segments > 0 && |s.disk| == |s.buffers| == env.segments
    && (match s.phase
        case Idle => true
        case Preparing(offs) => |offs| < env.segments && forall i :: 0 <= i < |offs| ==> offs[i] <= |s.disk[i]|
        case Encoding(offs, shard, _, _) =>
          shard <= SHARD_COUNT && |offs| == env.segments && forall i :: 0 <= i < |offs| ==> offs[i] <= |s.disk[i]|
        case Clearing(offs, next) =>
          next < |offs| == env.segments && forall i :: next <= i < |offs| ==> offs[i] <= |s.disk[i]|)
  }

  /** StoreLWW on memory; a write that changes it still has to be logged. */
  ghost function DoApply(env: Env, s: State, req: Request): State {
    var mem' := Merge(s.mem, req.key, Stored(env, req));
    if mem' == s.mem then s
    else s.(mem := mem', pending := s.pending + multiset{req}, applied := s.applied + {req})
  }

  ghost function DoPublish(env: Env, s: State, req: Request): State
    requires Shape(env, s)
  {
    var i := SegmentOf(env, req.key);
    if req !in s.pending then s
    else s.(pending := s.pending - multiset{req}, buffers := s.buffers[i := s.buffers[i] + [req]])
  }

  /** Flush the next segment and take its offset. */
  ghost function DoPrepare(env: Env, s: State): State
    requires Shape(env, s) && s.phase.Preparing?
  {
    var i := |s.phase.offsets|;
    var t := FlushSegment(s, i);
    var offs := s.phase.offsets + [|t.disk[i]|];
    t.(phase := if |offs| < env.segments then Preparing(offs) else Encoding(offs, 0, {}, map[]))
  }

  /** Copy the roots of the next shard: the keys it holds at this moment. */
  ghost function DoStartShard(env: Env, s: State): State {
    if !s.phase.Encoding? || s.phase.left != {} || s.phase.shard >= SHARD_COUNT then s
    else s.(phase := s.phase.(shard := s.phase.shard + 1,
                              left := set k | k in s.mem && ShardOf(env.xx(k)) == s.phase.shard))
  }

  /** Encode one key of the copied roots with the value it has by now. */
  ghost function DoEncodeKey(s: State, k: Key): State {
    if !s.phase.Encoding? || k !in s.phase.left || k !in s.mem then s
    else s.(phase := s.phase.(left := s.phase.left - {k}, tmp := s.phase.tmp[k := s.mem[k]]))
  }

  ghost function DoRename(s: State): State {
    if !s.phase.Encoding? || s.phase.left != {} || s.phase.shard < SHARD_COUNT then s
    else s.(snap := s.phase.tmp, phase := Clearing(s.phase.offsets, 0))
  }

  /** Flush the next segment and cut it at its recorded offset. */
  ghost function DoClear(env: Env, s: State): State
    requires Shape(env, s) && s.phase.Clearing?
  {
    var i := s.phase.next;
    var t := FlushSegment(s, i);
    t.(disk := t.disk[i := ClearedRecords(t.disk[i], s.phase.offsets[i])],
       phase := if i + 1 < env.segments then Clearing(s.phase.offsets, i + 1) else Idle)
  }

  /** Memory, buffers and the snapshot in the making are gone; start-up rebuilds memory from what is on disk. */
  ghost function DoCrash(env: Env, s: State): State {
    s.(mem := Recovered(env, s), pending := multiset{}, buffers := seq(|s.buffers|, _ => []), phase := Idle)
  }

  /** One step; an action that is not enabled changes nothing. */
  ghost function Next(env: Env, s: State, a: Action): State
    requires Shape(env, s)
  {
    match a
    case Apply(req) => DoApply(env, s, req)
    case Publish(req) => DoPublish(env, s, req)
    case Flush(i) => if i < |s.disk| then FlushSegment(s, i) else s
    case BeginSnapshot => if s.phase.Idle? then s.(phase := Preparing([])) else s
    case PrepareSegment => if s.phase.Preparing? then DoPrepare(env, s) else s
    case StartShard => DoStartShard(env, s)
    case EncodeKey(k) => DoEncodeKey(s, k)
    case Rename => DoRename(s)
    case ClearSegment => if s.phase.Clearing? then DoClear(env, s) else s
    case Abort => s.(phase := Idle)
    case CrashAndRecover => DoCrash(env, s)
  }

  /** The segment's offset is positive, or the snapshot already has everything the segment holds. */
  ghost predicate ClearSafe(s: State)
    requires s.phase.Clearing? && s.phase.next < |s.phase.offsets| && s.phase.next < |s.disk| == |s.buffers|
  {
    var i := s.phase.next;
    s.phase.offsets[i] > 0 || forall r <- s.disk[i] + s.buffers[i] :: Covers(s.snap, r.key, r.timestamp)
  }

  /** No step of a run clears a segment it should not. */
  ghost predicate ClearGuard(env: Env, s: State, a: Action)
    requires Shape(env, s)
  {
    a.ClearSegment? && s.phase.Clearing? ==> ClearSafe(s)
  }

  // ------------------------------------------------------------------ the invariant

  type Log = seq<seq<Request>>

  ghost predicate Covers(m: Replica, k: Key, ts: Int64) {
    k in m && m[k].timestamp >= ts
  }

  ghost predicate LogCovers(log: seq<Request>, k: Key, ts: Int64) {
    exists r <- log :: r.key == k && r.timestamp >= ts
  }

  /** A crash right now would bring back a record of `k` at least as new as `ts`. */
  ghost predicate Durable(env: Env, snap: Replica, disk: Log, k: Key, ts: Int64)
    requires 0 < env.segments == |disk|
  {
    Covers(snap, k, ts) || LogCovers(disk[SegmentOf(env, k)], k, ts)
  }

  ghost predicate AllDurable(env: Env, snap: Replica, disk: Log, rs: set<Request>)
    requires 0 < env.segments == |disk|
  {
    forall r {:trigger Durable(env, snap, disk, r.key, r.timestamp)} :: r in rs ==> Durable(env, snap, disk, r.key, r.timestamp)
  }

  function Records(log: Log): set<Request> {
    set i, r | 0 <= i < |log| && r in log[i] :: r
  }

  /** Every request that is in the log or on its way there. */
  function Outstanding(s: State): set<Request> {
    Records(s.disk) + Records(s.buffers) + set r | r in s.pending
  }

  ghost predicate AheadOf(mem: Replica, rs: set<Request>) {
    forall r <- rs :: Covers(mem, r.key, r.timestamp)
  }

  ghost predicate AheadOfMap(mem: Replica, m: Replica) {
    forall k :: k in m ==> Covers(mem, k, m[k].timestamp)
  }

  ghost predicate Homed(env: Env, log: Log)
    requires env.segments > 0
  {
    forall i, r :: 0 <= i < |log| && r in log[i] ==> SegmentOf(env, r.key) == i
  }

  /** The snapshot in the making already covers this, or is still going to read the key. */
  ghost predicate Stands(env: Env, phase: Phase, k: Key, ts: Int64)
    requires phase.Encoding?
  {
    Covers(phase.tmp, k, ts) || ShardOf(env.xx(k)) >= phase.shard || k in phase.left
  }

  /** What Create may drop later is, or will be, in the new snapshot. */
  ghost predicate OnTrack(env: Env, snap: Replica, disk: Log, phase: Phase) {
    match phase
    case Idle => true
    case Preparing(offs) => |offs| <= |disk| && forall i :: 0 <= i < |offs| ==> offs[i] <= |disk[i]|
    case Encoding(offs, _, _, _) =>
      && |offs| == |disk|
      && (forall i :: 0 <= i < |offs| ==> offs[i] <= |disk[i]|)
      && (forall k :: k in snap ==> Stands(env, phase, k, snap[k].timestamp))
      && (forall i, r :: 0 <= i < |offs| && r in disk[i][..offs[i]] ==> Stands(env, phase, r.key, r.timestamp))
    case Clearing(offs, next) =>
      && |offs| == |disk|
      && (forall i :: next <= i < |offs| ==> offs[i] <= |disk[i]|)
      && (forall i, r :: next <= i < |offs| && r in disk[i][..offs[i]] ==> Covers(snap, r.key, r.timestamp))
  }

  /** `v` carries the payload, timestamp and kind of `r`. */
  predicate SameRecord(v: Value, r: Request) {
    var w := ValueOf(r);
    v.data == w.data && v.timestamp == w.timestamp && v.tombstone == w.tombstone
  }

  ghost predicate FromWrites(m: Replica, applied: set<Request>) {
    forall k :: k in m ==> exists r <- applied :: r.key == k && SameRecord(m[k], r)
  }

  /** Memory is ahead of the log, of writes on their way there, of the snapshot and of the one being written;
      what was ever flushed is durable; nothing is invented. */
  ghost predicate Inv(env: Env, s: State) {
    && Shape(env, s) && Homed(env, s.disk) && Homed(env, s.buffers)
    && AheadOf(s.mem, Outstanding(s)) && AheadOfMap(s.mem, s.snap)
    && (s.phase.Encoding? ==> AheadOfMap(s.mem, s.phase.tmp))
    && OnTrack(env, s.snap, s.disk, s.phase)
    && AllDurable(env, s.snap, s.disk, s.flushed) && Records(s.disk) <= s.flushed
    && Outstanding(s) <= s.applied && FromWrites(s.mem, s.applied) && FromWrites(s.snap, s.applied)
    && (s.phase.Encoding? ==> FromWrites(s.phase.tmp, s.applied))
  }

  // ------------------------------------------------------------------ recovery covers what is durable

  lemma {:induction false} LogEntriesContain(disk: Log)
    ensures forall r :: r in Records(disk) <==> Logged(r) in LogEntries(disk)
    ensures forall e <- LogEntries(disk) :: e.Logged?
  {
    if disk != [] {
      var n := |disk| - 1;
      LogEntriesContain(disk[..n]);
      RecordsSnoc(disk);
      AsEntriesContain(disk[n]);
    }
  }

  lemma RecordsSnoc(log: Log)
    requires log != []
    ensures Records(log) == Records(log[..|log| - 1]) + Elements(log[|log| - 1])
  {
    var n := |log| - 1;
    forall r | r in Records(log) ensures r in Records(log[..n]) || r in log[n] {
      var i :| 0 <= i < |log| && r in log[i];
      if i < n { assert log[..n][i] == log[i]; }
    }
    forall r | r in Records(log[..n]) ensures r in Records(log) {
      var i :| 0 <= i < n && r in log[..n][i];
      assert r in log[i];
    }
  }

  lemma AsEntriesContain(rs: seq<Request>)
    ensures forall r :: r in rs <==> Logged(r) in AsEntries(rs)
    ensures forall e <- AsEntries(rs) :: e.Logged?
  {
    forall r | r in rs ensures Logged(r) in AsEntries(rs) {
      var i :| 0 <= i < |rs| && rs[i] == r;
      assert AsEntries(rs)[i] == Logged(r);
    }
  }

  ghost predicate FromLog(disk: Log, k: Key, v: Value) {
    exists r <- Records(disk) :: r.key == k && SameRecord(v, r)
  }

  /** Recovery is at least as new as the snapshot and every flushed record, and each recovered record is one of those. */
  lemma RecoveredExact(env: Env, s: State)
    ensures var m := Recovered(env, s);
            && AheadOfMap(m, s.snap) && AheadOf(m, Records(s.disk))
            && (forall k :: k in m ==> (k in s.snap && m[k] == s.snap[k]) || FromLog(s.disk, k, m[k]))
  {
    var es := LogEntries(s.disk);
    var up, m := AbsorbAll(map[], es), Recovered(env, s);
    LogEntriesContain(s.disk);
    AbsorbCovers(map[], es);
    forall r | r in Records(s.disk) ensures Covers(m, r.key, r.timestamp) {
      assert Logged(r) in es;
      assert r.key in up;
    }
    forall k | k in m && !(k in s.snap && m[k] == s.snap[k]) ensures FromLog(s.disk, k, m[k]) {
      AbsorbSource(map[], es, k);
      var e :| e in es && e.Logged? && e.req.key == k && up[k] == Bare(e.req);
      assert e.req in Records(s.disk) && SameRecord(m[k], e.req);
    }
  }

  // ------------------------------------------------------------------ the bytes behind the machine

  /** The segment files that hold these records. */
  function Files(c: Codec, disk: Log): seq<ByteString> {
    seq(|disk|, i requires 0 <= i < |disk| => Encoded(c, disk[i]))
  }

  lemma LawfulPart(c: Codec, a: set<Request>, b: set<Request>)
    requires LawfulOn(c, b) && a <= b
    ensures LawfulOn(c, a)
  {
  }

  lemma {:induction false} FilesReplay(c: Codec, disk: Log)
    requires LawfulOn(c, Records(disk))
    ensures var all := AllEntries(c, Files(c, disk)); all.Some? && Concat(all.value) == LogEntries(disk)
    decreases |disk|
  {
    if disk != [] {
      var n := |disk| - 1;
      RecordsSnoc(disk);
      LawfulPart(c, Records(disk[..n]), Records(disk));
      LawfulPart(c, Elements(disk[n]), Records(disk));
      FilesReplay(c, disk[..n]);
      ReplayRoundTrip(c, disk[n]);
      assert Files(c, disk) == Files(c, disk[..n]) + [Encoded(c, disk[n])];
      AllEntriesSnoc(c, Files(c, disk[..n]), Encoded(c, disk[n]));
    }
  }

  /** Storing the listed entries one by one rebuilds the map they list. */
  lemma {:induction false} SnapshotRoundTrip(xx: Hash, es: seq<Write>, m: Replica)
    requires Lists(es, m) && AllHashed(xx, m)
    ensures StoreAll(xx, es) == m
    decreases |es|
  {
    if es == [] {
      ListsNothing(m);
    } else {
      var last := es[|es| - 1];
      ListsFront(es, m);
      SnapshotRoundTrip(xx, es[..|es| - 1], m - {last.key});
      HashedIsFixed(xx, last.key, last.value);
      assert m == (m - {last.key})[last.key := last.value];
    }
  }

  lemma RecoverComputesRecovered(env: Env, s: State, c: Codec, entries: seq<Write>)
    requires LawfulOn(c, Records(s.disk)) && Lists(entries, s.snap) && AllHashed(env.xx, s.snap)
    ensures AllEntries(c, Files(c, s.disk)).Some?
    ensures Rebuilt(env.xx, StoreAll(env.xx, entries), AbsorbAll(map[], Concat(AllEntries(c, Files(c, s.disk)).value)))
            == Recovered(env, s)
  {
    FilesReplay(c, s.disk);
    SnapshotRoundTrip(env.xx, entries, s.snap);
  }

  // ------------------------------------------------------------------ every step keeps the invariant

  /** What is durable stays durable. */
  ghost predicate DurabilityKept(env: Env, s: State, t: State)
    requires Shape(env, s) && Shape(env, t)
  {
    forall k, ts :: Durable(env, s.snap, s.disk, k, ts) ==> Durable(env, t.snap, t.disk, k, ts)
  }

  lemma MergeRaises(m: Replica, k: Key, v: Value)
    requires Merge(m, k, v) != m
    ensures Merge(m, k, v) == m[k := v] && (k in m ==> m[k].timestamp <= v.timestamp)
  {
  }

  lemma ApplyInv(env: Env, s: State, req: Request)
    requires Inv(env, s)
    ensures var t := DoApply(env, s, req); Inv(env, t) && DurabilityKept(env, s, t)
  {
    if DoApply(env, s, req) != s {
      var v := Stored(env, req);
      MergeRaises(s.mem, req.key, v);
      StoredInv(env, s, req, v);
    }
  }

  lemma StoredInv(env: Env, s: State, req: Request, v: Value)
    requires Inv(env, s) && SameRecord(v, req) && (req.key in s.mem ==> s.mem[req.key].timestamp <= v.timestamp)
    ensures var t := s.(mem := s.mem[req.key := v], pending := s.pending + multiset{req}, applied := s.applied + {req});
            Inv(env, t) && DurabilityKept(env, s, t)
  {
    var t := s.(mem := s.mem[req.key := v], pending := s.pending + multiset{req}, applied := s.applied + {req});
    assert Outstanding(t) == Outstanding(s) + {req};
    assert AheadOf(t.mem, Outstanding(t)) by { RaiseAhead(s.mem, req.key, v, Outstanding(s)); }
    RaiseAheadMap(s.mem, req.key, v, s.snap);
    WritesGrow(s.mem, s.applied, req, v);
    MoreWrites(s.snap, s.applied, t.applied);
    if s.phase.Encoding? {
      RaiseAheadMap(s.mem, req.key, v, s.phase.tmp);
      MoreWrites(s.phase.tmp, s.applied, t.applied);
    }
  }

  lemma RaiseAhead(mem: Replica, k: Key, v: Value, rs: set<Request>)
    requires AheadOf(mem, rs) && (k in mem ==> mem[k].timestamp <= v.timestamp)
    ensures AheadOf(mem[k := v], rs)
  {
  }

  lemma RaiseAheadMap(mem: Replica, k: Key, v: Value, m: Replica)
    requires AheadOfMap(mem, m) && (k in mem ==> mem[k].timestamp <= v.timestamp)
    ensures AheadOfMap(mem[k := v], m)
  {
  }

  lemma WritesGrow(mem: Replica, applied: set<Request>, req: Request, v: Value)
    requires FromWrites(mem, applied) && SameRecord(v, req)
    ensures FromWrites(mem[req.key := v], applied + {req})
  {
    var m := mem[req.key := v];
    MoreWrites(mem, applied, applied + {req});
    forall k | k in m ensures exists r <- applied + {req} :: r.key == k && SameRecord(m[k], r) {
      if k == req.key { assert req in applied + {req}; }
    }
  }

  lemma MoreWrites(m: Replica, a: set<Request>, b: set<Request>)
    requires FromWrites(m, a) && a <= b
    ensures FromWrites(m, b)
  {
    forall k | k in m ensures exists r <- b :: r.key == k && SameRecord(m[k], r) {
      var r :| r in a && r.key == k && SameRecord(m[k], r);
      assert r in b;
    }
  }

  lemma AppendTo(log: Log, i: nat, more: seq<Request>)
    requires i < |log|
    ensures Records(log[i := log[i] + more]) == Records(log) + Elements(more)
  {
    var log' := log[i := log[i] + more];
    forall r | r in Records(log) ensures r in Records(log') {
      var j :| 0 <= j < |log| && r in log[j];
      assert r in log'[j];
    }
    forall r | r in more ensures r in Records(log') { assert r in log'[i]; }
  }

  lemma EmptyOut(log: Log, i: nat)
    requires i < |log|
    ensures Records(log[i := []]) <= Records(log)
    ensures Records(log) <= Records(log[i := []]) + Elements(log[i])
  {
    var log' := log[i := []];
    forall r | r in Records(log) ensures r in Records(log') || r in log[i] {
      var j :| 0 <= j < |log| && r in log[j];
      if j != i { assert r in log'[j]; }
    }
  }

  lemma AppendHomed(env: Env, log: Log, req: Request)
    requires 0 < env.segments == |log| && Homed(env, log)
    ensures var i := SegmentOf(env, req.key); Homed(env, log[i := log[i] + [req]])
  {
  }

  /** Moving requests between memory and disk changes nothing that is durable or on track. */
  lemma BuffersChange(env: Env, s: State, pending: multiset<Request>, buffers: Log)
    requires Inv(env, s) && |buffers| == |s.buffers| && Homed(env, buffers)
    requires Outstanding(s.(pending := pending, buffers := buffers)) <= Outstanding(s)
    ensures var t := s.(pending := pending, buffers := buffers); Inv(env, t) && DurabilityKept(env, s, t)
  {
  }

  lemma PublishInv(env: Env, s: State, req: Request)
    requires Inv(env, s)
    ensures var t := DoPublish(env, s, req); Inv(env, t) && DurabilityKept(env, s, t)
  {
    if req in s.pending {
      var i := SegmentOf(env, req.key);
      var pending, buffers := s.pending - multiset{req}, s.buffers[i := s.buffers[i] + [req]];
      AppendTo(s.buffers, i, [req]);
      AppendHomed(env, s.buffers, req);
      assert Outstanding(s.(pending := pending, buffers := buffers)) <= Outstanding(s);
      BuffersChange(env, s, pending, buffers);
    }
  }

  lemma FlushInv(env: Env, s: State, i: nat)
    requires Inv(env, s) && i < |s.disk|
    ensures var t := FlushSegment(s, i); Inv(env, t) && DurabilityKept(env, s, t)
  {
    var t := FlushSegment(s, i);
    AppendTo(s.disk, i, s.buffers[i]);
    EmptyOut(s.buffers, i);
    assert Elements(s.buffers[i]) <= Records(s.buffers);
    assert Outstanding(t) <= Outstanding(s);
    assert Homed(env, t.disk) && Homed(env, t.buffers);
    FlushDurable(env, s.snap, s.disk, i, s.buffers[i]);
    FlushOnTrack(env, s.snap, s.disk, s.phase, i, s.buffers[i]);
    assert forall r <- Elements(s.buffers[i]) :: SegmentOf(env, r.key) == i;
  }

  lemma FlushDurable(env: Env, snap: Replica, disk: Log, i: nat, more: seq<Request>)
    requires 0 < env.segments == |disk| && i < |disk|
    ensures var disk' := disk[i := disk[i] + more];
            && (forall k, ts :: Durable(env, snap, disk, k, ts) ==> Durable(env, snap, disk', k, ts))
            && (forall r <- more :: SegmentOf(env, r.key) == i ==> Durable(env, snap, disk', r.key, r.timestamp))
  {
    var disk' := disk[i := disk[i] + more];
    forall k, ts | Durable(env, snap, disk, k, ts) ensures Durable(env, snap, disk', k, ts) {
      LogGrows(disk[SegmentOf(env, k)], disk'[SegmentOf(env, k)], k, ts);
    }
    forall r | r in more && SegmentOf(env, r.key) == i ensures Durable(env, snap, disk', r.key, r.timestamp) {
      assert r in disk'[i];
    }
  }

  lemma FlushOnTrack(env: Env, snap: Replica, disk: Log, phase: Phase, i: nat, more: seq<Request>)
    requires OnTrack(env, snap, disk, phase) && i < |disk|
    ensures OnTrack(env, snap, disk[i := disk[i] + more], phase)
  {
    var disk' := disk[i := disk[i] + more];
    if !phase.Idle? {
      assert forall j :: 0 <= j < |phase.offsets| && phase.offsets[j] <= |disk[j]| ==>
          disk'[j][..phase.offsets[j]] == disk[j][..phase.offsets[j]];
    }
  }

  lemma LogGrows(log: seq<Request>, log': seq<Request>, k: Key, ts: Int64)
    requires log <= log'
    ensures LogCovers(log, k, ts) ==> LogCovers(log', k, ts)
  {
    if LogCovers(log, k, ts) {
      var r :| r in log && r.key == k && r.timestamp >= ts;
      assert r in log';
    }
  }

  /** A step that only moves the snapshot along needs only the new phase to be in order. */
  lemma PhaseChange(env: Env, s: State, q: Phase)
    requires Inv(env, s) && Shape(env, s.(phase := q)) && OnTrack(env, s.snap, s.disk, q)
    requires q.Encoding? ==> AheadOfMap(s.mem, q.tmp) && FromWrites(q.tmp, s.applied)
    ensures var t := s.(phase := q); Inv(env, t) && DurabilityKept(env, s, t)
  {
    assert Outstanding(s.(phase := q)) == Outstanding(s);
  }

  lemma PrepareOnTrack(env: Env, snap: Replica, disk: Log, offs: seq<nat>)
    requires |offs| <= |disk| && forall i :: 0 <= i < |offs| ==> offs[i] <= |disk[i]|
    ensures OnTrack(env, snap, disk, Preparing(offs))
    ensures |offs| == |disk| ==> OnTrack(env, snap, disk, Encoding(offs, 0, {}, map[]))
  {
    assert forall k, ts :: Stands(env, Encoding(offs, 0, {}, map[]), k, ts);
  }

  lemma PrepareInv(env: Env, s: State)
    requires Inv(env, s) && s.phase.Preparing?
    ensures var t := DoPrepare(env, s); Inv(env, t) && DurabilityKept(env, s, t)
  {
    var i := |s.phase.offsets|;
    var f := FlushSegment(s, i);
    FlushInv(env, s, i);
    var offs := s.phase.offsets + [|f.disk[i]|];
    assert forall j :: 0 <= j < |offs| ==> offs[j] <= |f.disk[j]|;
    PrepareOnTrack(env, f.snap, f.disk, offs);
    PhaseChange(env, f, if |offs| < env.segments then Preparing(offs) else Encoding(offs, 0, {}, map[]));
  }

  /** An encoding step that only moves keys from "still to read" to "read from memory" stays on track. */
  lemma EncodingOnTrack(env: Env, snap: Replica, disk: Log, p: Phase, q: Phase, mem: Replica)
    requires p.Encoding? && q.Encoding? && p.offsets == q.offsets && OnTrack(env, snap, disk, p)
    requires AheadOfMap(mem, snap) && AheadOf(mem, Records(disk))
    requires forall k, ts :: Stands(env, p, k, ts) && Covers(mem, k, ts) ==> Stands(env, q, k, ts)
    ensures OnTrack(env, snap, disk, q)
  {
    forall i, r | 0 <= i < |p.offsets| && r in disk[i][..p.offsets[i]] ensures Stands(env, q, r.key, r.timestamp) {
      assert r in disk[i];
      assert r in Records(disk);
    }
  }

  lemma StartShardInv(env: Env, s: State)
    requires Inv(env, s)
    ensures var t := DoStartShard(env, s); Inv(env, t) && DurabilityKept(env, s, t)
  {
    var t := DoStartShard(env, s);
    if t != s {
      EncodingOnTrack(env, s.snap, s.disk, s.phase, t.phase, s.mem);
      PhaseChange(env, s, t.phase);
    }
  }

  lemma EncodeKeyInv(env: Env, s: State, key: Key)
    requires Inv(env, s)
    ensures var t := DoEncodeKey(s, key); Inv(env, t) && DurabilityKept(env, s, t)
  {
    var t := DoEncodeKey(s, key);
    if t != s {
      EncodingOnTrack(env, s.snap, s.disk, s.phase, t.phase, s.mem);
      PhaseChange(env, s, t.phase);
    }
  }

  lemma RenameInv(env: Env, s: State)
    requires Inv(env, s)
    ensures var t := DoRename(s); Inv(env, t) && DurabilityKept(env, s, t)
  {
    var t := DoRename(s);
    if t != s {
      assert forall k, ts :: Stands(env, s.phase, k, ts) ==> Covers(t.snap, k, ts);
      assert Outstanding(t) == Outstanding(s);
      forall k, ts | Durable(env, s.snap, s.disk, k, ts) ensures Durable(env, t.snap, t.disk, k, ts) {
        if Covers(s.snap, k, ts) { assert Stands(env, s.phase, k, s.snap[k].timestamp); }
      }
    }
  }

  /** Start-up on what a crash leaves: nothing pending or buffered, no snapshot under way. */
  lemma RestartInv(env: Env, s: State, t: State)
    requires Inv(env, s)
    requires t == s.(mem := t.mem, pending := multiset{}, buffers := t.buffers, phase := Idle)
    requires |t.buffers| == |s.buffers| && forall i :: 0 <= i < |t.buffers| ==> t.buffers[i] == []
    requires AheadOfMap(t.mem, s.snap) && AheadOf(t.mem, Records(s.disk))
    requires forall k :: k in t.mem ==> (k in s.snap && t.mem[k] == s.snap[k]) || FromLog(s.disk, k, t.mem[k])
    ensures Inv(env, t) && DurabilityKept(env, s, t)
  {
    assert Records(t.buffers) == {};
    assert Outstanding(t) == Records(s.disk);
    forall k | k in t.mem ensures exists r <- t.applied :: r.key == k && SameRecord(t.mem[k], r) {
      if !(k in s.snap && t.mem[k] == s.snap[k]) {
        var r :| r in Records(s.disk) && r.key == k && SameRecord(t.mem[k], r);
        assert r in Outstanding(s);
      }
    }
  }

  lemma CrashInv(env: Env, s: State)
    requires Inv(env, s)
    ensures var t := DoCrash(env, s); Inv(env, t) && DurabilityKept(env, s, t)
  {
    RecoveredExact(env, s);
    RestartInv(env, s, DoCrash(env, s));
  }

  /** Dropping the part of a segment that the snapshot covers keeps everything durable. */
  lemma ClearDurable(env: Env, snap: Replica, disk: Log, i: nat, off: nat)
    requires 0 < env.segments == |disk| && i < |disk| && off <= |disk[i]|
    requires forall r <- disk[i][..off] :: Covers(snap, r.key, r.timestamp)
    requires off > 0 || forall r <- disk[i] :: Covers(snap, r.key, r.timestamp)
    ensures forall k, ts :: Durable(env, snap, disk, k, ts) ==>
              Durable(env, snap, disk[i := ClearedRecords(disk[i], off)], k, ts)
  {
    var disk' := disk[i := ClearedRecords(disk[i], off)];
    forall k, ts | Durable(env, snap, disk, k, ts) ensures Durable(env, snap, disk', k, ts) {
      if SegmentOf(env, k) == i && LogCovers(disk[i], k, ts) {
        var r :| r in disk[i] && r.key == k && r.timestamp >= ts;
        var j :| 0 <= j < |disk[i]| && disk[i][j] == r;
        if j < off {
          assert disk[i][..off][j] == r;
        } else if off > 0 {
          assert disk'[i][j - off] == r;
        }
      }
    }
  }

  lemma ClearedIsPart(log: Log, i: nat, off: nat)
    requires i < |log|
    ensures var log' := log[i := ClearedRecords(log[i], off)];
            Records(log') <= Records(log) && forall j, r :: 0 <= j < |log| && r in log'[j] ==> r in log[j]
  {
    var log' := log[i := ClearedRecords(log[i], off)];
    assert forall j, r :: 0 <= j < |log| && r in log'[j] ==> r in log[j];
    forall r | r in Records(log') ensures r in Records(log) {
      var j :| 0 <= j < |log'| && r in log'[j];
      assert r in log[j];
    }
  }

  /** Clearing one segment; safe when its offset is positive or the snapshot already has all it holds. */
  lemma ClearInv(env: Env, s: State)
    requires Inv(env, s) && s.phase.Clearing?
    requires ClearSafe(s)
    ensures var t := DoClear(env, s); Inv(env, t) && DurabilityKept(env, s, t)
  {
    var i, off := s.phase.next, s.phase.offsets[s.phase.next];
    var f, t := FlushSegment(s, i), DoClear(env, s);
    FlushInv(env, s, i);
    ClearDurable(env, f.snap, f.disk, i, off);
    ClearedIsPart(f.disk, i, off);
    assert t == f.(disk := t.disk, phase := t.phase) && Outstanding(t) <= Outstanding(f);
    assert Homed(env, t.disk);
    forall r | r in t.flushed ensures Durable(env, t.snap, t.disk, r.key, r.timestamp) {
      assert Durable(env, f.snap, f.disk, r.key, r.timestamp);
    }
  }

  /** A record dropped at offset 0 that the snapshot lacks is gone. */
  lemma ClearLoses(env: Env, s: State, r: Request)
    requires Inv(env, s) && s.phase.Clearing? && s.phase.offsets[s.phase.next] == 0
    requires r in s.disk[s.phase.next] + s.buffers[s.phase.next] && !Covers(s.snap, r.key, r.timestamp)
    ensures var t := DoClear(env, s); r in t.flushed && !Durable(env, t.snap, t.disk, r.key, r.timestamp)
  {
    var t, i := DoClear(env, s), s.phase.next;
    assert t.disk[i] == [] && SegmentOf(env, r.key) == i;
    if r in s.disk[i] { assert r in Records(s.disk); }
  }

  /** Exactly when clearing a segment costs nothing that was ever flushed. */
  lemma ClearKeepsDurableIff(env: Env, s: State)
    requires Inv(env, s) && s.phase.Clearing?
    ensures var t := DoClear(env, s);
            Shape(env, t) && (AllDurable(env, t.snap, t.disk, t.flushed) <==> ClearSafe(s))
  {
    NextShape(env, s, ClearSegment);
    if ClearSafe(s) {
      ClearInv(env, s);
    } else {
      var i := s.phase.next;
      var r :| r in s.disk[i] + s.buffers[i] && !Covers(s.snap, r.key, r.timestamp);
      ClearLoses(env, s, r);
    }
  }

  /** A step that keeps the invariant and everything durable. */
  ghost predicate Kept(env: Env, s: State, t: State)
    requires Shape(env, s)
  {
    Inv(env, t) && DurabilityKept(env, s, t)
  }

  lemma NextInv(env: Env, s: State, a: Action)
    requires Inv(env, s) && ClearGuard(env, s, a)
    ensures Kept(env, s, Next(env, s, a))
  {
    match a
    case Apply(req) => ApplyInv(env, s, req);
    case Publish(req) => PublishInv(env, s, req);
    case Flush(i) => if i < |s.disk| { FlushInv(env, s, i); }
    case BeginSnapshot => if s.phase.Idle? { PhaseChange(env, s, Preparing([])); }
    case PrepareSegment => if s.phase.Preparing? { PrepareInv(env, s); }
    case StartShard => StartShardInv(env, s);
    case EncodeKey(k) => EncodeKeyInv(env, s, k);
    case Rename => RenameInv(env, s);
    case ClearSegment => if s.phase.Clearing? { ClearInv(env, s); }
    case Abort => PhaseChange(env, s, Idle);
    case CrashAndRecover => CrashInv(env, s);
  }

  // ------------------------------------------------------------------ whole runs

  lemma NextShape(env: Env, s: State, a: Action)
    requires Shape(env, s)
    ensures Shape(env, Next(env, s, a))
  {
  }

  function Init(env: Env): State {
    State(map[], multiset{}, seq(env.segments, _ => []), seq(env.segments, _ => []), map[], Idle, {}, {})
  }

  ghost function Run(env: Env, s: State, actions: seq<Action>): (t: State)
    requires Shape(env, s)
    ensures Shape(env, t)
    decreases actions
  {
    if actions == [] then s
    else
      NextShape(env, s, actions[0]);
      Run(env, Next(env, s, actions[0]), actions[1..])
  }

  /** No segment is cleared at a recorded offset of 0 while it holds records the snapshot lacks. */
  ghost predicate Guarded(env: Env, s: State, actions: seq<Action>)
    requires Shape(env, s)
    decreases actions
  {
    actions == [] ||
    (NextShape(env, s, actions[0]);
     ClearGuard(env, s, actions[0]) && Guarded(env, Next(env, s, actions[0]), actions[1..]))
  }

  lemma {:induction false} RunInv(env: Env, s: State, actions: seq<Action>)
    requires Inv(env, s) && Guarded(env, s, actions)
    ensures Inv(env, Run(env, s, actions)) && DurabilityKept(env, s, Run(env, s, actions))
    decreases actions
  {
    if actions != [] {
      NextInv(env, s, actions[0]);
      RunInv(env, Next(env, s, actions[0]), actions[1..]);
    }
  }

  lemma InitInv(env: Env)
    requires env.segments > 0
    ensures Inv(env, Init(env))
  {
    assert Records(Init(env).disk) == {} && Records(Init(env).buffers) == {};
  }

  /** Crash safety: after any interleaving of writes, flushes, snapshot steps, aborts and earlier crashes, recovery is
      at least as new as every record ever flushed, and everything it brings back was really written. */
  lemma CrashSafety(env: Env, actions: seq<Action>)
    requires env.segments > 0 && Guarded(env, Init(env), actions)
    ensures var s := Run(env, Init(env), actions);
            && (forall r <- s.flushed :: Covers(Recovered(env, s), r.key, r.timestamp))
            && FromWrites(Recovered(env, s), s.applied)
  {
    InitInv(env);
    RunInv(env, Init(env), actions);
    var s := Run(env, Init(env), actions);
    CrashInv(env, s);
    RecoveredExact(env, s);
    forall r | r in s.flushed ensures Covers(Recovered(env, s), r.key, r.timestamp) {
      DurableIsRecovered(env, s, r.key, r.timestamp);
    }
  }

  lemma DurableIsRecovered(env: Env, s: State, k: Key, ts: Int64)
    requires Shape(env, s) && Durable(env, s.snap, s.disk, k, ts)
    ensures Covers(Recovered(env, s), k, ts)
  {
    RecoveredExact(env, s);
    if !Covers(s.snap, k, ts) {
      var r :| r in s.disk[SegmentOf(env, k)] && r.key == k && r.timestamp >= ts;
      assert r in Records(s.disk);
    }
  }

  /** A crash right now would lose nothing that was ever flushed. */
  ghost predicate LosesNothing(env: Env, s: State) {
    forall r <- s.flushed :: Covers(Recovered(env, s), r.key, r.timestamp)
  }

  lemma LosesNothingIff(env: Env, s: State)
    requires Shape(env, s) && Homed(env, s.disk)
    ensures LosesNothing(env, s) <==> AllDurable(env, s.snap, s.disk, s.flushed)
  {
    forall r | r in s.flushed
      ensures Covers(Recovered(env, s), r.key, r.timestamp) <==> Durable(env, s.snap, s.disk, r.key, r.timestamp)
    {
      RecoveredCoversIff(env, s, r.key, r.timestamp);
    }
  }

  lemma RecoveredCoversIff(env: Env, s: State, k: Key, ts: Int64)
    requires Shape(env, s) && Homed(env, s.disk)
    ensures Covers(Recovered(env, s), k, ts) <==> Durable(env, s.snap, s.disk, k, ts)
  {
    if Durable(env, s.snap, s.disk, k, ts) {
      DurableIsRecovered(env, s, k, ts);
    } else if k in Recovered(env, s) {
      RecoveredIsDurable(env, s, k);
    }
  }

  /** A crash after any prefix of the run would lose nothing. */
  ghost predicate SafeThroughout(env: Env, s: State, actions: seq<Action>)
    requires Shape(env, s)
  {
    forall n :: 0 <= n <= |actions| ==> LosesNothing(env, Run(env, s, actions[..n]))
  }

  lemma SafeThroughoutNext(env: Env, s: State, actions: seq<Action>)
    requires Shape(env, s) && actions != []
    ensures Shape(env, Next(env, s, actions[0]))
    ensures SafeThroughout(env, s, actions) <==>
            LosesNothing(env, s) && SafeThroughout(env, Next(env, s, actions[0]), actions[1..])
  {
    NextShape(env, s, actions[0]);
    var t := Next(env, s, actions[0]);
    forall n | 0 < n <= |actions| ensures Run(env, s, actions[..n]) == Run(env, t, actions[1..][..n - 1]) {
      assert actions[..n][1..] == actions[1..][..n - 1];
    }
    assert Run(env, s, actions[..0]) == s;
    if SafeThroughout(env, s, actions) {
      forall n | 0 <= n <= |actions[1..]| ensures LosesNothing(env, Run(env, t, actions[1..][..n])) {
        assert LosesNothing(env, Run(env, s, actions[..n + 1]));
      }
    }
  }

  lemma SafeFromStart(env: Env, s: State, actions: seq<Action>)
    requires Shape(env, s) && SafeThroughout(env, s, actions)
    ensures LosesNothing(env, s)
  {
    assert Run(env, s, actions[..0]) == s;
  }

  lemma InvLosesNothing(env: Env, s: State)
    requires Inv(env, s)
    ensures LosesNothing(env, s)
  {
    LosesNothingIff(env, s);
  }

  lemma UnguardedStep(env: Env, s: State, a: Action)
    requires Inv(env, s) && !ClearGuard(env, s, a)
    ensures !LosesNothing(env, Next(env, s, a))
  {
    UnguardedLoses(env, s);
  }

  lemma SafeThroughoutEmpty(env: Env, s: State)
    requires Shape(env, s)
    ensures SafeThroughout(env, s, []) <==> LosesNothing(env, s)
  {
    var none: seq<Action> := [];
    assert none[..0] == none;
  }

  lemma {:induction false} SafeIffGuarded(env: Env, s: State, actions: seq<Action>)
    requires Inv(env, s)
    ensures SafeThroughout(env, s, actions) <==> Guarded(env, s, actions)
    decreases actions
  {
    InvLosesNothing(env, s);
    if actions == [] {
      SafeThroughoutEmpty(env, s);
    } else {
      SafeThroughoutNext(env, s, actions);
      var t := Next(env, s, actions[0]);
      if ClearGuard(env, s, actions[0]) {
        NextInv(env, s, actions[0]);
        SafeIffGuarded(env, t, actions[1..]);
      } else {
        UnguardedStep(env, s, actions[0]);
        if SafeThroughout(env, t, actions[1..]) { SafeFromStart(env, t, actions[1..]); }
      }
    }
  }

  lemma UnguardedLoses(env: Env, s: State)
    requires Inv(env, s) && s.phase.Clearing? && !ClearSafe(s)
    ensures !LosesNothing(env, DoClear(env, s))
  {
    var t, f, i := DoClear(env, s), FlushSegment(s, s.phase.next), s.phase.next;
    ClearKeepsDurableIff(env, s);
    FlushInv(env, s, i);
    ClearedIsPart(f.disk, i, s.phase.offsets[i]);
    assert Homed(env, t.disk);
    LosesNothingIff(env, t);
  }

  /** Over whole runs: no crash at any moment loses a flushed write exactly when every clearing step was safe. */
  lemma CrashSafetyIff(env: Env, actions: seq<Action>)
    requires env.segments > 0
    ensures SafeThroughout(env, Init(env), actions) <==> Guarded(env, Init(env), actions)
  {
    InitInv(env);
    SafeIffGuarded(env, Init(env), actions);
  }

  // ------------------------------------------------------------------ nothing pending: recovery is current

  /** Memory's record of `k` is on its way to the log, or a crash would bring back one as new. */
  ghost predicate Accounted(env: Env, s: State, k: Key)
    requires Shape(env, s) && k in s.mem
  {
    || Durable(env, s.snap, s.disk, k, s.mem[k].timestamp)
    || exists r :: (r in s.pending || r in s.buffers[SegmentOf(env, k)]) && r.key == k && r.timestamp == s.mem[k].timestamp
  }

  ghost predicate AllAccounted(env: Env, s: State)
    requires Shape(env, s)
  {
    forall k :: k in s.mem ==> Accounted(env, s, k)
  }

  /** A request between memory and disk stays there or is flushed. */
  lemma OnItsWay(env: Env, s: State, a: Action, r: Request)
    requires Shape(env, s) && !a.CrashAndRecover?
    requires r in s.pending || r in s.buffers[SegmentOf(env, r.key)]
    ensures var t := Next(env, s, a);
            r in t.pending || (|t.buffers| == env.segments && r in t.buffers[SegmentOf(env, r.key)]) || r in t.flushed
  {
    match a
    case Apply(_) =>
    case Publish(_) =>
    case Flush(_) =>
    case BeginSnapshot =>
    case PrepareSegment =>
    case StartShard =>
    case EncodeKey(_) =>
    case Rename =>
    case ClearSegment =>
    case Abort =>
  }

  lemma OnlyApplyWrites(env: Env, s: State, a: Action)
    requires Shape(env, s) && !a.CrashAndRecover? && !a.Apply?
    ensures Next(env, s, a).mem == s.mem
  {
  }

  /** A key whose record did not change is still accounted for after the step. */
  lemma AccountedKept(env: Env, s: State, a: Action, k: Key)
    requires Inv(env, s) && ClearGuard(env, s, a) && !a.CrashAndRecover? && k in s.mem && Accounted(env, s, k)
    requires var t := Next(env, s, a); Inv(env, t) && DurabilityKept(env, s, t)
    requires k in Next(env, s, a).mem && Next(env, s, a).mem[k].timestamp == s.mem[k].timestamp
    ensures Accounted(env, Next(env, s, a), k)
  {
    if !Durable(env, s.snap, s.disk, k, s.mem[k].timestamp) {
      var r :| (r in s.pending || r in s.buffers[SegmentOf(env, k)]) && r.key == k && r.timestamp == s.mem[k].timestamp;
      OnItsWay(env, s, a, r);
    }
  }

  lemma CrashAccounted(env: Env, s: State, t: State, k: Key)
    requires Inv(env, s) && Shape(env, t) && k in t.mem
    requires t.mem == Recovered(env, s) && t.snap == s.snap && t.disk == s.disk
    ensures Accounted(env, t, k)
  {
    RecoveredIsDurable(env, s, k);
  }

  lemma ApplyAccounted(env: Env, s: State, a: Action)
    requires Shape(env, s) && a.Apply? && Shape(env, Next(env, s, a)) && Next(env, s, a) != s
    ensures a.req.key in Next(env, s, a).mem && Accounted(env, Next(env, s, a), a.req.key)
  {
    assert a.req in Next(env, s, a).pending;
  }

  /** Only the key of a write that changed memory gets a new record. */
  lemma OthersUnchanged(env: Env, s: State, a: Action, k: Key)
    requires Shape(env, s) && !a.CrashAndRecover? && k in Next(env, s, a).mem
    requires a.Apply? ==> Next(env, s, a) == s || k != a.req.key
    ensures k in s.mem && Next(env, s, a).mem[k] == s.mem[k]
  {
    if !a.Apply? { OnlyApplyWrites(env, s, a); }
  }

  lemma OthersAccounted(env: Env, s: State, a: Action, k: Key)
    requires Inv(env, s) && ClearGuard(env, s, a) && AllAccounted(env, s) && !a.CrashAndRecover?
    requires Kept(env, s, Next(env, s, a)) && k in Next(env, s, a).mem
    requires a.Apply? ==> Next(env, s, a) == s || k != a.req.key
    ensures Accounted(env, Next(env, s, a), k)
  {
    OthersUnchanged(env, s, a, k);
    AccountedKept(env, s, a, k);
  }

  lemma RestartAccounted(env: Env, s: State, a: Action, k: Key)
    requires Inv(env, s) && a.CrashAndRecover? && Shape(env, Next(env, s, a)) && k in Next(env, s, a).mem
    ensures Accounted(env, Next(env, s, a), k)
  {
    CrashAccounted(env, s, Next(env, s, a), k);
  }

  lemma AccountedAfter(env: Env, s: State, a: Action, k: Key)
    requires Inv(env, s) && ClearGuard(env, s, a) && AllAccounted(env, s)
    requires Kept(env, s, Next(env, s, a)) && k in Next(env, s, a).mem
    ensures Accounted(env, Next(env, s, a), k)
  {
    if a.CrashAndRecover? {
      RestartAccounted(env, s, a, k);
    } else if a.Apply? && Next(env, s, a) != s && k == a.req.key {
      ApplyAccounted(env, s, a);
    } else {
      OthersAccounted(env, s, a, k);
    }
  }

  lemma AccountedStep(env: Env, s: State, a: Action)
    requires Inv(env, s) && ClearGuard(env, s, a) && AllAccounted(env, s)
    ensures Shape(env, Next(env, s, a)) && AllAccounted(env, Next(env, s, a))
  {
    NextInv(env, s, a);
    forall k | k in Next(env, s, a).mem ensures Accounted(env, Next(env, s, a), k) { AccountedAfter(env, s, a, k); }
  }

  lemma RecoveredIsDurable(env: Env, s: State, k: Key)
    requires Shape(env, s) && Homed(env, s.disk) && k in Recovered(env, s)
    ensures Durable(env, s.snap, s.disk, k, Recovered(env, s)[k].timestamp)
  {
    RecoveredExact(env, s);
    var m := Recovered(env, s);
    if !(k in s.snap && m[k] == s.snap[k]) {
      var r :| r in Records(s.disk) && r.key == k && SameRecord(m[k], r);
      var i :| 0 <= i < |s.disk| && r in s.disk[i];
    }
  }

  lemma {:induction false} RunAccounted(env: Env, s: State, actions: seq<Action>)
    requires Inv(env, s) && Guarded(env, s, actions) && AllAccounted(env, s)
    ensures AllAccounted(env, Run(env, s, actions))
    decreases actions
  {
    if actions != [] {
      NextInv(env, s, actions[0]);
      AccountedStep(env, s, actions[0]);
      RunAccounted(env, Next(env, s, actions[0]), actions[1..]);
    }
  }

  /** With every write logged and every buffer flushed, recovery gives each key exactly memory's timestamp. */
  lemma QuiescentRecoveryIsCurrent(env: Env, actions: seq<Action>)
    requires env.segments > 0 && Guarded(env, Init(env), actions)
    requires var s := Run(env, Init(env), actions);
             s.pending == multiset{} && forall i :: 0 <= i < |s.buffers| ==> s.buffers[i] == []
    ensures var s := Run(env, Init(env), actions);
            var m := Recovered(env, s);
            m.Keys == s.mem.Keys && forall k :: k in m ==> m[k].timestamp == s.mem[k].timestamp
  {
    InitInv(env);
    RunInv(env, Init(env), actions);
    RunAccounted(env, Init(env), actions);
    var s := Run(env, Init(env), actions);
    var m := Recovered(env, s);
    forall k ensures (k in m <==> k in s.mem) && (k in m ==> m[k].timestamp == s.mem[k].timestamp) {
      if k in s.mem { MemoryRecovered(env, s, k); }
      if k in m {
        RecoveredIsDurable(env, s, k);
        DurableIsKnown(env, s, k, m[k].timestamp);
      }
    }
  }

  lemma MemoryRecovered(env: Env, s: State, k: Key)
    requires Shape(env, s) && k in s.mem && Accounted(env, s, k)
    requires s.pending == multiset{} && forall i :: 0 <= i < |s.buffers| ==> s.buffers[i] == []
    ensures Covers(Recovered(env, s), k, s.mem[k].timestamp)
  {
    DurableIsRecovered(env, s, k, s.mem[k].timestamp);
  }

  lemma DurableIsKnown(env: Env, s: State, k: Key, ts: Int64)
    requires Inv(env, s) && Durable(env, s.snap, s.disk, k, ts)
    ensures Covers(s.mem, k, ts)
  {
    if !Covers(s.snap, k, ts) {
      var r :| r in s.disk[SegmentOf(env, k)] && r.key == k && r.timestamp >= ts;
      assert r in Records(s.disk);
    }
  }

  // ------------------------------------------------------------------ why the guard is needed

  ghost predicate Reachable(env: Env, s: State) {
    env.segments > 0 && exists actions :: Run(env, Init(env), actions) == s
  }

  lemma {:induction false} RunOneMore(env: Env, s: State, actions: seq<Action>, a: Action)
    requires Shape(env, s)
    ensures Shape(env, Run(env, s, actions)) && Run(env, s, actions + [a]) == Next(env, Run(env, s, actions), a)
    decreases actions
  {
    if actions == [] {
      assert actions + [a] == [a] && [a][1..] == [];
    } else {
      NextShape(env, s, actions[0]);
      RunOneMore(env, Next(env, s, actions[0]), actions[1..], a);
      assert (actions + [a])[1..] == actions[1..] + [a];
    }
  }

  lemma ReachNext(env: Env, s: State, a: Action)
    requires Reachable(env, s)
    ensures Shape(env, s) && Reachable(env, Next(env, s, a))
  {
    var actions :| Run(env, Init(env), actions) == s;
    RunOneMore(env, Init(env), actions, a);
  }

  lemma {:induction false} ReachEncoded(env: Env, s: State)
    requires Reachable(env, s) && s.mem == map[] && s.phase.Encoding? && s.phase.left == {} && s.phase.shard <= SHARD_COUNT
    ensures Reachable(env, s.(phase := s.phase.(shard := SHARD_COUNT)))
    decreases SHARD_COUNT - s.phase.shard
  {
    if s.phase.shard < SHARD_COUNT {
      ReachNext(env, s, StartShard);
      var t := Next(env, s, StartShard);
      assert t.phase.left == {};
      assert t == s.(phase := s.phase.(shard := s.phase.shard + 1));
      ReachEncoded(env, t);
    }
  }

  /** With one segment: an offset of 0 is taken, the empty map is read, a write lands on disk, the snapshot is
      published and the segment cleared. The write had been flushed and is gone. */
  lemma ClearAtZeroLosesWrites(xx: Hash, r: Request)
    ensures exists s :: Reachable(Env(xx, 1), s) && r in s.flushed && r.key !in Recovered(Env(xx, 1), s)
  {
    var env := Env(xx, 1);
    var blank := State(map[], multiset{}, [[]], [[]], map[], Idle, {}, {});
    assert Init(env) == blank;
    assert Run(env, Init(env), []) == blank;
    ReachNext(env, blank, BeginSnapshot);
    var s1 := blank.(phase := Preparing([]));
    ReachNext(env, s1, PrepareSegment);
    var s2 := blank.(phase := Encoding([0], 0, {}, map[]));
    assert FlushSegment(s1, 0) == s1;
    assert s1.phase.offsets + [|s1.disk[0]|] == [0];
    assert Next(env, s1, PrepareSegment) == s2;
    ReachEncoded(env, s2);
    var s3 := blank.(phase := Encoding([0], SHARD_COUNT, {}, map[]));
    LateWrite(env, s3, r);
  }

  lemma LateWrite(env: Env, s: State, r: Request)
    requires Reachable(env, s) && env.segments == 1
    requires s == State(map[], multiset{}, [[]], [[]], map[], Encoding([0], SHARD_COUNT, {}, map[]), {}, {})
    ensures exists t :: Reachable(env, t) && r in t.flushed && r.key !in Recovered(env, t)
  {
    var a := s.(mem := map[r.key := Stored(env, r)], pending := multiset{r}, applied := {r});
    assert DoApply(env, s, r) == a;
    ReachNext(env, s, Apply(r));
    LateWriteLogged(env, a, r);
  }

  lemma LateWriteLogged(env: Env, s: State, r: Request)
    requires Reachable(env, s) && env.segments == 1
    requires s == State(s.mem, multiset{r}, [[]], [[]], map[], Encoding([0], SHARD_COUNT, {}, map[]), {r}, {})
    ensures exists t :: Reachable(env, t) && r in t.flushed && r.key !in Recovered(env, t)
  {
    var a := s.(pending := multiset{}, buffers := [[r]]);
    assert DoPublish(env, s, r) == a by {
      assert s.pending - multiset{r} == multiset{};
      assert s.buffers[0] + [r] == [r];
      assert s.buffers[0 := [r]] == [[r]];
    }
    ReachNext(env, s, Publish(r));
    var b := a.(disk := [[r]], buffers := [[]], flushed := {r});
    assert FlushSegment(a, 0) == b by {
      assert Elements([r]) == {r} && a.disk[0] + a.buffers[0] == [r];
      assert a.disk[0 := [r]] == [[r]] && a.buffers[0 := []] == [[]];
    }
    ReachNext(env, a, Flush(0));
    LateWriteCleared(env, b, r);
  }

  lemma LateWriteCleared(env: Env, s: State, r: Request)
    requires Reachable(env, s) && env.segments == 1
    requires s == State(s.mem, multiset{}, [[r]], [[]], map[], Encoding([0], SHARD_COUNT, {}, map[]), {r}, {r})
    ensures exists t :: Reachable(env, t) && r in t.flushed && r.key !in Recovered(env, t)
  {
    var a := s.(phase := Clearing([0], 0));
    assert DoRename(s) == a;
    ReachNext(env, s, Rename);
    LateWriteGone(env, a, r);
  }

  lemma LateWriteGone(env: Env, s: State, r: Request)
    requires Reachable(env, s) && Shape(env, s) && env.segments == 1
    requires s == State(s.mem, multiset{}, [[r]], [[]], map[], Clearing([0], 0), {r}, {r})
    ensures exists t :: Reachable(env, t) && r in t.flushed && r.key !in Recovered(env, t)
  {
    var t := DoClear(env, s);
    ReachNext(env, s, ClearSegment);
    ClearsAll(env, s, r);
    NothingToRecover(env, t, r.key);
    assert Reachable(env, t) && r in t.flushed;
  }

  lemma ClearsAll(env: Env, s: State, r: Request)
    requires env.segments == 1 && s.disk == [[r]] && s.buffers == [[]] && s.phase == Clearing([0], 0)
    ensures var t := DoClear(env, s); t.disk == [[]] && t.snap == s.snap && s.flushed <= t.flushed
  {
    assert FlushSegment(s, 0).disk[0] == [r] + [];
  }

  lemma NothingToRecover(env: Env, s: State, k: Key)
    requires s.snap == map[] && s.disk == [[]]
    ensures k !in Recovered(env, s)
  {
    RecoveredExact(env, s);
    assert Records(s.disk) == {};
  }

  // ------------------------------------------------------------------ item hashes, and start-up on the real files

  /** Memory, the snapshot and the one being written hold values with their own item hashes. */
  ghost predicate Hashed(env: Env, s: State) {
    && AllHashed(env.xx, s.mem) && AllHashed(env.xx, s.snap)
    && (s.phase.Encoding? ==> AllHashed(env.xx, s.phase.tmp))
  }

  lemma HashedMerge(xx: Hash, m: Replica, k: Key, v: Value)
    requires AllHashed(xx, m)
    ensures AllHashed(xx, Merge(m, k, WithHash(xx, k, v)))
  {
    HashedInsert(xx, m, k, v);
  }

  lemma HashedRebuilt(xx: Hash, snap: Replica, updates: Results)
    requires AllHashed(xx, snap)
    ensures AllHashed(xx, Rebuilt(xx, snap, updates))
  {
    forall k | k in Rebuilt(xx, snap, updates) ensures IsHashed(xx, k, Rebuilt(xx, snap, updates)[k]) {
      if k in updates { assert IsHashed(xx, k, WithHash(xx, k, updates[k])); }
    }
  }

  lemma HashedStep(env: Env, s: State, a: Action)
    requires Shape(env, s) && Hashed(env, s)
    ensures Hashed(env, Next(env, s, a))
  {
    match a
    case Apply(req) => HashedMerge(env.xx, s.mem, req.key, ValueOf(req));
    case CrashAndRecover => HashedRebuilt(env.xx, s.snap, AbsorbAll(map[], LogEntries(s.disk)));
    case _ =>
  }

  lemma {:induction false} RunHashed(env: Env, s: State, actions: seq<Action>)
    requires Shape(env, s) && Hashed(env, s)
    ensures Hashed(env, Run(env, s, actions))
    decreases actions
  {
    if actions != [] {
      NextShape(env, s, actions[0]);
      HashedStep(env, s, actions[0]);
      RunHashed(env, Next(env, s, actions[0]), actions[1..]);
    }
  }

  /** After any run at all, start-up on the real files computes what the machine's crash step says. */
  lemma StartUpComputesRecovered(env: Env, actions: seq<Action>, c: Codec, entries: seq<Write>)
    requires env.segments > 0 && Lists(entries, Run(env, Init(env), actions).snap)
    requires LawfulOn(c, Records(Run(env, Init(env), actions).disk))
    ensures var s := Run(env, Init(env), actions);
            var logged := AllEntries(c, Files(c, s.disk));
            && logged.Some?
            && Rebuilt(env.xx, StoreAll(env.xx, entries), AbsorbAll(map[], Concat(logged.value))) == Recovered(env, s)
  {
    RunHashed(env, Init(env), actions);
    RecoverComputesRecovered(env, Run(env, Init(env), actions), c, entries);
  }
}

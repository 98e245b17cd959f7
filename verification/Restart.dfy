/** What exactly a restart brings back, on any replay schedule (core/wal/wal.go Replay, core/engine.go recover). */
module Restart {
  import opened Bytes
  import opened Kv
  import opened Lww
  import opened Wal
  import opened Recovery
  import opened Crash

  // ------------------------------------------------------------------ a key has one segment

  /** Every record on disk or on its way there is in the segment its key hashes to. */
  ghost predicate AllHomed(env: Env, s: State)
    requires env.segments > 0
  {
    Homed(env, s.disk) && Homed(env, s.buffers)
  }

  lemma FlushHomed(env: Env, s: State, i: nat)
    requires Shape(env, s) && AllHomed(env, s) && i < |s.disk|
    ensures AllHomed(env, FlushSegment(s, i))
  {
  }

  lemma HomedStep(env: Env, s: State, a: Action)
    requires Shape(env, s) && AllHomed(env, s)
    ensures AllHomed(env, Next(env, s, a))
  {
    match a
    case Publish(req) => AppendHomed(env, s.buffers, req);
    case Flush(i) => if i < |s.disk| { FlushHomed(env, s, i); }
    case PrepareSegment => if s.phase.Preparing? { FlushHomed(env, s, |s.phase.offsets|); }
    case ClearSegment =>
      if s.phase.Clearing? {
        var i := s.phase.next;
        FlushHomed(env, s, i);
        ClearedIsPart(FlushSegment(s, i).disk, i, s.phase.offsets[i]);
      }
    case _ =>
  }

  lemma {:induction false} RunHomed(env: Env, s: State, actions: seq<Action>)
    requires Shape(env, s) && AllHomed(env, s)
    ensures AllHomed(env, Run(env, s, actions))
    decreases actions
  {
    if actions != [] {
      NextShape(env, s, actions[0]);
      HomedStep(env, s, actions[0]);
      RunHomed(env, Next(env, s, actions[0]), actions[1..]);
    }
  }

  /** The entry streams the replay goroutines read. */
  function Streams(disk: Log): seq<seq<Entry>> {
    seq(|disk|, i requires 0 <= i < |disk| => AsEntries(disk[i]))
  }

  lemma {:induction false} LogIsConcat(disk: Log)
    ensures LogEntries(disk) == Concat(Streams(disk))
  {
    if disk != [] {
      LogIsConcat(disk[..|disk| - 1]);
      assert Streams(disk)[..|disk| - 1] == Streams(disk[..|disk| - 1]);
    }
  }

  lemma {:induction false} ProjectNone(es: seq<Entry>, k: Key)
    requires forall e <- es :: e.Logged? ==> e.req.key != k
    ensures Project(es, k) == []
  {
    if es != [] {
      assert es[|es| - 1] in es;
      ProjectNone(es[..|es| - 1], k);
    }
  }

  lemma HomedStreams(env: Env, disk: Log, k: Key)
    requires 0 < env.segments == |disk| && Homed(env, disk)
    ensures HomedAt(Streams(disk), k, SegmentOf(env, k))
  {
    forall i | 0 <= i < |disk| && i != SegmentOf(env, k) ensures Project(Streams(disk)[i], k) == [] {
      forall e | e in AsEntries(disk[i]) && e.Logged? ensures e.req.key != k {
        AsEntriesContain(disk[i]);
        assert Logged(e.req) in AsEntries(disk[i]);
      }
      ProjectNone(AsEntries(disk[i]), k);
    }
  }

  /** After any run, however the segments' entries are interleaved, replay rebuilds the same memory. */
  lemma AnyScheduleRecovers(env: Env, actions: seq<Action>, merged: seq<Entry>)
    requires env.segments > 0 && Interleaves(merged, Streams(Run(env, Init(env), actions).disk))
    ensures var s := Run(env, Init(env), actions);
            Rebuilt(env.xx, s.snap, AbsorbAll(map[], merged)) == Recovered(env, s)
  {
    RunHomed(env, Init(env), actions);
    var s := Run(env, Init(env), actions);
    forall k ensures HomedAt(Streams(s.disk), k, SegmentOf(env, k)) { HomedStreams(env, s.disk, k); }
    LogIsConcat(s.disk);
    ConcatInterleaves(Streams(s.disk));
    ReplaySchedules(merged, LogEntries(s.disk), Streams(s.disk), k => if env.segments > 0 then SegmentOf(env, k) else 0);
  }

  // ------------------------------------------------------------------ which record of a key comes back

  /** Record `i` is the first one of its key that carries the newest timestamp logged for it. */
  ghost predicate IsTop(log: seq<Request>, k: Key, i: nat) {
    && i < |log| && log[i].key == k
    && (forall j :: 0 <= j < |log| && log[j].key == k ==> log[j].timestamp <= log[i].timestamp)
    && (forall j :: 0 <= j < i && log[j].key == k ==> log[j].timestamp < log[i].timestamp)
  }

  lemma TopStays(log: seq<Request>, last: Request, k: Key, i: nat)
    requires IsTop(log, k, i) && (last.key == k ==> last.timestamp <= log[i].timestamp)
    ensures IsTop(log + [last], k, i)
  {
  }

  lemma TopReplaced(log: seq<Request>, last: Request, k: Key)
    requires last.key == k && forall j :: 0 <= j < |log| && log[j].key == k ==> log[j].timestamp < last.timestamp
    ensures IsTop(log + [last], k, |log|)
  {
  }

  ghost predicate HasTop(log: seq<Request>, k: Key) {
    exists i: nat :: IsTop(log, k, i)
  }

  /** Replay keeps exactly that record. */
  lemma {:induction false} AbsorbKeepsTop(log: seq<Request>, k: Key)
    ensures var up := AbsorbAll(map[], AsEntries(log));
            && (k in up <==> HasTop(log, k)) && (k !in up ==> forall j :: 0 <= j < |log| ==> log[j].key != k)
            && forall i: nat :: IsTop(log, k, i) ==> k in up && up[k] == Bare(log[i])
  {
    if log != [] {
      var n := |log| - 1;
      var front, last := log[..n], log[n];
      AbsorbKeepsTop(front, k);
      assert log == front + [last];
      assert AsEntries(log)[..n] == AsEntries(front);
      var before := AbsorbAll(map[], AsEntries(front));
      assert AbsorbAll(map[], AsEntries(log)) == Absorb(before, Logged(last));
      if k in before {
        var i: nat :| IsTop(front, k, i);
        if last.key == k && last.timestamp > front[i].timestamp {
          TopReplaced(front, last, k);
          OnlyTop(log, k, n);
        } else {
          TopStays(front, last, k, i);
          OnlyTop(log, k, i);
        }
      } else if last.key == k {
        TopReplaced(front, last, k);
        OnlyTop(log, k, n);
      }
    }
  }

  lemma OnlyTop(log: seq<Request>, k: Key, i: nat)
    requires IsTop(log, k, i)
    ensures forall j: nat :: IsTop(log, k, j) ==> j == i
  {
    forall j: nat | IsTop(log, k, j) ensures j == i { TopUnique(log, k, i, j); }
  }

  lemma TopUnique(log: seq<Request>, k: Key, i: nat, j: nat)
    requires IsTop(log, k, i) && IsTop(log, k, j)
    ensures i == j
  {
  }

  /** Only a key's own segment matters for it. */
  lemma HomeDecides(env: Env, disk: Log, k: Key)
    requires 0 < env.segments == |disk| && Homed(env, disk)
    ensures Restrict(AbsorbAll(map[], LogEntries(disk)), k) == Restrict(AbsorbAll(map[], AsEntries(disk[SegmentOf(env, k)])), k)
  {
    var own := AsEntries(disk[SegmentOf(env, k)]);
    LogIsConcat(disk);
    ConcatInterleaves(Streams(disk));
    HomedStreams(env, disk, k);
    InterleavingProjects(LogEntries(disk), Streams(disk), k, SegmentOf(env, k));
    AbsorbProjects(map[], LogEntries(disk), k);
    AbsorbProjects(map[], own, k);
  }

  /** A logged record as a restart restores it: without its node id. */
  function Restored(env: Env, r: Request): Value {
    WithHash(env.xx, r.key, Bare(r))
  }

  /** The snapshot's record stands: nothing logged for the key outranks it once restored. */
  ghost predicate SnapshotStands(env: Env, s: State, k: Key)
    requires 0 < env.segments == |s.disk|
  {
    k in s.snap && forall i: nat :: IsTop(s.disk[SegmentOf(env, k)], k, i) ==>
      !LwwWins(s.snap[k], Restored(env, s.disk[SegmentOf(env, k)][i]))
  }

  /**
    * The recovered record of a key: the snapshot's if it stands, otherwise the first logged one with the newest logged
    * timestamp, without its node id.
    */
  lemma RecoveredRecord(env: Env, s: State, k: Key)
    requires Shape(env, s) && Homed(env, s.disk)
    ensures var m, log := Recovered(env, s), s.disk[SegmentOf(env, k)];
            && (k in m <==> k in s.snap || HasTop(log, k))
            && (SnapshotStands(env, s, k) ==> m[k] == s.snap[k])
            && (!SnapshotStands(env, s, k) ==> forall i: nat :: IsTop(log, k, i) ==> m[k] == Restored(env, log[i]))
  {
    var log := s.disk[SegmentOf(env, k)];
    var up := AbsorbAll(map[], LogEntries(s.disk));
    TopAbsorbed(env, s.disk, k);
    if HasTop(log, k) {
      var i: nat :| IsTop(log, k, i);
      OnlyTop(log, k, i);
      RebuiltAt(env.xx, s.snap, up, k);
    }
  }

  lemma TopAbsorbed(env: Env, disk: Log, k: Key)
    requires 0 < env.segments == |disk| && Homed(env, disk)
    ensures var up, log := AbsorbAll(map[], LogEntries(disk)), disk[SegmentOf(env, k)];
            (k in up <==> HasTop(log, k)) && forall i: nat :: IsTop(log, k, i) ==> k in up && up[k] == Bare(log[i])
  {
    var log := disk[SegmentOf(env, k)];
    HomeDecides(env, disk, k);
    SameRestriction(AbsorbAll(map[], LogEntries(disk)), AbsorbAll(map[], AsEntries(log)), k);
    AbsorbKeepsTop(log, k);
  }

  lemma RebuiltAt(xx: Hash, snap: Replica, up: Results, k: Key)
    requires k in up
    ensures var v := WithHash(xx, k, up[k]);
            k in Rebuilt(xx, snap, up)
            && Rebuilt(xx, snap, up)[k] == if k in snap && !LwwWins(snap[k], v) then snap[k] else v
  {
  }

  lemma SameRestriction(a: Results, b: Results, k: Key)
    requires Restrict(a, k) == Restrict(b, k)
    ensures (k in a <==> k in b) && (k in a ==> a[k] == b[k])
  {
    assert k in a <==> k in Restrict(a, k);
    assert k in b <==> k in Restrict(b, k);
  }

  // ------------------------------------------------------------------ every value is a write, with or without its node id

  ghost predicate IsCopy(env: Env, v: Value, r: Request) {
    v == Stored(env, r) || v == Restored(env, r)
  }

  ghost predicate Copies(env: Env, m: Replica, applied: set<Request>) {
    forall k :: k in m ==> exists r <- applied :: r.key == k && IsCopy(env, m[k], r)
  }

  ghost predicate Traced(env: Env, s: State) {
    Copies(env, s.mem, s.applied) && Copies(env, s.snap, s.applied) && (s.phase.Encoding? ==> Copies(env, s.phase.tmp, s.applied))
  }

  lemma MoreCopies(env: Env, m: Replica, a: set<Request>, b: set<Request>)
    requires Copies(env, m, a) && a <= b
    ensures Copies(env, m, b)
  {
    forall k | k in m ensures exists r <- b :: r.key == k && IsCopy(env, m[k], r) {
      var r :| r in a && r.key == k && IsCopy(env, m[k], r);
      assert r in b;
    }
  }

  lemma InsertCopies(env: Env, m: Replica, a: set<Request>, v: Value, req: Request)
    requires Copies(env, m, a) && req in a && IsCopy(env, v, req)
    ensures Copies(env, m[req.key := v], a)
  {
  }

  lemma ApplyCopies(env: Env, m: Replica, a: set<Request>, req: Request)
    requires Copies(env, m, a)
    ensures Copies(env, Merge(m, req.key, Stored(env, req)), a + {req})
  {
    MoreCopies(env, m, a, a + {req});
    InsertCopies(env, m, a + {req}, Stored(env, req), req);
  }

  /** A recovered record is the snapshot's or a logged one restored. */
  lemma RecoveredFrom(env: Env, s: State, k: Key)
    requires Shape(env, s) && Homed(env, s.disk) && k in Recovered(env, s)
    ensures var v := Recovered(env, s)[k];
            || (k in s.snap && v == s.snap[k])
            || exists r <- s.disk[SegmentOf(env, k)] :: r.key == k && v == Restored(env, r)
  {
    RecoveredRecord(env, s, k);
    var log := s.disk[SegmentOf(env, k)];
    if !SnapshotStands(env, s, k) && HasTop(log, k) {
      var i: nat :| IsTop(log, k, i);
      assert log[i] in log;
    }
  }

  lemma RecoveredCopies(env: Env, s: State)
    requires Shape(env, s) && Homed(env, s.disk) && Copies(env, s.snap, s.applied) && Records(s.disk) <= s.applied
    ensures Copies(env, Recovered(env, s), s.applied)
  {
    var m := Recovered(env, s);
    forall k | k in m ensures exists r <- s.applied :: r.key == k && IsCopy(env, m[k], r) {
      RecoveredFrom(env, s, k);
      if !(k in s.snap && m[k] == s.snap[k]) {
        var i := SegmentOf(env, k);
        var r :| r in s.disk[i] && r.key == k && m[k] == Restored(env, r);
        assert r in Records(s.disk) && IsCopy(env, m[k], r);
      }
    }
  }

  lemma TracedStep(env: Env, s: State, a: Action)
    requires Inv(env, s) && Traced(env, s)
    ensures Traced(env, Next(env, s, a))
  {
    match a
    case Apply(req) =>
      ApplyCopies(env, s.mem, s.applied, req);
      MoreCopies(env, s.snap, s.applied, s.applied + {req});
      if s.phase.Encoding? { MoreCopies(env, s.phase.tmp, s.applied, s.applied + {req}); }
    case CrashAndRecover =>
      assert Records(s.disk) <= Outstanding(s);
      RecoveredCopies(env, s);
    case _ =>
  }

  lemma {:induction false} RunTraced(env: Env, s: State, actions: seq<Action>)
    requires Inv(env, s) && Guarded(env, s, actions) && Traced(env, s)
    ensures Traced(env, Run(env, s, actions))
    decreases actions
  {
    if actions != [] {
      NextInv(env, s, actions[0]);
      TracedStep(env, s, actions[0]);
      RunTraced(env, Next(env, s, actions[0]), actions[1..]);
    }
  }

  /** A guarded run from the start: everything the theorems below need of its last state. */
  lemma AfterRun(env: Env, actions: seq<Action>)
    requires env.segments > 0 && Guarded(env, Init(env), actions)
    ensures var s := Run(env, Init(env), actions); Inv(env, s) && Traced(env, s) && Hashed(env, s)
  {
    InitInv(env);
    RunInv(env, Init(env), actions);
    RunTraced(env, Init(env), actions);
    RunHashed(env, Init(env), actions);
  }

  // ------------------------------------------------------------------ when the record itself comes back

  lemma RestoredIsStoredIff(env: Env, r: Request)
    ensures Restored(env, r) == Stored(env, r) <==> r.nodeId == []
  {
  }

  /** A logged record never outranks the same write with its node id. */
  lemma RestoredNeverOutranks(env: Env, r: Request)
    ensures !LwwWins(Stored(env, r), Restored(env, r))
  {
    LwwTrichotomy(Stored(env, r), Stored(env, r));
    if r.nodeId == [] { RestoredIsStoredIff(env, r); }
  }

  /** `r` is flushed and newer than every other write of its key. */
  ghost predicate NewestFlushed(s: State, r: Request) {
    r in s.flushed && forall q <- s.applied :: q.key == r.key ==> q.timestamp < r.timestamp || q == r
  }

  /** What can come back of the newest write, told from the snapshot and the log alone. */
  lemma NewestCandidates(env: Env, s: State, r: Request)
    requires Shape(env, s) && Homed(env, s.disk) && Copies(env, s.snap, s.applied) && Records(s.disk) <= s.applied
    requires Covers(Recovered(env, s), r.key, r.timestamp)
    requires forall q <- s.applied :: q.key == r.key ==> q.timestamp < r.timestamp || q == r
    ensures var v := Recovered(env, s)[r.key];
            && IsCopy(env, v, r)
            && (v == Restored(env, r) || (r.key in s.snap && v == s.snap[r.key]))
            && (r.key in s.snap && s.snap[r.key] == Stored(env, r) ==> v == s.snap[r.key])
  {
    var k, v := r.key, Recovered(env, s)[r.key];
    RecoveredCopies(env, s);
    var q :| q in s.applied && q.key == k && IsCopy(env, v, q);
    CopyTime(env, v, q);
    assert q == r;
    RecoveredRecord(env, s, k);
    if !SnapshotStands(env, s, k) {
      var log := s.disk[SegmentOf(env, k)];
      var i: nat :| IsTop(log, k, i);
      LoggedIsNewest(env, s, r, i);
      RestoredNeverOutranks(env, r);
      OnlyTop(log, k, i);
    }
  }

  lemma CopyTime(env: Env, v: Value, r: Request)
    requires IsCopy(env, v, r)
    ensures v.timestamp == r.timestamp && SameRecord(v, r)
  {
  }

  lemma LoggedIsNewest(env: Env, s: State, r: Request, i: nat)
    requires Shape(env, s) && Homed(env, s.disk) && Records(s.disk) <= s.applied
    requires forall q <- s.applied :: q.key == r.key ==> q.timestamp < r.timestamp || q == r
    requires IsTop(s.disk[SegmentOf(env, r.key)], r.key, i) && !SnapshotStands(env, s, r.key)
    requires Covers(Recovered(env, s), r.key, r.timestamp)
    ensures s.disk[SegmentOf(env, r.key)][i] == r
  {
    var log := s.disk[SegmentOf(env, r.key)];
    RecoveredRecord(env, s, r.key);
    assert log[i] in log && log[i] in Records(s.disk);
    CopyTime(env, Restored(env, log[i]), log[i]);
  }

  lemma FlushedCovered(env: Env, s: State, r: Request)
    requires Inv(env, s) && r in s.flushed
    ensures Covers(Recovered(env, s), r.key, r.timestamp) && Records(s.disk) <= s.applied
  {
    assert Durable(env, s.snap, s.disk, r.key, r.timestamp);
    DurableIsRecovered(env, s, r.key, r.timestamp);
    assert Records(s.disk) <= Outstanding(s);
  }

  /**
    * The newest write of a key, once flushed, comes back as it was stored exactly when it has no node id or the
    * snapshot holds it: a restart strips the node id, and with it the rank, from everything it takes from the log.
    */
  lemma NewestRestoredIff(env: Env, actions: seq<Action>, r: Request)
    requires env.segments > 0 && Guarded(env, Init(env), actions) && NewestFlushed(Run(env, Init(env), actions), r)
    ensures var s := Run(env, Init(env), actions);
            var m := Recovered(env, s);
            && r.key in m && SameRecord(m[r.key], r)
            && (m[r.key] == Stored(env, r) <==> r.nodeId == [] || (r.key in s.snap && s.snap[r.key] == Stored(env, r)))
  {
    AfterRun(env, actions);
    var s := Run(env, Init(env), actions);
    FlushedCovered(env, s, r);
    NewestCandidates(env, s, r);
    CopyTime(env, Recovered(env, s)[r.key], r);
    RestoredIsStoredIff(env, r);
  }

  /** Same payload, timestamp and kind. */
  predicate SamePayload(u: Value, v: Value) {
    u.data == v.data && u.timestamp == v.timestamp && u.tombstone == v.tombstone
  }

  lemma HashedEqual(xx: Hash, k: Key, u: Value, v: Value)
    requires IsHashed(xx, k, u) && IsHashed(xx, k, v) && SamePayload(u, v) && u.nodeId == v.nodeId
    ensures u == v
  {
  }

  lemma RestoredEqualIff(env: Env, v: Value, r: Request)
    requires IsHashed(env.xx, r.key, v)
    ensures SamePayload(Restored(env, r), v) <==> SameRecord(v, r)
    ensures Restored(env, r) == v <==> SameRecord(v, r) && v.nodeId == []
  {
    if SameRecord(v, r) && v.nodeId == [] { HashedEqual(env.xx, r.key, Restored(env, r), v); }
  }

  /**
    * Memory's record of a key comes back, in contents or with its rank, exactly when the record that decides recovery
    * has it: the snapshot's where it stands, otherwise the first logged one with the newest logged timestamp, which
    * moreover restores ranks only of records without a node id.
    */
  lemma MemoryRestoredIff(env: Env, actions: seq<Action>, k: Key)
    requires env.segments > 0
    requires var s := Run(env, Init(env), actions); k in s.mem && k in Recovered(env, s)
    ensures var s := Run(env, Init(env), actions);
            var v, m, log := Recovered(env, s)[k], s.mem[k], s.disk[SegmentOf(env, k)];
            if SnapshotStands(env, s, k) then v == s.snap[k]
            else
              && HasTop(log, k)
              && (SamePayload(v, m) <==> exists i: nat :: IsTop(log, k, i) && SameRecord(m, log[i]))
              && (v == m <==> m.nodeId == [] && exists i: nat :: IsTop(log, k, i) && SameRecord(m, log[i]))
  {
    RunHomed(env, Init(env), actions);
    RunHashed(env, Init(env), actions);
    var s := Run(env, Init(env), actions);
    RecoveredRecord(env, s, k);
    if !SnapshotStands(env, s, k) {
      var log := s.disk[SegmentOf(env, k)];
      StandsAlone(env, s, k);
      var i: nat :| IsTop(log, k, i);
      OnlyTop(log, k, i);
      RestoredEqualIff(env, s.mem[k], log[i]);
    }
  }

  lemma StandsAlone(env: Env, s: State, k: Key)
    requires Shape(env, s) && Homed(env, s.disk) && k in Recovered(env, s) && !SnapshotStands(env, s, k)
    ensures HasTop(s.disk[SegmentOf(env, k)], k)
  {
    RecoveredRecord(env, s, k);
  }

  /**
    * With everything logged and flushed every key of memory comes back with its timestamp, from the snapshot where its
    * record stands; otherwise with memory's contents exactly when the first logged record carrying memory's timestamp is
    * the one memory kept, and with its rank if that has no node id.
    */
  lemma QuiescentRestoredIff(env: Env, actions: seq<Action>, k: Key)
    requires env.segments > 0 && Guarded(env, Init(env), actions)
    requires var s := Run(env, Init(env), actions);
             && s.pending == multiset{} && (forall i :: 0 <= i < |s.buffers| ==> s.buffers[i] == [])
             && k in s.mem
    ensures var s := Run(env, Init(env), actions);
            var m, log := s.mem[k], s.disk[SegmentOf(env, k)];
            && k in Recovered(env, s) && Recovered(env, s)[k].timestamp == m.timestamp
            && if SnapshotStands(env, s, k) then Recovered(env, s)[k] == s.snap[k]
               else exists i: nat ::
                 && IsTop(log, k, i) && log[i].timestamp == m.timestamp
                 && (SamePayload(Recovered(env, s)[k], m) <==> SameRecord(m, log[i]))
                 && (Recovered(env, s)[k] == m <==> SameRecord(m, log[i]) && m.nodeId == [])
  {
    AfterRun(env, actions);
    QuiescentRecoveryIsCurrent(env, actions);
    var s := Run(env, Init(env), actions);
    RecoveredRecord(env, s, k);
    if !SnapshotStands(env, s, k) {
      var log := s.disk[SegmentOf(env, k)];
      StandsAlone(env, s, k);
      var i: nat :| IsTop(log, k, i);
      RestoredEqualIff(env, s.mem[k], log[i]);
      CopyTime(env, Restored(env, log[i]), log[i]);
    }
  }

  /** The snapshot's record stands and ranks as high as the write, or the deciding logged record does once restored. */
  ghost predicate RankBack(env: Env, s: State, r: Request)
    requires 0 < env.segments == |s.disk|
  {
    if SnapshotStands(env, s, r.key) then AtLeast(s.snap[r.key], Stored(env, r))
    else exists i: nat :: IsTop(s.disk[SegmentOf(env, r.key)], r.key, i)
                          && RankSurvives(env, s.disk[SegmentOf(env, r.key)][i], r)
  }

  /** That record is newer, or as new while the write has no node id and no larger item hash. */
  predicate RankSurvives(env: Env, top: Request, r: Request) {
    || top.timestamp > r.timestamp
    || (top.timestamp == r.timestamp && r.nodeId == [] && Restored(env, top).itemHash >= Stored(env, r).itemHash)
  }

  lemma RankSurvivesIff(env: Env, top: Request, r: Request)
    ensures AtLeast(Restored(env, top), Stored(env, r)) <==> RankSurvives(env, top, r)
  {
  }

  /** After any run, and for any write, flushed or not: a restart comes back with its rank or a higher one exactly then. */
  lemma RankBackIff(env: Env, actions: seq<Action>, r: Request)
    requires env.segments > 0
    ensures var s := Run(env, Init(env), actions);
            var m := Recovered(env, s);
            r.key in m && AtLeast(m[r.key], Stored(env, r)) <==> RankBack(env, s, r)
  {
    RunHomed(env, Init(env), actions);
    var s := Run(env, Init(env), actions);
    RecoveredRecord(env, s, r.key);
    var log := s.disk[SegmentOf(env, r.key)];
    if !SnapshotStands(env, s, r.key) && HasTop(log, r.key) {
      var i: nat :| IsTop(log, r.key, i);
      OnlyTop(log, r.key, i);
      RankSurvivesIff(env, log[i], r);
    }
  }

  /** By timestamp recovery covers every flushed write; by rank exactly under that condition. */
  lemma RankKeptIff(env: Env, actions: seq<Action>, r: Request)
    requires env.segments > 0 && Guarded(env, Init(env), actions) && r in Run(env, Init(env), actions).flushed
    ensures var s := Run(env, Init(env), actions);
            var m := Recovered(env, s);
            Covers(m, r.key, r.timestamp) && (AtLeast(m[r.key], Stored(env, r)) <==> RankBack(env, s, r))
  {
    AfterRun(env, actions);
    FlushedCovered(env, Run(env, Init(env), actions), r);
    RankBackIff(env, actions, r);
  }

  // ------------------------------------------------------------------ the failing family

  /**
    * Two writes of one key with one timestamp, the second outranking the first: both are applied, logged in order and
    * flushed. Memory holds the second, a restart brings back the first.
    */
  lemma TieBringsBackOutranked(xx: Hash, r1: Request, r2: Request)
    requires r1.key == r2.key && r1.timestamp == r2.timestamp
    requires LwwWins(Stored(Env(xx, 1), r1), Stored(Env(xx, 1), r2))
    ensures exists s :: Outranked(Env(xx, 1), s, r1, r2)
  {
    var env, k := Env(xx, 1), r1.key;
    LwwTrichotomy(Stored(env, r1), Stored(env, r1));
    assert r1 != r2;
    var s0 := Init(env);
    assert Run(env, s0, []) == s0;
    var s1 := State(map[k := Stored(env, r1)], multiset{r1}, [[]], [[]], map[], Idle, {r1}, {});
    assert DoApply(env, s0, r1) == s1 by {
      assert s0.disk == [[]] && s0.buffers == [[]];
      assert s0.mem[k := Stored(env, r1)] == s1.mem;
    }
    ReachNext(env, s0, Apply(r1));
    var t := TieApplied(env, s1, r1, r2);
  }

  lemma TieApplied(env: Env, s: State, r1: Request, r2: Request) returns (t: State)
    requires Reachable(env, s) && env.segments == 1 && r1 != r2 && r1.key == r2.key && r1.timestamp == r2.timestamp
    requires LwwWins(Stored(env, r1), Stored(env, r2))
    requires s == State(map[r1.key := Stored(env, r1)], multiset{r1}, [[]], [[]], map[], Idle, {r1}, {})
    ensures Outranked(env, t, r1, r2)
  {
    var k := r1.key;
    var a := s.(mem := map[k := Stored(env, r2)], pending := multiset{r1, r2}, applied := {r1, r2});
    MergeReplaces(k, Stored(env, r1), Stored(env, r2));
    assert DoApply(env, s, r2) == a;
    ReachNext(env, s, Apply(r2));
    t := TieLogged(env, a, r1, r2);
  }

  lemma MergeReplaces(k: Key, u: Value, v: Value)
    requires LwwWins(u, v)
    ensures Merge(map[k := u], k, v) == map[k := v] != map[k := u]
  {
    LwwTrichotomy(u, u);
    assert map[k := u][k := v] == map[k := v];
    assert map[k := u][k] != map[k := v][k];
  }

  lemma TieLogged(env: Env, s: State, r1: Request, r2: Request) returns (t: State)
    requires Reachable(env, s) && env.segments == 1 && r1 != r2 && r1.key == r2.key && r1.timestamp == r2.timestamp
    requires s == State(map[r1.key := Stored(env, r2)], multiset{r1, r2}, [[]], [[]], map[], Idle, {r1, r2}, {})
    ensures Outranked(env, t, r1, r2)
  {
    var a := s.(pending := multiset{r2}, buffers := [[r1]]);
    assert DoPublish(env, s, r1) == a by {
      assert s.pending - multiset{r1} == multiset{r2} && s.buffers[0] + [r1] == [r1];
    }
    ReachNext(env, s, Publish(r1));
    t := TiePublished(env, a, r1, r2);
  }

  lemma TiePublished(env: Env, s: State, r1: Request, r2: Request) returns (t: State)
    requires Reachable(env, s) && env.segments == 1 && r1 != r2 && r1.key == r2.key && r1.timestamp == r2.timestamp
    requires s == State(map[r1.key := Stored(env, r2)], multiset{r2}, [[]], [[r1]], map[], Idle, {r1, r2}, {})
    ensures Outranked(env, t, r1, r2)
  {
    var a := s.(pending := multiset{}, buffers := [[r1, r2]]);
    assert DoPublish(env, s, r2) == a by {
      assert s.pending - multiset{r2} == multiset{} && s.buffers[0] + [r2] == [r1, r2];
    }
    ReachNext(env, s, Publish(r2));
    t := TieFlushed(env, a, r1, r2);
  }

  lemma FlushOnly(s: State, rs: seq<Request>)
    requires s.disk == [[]] && s.buffers == [rs] && s.flushed == {}
    ensures FlushSegment(s, 0) == s.(disk := [rs], buffers := [[]], flushed := Elements(rs))
  {
    assert s.disk[0] + s.buffers[0] == rs;
  }

  lemma TieFlushed(env: Env, s: State, r1: Request, r2: Request) returns (t: State)
    requires Reachable(env, s) && env.segments == 1 && r1.key == r2.key && r1.timestamp == r2.timestamp
    requires s == State(map[r1.key := Stored(env, r2)], multiset{}, [[]], [[r1, r2]], map[], Idle, {r1, r2}, {})
    ensures Outranked(env, t, r1, r2)
  {
    var a := s.(disk := [[r1, r2]], buffers := [[]], flushed := {r1, r2});
    FlushOnly(s, [r1, r2]);
    assert Elements([r1, r2]) == {r1, r2};
    ReachNext(env, s, Flush(0));
    TieRecovered(env, a, r1, r2);
    t := a;
  }

  ghost predicate Outranked(env: Env, s: State, r1: Request, r2: Request) {
    && Reachable(env, s) && {r1, r2} <= s.flushed
    && r1.key in s.mem && s.mem[r1.key] == Stored(env, r2)
    && r1.key in Recovered(env, s) && Recovered(env, s)[r1.key] == Restored(env, r1)
  }

  lemma TieRecovered(env: Env, s: State, r1: Request, r2: Request)
    requires Reachable(env, s) && env.segments == 1 && r1.key == r2.key && r1.timestamp == r2.timestamp
    requires s.disk == [[r1, r2]] && s.snap == map[] && s.flushed == {r1, r2} && s.mem == map[r1.key := Stored(env, r2)]
    ensures Outranked(env, s, r1, r2)
  {
    var k := r1.key;
    assert Shape(env, s) by { ReachNext(env, s, Abort); }
    assert IsTop(s.disk[SegmentOf(env, k)], k, 0);
    RecoveredRecord(env, s, k);
  }
}

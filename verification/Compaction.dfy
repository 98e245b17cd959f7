/** What a snapshot is for: it takes over from the log (Create in core/snap/snapshot.go, ClearPrefixes in core/wal/wal.go). */
module Compaction {
  import opened Bytes
  import opened Kv
  import opened Lww
  import opened DigestTree
  import opened Wal
  import opened Recovery
  import opened Crash

  // ------------------------------------------------------------------ the machine's steps on the segment files

  lemma PayloadOf(c: Codec, req: Request)
    ensures Encoded(c, [req]) == Frame(c.encode(req))
  {
    assert Payloads(c, [req]) == [c.encode(req)];
    assert [c.encode(req)][1..] == [] && Frames([]) == [];
  }

  /** Publishing appends one frame to the buffer of the key's segment and touches no file. */
  lemma PublishBytes(env: Env, s: State, c: Codec, req: Request, i: nat)
    requires Shape(env, s) && req in s.pending && i < env.segments
    ensures var t := DoPublish(env, s, req);
            && Files(c, t.disk) == Files(c, s.disk)
            && Files(c, t.buffers)[i]
               == Files(c, s.buffers)[i] + if env.xx(req.key) % env.segments == i then Frame(c.encode(req)) else []
  {
    EncodedAppend(c, s.buffers[i], [req]);
    PayloadOf(c, req);
  }

  /** A flush moves the buffer's bytes to the end of the file. */
  lemma FlushBytes(env: Env, s: State, c: Codec, i: nat)
    requires Shape(env, s) && i < env.segments
    ensures var t := FlushSegment(s, i);
            && Files(c, t.disk) == Files(c, s.disk)[i := Files(c, s.disk)[i] + Files(c, s.buffers)[i]]
            && Files(c, t.buffers) == Files(c, s.buffers)[i := []]
  {
    EncodedAppend(c, s.disk[i], s.buffers[i]);
    assert Encoded(c, []) == [] by { assert Payloads(c, []) == []; }
  }

  /** Preparing a segment flushes it; the offset taken stands for all the bytes of its file. */
  lemma PrepareBytes(env: Env, s: State, c: Codec)
    requires Shape(env, s) && s.phase.Preparing?
    ensures var t, i := DoPrepare(env, s), |s.phase.offsets|;
            && Files(c, t.disk) == Files(c, s.disk)[i := Files(c, s.disk)[i] + Files(c, s.buffers)[i]]
            && i < |t.phase.offsets| && |Encoded(c, t.disk[i][..t.phase.offsets[i]])| == |Files(c, t.disk)[i]|
  {
    var t, i := DoPrepare(env, s), |s.phase.offsets|;
    FlushBytes(env, s, c, i);
    assert t.disk[i][..|t.disk[i]|] == t.disk[i];
  }

  /** Clearing a segment does to its file what clearSegment does: flush, then cut at the recorded byte offset. */
  lemma ClearBytes(env: Env, s: State, c: Codec)
    requires Shape(env, s) && s.phase.Clearing?
    ensures var t, i := DoClear(env, s), s.phase.next;
            && Files(c, t.disk)[i]
               == Cleared(Encoded(c, s.disk[i] + s.buffers[i]), |Encoded(c, s.disk[i][..s.phase.offsets[i]])|)
            && Files(c, t.buffers)[i] == []
            && forall j :: 0 <= j < env.segments && j != i ==>
                 Files(c, t.disk)[j] == Files(c, s.disk)[j] && Files(c, t.buffers)[j] == Files(c, s.buffers)[j]
  {
    var i, off := s.phase.next, s.phase.offsets[s.phase.next];
    var all := s.disk[i] + s.buffers[i];
    assert all[..off] == s.disk[i][..off];
    ClearRecords(c, all, off);
    assert ClearedRecords(all, off) == if off == 0 then [] else all[off..];
    assert Encoded(c, []) == [] by { assert Payloads(c, []) == []; }
  }

  // ------------------------------------------------------------------ a snapshot while nothing is written

  /** The steps of Create, and background flushes. */
  predicate Quiet(a: Action) {
    a.BeginSnapshot? || a.PrepareSegment? || a.StartShard? || a.EncodeKey? || a.Rename? || a.ClearSegment? || a.Flush?
  }

  /** The offset of segment `i` is its whole length, and nothing waits behind it. */
  ghost predicate Settled(disk: Log, buffers: Log, offs: seq<nat>, i: nat)
    requires i < |disk| == |buffers| && i < |offs|
  {
    offs[i] == |disk[i]| && buffers[i] == []
  }

  ghost predicate Empty(disk: Log, buffers: Log, i: nat)
    requires i < |disk| == |buffers|
  {
    disk[i] == [] && buffers[i] == []
  }

  /** Every key is encoded with memory's record, or still going to be. */
  ghost predicate Encodes(env: Env, mem: Replica, phase: Phase)
    requires phase.Encoding?
  {
    && (forall k :: k in phase.tmp ==> k in mem && phase.tmp[k] == mem[k])
    && (forall k :: k in phase.left ==> k in mem && k !in phase.tmp)
    && (forall k :: k in phase.left || k in phase.tmp ==> ShardOf(env.xx(k)) < phase.shard)
    && (forall k :: k in mem ==> k in phase.tmp || k in phase.left || ShardOf(env.xx(k)) >= phase.shard)
  }

  /** How far a snapshot of `mem` has got that began with nothing pending and met no write. */
  ghost predicate Underway(env: Env, s: State, mem: Replica) {
    && Shape(env, s) && s.mem == mem && s.pending == multiset{}
    && match s.phase
       case Idle => s.snap == mem && forall i :: 0 <= i < env.segments ==> Empty(s.disk, s.buffers, i)
       case Preparing(offs) => forall i :: 0 <= i < |offs| ==> Settled(s.disk, s.buffers, offs, i)
       case Encoding(offs, _, _, _) =>
         Encodes(env, mem, s.phase) && forall i :: 0 <= i < env.segments ==> Settled(s.disk, s.buffers, offs, i)
       case Clearing(offs, next) =>
         && s.snap == mem
         && (forall i :: 0 <= i < next ==> Empty(s.disk, s.buffers, i))
         && forall i :: next <= i < env.segments ==> Settled(s.disk, s.buffers, offs, i)
  }

  lemma FlushUnderway(env: Env, s: State, mem: Replica, i: nat)
    requires Underway(env, s, mem) && i < |s.disk|
    ensures Underway(env, FlushSegment(s, i), mem)
  {
    var t := FlushSegment(s, i);
    assert s.disk[i] + [] == s.disk[i];
    forall j, offs: seq<nat> | 0 <= j < env.segments && j < |offs| && Settled(s.disk, s.buffers, offs, j)
      ensures Settled(t.disk, t.buffers, offs, j)
    {}
    forall j | 0 <= j < env.segments && Empty(s.disk, s.buffers, j) ensures Empty(t.disk, t.buffers, j) {}
  }

  lemma PrepareUnderway(env: Env, s: State, mem: Replica)
    requires Underway(env, s, mem) && s.phase.Preparing?
    ensures Underway(env, DoPrepare(env, s), mem)
  {
    var t := DoPrepare(env, s);
    forall i | 0 <= i < |t.phase.offsets| ensures Settled(t.disk, t.buffers, t.phase.offsets, i) {
      if i < |s.phase.offsets| { assert Settled(s.disk, s.buffers, s.phase.offsets, i); }
    }
  }

  lemma RenameUnderway(env: Env, s: State, mem: Replica)
    requires Underway(env, s, mem) && s.phase.Encoding?
    ensures Underway(env, DoRename(s), mem)
  {
    var t := DoRename(s);
    if t != s { assert t.snap == mem; }
  }

  lemma ClearUnderway(env: Env, s: State, mem: Replica)
    requires Underway(env, s, mem) && s.phase.Clearing?
    ensures Underway(env, DoClear(env, s), mem)
  {
    var i, offs, t := s.phase.next, s.phase.offsets, DoClear(env, s);
    assert Settled(s.disk, s.buffers, offs, i);
    assert s.disk[i] + s.buffers[i] == s.disk[i];
    assert Empty(t.disk, t.buffers, i);
    forall j | 0 <= j < i ensures Empty(t.disk, t.buffers, j) { assert Empty(s.disk, s.buffers, j); }
    forall j | i < j < env.segments ensures Settled(t.disk, t.buffers, offs, j) { assert Settled(s.disk, s.buffers, offs, j); }
  }

  lemma QuietStep(env: Env, s: State, mem: Replica, a: Action)
    requires Underway(env, s, mem) && Quiet(a)
    ensures Underway(env, Next(env, s, a), mem)
  {
    match a
    case Flush(i) => if i < |s.disk| { FlushUnderway(env, s, mem, i); }
    case PrepareSegment => if s.phase.Preparing? { PrepareUnderway(env, s, mem); }
    case StartShard =>
    case EncodeKey(k) =>
    case Rename => if s.phase.Encoding? { RenameUnderway(env, s, mem); }
    case ClearSegment => if s.phase.Clearing? { ClearUnderway(env, s, mem); }
    case BeginSnapshot =>
  }

  /** No key is encoded twice, and none but memory's are. */
  lemma EncodedOnce(env: Env, s: State, mem: Replica, k: Key)
    requires Underway(env, s, mem) && s.phase.Encoding? && Next(env, s, EncodeKey(k)) != s
    ensures k in mem && k !in s.phase.tmp
    ensures Next(env, s, EncodeKey(k)).phase.tmp == s.phase.tmp[k := mem[k]]
  {
  }

  lemma {:induction false} QuietRun(env: Env, s: State, mem: Replica, actions: seq<Action>)
    requires Underway(env, s, mem) && forall a <- actions :: Quiet(a)
    ensures Underway(env, Run(env, s, actions), mem)
    decreases actions
  {
    if actions != [] {
      QuietStep(env, s, mem, actions[0]);
      QuietRun(env, Next(env, s, actions[0]), mem, actions[1..]);
    }
  }

  /** A snapshot has just begun and no write is on its way to the log. */
  ghost predicate Begun(env: Env, s: State) {
    Shape(env, s) && s.phase == Preparing([]) && s.pending == multiset{}
  }

  lemma {:induction false} NothingLogged(disk: Log)
    requires forall i :: 0 <= i < |disk| ==> disk[i] == []
    ensures LogEntries(disk) == []
  {
    if disk != [] {
      NothingLogged(disk[..|disk| - 1]);
      assert AsEntries(disk[|disk| - 1]) == [];
    }
  }

  /**
    * A snapshot that meets no write, however its steps are ordered and whatever flushes come between: once it is through,
    * the snapshot is memory, every segment is empty, and a restart would bring back memory as it is, ranks included.
    */
  lemma CreateTakesOver(env: Env, s: State, actions: seq<Action>)
    requires Begun(env, s) && forall a <- actions :: Quiet(a)
    ensures var t := Run(env, s, actions);
            t.phase.Idle? ==>
              && t.mem == s.mem && t.snap == s.mem
              && (forall i :: 0 <= i < env.segments ==> t.disk[i] == [] && t.buffers[i] == [])
              && Recovered(env, t) == s.mem
  {
    QuietRun(env, s, s.mem, actions);
    var t := Run(env, s, actions);
    if t.phase.Idle? {
      forall i | 0 <= i < env.segments ensures t.disk[i] == [] && t.buffers[i] == [] {
        assert Empty(t.disk, t.buffers, i);
      }
      NothingLogged(t.disk);
    }
  }

  // ------------------------------------------------------------------ and it can always be run through

  /** What Create does next. */
  ghost function NextStep(s: State): (a: Action)
    requires !s.phase.Idle?
    ensures Quiet(a)
  {
    match s.phase
    case Preparing(_) => PrepareSegment
    case Encoding(_, shard, left, _) =>
      if left != {} then var k :| k in left; EncodeKey(k) else if shard < SHARD_COUNT then StartShard else Rename
    case Clearing(_, _) => ClearSegment
  }

  ghost function Stage(s: State): nat {
    match s.phase case Idle => 0 case Clearing(_, _) => 1 case Encoding(_, _, _, _) => 2 case Preparing(_) => 3
  }

  ghost function StepsLeft(env: Env, s: State): nat
    requires Shape(env, s)
  {
    match s.phase
    case Idle => 0
    case Preparing(offs) => env.segments - |offs|
    case Encoding(_, shard, _, _) => SHARD_COUNT - shard
    case Clearing(_, next) => env.segments - next
  }

  ghost function KeysLeft(s: State): nat {
    if s.phase.Encoding? then |s.phase.left| else 0
  }

  lemma StepProgresses(env: Env, s: State, mem: Replica)
    requires Underway(env, s, mem) && !s.phase.Idle?
    ensures var t := Next(env, s, NextStep(s));
            && Shape(env, t)
            && (|| Stage(t) < Stage(s)
                || (Stage(t) == Stage(s) && StepsLeft(env, t) < StepsLeft(env, s))
                || (Stage(t) == Stage(s) && StepsLeft(env, t) == StepsLeft(env, s) && KeysLeft(t) < KeysLeft(s)))
  {
    NextShape(env, s, NextStep(s));
  }

  /** From every state on the way some run of its steps completes the snapshot. */
  lemma {:induction false} CreateCompletes(env: Env, s: State, mem: Replica) returns (actions: seq<Action>)
    requires Underway(env, s, mem)
    ensures (forall a <- actions :: Quiet(a)) && Run(env, s, actions).phase.Idle?
    decreases Stage(s), StepsLeft(env, s), KeysLeft(s)
  {
    if s.phase.Idle? {
      actions := [];
    } else {
      var a := NextStep(s);
      StepProgresses(env, s, mem);
      QuietStep(env, s, mem, a);
      var rest := CreateCompletes(env, Next(env, s, a), mem);
      actions := [a] + rest;
      assert actions[0] == a && actions[1..] == rest;
    }
  }
}

/** Replaying all segments and rebuilding memory (core/wal/wal.go Replay, core/engine.go recover). */
module Recovery {
  import opened Bytes
  import opened Kv
  import opened Lww
  import opened Wal
  import opened ShardedMap

  /** Replay results: at most one record per key, node ids dropped. */
  type Results = map<Key, Value>

  /** The record that `e` leaves in the results. */
  function Bare(req: Request): Value {
    ValueOf(req).(nodeId := [])
  }

  // ------------------------------------------------------------------ what the results contain

  lemma {:induction false} AbsorbCovers(m: Results, es: seq<Entry>)
    ensures forall k :: k in m ==> k in AbsorbAll(m, es) && AbsorbAll(m, es)[k].timestamp >= m[k].timestamp
    ensures forall e <- es :: e.Logged? ==>
              e.req.key in AbsorbAll(m, es) && AbsorbAll(m, es)[e.req.key].timestamp >= e.req.timestamp
  {
    if es != [] {
      AbsorbCovers(m, es[..|es| - 1]);
    }
  }

  lemma {:induction false} AbsorbSource(m: Results, es: seq<Entry>, k: Key)
    requires k in AbsorbAll(m, es)
    ensures (k in m && AbsorbAll(m, es)[k] == m[k])
            || exists e <- es :: e.Logged? && e.req.key == k && AbsorbAll(m, es)[k] == Bare(e.req)
  {
    if es != [] {
      var front, last := es[..|es| - 1], es[|es| - 1];
      assert last in es && forall e <- front :: e in es;
      if k in AbsorbAll(m, front) { AbsorbSource(m, front, k); }
    }
  }

  // ------------------------------------------------------------------ the replay schedule does not matter

  /** The entries of one key, in order. */
  function Project(es: seq<Entry>, k: Key): seq<Entry> {
    if es == [] then []
    else
      var front, last := Project(es[..|es| - 1], k), es[|es| - 1];
      if last.Logged? && last.req.key == k then front + [last] else front
  }

  function Restrict(m: Results, k: Key): Results {
    if k in m then map[k := m[k]] else map[]
  }

  /** The result for a key depends on that key's entries alone. */
  lemma {:induction false} AbsorbProjects(m: Results, es: seq<Entry>, k: Key)
    ensures Restrict(AbsorbAll(m, es), k) == AbsorbAll(Restrict(m, k), Project(es, k))
  {
    if es != [] {
      var front, last := es[..|es| - 1], es[|es| - 1];
      AbsorbProjects(m, front, k);
      AbsorbRestricts(AbsorbAll(m, front), last, k);
      if last.Logged? && last.req.key == k {
        assert (Project(front, k) + [last])[..|Project(front, k)|] == Project(front, k);
      }
    }
  }

  lemma AbsorbRestricts(m: Results, e: Entry, k: Key)
    ensures Restrict(Absorb(m, e), k) == if e.Logged? && e.req.key == k then Absorb(Restrict(m, k), e) else Restrict(m, k)
  {
  }

  /** `merged` is some interleaving of the segments' entry streams. */
  ghost predicate Interleaves(merged: seq<Entry>, segs: seq<seq<Entry>>)
    decreases |merged|
  {
    if merged == [] then forall i :: 0 <= i < |segs| ==> segs[i] == []
    else exists i :: 0 <= i < |segs| && DrawnFrom(merged, segs, i)
  }

  /** The last entry of `merged` is the last of segment `i`, and the rest interleaves the rest. */
  ghost predicate DrawnFrom(merged: seq<Entry>, segs: seq<seq<Entry>>, i: nat)
    requires i < |segs| && merged != []
    decreases |merged|, 0
  {
    && segs[i] != [] && segs[i][|segs[i]| - 1] == merged[|merged| - 1]
    && Interleaves(merged[..|merged| - 1], segs[i := segs[i][..|segs[i]| - 1]])
  }

  /** All entries of `k` sit in segment `j`. */
  ghost predicate HomedAt(segs: seq<seq<Entry>>, k: Key, j: nat) {
    j < |segs| && forall i :: 0 <= i < |segs| && i != j ==> Project(segs[i], k) == []
  }

  lemma {:induction false} InterleavingProjects(merged: seq<Entry>, segs: seq<seq<Entry>>, k: Key, j: nat)
    requires Interleaves(merged, segs) && HomedAt(segs, k, j)
    ensures Project(merged, k) == Project(segs[j], k)
    decreases |merged|
  {
    if merged == [] {
      assert segs[j] == [];
    } else {
      var i :| 0 <= i < |segs| && DrawnFrom(merged, segs, i);
      var rest := segs[i := segs[i][..|segs[i]| - 1]];
      forall n | 0 <= n < |rest| && n != j ensures Project(rest[n], k) == [] {
        assert Project(segs[n], k) == [];
      }
      InterleavingProjects(merged[..|merged| - 1], rest, k, j);
    }
  }

  /** Schedule independence: goroutines may interleave the segments any way they like. */
  lemma ReplaySchedules(merged: seq<Entry>, merged': seq<Entry>, segs: seq<seq<Entry>>, home: Key -> nat)
    requires Interleaves(merged, segs) && Interleaves(merged', segs)
    requires forall k :: HomedAt(segs, k, home(k))
    ensures AbsorbAll(map[], merged) == AbsorbAll(map[], merged')
  {
    var r, r' := AbsorbAll(map[], merged), AbsorbAll(map[], merged');
    forall k ensures Restrict(r, k) == Restrict(r', k) {
      InterleavingProjects(merged, segs, k, home(k));
      InterleavingProjects(merged', segs, k, home(k));
      AbsorbProjects(map[], merged, k);
      AbsorbProjects(map[], merged', k);
    }
    forall k ensures (k in r <==> k in r') && (k in r ==> r[k] == r'[k]) {
      assert Restrict(r, k) == Restrict(r', k);
      assert k in r <==> k in Restrict(r, k);
      assert k in r' <==> k in Restrict(r', k);
    }
  }

  function Concat(segs: seq<seq<Entry>>): seq<Entry> {
    if segs == [] then [] else Concat(segs[..|segs| - 1]) + segs[|segs| - 1]
  }

  lemma {:induction false} InterleavesWithEmpty(merged: seq<Entry>, segs: seq<seq<Entry>>)
    requires Interleaves(merged, segs)
    ensures Interleaves(merged, segs + [[]])
    decreases |merged|
  {
    if merged != [] {
      var i :| 0 <= i < |segs| && DrawnFrom(merged, segs, i);
      var cut := segs[i][..|segs[i]| - 1];
      InterleavesWithEmpty(merged[..|merged| - 1], segs[i := cut]);
      assert segs[i := cut] + [[]] == (segs + [[]])[i := cut];
      assert DrawnFrom(merged, segs + [[]], i);
    }
  }

  /** Segment after segment is one of the schedules. */
  lemma {:induction false} ConcatInterleaves(segs: seq<seq<Entry>>)
    ensures Interleaves(Concat(segs), segs)
    decreases |segs|, if segs == [] then 0 else |segs[|segs| - 1]|
  {
    if segs != [] {
      var n := |segs| - 1;
      var last := segs[n];
      if last == [] {
        ConcatInterleaves(segs[..n]);
        InterleavesWithEmpty(Concat(segs[..n]), segs[..n]);
        assert segs[..n] + [[]] == segs;
        assert Concat(segs) == Concat(segs[..n]);
      } else {
        var cut := segs[n := last[..|last| - 1]];
        ConcatInterleaves(cut);
        assert cut[..n] == segs[..n];
        var merged := Concat(segs);
        assert merged[..|merged| - 1] == Concat(cut);
        assert DrawnFrom(merged, segs, n);
      }
    }
  }

  // ------------------------------------------------------------------ rebuilding memory

  /** The entries of every segment, or None if any segment fails to replay. */
  function AllEntries(c: Codec, files: seq<ByteString>): Option<seq<seq<Entry>>> {
    if files == [] then Some([])
    else
      var rest, last := AllEntries(c, files[..|files| - 1]), Entries(c, files[|files| - 1]);
      if rest.None? || last.None? then None else Some(rest.value + [last.value])
  }

  lemma AllEntriesSnoc(c: Codec, files: seq<ByteString>, f: ByteString)
    requires AllEntries(c, files).Some? && Entries(c, f).Some?
    ensures AllEntries(c, files + [f]) == Some(AllEntries(c, files).value + [Entries(c, f).value])
    ensures Concat(AllEntries(c, files + [f]).value) == Concat(AllEntries(c, files).value) + Entries(c, f).value
  {
    assert (files + [f])[..|files|] == files;
    var before := AllEntries(c, files).value;
    assert (before + [Entries(c, f).value])[..|before|] == before;
  }

  /** Replay fails exactly when some file is torn or holds a payload that does not decode. */
  lemma {:induction false} AllEntriesIff(c: Codec, files: seq<ByteString>)
    ensures AllEntries(c, files).Some? <==> forall f <- files :: Readable(c, f)
  {
    if files != [] {
      var front, last := files[..|files| - 1], files[|files| - 1];
      AllEntriesIff(c, front);
      EntriesIff(c, last);
      assert files == front + [last];
    }
  }

  /** Snapshot entries stored one after the other. */
  function StoreAll(xx: Hash, es: seq<Write>): Replica {
    if es == [] then map[]
    else
      var last := es[|es| - 1];
      StoreAll(xx, es[..|es| - 1])[last.key := WithHash(xx, last.key, last.value)]
  }

  /** Memory after recovery: the snapshot, overruled by log records that outrank it. */
  function Rebuilt(xx: Hash, snap: Replica, updates: Results): Replica {
    map k | k in snap.Keys + updates.Keys ::
      if k in updates && (k !in snap || LwwWins(snap[k], WithHash(xx, k, updates[k]))) then WithHash(xx, k, updates[k])
      else snap[k]
  }

  lemma {:induction false} AbsorbAllAppend(m: Results, es: seq<Entry>, es': seq<Entry>)
    ensures AbsorbAll(m, es + es') == AbsorbAll(AbsorbAll(m, es), es')
  {
    if es' == [] {
      assert es + es' == es;
    } else {
      AbsorbAllAppend(m, es, es'[..|es'| - 1]);
      assert (es + es')[..|es + es'| - 1] == es + es'[..|es'| - 1];
    }
  }

  /** Replay of all segments, one after the other; every other schedule gives the same map. */
  method Replay(c: Codec, files: seq<ByteString>) returns (results: Results, ok: bool)
    ensures ok <==> forall f <- files :: Readable(c, f)
    ensures ok <==> AllEntries(c, files).Some?
    ensures ok ==> results == AbsorbAll(map[], Concat(AllEntries(c, files).value))
  {
    AllEntriesIff(c, files);
    results, ok := map[], true;
    for i := 0 to |files|
      invariant ok <==> AllEntries(c, files[..i]).Some?
      invariant ok ==> results == AbsorbAll(map[], Concat(AllEntries(c, files[..i]).value))
    {
      var more, fine := ReplaySegment(c, files[i], results);
      assert files[..i + 1][..i] == files[..i];
      if ok && fine {
        var before, last := AllEntries(c, files[..i]).value, Entries(c, files[i]).value;
        assert (before + [last])[..|before|] == before;
        AbsorbAllAppend(map[], Concat(before), last);
      }
      results, ok := more, ok && fine;
    }
    assert files[..|files|] == files;
  }

  /** Start-up: load the snapshot, then merge the replayed log; a log that fails to replay contributes nothing. */
  method Recover(hm: Map, entries: seq<Write>, c: Codec, files: seq<ByteString>) returns (ok: bool)
    requires hm.Valid() && hm.contents == map[]
    modifies hm, hm.shards
    ensures hm.Valid()
    ensures ok <==> forall f <- files :: Readable(c, f)
    ensures ok <==> AllEntries(c, files).Some?
    ensures ok ==> hm.contents == Rebuilt(hm.xx, StoreAll(hm.xx, entries), AbsorbAll(map[], Concat(AllEntries(c, files).value)))
    ensures !ok ==> hm.contents == StoreAll(hm.xx, entries)
  {
    LoadSnapshot(hm, entries);
    var updates: Results;
    updates, ok := Replay(c, files);
    if ok { MergeUpdates(hm, updates); }
  }

  method LoadSnapshot(hm: Map, entries: seq<Write>)
    requires hm.Valid() && hm.contents == map[]
    modifies hm, hm.shards
    ensures hm.Valid() && hm.contents == StoreAll(hm.xx, entries)
  {
    for i := 0 to |entries|
      invariant hm.Valid() && hm.contents == StoreAll(hm.xx, entries[..i])
    {
      assert entries[..i + 1][..i] == entries[..i];
      hm.Store(entries[i].key, hm.xx(entries[i].key), entries[i].value);
    }
    assert entries[..|entries|] == entries;
  }

  /** The replayed records, merged by rank in any order. */
  method MergeUpdates(hm: Map, updates: Results)
    requires hm.Valid()
    modifies hm, hm.shards
    ensures hm.Valid() && hm.contents == Rebuilt(hm.xx, old(hm.contents), updates)
  {
    ghost var snap := hm.contents;
    var todo, done := updates.Keys, {};
    assert Rebuilt(hm.xx, snap, map[]) == snap;
    assert Part(updates, done) == map[];
    while todo != {}
      invariant hm.Valid() && todo !! done && todo + done == updates.Keys
      invariant hm.contents == Rebuilt(hm.xx, snap, Part(updates, done))
      decreases todo
    {
      var k :| k in todo;
      RebuiltStep(hm.xx, snap, updates, done, k);
      var _ := hm.StoreLWW(k, hm.xx(k), updates[k]);
      todo, done := todo - {k}, done + {k};
    }
    assert Part(updates, done) == updates;
  }

  function Part(updates: Results, ks: set<Key>): Results {
    map k | k in updates && k in ks :: updates[k]
  }

  lemma RebuiltStep(xx: Hash, snap: Replica, updates: Results, done: set<Key>, k: Key)
    requires done <= updates.Keys && k in updates && k !in done
    ensures Merge(Rebuilt(xx, snap, Part(updates, done)), k, WithHash(xx, k, updates[k]))
            == Rebuilt(xx, snap, Part(updates, done + {k}))
  {
  }
}

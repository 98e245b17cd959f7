# Oryx: a verified model of its replicated key-value core

Oryx is an always-available replicated key-value store. Writes carry hybrid-logical-clock timestamps and are merged
by last-write-wins; every node indexes its data in XOR digest trees so that two nodes can find out cheaply where they
differ; a segmented write-ahead log and snapshots make data survive a crash; a consistent hash ring decides which
nodes own a key; an LRU list bounds memory; a RESP server takes commands. This project models that core in Dafny and
proves what it is for.

| module | models |
|---|---|
| `Bytes`, `Words`, `Mix`, `Digits` | bytes, 64-bit words with XOR, the count mixer, decimal numbers |
| `Kv`, `Ties`, `Lww` | records, ranks, what goes into an item hash and when two tie, last-write-wins merging and its convergence |
| `DigestTree`, `ShardedMap` | the digests as functions of the contents, and the map that maintains them incrementally |
| `Clock`, `Causality` | the hybrid logical clock under any compare-and-swap interleaving, and causal order across nodes |
| `Writer`, `Engine` | applying a write, and the single-node engine |
| `Entropy`, `Refresh`, `Ownership` | anti-entropy: digests out, mismatching entries back, both directions; differences the digests cannot see; whom it serves |
| `Wal`, `Recovery`, `Crash`, `Compaction`, `Restart` | log framing, replay, the machine of writes, snapshot steps and crashes, what a snapshot does to the log, and what exactly a restart brings back |
| `RingOrder`, `RingWalk`, `Placement`, `Rings` | owner order on the hash circle, the walk over virtual nodes, the ring and its shared array pool |
| `Recency`, `Eviction`, `Lru` | the recency list, the messages about discarded entries, and the linked list with hash index that implements both |
| `Parsing`, `Resp`, `Grammar` | RESP framing: the parser, and the frames it accepts said without it |
| `Reads`, `Replication` | replicated writes and proxied reads |

Hash functions are parameters (xxhash `xx`, the truncated SHA-256 `sha`, the fingerprint `fp` that mixes entry counts
into digests), so the theorems hold for every hash; freedom from collisions is assumed only where a statement says so,
and the exact condition is then proved beside it.
Words and timestamps are integers with their 64-bit and 32-bit bounds and wrap-around written out. Wall-clock samples,
random jitter, network replies, the order in which a pool or an iterator hands things out, and the schedule of
goroutines are arguments, so statements hold for all of them.

## Where properties fail, and exactly when they hold

- Digests are XORs of item hashes, and an item hash is an XOR of key, timestamp, node id and payload terms, so timestamp
  differences of two keys can cancel, whatever the hash and wherever the keys live. `Refresh.MissedRefreshesHidden`: a
  node that missed the refreshes of two keys from an even millisecond to the next one is behind on both, and every pull
  returns nothing. `Refresh.MissedRefreshesSeenIff` is the exact condition for two refreshes, `Refresh.OneRefreshSeen`
  shows that a single one is always seen, and `Entropy.ExchangeCatchesUpIff` and `Entropy.SyncBothWays` say for all
  states exactly when an exchange and a round each way reach what they are for. That no rank ever drops needs no condition.
- A segment whose recorded offset is 0 is truncated completely when the snapshot is published, even if records
  reached it in between. `Crash.ClearAtZeroLosesWrites` reaches such a state from the start and loses a flushed write;
  `Crash.ClearKeepsDurableIff` says exactly when clearing a segment loses nothing; `Crash.CrashSafetyIff` says that no
  crash at any moment of a run loses a flushed write exactly when all clearing steps of the run meet that condition.
- Replay compares timestamps only, keeps the first of two equal ones and drops the node id.
  `Restart.TieBringsBackOutranked` reaches, for any two writes that tie in time, a state whose restart brings back the
  outranked one. `Restart.MemoryRestoredIff` says for every run and key exactly when memory's record comes back, in
  contents and in rank, `Restart.NewestRestoredIff` when the newest write does, `Restart.QuiescentRestoredIff` when
  everything has been logged and flushed, and `Restart.RankBackIff` when the rank of a write, flushed or not, is kept.
- So an owner can come out of a restart with less than a strict write it acknowledged. `Replication.StrictReadsIff` says
  exactly when all reads after a strict success stay current, and `Replication.RestartKeepsIff` what a restart keeps.
- Start-up does not advance the clock past the timestamps it brings back. `Engine.SetLostAfterRestart`: after the wall
  clock has stepped back, a set reports success and changes nothing. `Engine.WriteTakesEffectIff` is the exact condition;
  while the clock has reached everything stored, the engine is a plain map (`Engine.Serve`).
- A frame cut short makes the whole replay fail (`Wal.TornTail`; `Wal.ParseIff` is the exact condition), and start-up
  then uses no log record at all (`Recovery.Recover`). The crash machine has whole frames on disk.
- Two values of equal rank but different contents make the stored value depend on arrival order; `Lww.ValuesConvergeIff`
  gives the exact condition on the writes and `Ties.TieIff` the one on the hash. Ranks and digests always converge.
- A timestamp too far ahead is ignored by the clock but stored all the same. `Causality.DriftBreaksOrder` shows the next
  local write ordered below it; `Causality.ArrivalOrdersIff` says exactly when an arrival is ordered.
- Anti-entropy passes on other nodes' records with their original stamps, so a message need not carry its sender's past.
  `Causality.RelayBreaksOrder` is a run in which a write that happens after another is stamped below it;
  `Causality.WritesFollowIff` says exactly in which runs happens-before orders the timestamps of all writes, and
  `Causality.HappensBeforeOrdersIff` in which it orders the clock words of all events, arrivals included. Along the
  records themselves, relayed or not, it always does (`Causality.DependsOrdersStamps`).
- `Clock.HybridClock.Update` never returns for an accepted timestamp of MaxInt64 while the clock is below its ceiling
  (`Clock.UpdateStuckIff`). The model's methods report such a call as not ended, and say what it leaves undone.
- Virtual nodes are sorted with no tie-break. `Placement.SpotsDecideIff` shows that members and weights determine every
  owner list exactly when no two members share a position on the circle, and `Placement.RemovalFiltersIff` that removing
  a member disturbs no other exactly when no two of the remaining ones do. Duplicate ids in one `AddNodes` call are
  harmless and are not excluded.
- Owners that lack a record ask each other. `Reads.ReadEndsIff` says exactly when a read ends.
- A comment in core/evict/eviction.go:249-251 says that a TTL of zero turns expiry off, but `seen` draws its jitter below
  `ttl / 10` and therefore panics for every TTL under 10 ns: `Lru.LruShard.Seen` panics exactly then, and
  `Recency.AccessPossibleIff` says that an access is possible exactly otherwise.
- The gateway and `isOwner` treat a replication factor of 0 or less as 1, but `isRequesterResponsible` passes it to the
  ring unchanged. `Ownership.NothingPulledAtZero` shows that anti-entropy then returns nothing to anyone although every
  key has an owner; `Ownership.SyncerServesIff` says exactly when it serves the gateway's owners.
- The RESP loop keeps nothing of a frame cut by the end of a read (`Resp.CutFrameNotDispatched`). `Resp.SplitReadsIff`
  shows that a stream is dispatched whole, over any number of reads, exactly when every cut falls between two frames.

## Model

| member | source | states |
|---|---|---|
| `Kv.LwwTransitive` | core/hashmap/shardedmap.go:161-169 | the rank comparison is transitive |
| `Bytes.LexLessIff` | core/hashmap/shardedmap.go:165-166 | one string is below another exactly if it has the smaller byte at the first difference or is a proper prefix |
| `Kv.LwwTrichotomy` | core/hashmap/shardedmap.go:161-169 | it is a strict total order on (timestamp, node id, item hash) |
| `Kv.LwwWinsIff` | core/hashmap/shardedmap.go:161-169 | which write wins: the later one; at equal times the node id that is larger at the first differing byte or continues the other, whatever the hashes; from one node the larger item hash |
| `Lww.MergeDominates` | core/hashmap/shardedmap.go:224-279 | a merge never lowers the rank of any key and covers the merged write |
| `Lww.MergeAllWinner` | core/hashmap/shardedmap.go:224-279 | after any sequence of merges each key holds one of its writes and none of them outranks it |
| `Lww.Convergence` | core/hashmap/shardedmap.go:161-169 | two sequences with the same set of writes, in any order and with any repetition, end with equal ranks, and with equal values if item hashes do not collide |
| `Lww.ValuesConvergeIff` | core/hashmap/shardedmap.go:161-169 | values are independent of order exactly when no two different values tie for the top of a key |
| `Ties.TieIff` | core/hashmap/shardedmap.go:120-169 | stored values of one key, timestamp and node id tie in rank exactly when they are of one kind and their payloads collide under the hash, or of different kinds and their payload hashes differ by the tombstone mask |
| `Ties.ItemHashTerms` | core/hashmap/shardedmap.go:120-139 | the item hash is the XOR of one term for each of key, timestamp, node id, payload and kind |
| `Ties.NodeTermIff` | core/hashmap/shardedmap.go:124-126 | stored records of one key that differ only in node id hash alike exactly when the ids collide under the hash, or one is empty and the other hashes to 0 |
| `Ties.KeyTermIff` | core/hashmap/shardedmap.go:120-122 | equal values under two keys hash alike exactly when the keys collide |
| `Mix.MixCountInjective` | core/hashmap/shardedmap.go:141-146 | the count mixer is injective on 32-bit counts |
| `Mix.MixRoundTrip` | core/hashmap/shardedmap.go:141-146 | the count can be computed back from its fingerprint, stage by stage |
| `DigestTree.CountSeparates` | core/hashmap/shardedmap.go:120-146 | buckets with equal raw XOR but different counts modulo 2^32 publish different digests |
| `DigestTree.ShardCountSeparates` | core/hashmap/shardedmap.go:308-315 | so do shards |
| `DigestTree.HomesIndependent` | core/hashmap/shardedmap.go:70-84 | shard and sub-bucket depend on different bits of the hash, so every pair of them occurs |
| `DigestTree.SameRanksSameDigests` | core/hashmap/shardedmap.go:308-353 | replicas with equal ranks publish equal digests at all three levels |
| `DigestTree.ConvergedDigests` | core/hashmap/shardedmap.go:308-353 | the same set of writes gives equal digests at all three levels, whatever the order |
| `DigestTree.TreeChange` | core/hashmap/shardedmap.go:172-220 | changing one key changes its home bucket and no other |
| `ShardedMap.InsertAgrees` | core/hashmap/shardedmap.go:172-279 | rolling a new item hash in and counting up keeps sub-digests, shard digest and counts equal to their definitions on the contents |
| `ShardedMap.UpdateAgrees` | core/hashmap/shardedmap.go:172-279 | so does swapping one item hash for another |
| `ShardedMap.DeleteAgrees` | core/hashmap/shardedmap.go:282-305 | so does rolling one out and counting down |
| `ShardedMap.Shard.Replace` | core/hashmap/shardedmap.go:185-203 | the in-place update keeps the index in agreement and replaces one value |
| `ShardedMap.Shard.Insert` | core/hashmap/shardedmap.go:205-220 | the insertion keeps the index in agreement and adds one value |
| `ShardedMap.Shard.Remove` | core/hashmap/shardedmap.go:282-305 | the removal keeps the index in agreement and takes out one key |
| `ShardedMap.Map.Load` | core/hashmap/shardedmap.go:79-98 | the stored value with its item hash cleared, or nothing |
| `ShardedMap.Map.Store` | core/hashmap/shardedmap.go:172-220 | the contents change at one key, the value carries its own item hash, the index still agrees |
| `ShardedMap.Map.StoreLWW` | core/hashmap/shardedmap.go:224-279 | the contents become the merge by rank; the answer is true exactly when the write was new or won |
| `ShardedMap.Map.Delete` | core/hashmap/shardedmap.go:282-305 | the key is gone, everything else and the index agreement stay |
| `ShardedMap.Map.FillShardDigests` | core/hashmap/shardedmap.go:308-315 | the shard digests are those of the contents |
| `ShardedMap.Map.RootDigest` | core/hashmap/shardedmap.go:318-330 | the root digest is that of the contents |
| `ShardedMap.Map.FillDigests` | core/hashmap/shardedmap.go:334-366 | every row of bucket digests is that of the contents |
| `ShardedMap.Map.RangeShard` | core/hashmap/shardedmap.go:397-417 | lists each entry of the masked buckets exactly once and nothing else |
| `Clock.NowAdvances` | core/clock/clock.go:49-94 | a proposed word is strictly above the old one and takes the larger physical part |
| `Clock.UpdateAdvances` | core/clock/clock.go:98-174 | an update proposal is strictly above the local word and the remote stamp |
| `Clock.NowProposesNext` | core/clock/clock.go:49-94 | below the ceiling the proposal is the least stamp above the old word at the later of its moment and the sample, and `Now` retries exactly when that moment has no stamp left |
| `Clock.UpdateProposesNext` | core/clock/clock.go:98-174 | the same for an update, above both the local word and the remote stamp |
| `Clock.UpdateProceeds` | core/clock/clock.go:98-174 | an update goes through once the wall clock passes both physical parts |
| `Clock.UpdateStuckIff` | core/clock/clock.go:98-174 | an update can never go through exactly for MaxInt64 below the ceiling |
| `Clock.SampleExact` | core/clock/clock.go:36-52 | a wall-clock reading in milliseconds counts as it is from 0 to the ceiling and is clamped outside |
| `Clock.AcceptsIff` | core/clock/clock.go:98-112 | the drift guard lets in exactly the non-negative stamps before the end of the 5000th millisecond ahead |
| `Clock.SoloCall` | core/clock/clock.go:49-174 | a call that nobody disturbs retries as long as its readings say so and then leaves, and hands out, the word that the last reading's attempt proposes, as the objects' `Now` and `Update` do |
| `Clock.CallsAreAtomic` | core/clock/clock.go:49-174 | among any other callers, a call ends exactly in a step that acts on the word as it is at that moment; a lost compare-and-swap changes nothing and takes a new reading |
| `Clock.StepInv` | core/clock/clock.go:49-174 | each atomic step of any caller leaves the word or strictly raises it, and keeps the drift bound, the int64 bound and the order of issued stamps |
| `Clock.RunBounds` | core/clock/clock.go:49-174 | so does every run of any callers under any wall clock: the physical part stays within 5000 ms of the largest local sample |
| `Clock.StartedRunBounds` | core/clock/clock.go:43-174 | in particular every run of a fresh clock: issued stamps never fall, only the ceiling repeats, and none is above the word |
| `Clock.HybridClock.Now` | core/clock/clock.go:49-94 | a stamp strictly above the old word below the ceiling, MaxInt64 and no change at the ceiling |
| `Clock.HybridClock.Update` | core/clock/clock.go:98-174 | ends above both its past and an accepted stamp, ignores drifted and negative ones, never falls, and fails to end exactly on an accepted MaxInt64 below the ceiling |
| `Causality.DependsOrdersStamps` | core/writer/storagewriter.go:56-103 | in every multi-node run below the ceiling whose deliveries pass the drift guard, along any chain of records, relayed by others or not, the later event has the strictly larger timestamp |
| `Causality.RelayOrdersIff` | cluster/entropy/sync.go:260-276 | a message orders what its sender did before exactly when the sender's clock is not past the record it carries or the receiver's clock, or the receiver's wall clock has passed it |
| `Causality.HappensBeforeOrdersIff` | cluster/entropy/sync.go:260-276 | over all messages of a run, happens-before orders the clock words of all events, arrivals included, exactly when every message meets that condition |
| `Causality.WritesFollowIff` | cluster/entropy/sync.go:260-276 | it orders the timestamps of all writes exactly when each writer's clock had reached, or its wall clock had passed, the latest write the writer had heard of by any chain of messages |
| `Causality.DirectIsFresh` | cluster/gateway/gateway.go:297-324 | a message sent before the writer's clock moves on always meets it |
| `Causality.RelayBreaksOrder` | cluster/entropy/sync.go:260-276 | a run of three nodes in which a relayed record lets a later write be stamped below an earlier one |
| `Causality.DependentWins` | core/hashmap/shardedmap.go:161-169 | so last-write-wins keeps a write over everything its writer had seen |
| `Causality.ArrivalOrdersIff` | core/clock/clock.go:98-112 | the receiver ends above a stamp exactly when it already was, or when the drift guard admits it below the ceiling |
| `Causality.DriftBreaksOrder` | core/clock/clock.go:98-112 | a stamp outside the guard can leave the next local write ordered below it |
| `Writer.StorageWriter.Apply` | core/writer/storagewriter.go:56-103 | memory becomes the merge by rank even if the clock ignored the stamp, and the request is logged exactly when memory changed; a call stuck in the clock changes neither |
| `Writer.StorageWriter.Exists` | core/writer/storagewriter.go:79-82 | true exactly for a key with a live record |
| `Engine.FreshWriteWins` | core/engine.go:203-246 | a write stamped above everything stored replaces its key and nothing else in what clients see |
| `Engine.Engine.Get` | core/engine.go:191-200 | the live payload or nothing |
| `Engine.WriteTakesEffectIff` | core/engine.go:203-246 | from any contents, a write takes effect exactly when its key has no record, or one the clock has reached or the wall clock has passed, or a lower-ranked one of the same stamp; otherwise clients see no change |
| `Engine.SetLostAfterRestart` | core/engine.go:311-362 | a recovered record ahead of clock and wall clock, for which the next set is lost |
| `Engine.Engine.Set` | core/engine.go:203-220 | from any contents memory becomes the merge with the record stamped by `Now`; if the clock has reached everything stored, clients see exactly that key changed to that value |
| `Engine.Engine.Delete` | core/engine.go:223-246 | tells whether the key was there and merges a tombstone if it was; if the clock has reached everything stored, clients see exactly that key gone |
| `Engine.Serve` | core/engine.go:191-246 | from any contents the clock has reached, under a wall clock that may step back, the answers to any commands are those of a plain map until the clock reaches its ceiling |
| `Engine.RunCommands` | core/engine.go:191-246 | in particular from an empty store |
| `Entropy.CarriedIntactIff` | cluster/entropy/sync.go:260-276 | a stored record survives the trip through a request, rank and item hash included, exactly when it is not a tombstone with a payload |
| `Entropy.CalculateMismatchMask` | cluster/entropy/sync.go:232-245 | a bit is set exactly where the digests differ, and every bit when the requester sent no row |
| `Entropy.DiffersExact` | cluster/entropy/sync.go:169-256 | against complete digests an entry is singled out exactly when its shard digest and its bucket digest both differ |
| `Entropy.AnswerExact` | cluster/entropy/sync.go:169-256 | the answer is exactly the owned entries of differing buckets in differing shards, when the roots differ |
| `Entropy.AnswerToAny` | cluster/entropy/sync.go:169-245 | the same for incomplete requests: a missing shard digest and a missing or short row count as different |
| `Entropy.BareRequestGetsAll` | cluster/entropy/sync.go:169-245 | a request with nothing but a differing root gets everything its sender owns |
| `Entropy.IdenticalBucketsStayHome` | cluster/entropy/sync.go:169-256 | nothing from a bucket with identical contents is ever returned |
| `Entropy.Syncer.CollectShardMismatches` | cluster/entropy/sync.go:210-229 | appends the owned entries of the masked buckets, live ones as sets and tombstones as deletes |
| `Entropy.Syncer.Pull` | cluster/entropy/sync.go:169-206 | the two batches carry exactly the live and the dead part of the answer |
| `Entropy.Syncer.Push` | cluster/entropy/sync.go:146-158 | memory becomes the merge of the batch, up to a request stamped MaxInt64 on which the clock does not return |
| `Entropy.Syncer.PreparePullRequest` | cluster/entropy/sync.go:337-370 | the request carries the complete digests of the local contents |
| `Entropy.AfterPullExact` | cluster/entropy/sync.go:169-276 | an exchange takes over exactly the owned newer records that the digests show at all three levels, and leaves every other key alone |
| `Entropy.ExchangeCatchesUpIff` | cluster/entropy/sync.go:169-276 | one exchange loses nothing and invents nothing, and covers every owned record of the peer exactly when each one the requester is behind on shows in root, shard and bucket digest |
| `Entropy.Syncer.Fetch` | cluster/entropy/sync.go:290-335 | the fetched batch, once merged, gives exactly the contents after that exchange |
| `Entropy.Syncer.PerformSync` | cluster/entropy/sync.go:290-335 | the loop body achieves that on the real maps and writers, from any contents: the result is given outright, and it has caught up exactly under that condition; no rank drops even if it gets stuck, which takes a record stamped MaxInt64 |
| `Entropy.TwoWayConvergence` | cluster/entropy/sync.go:146-276 | two exchanges in opposite directions leave the larger of the two original ranks on both sides for every key both own |
| `Entropy.TwoWayIff` | cluster/entropy/sync.go:146-276 | after an exchange each way a key both own has the larger of the two original ranks on both sides exactly when the digests show the side that is behind what it lacks |
| `Entropy.SyncBothWays` | cluster/entropy/sync.go:290-335 | the same for two nodes with their maps, clocks and logs, from any contents; no rank drops on either, and both rounds end unless a record is stamped MaxInt64 |
| `Refresh.ReplaceMoves` | core/hashmap/shardedmap.go:172-220 | replacing one record moves the digests of its bucket and its shard by the XOR of the two item hashes, and no other |
| `Refresh.TwoRefreshesShownIff` | core/hashmap/shardedmap.go:120-139 | when the digests above any key show two changed timestamps, in terms of the two timestamp terms and where the keys live |
| `Refresh.MissedRefreshesSeenIff` | core/hashmap/shardedmap.go:120-139 | a node that missed the refreshes of two keys catches up exactly when they move the item hashes differently, and otherwise a pull brings it nothing |
| `Refresh.MissedRefreshesHidden` | core/hashmap/shardedmap.go:120-139 | refreshes from even milliseconds to the next ones always cancel: such a node stays behind on both keys, for every hash |
| `Refresh.OneRefreshSeen` | core/hashmap/shardedmap.go:120-139 | a single missed refresh is always caught up on |
| `Refresh.OneChangeSeenIff` | core/hashmap/shardedmap.go:172-220 | a node behind on one record it owns catches up exactly when the two item hashes differ |
| `Refresh.OtherNodeSeenIff` | core/hashmap/shardedmap.go:124-126 | so for a record that differs only in node id exactly when the ids do not collide |
| `Ownership.GatewayOwnersServedIff` | cluster/gateway/gateway.go:258-264 | on a circle with a virtual node the owners the gateway writes to are the owners the ring returns for the raw replication factor exactly when that is at least 1 |
| `Ownership.SyncerServesIff` | cluster/entropy/sync.go:248-257 | outside single-node mode a syncer serves every gateway owner of a key exactly for a factor of at least 1 |
| `Ownership.ServesOnlyOwners` | cluster/entropy/sync.go:248-257 | outside single-node mode a syncer serves exactly the owners the ring names, and at a factor of at least 1 exactly the gateway's |
| `Ownership.PullForOwner` | cluster/entropy/sync.go:169-229 | every record a pull returns is one the peer holds and the requester owns |
| `Ownership.NothingPulledAtZero` | cluster/entropy/sync.go:248-257 | at a factor of 0 or less every key has one owner to write to and a pull returns nothing to anyone |
| `Ownership.SyncOwners` | cluster/entropy/sync.go:248-335 | a round each way between two nodes of one ring evens out, at a factor of at least 1, exactly those keys the gateway writes to both whose differences the digests show, and leaves what the gateway does not write to a node as it was there; at 0 or less it moves nothing |
| `Entropy.WriterKeepsClean` | core/writer/storagewriter.go:56-103 | everything reached through the writer meets the side conditions of the exchange: tombstones have no payload |
| `Wal.FirstFrameIff` | core/wal/wal.go:167-230 | a framed payload reads back exactly when its length fits the 32-bit header |
| `Wal.HeaderOrder` | core/wal/wal.go:208-224 | headers are big-endian: they compare as bytes the way the lengths compare |
| `Wal.ParseIff` | core/wal/wal.go:254-302 | bytes read as whole frames with these payloads exactly when they are the framing of these payloads |
| `Wal.TornTail` | core/wal/wal.go:279-294 | a log cut anywhere inside a frame does not replay |
| `Wal.ReplaySegment` | core/wal/wal.go:254-344 | succeeds exactly if the file ends with a whole frame and every payload decodes, and then absorbs the entries in order, keeping per key the first record of the newest timestamp |
| `Wal.ReplayRoundTrip` | core/wal/wal.go:167-344 | published records read back in order, with any codec that inverts on these records and fits them into the frame header |
| `Wal.LawfulCodecExists` | core/wal/wal.go:167-230 | every log of fewer than 2^32 records has such a codec |
| `Wal.ClearKeepsLaterIff` | core/wal/wal.go:385-456 | clearing at a recorded boundary keeps exactly the later records, unless the boundary was 0 and the log is not empty |
| `Wal.Segment.Publish` | core/wal/wal.go:167-230 | one record more in the buffer, nothing else changes |
| `Wal.Segment.PrepareSnapshot` | core/wal/wal.go:346-367 | everything buffered is on file and the offset is the file's length |
| `Wal.Segment.Clear` | core/wal/wal.go:385-456 | flushes, then keeps the records after the recorded ones, or none at offset 0 |
| `Recovery.ReplaySchedules` | core/wal/wal.go:233-251 | any two interleavings of streams that keep each key in one stream give the same map |
| `Restart.AnyScheduleRecovers` | core/wal/wal.go:158-251 | after any run, because a record goes to the segment its key hashes to, every interleaving of the segments rebuilds the same memory |
| `Recovery.Replay` | core/wal/wal.go:233-251 | succeeds exactly if no file is torn and every payload in every file decodes, and then yields the records of all files absorbed |
| `Recovery.Recover` | core/engine.go:311-362 | memory is the snapshot overruled by outranking log records, or the snapshot alone exactly when some file is torn or does not decode |
| `Crash.RecoveredExact` | core/engine.go:311-362 | recovery is at least as new as the snapshot and every flushed record, and brings back nothing else |
| `Crash.SnapshotRoundTrip` | core/engine.go:311-343 | storing the encoded entries one by one rebuilds the encoded map |
| `Crash.StartUpComputesRecovered` | core/engine.go:311-362 | after any run, start-up on the segment files computes the machine's recovered memory, with any codec that inverts on the records on disk |
| `Crash.PublishInv` | core/writer/storagewriter.go:70-72 | logging a write keeps the invariant and all durability |
| `Crash.FlushInv` | core/wal/wal.go:40-66 | so does a background flush |
| `Crash.PrepareInv` | core/wal/wal.go:346-367 | so does taking a segment's offset |
| `Crash.EncodeKeyInv` | core/hashmap/shardedmap.go:369-394 | so does encoding a key with the value it has by then, while writes go on |
| `Crash.RenameInv` | core/snap/snapshot.go:123-169 | so does publishing the snapshot: it covers everything below the offsets |
| `Crash.ClearInv` | core/wal/wal.go:385-456 | so does clearing a segment, at a positive offset or when the snapshot has all it holds |
| `Crash.ClearKeepsDurableIff` | core/wal/wal.go:398-406 | clearing a segment keeps every flushed record durable exactly under that condition |
| `Compaction.PublishBytes` | core/wal/wal.go:158-230 | on the files, publishing appends one frame to the buffer of the segment that the key's hash selects |
| `Compaction.FlushBytes` | core/wal/wal.go:40-66 | a flush moves the buffer's bytes to the end of the file |
| `Compaction.PrepareBytes` | core/wal/wal.go:346-367 | preparing flushes, and the offset taken stands for the whole file |
| `Compaction.ClearBytes` | core/wal/wal.go:385-456 | in every state and with every codec, a clearing step leaves the bytes clearSegment leaves: the flushed file cut at the recorded offset, or nothing |
| `Compaction.CreateTakesOver` | core/snap/snapshot.go:123-169 | a snapshot that begins with nothing pending and meets no write ends with the snapshot equal to memory and every segment empty, and a restart would bring back memory as it is |
| `Compaction.EncodedOnce` | core/hashmap/shardedmap.go:369-394 | on the way no key is encoded twice |
| `Compaction.CreateCompletes` | core/snap/snapshot.go:123-169 | from every state on the way some run of its steps completes it |
| `Crash.NextInv` | core/snap/snapshot.go:123-169 | every single step, with clearing steps under that condition, keeps the invariant and whatever is durable |
| `Crash.RunInv` | core/snap/snapshot.go:123-169 | the invariant holds after every guarded run, and what is durable stays durable |
| `Crash.CrashSafety` | core/snap/snapshot.go:123-169 | after any interleaving of writes, flushes, snapshot steps, aborts and earlier crashes, recovery is at least as new, by timestamp, as every record ever flushed and everything it brings back was written |
| `Crash.CrashSafetyIff` | core/wal/wal.go:398-406 | over whole runs: a crash after any prefix recovers, by timestamp, everything flushed so far exactly when every clearing step of the run was safe |
| `Restart.RankBackIff` | core/wal/wal.go:304-344 | after any run a restart holds at least the rank of a write, flushed or not, exactly if the snapshot's record stands and covers it, or the deciding logged record is newer, or as new while the write has no node id and no larger item hash |
| `Restart.RankKeptIff` | core/wal/wal.go:304-344 | so for every flushed write, whose timestamp is always covered after guarded runs |
| `Restart.RecoveredRecord` | core/engine.go:311-362 | the recovered record of a key is the snapshot's if nothing logged outranks it once restored, otherwise the first logged one with the newest logged timestamp, without its node id |
| `Restart.NewestRestoredIff` | core/wal/wal.go:304-344 | the strictly newest write of a key, once flushed, comes back with its payload, and as it was stored exactly if it has no node id or the snapshot holds it |
| `Restart.MemoryRestoredIff` | core/wal/wal.go:304-344 | after any run memory's record comes back, in contents or whole, exactly if the deciding record has its contents, and for the whole record also no node id |
| `Restart.TieBringsBackOutranked` | core/wal/wal.go:313-337 | for any two writes of equal time a reachable state in which memory holds the winner and a restart brings back the loser |
| `Restart.QuiescentRestoredIff` | core/engine.go:311-362 | with everything logged and flushed each key of memory comes back with its timestamp: the snapshot's record where it stands, otherwise memory's contents exactly if the first logged record with memory's timestamp has them |
| `Crash.ClearAtZeroLosesWrites` | core/wal/wal.go:398-406 | a reachable state in which a flushed write is lost |
| `RingOrder.OwnerOrderUnique` | cluster/mesh/hashring.go:225-269 | the positions on the circle alone determine the order of owners by clockwise distance |
| `RingOrder.RemovalFilters` | cluster/mesh/hashring.go:172-198 | taking a node's positions away filters it out of that order and changes nothing else |
| `RingWalk.WalkIsOwnerOrder` | cluster/mesh/hashring.go:225-269 | walking the sorted array from the search result and skipping repeated hosts yields that order, when no two nodes share a position |
| `RingWalk.WalksAlikeIff` | cluster/mesh/hashring.go:121-128 | all arrangements the sort may return walk alike exactly when no two nodes share a position |
| `RingWalk.RemovalFiltersWalk` | cluster/mesh/hashring.go:225-269 | the walk over the remaining positions is the old walk filtered, even where the removed node shared positions |
| `Placement.LabelInjective` | cluster/mesh/hashring.go:114-118 | no two virtual nodes hash the same label |
| `Placement.LabelReads` | cluster/mesh/hashring.go:114-118 | the label is the id, a dash and the number in decimal |
| `Placement.RowsAreSpots` | cluster/mesh/hashring.go:86-128 | any sorted permutation of the filled rows resolves to the circle of the members and weights |
| `Placement.SpotsOfMember` | cluster/mesh/hashring.go:86-118 | a member has exactly the positions numbered below its weight, 128 of them if that is negative, and a stranger none |
| `Placement.WeightlessOwnsNothing` | cluster/mesh/hashring.go:86-118 | no member of weight 0 owns anything, and there are no owners exactly when all weights are 0 |
| `Placement.ReweighKeepsOthers` | cluster/mesh/hashring.go:55-84 | a member that joins or gets another weight never changes the order of the others, when no two of those share a position |
| `Placement.RaisedWeightAdds` | cluster/mesh/hashring.go:75-84 | raising a weight only adds positions, those numbered from the old weight on |
| `Placement.RaisedWeightTakesOver` | cluster/mesh/hashring.go:75-84 | so the owner of a key stays or becomes that member, when no two members shared a position before |
| `Placement.OwnersShape` | cluster/mesh/hashring.go:225-269 | as many owners as asked for or as members with a virtual node, no repeats, a prefix of any larger request |
| `Placement.HistoryIndependence` | cluster/mesh/hashring.go:55-142 | two rings of equal members and weights give equal owners, when no two members share a position |
| `Placement.SpotsDecideIff` | cluster/mesh/hashring.go:121-128 | that holds for all rings of a configuration exactly when no two members share a position |
| `Placement.RemovalMovesOnlyItsKeys` | cluster/mesh/hashring.go:172-198 | when no two remaining members share a position, removal filters every owner order; owners change only if the removed node was among them, and the others stay owners |
| `Placement.RemovalFiltersIff` | cluster/mesh/hashring.go:172-198 | every ring left after a removal walks as the old one does without the removed node exactly when no two remaining members share a position |
| `Rings.HashRing.Fill` | cluster/mesh/hashring.go:107-119 | every slot of a leased array is rewritten |
| `Rings.HashRing.RebuildVnodes` | cluster/mesh/hashring.go:86-142 | the published array holds exactly the members' virtual nodes by hash; the retired array, and only it, goes to the pool |
| `Rings.HashRing.Published` | cluster/mesh/hashring.go:86-142 | a position is published exactly if it is one of the numbered ones below some member's weight, 128 for a negative weight |
| `Rings.HashRing.AddNodeWithWeight` | cluster/mesh/hashring.go:55-72 | the member has that weight, the others are unchanged |
| `Rings.HashRing.UpdateNodeWeight` | cluster/mesh/hashring.go:75-84 | the same for an existing member, nothing for a stranger |
| `Rings.HashRing.AddNodes` | cluster/mesh/hashring.go:145-169 | new ids join with the default weight, known ones keep theirs, repeated ids are harmless |
| `Rings.HashRing.RemoveNode` | cluster/mesh/hashring.go:172-198 | the member is gone and the indices of the others are renewed |
| `Rings.HashRing.Search` | cluster/mesh/hashring.go:239-243 | the binary search finds the first position at or after the hash |
| `Rings.HashRing.GetNode` | cluster/mesh/hashring.go:201-222 | the single owner of a request for one, or the empty id when no member has a virtual node |
| `Rings.HashRing.GetOwners` | cluster/mesh/hashring.go:225-269 | the first distinct hosts clockwise from the key, none of them of weight 0 |
| `Rings.Perform` | cluster/mesh/hashring.go:34-39 | a change to one ring keeps all rings apart from each other and from the pool, and every other circle as it was |
| `Rings.RunChanges` | cluster/mesh/hashring.go:34-142 | over any history of changes to any rings sharing the pool, each ring ends with exactly its own changes |
| `Rings.LastChangeDecides` | cluster/mesh/hashring.go:55-198 | a node's membership and weight after any history are what the last change that concerned it said; adding several concerns only strangers, an update or a removal only members |
| `Rings.EqualRingsAgree` | cluster/mesh/hashring.go:225-269 | two ring objects with equal members and weights give equal owners for every key, when no two members share a position |
| `Recency.RunKeeps` | core/evict/eviction.go:278-388 | after any run: one entry a hash, never above capacity, most recent first, expiry within a tenth of the lifespan |
| `Recency.AccessPossibleIff` | core/evict/eviction.go:282-285 | there is a jitter to draw, and so an access, exactly from a lifespan of 10 ns on |
| `Recency.OverdueBound` | core/evict/eviction.go:327-349 | only expired entries leave, and what stays is overdue by at most ttl/10 - 2, although recency is not expiry order |
| `Recency.OverdueBoundMet` | core/evict/eviction.go:278-308 | that bound is met by two accesses |
| `Recency.HoldsMostRecent` | core/evict/eviction.go:278-325 | with accesses only, a shard holds exactly the most recently accessed hashes in order, as many as its capacity |
| `Recency.DropIsOthers` | core/evict/eviction.go:351-361 | a deletion leaves exactly the entries of other hashes, in their order |
| `Recency.SeenFront` | core/evict/eviction.go:278-308 | after an access the entry in front has that hash, time and expiry, and on a hit the key it came in with |
| `Lru.LruShard.Remove` | core/evict/eviction.go:363-376 | the pointers spell out the list without that entry |
| `Lru.LruShard.PushFront` | core/evict/eviction.go:378-388 | the pointers spell out the list with that entry in front |
| `Lru.PointsFind` | core/evict/eviction.go:278-308 | the hash index finds a hash exactly when the list holds it, and at its entry |
| `Lru.LruShard.EvictOldest` | core/evict/eviction.go:310-325 | the least recently seen entry leaves, with exactly one message carrying its key |
| `Lru.LruShard.Seen` | core/evict/eviction.go:278-308 | the list moves or admits the hash in front; a message goes out exactly when a new hash meets a full shard; it panics, changing nothing, exactly for a lifespan below 10 ns |
| `Lru.LruShard.Delete` | core/evict/eviction.go:351-361 | the entries of other hashes stay, in their order, and no message is sent |
| `Lru.LruShard.EvictExpired` | core/evict/eviction.go:327-349 | discards from the tail up to the first live entry, with a message for each while there is room |
| `Eviction.MessagesBounded` | core/evict/eviction.go:341-344 | the messages of one tick number the discarded entries or the room, whichever is smaller, and name the oldest entries in order |
| `Eviction.CapacityMessagesExact` | core/evict/eviction.go:310-325 | over any run the capacity messages are exactly the keys pushed out, one for each and in order |
| `Eviction.PushesOutLeastRecent` | core/evict/eviction.go:294-325 | with accesses only, what a full shard of capacity c pushes out is the c-th most recently accessed hash |
| `Lru.RunShard` | core/evict/eviction.go:246-276 | a shard after any run of events holds the recency list, stays within capacity and has sent exactly that run's messages |
| `Digits.ParseDecimal` | server/resp.go:304-321 | decimal text reads back as its number, up to the int maximum |
| `Digits.ParseIntIff` | server/resp.go:304-321 | accepts exactly the non-empty digit strings whose number does not pass the int maximum, and yields that number |
| `Digits.ParseFastInt` | server/resp.go:304-321 | the accumulating loop with its overflow guard computes that parser |
| `Resp.FrameStable` | server/resp.go:249-302 | acceptance depends on the consumed bytes alone |
| `Resp.NoPrefixAccepted` | server/resp.go:249-302 | no proper prefix of an accepted frame is accepted |
| `Resp.FrameRoundTrip` | server/resp.go:249-302 | at most 1024 byte strings survive encoding, with the exact length consumed, whatever follows |
| `Grammar.FrameIff` | server/resp.go:249-302 | a buffer is accepted with these arguments and this length exactly if it begins with a frame: a count line of at most 1024, then for each argument its length line, its bytes and CRLF |
| `Grammar.DispatchedExact` | server/resp.go:102-139 | one read dispatches the frames it begins with, up to the first place where none begins |
| `Resp.ReadFrame` | server/resp.go:249-302 | the scanning loops over header and bulk strings compute the frame parser |
| `Resp.FrameFrugal` | server/resp.go:249-302 | an accepted frame, however written, takes at least the bytes of its plain encoding |
| `Resp.PipelineInOrder` | server/resp.go:117-128 | concatenated frames are dispatched in order and what follows is handled as if it came alone |
| `Resp.OnTraffic` | server/resp.go:102-139 | the read loop dispatches exactly the frames of its buffer |
| `Resp.CutFrameNotDispatched` | server/resp.go:117-128 | a frame cut by the end of a read is not dispatched |
| `Resp.SplitReadsIff` | server/resp.go:102-128 | a stream of frames read in any number of parts is dispatched whole exactly when every cut falls between two frames |
| `Reads.ReadSource` | cluster/node.go:123-149 | in every net and at every depth a returned value is the live record of an owner, and absence means a tombstone of this node, or no record here and no live one at any owner it can hear |
| `Reads.HoldersAnswer` | cluster/node.go:123-149 | with a record at every owner a read is answered by the node itself if it is an owner, otherwise by the first reachable owner with a live record |
| `Reads.GatewayGet` | cluster/gateway/gateway.go:79-93 | the first value an owner other than this node answers with |
| `Reads.ReadEndsIff` | cluster/node.go:123-149 | a read ends exactly when the node answers itself or at most one reachable owner without a record precedes the first reachable live one, and then within two levels |
| `Reads.SettlesFrom` | cluster/gateway/gateway.go:79-93 | more levels never change an answer |
| `Replication.Cluster.Replicate` | cluster/gateway/gateway.go:96-148 | the reached owners merge the write and nothing else changes; success is all acknowledgements in strict mode, one in lenient mode, the owner's own with a single owner, never for an unknown mode or no owner |
| `Replication.SpreadExact` | cluster/gateway/gateway.go:96-134 | an owner that did not refuse holds the merge; every other node and every other key is as it was |
| `Replication.SucceedsIff` | cluster/gateway/gateway.go:96-148 | success by the number of acknowledgements: all from a single owner or in strict mode, one in lenient mode |
| `Replication.StrictReachesAll` | cluster/gateway/gateway.go:135-147 | a strict success leaves the write or something newer at every owner |
| `Replication.LenientReachesSome` | cluster/gateway/gateway.go:135-147 | a lenient success leaves it at one owner at least |
| `Replication.HasLaterIff` | core/hashmap/shardedmap.go:224-279 | through any arrivals and restarts a node keeps at least the write exactly if its last restart brought back as much or such a record arrived after it |
| `Replication.HasForever` | core/hashmap/shardedmap.go:224-279 | without a restart nothing that arrives takes it away |
| `Replication.AllCurrentIff` | cluster/node.go:123-149 | whoever answers, every read at every node ends within one level of proxying, returns only an owner's live record at least as new as the write, and reports absence only on tombstones at least as new (the node's own if it is an owner, those of all answering owners otherwise), exactly when every owner holds at least the write |
| `Replication.StrictReadsIff` | cluster/node.go:123-176 | after a strict success, whatever arrives and whoever restarts, all reads are current in that sense exactly when every owner kept the write through its restarts or heard of it again |
| `Replication.StrictReads` | cluster/node.go:123-176 | so without restarts of owners all reads stay current |
| `Replication.RestartKeepsIff` | core/engine.go:311-362 | what a restart of an owner keeps of a write, flushed or not, told from its snapshot and log |

## Left out

- gRPC and protobuf transport, membership gossip and the client libraries: protobuf coding of a log entry is a function with an inverse, and ring changes are direct calls.
- The immutable radix trees, xxhash, SHA-256 and gob: maps, function parameters, and a snapshot that decodes to the entries that were encoded; `recover` reusing pooled entries without clearing them is not modelled.
- Files, fsync and rename: byte sequences with atomic steps; a failing or partial write and a buffered writer that spills early are not modelled, and a background flush is one atomic step.
- Reader concurrency inside one shard and the read-write locks: map operations are atomic.
- Sampling of accesses, the channels between goroutines and their blocking: the eviction channel is an output sequence; a capacity eviction waits for room there, which is not modelled.
- Recycling of LRU entries and of request and digest buffers through pools: fresh objects. The ring's array pool is modelled.
- Eviction from the map, which bypasses last-write-wins, is kept out of the crash and replication results.
- The 32-bit node index of the ring, which would wrap at 2^32 list entries.
- The existed flag that a clustered delete reports, and call timeouts: an owner answers or does not.
- Command dispatch and reply text of the RESP server beyond bulk strings and integers in frames.
- Load monitoring, builders, command line, TLS and charts: configuration only.
- Crash.CrashSafety: compares by timestamp, because replay drops the node id and with it the rank; `Restart.RankBackIff` has the exact condition for ranks.
- Causality.HappensBeforeOrdersIff: speaks of the clock words of all events; for the timestamps of writes alone its condition is only sufficient, and `Causality.WritesFollowIff` has the exact one.

/** Replicated writes: the gateway's fan-out, its success rule, and what a later read can see (cluster/gateway/gateway.go). */
module Replication {
  import opened Kv
  import opened Lww
  import opened Reads
  import Crash
  import Restart

  /** The configured failure mode; any other string is `Unknown`. */
  datatype Mode = Strict | Lenient | Unknown

  /**
    * What became of the write at one owner: applied and acknowledged, applied with the acknowledgement
    * lost or the log write failed, or not applied at all.
    */
  datatype Reply = Acked | Unacked | Refused

  predicate IsError(r: Reply) {
    !r.Acked?
  }

  type Stores = map<NodeId, Replica>

  predicate Reached(owners: seq<NodeId>, replies: seq<Reply>, n: NodeId)
    requires |owners| == |replies|
  {
    exists i :: 0 <= i < |owners| && owners[i] == n && !replies[i].Refused?
  }

  /** The owners that were reached merge the write; everything else is as it was. */
  function Spread(s: Stores, owners: seq<NodeId>, replies: seq<Reply>, k: Key, v: Value): Stores
    requires |owners| == |replies|
  {
    map n | n in s :: if Reached(owners, replies, n) then Merge(s[n], k, v) else s[n]
  }

  /** An owner that did not refuse holds the merge; every other node, and every other key, is as it was. */
  lemma SpreadExact(s: Stores, owners: seq<NodeId>, replies: seq<Reply>, k: Key, v: Value, n: NodeId)
    requires |owners| == |replies| && n in s
    ensures var t := Spread(s, owners, replies, k, v);
            && t.Keys == s.Keys && t[n] - {k} == s[n] - {k}
            && ((forall i :: 0 <= i < |owners| && owners[i] == n ==> replies[i] == Refused) ==> t[n] == s[n])
            && (forall i :: 0 <= i < |owners| && owners[i] == n && replies[i] != Refused ==>
                  k in t[n] && t[n][k] == if k in s[n] && !LwwWins(s[n][k], v) then s[n][k] else v)
  {
    assert Merge(s[n], k, v) - {k} == s[n] - {k};
    if i :| 0 <= i < |owners| && owners[i] == n && replies[i] != Refused { assert Reached(owners, replies, n); }
  }

  /** The success rule as the operator understands it. */
  ghost predicate Succeeds(mode: Mode, replies: seq<Reply>) {
    if |replies| <= 1 then |replies| == 1 && !IsError(replies[0])
    else match mode
         case Strict => NoErrors(replies)
         case Lenient => exists r <- replies :: !IsError(r)
         case Unknown => false
  }

  lemma MergeTwice(m: Replica, k: Key, v: Value)
    ensures Merge(Merge(m, k, v), k, v) == Merge(m, k, v)
  {
    LwwTrichotomy(v, v);
  }

  lemma SpreadStep(s: Stores, owners: seq<NodeId>, replies: seq<Reply>, k: Key, v: Value, i: nat)
    requires |owners| == |replies| && i < |owners|
    requires replies[i].Refused? || owners[i] in s
    ensures var before, after := Spread(s, owners[..i], replies[..i], k, v), Spread(s, owners[..i + 1], replies[..i + 1], k, v);
            if replies[i].Refused? then after == before
            else after == before[owners[i] := Merge(before[owners[i]], k, v)]
  {
    var o, r := owners[..i + 1], replies[..i + 1];
    assert forall j :: 0 <= j < i ==> o[j] == owners[..i][j] && r[j] == replies[..i][j];
    forall n ensures Reached(o, r, n) <==> Reached(owners[..i], replies[..i], n) || (owners[i] == n && !replies[i].Refused?) {
      assert o[i] == owners[i] && r[i] == replies[i];
      if Reached(owners[..i], replies[..i], n) {
        var j :| 0 <= j < i && owners[..i][j] == n && !replies[..i][j].Refused?;
        assert o[j] == n && !r[j].Refused?;
      }
    }
    if owners[i] in s { MergeTwice(s[owners[i]], k, v); }
  }

  class Cluster {
    var stores: Stores

    constructor (stores: Stores)
      ensures this.stores == stores
    {
      this.stores := stores;
    }

    /**
      * Gateway.Set and Gateway.Delete for one key. `replies` is what the network and the owners do; an owner
      * the cluster does not know refuses.
      */
    method Replicate(mode: Mode, owners: seq<NodeId>, replies: seq<Reply>, k: Key, v: Value) returns (ok: bool)
      requires |owners| == |replies|
      requires forall i :: 0 <= i < |owners| ==> replies[i].Refused? || owners[i] in stores
      modifies this
      ensures stores == Spread(old(stores), owners, replies, k, v)
      ensures ok <==> Succeeds(mode, replies)
    {
      if |owners| == 0 {
        assert stores == Spread(stores, owners, replies, k, v);
        return false;
      }
      var errors := FanOut(owners, replies, k, v);
      CountErrors(replies);
      if |owners| == 1 { return errors == 0; }
      match mode
      case Lenient => return errors != |owners|;
      case Strict => return errors == 0;
      case Unknown => return false;
    }

    /** Write to every owner and count the errors that came back. */
    method FanOut(owners: seq<NodeId>, replies: seq<Reply>, k: Key, v: Value) returns (errors: nat)
      requires |owners| == |replies|
      requires forall i :: 0 <= i < |owners| ==> replies[i].Refused? || owners[i] in stores
      modifies this
      ensures stores == Spread(old(stores), owners, replies, k, v)
      ensures errors == Errors(replies)
    {
      errors := 0;
      for i := 0 to |owners|
        invariant stores == Spread(old(stores), owners[..i], replies[..i], k, v)
        invariant errors == Errors(replies[..i])
      {
        SpreadStep(old(stores), owners, replies, k, v, i);
        assert replies[..i + 1][..i] == replies[..i];
        if !replies[i].Refused? {
          stores := stores[owners[i] := Merge(stores[owners[i]], k, v)];
        }
        if IsError(replies[i]) { errors := errors + 1; }
      }
      assert owners[..|owners|] == owners && replies[..|replies|] == replies;
    }
  }

  function Errors(replies: seq<Reply>): nat {
    if replies == [] then 0
    else Errors(replies[..|replies| - 1]) + if IsError(replies[|replies| - 1]) then 1 else 0
  }

  ghost predicate NoErrors(replies: seq<Reply>) {
    forall r <- replies :: !IsError(r)
  }

  ghost predicate OnlyErrors(replies: seq<Reply>) {
    forall r <- replies :: IsError(r)
  }

  lemma SnocReplies(front: seq<Reply>, last: Reply)
    ensures NoErrors(front + [last]) <==> NoErrors(front) && !IsError(last)
    ensures OnlyErrors(front + [last]) <==> OnlyErrors(front) && IsError(last)
  {
    assert forall r :: r in front + [last] <==> r in front || r == last;
  }

  lemma {:induction false} CountErrors(replies: seq<Reply>)
    ensures Errors(replies) <= |replies|
    ensures Errors(replies) == 0 <==> NoErrors(replies)
    ensures Errors(replies) == |replies| <==> OnlyErrors(replies)
  {
    if replies != [] {
      var front, last := replies[..|replies| - 1], replies[|replies| - 1];
      CountErrors(front);
      assert replies == front + [last];
      SnocReplies(front, last);
    }
  }

  /** How many owners acknowledged. */
  function Acks(replies: seq<Reply>): nat {
    if replies == [] then 0
    else Acks(replies[..|replies| - 1]) + if replies[|replies| - 1] == Acked then 1 else 0
  }

  lemma {:induction false} AcksAndErrors(replies: seq<Reply>)
    ensures Acks(replies) + Errors(replies) == |replies|
  {
    if replies != [] { AcksAndErrors(replies[..|replies| - 1]); }
  }

  /** Success by numbers: a single owner has to acknowledge, otherwise all of them in strict mode and one in lenient mode. */
  lemma SucceedsIff(mode: Mode, replies: seq<Reply>)
    ensures Succeeds(mode, replies) <==>
            && replies != []
            && if |replies| == 1 || mode.Strict? then Acks(replies) == |replies| else mode.Lenient? && Acks(replies) >= 1
  {
    AcksAndErrors(replies);
    CountErrors(replies);
    assert |replies| == 1 ==> replies == [replies[0]];
  }

  // ------------------------------------------------------------------ strict success and later reads

  /** Later at one node: a record arrives, by any client's write or an anti-entropy exchange, or the node restarts. */
  datatype Event = Arrived(node: NodeId, key: Key, value: Value) | Restarted(node: NodeId, back: Replica)

  function Later(s: Stores, events: seq<Event>): Stores {
    if events == [] then s
    else
      var before, e := Later(s, events[..|events| - 1]), events[|events| - 1];
      if e.node !in before then before
      else match e
           case Arrived(n, key, value) => before[n := Merge(before[n], key, value)]
           case Restarted(n, back) => before[n := back]
  }

  /** `n` holds something at least as new as the write. */
  ghost predicate Has(s: Stores, n: NodeId, k: Key, v: Value) {
    n in s && k in s[n] && AtLeast(s[n][k], v)
  }

  /** Every restart of `n` brings back something at least as new as the write, or such a record arrives afterwards. */
  predicate Keeps(events: seq<Event>, n: NodeId, k: Key, v: Value) {
    if events == [] then true
    else
      var front := events[..|events| - 1];
      match events[|events| - 1]
      case Arrived(m, key, value) => Keeps(front, n, k, v) || (m == n && key == k && AtLeast(value, v))
      case Restarted(m, back) => if m == n then k in back && AtLeast(back[k], v) else Keeps(front, n, k, v)
  }

  lemma MergeCoversIff(m: Replica, j: Key, w: Value, k: Key, v: Value)
    ensures k in Merge(m, j, w) && AtLeast(Merge(m, j, w)[k], v) <==>
            (k in m && AtLeast(m[k], v)) || (j == k && AtLeast(w, v))
  {
    if j == k && k in m {
      LwwTrichotomy(m[k], w);
      if AtLeast(m[k], v) && LwwWins(m[k], w) { AtLeastTransitive(w, m[k], v); }
      if AtLeast(w, v) && !LwwWins(m[k], w) { AtLeastTransitive(m[k], w, v); }
    }
  }

  /** Exactly then a node that has the write, or something newer, still does. */
  lemma {:induction false} HasLaterIff(s: Stores, events: seq<Event>, n: NodeId, k: Key, v: Value)
    requires Has(s, n, k, v)
    ensures n in Later(s, events) && (Has(Later(s, events), n, k, v) <==> Keeps(events, n, k, v))
  {
    if events != [] {
      var front, e := events[..|events| - 1], events[|events| - 1];
      HasLaterIff(s, front, n, k, v);
      if e.node == n && e.Arrived? { MergeCoversIff(Later(s, front)[n], e.key, e.value, k, v); }
    }
  }

  /** Without a restart nothing that arrives takes it away. */
  lemma {:induction false} HasForever(s: Stores, events: seq<Event>, n: NodeId, k: Key, v: Value)
    requires Has(s, n, k, v) && forall e <- events :: e.Restarted? ==> e.node != n
    ensures Keeps(events, n, k, v) && Has(Later(s, events), n, k, v)
  {
    HasLaterIff(s, events, n, k, v);
    if events != [] {
      assert events[|events| - 1] in events;
      HasForever(s, events[..|events| - 1], n, k, v);
    }
  }

  /** A strict success leaves the write, or something newer, at every owner. */
  lemma StrictReachesAll(s: Stores, owners: seq<NodeId>, replies: seq<Reply>, k: Key, v: Value)
    requires |owners| == |replies| && forall i :: 0 <= i < |owners| ==> replies[i].Refused? || owners[i] in s
    requires Succeeds(Strict, replies)
    ensures owners != [] && forall o <- owners :: Has(Spread(s, owners, replies, k, v), o, k, v)
  {
    forall o | o in owners ensures Has(Spread(s, owners, replies, k, v), o, k, v) {
      var i :| 0 <= i < |owners| && owners[i] == o;
      assert replies[i] in replies;
      assert Reached(owners, replies, o);
      MergeDominates(s[o], k, v);
    }
  }

  /** A lenient success leaves it at one owner at least. */
  lemma LenientReachesSome(s: Stores, owners: seq<NodeId>, replies: seq<Reply>, k: Key, v: Value)
    requires |owners| == |replies| && forall i :: 0 <= i < |owners| ==> replies[i].Refused? || owners[i] in s
    requires Succeeds(Lenient, replies)
    ensures exists o <- owners :: Has(Spread(s, owners, replies, k, v), o, k, v)
  {
    var i :| 0 <= i < |replies| && !IsError(replies[i]);
    var o := owners[i];
    assert Reached(owners, replies, o);
    MergeDominates(s[o], k, v);
    assert o in owners && Has(Spread(s, owners, replies, k, v), o, k, v);
  }

  /** A tombstone at least as new as `v`. */
  ghost predicate Dead(net: Net, n: NodeId, v: Value) {
    Holds(net, n) && Record(net, n).tombstone && AtLeast(Record(net, n), v)
  }

  /**
    * A read at `n` is current with respect to `v`: it ends within one level of proxying; a value it returns is an
    * owner's live record at least as new; and it reports absence only on tombstones at least as new, its own one if the
    * node is an owner, those of all answering owners otherwise.
    */
  ghost predicate Current(net: Net, v: Value, d: nat, n: NodeId) {
    var r := Read(net, d, n);
    && r == Read(net, 1, n) && r != Unfinished
    && (r.Found? ==> AtLeast(r.value, v) && Served(net, n, r.value))
    && (r.Absent? ==>
          if n in net.owners then Dead(net, n, v) else forall o <- net.owners :: o in net.up ==> Dead(net, o, v))
  }

  /** Whichever nodes answer, every read is. */
  ghost predicate AllCurrent(s: Stores, k: Key, owners: seq<NodeId>, v: Value) {
    forall up, d: nat, n :: d > 0 ==> Current(Net(s, k, owners, up), v, d, n)
  }

  lemma HoldersCurrent(net: Net, v: Value, d: nat, n: NodeId)
    requires d > 0 && forall o <- net.owners :: Has(net.stores, o, net.key, v)
    ensures Current(net, v, d, n)
  {
    forall o | o in net.owners ensures Holds(net, o) && AtLeast(Record(net, o), v) {}
    HoldersEnd(net, d, n);
    ReadSource(net, d, n);
  }

  lemma {:induction false} AskNobody(net: Net, d: nat, self: NodeId, os: seq<NodeId>)
    requires net.up == {}
    ensures Ask(net, d, self, os) == Absent
    decreases |os|
  {
    if os != [] { AskNobody(net, d, self, os[1..]); }
  }

  /** Every read is current exactly when every owner has the write or something newer. */
  lemma AllCurrentIff(s: Stores, k: Key, owners: seq<NodeId>, v: Value)
    ensures AllCurrent(s, k, owners, v) <==> forall o <- owners :: Has(s, o, k, v)
  {
    if forall o <- owners :: Has(s, o, k, v) {
      forall up, d: nat, n | d > 0 ensures Current(Net(s, k, owners, up), v, d, n) {
        HoldersCurrent(Net(s, k, owners, up), v, d, n);
      }
    } else {
      var o :| o in owners && !Has(s, o, k, v);
      var net, one := Net(s, k, owners, {}), 1;
      if !Holds(net, o) { AskNobody(net, one, o, owners); }
      assert !Current(net, v, one, o);
    }
  }

  /**
    * After a strict write has succeeded, whatever arrives and whoever restarts: every read is current exactly when no
    * owner came out of a restart with less and without hearing of the write again.
    */
  lemma StrictReadsIff(s: Stores, owners: seq<NodeId>, replies: seq<Reply>, k: Key, v: Value, events: seq<Event>)
    requires |owners| == |replies| && forall i :: 0 <= i < |owners| ==> replies[i].Refused? || owners[i] in s
    requires Succeeds(Strict, replies)
    ensures AllCurrent(Later(Spread(s, owners, replies, k, v), events), k, owners, v) <==>
            forall o <- owners :: Keeps(events, o, k, v)
  {
    var written := Spread(s, owners, replies, k, v);
    StrictReachesAll(s, owners, replies, k, v);
    AllCurrentIff(Later(written, events), k, owners, v);
    forall o | o in owners ensures Has(Later(written, events), o, k, v) <==> Keeps(events, o, k, v) {
      HasLaterIff(written, events, o, k, v);
    }
  }

  /** So without restarts every read is current for ever. */
  lemma StrictReads(s: Stores, owners: seq<NodeId>, replies: seq<Reply>, k: Key, v: Value, events: seq<Event>)
    requires |owners| == |replies| && forall i :: 0 <= i < |owners| ==> replies[i].Refused? || owners[i] in s
    requires Succeeds(Strict, replies) && forall e <- events :: e.Restarted? ==> e.node !in owners
    ensures AllCurrent(Later(Spread(s, owners, replies, k, v), events), k, owners, v)
  {
    StrictReachesAll(s, owners, replies, k, v);
    forall o | o in owners ensures Keeps(events, o, k, v) {
      HasForever(Spread(s, owners, replies, k, v), events, o, k, v);
    }
    StrictReadsIff(s, owners, replies, k, v, events);
  }

  /** What a restart of an owner keeps of a write, told from its snapshot and its log, flushed or not. */
  lemma RestartKeepsIff(env: Crash.Env, actions: seq<Crash.Action>, events: seq<Event>, n: NodeId, r: Request)
    requires env.segments > 0
    ensures var s := Crash.Run(env, Crash.Init(env), actions);
            Keeps(events + [Restarted(n, Crash.Recovered(env, s))], n, r.key, Crash.Stored(env, r)) <==>
            Restart.RankBack(env, s, r)
  {
    Restart.RankBackIff(env, actions, r);
  }
}

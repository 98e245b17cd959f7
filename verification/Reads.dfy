/** Reads in a cluster: the local record, or the owners in turn (cluster/node.go, cluster/gateway/gateway.go). */
module Reads {
  import opened Kv
  import opened Lww
  import opened Placement

  /** What one read sees: every node's records, the key, its owners, and the nodes that answer calls. */
  datatype Net = Net(stores: map<NodeId, Replica>, key: Key, owners: seq<NodeId>, up: set<NodeId>)

  /** `Unfinished` is a read that needs more levels of proxying than it was given. */
  datatype Answer = Found(value: Value) | Absent | Unfinished

  /** A current owner with a record, live or tombstone, answers by itself. */
  predicate Holds(net: Net, n: NodeId) {
    n in net.owners && n in net.stores && net.key in net.stores[n]
  }

  function Record(net: Net, n: NodeId): Value
    requires Holds(net, n)
  {
    net.stores[n][net.key]
  }

  predicate Live(net: Net, n: NodeId) {
    Holds(net, n) && !Record(net, n).tombstone
  }

  function Local(net: Net, n: NodeId): Answer
    requires Holds(net, n)
  {
    if Record(net, n).tombstone then Absent else Found(Record(net, n))
  }

  /** Node.Get at `n` with at most `d` levels of proxying below it. */
  function Read(net: Net, d: nat, n: NodeId): Answer
    decreases d, |net.owners| + 1
  {
    if Holds(net, n) then Local(net, n) else Ask(net, d, n, net.owners)
  }

  /** Gateway.Get: the first owner that answers with a value. */
  function Ask(net: Net, d: nat, self: NodeId, os: seq<NodeId>): Answer
    decreases d, |os|
  {
    if os == [] then Absent
    else if os[0] == self || os[0] !in net.up then Ask(net, d, self, os[1..])
    else if d == 0 then Unfinished
    else
      var r := Read(net, d - 1, os[0]);
      if r.Absent? then Ask(net, d, self, os[1..]) else r
  }

  method NodeGet(net: Net, d: nat, n: NodeId) returns (r: Answer)
    ensures r == Read(net, d, n)
    decreases d, 1
  {
    if n in net.owners && n in net.stores && net.key in net.stores[n] {
      var iv := net.stores[n][net.key];
      if !iv.tombstone { return Found(iv); }
      return Absent;
    }
    r := GatewayGet(net, d, n);
  }

  method GatewayGet(net: Net, d: nat, self: NodeId) returns (r: Answer)
    ensures r == Ask(net, d, self, net.owners)
    decreases d, 0
  {
    for i := 0 to |net.owners|
      invariant Ask(net, d, self, net.owners) == Ask(net, d, self, net.owners[i..])
    {
      var owner := net.owners[i];
      assert net.owners[i..][1..] == net.owners[i + 1..];
      if owner == self { continue; }
      if owner in net.up {
        if d == 0 { return Unfinished; }
        var answer := NodeGet(net, d - 1, owner);
        if !answer.Absent? { return answer; }
      }
    }
    return Absent;
  }

  // ------------------------------------------------------------------ when a read ends

  /** The reachable owners without a record that come before the first reachable live one. */
  function Blockers(net: Net, os: seq<NodeId>): seq<NodeId> {
    if os == [] then []
    else if os[0] !in net.up then Blockers(net, os[1..])
    else if Live(net, os[0]) then []
    else if Holds(net, os[0]) then Blockers(net, os[1..])
    else [os[0]] + Blockers(net, os[1..])
  }

  lemma {:induction false} BlockersLack(net: Net, os: seq<NodeId>, b: NodeId)
    requires b in Blockers(net, os)
    ensures b in os && b in net.up && !Holds(net, b)
    decreases |os|
  {
    if !(os[0] in net.up && !Holds(net, os[0]) && os[0] == b) { BlockersLack(net, os[1..], b); }
  }

  /** A blocker other than the asking node keeps it waiting for as long as the blocker itself waits. */
  lemma {:induction false} AskWaits(net: Net, d: nat, self: NodeId, os: seq<NodeId>, b: NodeId)
    requires b in Blockers(net, os) && b != self
    requires forall n :: !Holds(net, n) && d > 0 ==> Read(net, d - 1, n) == Unfinished
    ensures Ask(net, d, self, os) == Unfinished
    decreases |os|
  {
    if os[0] == self || os[0] !in net.up || Holds(net, os[0]) {
      AskWaits(net, d, self, os[1..], b);
    }
  }

  /** Two blockers ask each other for ever. */
  lemma {:induction false} TwoBlockersLoop(net: Net, d: nat, n: NodeId)
    requires |Blockers(net, net.owners)| >= 2 && NoRepeats(Blockers(net, net.owners)) && !Holds(net, n)
    ensures Read(net, d, n) == Unfinished
    decreases d
  {
    var bs := Blockers(net, net.owners);
    var b := if bs[0] == n then bs[1] else bs[0];
    assert b in bs && b != n;
    if d > 0 {
      forall m | !Holds(net, m) ensures Read(net, d - 1, m) == Unfinished { TwoBlockersLoop(net, d - 1, m); }
    }
    AskWaits(net, d, n, net.owners, b);
  }

  /** Asking ends if every blocker in the way, other than the asking node, ends. */
  lemma {:induction false} AskEnds(net: Net, d: nat, self: NodeId, os: seq<NodeId>)
    requires d > 0 && !Holds(net, self)
    requires forall b <- Blockers(net, os) :: b == self || Read(net, d - 1, b) != Unfinished
    ensures Ask(net, d, self, os) != Unfinished
    decreases |os|
  {
    if os != [] {
      if os[0] in net.up && !Holds(net, os[0]) { assert Blockers(net, os) == [os[0]] + Blockers(net, os[1..]); }
      if !(os[0] in net.up && Live(net, os[0])) {
        forall b | b in Blockers(net, os[1..]) ensures b in Blockers(net, os) {}
        AskEnds(net, d, self, os[1..]);
      }
      if os[0] in Blockers(net, os) { assert os[0] == self || Read(net, d - 1, os[0]) != Unfinished; }
    }
  }

  /** More levels never change an answer. */
  lemma {:induction false} ReadSettles(net: Net, d: nat, n: NodeId)
    requires Read(net, d, n) != Unfinished
    ensures Read(net, d + 1, n) == Read(net, d, n)
    decreases d, |net.owners| + 1
  {
    if !Holds(net, n) { AskSettles(net, d, n, net.owners); }
  }

  lemma {:induction false} AskSettles(net: Net, d: nat, self: NodeId, os: seq<NodeId>)
    requires Ask(net, d, self, os) != Unfinished
    ensures Ask(net, d + 1, self, os) == Ask(net, d, self, os)
    decreases d, |os|
  {
    if os == [] {
    } else if os[0] == self || os[0] !in net.up {
      AskSettles(net, d, self, os[1..]);
    } else {
      ReadSettles(net, d - 1, os[0]);
      if Read(net, d - 1, os[0]).Absent? { AskSettles(net, d, self, os[1..]); }
    }
  }

  lemma {:induction false} SettlesFrom(net: Net, d: nat, n: NodeId, more: nat)
    requires Read(net, d, n) != Unfinished && d <= more
    ensures Read(net, more, n) == Read(net, d, n)
    decreases more - d
  {
    if d < more {
      ReadSettles(net, d, n);
      SettlesFrom(net, d + 1, n, more);
    }
  }

  lemma {:induction false} BlockersDistinct(net: Net, os: seq<NodeId>)
    requires NoRepeats(os)
    ensures NoRepeats(Blockers(net, os))
    decreases |os|
  {
    if os != [] {
      BlockersDistinct(net, os[1..]);
      forall b | b in Blockers(net, os[1..]) ensures b != os[0] {
        BlockersLack(net, os[1..], b);
        var k :| 0 < k < |os| && os[k] == b;
      }
      if os[0] in net.up && !Holds(net, os[0]) {
        var rest := Blockers(net, os[1..]);
        forall j | 0 <= j < |rest| ensures rest[j] != os[0] { assert rest[j] in rest; }
      }
    }
  }

  /**
    * A read ends exactly when the node answers by itself or at most one reachable owner without a record
    * comes before the first reachable live owner; two levels of proxying are then enough.
    */
  lemma ReadEndsIff(net: Net, n: NodeId)
    requires NoRepeats(net.owners)
    ensures (exists d: nat :: Read(net, d, n) != Unfinished) <==> Holds(net, n) || |Blockers(net, net.owners)| < 2
    ensures (exists d: nat :: Read(net, d, n) != Unfinished) ==> Read(net, 2, n) != Unfinished
  {
    var bs := Blockers(net, net.owners);
    if Holds(net, n) {
      assert Read(net, 2, n) != Unfinished;
    } else if |bs| < 2 {
      forall b | b in bs ensures Read(net, 1, b) != Unfinished {
        BlockersLack(net, net.owners, b);
        assert forall c <- bs :: c == b;
        AskEnds(net, 1, b, net.owners);
      }
      var two := 2;
      AskEnds(net, two, n, net.owners);
      assert Read(net, two, n) != Unfinished;
    } else {
      BlockersDistinct(net, net.owners);
      forall d: nat ensures Read(net, d, n) == Unfinished { TwoBlockersLoop(net, d, n); }
    }
  }

  // ------------------------------------------------------------------ what a read can return

  /** `v` is the live record of an owner that `self` can hear. */
  ghost predicate Served(net: Net, self: NodeId, v: Value) {
    exists o <- net.owners :: (o == self || o in net.up) && Live(net, o) && v == Record(net, o)
  }

  lemma {:induction false} AskSource(net: Net, d: nat, self: NodeId, os: seq<NodeId>)
    requires forall o <- os :: o in net.owners
    ensures var r := Ask(net, d, self, os);
            && (r.Found? ==> Served(net, self, r.value))
            && (r.Absent? ==> forall o <- os :: o != self && o in net.up && Holds(net, o) ==> !Live(net, o))
    decreases d, |os|
  {
    if os != [] {
      assert os == [os[0]] + os[1..];
      if os[0] == self || os[0] !in net.up {
        AskSource(net, d, self, os[1..]);
      } else if d > 0 {
        ReadSource(net, d - 1, os[0]);
        if Read(net, d - 1, os[0]).Absent? { AskSource(net, d, self, os[1..]); }
        if Read(net, d - 1, os[0]).Found? {
          var o :| o in net.owners && (o == os[0] || o in net.up) && Live(net, o)
                   && Read(net, d - 1, os[0]).value == Record(net, o);
          assert o in net.up;
        }
      }
    }
  }

  /**
    * In every net and at every depth: a value is the live record of an owner, and absence means that this node
    * holds a tombstone, or holds nothing and no owner it can hear has a live record of its own.
    */
  lemma {:induction false} ReadSource(net: Net, d: nat, n: NodeId)
    ensures var r := Read(net, d, n);
            && (r.Found? ==> Served(net, n, r.value))
            && (r.Absent? ==>
                  if Holds(net, n) then Record(net, n).tombstone
                  else forall o <- net.owners :: o != n && o in net.up && Holds(net, o) ==> Record(net, o).tombstone)
    decreases d, |net.owners| + 1
  {
    if Holds(net, n) {
      if Live(net, n) { assert n in net.owners; }
    } else {
      AskSource(net, d, n, net.owners);
    }
  }

  lemma {:induction false} NoBlockers(net: Net, os: seq<NodeId>)
    requires forall o <- os :: Holds(net, o)
    ensures Blockers(net, os) == []
    decreases |os|
  {
    if os != [] {
      assert os[0] in os;
      NoBlockers(net, os[1..]);
    }
  }

  /** With a record at every owner nothing blocks, and one level is enough. */
  lemma HoldersEnd(net: Net, d: nat, n: NodeId)
    requires d > 0 && forall o <- net.owners :: Holds(net, o)
    ensures Read(net, d, n) != Unfinished && Read(net, d, n) == Read(net, 1, n)
  {
    if !Holds(net, n) {
      NoBlockers(net, net.owners);
      var one := 1;
      AskEnds(net, one, n, net.owners);
      assert Read(net, one, n) != Unfinished;
      SettlesFrom(net, one, n, d);
    }
  }

  function FirstLive(net: Net, os: seq<NodeId>): Answer {
    if os == [] then Absent
    else if os[0] in net.up && Live(net, os[0]) then Found(Record(net, os[0]))
    else FirstLive(net, os[1..])
  }

  lemma {:induction false} AskFirstLive(net: Net, d: nat, self: NodeId, os: seq<NodeId>)
    requires d > 0 && self !in os && forall o <- os :: Holds(net, o)
    ensures Ask(net, d, self, os) == FirstLive(net, os)
    decreases |os|
  {
    if os != [] {
      assert os[0] in os && Read(net, d - 1, os[0]) == Local(net, os[0]);
      AskFirstLive(net, d, self, os[1..]);
    }
  }

  /** With a record at every owner a read is answered by the node itself if it is an owner, otherwise by the first
      reachable owner with a live record: the order of the owners decides, not the age of the records. */
  lemma HoldersAnswer(net: Net, d: nat, n: NodeId)
    requires d > 0 && forall o <- net.owners :: Holds(net, o)
    ensures Read(net, d, n) == if n in net.owners then Local(net, n) else FirstLive(net, net.owners)
  {
    if n !in net.owners { AskFirstLive(net, d, n, net.owners); }
  }

  /** An owner's own tombstone ends the read there, whatever newer record the other owners hold. */
  lemma OwnTombstoneHides(key: Key, a: NodeId, b: NodeId, dead: Value, live: Value, d: nat)
    requires a != b && dead.tombstone && !live.tombstone && LwwWins(dead, live)
    ensures var net := Net(map[a := map[key := dead], b := map[key := live]], key, [a, b], {a, b});
            Read(net, d, a) == Absent && Read(net, d, b) == Found(live)
  {
  }
}

/** Timestamps and causality across nodes (core/clock/clock.go, core/writer/storagewriter.go). */
module Causality {
  import opened Bytes
  import opened Kv
  import opened Clock

  /**
    * A clock event: a local write taking a stamp, or the arrival of a message. A message carries the record of the
    * write `source` with its original stamp; it was sent right after event `via`, by the node of that event, which is
    * the writer or a node that passes the record on.
    */
  datatype Event =
    | Wrote(node: NodeId, now: Millis)
    | Received(node: NodeId, source: nat, via: nat, checked: Millis, now: Millis)

  /** Events in the order of their compare-and-swaps, each with the word it left in its node's clock. */
  datatype History = History(events: seq<Event>, stamps: seq<Stamp>)

  /** The clock of `node` after the first `n` events. */
  function ClockAt(h: History, node: NodeId, n: nat): Stamp
    requires n <= |h.events| == |h.stamps|
  {
    if n == 0 then 0
    else if h.events[n - 1].node == node then h.stamps[n - 1]
    else ClockAt(h, node, n - 1)
  }

  /** The node of event `via` has written or received the record of `source` by then. */
  ghost predicate Carries(h: History, via: nat, source: nat) {
    exists e :: 0 <= e <= via < |h.events| && GotAt(h, e, source) && h.events[e].node == h.events[via].node
  }

  ghost predicate GotAt(h: History, e: nat, source: nat)
    requires e < |h.events|
  {
    if h.events[e].Wrote? then e == source else h.events[e].source == source
  }

  /** Event `i` is a successful step of its node's clock; arrivals passed the drift guard. */
  ghost predicate StepOk(h: History, i: nat)
    requires i < |h.events| == |h.stamps|
  {
    var e := h.events[i];
    var before := ClockAt(h, e.node, i);
    match e
    case Wrote(_, now) => NowAttempt(before, now) == Propose(h.stamps[i])
    case Received(_, source, via, checked, now) =>
      && source < i && h.events[source].Wrote? && via < i && Carries(h, via, source)
      && Accepts(h.stamps[source], checked)
      && UpdateAttempt(before, h.stamps[source], now) == Propose(h.stamps[i])
  }

  ghost predicate IsRun(h: History) {
    |h.events| == |h.stamps| && forall i :: 0 <= i < |h.events| ==> StepOk(h, i)
  }

  /** Later on the same node, or the arrival of this very write. */
  ghost predicate RecordEdge(h: History, i: nat, j: nat) {
    && i < j < |h.events|
    && (h.events[i].node == h.events[j].node || (h.events[j].Received? && h.events[j].source == i))
  }

  /** Later on the same node, or the arrival of a message sent after this event, whatever record it carries. */
  ghost predicate MessageEdge(h: History, i: nat, j: nat) {
    && i < j < |h.events|
    && (h.events[i].node == h.events[j].node || (h.events[j].Received? && h.events[j].via == i))
  }

  /** A chain of any length along the records alone, or along all messages. */
  ghost predicate Chain(h: History, path: seq<nat>, all: bool) {
    |path| > 0 && forall n :: 0 <= n < |path| - 1 ==> Linked(h, path[n], path[n + 1], all)
  }

  ghost predicate Linked(h: History, i: nat, j: nat, all: bool) {
    if all then MessageEdge(h, i, j) else RecordEdge(h, i, j)
  }

  ghost predicate Before(h: History, i: nat, j: nat, all: bool) {
    exists path :: Chain(h, path, all) && |path| > 1 && path[0] == i && path[|path| - 1] == j
  }

  /** `j` has seen the record of `i`, or something that had. */
  ghost predicate Depends(h: History, i: nat, j: nat) {
    Before(h, i, j, false)
  }

  /** Lamport's happens-before, over every message. */
  ghost predicate HappensBefore(h: History, i: nat, j: nat) {
    Before(h, i, j, true)
  }

  lemma {:induction false} ClockCoversPast(h: History, i: nat, n: nat)
    requires IsRun(h) && i < n <= |h.events|
    ensures h.stamps[i] <= ClockAt(h, h.events[i].node, n)
    decreases n
  {
    var node := h.events[i].node;
    if i < n - 1 {
      ClockCoversPast(h, i, n - 1);
      if h.events[n - 1].node == node { StepRaises(h, n - 1); }
    }
  }

  /** Each event leaves its clock above where it was, and an arrival leaves it above the arriving stamp. */
  lemma StepRaises(h: History, i: nat)
    requires IsRun(h) && i < |h.events|
    ensures ClockAt(h, h.events[i].node, i) < h.stamps[i]
    ensures h.events[i].Received? ==> h.events[i].source < i && h.stamps[h.events[i].source] < h.stamps[i]
  {
    var e := h.events[i];
    var before := ClockAt(h, e.node, i);
    assert StepOk(h, i);
    match e
    case Wrote(_, now) => NowAdvances(before, now);
    case Received(_, source, _, _, now) => UpdateAdvances(before, h.stamps[source], now);
  }

  lemma SameNodeRaises(h: History, i: nat, j: nat)
    requires IsRun(h) && i < j < |h.events| && h.events[i].node == h.events[j].node
    ensures h.stamps[i] < h.stamps[j]
  {
    StepRaises(h, j);
    ClockCoversPast(h, i, j);
  }

  lemma RecordEdgeRaises(h: History, i: nat, j: nat)
    requires IsRun(h) && RecordEdge(h, i, j)
    ensures h.stamps[i] < h.stamps[j]
  {
    StepRaises(h, j);
    if h.events[i].node == h.events[j].node { SameNodeRaises(h, i, j); }
  }

  lemma {:induction false} ChainRaises(h: History, path: seq<nat>, all: bool)
    requires IsRun(h) && Chain(h, path, all) && |path| > 1
    requires forall i: nat, j: nat :: Linked(h, i, j, all) ==> h.stamps[i] < h.stamps[j]
    ensures path[0] < |h.events| && path[|path| - 1] < |h.events|
    ensures h.stamps[path[0]] < h.stamps[path[|path| - 1]]
  {
    assert Linked(h, path[0], path[1], all);
    if |path| > 2 {
      var rest := path[1..];
      assert forall n :: 0 <= n < |rest| - 1 ==> Linked(h, path[n + 1], path[n + 2], all) && rest[n] == path[n + 1];
      ChainRaises(h, rest, all);
    }
  }

  /** Along any chain of records, relayed or not, the later event has the strictly larger timestamp. */
  lemma DependsOrdersStamps(h: History, i: nat, j: nat)
    requires IsRun(h) && Depends(h, i, j)
    ensures i < |h.events| && j < |h.events| && h.stamps[i] < h.stamps[j]
  {
    var path :| Chain(h, path, false) && |path| > 1 && path[0] == i && path[|path| - 1] == j;
    forall a: nat, b: nat | Linked(h, a, b, false) ensures h.stamps[a] < h.stamps[b] { RecordEdgeRaises(h, a, b); }
    ChainRaises(h, path, false);
  }

  /** So last-write-wins keeps a write over everything its writer depended on, whatever they contain. */
  lemma DependentWins(h: History, i: nat, j: nat, earlier: Value, later: Value)
    requires IsRun(h) && Depends(h, i, j)
    requires i < |h.stamps| && j < |h.stamps| && earlier.timestamp == h.stamps[i] && later.timestamp == h.stamps[j]
    ensures LwwWins(earlier, later) && !LwwWins(later, earlier)
  {
    DependsOrdersStamps(h, i, j);
  }

  // ------------------------------------------------------------------ relayed records

  /**
    * The relaying node's clock at sending is no later than the record it sends or the receiver's own clock, or the
    * receiver's wall clock has passed it.
    */
  ghost predicate RelayFresh(h: History, j: nat)
    requires j < |h.events| == |h.stamps| && h.events[j].Received? && h.events[j].via < |h.events| && h.events[j].source < |h.events|
  {
    var e := h.events[j];
    || h.stamps[e.via] <= Max(ClockAt(h, e.node, j), h.stamps[e.source])
    || h.stamps[e.via] < Pack(e.now, 0)
  }

  /** Exactly then a message orders everything its sender had done before sending it. */
  lemma RelayOrdersIff(h: History, j: nat)
    requires IsRun(h) && j < |h.events| && h.events[j].Received?
    ensures h.events[j].via < j && h.events[j].source < j
    ensures h.stamps[h.events[j].via] < h.stamps[j] <==> RelayFresh(h, j)
  {
    assert StepOk(h, j);
    var e := h.events[j];
    var before, sent := ClockAt(h, e.node, j), h.stamps[e.source];
    UpdateExact(before, sent, e.now);
    StampAtMoment(Max(before, sent), e.now);
  }

  lemma StampAtMoment(s: Stamp, p: Millis)
    ensures p > Physical(s) ==> s < Pack(p, 0)
    ensures p <= Physical(s) ==> Pack(p, 0) <= s
  {
  }

  /** A message sent before the writer's clock moves on is always fresh. */
  lemma DirectIsFresh(h: History, j: nat)
    requires IsRun(h) && j < |h.events| && h.events[j].Received? && h.events[j].via == h.events[j].source
    ensures h.events[j].source < j && RelayFresh(h, j)
  {
    assert StepOk(h, j);
  }

  ghost predicate AllFresh(h: History)
    requires IsRun(h)
  {
    forall j :: 0 <= j < |h.events| && h.events[j].Received? ==>
      h.events[j].via < |h.events| && h.events[j].source < |h.events| && RelayFresh(h, j)
  }

  ghost predicate StampsFollow(h: History)
    requires |h.events| == |h.stamps|
  {
    forall i: nat, j: nat :: HappensBefore(h, i, j) && i < |h.events| && j < |h.events| ==> h.stamps[i] < h.stamps[j]
  }

  /** Over all messages of a run, happens-before orders timestamps exactly when every message was fresh. */
  lemma HappensBeforeOrdersIff(h: History)
    requires IsRun(h)
    ensures StampsFollow(h) <==> AllFresh(h)
  {
    if AllFresh(h) {
      forall a: nat, b: nat | Linked(h, a, b, true) ensures h.stamps[a] < h.stamps[b] {
        if h.events[a].node == h.events[b].node { SameNodeRaises(h, a, b); } else { RelayOrdersIff(h, b); }
      }
      forall i: nat, j: nat | HappensBefore(h, i, j) ensures i < |h.events| && j < |h.events| && h.stamps[i] < h.stamps[j] {
        var path :| Chain(h, path, true) && |path| > 1 && path[0] == i && path[|path| - 1] == j;
        ChainRaises(h, path, true);
      }
    } else {
      var j :| 0 <= j < |h.events| && h.events[j].Received? &&
               !(h.events[j].via < |h.events| && h.events[j].source < |h.events| && RelayFresh(h, j));
      RelayOrdersIff(h, j);
      var i := h.events[j].via;
      assert Linked(h, i, j, true);
      assert Chain(h, [i, j], true);
      assert HappensBefore(h, i, j);
    }
  }

  // ------------------------------------------------------------------ the stamps of writes alone

  /** The latest write `node` has heard of in any way, by its own events and every message it got, after `n` events. */
  function Heard(h: History, node: NodeId, n: nat): Stamp
    requires n <= |h.events| == |h.stamps|
    decreases n
  {
    if n == 0 then 0
    else
      var before, e := Heard(h, node, n - 1), h.events[n - 1];
      if e.node != node then before
      else if e.Wrote? then Max(before, h.stamps[n - 1])
      else if e.via < n - 1 then Max(before, Heard(h, h.events[e.via].node, e.via + 1))
      else before
  }

  /** `e` is write `i`, or happens after it. */
  ghost predicate Knows(h: History, i: nat, e: nat) {
    i < |h.events| && h.events[i].Wrote? && (i == e || HappensBefore(h, i, e))
  }

  lemma KnowsNext(h: History, i: nat, e: nat, j: nat)
    requires Knows(h, i, e) && Linked(h, e, j, true)
    ensures HappensBefore(h, i, j)
  {
    var path := [i];
    if i != e { path :| Chain(h, path, true) && |path| > 1 && path[0] == i && path[|path| - 1] == e; }
    var longer := path + [j];
    forall n | 0 <= n < |longer| - 1 ensures Linked(h, longer[n], longer[n + 1], true) {
      if n < |path| - 1 { assert Linked(h, path[n], path[n + 1], true); }
    }
    assert Chain(h, longer, true) && longer[0] == i && longer[|longer| - 1] == j;
  }

  lemma {:induction false} HeardGrows(h: History, node: NodeId, m: nat, n: nat)
    requires m <= n <= |h.events| == |h.stamps|
    ensures Heard(h, node, m) <= Heard(h, node, n)
  {
    if m < n { HeardGrows(h, node, m, n - 1); }
  }

  /** A chain of messages carries the news of a write to its last event. */
  lemma {:induction false} NewsTravels(h: History, path: seq<nat>)
    requires IsRun(h) && Chain(h, path, true) && path[0] < |h.events| && h.events[path[0]].Wrote?
    ensures var e := path[|path| - 1]; e < |h.events| && h.stamps[path[0]] <= Heard(h, h.events[e].node, e + 1)
  {
    var last := |path| - 1;
    if last > 0 {
      var front := path[..last];
      forall n | 0 <= n < |front| - 1 ensures Linked(h, front[n], front[n + 1], true) {
        assert Linked(h, path[n], path[n + 1], true);
      }
      NewsTravels(h, front);
      var p, e := path[last - 1], path[last];
      assert Linked(h, p, e, true);
      if h.events[p].node == h.events[e].node { HeardGrows(h, h.events[p].node, p + 1, e + 1); }
    }
  }

  /** And nothing is heard of but by such a chain. */
  lemma {:induction false} NewsHasSource(h: History, node: NodeId, n: nat) returns (i: nat, e: nat)
    requires IsRun(h) && n <= |h.events| && Heard(h, node, n) > 0
    ensures e < n && h.events[e].node == node && Knows(h, i, e) && h.stamps[i] == Heard(h, node, n)
    decreases n
  {
    var ev := h.events[n - 1];
    if Heard(h, node, n) == Heard(h, node, n - 1) {
      i, e := NewsHasSource(h, node, n - 1);
    } else if ev.Wrote? {
      i, e := n - 1, n - 1;
    } else {
      var at;
      i, at := NewsHasSource(h, h.events[ev.via].node, ev.via + 1);
      e := n - 1;
      if at < ev.via {
        assert Linked(h, at, ev.via, true);
        KnowsNext(h, i, at, ev.via);
      }
      assert Linked(h, ev.via, e, true);
      KnowsNext(h, i, ev.via, e);
    }
  }

  /** Two writes, the first happening before the second. */
  ghost predicate WriteBefore(h: History, i: nat, j: nat) {
    i < |h.events| && j < |h.events| && h.events[i].Wrote? && h.events[j].Wrote? && HappensBefore(h, i, j)
  }

  /** Happens-before orders the timestamps of all writes. */
  ghost predicate WritesFollow(h: History)
    requires |h.events| == |h.stamps|
  {
    forall i: nat, j: nat :: WriteBefore(h, i, j) ==> h.stamps[i] < h.stamps[j]
  }

  /** When write `j` takes its stamp, its clock has reached the latest write heard of, or its wall clock has passed it. */
  ghost predicate UpToDate(h: History, j: nat)
    requires j < |h.events| == |h.stamps| && h.events[j].Wrote?
  {
    var e := h.events[j];
    Heard(h, e.node, j) <= ClockAt(h, e.node, j) || Heard(h, e.node, j) < Pack(e.now, 0)
  }

  lemma UpToDateIff(h: History, j: nat)
    requires IsRun(h) && j < |h.events| && h.events[j].Wrote?
    ensures Heard(h, h.events[j].node, j) < h.stamps[j] <==> UpToDate(h, j)
  {
    var e := h.events[j];
    var before := ClockAt(h, e.node, j);
    assert StepOk(h, j);
    StampAtMoment(before, e.now);
  }

  /** What a write may not fall behind is exactly the latest write heard of. */
  lemma WriteOrdersIff(h: History, j: nat)
    requires IsRun(h) && j < |h.events| && h.events[j].Wrote?
    ensures UpToDate(h, j) <==> forall i: nat :: WriteBefore(h, i, j) ==> h.stamps[i] < h.stamps[j]
  {
    var node := h.events[j].node;
    UpToDateIff(h, j);
    if UpToDate(h, j) {
      forall i: nat | WriteBefore(h, i, j) ensures h.stamps[i] < h.stamps[j] {
        HeardBefore(h, i, j);
      }
    } else {
      StepRaises(h, j);
      var i, e := NewsHasSource(h, node, j);
      assert Linked(h, e, j, true);
      KnowsNext(h, i, e, j);
      assert WriteBefore(h, i, j);
    }
  }

  lemma HeardBefore(h: History, i: nat, j: nat)
    requires IsRun(h) && WriteBefore(h, i, j)
    ensures h.stamps[i] <= Heard(h, h.events[j].node, j)
  {
    var path :| Chain(h, path, true) && |path| > 1 && path[0] == i && path[|path| - 1] == j;
    var last := |path| - 1;
    var front := path[..last];
    forall n | 0 <= n < |front| - 1 ensures Linked(h, front[n], front[n + 1], true) {
      assert Linked(h, path[n], path[n + 1], true);
    }
    NewsTravels(h, front);
    assert Linked(h, path[last - 1], path[last], true);
    HeardGrows(h, h.events[j].node, path[last - 1] + 1, j);
  }

  /** Over the writes of a run: happens-before orders their timestamps exactly when every write was up to date. */
  lemma WritesFollowIff(h: History)
    requires IsRun(h)
    ensures WritesFollow(h) <==> forall j :: 0 <= j < |h.events| && h.events[j].Wrote? ==> UpToDate(h, j)
  {
    forall j | 0 <= j < |h.events| && h.events[j].Wrote?
      ensures UpToDate(h, j) <==> forall i: nat :: WriteBefore(h, i, j) ==> h.stamps[i] < h.stamps[j]
    {
      WriteOrdersIff(h, j);
    }
  }

  /**
    * The failing run: B receives A's record, writes much later, and passes A's record on to C, whose clock is behind.
    * C's next write happens after B's and is stamped below it.
    */
  lemma RelayBreaksOrder(a: NodeId, b: NodeId, c: NodeId)
    requires a != b && b != c && a != c
    ensures exists h :: IsRun(h) && HappensBefore(h, 2, 4) && |h.events| == 5 && h.events[2].Wrote? && h.events[4].Wrote?
                        && h.stamps[4] < h.stamps[2]
  {
    var h := History([Wrote(a, 0), Received(b, 0, 0, 0, 0), Wrote(b, 100), Received(c, 0, 2, 0, 0), Wrote(c, 0)],
                     [1, 2, Pack(100, 0), 2, 3]);
    RelayRun(h, a, b, c);
    assert Linked(h, 2, 3, true) && Linked(h, 3, 4, true);
    assert Chain(h, [2, 3, 4], true);
  }

  lemma RelayRun(h: History, a: NodeId, b: NodeId, c: NodeId)
    requires a != b && b != c && a != c
    requires h == History([Wrote(a, 0), Received(b, 0, 0, 0, 0), Wrote(b, 100), Received(c, 0, 2, 0, 0), Wrote(c, 0)],
                          [1, 2, Pack(100, 0), 2, 3])
    ensures IsRun(h)
  {
    assert ClockAt(h, a, 0) == 0 && StepOk(h, 0);
    assert GotAt(h, 0, 0) && Carries(h, 0, 0);
    assert ClockAt(h, b, 1) == ClockAt(h, b, 0) == 0 && StepOk(h, 1);
    assert ClockAt(h, b, 2) == 2 && StepOk(h, 2);
    assert GotAt(h, 1, 0) && Carries(h, 2, 0);
    assert ClockAt(h, c, 3) == ClockAt(h, c, 2) == ClockAt(h, c, 1) == ClockAt(h, c, 0) == 0 && StepOk(h, 3);
    assert ClockAt(h, c, 4) == 2 && StepOk(h, 4);
  }

  // ------------------------------------------------------------------ one arrival

  /** What an arrival does to a clock once its loop ends. */
  function Arrive(before: Stamp, remote: Int64, checked: Millis, now: Millis): Option<Stamp> {
    if !Accepts(remote, checked) then Some(before)
    else
      match UpdateAttempt(before, remote, now)
      case Saturated => Some(before)
      case Retry => None
      case Propose(next) => Some(next)
  }

  /** The receiver's clock ends above the stamp exactly when it already was, or when the drift guard lets
      the stamp in and the clock is below its ceiling. */
  lemma ArrivalOrdersIff(before: Stamp, remote: Int64, checked: Millis, now: Millis)
    requires Arrive(before, remote, checked, now).Some?
    ensures Arrive(before, remote, checked, now).value > remote
            <==> before > remote || (Accepts(remote, checked) && Physical(before) < MAX_PHYSICAL)
  {
    if Accepts(remote, checked) { UpdateAdvances(before, remote, now); }
  }

  /** A drifted stamp breaks the order: the receiver's next write is stamped below the write it has received. */
  lemma DriftBreaksOrder()
    ensures exists before: Stamp, remote: Stamp, now: Millis ::
              && Arrive(before, remote, now, now) == Some(before)
              && NowAttempt(before, now).Propose? && NowAttempt(before, now).next < remote
  {
    var remote := Pack(5001, 0);
    assert Arrive(0, remote, 0, 0) == Some(0);
    assert NowAttempt(0, 0) == Propose(1);
  }
}

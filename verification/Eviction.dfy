/** The messages a shard sends about entries it discards, over one event and over a whole run (core/evict/eviction.go). */
module Eviction {
  import opened Bytes
  import opened Kv
  import opened Recency

  datatype Reason = ReasonTTL | ReasonCapacity

  datatype Message = Message(key: Key, reason: Reason)

  // ------------------------------------------------------------------ one event

  /** The access is a miss on a full shard. */
  predicate Overflows(items: seq<Item>, capacity: nat, h: Word) {
    Find(items, h) == |items| && |items| >= capacity && items != []
  }

  /** One message for each expired entry, oldest first, as far as there is room. */
  function ExpiryMessages(items: seq<Item>, now: int, room: nat): seq<Message> {
    if items == [] || items[|items| - 1].expiry > now then []
    else if room == 0 then ExpiryMessages(items[..|items| - 1], now, 0)
    else [Message(items[|items| - 1].key, ReasonTTL)] + ExpiryMessages(items[..|items| - 1], now, room - 1)
  }

  /** What one event sends; `room` is the space in the channel when it starts. */
  function Sent(items: seq<Item>, capacity: nat, e: Event, room: nat): seq<Message> {
    match e
    case Seen(h, _, _, _) => if Overflows(items, capacity, h) then [Message(items[|items| - 1].key, ReasonCapacity)] else []
    case Delete(_) => []
    case Expire(now) => ExpiryMessages(items, now, room)
  }

  /** One pass of the expiry loop, seen from what is left to send. */
  lemma ExpiryPass(items: seq<Item>, now: int, room: nat, sent: seq<Message>)
    requires items != [] && items[|items| - 1].expiry <= now
    ensures var front, left := items[..|items| - 1], if room > 0 then room - 1 else 0;
            && AfterExpiry(front, now) == AfterExpiry(items, now)
            && (sent + (if room > 0 then [Message(items[|items| - 1].key, ReasonTTL)] else [])) + ExpiryMessages(front, now, left)
               == sent + ExpiryMessages(items, now, room)
  {
    var m, rest := Message(items[|items| - 1].key, ReasonTTL), ExpiryMessages(items[..|items| - 1], now, if room > 0 then room - 1 else 0);
    if room > 0 {
      assert (sent + [m]) + rest == sent + ([m] + rest);
    } else {
      assert sent + [] == sent;
    }
  }

  /** As many messages as entries are discarded or there is room for, about the oldest ones, oldest first. */
  lemma {:induction false} MessagesBounded(items: seq<Item>, now: int, room: nat)
    ensures var gone, sent := |items| - |AfterExpiry(items, now)|, ExpiryMessages(items, now, room);
            && |sent| == (if gone <= room then gone else room) && |sent| <= |items|
            && forall i :: 0 <= i < |sent| ==> sent[i] == Message(items[|items| - 1 - i].key, ReasonTTL)
  {
    ExpiryShape(items, now);
    if items != [] && items[|items| - 1].expiry <= now {
      var front := items[..|items| - 1];
      ExpiryShape(front, now);
      MessagesBounded(front, now, if room == 0 then 0 else room - 1);
      if room > 0 { MessageInFront(items, ExpiryMessages(front, now, room - 1)); }
    }
  }

  lemma MessageInFront(items: seq<Item>, rest: seq<Message>)
    requires items != [] && |rest| < |items|
    requires forall i :: 0 <= i < |rest| ==> rest[i] == Message(items[..|items| - 1][|items| - 2 - i].key, ReasonTTL)
    ensures var sent := [Message(items[|items| - 1].key, ReasonTTL)] + rest;
            forall i :: 0 <= i < |sent| ==> sent[i] == Message(items[|items| - 1 - i].key, ReasonTTL)
  {
  }

  // ------------------------------------------------------------------ a whole run

  /** Everything a run sends; `room(i)` is the space in the channel when event `i` starts. */
  function AllSent(capacity: nat, ttl: int, es: seq<Event>, room: nat -> nat): seq<Message> {
    if es == [] then []
    else
      var n := |es| - 1;
      AllSent(capacity, ttl, es[..n], room) + Sent(AfterAll(capacity, ttl, es[..n]), capacity, es[n], room(n))
  }

  /** The keys pushed out by accesses to a full shard, in order: each time the last of the list. */
  function PushedOut(capacity: nat, ttl: int, es: seq<Event>): seq<Key> {
    if es == [] then []
    else
      var n := |es| - 1;
      var items := AfterAll(capacity, ttl, es[..n]);
      PushedOut(capacity, ttl, es[..n]) +
      if es[n].Seen? && Overflows(items, capacity, es[n].hash) then [items[|items| - 1].key] else []
  }

  function KeysFor(ms: seq<Message>, reason: Reason): seq<Key> {
    if ms == [] then []
    else KeysFor(ms[..|ms| - 1], reason) + if ms[|ms| - 1].reason == reason then [ms[|ms| - 1].key] else []
  }

  lemma {:induction false} KeysForAppend(a: seq<Message>, b: seq<Message>, reason: Reason)
    ensures KeysFor(a + b, reason) == KeysFor(a, reason) + KeysFor(b, reason)
  {
    if b == [] {
      assert a + b == a;
    } else {
      KeysForAppend(a, b[..|b| - 1], reason);
      assert (a + b)[..|a + b| - 1] == a + b[..|b| - 1];
    }
  }

  lemma {:induction false} ExpirySendsTtl(items: seq<Item>, now: int, room: nat)
    ensures KeysFor(ExpiryMessages(items, now, room), ReasonCapacity) == []
  {
    if items != [] && items[|items| - 1].expiry <= now {
      var front := items[..|items| - 1];
      ExpirySendsTtl(front, now, if room > 0 then room - 1 else 0);
      if room > 0 {
        KeysForAppend([Message(items[|items| - 1].key, ReasonTTL)], ExpiryMessages(front, now, room - 1), ReasonCapacity);
      }
    }
  }

  /** Over any run the capacity messages are exactly the pushed-out keys: one for each, in order, none lost. */
  lemma {:induction false} CapacityMessagesExact(capacity: nat, ttl: int, es: seq<Event>, room: nat -> nat)
    ensures KeysFor(AllSent(capacity, ttl, es, room), ReasonCapacity) == PushedOut(capacity, ttl, es)
  {
    if es != [] {
      var n := |es| - 1;
      var items := AfterAll(capacity, ttl, es[..n]);
      CapacityMessagesExact(capacity, ttl, es[..n], room);
      KeysForAppend(AllSent(capacity, ttl, es[..n], room), Sent(items, capacity, es[n], room(n)), ReasonCapacity);
      if es[n].Expire? { ExpirySendsTtl(items, es[n].now, room(n)); }
      if es[n].Seen? && Overflows(items, capacity, es[n].hash) {
        var k := items[|items| - 1].key;
        assert [Message(k, ReasonCapacity)][..0] == [];
        assert KeysFor([Message(k, ReasonCapacity)], ReasonCapacity) == [] + [k];
      }
    }
  }

  /** With accesses only, a push-out takes the entry whose hash is the `capacity`-th most recently accessed. */
  lemma PushesOutLeastRecent(capacity: nat, ttl: int, es: seq<Event>, h: Word)
    requires capacity > 0 && forall e <- es :: e.Seen?
    ensures var items, all := AfterAll(capacity, ttl, es), LatestFirst(Accesses(es));
            Overflows(items, capacity, h) ==>
              |items| == capacity <= |all| && items[capacity - 1].hash == all[capacity - 1] && h !in all[..capacity]
  {
    HoldsMostRecent(capacity, ttl, es);
    var items, all := AfterAll(capacity, ttl, es), LatestFirst(Accesses(es));
    assert |Hashes(items)| == |items|;
    if Overflows(items, capacity, h) {
      assert Hashes(items)[capacity - 1] == items[capacity - 1].hash;
      forall i | 0 <= i < capacity ensures all[i] != h { assert Hashes(items)[i] == items[i].hash; }
    }
  }
}

/** One LRU shard: an intrusive doubly linked list with a hash index (core/evict/eviction.go). */
module Lru {
  import opened Bytes
  import opened Kv
  import opened Recency
  import opened Eviction

  class Entry {
    var key: Key
    var hash: Word
    var expiry: int
    var prev: Entry?
    var next: Entry?
    ghost var seenAt: int

    constructor (key: Key, hash: Word, expiry: int, ghost now: int)
      ensures this.key == key && this.hash == hash && this.expiry == expiry && seenAt == now
    {
      this.key, this.hash, this.expiry, this.prev, this.next, seenAt := key, hash, expiry, null, null, now;
    }

    ghost function View(): Item
      reads this
    {
      Item(hash, key, expiry, seenAt)
    }
  }

  ghost predicate Distinct(order: seq<Entry>) {
    forall i, j :: 0 <= i < j < |order| ==> order[i] != order[j]
  }

  /** Neighbours in the list point at each other, and the ends point nowhere. */
  ghost predicate Chained(o: seq<Entry>)
    reads o
  {
    && (forall i, j :: 0 <= i < j < |o| && j == i + 1 ==> o[i].next == o[j] && o[j].prev == o[i])
    && (o != [] ==> o[0].prev == null && o[|o| - 1].next == null)
  }

  lemma ViewAt(o: seq<Entry>, i: nat)
    requires i < |o|
    ensures Views(o)[i] == o[i].View()
  {
  }

  lemma PushViews(e: Entry, o: seq<Entry>)
    ensures Views([e] + o) == [e.View()] + Views(o)
  {
  }

  lemma CutViews(o: seq<Entry>, i: nat)
    requires i < |o|
    ensures Views(Cut(o, i)) == Cut(Views(o), i)
  {
  }

  lemma CutOver<T>(s: seq<T>, i: nat, x: T)
    requires i < |s|
    ensures Cut(s[i := x], i) == Cut(s, i)
  {
  }

  lemma CutDistinct(o: seq<Entry>, i: nat)
    requires i < |o| && Distinct(o)
    ensures Distinct(Cut(o, i))
  {
  }

  lemma CutMisses(o: seq<Entry>, i: nat)
    requires i < |o| && Distinct(o)
    ensures o[i] !in Cut(o, i)
  {
  }

  /** The index finds each listed hash, at its entry, and no other hash. */
  ghost predicate Points(cache: map<Word, Entry>, order: seq<Entry>, items: seq<Item>) {
    |cache| == |order| == |items| && Files(cache, order, items)
  }

  ghost predicate Files(cache: map<Word, Entry>, order: seq<Entry>, items: seq<Item>)
    requires |order| == |items|
  {
    forall i :: 0 <= i < |items| ==> items[i].hash in cache && cache[items[i].hash] == order[i]
  }

  ghost function Keys(items: seq<Item>): set<Word> {
    set x | x in items :: x.hash
  }

  lemma PointsUnique(cache: map<Word, Entry>, order: seq<Entry>, items: seq<Item>)
    requires Points(cache, order, items) && Distinct(order)
    ensures Unique(items)
  {
    forall i, j | 0 <= i < j < |items| ensures items[i].hash != items[j].hash {
      assert cache[items[i].hash] == order[i] && cache[items[j].hash] == order[j];
    }
  }

  lemma {:induction false} KeysCount(items: seq<Item>)
    requires Unique(items)
    ensures |Keys(items)| == |items|
  {
    if items == [] {
      assert Keys(items) == {};
    } else {
      KeysCount(items[1..]);
      KeysPush(items[1..], items[0]);
      assert items == [items[0]] + items[1..];
      assert items[0].hash !in Keys(items[1..]) by { NotAgain(items); }
    }
  }

  lemma NotAgain(items: seq<Item>)
    requires items != [] && Unique(items)
    ensures items[0].hash !in Keys(items[1..])
  {
    forall x | x in items[1..] ensures x.hash != items[0].hash {
      var k :| 0 < k < |items| && items[k] == x;
    }
  }

  /** As many hashes as entries, each found: so the index holds no other hash. */
  lemma PointsFind(cache: map<Word, Entry>, order: seq<Entry>, items: seq<Item>, h: Word)
    requires Points(cache, order, items) && Distinct(order)
    ensures h in cache <==> Find(items, h) < |items|
    ensures h in cache ==> cache[h] == order[Find(items, h)]
  {
    PointsUnique(cache, order, items);
    KeysCount(items);
    assert Keys(items) <= cache.Keys by {
      forall x | x in items ensures x.hash in cache {
        var k :| 0 <= k < |items| && items[k] == x;
      }
    }
    SameSize(Keys(items), cache.Keys);
    var i := Find(items, h);
    if i < |items| { assert items[i] in items; }
  }

  lemma SameSize(a: set<Word>, b: set<Word>)
    requires a <= b && |a| == |b|
    ensures a == b
  {
    assert b == a + (b - a);
    assert |b - a| == 0;
  }

  lemma PointsCut(cache: map<Word, Entry>, order: seq<Entry>, items: seq<Item>, i: nat)
    requires Points(cache, order, items) && Distinct(order) && i < |order|
    ensures Points(cache - {items[i].hash}, Cut(order, i), Cut(items, i))
  {
    PointsUnique(cache, order, items);
    OneLess(cache, items[i].hash);
    forall k | 0 <= k < |Cut(items, i)|
      ensures var x := Cut(items, i)[k].hash; x != items[i].hash && x in cache && cache[x] == Cut(order, i)[k]
    {
      CutAt(items, i, k);
      CutAt(order, i, k);
    }
  }

  lemma OneLess(cache: map<Word, Entry>, h: Word)
    requires h in cache
    ensures |cache - {h}| == |cache| - 1
  {
    assert cache == (cache - {h})[h := cache[h]];
  }

  lemma PointsMove(cache: map<Word, Entry>, order: seq<Entry>, items: seq<Item>, i: nat, x: Item)
    requires Points(cache, order, items) && Distinct(order) && i < |order| && x.hash == items[i].hash
    ensures Points(cache, [order[i]] + Cut(order, i), [x] + Cut(items, i))
  {
    PointsCut(cache, order, items, i);
    PointsPush(cache - {x.hash}, Cut(order, i), Cut(items, i), order[i], x);
    assert cache == (cache - {x.hash})[x.hash := order[i]];
  }

  lemma PointsPush(cache: map<Word, Entry>, order: seq<Entry>, items: seq<Item>, e: Entry, x: Item)
    requires Points(cache, order, items) && x.hash !in cache
    ensures Points(cache[x.hash := e], [e] + order, [x] + items)
  {
    FilesPush(cache, order, items, e, x);
  }

  lemma KeysPush(items: seq<Item>, x: Item)
    ensures Keys([x] + items) == Keys(items) + {x.hash}
  {
    assert forall y :: y in [x] + items <==> y == x || y in items;
  }

  lemma FilesPush(cache: map<Word, Entry>, order: seq<Entry>, items: seq<Item>, e: Entry, x: Item)
    requires |order| == |items| && Files(cache, order, items) && x.hash !in cache
    ensures Files(cache[x.hash := e], [e] + order, [x] + items)
  {
    var xs, es, added := [x] + items, [e] + order, cache[x.hash := e];
    forall i | 0 <= i < |xs| ensures xs[i].hash in added && added[xs[i].hash] == es[i] {
      if i > 0 { assert xs[i] == items[i - 1] && es[i] == order[i - 1]; }
    }
  }

  ghost function Views(order: seq<Entry>): (items: seq<Item>)
    reads order
    ensures |items| == |order|
  {
    seq(|order|, i requires 0 <= i < |order| reads order => order[i].View())
  }

  ghost predicate Owned(o: seq<Entry>, repr: set<Entry>) {
    forall i :: 0 <= i < |o| ==> o[i] in repr
  }

  lemma OwnedCut(o: seq<Entry>, repr: set<Entry>, i: nat)
    requires Owned(o, repr) && i < |o|
    ensures Owned(Cut(o, i), repr)
  {
  }

  lemma OwnedPush(e: Entry, o: seq<Entry>, repr: set<Entry>)
    requires Owned(o, repr)
    ensures Owned([e] + o, repr + {e})
  {
  }

  /** The pointers spell out `o` from head to tail. */
  ghost predicate Linked(head: Entry?, tail: Entry?, o: seq<Entry>)
    reads o
  {
    && Distinct(o) && Chained(o)
    && head == (if o == [] then null else o[0])
    && tail == (if o == [] then null else o[|o| - 1])
  }

  class LruShard {
    var head: Entry?
    var tail: Entry?
    var cache: map<Word, Entry>
    var evictCh: seq<Message>
    const ttl: int
    const capacity: nat
    ghost var order: seq<Entry>
    ghost var items: seq<Item>
    ghost var repr: set<Entry>

    /** The index and the list hold the same entries. */
    ghost predicate Valid()
      reads this, repr
    {
      && Owned(order, repr)
      && Linked(head, tail, order)
      && Views(order) == items
      && Points(cache, order, items)
      && 0 < capacity && |order| <= capacity
    }

    constructor (capacity: nat, ttl: int)
      requires capacity > 0
      ensures Valid() && items == [] && evictCh == [] && this.capacity == capacity && this.ttl == ttl && repr == {}
    {
      this.capacity, this.ttl := capacity, ttl;
      head, tail, cache, evictCh, order, items, repr := null, null, map[], [], [], [], {};
    }

    method Remove(e: Entry, ghost i: nat)
      requires Linked(head, tail, order) && i < |order| && order[i] == e
      modifies this`head, this`tail, this`order, order`prev, order`next
      ensures Linked(head, tail, order) && order == Cut(old(order), i) && Views(order) == Cut(old(Views(order)), i)
    {
      ghost var o := order;
      assert i > 0 ==> e.prev == o[i - 1] && o[i - 1].next == e;
      assert i + 1 < |o| ==> e.next == o[i + 1] && o[i + 1].prev == e;
      if e.prev != null { e.prev.next := e.next; } else { head := e.next; }
      if e.next != null { e.next.prev := e.prev; } else { tail := e.prev; }
      e.prev := null;
      e.next := null;
      order := Cut(o, i);
      CutDistinct(o, i);
      assert Views(o) == old(Views(o));
      CutViews(o, i);
      forall k, l | 0 <= k < l < |order| && l == k + 1 ensures order[k].next == order[l] && order[l].prev == order[k] {
        CutAt(o, i, k);
        CutAt(o, i, l);
        assert k != i - 1 ==> old(o[if k < i then k else k + 1].next == o[if l < i then l else l + 1]);
      }
    }

    method PushFront(e: Entry)
      requires Linked(head, tail, order) && e !in order
      modifies this`head, this`tail, this`order, order`prev, e`prev, e`next
      ensures Linked(head, tail, order) && order == [e] + old(order)
      ensures Views(order) == [old(e.View())] + old(Views(order))
    {
      e.next := head;
      e.prev := null;
      if head != null { head.prev := e; }
      head := e;
      if tail == null { tail := e; }
      assert Views(order) == old(Views(order));
      PushViews(e, order);
      order := [e] + order;
    }

    lemma Locate(hash: Word) returns (i: nat)
      requires Valid()
      ensures i == Find(items, hash)
      ensures if i < |items| then hash in cache && cache[hash] == order[i] else i == |items| && hash !in cache
    {
      i := Find(items, hash);
      PointsFind(cache, order, items, hash);
    }

    method Reindex(index: map<Word, Entry>, ghost listed: seq<Item>)
      requires Owned(order, repr) && Linked(head, tail, order) && Views(order) == listed
      requires Points(index, order, listed) && 0 < capacity && |order| <= capacity
      modifies this`cache, this`items
      ensures Valid() && cache == index && items == listed
    {
      cache, items := index, listed;
    }

    /** Unlink an entry and forget its hash. */
    method Discard(e: Entry, ghost i: nat)
      requires Valid() && i < |order| && order[i] == e
      modifies this`head, this`tail, this`order, this`cache, this`items, repr`prev, repr`next
      ensures Valid() && items == Cut(old(items), i)
      ensures forall h <- cache :: h in old(cache)
    {
      PointsCut(cache, order, items, i);
      OwnedCut(order, repr, i);
      ViewAt(order, i);
      Remove(e, i);
      Reindex(cache - {e.hash}, Cut(items, i));
    }

    /** A new entry in front. */
    method Link(e: Entry)
      requires Valid() && |order| < capacity && e !in repr && e.hash !in cache
      modifies this`head, this`tail, this`order, this`cache, this`items, this`repr, repr`prev, e`prev, e`next
      ensures Valid() && items == [old(e.View())] + old(items) && repr == old(repr) + {e}
    {
      PointsPush(cache, order, items, e, e.View());
      OwnedPush(e, order, repr);
      repr := repr + {e};
      PushFront(e);
      Reindex(cache[e.hash := e], [e.View()] + items);
    }

    /** A blank entry, filled in. */
    method Allocate(key: Key, hash: Word, expiry: int, ghost now: int) returns (e: Entry)
      requires Valid()
      ensures Valid() && fresh(e) && e !in repr && e.hash == hash && e.View() == Item(hash, key, expiry, now)
    {
      e := new Entry(key, hash, expiry, now);
    }

    method MoveToFront(e: Entry, ghost i: nat)
      requires Linked(head, tail, order) && i < |order| && order[i] == e
      modifies this`head, this`tail, this`order, order`prev, order`next
      ensures Linked(head, tail, order) && order == [e] + Cut(old(order), i)
      ensures Views(order) == [old(e.View())] + Cut(old(Views(order)), i)
    {
      CutMisses(order, i);
      Remove(e, i);
      PushFront(e);
    }

    method Touch(e: Entry, expiry: int, ghost now: int, ghost i: nat)
      requires Linked(head, tail, order) && i < |order| && order[i] == e
      modifies e`expiry, e`seenAt
      ensures Linked(head, tail, order)
      ensures e.View() == Item(old(e.hash), old(e.key), expiry, now) && Views(order) == old(Views(order))[i := e.View()]
    {
      e.expiry := expiry;
      e.seenAt := now;
    }

    method Promote(e: Entry, expiry: int, ghost now: int, ghost i: nat)
      requires Linked(head, tail, order) && i < |order| && order[i] == e
      modifies this`head, this`tail, this`order, order
      ensures Linked(head, tail, order) && order == [e] + Cut(old(order), i)
      ensures Views(order) == [Item(old(e.hash), old(e.key), expiry, now)] + Cut(old(Views(order)), i)
    {
      CutOver(Views(order), i, Item(e.hash, e.key, expiry, now));
      Touch(e, expiry, now, i);
      MoveToFront(e, i);
    }

    /** An existing entry with a new expiry moves to the front. */
    method Refresh(e: Entry, expiry: int, ghost now: int, ghost i: nat)
      requires Valid() && i < |order| && order[i] == e
      modifies this`head, this`tail, this`order, this`cache, this`items, repr
      ensures Valid()
      ensures items == [Item(old(items)[i].hash, old(items)[i].key, expiry, now)] + Cut(old(items), i)
    {
      ViewAt(order, i);
      ghost var x := Item(e.hash, e.key, expiry, now);
      PointsMove(cache, order, items, i, x);
      OwnedCut(order, repr, i);
      OwnedPush(e, Cut(order, i), repr);
      assert repr + {e} == repr;
      Promote(e, expiry, now, i);
      Reindex(cache, [x] + Cut(items, i));
    }

    method EvictOldest()
      requires Valid()
      modifies this`head, this`tail, this`order, this`cache, this`items, this`evictCh, repr`prev, repr`next
      ensures Valid() && (forall h <- cache :: h in old(cache))
      ensures var was := old(items);
              if was == [] then items == [] && evictCh == old(evictCh)
              else
                && items == was[..|was| - 1]
                && evictCh == old(evictCh) + [Message(was[|was| - 1].key, ReasonCapacity)]
    {
      if tail == null { return; }
      var e := tail;
      ViewAt(order, |order| - 1);
      evictCh := evictCh + [Message(e.key, ReasonCapacity)];
      Discard(e, |order| - 1);
    }

    method Delete(hash: Word)
      requires Valid()
      modifies this`head, this`tail, this`order, this`cache, this`items, repr`prev, repr`next
      ensures Valid()
      ensures items == Drop(old(items), hash)
      ensures items == Others(old(items), hash)
    {
      ghost var i := Locate(hash);
      DropIsOthers(items, hash);
      if hash in cache { Discard(cache[hash], i); }
    }

    method MakeRoom()
      requires Valid()
      modifies this`head, this`tail, this`order, this`cache, this`items, this`evictCh, repr`prev, repr`next
      ensures Valid() && |order| < capacity && (forall h <- cache :: h in old(cache))
      ensures items == if |old(items)| >= capacity then old(items)[..|old(items)| - 1] else old(items)
      ensures evictCh == old(evictCh) +
                         if |old(items)| == capacity then [Message(old(items)[|old(items)| - 1].key, ReasonCapacity)] else []
    {
      if |cache| >= capacity { EvictOldest(); }
    }

    method AdmitNew(key: Key, hash: Word, expiry: int, ghost now: int)
      requires Valid() && |order| < capacity && hash !in cache
      modifies this`head, this`tail, this`order, this`cache, this`items, this`repr, repr`prev, repr`next
      ensures Valid() && fresh(repr - old(repr)) && items == [Item(hash, key, expiry, now)] + old(items)
    {
      var e := Allocate(key, hash, expiry, now);
      Link(e);
      assert repr - old(repr) <= {e};
    }

    /** A hash the shard does not hold. */
    method Admit(key: Key, hash: Word, expiry: int, ghost now: int)
      requires Valid() && hash !in cache
      modifies this`head, this`tail, this`order, this`cache, this`items, this`evictCh, this`repr, repr`prev, repr`next
      ensures Valid() && fresh(repr - old(repr))
      ensures var was := old(items);
              && items == [Item(hash, key, expiry, now)] + (if |was| >= capacity then was[..|was| - 1] else was)
              && evictCh == old(evictCh) +
                 if |was| == capacity then [Message(was[|was| - 1].key, ReasonCapacity)] else []
    {
      MakeRoom();
      AdmitNew(key, hash, expiry, now);
    }

    /**
      * What the most recent access does to the list, and the one message a capacity eviction sends. `draw` is the
      * random number; the jitter is drawn below `ttl / 10`, and the draw panics when that is not positive.
      */
    method Seen(key: Key, hash: Word, now: int, draw: nat) returns (panicked: bool)
      requires Valid()
      modifies this, repr
      ensures Valid() && fresh(repr - old(repr)) && (panicked <==> ttl < 10)
      ensures panicked ==> items == old(items) && evictCh == old(evictCh)
      ensures !panicked ==> items == AfterSeen(old(items), capacity, hash, key, now + ttl + draw % (ttl / 10), now)
      ensures !panicked ==>
                var was := old(items);
                evictCh == old(evictCh) +
                if Overflows(was, capacity, hash) then [Message(was[|was| - 1].key, ReasonCapacity)] else []
    {
      if ttl / 10 <= 0 { return true; }
      ghost var i := Locate(hash);
      Access(key, hash, now + ttl + draw % (ttl / 10), now, i);
      return false;
    }

    method Access(key: Key, hash: Word, expiry: int, ghost now: int, ghost i: nat)
      requires Valid() && i <= |items|
      requires if i < |items| then hash in cache && cache[hash] == order[i] && items[i].hash == hash else hash !in cache
      modifies this, repr
      ensures Valid() && fresh(repr - old(repr))
      ensures items == SeenAt(old(items), capacity, i, hash, key, expiry, now)
      ensures var was := old(items);
              evictCh == old(evictCh) + if i == |was| >= capacity then [Message(was[|was| - 1].key, ReasonCapacity)] else []
    {
      if hash in cache {
        Refresh(cache[hash], expiry, now, i);
      } else {
        Admit(key, hash, expiry, now);
      }
    }

    /** Discard from the tail while it has expired; a message that finds no room is dropped. */
    method EvictExpired(now: int, room: nat)
      requires Valid()
      modifies this`head, this`tail, this`order, this`cache, this`items, this`evictCh, repr`prev, repr`next
      ensures Valid() && items == AfterExpiry(old(items), now)
      ensures evictCh == old(evictCh) + ExpiryMessages(old(items), now, room)
    {
      var left, more := room, tail != null;
      while more
        invariant Valid() && (more ==> tail != null) && (!more ==> items == [] || items[|items| - 1].expiry > now)
        invariant AfterExpiry(items, now) == AfterExpiry(old(items), now)
        invariant evictCh + ExpiryMessages(items, now, left) == old(evictCh) + ExpiryMessages(old(items), now, room)
        decreases |items|, more
      {
        more, left := ExpireStep(now, left);
      }
    }

    method ExpireStep(now: int, room: nat) returns (more: bool, left: nat)
      requires Valid() && tail != null
      modifies this`head, this`tail, this`order, this`cache, this`items, this`evictCh, repr`prev, repr`next
      ensures Valid() && AfterExpiry(items, now) == AfterExpiry(old(items), now)
      ensures evictCh + ExpiryMessages(items, now, left) == old(evictCh) + ExpiryMessages(old(items), now, room)
      ensures if more then tail != null && |items| < |old(items)| else items == [] || items[|items| - 1].expiry > now
      ensures |items| <= |old(items)|
    {
      ghost var was, sent := items, evictCh;
      more, left := ExpireTail(now, room);
      if was[|was| - 1].expiry <= now { ExpiryPass(was, now, room, sent); }
    }

    /** The body of the loop: whether it goes on, and the room it leaves. */
    method ExpireTail(now: int, room: nat) returns (more: bool, left: nat)
      requires Valid() && tail != null
      modifies this`head, this`tail, this`order, this`cache, this`items, this`evictCh, repr`prev, repr`next
      ensures Valid() && old(items) != []
      ensures var last := old(items)[|old(items)| - 1];
              if last.expiry > now then
                !more && items == old(items) && evictCh == old(evictCh) && left == room
              else
                && items == old(items)[..|old(items)| - 1] && more == (items != []) && (more ==> tail != null)
                && evictCh == old(evictCh) + (if room > 0 then [Message(last.key, ReasonTTL)] else [])
                && left == if room > 0 then room - 1 else 0
    {
      var e := tail;
      ViewAt(order, |order| - 1);
      left := room;
      if e.expiry > now { return false, left; }
      if left > 0 {
        evictCh := evictCh + [Message(e.key, ReasonTTL)];
        left := left - 1;
      }
      CutLast(items);
      Discard(e, |order| - 1);
      more := tail != null;
    }

    method Handle(e: Event, room: nat)
      requires Valid() && (e.Seen? ==> e.jitter < ttl / 10)
      modifies this, repr
      ensures Valid() && items == After(old(items), capacity, ttl, e) && fresh(repr - old(repr))
      ensures evictCh == old(evictCh) + Sent(old(items), capacity, e, room)
    {
      match e
      case Seen(_, _, _, _) => HandleSeen(e);
      case Delete(h) => Delete(h);
      case Expire(now) => EvictExpired(now, room);
    }

    method HandleSeen(e: Event)
      requires Valid() && e.Seen? && e.jitter < ttl / 10
      modifies this, repr
      ensures Valid() && items == After(old(items), capacity, ttl, e) && fresh(repr - old(repr))
      ensures evictCh == old(evictCh) + Sent(old(items), capacity, e, 0)
    {
      assert e.jitter % (ttl / 10) == e.jitter;
      var panicked := Seen(e.key, e.hash, e.now, e.jitter);
    }
  }

  lemma CutLast(items: seq<Item>)
    requires items != []
    ensures Cut(items, |items| - 1) == items[..|items| - 1]
  {
  }

  /** A new shard after any run of accesses, deletions and expiry ticks: the list, the index size and all messages. */
  method RunShard(capacity: nat, ttl: int, es: seq<Event>, start: int, room: nat -> nat) returns (s: LruShard)
    requires capacity > 0 && AllTimely(es, ttl, start)
    ensures s.Valid() && s.items == AfterAll(capacity, ttl, es) && s.evictCh == AllSent(capacity, ttl, es, room)
    ensures |s.cache| <= capacity && Kept(s.items, capacity, ttl, Recency.Clock(es, start))
  {
    s := new LruShard(capacity, ttl);
    for i := 0 to |es|
      invariant s.Valid() && s.capacity == capacity && s.ttl == ttl && fresh(s) && fresh(s.repr)
      invariant s.items == AfterAll(capacity, ttl, es[..i]) && s.evictCh == AllSent(capacity, ttl, es[..i], room)
    {
      TimelyAt(es, ttl, start, i);
      assert es[..i + 1][..i] == es[..i];
      s.Handle(es[i], room(i));
    }
    assert es[..|es|] == es;
    RunKeeps(capacity, ttl, es, start);
  }
}

/** The recency list an LRU shard stands for, as a value (core/evict/eviction.go). */
module Recency {
  import opened Bytes
  import opened Kv

  /** One cached access: the key is the first one seen under its hash. */
  datatype Item = Item(hash: Word, key: Key, expiry: int, seenAt: int)

  ghost predicate Unique(items: seq<Item>) {
    forall i, j :: 0 <= i < j < |items| ==> items[i].hash != items[j].hash
  }

  function FindFrom(items: seq<Item>, h: Word, from: nat): (i: nat)
    requires from <= |items|
    ensures from <= i <= |items| && (i < |items| ==> items[i].hash == h)
    ensures forall k :: from <= k < i ==> items[k].hash != h
    decreases |items| - from
  {
    if from == |items| || items[from].hash == h then from else FindFrom(items, h, from + 1)
  }

  /** Where the entry of a hash is, or the length of the list. */
  function Find(items: seq<Item>, h: Word): (i: nat)
    ensures i <= |items| && (i < |items| ==> items[i].hash == h)
    ensures forall k :: 0 <= k < i ==> items[k].hash != h
  {
    FindFrom(items, h, 0)
  }

  function Cut<T>(s: seq<T>, i: nat): seq<T>
    requires i < |s|
  {
    s[..i] + s[i + 1..]
  }

  function DropAt(items: seq<Item>, i: nat): seq<Item> {
    if i < |items| then Cut(items, i) else items
  }

  function Drop(items: seq<Item>, h: Word): seq<Item> {
    DropAt(items, Find(items, h))
  }

  /** A hit at `i` moves to the front; a miss enters there and pushes out the last one when full. */
  function SeenAt(items: seq<Item>, capacity: nat, i: nat, h: Word, key: Key, expiry: int, now: int): seq<Item> {
    if i < |items| then [Item(h, items[i].key, expiry, now)] + Cut(items, i)
    else [Item(h, key, expiry, now)] + if |items| >= capacity && items != [] then items[..|items| - 1] else items
  }

  function AfterSeen(items: seq<Item>, capacity: nat, h: Word, key: Key, expiry: int, now: int): seq<Item> {
    SeenAt(items, capacity, Find(items, h), h, key, expiry, now)
  }

  /** Expiry gives up at the first entry, from the oldest, that is still alive. */
  function AfterExpiry(items: seq<Item>, now: int): seq<Item> {
    if items == [] || items[|items| - 1].expiry > now then items else AfterExpiry(items[..|items| - 1], now)
  }

  datatype Event =
    | Seen(hash: Word, key: Key, now: int, jitter: nat)
    | Delete(hash: Word)
    | Expire(now: int)

  function After(items: seq<Item>, capacity: nat, ttl: int, e: Event): seq<Item> {
    match e
    case Seen(h, key, now, jitter) => AfterSeen(items, capacity, h, key, now + ttl + jitter, now)
    case Delete(h) => Drop(items, h)
    case Expire(now) => AfterExpiry(items, now)
  }

  function AfterAll(capacity: nat, ttl: int, es: seq<Event>): seq<Item> {
    if es == [] then [] else After(AfterAll(capacity, ttl, es[..|es| - 1]), capacity, ttl, es[|es| - 1])
  }

  // ------------------------------------------------------------------ what every run keeps

  /** Every entry expires between one lifespan and a tenth more after it was last seen. */
  ghost predicate Windowed(items: seq<Item>, ttl: int) {
    forall i :: 0 <= i < |items| ==> items[i].seenAt + ttl <= items[i].expiry < items[i].seenAt + ttl + ttl / 10
  }

  ghost predicate MostRecentFirst(items: seq<Item>) {
    forall i, j :: 0 <= i < j < |items| ==> items[i].seenAt >= items[j].seenAt
  }

  ghost predicate Kept(items: seq<Item>, capacity: nat, ttl: int, now: int) {
    && Unique(items) && |items| <= capacity
    && Windowed(items, ttl) && MostRecentFirst(items)
    && forall i :: 0 <= i < |items| ==> items[i].seenAt <= now
  }

  /** What the source's clock and jitter allow after time `now`. */
  ghost predicate Timely(e: Event, ttl: int, now: int) {
    match e
    case Seen(_, _, t, jitter) => now <= t && jitter < ttl / 10
    case Delete(_) => true
    case Expire(t) => now <= t
  }

  /** There is a jitter to draw, and so an access that does not panic, exactly from 10 ns on. */
  lemma AccessPossibleIff(ttl: int, now: int, h: Word, key: Key)
    ensures (exists e: Event :: e.Seen? && Timely(e, ttl, now)) <==> ttl >= 10
  {
    if ttl >= 10 { assert Timely(Seen(h, key, now, 0), ttl, now); }
  }

  function TimeOf(e: Event, now: int): int {
    match e
    case Seen(_, _, t, _) => t
    case Delete(_) => now
    case Expire(t) => t
  }

  lemma {:induction false} ExpiryShape(items: seq<Item>, now: int)
    ensures var r := AfterExpiry(items, now);
            && r <= items
            && (forall i :: |r| <= i < |items| ==> items[i].expiry <= now)
            && (r != [] ==> r[|r| - 1].expiry > now)
  {
    if items != [] && items[|items| - 1].expiry <= now { ExpiryShape(items[..|items| - 1], now); }
  }

  lemma CutAt<T>(s: seq<T>, i: nat, k: nat)
    requires i < |s| && k < |s| - 1
    ensures Cut(s, i)[k] == s[if k < i then k else k + 1]
  {
  }

  lemma CutMembers(items: seq<Item>, i: nat)
    requires i < |items| && Unique(items)
    ensures forall k :: 0 <= k < |Cut(items, i)| ==> Cut(items, i)[k].hash != items[i].hash
  {
    forall k | 0 <= k < |Cut(items, i)| ensures Cut(items, i)[k].hash != items[i].hash {
      CutAt(items, i, k);
    }
  }

  lemma CutOrdered(items: seq<Item>, i: nat)
    requires i < |items| && Unique(items) && MostRecentFirst(items)
    ensures Unique(Cut(items, i)) && MostRecentFirst(Cut(items, i))
  {
    var d := Cut(items, i);
    forall k, l | 0 <= k < l < |d| ensures d[k].hash != d[l].hash && d[k].seenAt >= d[l].seenAt {
      CutAt(items, i, k);
      CutAt(items, i, l);
    }
  }

  lemma CutKept(items: seq<Item>, i: nat, capacity: nat, ttl: int, now: int)
    requires Kept(items, capacity, ttl, now) && i < |items|
    ensures Kept(Cut(items, i), capacity, ttl, now)
  {
    CutOrdered(items, i);
    forall k | 0 <= k < |Cut(items, i)|
      ensures var x := Cut(items, i)[k]; x.seenAt <= now && x.seenAt + ttl <= x.expiry < x.seenAt + ttl + ttl / 10
    {
      CutAt(items, i, k);
    }
  }

  lemma EnterKept(items: seq<Item>, x: Item, capacity: nat, ttl: int, now: int)
    requires Kept(items, capacity, ttl, now) && |items| < capacity
    requires now <= x.seenAt && x.seenAt + ttl <= x.expiry < x.seenAt + ttl + ttl / 10
    requires forall k :: 0 <= k < |items| ==> items[k].hash != x.hash
    ensures Kept([x] + items, capacity, ttl, x.seenAt)
  {
  }

  lemma PrefixKept(items: seq<Item>, n: nat, capacity: nat, ttl: int, now: int, later: int)
    requires Kept(items, capacity, ttl, now) && n <= |items| && now <= later
    ensures Kept(items[..n], capacity, ttl, later)
  {
  }

  lemma HitKeeps(items: seq<Item>, capacity: nat, ttl: int, now: int, i: nat, t: int, jitter: nat)
    requires Kept(items, capacity, ttl, now) && now <= t && jitter < ttl / 10 && i < |items|
    ensures Kept([Item(items[i].hash, items[i].key, t + ttl + jitter, t)] + Cut(items, i), capacity, ttl, t)
  {
    CutKept(items, i, capacity, ttl, now);
    CutMembers(items, i);
    EnterKept(Cut(items, i), Item(items[i].hash, items[i].key, t + ttl + jitter, t), capacity, ttl, now);
  }

  lemma MissKeeps(items: seq<Item>, n: nat, capacity: nat, ttl: int, now: int, x: Item)
    requires Kept(items, capacity, ttl, now) && n <= |items| && n < capacity
    requires now <= x.seenAt && x.seenAt + ttl <= x.expiry < x.seenAt + ttl + ttl / 10
    requires forall k :: 0 <= k < |items| ==> items[k].hash != x.hash
    ensures Kept([x] + items[..n], capacity, ttl, x.seenAt)
  {
    PrefixKept(items, n, capacity, ttl, now, now);
    EnterKept(items[..n], x, capacity, ttl, now);
  }

  lemma SeenKeeps(items: seq<Item>, capacity: nat, ttl: int, now: int, e: Event)
    requires Kept(items, capacity, ttl, now) && capacity > 0 && e.Seen? && now <= e.now && e.jitter < ttl / 10
    ensures Kept(AfterSeen(items, capacity, e.hash, e.key, e.now + ttl + e.jitter, e.now), capacity, ttl, e.now)
  {
    SeenAtKeeps(items, capacity, ttl, now, Find(items, e.hash), e);
  }

  lemma SeenAtKeeps(items: seq<Item>, capacity: nat, ttl: int, now: int, i: nat, e: Event)
    requires Kept(items, capacity, ttl, now) && capacity > 0 && e.Seen? && now <= e.now && e.jitter < ttl / 10
    requires i < |items| ==> items[i].hash == e.hash
    requires i >= |items| ==> forall k :: 0 <= k < |items| ==> items[k].hash != e.hash
    ensures Kept(SeenAt(items, capacity, i, e.hash, e.key, e.now + ttl + e.jitter, e.now), capacity, ttl, e.now)
  {
    if i < |items| {
      HitKeeps(items, capacity, ttl, now, i, e.now, e.jitter);
    } else {
      assert items[..|items|] == items;
      MissKeeps(items, if |items| >= capacity then |items| - 1 else |items|, capacity, ttl, now,
                Item(e.hash, e.key, e.now + ttl + e.jitter, e.now));
    }
  }

  lemma SeenStep(items: seq<Item>, capacity: nat, ttl: int, now: int, e: Event)
    requires Kept(items, capacity, ttl, now) && capacity > 0 && e.Seen? && Timely(e, ttl, now)
    ensures Kept(After(items, capacity, ttl, e), capacity, ttl, TimeOf(e, now))
  {
    SeenKeeps(items, capacity, ttl, now, e);
  }

  lemma DropStep(items: seq<Item>, capacity: nat, ttl: int, now: int, e: Event)
    requires Kept(items, capacity, ttl, now) && e.Delete?
    ensures Kept(After(items, capacity, ttl, e), capacity, ttl, TimeOf(e, now))
  {
    DropAtKeeps(items, capacity, ttl, now, Find(items, e.hash));
  }

  lemma DropAtKeeps(items: seq<Item>, capacity: nat, ttl: int, now: int, i: nat)
    requires Kept(items, capacity, ttl, now)
    ensures Kept(DropAt(items, i), capacity, ttl, now)
  {
    if i < |items| { CutKept(items, i, capacity, ttl, now); }
  }

  lemma ExpireKeeps(items: seq<Item>, capacity: nat, ttl: int, now: int, e: Event)
    requires Kept(items, capacity, ttl, now) && e.Expire? && Timely(e, ttl, now)
    ensures Kept(After(items, capacity, ttl, e), capacity, ttl, TimeOf(e, now))
  {
    ExpiryShape(items, e.now);
    PrefixKept(items, |AfterExpiry(items, e.now)|, capacity, ttl, now, e.now);
  }

  lemma StepKeeps(items: seq<Item>, capacity: nat, ttl: int, now: int, e: Event)
    requires Kept(items, capacity, ttl, now) && capacity > 0 && Timely(e, ttl, now)
    ensures Kept(After(items, capacity, ttl, e), capacity, ttl, TimeOf(e, now))
  {
    match e
    case Seen(_, _, _, _) => SeenStep(items, capacity, ttl, now, e);
    case Delete(_) => DropStep(items, capacity, ttl, now, e);
    case Expire(_) => ExpireKeeps(items, capacity, ttl, now, e);
  }

  ghost predicate AllTimely(es: seq<Event>, ttl: int, start: int) {
    es == [] || (AllTimely(es[..|es| - 1], ttl, start) && Timely(es[|es| - 1], ttl, Clock(es[..|es| - 1], start)))
  }

  function Clock(es: seq<Event>, start: int): int {
    if es == [] then start else TimeOf(es[|es| - 1], Clock(es[..|es| - 1], start))
  }

  lemma {:induction false} TimelyAt(es: seq<Event>, ttl: int, start: int, i: nat)
    requires AllTimely(es, ttl, start) && i < |es|
    ensures AllTimely(es[..i], ttl, start) && Timely(es[i], ttl, Clock(es[..i], start))
  {
    if i < |es| - 1 {
      TimelyAt(es[..|es| - 1], ttl, start, i);
      assert es[..|es| - 1][..i] == es[..i];
    }
  }

  /** A run of a shard with a shorter lifespan has no access in it. */
  lemma {:induction false} ShortLivedRuns(es: seq<Event>, ttl: int, start: int)
    requires AllTimely(es, ttl, start) && ttl < 10
    ensures forall e <- es :: !e.Seen?
  {
    if es != [] {
      ShortLivedRuns(es[..|es| - 1], ttl, start);
      assert es == es[..|es| - 1] + [es[|es| - 1]];
    }
  }

  /** After every run: one entry a hash, never above capacity, most recent first. */
  lemma {:induction false} RunKeeps(capacity: nat, ttl: int, es: seq<Event>, start: int)
    requires capacity > 0 && AllTimely(es, ttl, start)
    ensures Kept(AfterAll(capacity, ttl, es), capacity, ttl, Clock(es, start))
  {
    if es != [] {
      RunKeeps(capacity, ttl, es[..|es| - 1], start);
      StepKeeps(AfterAll(capacity, ttl, es[..|es| - 1]), capacity, ttl, Clock(es[..|es| - 1], start), es[|es| - 1]);
    }
  }

  // ------------------------------------------------------------------ the overdue bound

  /** Only expired entries leave, and what stays is overdue by less than a tenth of the lifespan. */
  lemma OverdueBound(items: seq<Item>, ttl: int, now: int)
    requires Windowed(items, ttl) && MostRecentFirst(items)
    ensures var r := AfterExpiry(items, now);
            && r <= items
            && (forall i :: |r| <= i < |items| ==> items[i].expiry <= now)
            && (forall x <- r :: now - x.expiry <= ttl / 10 - 2)
  {
    ExpiryShape(items, now);
    var r := AfterExpiry(items, now);
    if r != [] {
      var last := r[|r| - 1];
      assert last in items;
      forall x | x in r ensures now - x.expiry <= ttl / 10 - 2 {
        var i :| 0 <= i < |r| && r[i] == x;
        assert items[i] == x && items[|r| - 1] == last && x in items;
      }
    }
  }

  /** The bound is met: jitter can leave an entry overdue by exactly that much behind a live one. */
  lemma OverdueBoundMet(ttl: int, h: Word, g: Word, key: Key)
    requires ttl >= 20 && h != g
    ensures var es := [Seen(h, key, 0, ttl / 10 - 1), Seen(g, key, 0, 0)];
            var now := ttl + ttl / 10 - 2;
            var items := AfterAll(2, ttl, es);
            AllTimely(es + [Expire(now)], ttl, 0) && AfterExpiry(items, now) == items && items[0].expiry == now - (ttl / 10 - 2)
  {
    var first, second := Seen(h, key, 0, ttl / 10 - 1), Seen(g, key, 0, 0);
    var es := [first, second];
    assert es[..1] == [first] && es[..1][..0] == [];
    assert (es + [Expire(ttl + ttl / 10 - 2)])[..2] == es;
    assert Timely(first, ttl, 0) && Clock([first], 0) == 0 && AllTimely([first], ttl, 0);
    assert Timely(second, ttl, 0) && Clock(es, 0) == 0 && AllTimely(es, ttl, 0);
    var one := [Item(h, key, ttl + ttl / 10 - 1, 0)];
    assert AfterAll(2, ttl, es[..1]) == one;
    assert Find(one, g) == 1;
    assert AfterAll(2, ttl, es) == [Item(g, key, ttl, 0)] + one;
  }

  // ------------------------------------------------------------------ the stack property

  function Hashes(items: seq<Item>): seq<Word> {
    seq(|items|, i requires 0 <= i < |items| => items[i].hash)
  }

  function IndexFrom(hs: seq<Word>, h: Word, from: nat): (i: nat)
    requires from <= |hs|
    ensures from <= i <= |hs| && (i < |hs| ==> hs[i] == h)
    ensures forall k :: from <= k < i ==> hs[k] != h
    decreases |hs| - from
  {
    if from == |hs| || hs[from] == h then from else IndexFrom(hs, h, from + 1)
  }

  function Index(hs: seq<Word>, h: Word): (i: nat)
    ensures i <= |hs| && (i < |hs| ==> hs[i] == h)
    ensures forall k :: 0 <= k < i ==> hs[k] != h
  {
    IndexFrom(hs, h, 0)
  }

  function PromoteAt(hs: seq<Word>, i: nat, h: Word): seq<Word> {
    [h] + if i < |hs| then Cut(hs, i) else hs
  }

  function Promote(hs: seq<Word>, h: Word): seq<Word> {
    PromoteAt(hs, Index(hs, h), h)
  }

  /** Every hash ever accessed, latest access first: no capacity, no list. */
  function LatestFirst(accesses: seq<Word>): seq<Word> {
    if accesses == [] then [] else Promote(LatestFirst(accesses[..|accesses| - 1]), accesses[|accesses| - 1])
  }

  function First(hs: seq<Word>, n: nat): seq<Word> {
    if |hs| <= n then hs else hs[..n]
  }

  function Accesses(es: seq<Event>): (hs: seq<Word>)
    requires forall e <- es :: e.Seen?
    ensures |hs| == |es|
  {
    if es == [] then [] else assert es[|es| - 1] in es; Accesses(es[..|es| - 1]) + [es[|es| - 1].hash]
  }

  lemma FindIsIndex(items: seq<Item>, all: seq<Word>, n: nat, h: Word)
    requires Hashes(items) == First(all, n)
    ensures Find(items, h) < |items| ==> Index(all, h) == Find(items, h)
    ensures Find(items, h) == |items| ==> Index(all, h) >= |items|
  {
    var i, k := Find(items, h), Index(all, h);
    assert forall j :: 0 <= j < |items| ==> Hashes(items)[j] == items[j].hash == all[j];
    if k < |items| { assert items[k].hash == h; }
    if i < |items| { assert all[i] == h; }
  }

  /** What a bounded list does on a hit at `i`, or on a miss when `i` is its length. */
  function EnteredAt(hs: seq<Word>, n: nat, i: nat, h: Word): seq<Word> {
    [h] + if i < |hs| then Cut(hs, i) else if |hs| >= n && hs != [] then hs[..|hs| - 1] else hs
  }

  lemma HashesEnter(x: Item, items: seq<Item>)
    ensures Hashes([x] + items) == [x.hash] + Hashes(items)
  {
  }

  lemma HashesCut(items: seq<Item>, i: nat)
    requires i < |items|
    ensures Hashes(Cut(items, i)) == Cut(Hashes(items), i)
  {
  }

  lemma HashesSeen(items: seq<Item>, capacity: nat, i: nat, h: Word, key: Key, expiry: int, now: int)
    ensures Hashes(SeenAt(items, capacity, i, h, key, expiry, now)) == EnteredAt(Hashes(items), capacity, i, h)
  {
    if i < |items| {
      HashesCut(items, i);
      HashesEnter(Item(h, items[i].key, expiry, now), Cut(items, i));
    } else {
      var n := if |items| >= capacity && items != [] then |items| - 1 else |items|;
      assert items[..|items|] == items && Hashes(items[..n]) == Hashes(items)[..n];
      HashesEnter(Item(h, key, expiry, now), items[..n]);
    }
  }

  lemma PromoteFirst(all: seq<Word>, n: nat, h: Word, i: nat, k: nat)
    requires n > 0 && i <= |First(all, n)|
    requires if i < |First(all, n)| then k == i else k >= i
    ensures First(PromoteAt(all, k, h), n) == EnteredAt(First(all, n), n, i, h)
  {
    if k < |all| {
      FirstWithout(all, n, k, h);
    }
  }

  lemma FirstWithout(all: seq<Word>, n: nat, k: nat, h: Word)
    requires k < |all| && n > 0
    ensures First([h] + Cut(all, k), n) == EnteredAt(First(all, n), n, if k < n then k else n, h)
  {
    if k < n {
      assert First(all, n)[..k] == all[..k];
    } else {
      assert Cut(all, k)[..n - 1] == all[..n - 1];
    }
  }

  /**
    * With accesses only, a shard of any capacity holds exactly the most recently accessed hashes: the
    * first `capacity` of the unbounded history, in its order.
    */
  lemma {:induction false} HoldsMostRecent(capacity: nat, ttl: int, es: seq<Event>)
    requires capacity > 0 && forall e <- es :: e.Seen?
    ensures Hashes(AfterAll(capacity, ttl, es)) == First(LatestFirst(Accesses(es)), capacity)
  {
    if es != [] {
      var front, last := es[..|es| - 1], es[|es| - 1];
      assert last in es;
      HoldsMostRecent(capacity, ttl, front);
      LatestStep(Accesses(front), last.hash);
      AccessStep(AfterAll(capacity, ttl, front), LatestFirst(Accesses(front)), capacity, ttl, last);
    }
  }

  lemma AccessStep(items: seq<Item>, all: seq<Word>, capacity: nat, ttl: int, e: Event)
    requires capacity > 0 && Hashes(items) == First(all, capacity) && e.Seen?
    ensures Hashes(After(items, capacity, ttl, e)) == First(Promote(all, e.hash), capacity)
  {
    var i := Find(items, e.hash);
    FindIsIndex(items, all, capacity, e.hash);
    HashesSeen(items, capacity, i, e.hash, e.key, e.now + ttl + e.jitter, e.now);
    PromoteFirst(all, capacity, e.hash, i, Index(all, e.hash));
  }

  lemma LatestStep(accesses: seq<Word>, h: Word)
    ensures LatestFirst(accesses + [h]) == Promote(LatestFirst(accesses), h)
  {
    assert (accesses + [h])[..|accesses|] == accesses;
  }

  // ------------------------------------------------------------------ what a deletion leaves

  /** The items with another hash, in their order. */
  function Others(items: seq<Item>, h: Word): seq<Item> {
    if items == [] then []
    else
      var rest, last := Others(items[..|items| - 1], h), items[|items| - 1];
      if last.hash == h then rest else rest + [last]
  }

  lemma {:induction false} OthersMembers(items: seq<Item>, h: Word)
    ensures forall x :: x in Others(items, h) <==> x in items && x.hash != h
  {
    if items != [] {
      OthersMembers(items[..|items| - 1], h);
      assert items == items[..|items| - 1] + [items[|items| - 1]];
    }
  }

  lemma {:induction false} OthersOfStranger(items: seq<Item>, h: Word)
    requires forall i :: 0 <= i < |items| ==> items[i].hash != h
    ensures Others(items, h) == items
  {
    if items != [] {
      OthersOfStranger(items[..|items| - 1], h);
      assert items == items[..|items| - 1] + [items[|items| - 1]];
    }
  }

  /** A deletion leaves exactly the items with another hash, in their order. */
  lemma DropIsOthers(items: seq<Item>, h: Word)
    requires Unique(items)
    ensures Drop(items, h) == Others(items, h)
    ensures forall x :: x in Drop(items, h) <==> x in items && x.hash != h
  {
    OthersMembers(items, h);
    var i := Find(items, h);
    if i < |items| {
      OthersAround(items, i);
    } else {
      OthersOfStranger(items, h);
    }
  }

  lemma {:induction false} OthersAround(items: seq<Item>, i: nat)
    requires Unique(items) && i < |items|
    ensures Others(items, items[i].hash) == Cut(items, i)
  {
    var n := |items| - 1;
    var front, last := items[..n], items[n];
    if i == n {
      OthersOfStranger(front, last.hash);
    } else {
      OthersAround(front, i);
      assert Cut(items, i) == Cut(front, i) + [last];
    }
  }

  /** A hit keeps the key the entry came in with; a miss brings its own. Either way the entry in front is the one seen. */
  lemma SeenFront(items: seq<Item>, capacity: nat, h: Word, key: Key, expiry: int, now: int)
    ensures var r := AfterSeen(items, capacity, h, key, expiry, now);
            && r != [] && r[0].hash == h && r[0].expiry == expiry && r[0].seenAt == now
            && (forall x <- items :: x.hash == h ==> exists y <- items :: y.hash == h && r[0].key == y.key)
            && ((forall x <- items :: x.hash != h) ==> r[0].key == key)
  {
    var i := Find(items, h);
    if i < |items| { assert items[i] in items; }
  }
}

/** What goes into an item hash, and when two stored values hash alike or tie in rank (core/hashmap/shardedmap.go). */
module Ties {
  import opened Bytes
  import opened Words
  import opened Kv

  const TOMBSTONE_MASK: Word := 0x5555_5555_5555_5555

  /** Rotations to the left by 17, 31 and 47 bits. */
  const UP_17 := 0x2_0000
  const DOWN_17 := 0x8000_0000_0000
  const UP_31 := 0x8000_0000
  const DOWN_31 := 0x2_0000_0000
  const UP_47 := 0x8000_0000_0000
  const DOWN_47 := 0x2_0000

  /** What the timestamp contributes to the item hash. */
  function StampTerm(t: Int64): Word {
    Rotate(AsUint64(t), UP_17, DOWN_17)
  }

  /** What a payload or a node id contributes: its hash rotated, or nothing if it is empty. */
  function Print(xx: Hash, data: ByteString, up: nat, down: nat): Word
    requires up > 0 && up * down == TWO_64
  {
    if |data| > 0 then Rotate(xx(data), up, down) else 0
  }

  function NodeTerm(xx: Hash, id: NodeId): Word {
    Print(xx, id, UP_31, DOWN_31)
  }

  function DataTerm(xx: Hash, data: ByteString): Word {
    Print(xx, data, UP_47, DOWN_47)
  }

  function Mark(tombstone: bool): Word {
    if tombstone then TOMBSTONE_MASK else 0
  }

  lemma XorUnit(x: Word)
    ensures Xor(x, 0) == x && Xor(0, x) == x
  {
    XorLaws(x, 0, 0);
  }

  /** Every part of a record has a term of its own, and so has the key. */
  lemma ItemHashTerms(xx: Hash, hash: Word, v: Value)
    ensures ItemHash(xx, hash, v)
            == Xor(Xor(Xor(Xor(hash, StampTerm(v.timestamp)), NodeTerm(xx, v.nodeId)), DataTerm(xx, v.data)), Mark(v.tombstone))
  {
    var h0 := Xor(hash, StampTerm(v.timestamp));
    XorUnit(h0);
    var h1 := Xor(h0, NodeTerm(xx, v.nodeId));
    XorUnit(h1);
    XorUnit(Xor(h1, DataTerm(xx, v.data)));
  }

  /** Taking the same term off both sides. */
  lemma SameXorIff(b: Word, x: Word, y: Word)
    ensures Xor(b, x) == Xor(b, y) <==> x == y
    ensures Xor(x, b) == Xor(y, b) <==> x == y
  {
    XorLaws(x, b, b);
    XorLaws(y, b, b);
    if Xor(b, x) == Xor(b, y) { XorInjective(b, x, y); }
  }

  /** Two strings print alike: the hash collides, or maps one of them to 0 beside an empty one. */
  ghost predicate PrintsCollide(xx: Hash, a: ByteString, b: ByteString) {
    if a == [] || b == [] then a == b || xx(a + b) == 0 else xx(a) == xx(b)
  }

  lemma PrintsEqualIff(xx: Hash, a: ByteString, b: ByteString, up: nat, down: nat)
    requires up > 0 && up * down == TWO_64
    ensures Print(xx, a, up, down) == Print(xx, b, up, down) <==> PrintsCollide(xx, a, b)
  {
    RotateZero(up, down);
    if a != [] && b != [] {
      RotateInjective(xx(a), xx(b), up, down);
    } else if b != [] {
      assert a + b == b;
      RotateInjective(xx(b), 0, up, down);
    } else if a != [] {
      assert a + b == a;
      RotateInjective(xx(a), 0, up, down);
    }
  }

  lemma RotateZero(up: nat, down: nat)
    requires up > 0 && up * down == TWO_64
    ensures Rotate(0, up, down) == 0
  {
    RotateParts(0, up, down);
  }

  /** Equal values under two keys hash alike exactly when the keys collide. */
  lemma KeyTermIff(xx: Hash, k: Key, l: Key, v: Value)
    ensures ItemHash(xx, xx(k), v) == ItemHash(xx, xx(l), v) <==> xx(k) == xx(l)
  {
    ItemHashTerms(xx, xx(k), v);
    ItemHashTerms(xx, xx(l), v);
    var s, n, d, m := StampTerm(v.timestamp), NodeTerm(xx, v.nodeId), DataTerm(xx, v.data), Mark(v.tombstone);
    SameXorIff(m, Xor(Xor(Xor(xx(k), s), n), d), Xor(Xor(Xor(xx(l), s), n), d));
    SameXorIff(d, Xor(Xor(xx(k), s), n), Xor(Xor(xx(l), s), n));
    SameXorIff(n, Xor(xx(k), s), Xor(xx(l), s));
    SameXorIff(s, xx(k), xx(l));
  }

  /** Stored records of one key that differ only in node id have equal item hashes exactly when the ids collide. */
  lemma NodeTermIff(xx: Hash, k: Key, u: Value, n: NodeId)
    requires IsHashed(xx, k, u)
    ensures u.itemHash == WithHash(xx, k, u.(nodeId := n)).itemHash <==> PrintsCollide(xx, u.nodeId, n)
  {
    ItemHashTerms(xx, xx(k), u);
    ItemHashTerms(xx, xx(k), u.(nodeId := n));
    var h, d, m := Xor(xx(k), StampTerm(u.timestamp)), DataTerm(xx, u.data), Mark(u.tombstone);
    SameXorIff(m, Xor(Xor(h, NodeTerm(xx, u.nodeId)), d), Xor(Xor(h, NodeTerm(xx, n)), d));
    SameXorIff(d, Xor(h, NodeTerm(xx, u.nodeId)), Xor(h, NodeTerm(xx, n)));
    SameXorIff(h, NodeTerm(xx, u.nodeId), NodeTerm(xx, n));
    PrintsEqualIff(xx, u.nodeId, n, UP_31, DOWN_31);
  }

  /**
    * Stored values of one key, timestamp and node id tie in rank exactly when they are of one kind and their payloads
    * collide under the hash, or of different kinds and their prints differ by the tombstone mask.
    */
  lemma TieIff(xx: Hash, k: Key, u: Value, v: Value)
    requires IsHashed(xx, k, u) && IsHashed(xx, k, v) && u.timestamp == v.timestamp && u.nodeId == v.nodeId
    ensures Rank(u) == Rank(v) <==>
            if u.tombstone == v.tombstone then PrintsCollide(xx, u.data, v.data)
            else Xor(DataTerm(xx, u.data), DataTerm(xx, v.data)) == TOMBSTONE_MASK
  {
    ItemHashTerms(xx, xx(k), u);
    ItemHashTerms(xx, xx(k), v);
    var b := Xor(Xor(xx(k), StampTerm(u.timestamp)), NodeTerm(xx, u.nodeId));
    var p, q := DataTerm(xx, u.data), DataTerm(xx, v.data);
    XorLaws(b, p, Mark(u.tombstone));
    XorLaws(b, q, Mark(v.tombstone));
    PrintsEqualIff(xx, u.data, v.data, UP_47, DOWN_47);
    SameXorIff(b, Xor(p, Mark(u.tombstone)), Xor(q, Mark(v.tombstone)));
    MarkedEqualIff(p, u.tombstone, q, v.tombstone);
  }

  lemma MarkedEqualIff(p: Word, s: bool, q: Word, t: bool)
    ensures Xor(p, Mark(s)) == Xor(q, Mark(t)) <==> if s == t then p == q else Xor(p, q) == TOMBSTONE_MASK
  {
    XorLaws(p, Mark(s), Mark(s));
    XorLaws(q, Mark(t), Mark(t));
    if s == t {
      if Xor(p, Mark(s)) == Xor(q, Mark(t)) { XorInjective(Mark(s), p, q); }
    } else {
      XorLaws(p, 0, 0);
      XorLaws(q, 0, 0);
      XorDifference(p, q, TOMBSTONE_MASK);
      XorDifference(q, p, TOMBSTONE_MASK);
      XorLaws(q, p, p);
    }
  }

  lemma XorDifference(p: Word, q: Word, m: Word)
    ensures Xor(p, m) == q <==> Xor(p, q) == m
  {
    XorLaws(p, p, m);
    XorLaws(p, p, q);
    XorLaws(m, 0, 0);
    XorLaws(q, 0, 0);
    XorLaws(p, p, p);
    XorLaws(0, m, m);
    XorLaws(0, q, q);
  }
}

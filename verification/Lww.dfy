/** A replica as a key-value map under last-write-wins, and its convergence. */
module Lww {
  import opened Bytes
  import opened Kv

  type Replica = map<Key, Value>

  datatype Write = Write(key: Key, value: Value)

  /** What StoreLWW does to the contents, for a value whose item hash is already computed. */
  function Merge(m: Replica, k: Key, v: Value): Replica {
    if k in m && !LwwWins(m[k], v) then m else m[k := v]
  }

  function MergeAll(m: Replica, ws: seq<Write>): Replica {
    if ws == [] then m
    else
      var last := ws[|ws| - 1];
      Merge(MergeAll(m, ws[..|ws| - 1]), last.key, last.value)
  }

  /** Every record of `low` survives in `high` with at least its rank. */
  ghost predicate Dominates(high: Replica, low: Replica) {
    forall k :: k in low ==> k in high && AtLeast(high[k], low[k])
  }

  lemma DominatesTransitive(a: Replica, b: Replica, c: Replica)
    requires Dominates(a, b) && Dominates(b, c)
    ensures Dominates(a, c)
  {
    forall k | k in c ensures k in a && AtLeast(a[k], c[k]) {
      AtLeastTransitive(a[k], b[k], c[k]);
    }
  }

  lemma MergeDominates(m: Replica, k: Key, v: Value)
    ensures Dominates(Merge(m, k, v), m)
    ensures k in Merge(m, k, v) && AtLeast(Merge(m, k, v)[k], v)
  {
    LwwTrichotomy(v, v);
    forall j | j in m ensures AtLeast(Merge(m, k, v)[j], m[j]) {
      LwwTrichotomy(m[j], m[j]);
      LwwTrichotomy(m[j], v);
    }
  }

  /** `top` is one of the writes to `k` (or the initial record) and none of them outranks it. */
  ghost predicate IsWinner(m: Replica, ws: seq<Write>, k: Key, top: Value) {
    && (Write(k, top) in ws || (k in m && m[k] == top))
    && (k in m ==> AtLeast(top, m[k]))
    && (forall w <- ws :: w.key == k ==> AtLeast(top, w.value))
  }

  /** No rank ever drops, every write is covered, and what is held was written. */
  lemma {:induction false} MergeAllWinner(m: Replica, ws: seq<Write>)
    ensures Dominates(MergeAll(m, ws), m)
    ensures forall k :: k in MergeAll(m, ws) <==> k in m || exists w <- ws :: w.key == k
    ensures forall k :: k in MergeAll(m, ws) ==> IsWinner(m, ws, k, MergeAll(m, ws)[k])
  {
    if ws == [] {
      forall k | k in m ensures AtLeast(m[k], m[k]) { LwwTrichotomy(m[k], m[k]); }
    } else {
      var front, last := ws[..|ws| - 1], ws[|ws| - 1];
      var r := MergeAll(m, front);
      var r' := MergeAll(m, ws);
      MergeAllWinner(m, front);
      MergeDominates(r, last.key, last.value);
      DominatesTransitive(r', r, m);
      assert ws == front + [last];
      forall k | k in r' ensures IsWinner(m, ws, k, r'[k]) {
        if k in r {
          forall w | w in ws && w.key == k ensures AtLeast(r'[k], w.value) {
            if w in front { AtLeastTransitive(r'[k], r[k], w.value); }
          }
        } else {
          assert last in ws;
          LwwTrichotomy(last.value, last.value);
        }
      }
    }
  }

  /** Same keys and the same rank under each key. */
  ghost predicate SameRanks(a: Replica, b: Replica) {
    a.Keys == b.Keys && forall k :: k in a ==> Rank(a[k]) == Rank(b[k])
  }

  /** Writes to one key that agree on rank are the same write: item hashes do not collide among `ws`. */
  ghost predicate CollisionFree(ws: seq<Write>) {
    forall u, v :: u in ws && v in ws && u.key == v.key && Rank(u.value) == Rank(v.value) ==> u == v
  }

  /** Convergence: the final ranks depend only on the set of writes, not on order or repetition. */
  lemma Convergence(ws: seq<Write>, ws': seq<Write>)
    requires Elements(ws) == Elements(ws')
    ensures SameRanks(MergeAll(map[], ws), MergeAll(map[], ws'))
    ensures CollisionFree(ws) ==> MergeAll(map[], ws) == MergeAll(map[], ws')
  {
    var a, b := MergeAll(map[], ws), MergeAll(map[], ws');
    assert forall w :: w in ws <==> w in Elements(ws');
    MergeAllWinner(map[], ws);
    MergeAllWinner(map[], ws');
    forall k | k in a ensures k in b && Rank(a[k]) == Rank(b[k]) {
      assert Write(k, a[k]) in ws';
      assert Write(k, b[k]) in ws;
      LwwTrichotomy(a[k], b[k]);
    }
    forall k | k in b ensures k in a {
      assert Write(k, b[k]) in ws;
    }
    if CollisionFree(ws) {
      forall k | k in a ensures a[k] == b[k] {
        assert Write(k, a[k]) in ws && Write(k, b[k]) in ws;
      }
    }
  }

  /** A record no write outranks stays, value and all: ties keep what is already there. */
  lemma {:induction false} WinnerStays(m: Replica, ws: seq<Write>, k: Key)
    requires k in m && forall w <- ws :: w.key == k ==> AtLeast(m[k], w.value)
    ensures k in MergeAll(m, ws) && MergeAll(m, ws)[k] == m[k]
  {
    if ws != [] {
      WinnerStays(m, ws[..|ws| - 1], k);
      assert ws[|ws| - 1] in ws;
    }
  }

  lemma {:induction false} MergeAllAfterFirst(m: Replica, w: Write, ws: seq<Write>)
    ensures MergeAll(m, [w] + ws) == MergeAll(Merge(m, w.key, w.value), ws)
  {
    if ws == [] {
      assert [w] + ws == [w];
      assert MergeAll(m, [w][..0]) == m;
    } else {
      MergeAllAfterFirst(m, w, ws[..|ws| - 1]);
      assert ([w] + ws)[..|ws|] == [w] + ws[..|ws| - 1];
    }
  }

  /** `u` and `v` are writes to one key that share its highest rank. */
  ghost predicate TiedForTop(ws: seq<Write>, u: Write, v: Write) {
    && u in ws && v in ws && u.key == v.key && Rank(u.value) == Rank(v.value)
    && IsWinner(map[], ws, u.key, u.value)
  }

  /** Each key's highest rank is carried by a single write. */
  ghost predicate UniqueWinners(ws: seq<Write>) {
    forall u, v :: TiedForTop(ws, u, v) ==> u == v
  }

  lemma UniqueWinnersConverge(ws: seq<Write>, ws': seq<Write>)
    requires UniqueWinners(ws) && Elements(ws') == Elements(ws)
    ensures MergeAll(map[], ws') == MergeAll(map[], ws)
  {
    var a, b := MergeAll(map[], ws), MergeAll(map[], ws');
    Convergence(ws, ws');
    MergeAllWinner(map[], ws);
    MergeAllWinner(map[], ws');
    assert forall w :: w in ws' <==> w in Elements(ws);
    forall k | k in a ensures a[k] == b[k] {
      assert TiedForTop(ws, Write(k, a[k]), Write(k, b[k]));
    }
  }

  /** Values, not just ranks, are order-independent exactly when no two writes tie for the top of a key. */
  lemma ValuesConvergeIff(ws: seq<Write>)
    ensures UniqueWinners(ws) <==>
            forall ws' :: Elements(ws') == Elements(ws) ==> MergeAll(map[], ws') == MergeAll(map[], ws)
  {
    if UniqueWinners(ws) {
      forall ws' | Elements(ws') == Elements(ws) ensures MergeAll(map[], ws') == MergeAll(map[], ws) {
        UniqueWinnersConverge(ws, ws');
      }
    } else {
      var u, v :| TiedForTop(ws, u, v) && u != v;
      TiedFirstWriteWins(ws, u, u);
      TiedFirstWriteWins(ws, u, v);
      assert MergeAll(map[], [u] + ws) != MergeAll(map[], [v] + ws);
    }
  }

  lemma TiedFirstWriteWins(ws: seq<Write>, u: Write, v: Write)
    requires TiedForTop(ws, u, v)
    ensures Elements([v] + ws) == Elements(ws)
    ensures v.key in MergeAll(map[], [v] + ws) && MergeAll(map[], [v] + ws)[v.key] == v.value
  {
    var m := Merge(map[], v.key, v.value);
    forall w | w in ws && w.key == v.key ensures AtLeast(m[v.key], w.value) {
      LwwTrichotomy(u.value, v.value);
      LwwTrichotomy(v.value, u.value);
      AtLeastTransitive(v.value, u.value, w.value);
    }
    WinnerStays(m, ws, v.key);
    MergeAllAfterFirst(map[], v, ws);
  }
}

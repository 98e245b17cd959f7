/** The count fingerprint folded into every published digest (core/hashmap/shardedmap.go). */
module Mix {
  import opened Bytes
  import opened Words

  const MUL_1: Word := 0xbf58476d1ce4e5b9
  const MUL_2: Word := 0x94d049bb133111eb

  // Inverses of the two odd multipliers modulo 2^64.
  const INV_1: Word := 0x96de1b173f119089
  const INV_2: Word := 0x319642b2d24d8ec3

  /** Go's wrapping `x * y` on uint64. */
  function Times(x: Word, y: Word): Word {
    (x * y) % TWO_64
  }

  function XorShift(x: Word, k: nat): Word {
    Xor(x, ShiftRight(x, k))
  }

  function Stage(x: Word, k: nat, m: Word): Word {
    Times(XorShift(x, k), m)
  }

  function TwoStages(x: Word, k1: nat, m1: Word, k2: nat, m2: Word, k3: nat): Word {
    XorShift(Stage(Stage(x, k1, m1), k2, m2), k3)
  }

  function MixCount(count: Count): Word {
    TwoStages(count + 1, 30, MUL_1, 27, MUL_2, 31)
  }

  lemma {:induction false} ShiftTwice(x: Word, j: nat, k: nat)
    ensures ShiftRight(ShiftRight(x, j), k) == ShiftRight(x, j + k)
    decreases j
  {
    if j > 0 && x > 0 { ShiftTwice(x / 2, j - 1, k); }
  }

  lemma {:induction false} ShiftedOut(x: Word, k: nat)
    requires x < Pow2(k)
    ensures ShiftRight(x, k) == 0
    decreases k
  {
    if k > 0 && x > 0 { ShiftedOut(x / 2, k - 1); }
  }

  /** Undoes an xorshift by `k` bits, for `k` of at least 22. */
  function Unshift(y: Word, k: nat): Word {
    Xor(Xor(y, ShiftRight(y, k)), ShiftRight(y, k + k))
  }

  lemma UnshiftShift(x: Word, k: nat)
    requires k >= 22
    ensures Unshift(XorShift(x, k), k) == x
  {
    var s1, s2 := ShiftRight(x, k), ShiftRight(x, k + k);
    ShiftOfXor(x, s1, k);
    ShiftOfXor(x, s1, k + k);
    ShiftTwice(x, k, k);
    ShiftTwice(x, k, k + k);
    Pow2At64();
    Pow2Monotone(64, k + k + k);
    ShiftedOut(x, k + (k + k));
    XorLaws(s2, 0, 0);
    Telescopes(x, s1, s2);
  }

  /** Each inner term occurs twice and cancels. */
  lemma Telescopes(x: Word, a: Word, b: Word)
    ensures Xor(Xor(Xor(x, a), Xor(a, b)), b) == x
  {
    XorLaws(x, a, Xor(a, b));
    XorLaws(a, a, b);
    XorLaws(a, a, a);
    XorLaws(0, b, b);
    XorLaws(b, 0, 0);
    XorLaws(x, b, b);
    XorLaws(b, b, b);
    XorLaws(x, 0, 0);
  }

  lemma TimesInverse(x: Word, m: Word, inv: Word)
    requires m * inv % TWO_64 == 1
    ensures Times(Times(x, m), inv) == x
  {
    var p := x * m;
    var q, t := p / TWO_64, (m * inv) / TWO_64;
    assert p == TWO_64 * q + Times(x, m);
    assert Times(x, m) * inv == p * inv - TWO_64 * (q * inv);
    assert p * inv == x * (m * inv) == x * (TWO_64 * t + 1);
    assert Times(x, m) * inv == TWO_64 * (x * t - q * inv) + x;
    ModUnique(Times(x, m) * inv, x * t - q * inv, x);
  }

  lemma ModUnique(a: nat, q: int, r: Word)
    requires a == TWO_64 * q + r
    ensures a % TWO_64 == r
  {
  }

  lemma InverseConstants()
    ensures MUL_1 * INV_1 % TWO_64 == 1
    ensures MUL_2 * INV_2 % TWO_64 == 1
  {
  }

  /** The stages undone in reverse order. */
  function Unmix(w: Word): int {
    Unshift(Times(Unshift(Times(Unshift(w, 31), INV_2), 27), INV_1), 30) - 1
  }

  lemma UnmixStages(x: Word, k1: nat, m1: Word, i1: Word, k2: nat, m2: Word, i2: Word, k3: nat)
    requires k1 >= 22 && k2 >= 22 && k3 >= 22 && m1 * i1 % TWO_64 == 1 && m2 * i2 % TWO_64 == 1
    ensures Unshift(Times(Unshift(Times(Unshift(TwoStages(x, k1, m1, k2, m2, k3), k3), i2), k2), i1), k1) == x
  {
    var y := Stage(x, k1, m1);
    UnshiftShift(Stage(y, k2, m2), k3);
    TimesInverse(XorShift(y, k2), m2, i2);
    UnshiftShift(y, k2);
    TimesInverse(XorShift(x, k1), m1, i1);
    UnshiftShift(x, k1);
  }

  /** A count can be read back from its fingerprint. */
  lemma MixRoundTrip(c: Count)
    ensures Unmix(MixCount(c)) == c
  {
    InverseConstants();
    UnmixStages(c + 1, 30, MUL_1, INV_1, 27, MUL_2, INV_2, 31);
  }

  /** So distinct counts never publish the same fingerprint. */
  lemma MixCountInjective(c: Count, d: Count)
    requires MixCount(c) == MixCount(d)
    ensures c == d
  {
    MixRoundTrip(c);
    MixRoundTrip(d);
  }
}

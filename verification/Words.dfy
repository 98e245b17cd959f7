/** Unsigned 64-bit arithmetic on integers: exclusive or, shifts, rotation, wrap-around product. */
module Words {
  import opened Bytes

  const TWO_64 := 0x1_0000_0000_0000_0000
  const TWO_32 := 0x1_0000_0000

  /** An unsigned 32-bit counter. */
  type Count = x: int | 0 <= x < TWO_32

  function Pow2(n: nat): (p: nat)
    ensures p > 0
  {
    if n == 0 then 1 else 2 * Pow2(n - 1)
  }

  lemma {:induction false} Pow2Sum(m: nat, n: nat)
    ensures Pow2(m + n) == Pow2(m) * Pow2(n)
  {
    if m > 0 { Pow2Sum(m - 1, n); }
  }

  lemma Pow2Square(n: nat, p: nat)
    requires Pow2(n) == p
    ensures Pow2(n + n) == p * p
  {
    Pow2Sum(n, n);
  }

  lemma Pow2At64()
    ensures Pow2(64) == TWO_64
  {
    assert Pow2(4) == 16;
    Pow2Square(4, 16);
    Pow2Square(8, 0x100);
    Pow2Square(16, 0x1_0000);
    Pow2Square(32, 0x1_0000_0000);
  }

  // ------------------------------------------------------------------ exclusive or

  function XorNat(a: nat, b: nat): nat {
    if a == 0 && b == 0 then 0
    else 2 * XorNat(a / 2, b / 2) + (if a % 2 == b % 2 then 0 else 1)
  }

  lemma XorHalf(a: nat, b: nat)
    ensures XorNat(a, b) / 2 == XorNat(a / 2, b / 2)
    ensures XorNat(a, b) % 2 == if a % 2 == b % 2 then 0 else 1
  {
  }

  lemma {:induction false} XorBounded(a: nat, b: nat, n: nat)
    requires a < Pow2(n) && b < Pow2(n)
    ensures XorNat(a, b) < Pow2(n)
  {
    if n > 0 && (a != 0 || b != 0) { XorBounded(a / 2, b / 2, n - 1); }
  }

  /** Go's `a ^ b` on uint64. */
  function Xor(a: Word, b: Word): Word {
    Pow2At64();
    XorBounded(a, b, 64);
    XorNat(a, b)
  }

  lemma {:induction false} XorNatCommutes(a: nat, b: nat)
    ensures XorNat(a, b) == XorNat(b, a)
    decreases a + b
  {
    if a + b > 0 { XorNatCommutes(a / 2, b / 2); }
  }

  lemma {:induction false} XorNatAssociates(a: nat, b: nat, c: nat)
    ensures XorNat(XorNat(a, b), c) == XorNat(a, XorNat(b, c))
    decreases a + b + c
  {
    if a + b + c > 0 {
      XorNatAssociates(a / 2, b / 2, c / 2);
      var l, r := XorNat(XorNat(a, b), c), XorNat(a, XorNat(b, c));
      assert l / 2 == r / 2 by {
        XorHalf(a, b);
        XorHalf(b, c);
        XorHalf(XorNat(a, b), c);
        XorHalf(a, XorNat(b, c));
      }
      assert l % 2 == r % 2 by {
        XorHalf(a, b);
        XorHalf(b, c);
        XorHalf(XorNat(a, b), c);
        XorHalf(a, XorNat(b, c));
      }
      SameHalves(l, r);
    }
  }

  lemma SameHalves(x: nat, y: nat)
    requires x / 2 == y / 2 && x % 2 == y % 2
    ensures x == y
  {
  }

  lemma {:induction false} XorNatCancels(a: nat)
    ensures XorNat(a, a) == 0
    ensures XorNat(a, 0) == a
  {
    if a > 0 { XorNatCancels(a / 2); }
  }

  lemma XorLaws(a: Word, b: Word, c: Word)
    ensures Xor(a, b) == Xor(b, a)
    ensures Xor(Xor(a, b), c) == Xor(a, Xor(b, c))
    ensures Xor(a, a) == 0
    ensures Xor(a, 0) == a
  {
    XorNatCommutes(a, b);
    XorNatAssociates(a, b, c);
    XorNatCancels(a);
  }

  /** Replacing one term of an exclusive or: old out, new in. */
  lemma XorSwap(rest: Word, x: Word, y: Word)
    ensures Xor(Xor(Xor(rest, x), x), y) == Xor(rest, y)
  {
    XorLaws(rest, x, x);
    XorLaws(x, x, x);
    XorLaws(rest, 0, 0);
  }

  /** Exclusive or with a fixed word is one-to-one. */
  lemma XorInjective(a: Word, x: Word, y: Word)
    requires Xor(a, x) == Xor(a, y)
    ensures x == y
  {
    XorLaws(a, a, x);
    XorLaws(a, a, y);
    XorLaws(a, a, a);
    XorLaws(0, x, x);
    XorLaws(x, 0, 0);
    XorLaws(0, y, y);
    XorLaws(y, 0, 0);
  }

  // ------------------------------------------------------------------ shifts and products

  /** Go's `x >> k`: k halvings. */
  function ShiftRight(x: Word, k: nat): Word
    decreases x
  {
    if k == 0 || x == 0 then x else ShiftRight(x / 2, k - 1)
  }

  lemma {:induction false} ShiftOfXor(a: Word, b: Word, k: nat)
    ensures ShiftRight(Xor(a, b), k) == Xor(ShiftRight(a, k), ShiftRight(b, k))
    decreases k
  {
    if k > 0 {
      XorHalf(a, b);
      ShiftOfXor(a / 2, b / 2, k - 1);
    }
  }

  // ------------------------------------------------------------------ bit masks

  /** `mask & (1 << b) != 0`. */
  predicate Bit(mask: Word, b: nat) {
    ShiftRight(mask, b) % 2 == 1
  }

  /** Setting a bit above all set bits: there `mask | (1 << n)` is a sum. */
  lemma {:induction false} SetBit(mask: Word, n: nat, j: nat)
    requires mask < Pow2(n) && mask + Pow2(n) < TWO_64
    ensures Bit(mask + Pow2(n), j) <==> Bit(mask, j) || j == n
    decreases j
  {
    if n == 0 {
      assert mask == 0;
      if j > 1 { assert ShiftRight(0, j - 1) == 0; }
    } else if j > 0 {
      assert (mask + Pow2(n)) / 2 == mask / 2 + Pow2(n - 1);
      SetBit(mask / 2, n - 1, j - 1);
    }
  }

  lemma {:induction false} BitsOfZero(j: nat)
    ensures !Bit(0, j)
  {
  }

  lemma {:induction false} AllOnes(n: nat, j: nat)
    requires j < n <= 64 && Pow2(n) <= TWO_64
    ensures Bit(Pow2(n) - 1, j)
    decreases j
  {
    if j > 0 {
      assert (Pow2(n) - 1) / 2 == Pow2(n - 1) - 1;
      AllOnes(n - 1, j - 1);
    }
  }

  lemma {:induction false} Pow2Monotone(m: nat, n: nat)
    requires m <= n
    ensures Pow2(m) <= Pow2(n)
    decreases n - m
  {
    if m < n { Pow2Monotone(m + 1, n); }
  }

  /** bits.RotateLeft64 by k, for up == 2^k and down == 2^(64-k). */
  function Rotate(x: Word, up: nat, down: nat): Word
    requires up > 0 && up * down == TWO_64
  {
    var low := x / down;
    assert down > 0;
    (x * up + low) % TWO_64
  }

  /** A rotation loses nothing. */
  lemma RotateInjective(x: Word, y: Word, up: nat, down: nat)
    requires up > 0 && up * down == TWO_64
    ensures Rotate(x, up, down) == Rotate(y, up, down) ==> x == y
  {
    RotateParts(x, up, down);
    RotateParts(y, up, down);
    if Rotate(x, up, down) == Rotate(y, up, down) {
      DigitsUnique(x % down, x / down, y % down, y / down, up);
    }
  }

  /** It exchanges the high and the low part. */
  lemma RotateParts(x: Word, up: nat, down: nat)
    requires up > 0 && up * down == TWO_64
    ensures down > 0 && 0 <= x / down < up && x == (x / down) * down + x % down
    ensures Rotate(x, up, down) == (x % down) * up + x / down
  {
    var hi, lo := x / down, x % down;
    assert hi * down <= x < up * down;
    Cancel(hi, up, down);
    calc {
      x * up + hi;
      (hi * down + lo) * up + hi;
      { Spread(hi, lo, up, down); }
      hi * TWO_64 + (lo * up + hi);
    }
    Below(lo, hi, up, down);
    ModShift(hi, lo * up + hi);
  }

  lemma Spread(hi: nat, lo: nat, up: nat, down: nat)
    requires up * down == TWO_64
    ensures (hi * down + lo) * up == hi * TWO_64 + lo * up
  {
    assert (hi * down + lo) * up == hi * (up * down) + lo * up;
  }

  lemma Cancel(hi: nat, up: nat, down: nat)
    requires down > 0 && hi * down < up * down
    ensures hi < up
  {
    assert hi >= up ==> hi * down >= up * down;
  }

  lemma Below(lo: nat, hi: nat, up: nat, down: nat)
    requires lo < down && hi < up && up * down == TWO_64
    ensures lo * up + hi < TWO_64
  {
    assert (lo + 1) * up <= down * up;
  }

  lemma DigitsUnique(lo: nat, hi: nat, lo': nat, hi': nat, up: nat)
    requires hi < up && hi' < up && lo * up + hi == lo' * up + hi'
    ensures lo == lo' && hi == hi'
  {
    assert lo < lo' ==> (lo + 1) * up <= lo' * up;
    assert lo' < lo ==> (lo' + 1) * up <= lo * up;
  }

  lemma ModShift(q: nat, r: nat)
    requires r < TWO_64
    ensures (q * TWO_64 + r) % TWO_64 == r
  {
  }

  /** Bit by bit: exclusive or is difference. */
  lemma XorBits(a: Word, b: Word, j: nat)
    ensures Bit(Xor(a, b), j) <==> Bit(a, j) != Bit(b, j)
  {
    ShiftOfXor(a, b, j);
    XorHalf(ShiftRight(a, j), ShiftRight(b, j));
  }
}

/** Decimal numbers as bytes: strconv.AppendInt and the overflow-checked parser (server/resp.go). */
module Digits {
  import opened Bytes

  const MAX_INT := 0x7FFF_FFFF_FFFF_FFFF

  /** strconv.AppendInt for a non-negative number, base 10. */
  function Decimal(n: nat): (s: ByteString)
    ensures |s| > 0 && forall c <- s :: 48 <= c <= 57
  {
    if n < 10 then [48 + n] else Decimal(n / 10) + [48 + n % 10]
  }

  /** One digit of parseFastInt: None on a non-digit or when the number would pass the int maximum. */
  function Accumulate(n: nat, c: Byte): Option<nat> {
    if c < 48 || c > 57 then None
    else if n > (MAX_INT - (c - 48)) / 10 then None
    else Some(n * 10 + (c - 48))
  }

  function ParseFrom(n: nat, b: ByteString): Option<nat>
    decreases |b|
  {
    if b == [] then Some(n)
    else
      var m := Accumulate(n, b[0]);
      if m.None? then None else ParseFrom(m.value, b[1..])
  }

  function ParseInt(b: ByteString): Option<nat> {
    if b == [] then None else ParseFrom(0, b)
  }

  /** The guard rejects exactly the numbers above the int maximum. */
  lemma AccumulateIff(n: nat, c: Byte)
    requires 48 <= c <= 57
    ensures Accumulate(n, c) == if n * 10 + (c - 48) <= MAX_INT then Some(n * 10 + (c - 48)) else None
  {
  }

  lemma {:induction false} ParseSnoc(n: nat, b: ByteString, c: Byte)
    ensures ParseFrom(n, b + [c]) ==
            var m := ParseFrom(n, b); if m.None? then None else Accumulate(m.value, c)
    decreases |b|
  {
    if b == [] {
      assert b + [c] == [c] && [c][1..] == [];
    } else {
      assert (b + [c])[1..] == b[1..] + [c];
      var m := Accumulate(n, b[0]);
      if m.Some? { ParseSnoc(m.value, b[1..], c); }
    }
  }

  lemma {:induction false} ParseDecimal(n: nat)
    requires n <= MAX_INT
    ensures ParseInt(Decimal(n)) == Some(n)
  {
    if n < 10 {
      assert [48 + n][1..] == [];
      assert ParseFrom(0, [48 + n]) == Some(n);
    } else {
      ParseDecimal(n / 10);
      ParseSnoc(0, Decimal(n / 10), 48 + n % 10);
      AccumulateIff(n / 10, 48 + n % 10);
    }
  }

  lemma {:induction false} DecimalInjective(m: nat, n: nat)
    requires Decimal(m) == Decimal(n)
    ensures m == n
    decreases m
  {
    var s := Decimal(m);
    assert s[|s| - 1] == 48 + m % 10 && s[|s| - 1] == 48 + n % 10;
    if m >= 10 && n >= 10 {
      assert s[..|s| - 1] == Decimal(m / 10) && s[..|s| - 1] == Decimal(n / 10);
      DecimalInjective(m / 10, n / 10);
    }
  }

  /** The number a digit string denotes, without any bound. */
  function Numeral(b: ByteString): int {
    if b == [] then 0
    else
      var last: int := b[|b| - 1];
      Numeral(b[..|b| - 1]) * 10 + (last - 48)
  }

  ghost predicate AllDigits(b: ByteString) {
    forall c <- b :: 48 <= c <= 57
  }

  lemma {:induction false} ParseFromIff(b: ByteString)
    ensures AllDigits(b) ==> Numeral(b) >= 0
    ensures ParseFrom(0, b) == if AllDigits(b) && Numeral(b) <= MAX_INT then Some(Numeral(b)) else None
  {
    if b != [] {
      var front, c := b[..|b| - 1], b[|b| - 1];
      ParseFromIff(front);
      assert b == front + [c];
      ParseSnoc(0, front, c);
      assert c in b && forall x :: x in b <==> x in front || x == c;
      if AllDigits(front) && Numeral(front) <= MAX_INT && 48 <= c <= 57 { AccumulateIff(Numeral(front), c); }
    }
  }

  /** Accepted are exactly the non-empty digit strings whose number does not pass the int maximum. */
  lemma ParseIntIff(b: ByteString)
    ensures ParseInt(b) == if b != [] && AllDigits(b) && Numeral(b) <= MAX_INT then Some(Numeral(b)) else None
  {
    ParseFromIff(b);
  }

  /** No digit string is shorter than the decimal text of its number. */
  lemma {:induction false} DecimalShortest(b: ByteString)
    requires b != [] && AllDigits(b)
    ensures Numeral(b) >= 0 && |Decimal(Numeral(b))| <= |b|
  {
    var front, c := b[..|b| - 1], b[|b| - 1];
    ParseFromIff(front);
    assert c in b;
    if front != [] {
      assert forall x <- front :: x in b;
      DecimalShortest(front);
    }
  }

  /** parseFastInt. */
  method ParseFastInt(b: ByteString) returns (r: Option<nat>)
    ensures r == ParseInt(b)
  {
    if |b| == 0 { return None; }
    var n: nat := 0;
    for i := 0 to |b|
      invariant ParseFrom(0, b) == ParseFrom(n, b[i..])
    {
      var c := b[i];
      assert b[i..][0] == c && b[i..][1..] == b[i + 1..];
      if c < 48 || c > 57 { return None; }
      var digit := c - 48;
      if n > (MAX_INT - digit) / 10 { return None; }
      n := n * 10 + digit;
    }
    assert b[|b|..] == [];
    return Some(n);
  }
}

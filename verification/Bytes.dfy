/** Go strings and byte slices: sequences of bytes with the bytewise order of Go's `<`. */
module Bytes {

  type Byte = x: int | 0 <= x < 256

  /** A Go `string` or `[]byte`; a nil slice and an empty one are the same value here. */
  type ByteString = seq<Byte>

  /** An unsigned 64-bit machine word. */
  type Word = x: int | 0 <= x < 0x1_0000_0000_0000_0000

  /** A signed 64-bit machine integer. */
  type Int64 = x: int | -0x8000_0000_0000_0000 <= x < 0x8000_0000_0000_0000

  const MAX_INT64: Int64 := 0x7FFF_FFFF_FFFF_FFFF

  datatype Option<+T> = None | Some(value: T)

  function Elements<T(==)>(s: seq<T>): set<T> {
    set x | x in s
  }

  /** Go's `a < b` on strings: bytewise lexicographic. */
  predicate LexLess(a: ByteString, b: ByteString) {
    if b == [] then false
    else if a == [] then true
    else if a[0] != b[0] then a[0] < b[0]
    else LexLess(a[1..], b[1..])
  }

  lemma {:induction false} LexTransitive(a: ByteString, b: ByteString, c: ByteString)
    requires LexLess(a, b) && LexLess(b, c)
    ensures LexLess(a, c)
  {
    if a != [] && a[0] == b[0] && b[0] == c[0] {
      LexTransitive(a[1..], b[1..], c[1..]);
    }
  }

  /** Exactly one of a < b, a == b, b < a. */
  lemma {:induction false} LexTrichotomy(a: ByteString, b: ByteString)
    ensures LexLess(a, b) || a == b || LexLess(b, a)
    ensures !(LexLess(a, b) && LexLess(b, a))
    ensures !LexLess(a, a)
  {
    if a != [] {
      LexTrichotomy(a[1..], a[1..]);
      if b != [] {
        LexTrichotomy(a[1..], b[1..]);
        assert a == [a[0]] + a[1..] && b == [b[0]] + b[1..];
      }
    }
  }

  /** At the first difference `a` has the smaller byte, or it ends there while `b` goes on. */
  ghost predicate Precedes(a: ByteString, b: ByteString) {
    a < b || exists i :: 0 <= i < |a| && i < |b| && a[..i] == b[..i] && a[i] < b[i]
  }

  lemma {:induction false} LexLessIff(a: ByteString, b: ByteString)
    ensures LexLess(a, b) <==> Precedes(a, b)
  {
    if a != [] && b != [] {
      assert a == [a[0]] + a[1..] && b == [b[0]] + b[1..];
      LexLessIff(a[1..], b[1..]);
      if a[0] == b[0] {
        TailPrecedes(a, b);
      } else if a[0] < b[0] {
        assert a[..0] == b[..0];
      }
    }
  }

  /** A common first byte decides nothing. */
  lemma TailPrecedes(a: ByteString, b: ByteString)
    requires a != [] && b != [] && a[0] == b[0]
    ensures Precedes(a, b) <==> Precedes(a[1..], b[1..])
  {
    assert a == [a[0]] + a[1..] && b == [b[0]] + b[1..];
    if i :| 0 <= i < |a[1..]| && i < |b[1..]| && a[1..][..i] == b[1..][..i] && a[1..][i] < b[1..][i] {
      assert a[..i + 1] == [a[0]] + a[1..][..i] && b[..i + 1] == [b[0]] + b[1..][..i];
      assert a[i + 1] < b[i + 1];
    }
    if i :| 0 <= i < |a| && i < |b| && a[..i] == b[..i] && a[i] < b[i] {
      assert i > 0 && a[1..][..i - 1] == a[..i][1..] && b[1..][..i - 1] == b[..i][1..];
      assert a[1..][i - 1] < b[1..][i - 1];
    }
  }
}

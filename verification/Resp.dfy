/** Reading one item after another off the front of a byte buffer. */
module Parsing {
  import opened Bytes

  datatype Parsed<+T> = Parsed(value: T, read: nat)

  /** A parser looks at the front of the buffer and reports what it found and how many bytes that took. */
  type Parser<!T> = ByteString -> Option<Parsed<T>>

  ghost predicate StableAt<T(!new)>(p: Parser<T>, data: ByteString, ext: ByteString) {
    p(data).Some? ==> 0 < p(data).value.read <= |data| && p(data[..p(data).value.read] + ext) == p(data)
  }

  /** It reports a positive number of available bytes and depends on those bytes alone. */
  ghost predicate Stable<T(!new)>(p: Parser<T>) {
    forall data, ext :: StableAt(p, data, ext)
  }

  /** It reads back `x` from `code`, whatever follows. */
  ghost predicate ReadsAt<T(!new)>(p: Parser<T>, code: ByteString, x: T, rest: ByteString) {
    p(code + rest) == Some(Parsed(x, |code|))
  }

  ghost predicate Reads<T(!new)>(p: Parser<T>, code: ByteString, x: T) {
    forall rest :: ReadsAt(p, code, x, rest)
  }

  /** Exactly `n` items in a row. */
  function Many<T>(p: Parser<T>, data: ByteString, n: nat): Option<Parsed<seq<T>>> {
    if n == 0 then Some(Parsed([], 0))
    else
      var b := p(data);
      if b.None? || b.value.read > |data| then None
      else
        var rest := Many(p, data[b.value.read..], n - 1);
        if rest.None? then None else Some(Parsed([b.value.value] + rest.value.value, b.value.read + rest.value.read))
  }

  /** Items until the parser stops. */
  function All<T>(p: Parser<T>, data: ByteString): seq<T>
    decreases |data|
  {
    var b := p(data);
    if b.None? || b.value.read == 0 || b.value.read > |data| then []
    else [b.value.value] + All(p, data[b.value.read..])
  }

  function EncodeAll<T>(enc: T -> ByteString, xs: seq<T>): ByteString {
    if xs == [] then [] else enc(xs[0]) + EncodeAll(enc, xs[1..])
  }

  /** A count, then that many items; counts above the limit are refused. */
  function Counted<T>(count: Parser<nat>, limit: nat, p: Parser<T>, data: ByteString): Option<Parsed<seq<T>>> {
    var c := count(data);
    if c.None? || c.value.read > |data| || c.value.value > limit then None
    else
      var rest := Many(p, data[c.value.read..], c.value.value);
      if rest.None? then None else Some(Parsed(rest.value.value, c.value.read + rest.value.read))
  }

  lemma {:induction false} ManyStable<T(!new)>(p: Parser<T>, data: ByteString, n: nat, ext: ByteString)
    requires Stable(p) && Many(p, data, n).Some?
    ensures Many(p, data, n).value.read <= |data|
    ensures Many(p, data[..Many(p, data, n).value.read] + ext, n) == Many(p, data, n)
    decreases n
  {
    if n > 0 {
      var b := p(data).value;
      var rest := data[b.read..];
      ManyStable(p, rest, n - 1, ext);
      var read := Many(p, rest, n - 1).value.read;
      var d := data[..b.read + read] + ext;
      assert d == data[..b.read] + (rest[..read] + ext);
      assert StableAt(p, data, rest[..read] + ext);
      assert d[b.read..] == rest[..read] + ext;
    }
  }

  lemma CountedStable<T(!new)>(count: Parser<nat>, limit: nat, p: Parser<T>, data: ByteString, ext: ByteString)
    requires Stable(count) && Stable(p) && Counted(count, limit, p, data).Some?
    ensures 0 < Counted(count, limit, p, data).value.read <= |data|
    ensures Counted(count, limit, p, data[..Counted(count, limit, p, data).value.read] + ext) == Counted(count, limit, p, data)
  {
    var c := count(data).value;
    var rest := data[c.read..];
    ManyStable(p, rest, c.value, ext);
    var read := Many(p, rest, c.value).value.read;
    var d := data[..c.read + read] + ext;
    assert d == data[..c.read] + (rest[..read] + ext);
    assert StableAt(count, data, rest[..read] + ext);
    assert d[c.read..] == rest[..read] + ext;
  }

  lemma ManyStep<T(!new)>(p: Parser<T>, first: ByteString, tail: ByteString, x: T, n: nat, xs: seq<T>, read: nat)
    requires ReadsAt(p, first, x, tail) && Many(p, tail, n) == Some(Parsed(xs, read))
    ensures Many(p, first + tail, n + 1) == Some(Parsed([x] + xs, |first| + read))
  {
    assert (first + tail)[|first|..] == tail;
  }

  lemma {:induction false} ManyReads<T(!new)>(p: Parser<T>, enc: T -> ByteString, xs: seq<T>, rest: ByteString)
    requires forall x <- xs :: Reads(p, enc(x), x)
    ensures Many(p, EncodeAll(enc, xs) + rest, |xs|) == Some(Parsed(xs, |EncodeAll(enc, xs)|))
    decreases |xs|
  {
    if xs != [] {
      var first, more := enc(xs[0]), EncodeAll(enc, xs[1..]);
      ManyReads(p, enc, xs[1..], rest);
      assert EncodeAll(enc, xs) + rest == first + (more + rest);
      assert Reads(p, first, xs[0]);
      assert ReadsAt(p, first, xs[0], more + rest);
      ManyStep(p, first, more + rest, xs[0], |xs| - 1, xs[1..], |more|);
      assert [xs[0]] + xs[1..] == xs;
    }
  }

  lemma CountedReads<T(!new)>(count: Parser<nat>, limit: nat, p: Parser<T>, head: ByteString, enc: T -> ByteString,
                              xs: seq<T>, rest: ByteString)
    requires |xs| <= limit && Reads<nat>(count, head, |xs|) && forall x <- xs :: Reads(p, enc(x), x)
    ensures Counted(count, limit, p, (head + EncodeAll(enc, xs)) + rest) == Some(Parsed(xs, |head + EncodeAll(enc, xs)|))
  {
    var items := EncodeAll(enc, xs);
    ManyReads(p, enc, xs, rest);
    var d := (head + items) + rest;
    assert d == head + (items + rest);
    assert ReadsAt<nat>(count, head, |xs|, items + rest);
    assert d[|head|..] == items + rest;
  }

  lemma AllStep<T(!new)>(p: Parser<T>, first: ByteString, tail: ByteString, x: T)
    requires |first| > 0 && ReadsAt(p, first, x, tail)
    ensures All(p, first + tail) == [x] + All(p, tail)
  {
    assert (first + tail)[|first|..] == tail;
  }

  lemma {:induction false} AllReads<T(!new)>(p: Parser<T>, enc: T -> ByteString, xs: seq<T>, rest: ByteString)
    requires forall x <- xs :: Reads(p, enc(x), x) && |enc(x)| > 0
    ensures All(p, EncodeAll(enc, xs) + rest) == xs + All(p, rest)
    decreases |xs|
  {
    if xs == [] {
      assert EncodeAll(enc, xs) + rest == rest;
    } else {
      var first, more := enc(xs[0]), EncodeAll(enc, xs[1..]);
      AllReads(p, enc, xs[1..], rest);
      assert EncodeAll(enc, xs) + rest == first + (more + rest);
      assert Reads(p, first, xs[0]);
      AllStep(p, first, more + rest, xs[0]);
      ConsAppend(xs, All(p, rest));
    }
  }

  lemma ConsAppend<T>(xs: seq<T>, ys: seq<T>)
    requires xs != []
    ensures [xs[0]] + (xs[1..] + ys) == xs + ys
  {
  }

  /** Items collected so far, followed by what the rest of the buffer yields. */
  function Joined<T>(done: seq<T>, read: nat, rest: Option<Parsed<seq<T>>>): Option<Parsed<seq<T>>> {
    if rest.None? then None else Some(Parsed(done + rest.value.value, read + rest.value.read))
  }

  lemma JoinedStep<T>(p: Parser<T>, data: ByteString, n: nat, done: seq<T>, read: nat)
    requires n > 0 && read <= |data| && (p(data[read..]).Some? ==> p(data[read..]).value.read <= |data| - read)
    ensures var b := p(data[read..]);
            Joined(done, read, Many(p, data[read..], n))
            == if b.None? then None
               else Joined(done + [b.value.value], read + b.value.read, Many(p, data[read + b.value.read..], n - 1))
  {
    var b := p(data[read..]);
    if b.Some? {
      assert data[read..][b.value.read..] == data[read + b.value.read..];
      var rest := Many(p, data[read + b.value.read..], n - 1);
      if rest.Some? { assert done + ([b.value.value] + rest.value.value) == done + [b.value.value] + rest.value.value; }
    }
  }

  lemma JoinedNone<T>(read: nat, rest: Option<Parsed<seq<T>>>)
    ensures Joined([], read, rest) == if rest.None? then None else Some(Parsed(rest.value.value, read + rest.value.read))
  {
    if rest.Some? { assert [] + rest.value.value == rest.value.value; }
  }

  // ------------------------------------------------------------------ nothing is read from less than it takes to write

  /** Whatever it reads took at least the bytes of its encoding. */
  ghost predicate Frugal<T(!new)>(p: Parser<T>, enc: T -> ByteString) {
    forall data :: FrugalAt(p, enc, data)
  }

  ghost predicate FrugalAt<T(!new)>(p: Parser<T>, enc: T -> ByteString, data: ByteString) {
    p(data).Some? ==> |enc(p(data).value.value)| <= p(data).value.read
  }

  lemma {:induction false} ManyFrugal<T(!new)>(p: Parser<T>, enc: T -> ByteString, data: ByteString, n: nat)
    requires Frugal(p, enc) && Many(p, data, n).Some?
    ensures var m := Many(p, data, n).value; |m.value| == n && |EncodeAll(enc, m.value)| <= m.read
    decreases n
  {
    if n > 0 {
      var b := p(data).value;
      assert FrugalAt(p, enc, data);
      ManyFrugal(p, enc, data[b.read..], n - 1);
      var rest := Many(p, data[b.read..], n - 1).value.value;
      assert ([b.value] + rest)[1..] == rest;
    }
  }

  lemma {:induction false} AllFrugal<T(!new)>(p: Parser<T>, enc: T -> ByteString, data: ByteString)
    requires Frugal(p, enc)
    ensures |EncodeAll(enc, All(p, data))| <= |data|
    decreases |data|
  {
    var b := p(data);
    if b.Some? && 0 < b.value.read <= |data| {
      assert FrugalAt(p, enc, data);
      AllFrugal(p, enc, data[b.value.read..]);
      var rest := All(p, data[b.value.read..]);
      assert ([b.value.value] + rest)[1..] == rest;
    }
  }

  /** A stable parser accepts no proper prefix of what it accepts. */
  lemma NoPrefix<T(!new)>(p: Parser<T>, data: ByteString, n: nat)
    requires Stable(p) && p(data).Some? && n < p(data).value.read
    ensures n <= |data| && p(data[..n]).None?
  {
    assert StableAt(p, data, []);
    var q := data[..n];
    if p(q).Some? {
      var read := p(q).value.read;
      assert StableAt(p, q, data[n..]);
      PrefixContradiction(p, data, n, read);
    }
  }

  lemma PrefixContradiction<T(!new)>(p: Parser<T>, data: ByteString, n: nat, read: nat)
    requires Stable(p) && n <= |data| && p(data[..n]).Some? && p(data[..n]).value.read == read
    ensures read <= n && p(data) == p(data[..n])
  {
    var q := data[..n];
    assert StableAt(p, q, []);
    assert StableAt(p, q, data[read..]);
    assert q[..read] + data[read..] == data;
  }

  // ------------------------------------------------------------------ a stream read in parts

  function Flatten<T>(parts: seq<seq<T>>): seq<T> {
    if parts == [] then [] else parts[0] + Flatten(parts[1..])
  }

  /** The items found in each part by itself. */
  function InParts<T>(p: Parser<T>, parts: seq<ByteString>): seq<seq<T>> {
    seq(|parts|, i requires 0 <= i < |parts| => All(p, parts[i]))
  }

  /** `n` is the end of one of the items, or the start of the stream. */
  ghost predicate Boundary<T>(enc: T -> ByteString, xs: seq<T>, n: nat) {
    exists i :: 0 <= i <= |xs| && n == |EncodeAll(enc, xs[..i])|
  }

  /** Every part ends where an item ends. */
  ghost predicate CutBetween<T>(enc: T -> ByteString, xs: seq<T>, parts: seq<ByteString>) {
    forall i :: 0 <= i <= |parts| ==> Boundary(enc, xs, |Flatten(parts[..i])|)
  }

  lemma {:induction false} EncodeAppend<T>(enc: T -> ByteString, a: seq<T>, b: seq<T>)
    ensures EncodeAll(enc, a + b) == EncodeAll(enc, a) + EncodeAll(enc, b)
    decreases |a|
  {
    if a == [] {
      assert a + b == b;
    } else {
      EncodeAppend(enc, a[1..], b);
      assert (a + b)[0] == a[0] && (a + b)[1..] == a[1..] + b;
    }
  }

  lemma EncodeSplit<T>(enc: T -> ByteString, xs: seq<T>, i: nat)
    requires i <= |xs|
    ensures EncodeAll(enc, xs) == EncodeAll(enc, xs[..i]) + EncodeAll(enc, xs[i..])
  {
    var a, b := xs[..i], xs[i..];
    assert a + b == xs;
    EncodeAppend(enc, a, b);
  }

  lemma {:induction false} FlattenAppend<T>(a: seq<seq<T>>, b: seq<seq<T>>)
    ensures Flatten(a + b) == Flatten(a) + Flatten(b)
    decreases |a|
  {
    if a == [] {
      assert a + b == b;
    } else {
      FlattenAppend(a[1..], b);
      assert (a + b)[0] == a[0] && (a + b)[1..] == a[1..] + b;
    }
  }

  lemma FlattenFirst<T>(p: Parser<T>, parts: seq<ByteString>)
    requires parts != []
    ensures Flatten(InParts(p, parts)) == All(p, parts[0]) + Flatten(InParts(p, parts[1..]))
  {
    assert InParts(p, parts)[1..] == InParts(p, parts[1..]);
  }

  lemma {:induction false} PartsFrugal<T(!new)>(p: Parser<T>, enc: T -> ByteString, parts: seq<ByteString>)
    requires Frugal(p, enc)
    ensures |EncodeAll(enc, Flatten(InParts(p, parts)))| <= |Flatten(parts)|
    decreases |parts|
  {
    if parts != [] {
      AllFrugal(p, enc, parts[0]);
      PartsFrugal(p, enc, parts[1..]);
      FlattenFirst(p, parts);
      EncodeAppend(enc, All(p, parts[0]), Flatten(InParts(p, parts[1..])));
    }
  }

  /** No bytes to spare: if the parts yield everything, each of them begins and ends with a whole item. */
  lemma WholeThenBetween<T(!new)>(p: Parser<T>, enc: T -> ByteString, xs: seq<T>, parts: seq<ByteString>, i: nat)
    requires Frugal(p, enc) && Flatten(parts) == EncodeAll(enc, xs) && Flatten(InParts(p, parts)) == xs && i <= |parts|
    ensures Boundary(enc, xs, |Flatten(parts[..i])|)
  {
    var a, b := parts[..i], parts[i..];
    assert parts == a + b;
    FlattenAppend(a, b);
    assert InParts(p, parts) == InParts(p, a) + InParts(p, b);
    FlattenAppend(InParts(p, a), InParts(p, b));
    PartsFrugal(p, enc, a);
    PartsFrugal(p, enc, b);
    var m := |Flatten(InParts(p, a))|;
    assert xs[..m] == Flatten(InParts(p, a)) && xs[m..] == Flatten(InParts(p, b));
    EncodeSplit(enc, xs, m);
  }

  lemma BoundaryShifts<T>(enc: T -> ByteString, xs: seq<T>, i: nat, n: nat)
    requires i <= |xs| && Boundary(enc, xs, |EncodeAll(enc, xs[..i])| + n)
    ensures Boundary(enc, xs[i..], n)
  {
    var m :| 0 <= m <= |xs| && |EncodeAll(enc, xs[..i])| + n == |EncodeAll(enc, xs[..m])|;
    if m < i {
      EncodeSplit(enc, xs[..i], m);
      assert xs[..i][..m] == xs[..m];
      assert |EncodeAll(enc, xs[i..][..0])| == 0;
    } else {
      EncodeSplit(enc, xs[..m], i);
      assert xs[..m][..i] == xs[..i] && xs[..m][i..] == xs[i..][..m - i];
    }
  }

  lemma SameCut(a: ByteString, b: ByteString, c: ByteString, d: ByteString)
    requires a + b == c + d && |a| == |c|
    ensures a == c && b == d
  {
    assert a == (a + b)[..|a|] && c == (c + d)[..|c|];
    assert b == (a + b)[|a|..] && d == (c + d)[|c|..];
  }

  lemma RestCutBetween<T>(enc: T -> ByteString, xs: seq<T>, parts: seq<ByteString>, i: nat)
    requires parts != [] && CutBetween(enc, xs, parts) && i <= |xs| && |parts[0]| == |EncodeAll(enc, xs[..i])|
    ensures CutBetween(enc, xs[i..], parts[1..])
  {
    var rest := parts[1..];
    forall j | 0 <= j <= |rest| ensures Boundary(enc, xs[i..], |Flatten(rest[..j])|) {
      assert parts[..j + 1][0] == parts[0] && parts[..j + 1][1..] == rest[..j];
      BoundaryShifts(enc, xs, i, |Flatten(rest[..j])|);
    }
  }

  /** The first part holds the first items whole, and the other parts are cut between the others. */
  lemma FirstPart<T>(enc: T -> ByteString, xs: seq<T>, parts: seq<ByteString>) returns (i: nat)
    requires parts != [] && Flatten(parts) == EncodeAll(enc, xs) && CutBetween(enc, xs, parts)
    ensures i <= |xs| && parts[0] == EncodeAll(enc, xs[..i])
    ensures Flatten(parts[1..]) == EncodeAll(enc, xs[i..]) && CutBetween(enc, xs[i..], parts[1..])
  {
    var q := parts[0];
    assert Flatten(parts[..1]) == q;
    i :| 0 <= i <= |xs| && |q| == |EncodeAll(enc, xs[..i])|;
    EncodeSplit(enc, xs, i);
    SameCut(q, Flatten(parts[1..]), EncodeAll(enc, xs[..i]), EncodeAll(enc, xs[i..]));
    RestCutBetween(enc, xs, parts, i);
  }

  lemma {:induction false} BetweenThenWhole<T(!new)>(p: Parser<T>, enc: T -> ByteString, xs: seq<T>, parts: seq<ByteString>)
    requires forall x <- xs :: Reads(p, enc(x), x) && |enc(x)| > 0
    requires Flatten(parts) == EncodeAll(enc, xs) && CutBetween(enc, xs, parts) && All(p, []) == []
    ensures Flatten(InParts(p, parts)) == xs
    decreases |parts|
  {
    if parts != [] {
      var i := FirstPart(enc, xs, parts);
      FlattenFirst(p, parts);
      BetweenThenWhole(p, enc, xs[i..], parts[1..]);
      PartReads(p, enc, xs[..i]);
      assert xs == xs[..i] + xs[i..];
    }
  }

  lemma PartReads<T(!new)>(p: Parser<T>, enc: T -> ByteString, xs: seq<T>)
    requires (forall x <- xs :: Reads(p, enc(x), x) && |enc(x)| > 0) && All(p, []) == []
    ensures All(p, EncodeAll(enc, xs)) == xs
  {
    AllReads(p, enc, xs, []);
    assert EncodeAll(enc, xs) + [] == EncodeAll(enc, xs) && xs + [] == xs;
  }

  /** A stream read in any number of parts yields its items exactly when every cut falls between two of them. */
  lemma PartsIff<T(!new)>(p: Parser<T>, enc: T -> ByteString, xs: seq<T>, parts: seq<ByteString>)
    requires Stable(p) && Frugal(p, enc) && Flatten(parts) == EncodeAll(enc, xs)
    requires forall x <- xs :: Reads(p, enc(x), x) && |enc(x)| > 0
    ensures Flatten(InParts(p, parts)) == xs <==> CutBetween(enc, xs, parts)
  {
    if Flatten(InParts(p, parts)) == xs {
      forall i | 0 <= i <= |parts| ensures Boundary(enc, xs, |Flatten(parts[..i])|) {
        WholeThenBetween(p, enc, xs, parts, i);
      }
    } else if CutBetween(enc, xs, parts) {
      assert StableAt(p, [], []);
      BetweenThenWhole(p, enc, xs, parts);
    }
  }
}

/** The RESP frame parser and the pipelined read loop (server/resp.go). */
module Resp {
  import opened Bytes
  import opened Digits
  import opened Parsing

  const CR: Byte := 13
  const LF: Byte := 10
  const STAR: Byte := 42
  const DOLLAR: Byte := 36
  const CRLF: ByteString := [CR, LF]
  const MAX_ARGS := 1024

  // ------------------------------------------------------------------ the parser, as functions

  /** bytes.IndexByte(data, '\\n'). */
  function FindLf(data: ByteString): Option<nat> {
    if data == [] then None
    else if data[0] == LF then Some(0)
    else
      var i := FindLf(data[1..]);
      if i.None? then None else Some(i.value + 1)
  }

  /** A marker byte, decimal digits and CRLF at the front of `data`. */
  function ParseLine(data: ByteString, marker: Byte): Option<Parsed<nat>> {
    if data == [] || data[0] != marker then None
    else
      FindLfBound(data);
      var idx := FindLf(data);
      if idx.None? || idx.value < 2 || data[idx.value - 1] != CR then None
      else
        var n := ParseInt(data[1..idx.value - 1]);
        if n.None? then None else Some(Parsed(n.value, idx.value + 1))
  }

  function ParseBulk(data: ByteString): Option<Parsed<ByteString>> {
    var line := ParseLine(data, DOLLAR);
    if line.None? then None
    else
      LineBound(data, DOLLAR);
      var start, len := line.value.read, line.value.value;
      if |data| - start < 2 || len > |data| - start - 2 then None
      else if data[start + len] != CR || data[start + len + 1] != LF then None
      else Some(Parsed(data[start..start + len], start + len + 2))
  }

  function ParseHeader(data: ByteString): Option<Parsed<nat>> {
    ParseLine(data, STAR)
  }

  function ParseFrame(data: ByteString): Option<Parsed<seq<ByteString>>> {
    Counted(ParseHeader, MAX_ARGS, ParseBulk, data)
  }

  lemma {:induction false} FindLfBound(data: ByteString)
    ensures FindLf(data).Some? ==> FindLf(data).value < |data| && data[FindLf(data).value] == LF
    ensures forall i :: 0 <= i < (if FindLf(data).Some? then FindLf(data).value else |data|) ==> data[i] != LF
    decreases |data|
  {
    if data != [] && data[0] != LF { FindLfBound(data[1..]); }
  }

  lemma LineBound(data: ByteString, marker: Byte)
    ensures ParseLine(data, marker).Some? ==> 3 <= ParseLine(data, marker).value.read <= |data|
  {
    FindLfBound(data);
  }

  lemma BulkBound(data: ByteString)
    ensures ParseBulk(data).Some? ==> 0 < ParseBulk(data).value.read <= |data|
  {
    LineBound(data, DOLLAR);
  }

  // ------------------------------------------------------------------ only the consumed bytes matter

  lemma {:induction false} FindLfAt(data: ByteString, i: nat)
    requires i < |data| && data[i] == LF && forall j :: 0 <= j < i ==> data[j] != LF
    ensures FindLf(data) == Some(i)
    decreases i
  {
    if i > 0 { FindLfAt(data[1..], i - 1); }
  }

  lemma LineStable(data: ByteString, marker: Byte, ext: ByteString)
    requires ParseLine(data, marker).Some?
    ensures ParseLine(data, marker).value.read <= |data|
    ensures ParseLine(data[..ParseLine(data, marker).value.read] + ext, marker) == ParseLine(data, marker)
  {
    LineBound(data, marker);
    FindLfBound(data);
    var idx := FindLf(data).value;
    var d := data[..idx + 1] + ext;
    FindLfAt(d, idx);
    assert d[1..idx - 1] == data[1..idx - 1];
  }

  lemma BulkStable()
    ensures Stable(ParseBulk)
  {
    forall data, ext ensures StableAt(ParseBulk, data, ext) {
      if ParseBulk(data).Some? { BulkDependsOnRead(data, ext); }
    }
  }

  lemma HeaderStable()
    ensures Stable<nat>(ParseHeader)
  {
    forall data, ext ensures StableAt<nat>(ParseHeader, data, ext) {
      if ParseHeader(data).Some? {
        LineBound(data, STAR);
        LineStable(data, STAR, ext);
      }
    }
  }

  lemma BulkDependsOnRead(data: ByteString, ext: ByteString)
    requires ParseBulk(data).Some?
    ensures 0 < ParseBulk(data).value.read <= |data|
    ensures ParseBulk(data[..ParseBulk(data).value.read] + ext) == ParseBulk(data)
  {
    BulkBound(data);
    LineBound(data, DOLLAR);
    var start, read := ParseLine(data, DOLLAR).value.read, ParseBulk(data).value.read;
    var d := data[..read] + ext;
    LineStable(data, DOLLAR, data[start..read] + ext);
    assert data[..start] + (data[start..read] + ext) == d;
    assert d[start..read - 2] == data[start..read - 2];
  }

  /** Acceptance looks only at the consumed bytes: whatever follows them changes nothing. */
  lemma FrameStable()
    ensures Stable(ParseFrame)
  {
    HeaderStable();
    BulkStable();
    forall data, ext ensures StableAt(ParseFrame, data, ext) {
      if ParseFrame(data).Some? { CountedStable(ParseHeader, MAX_ARGS, ParseBulk, data, ext); }
    }
  }

  /** No proper prefix of an accepted frame is accepted. */
  lemma NoPrefixAccepted(data: ByteString, n: nat)
    requires ParseFrame(data).Some? && n < ParseFrame(data).value.read
    ensures n <= |data| && ParseFrame(data[..n]).None?
  {
    FrameStable();
    NoPrefix(ParseFrame, data, n);
  }

  // ------------------------------------------------------------------ encoding and back

  function EncodeLine(marker: Byte, n: nat): ByteString {
    [marker] + Decimal(n) + CRLF
  }

  /** appendBulkBytes. */
  function EncodeBulk(arg: ByteString): ByteString {
    EncodeLine(DOLLAR, |arg|) + (arg + CRLF)
  }

  function EncodeFrame(args: seq<ByteString>): ByteString {
    EncodeLine(STAR, |args|) + EncodeAll(EncodeBulk, args)
  }

  lemma Associative(a: ByteString, b: ByteString, c: ByteString)
    ensures (a + b) + c == a + (b + c)
  {
  }

  lemma LineRoundTrip(marker: Byte, n: nat, rest: ByteString)
    requires n <= MAX_INT && marker != LF
    ensures ParseLine(EncodeLine(marker, n) + rest, marker) == Some(Parsed(n, |EncodeLine(marker, n)|))
  {
    var ds := Decimal(n);
    var d := EncodeLine(marker, n) + rest;
    var idx := |ds| + 2;
    forall j | 0 <= j < idx ensures d[j] != LF {
      if 1 <= j <= |ds| { assert d[j] == ds[j - 1] && ds[j - 1] in ds; }
    }
    FindLfAt(d, idx);
    assert d[1..idx - 1] == ds;
    ParseDecimal(n);
  }

  lemma BulkRoundTrip(arg: ByteString, rest: ByteString)
    requires |arg| <= MAX_INT
    ensures ParseBulk(EncodeBulk(arg) + rest) == Some(Parsed(arg, |EncodeBulk(arg)|))
  {
    var head := EncodeLine(DOLLAR, |arg|);
    LineRoundTrip(DOLLAR, |arg|, (arg + CRLF) + rest);
    Associative(head, arg + CRLF, rest);
    BulkBody(head, arg, rest);
  }

  lemma BulkBody(head: ByteString, arg: ByteString, rest: ByteString)
    requires ParseLine(head + ((arg + CRLF) + rest), DOLLAR) == Some(Parsed(|arg|, |head|))
    ensures ParseBulk(head + ((arg + CRLF) + rest)) == Some(Parsed(arg, |head| + |arg| + 2))
  {
    var d := head + ((arg + CRLF) + rest);
    assert d[|head|..|head| + |arg|] == arg;
    assert d[|head| + |arg|] == CR && d[|head| + |arg| + 1] == LF;
  }

  /** Argument sizes a Go slice can have. */
  ghost predicate Sized(args: seq<ByteString>) {
    forall a <- args :: |a| <= MAX_INT
  }

  lemma BulkReads(arg: ByteString)
    requires |arg| <= MAX_INT
    ensures Reads(ParseBulk, EncodeBulk(arg), arg)
  {
    forall rest ensures ReadsAt(ParseBulk, EncodeBulk(arg), arg, rest) { BulkRoundTrip(arg, rest); }
  }

  lemma HeaderReads(n: nat)
    requires n <= MAX_INT
    ensures Reads<nat>(ParseHeader, EncodeLine(STAR, n), n)
  {
    forall rest ensures ReadsAt<nat>(ParseHeader, EncodeLine(STAR, n), n, rest) { LineRoundTrip(STAR, n, rest); }
  }

  /** Any argument list of at most 1024 byte strings survives encoding, whatever bytes follow. */
  lemma FrameRoundTrip(args: seq<ByteString>, rest: ByteString)
    requires |args| <= MAX_ARGS && Sized(args)
    ensures ParseFrame(EncodeFrame(args) + rest) == Some(Parsed(args, |EncodeFrame(args)|))
  {
    forall a | a in args ensures Reads(ParseBulk, EncodeBulk(a), a) { BulkReads(a); }
    HeaderReads(|args|);
    CountedReads(ParseHeader, MAX_ARGS, ParseBulk, EncodeLine(STAR, |args|), EncodeBulk, args, rest);
  }

  // ------------------------------------------------------------------ the pipelined loop

  /** The argument lists dispatched from one read of the socket; bytes after the last whole frame are dropped. */
  function Dispatched(data: ByteString): seq<seq<ByteString>> {
    All(ParseFrame, data)
  }

  lemma FrameReads(args: seq<ByteString>)
    requires |args| <= MAX_ARGS && Sized(args)
    ensures Reads(ParseFrame, EncodeFrame(args), args) && |EncodeFrame(args)| > 0
  {
    forall rest ensures ReadsAt(ParseFrame, EncodeFrame(args), args, rest) { FrameRoundTrip(args, rest); }
  }

  /** Concatenated frames are dispatched in order, and what follows them is handled as if it came alone. */
  lemma PipelineInOrder(cmds: seq<seq<ByteString>>, tail: ByteString)
    requires forall args <- cmds :: |args| <= MAX_ARGS && Sized(args)
    ensures Dispatched(EncodeAll(EncodeFrame, cmds) + tail) == cmds + Dispatched(tail)
  {
    forall c | c in cmds ensures Reads(ParseFrame, EncodeFrame(c), c) && |EncodeFrame(c)| > 0 { FrameReads(c); }
    AllReads(ParseFrame, EncodeFrame, cmds, tail);
  }

  /** A frame cut by the end of a read is not dispatched, and the loop keeps nothing of it for the next read. */
  lemma CutFrameNotDispatched(args: seq<ByteString>, n: nat)
    requires |args| <= MAX_ARGS && Sized(args) && n < |EncodeFrame(args)|
    ensures Dispatched(EncodeFrame(args)[..n]) == []
  {
    FrameRoundTrip(args, []);
    assert EncodeFrame(args) + [] == EncodeFrame(args);
    NoPrefixAccepted(EncodeFrame(args), n);
  }

  // ------------------------------------------------------------------ reads that split the stream

  lemma LineFrugal(data: ByteString, marker: Byte)
    requires ParseLine(data, marker).Some?
    ensures |EncodeLine(marker, ParseLine(data, marker).value.value)| <= ParseLine(data, marker).value.read
  {
    FindLfBound(data);
    var digits := data[1..FindLf(data).value - 1];
    ParseIntIff(digits);
    DecimalShortest(digits);
  }

  lemma BulkFrugal()
    ensures Frugal(ParseBulk, EncodeBulk)
  {
    forall data ensures FrugalAt(ParseBulk, EncodeBulk, data) {
      if ParseBulk(data).Some? {
        LineBound(data, DOLLAR);
        LineFrugal(data, DOLLAR);
      }
    }
  }

  /** Any accepted frame, however it is written, takes at least the bytes of the plain encoding. */
  lemma FrameFrugal()
    ensures Frugal(ParseFrame, EncodeFrame)
  {
    BulkFrugal();
    forall data ensures FrugalAt(ParseFrame, EncodeFrame, data) {
      if ParseFrame(data).Some? {
        var c := ParseHeader(data).value;
        LineFrugal(data, STAR);
        ManyFrugal(ParseBulk, EncodeBulk, data[c.read..], c.value);
      }
    }
  }

  /** A stream read in any number of parts is dispatched whole exactly when every cut falls between two frames. */
  lemma SplitReadsIff(cmds: seq<seq<ByteString>>, parts: seq<ByteString>)
    requires (forall args <- cmds :: |args| <= MAX_ARGS && Sized(args)) && Flatten(parts) == EncodeAll(EncodeFrame, cmds)
    ensures Flatten(InParts(ParseFrame, parts)) == cmds <==> CutBetween(EncodeFrame, cmds, parts)
  {
    forall c | c in cmds ensures Reads(ParseFrame, EncodeFrame(c), c) && |EncodeFrame(c)| > 0 { FrameReads(c); }
    FrameStable();
    FrameFrugal();
    PartsIff(ParseFrame, EncodeFrame, cmds, parts);
  }

  // ------------------------------------------------------------------ the loops

  method IndexLf(data: ByteString) returns (r: Option<nat>)
    ensures r == FindLf(data)
  {
    for i := 0 to |data|
      invariant forall j :: 0 <= j < i ==> data[j] != LF
    {
      if data[i] == LF {
        FindLfAt(data, i);
        return Some(i);
      }
    }
    FindLfBound(data);
    return None;
  }

  method ReadLine(data: ByteString, marker: Byte) returns (r: Option<Parsed<nat>>)
    ensures r == ParseLine(data, marker)
  {
    if |data| == 0 || data[0] != marker { return None; }
    var idx := IndexLf(data);
    FindLfBound(data);
    if idx.None? || idx.value < 2 || data[idx.value - 1] != CR { return None; }
    var n := ParseFastInt(data[1..idx.value - 1]);
    if n.None? { return None; }
    return Some(Parsed(n.value, idx.value + 1));
  }

  method ReadBulk(data: ByteString) returns (r: Option<Parsed<ByteString>>)
    ensures r == ParseBulk(data)
  {
    var line := ReadLine(data, DOLLAR);
    if line.None? { return None; }
    LineBound(data, DOLLAR);
    var bulkStart, bulkLen := line.value.read, line.value.value;
    if |data| - bulkStart < 2 || bulkLen > |data| - bulkStart - 2 { return None; }
    var bulkEnd := bulkStart + bulkLen;
    if data[bulkEnd] != CR || data[bulkEnd + 1] != LF { return None; }
    return Some(Parsed(data[bulkStart..bulkEnd], bulkEnd + 2));
  }

  /** `p` is the bulk-string parser. */
  ghost predicate IsBulk(p: Parser<ByteString>) {
    forall data :: IsBulkAt(p, data)
  }

  ghost predicate IsBulkAt(p: Parser<ByteString>, data: ByteString) {
    p(data) == ParseBulk(data)
  }

  lemma ParseBulkIsBulk()
    ensures IsBulk(ParseBulk)
  {
    forall data ensures IsBulkAt(ParseBulk, data) {}
  }

  method NextArg(data: ByteString, read: nat, ghost p: Parser<ByteString>) returns (item: Option<Parsed<ByteString>>)
    requires read <= |data| && IsBulk(p)
    ensures item == p(data[read..]) && (item.Some? ==> read + item.value.read <= |data|)
  {
    item := ReadBulk(data[read..]);
    BulkBound(data[read..]);
    assert IsBulkAt(p, data[read..]);
  }

  /** The argument loop of parseRESPFrame: `n` bulk strings from position `start`, collected in a growing buffer. */
  method ReadArgs(data: ByteString, start: nat, n: nat, ghost p: Parser<ByteString>) returns (r: Option<Parsed<seq<ByteString>>>)
    requires start <= |data| && IsBulk(p)
    ensures r == var rest := Many(p, data[start..], n);
                 if rest.None? then None else Some(Parsed(rest.value.value, start + rest.value.read))
  {
    var read: nat, argBuf: seq<ByteString> := start, [];
    ghost var goal := Joined([], start, Many(p, data[start..], n));
    JoinedNone(start, Many(p, data[start..], n));
    for i := 0 to n
      invariant read <= |data|
      invariant goal == Joined(argBuf, read, Many(p, data[read..], n - i))
    {
      var item := NextArg(data, read, p);
      JoinedStep(p, data, n - i, argBuf, read);
      if item.None? { return None; }
      argBuf := argBuf + [item.value.value];
      read := read + item.value.read;
    }
    assert argBuf + [] == argBuf;
    return Some(Parsed(argBuf, read));
  }

  /** parseRESPFrame. */
  method ReadFrame(data: ByteString) returns (r: Option<Parsed<seq<ByteString>>>)
    ensures r == ParseFrame(data)
  {
    var line := ReadLine(data, STAR);
    if line.None? { return None; }
    LineBound(data, STAR);
    if line.value.value > MAX_ARGS { return None; }
    ParseBulkIsBulk();
    r := ReadArgs(data, line.value.read, line.value.value, ParseBulk);
  }

  /** The loop in OnTraffic, collecting what it dispatches. */
  method OnTraffic(data: ByteString) returns (dispatched: seq<seq<ByteString>>)
    ensures dispatched == Dispatched(data)
  {
    var rest := data;
    dispatched := [];
    assert [] + Dispatched(data) == Dispatched(data);
    while |rest| > 0
      invariant dispatched + Dispatched(rest) == Dispatched(data)
      decreases |rest|
    {
      var f := ReadFrame(rest);
      if f.None? {
        assert dispatched + [] == dispatched;
        return;
      }
      FrameStable();
      assert StableAt(ParseFrame, rest, []);
      ghost var next := rest[f.value.read..];
      assert dispatched + ([f.value.value] + Dispatched(next)) == dispatched + [f.value.value] + Dispatched(next);
      dispatched := dispatched + [f.value.value];
      rest := rest[f.value.read..];
    }
    assert dispatched + [] == dispatched;
  }
}

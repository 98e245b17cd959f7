/** Which bytes are RESP frames, said without any parser (server/resp.go). */
module Grammar {
  import opened Bytes
  import opened Digits
  import opened Parsing
  import opened Resp

  // ------------------------------------------------------------------ the grammar

  ghost predicate IsLine(bs: ByteString, marker: Byte, ds: ByteString, n: nat) {
    ds != [] && AllDigits(ds) && Numeral(ds) == n <= MAX_INT && bs == [marker] + ds + CRLF
  }

  /** A marker byte, a digit string that denotes `n`, and CRLF. */
  ghost predicate Line(bs: ByteString, marker: Byte, n: nat) {
    exists ds :: IsLine(bs, marker, ds, n)
  }

  /** A line with the length of `arg`, then `arg`, then CRLF. */
  ghost predicate Bulk(bs: ByteString, arg: ByteString) {
    exists i :: 0 <= i <= |bs| && Line(bs[..i], DOLLAR, |arg|) && bs[i..] == arg + CRLF
  }

  /** One item after the other, nothing between or behind them. */
  ghost predicate Items<T(!new)>(w: (ByteString, T) -> bool, bs: ByteString, xs: seq<T>)
    decreases |xs|
  {
    if xs == [] then bs == [] else exists i :: 0 <= i <= |bs| && Splits(w, bs, xs, i)
  }

  ghost predicate Splits<T(!new)>(w: (ByteString, T) -> bool, bs: ByteString, xs: seq<T>, i: nat)
    requires xs != [] && i <= |bs|
    decreases |xs|, 0
  {
    w(bs[..i], xs[0]) && Items(w, bs[i..], xs[1..])
  }

  /** A line with the number of arguments, at most 1024, then the arguments as bulk strings. */
  ghost predicate Frame(bs: ByteString, args: seq<ByteString>) {
    |args| <= 1024 && exists i :: 0 <= i <= |bs| && Line(bs[..i], STAR, |args|) && Items(Bulk, bs[i..], args)
  }

  // ------------------------------------------------------------------ the parser accepts exactly that

  lemma LineFound(data: ByteString, marker: Byte, n: nat, read: nat)
    requires ParseLine(data, marker) == Some(Parsed(n, read))
    ensures read <= |data| && Line(data[..read], marker, n)
  {
    LineBound(data, marker);
    FindLfBound(data);
    var ds := data[1..read - 2];
    ParseIntIff(ds);
    assert data[..read] == [marker] + ds + CRLF;
    assert IsLine(data[..read], marker, ds, n);
  }

  lemma LineTaken(data: ByteString, marker: Byte, ds: ByteString, n: nat, read: nat)
    requires marker != LF && read <= |data| && IsLine(data[..read], marker, ds, n)
    ensures ParseLine(data, marker) == Some(Parsed(n, read))
  {
    var bs, idx := data[..read], read - 1;
    assert |bs| == |ds| + 3;
    forall j | 0 <= j < idx ensures data[j] != LF {
      assert data[j] == bs[j];
      if 1 <= j <= |ds| { assert bs[j] == ds[j - 1] && ds[j - 1] in ds; }
    }
    assert data[idx] == bs[idx] == LF && data[idx - 1] == bs[idx - 1] == CR && data[0] == bs[0];
    FindLfAt(data, idx);
    assert data[1..idx - 1] == bs[1..idx - 1] == ds;
    ParseIntIff(ds);
  }

  lemma LineIff(data: ByteString, marker: Byte, n: nat, read: nat)
    requires marker != LF
    ensures ParseLine(data, marker) == Some(Parsed(n, read)) <==> read <= |data| && Line(data[..read], marker, n)
  {
    if ParseLine(data, marker) == Some(Parsed(n, read)) {
      LineFound(data, marker, n, read);
    } else if read <= |data| && Line(data[..read], marker, n) {
      var ds :| IsLine(data[..read], marker, ds, n);
      LineTaken(data, marker, ds, n, read);
    }
  }

  lemma BulkFound(data: ByteString, arg: ByteString, read: nat)
    requires ParseBulk(data) == Some(Parsed(arg, read))
    ensures read <= |data| && Bulk(data[..read], arg)
  {
    BulkBound(data);
    LineBound(data, DOLLAR);
    var start := ParseLine(data, DOLLAR).value.read;
    LineIff(data, DOLLAR, |arg|, start);
    assert data[..read][..start] == data[..start];
    assert data[..read][start..] == arg + CRLF;
  }

  lemma BulkTaken(data: ByteString, arg: ByteString, read: nat, i: nat)
    requires i <= read <= |data| && Line(data[..i], DOLLAR, |arg|) && data[i..read] == arg + CRLF
    ensures ParseBulk(data) == Some(Parsed(arg, read))
  {
    LineIff(data, DOLLAR, |arg|, i);
    var body := data[i..read];
    assert |body| == |arg| + 2 && body[..|arg|] == arg && body[|arg|] == CR && body[|arg| + 1] == LF;
    assert data[i..i + |arg|] == body[..|arg|];
    assert data[i + |arg|] == body[|arg|] && data[i + |arg| + 1] == body[|arg| + 1];
  }

  lemma BulkIff(data: ByteString, arg: ByteString, read: nat)
    ensures ParseBulk(data) == Some(Parsed(arg, read)) <==> read <= |data| && Bulk(data[..read], arg)
  {
    if ParseBulk(data) == Some(Parsed(arg, read)) {
      BulkFound(data, arg, read);
    } else if read <= |data| && Bulk(data[..read], arg) {
      var bs := data[..read];
      var i :| 0 <= i <= |bs| && Line(bs[..i], DOLLAR, |arg|) && bs[i..] == arg + CRLF;
      assert bs[..i] == data[..i] && bs[i..] == data[i..read];
      BulkTaken(data, arg, read, i);
    }
  }

  /** The parser takes exactly what `w` describes off the front. */
  ghost predicate Takes<T(!new)>(p: Parser<T>, w: (ByteString, T) -> bool) {
    forall data, x, read: nat :: TakesAt(p, w, data, x, read)
  }

  ghost predicate TakesAt<T(!new)>(p: Parser<T>, w: (ByteString, T) -> bool, data: ByteString, x: T, read: nat) {
    p(data) == Some(Parsed(x, read)) <==> read <= |data| && w(data[..read], x)
  }

  lemma {:induction false} ManyFound<T(!new)>(p: Parser<T>, w: (ByteString, T) -> bool, data: ByteString, n: nat, xs: seq<T>, read: nat)
    requires Takes(p, w) && Many(p, data, n) == Some(Parsed(xs, read))
    ensures |xs| == n && read <= |data| && Items(w, data[..read], xs)
    decreases n
  {
    if n > 0 {
      var b, x := p(data).value.read, p(data).value.value;
      assert TakesAt(p, w, data, x, b);
      var rest := Many(p, data[b..], n - 1).value;
      ManyFound(p, w, data[b..], n - 1, rest.value, rest.read);
      assert xs[1..] == rest.value && xs[0] == x;
      assert data[..read][..b] == data[..b] && data[..read][b..] == data[b..][..rest.read];
      assert Splits(w, data[..read], xs, b);
    }
  }

  lemma {:induction false} ManyTaken<T(!new)>(p: Parser<T>, w: (ByteString, T) -> bool, data: ByteString, xs: seq<T>, read: nat)
    requires Takes(p, w) && read <= |data| && Items(w, data[..read], xs)
    ensures Many(p, data, |xs|) == Some(Parsed(xs, read))
    decreases |xs|
  {
    if xs != [] {
      var bs := data[..read];
      var i :| 0 <= i <= |bs| && Splits(w, bs, xs, i);
      assert bs[..i] == data[..i] && bs[i..] == data[i..][..read - i];
      assert TakesAt(p, w, data, xs[0], i);
      ManyTaken(p, w, data[i..], xs[1..], read - i);
      assert [xs[0]] + xs[1..] == xs;
    }
  }

  lemma BulkTakes()
    ensures Takes(ParseBulk, Bulk)
  {
    forall data, arg, read: nat ensures TakesAt(ParseBulk, Bulk, data, arg, read) { BulkIff(data, arg, read); }
  }

  lemma FrameFound(data: ByteString, args: seq<ByteString>, read: nat)
    requires ParseFrame(data) == Some(Parsed(args, read))
    ensures read <= |data| && Frame(data[..read], args)
  {
    BulkTakes();
    var c := ParseHeader(data).value;
    LineIff(data, STAR, c.value, c.read);
    var rest := Many(ParseBulk, data[c.read..], c.value).value;
    ManyFound(ParseBulk, Bulk, data[c.read..], c.value, rest.value, rest.read);
    assert data[..read][..c.read] == data[..c.read] && data[..read][c.read..] == data[c.read..][..rest.read];
  }

  lemma FrameTaken(data: ByteString, args: seq<ByteString>, read: nat, i: nat)
    requires i <= read <= |data| && |args| <= 1024 && Line(data[..i], STAR, |args|) && Items(Bulk, data[i..][..read - i], args)
    ensures ParseFrame(data) == Some(Parsed(args, read))
  {
    LineIff(data, STAR, |args|, i);
    assert Many(ParseBulk, data[i..], |args|) == Some(Parsed(args, read - i)) by {
      BulkTakes();
      ManyTaken(ParseBulk, Bulk, data[i..], args, read - i);
    }
  }

  /** Accepted with these arguments and this length are exactly the buffers that begin with such a frame. */
  lemma FrameIff(data: ByteString, args: seq<ByteString>, read: nat)
    ensures ParseFrame(data) == Some(Parsed(args, read)) <==> read <= |data| && Frame(data[..read], args)
  {
    if ParseFrame(data) == Some(Parsed(args, read)) {
      FrameFound(data, args, read);
    } else if read <= |data| && Frame(data[..read], args) {
      var bs := data[..read];
      var i :| 0 <= i <= |bs| && Line(bs[..i], STAR, |args|) && Items(Bulk, bs[i..], args);
      assert bs[..i] == data[..i] && bs[i..] == data[i..][..read - i];
      FrameTaken(data, args, read, i);
    }
  }

  // ------------------------------------------------------------------ what one read dispatches

  /** No item begins at `n`. */
  ghost predicate NoneAt<T(!new)>(w: (ByteString, T) -> bool, data: ByteString, n: nat)
    requires n <= |data|
  {
    forall x, m: nat :: m <= |data| - n ==> !w(data[n..][..m], x)
  }

  lemma {:induction false} AllFound<T(!new)>(p: Parser<T>, w: (ByteString, T) -> bool, data: ByteString) returns (n: nat)
    requires Takes(p, w) && Stable(p)
    ensures n <= |data| && Items(w, data[..n], All(p, data)) && NoneAt(w, data, n)
    decreases |data|
  {
    if p(data).None? {
      n := 0;
      assert data[0..] == data;
      forall x, m: nat | m <= |data| ensures !w(data[..m], x) { assert TakesAt(p, w, data, x, m); }
    } else {
      var b, x := p(data).value.read, p(data).value.value;
      assert StableAt(p, data, []);
      assert TakesAt(p, w, data, x, b);
      var m := AllFound(p, w, data[b..]);
      n := b + m;
      var xs := All(p, data);
      assert xs[0] == x && xs[1..] == All(p, data[b..]);
      assert data[..n][..b] == data[..b] && data[..n][b..] == data[b..][..m];
      assert Splits(w, data[..n], xs, b);
      assert data[n..] == data[b..][m..];
    }
  }

  /** One read dispatches the frames it begins with, up to the first place where no frame begins. */
  lemma DispatchedExact(data: ByteString) returns (n: nat)
    ensures n <= |data| && Items(Frame, data[..n], Dispatched(data)) && NoneAt(Frame, data, n)
  {
    forall d, args, read: nat ensures TakesAt(ParseFrame, Frame, d, args, read) { FrameIff(d, args, read); }
    FrameStable();
    n := AllFound(ParseFrame, Frame, data);
  }
}

/** One write-ahead-log segment: framing, replay, snapshot offsets and clearing (core/wal/wal.go). */
module Wal {
  import opened Bytes
  import opened Words
  import opened Kv

  // ------------------------------------------------------------------ length headers

  const HEADER := 4

  /** binary.BigEndian.PutUint32. */
  function Header(n: Count): (h: ByteString)
    ensures |h| == HEADER
  {
    var n1 := n / 256;
    var n2 := n1 / 256;
    [n2 / 256, n2 % 256, n1 % 256, n % 256]
  }

  function Size(h: ByteString): Count
    requires |h| == HEADER
  {
    var a: int, b: int, c: int, d: int := h[0], h[1], h[2], h[3];
    ((a * 256 + b) * 256 + c) * 256 + d
  }

  lemma HeaderRoundTrip(n: Count)
    ensures Size(Header(n)) == n
  {
  }

  lemma SizeRoundTrip(h: ByteString)
    requires |h| == HEADER
    ensures Header(Size(h)) == h
  {
  }

  /** Big-endian: headers compare as byte strings the way lengths compare as numbers. */
  lemma HeaderOrder(m: Count, n: Count)
    ensures LexLess(Header(m), Header(n)) <==> m < n
  {
    var a, b := Header(m), Header(n);
    HeaderRoundTrip(m);
    HeaderRoundTrip(n);
    var a1, b1 := a[1..], b[1..];
    var a2, b2 := a1[1..], b1[1..];
    var a3, b3 := a2[1..], b2[1..];
    assert LexLess(a3, b3) <==> a[3] < b[3] by { assert a3[1..] == [] && b3[1..] == []; }
    assert LexLess(a2, b2) <==> a[2] < b[2] || (a[2] == b[2] && a[3] < b[3]);
    assert LexLess(a1, b1) <==> a[1] < b[1] || (a[1] == b[1] && LexLess(a2, b2));
    assert LexLess(a, b) <==> a[0] < b[0] || (a[0] == b[0] && LexLess(a1, b1));
  }

  /** Header and payload in a single write; the length is truncated to 32 bits. */
  function Frame(payload: ByteString): ByteString {
    Header(|payload| % TWO_32) + payload
  }

  function Frames(ps: seq<ByteString>): ByteString {
    if ps == [] then [] else Frame(ps[0]) + Frames(ps[1..])
  }

  /** The payloads read from the front, and whether the bytes ended exactly at a frame boundary. */
  datatype Parsed = Parsed(payloads: seq<ByteString>, whole: bool)

  function Parse(bs: ByteString): Parsed
    decreases |bs|
  {
    if bs == [] then Parsed([], true)
    else if |bs| < HEADER then Parsed([], false)
    else
      var size := Size(bs[..HEADER]);
      if |bs| - HEADER < size then Parsed([], false)
      else
        var rest := Parse(bs[HEADER + size..]);
        rest.(payloads := [bs[HEADER..HEADER + size]] + rest.payloads)
  }

  /** Payloads whose length fits the header. */
  ghost predicate Fit(ps: seq<ByteString>) {
    forall p <- ps :: |p| < TWO_32
  }

  /** Reading back one frame returns the payload exactly when its length fits the header. */
  lemma FirstFrameIff(p: ByteString, rest: ByteString)
    ensures var parsed := Parse(Frame(p) + rest).payloads;
            |parsed| > 0 && parsed[0] == p <==> |p| < TWO_32
  {
    var bs := Frame(p) + rest;
    assert bs[..HEADER] == Header(|p| % TWO_32);
    HeaderRoundTrip(|p| % TWO_32);
    if |p| < TWO_32 { assert bs[HEADER..HEADER + |p|] == p; }
  }

  lemma {:induction false} ParseFrames(ps: seq<ByteString>)
    requires Fit(ps)
    ensures Parse(Frames(ps)) == Parsed(ps, true)
    decreases |ps|
  {
    if ps != [] {
      ParseStep(ps[0], Frames(ps[1..]));
      ParseFrames(ps[1..]);
    }
  }

  lemma FrontIsFrame(bs: ByteString)
    requires |bs| >= HEADER && |bs| - HEADER >= Size(bs[..HEADER])
    ensures var size := Size(bs[..HEADER]);
            bs == Frame(bs[HEADER..HEADER + size]) + bs[HEADER + size..]
  {
    var h, size := bs[..HEADER], Size(bs[..HEADER]);
    var p, rest := bs[HEADER..HEADER + size], bs[HEADER + size..];
    SizeRoundTrip(h);
    assert |p| % TWO_32 == size;
    assert Frame(p) == h + p;
    assert bs == (h + p) + rest;
  }

  lemma FramesOne(p: ByteString, ps: seq<ByteString>)
    ensures Frames([p] + ps) == Frame(p) + Frames(ps)
  {
    assert ([p] + ps)[1..] == ps;
  }

  lemma {:induction false} WholeIsFrames(bs: ByteString)
    requires Parse(bs).whole
    ensures Fit(Parse(bs).payloads) && bs == Frames(Parse(bs).payloads)
    decreases |bs|
  {
    if bs != [] {
      FrontIsFrame(bs);
      var size := Size(bs[..HEADER]);
      var p, rest := bs[HEADER..HEADER + size], bs[HEADER + size..];
      WholeIsFrames(rest);
      FramesOne(p, Parse(rest).payloads);
    }
  }

  /** Whole-frame contents are recognised exactly, and read back as what was framed. */
  lemma ParseIff(bs: ByteString, ps: seq<ByteString>)
    ensures Fit(ps) && bs == Frames(ps) <==> Parse(bs) == Parsed(ps, true)
  {
    if Fit(ps) && bs == Frames(ps) { ParseFrames(ps); }
    if Parse(bs) == Parsed(ps, true) { WholeIsFrames(bs); }
  }

  lemma {:induction false} FramesAppend(ps: seq<ByteString>, qs: seq<ByteString>)
    ensures Frames(ps + qs) == Frames(ps) + Frames(qs)
    decreases |ps|
  {
    if ps == [] {
      assert ps + qs == qs;
    } else {
      FramesAppend(ps[1..], qs);
      assert (ps + qs)[1..] == ps[1..] + qs;
    }
  }

  /** The first step of reading: one frame off the front. */
  lemma ParseStep(p: ByteString, rest: ByteString)
    requires |p| < TWO_32
    ensures Parse(Frame(p) + rest) == Parsed([p] + Parse(rest).payloads, Parse(rest).whole)
  {
    var bs := Frame(p) + rest;
    assert bs[..HEADER] == Header(|p|);
    HeaderRoundTrip(|p|);
    assert bs[HEADER..HEADER + |p|] == p;
    assert bs[HEADER + |p|..] == rest;
  }

  lemma CutFrame(p: ByteString, cut: nat)
    requires |p| < TWO_32 && 0 < cut < |Frame(p)|
    ensures !Parse(Frame(p)[..cut]).whole
  {
    if cut >= HEADER {
      assert Frame(p)[..cut][..HEADER] == Header(|p|);
      ShortBody(Frame(p)[..cut], |p|);
    }
  }

  lemma ShortBody(bs: ByteString, n: Count)
    requires HEADER <= |bs| < HEADER + n && bs[..HEADER] == Header(n)
    ensures !Parse(bs).whole
  {
    HeaderRoundTrip(n);
  }

  lemma {:induction false} ParseAfterFrames(ps: seq<ByteString>, tail: ByteString)
    requires Fit(ps)
    ensures Parse(Frames(ps) + tail).whole <==> Parse(tail).whole
    decreases |ps|
  {
    if ps == [] {
      assert Frames(ps) + tail == tail;
    } else {
      ParseAfterFrames(ps[1..], tail);
      ParseStep(ps[0], Frames(ps[1..]) + tail);
      assert Frames(ps) + tail == Frame(ps[0]) + (Frames(ps[1..]) + tail);
    }
  }

  /** A log cut anywhere but between two frames does not replay. */
  lemma TornTail(ps: seq<ByteString>, p: ByteString, cut: nat)
    requires Fit(ps) && |p| < TWO_32 && 0 < cut < |Frame(p)|
    ensures !Parse(Frames(ps) + Frame(p)[..cut]).whole
  {
    CutFrame(p, cut);
    ParseAfterFrames(ps, Frame(p)[..cut]);
  }

  // ------------------------------------------------------------------ entries and replay

  /** A decoded WalEntry; the protobuf oneof may also be unset, which replay skips. */
  datatype Entry = Logged(req: Request) | Blank

  /** Protobuf marshalling. */
  datatype Codec = Codec(encode: Request -> ByteString, decode: ByteString -> Option<Entry>)

  /** On these records marshalling has an inverse and stays below the length a frame header can hold. */
  ghost predicate LawfulOn(c: Codec, rs: set<Request>) {
    forall r <- rs :: c.decode(c.encode(r)) == Some(Logged(r)) && |c.encode(r)| < TWO_32
  }

  /** Any log of fewer than 2^32 records has such a codec. */
  lemma LawfulCodecExists(rs: seq<Request>)
    requires |rs| < TWO_32
    ensures exists c :: LawfulOn(c, Elements(rs))
  {
    var c := Codec(r => seq(Position(rs, r), _ => 0), b => if |b| < |rs| then Some(Logged(rs[|b|])) else None);
    forall r | r in rs ensures c.decode(c.encode(r)) == Some(Logged(r)) && |c.encode(r)| < TWO_32 {
      assert |c.encode(r)| == Position(rs, r) < |rs|;
    }
    assert LawfulOn(c, Elements(rs));
  }

  function Position(rs: seq<Request>, r: Request): (i: nat)
    ensures i <= |rs| && (r in rs ==> i < |rs| && rs[i] == r)
  {
    if rs == [] || rs[0] == r then 0 else 1 + Position(rs[1..], r)
  }

  function DecodeAll(c: Codec, ps: seq<ByteString>): Option<seq<Entry>> {
    if ps == [] then Some([])
    else
      var e, rest := c.decode(ps[0]), DecodeAll(c, ps[1..]);
      if e.None? || rest.None? then None else Some([e.value] + rest.value)
  }

  /** What replaySegment reads from a segment file, or None if it returns an error. */
  function Entries(c: Codec, file: ByteString): Option<seq<Entry>> {
    if Parse(file).whole then DecodeAll(c, Parse(file).payloads) else None
  }

  lemma {:induction false} DecodeAllIff(c: Codec, ps: seq<ByteString>)
    ensures DecodeAll(c, ps).Some? <==> forall p <- ps :: c.decode(p).Some?
    decreases |ps|
  {
    if ps != [] {
      DecodeAllIff(c, ps[1..]);
      assert ps == [ps[0]] + ps[1..];
    }
  }

  /** The file ends with a whole frame and every payload in it decodes. */
  ghost predicate Readable(c: Codec, file: ByteString) {
    Parse(file).whole && forall p <- Parse(file).payloads :: c.decode(p).Some?
  }

  lemma EntriesIff(c: Codec, file: ByteString)
    ensures Entries(c, file).Some? <==> Readable(c, file)
  {
    DecodeAllIff(c, Parse(file).payloads);
  }

  /** setResults: the first entry of a key, then only strictly newer ones; the node id is not kept. */
  function Absorb(results: map<Key, Value>, e: Entry): map<Key, Value> {
    if e.Blank? || (e.req.key in results && e.req.timestamp <= results[e.req.key].timestamp) then results
    else results[e.req.key := ValueOf(e.req).(nodeId := [])]
  }

  function AbsorbAll(results: map<Key, Value>, es: seq<Entry>): map<Key, Value> {
    if es == [] then results else Absorb(AbsorbAll(results, es[..|es| - 1]), es[|es| - 1])
  }

  function Prepend(done: seq<Entry>, rest: Option<seq<Entry>>): Option<seq<Entry>> {
    if rest.None? then None else Some(done + rest.value)
  }

  /** One iteration of the read loop, seen from the remaining bytes. */
  lemma EntriesStep(c: Codec, bs: ByteString)
    requires |bs| >= HEADER && |bs| - HEADER >= Size(bs[..HEADER])
    ensures var size := Size(bs[..HEADER]);
            var e := c.decode(bs[HEADER..HEADER + size]);
            Entries(c, bs) == if e.None? then None else Prepend([e.value], Entries(c, bs[HEADER + size..]))
  {
    var size := Size(bs[..HEADER]);
    var p, rest := bs[HEADER..HEADER + size], Parse(bs[HEADER + size..]);
    assert ([p] + rest.payloads)[1..] == rest.payloads;
  }

  lemma EntriesAt(c: Codec, file: ByteString, pos: nat)
    requires pos + HEADER <= |file| && pos + HEADER + Size(file[pos..pos + HEADER]) <= |file|
    ensures var next := pos + HEADER + Size(file[pos..pos + HEADER]);
            var e := c.decode(file[pos + HEADER..next]);
            Entries(c, file[pos..]) == if e.None? then None else Prepend([e.value], Entries(c, file[next..]))
  {
    var bs, next := file[pos..], pos + HEADER + Size(file[pos..pos + HEADER]);
    assert bs[..HEADER] == file[pos..pos + HEADER];
    assert bs[HEADER..next - pos] == file[pos + HEADER..next];
    assert bs[next - pos..] == file[next..];
    EntriesStep(c, bs);
  }

  lemma PrependAppend(done: seq<Entry>, e: Entry, rest: Option<seq<Entry>>)
    ensures Prepend(done, Prepend([e], rest)) == Prepend(done + [e], rest)
  {
    if rest.Some? { assert done + ([e] + rest.value) == done + [e] + rest.value; }
  }

  /** The replay loop: succeeds exactly on whole, decodable frames and then absorbs them in order. */
  method ReplaySegment(c: Codec, file: ByteString, results: map<Key, Value>)
      returns (results': map<Key, Value>, ok: bool)
    ensures ok <==> Readable(c, file)
    ensures ok <==> Entries(c, file).Some?
    ensures ok ==> results' == AbsorbAll(results, Entries(c, file).value)
  {
    EntriesIff(c, file);
    results' := results;
    var pos := 0;
    ghost var done: seq<Entry> := [];
    assert file[0..] == file;
    assert Entries(c, file).Some? ==> [] + Entries(c, file).value == Entries(c, file).value;
    while pos < |file|
      invariant 0 <= pos <= |file|
      invariant Entries(c, file) == Prepend(done, Entries(c, file[pos..]))
      invariant results' == AbsorbAll(results, done)
    {
      if |file| - pos < HEADER { return results', false; }
      var size := Size(file[pos..pos + HEADER]);
      if |file| - pos - HEADER < size { return results', false; }
      var next := pos + HEADER + size;
      EntriesAt(c, file, pos);
      var e := c.decode(file[pos + HEADER..next]);
      if e.None? { return results', false; }
      PrependAppend(done, e.value, Entries(c, file[next..]));
      assert (done + [e.value])[..|done|] == done;
      results' := Absorb(results', e.value);
      done := done + [e.value];
      pos := next;
    }
    assert file[pos..] == [] && done + [] == done;
    return results', true;
  }

  // ------------------------------------------------------------------ records as bytes

  function Payloads(c: Codec, rs: seq<Request>): seq<ByteString> {
    seq(|rs|, i requires 0 <= i < |rs| => c.encode(rs[i]))
  }

  function Encoded(c: Codec, rs: seq<Request>): ByteString {
    Frames(Payloads(c, rs))
  }

  function AsEntries(rs: seq<Request>): seq<Entry> {
    seq(|rs|, i requires 0 <= i < |rs| => Logged(rs[i]))
  }

  lemma EncodedAppend(c: Codec, rs: seq<Request>, qs: seq<Request>)
    ensures Encoded(c, rs + qs) == Encoded(c, rs) + Encoded(c, qs)
  {
    FramesAppend(Payloads(c, rs), Payloads(c, qs));
    assert Payloads(c, rs + qs) == Payloads(c, rs) + Payloads(c, qs);
  }

  lemma {:induction false} DecodeRecords(c: Codec, rs: seq<Request>)
    requires LawfulOn(c, Elements(rs))
    ensures DecodeAll(c, Payloads(c, rs)) == Some(AsEntries(rs))
    decreases |rs|
  {
    if rs == [] {
      assert Payloads(c, rs) == [] && AsEntries(rs) == [];
    } else {
      assert rs[0] in rs && Elements(rs[1..]) <= Elements(rs);
      DecodeRecords(c, rs[1..]);
      assert Payloads(c, rs) != [] && Payloads(c, rs)[0] == c.encode(rs[0]);
      assert c.decode(c.encode(rs[0])) == Some(Logged(rs[0]));
      assert Payloads(c, rs)[1..] == Payloads(c, rs[1..]);
      assert [Logged(rs[0])] + AsEntries(rs[1..]) == AsEntries(rs);
    }
  }

  /** Published records read back in order. */
  lemma ReplayRoundTrip(c: Codec, rs: seq<Request>)
    requires LawfulOn(c, Elements(rs))
    ensures Entries(c, Encoded(c, rs)) == Some(AsEntries(rs))
  {
    forall p | p in Payloads(c, rs) ensures |p| < TWO_32 {
      var i :| 0 <= i < |rs| && c.encode(rs[i]) == p;
      assert rs[i] in rs;
    }
    ParseFrames(Payloads(c, rs));
    DecodeRecords(c, rs);
  }

  // ------------------------------------------------------------------ clearing

  /** The file after clearSegment, from its flushed contents. */
  function Cleared(all: ByteString, offset: int): ByteString {
    if offset <= 0 || |all| <= offset then [] else all[offset..]
  }

  lemma {:induction false} FramesSize(ps: seq<ByteString>)
    ensures |Frames(ps)| >= HEADER * |ps|
    decreases |ps|
  {
    if ps != [] { FramesSize(ps[1..]); }
  }

  /** Clearing at the offset recorded after `n` frames keeps exactly the later ones, unless that offset was 0
      and something has been written since: then everything is lost. */
  lemma ClearKeepsLaterIff(ps: seq<ByteString>, n: nat)
    requires n <= |ps|
    ensures Cleared(Frames(ps), |Frames(ps[..n])|) == Frames(ps[n..]) <==> n > 0 || ps == []
  {
    var front, rest := ps[..n], ps[n..];
    FramesAppend(front, rest);
    assert front + rest == ps;
    FramesSize(front);
    FramesSize(rest);
    assert Frames(ps)[|Frames(front)|..] == Frames(rest);
    if n == 0 { assert rest == ps; }
  }

  class Segment {
    const codec: Codec
    var file: ByteString
    var buffer: ByteString
    ghost var records: seq<Request>
    ghost var pending: seq<Request>

    ghost predicate Valid()
      reads this
    {
      file == Encoded(codec, records) && buffer == Encoded(codec, pending)
    }

    constructor (codec: Codec)
      ensures Valid() && this.codec == codec && records == [] && pending == []
    {
      this.codec := codec;
      file, buffer, records, pending := [], [], [], [];
    }

    method Publish(req: Request)
      requires Valid()
      modifies this
      ensures Valid() && records == old(records) && pending == old(pending) + [req]
    {
      var data := codec.encode(req);
      EncodedAppend(codec, pending, [req]);
      assert Payloads(codec, [req]) == [data];
      assert Frames([data]) == Frame(data) + Frames([]);
      buffer := buffer + Frame(data);
      pending := pending + [req];
    }

    method Flush()
      requires Valid()
      modifies this
      ensures Valid() && records == old(records) + old(pending) && pending == []
    {
      EncodedAppend(codec, records, pending);
      file, buffer := file + buffer, [];
      records, pending := records + pending, [];
    }

    /** Flush and report the file size: the boundary up to which a snapshot will stand for the log. */
    method PrepareSnapshot() returns (offset: nat)
      requires Valid()
      modifies this
      ensures Valid() && records == old(records) + old(pending) && pending == []
      ensures offset == |Encoded(codec, records)|
    {
      Flush();
      return |file|;
    }

    /** Drop everything up to an offset recorded when the file held its first `n` records. */
    method Clear(offset: int, ghost n: nat)
      requires Valid() && n <= |records| && offset == |Encoded(codec, records[..n])|
      modifies this
      ensures Valid() && pending == []
      ensures records == if n == 0 then [] else (old(records) + old(pending))[n..]
    {
      Flush();
      ClearRecords(codec, records, n);
      assert old(records)[..n] == records[..n];
      if offset <= 0 || |file| <= offset {
        file := [];
      } else {
        file := file[offset..];
      }
      records := if n == 0 then [] else records[n..];
    }
  }

  lemma ClearRecords(c: Codec, rs: seq<Request>, n: nat)
    requires n <= |rs|
    ensures Cleared(Encoded(c, rs), |Encoded(c, rs[..n])|) == Encoded(c, if n == 0 then [] else rs[n..])
  {
    ClearKeepsLaterIff(Payloads(c, rs), n);
    assert Payloads(c, rs)[..n] == Payloads(c, rs[..n]);
    assert Payloads(c, rs)[n..] == Payloads(c, rs[n..]);
  }
}

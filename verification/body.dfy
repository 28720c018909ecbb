/**
 The crawler's two body drains: receive_content, which forwards bytes to
 standard output until the declared Content-Length (section 8.6 of RFC 9110)
 is used up, and receive_chunked, which reads one chunk-size line of the
 chunked coding (section 7.1 of RFC 9112) and hands its size to
 receive_content.
 */
module Body {
  import opened Wrappers
  import opened CText
  import opened Socket
  import opened HeaderScan

  /** A drain's return value, the bytes it forwarded to standard output, and the connection afterwards. */
  datatype Drain = Drain(ret: int, out: seq<char>, rest: Conn)

  /**
   receive_content(sock, contentLength, buf, bufSize): while the remaining
   count is positive, recv up to a full buffer (not capped at the remaining
   count), forward it, and subtract its length; stop when recv returns 0 or
   less. The function always returns 0.
   */
  function ReceiveContent(c: Conn, contentLength: int, bufSize: nat): (r: Drain)
    requires bufSize > 0
    ensures r.ret == 0
    ensures |r.out| <= |c.data| && r.out == c.data[..|r.out|] && r.rest.data == c.data[|r.out|..]
    ensures contentLength <= 0 ==> r.out == [] && r.rest == c
    ensures contentLength > 0 ==> |r.out| < contentLength + bufSize
    ensures Size(r.rest) <= Size(c)
    decreases Size(c)
  {
    if contentLength <= 0 then Drain(0, [], c)
    else
      var rv := Recv(c, bufSize);
      if rv.n < 0 then Drain(0, [], rv.rest)
      else if rv.n == 0 then Drain(0, [], rv.rest)
      else
        var d := ReceiveContent(rv.rest, contentLength - rv.n, bufSize);
        PrefixJoin(c.data, rv.n, d.out);
        Drain(0, rv.bytes + d.out, d.rest)
  }

  /**
   The running totals of the recv calls that reads of up to `bufSize` bytes
   make on `c`, up to (not including) the first one that returns 0 or less.
   */
  function Totals(c: Conn, bufSize: nat): (ts: seq<nat>)
    requires bufSize > 0
    ensures |ts| <= |c.data|
    ensures forall i | 0 <= i < |ts| :: 0 < ts[i] <= |c.data|
    decreases Size(c)
  {
    var rv := Recv(c, bufSize);
    if rv.n <= 0 then [] else [rv.n] + Shift(Totals(rv.rest, bufSize), rv.n)
  }

  /** Every total moved on by `k`. */
  function Shift(ts: seq<nat>, k: nat): (r: seq<nat>)
    ensures |r| == |ts| && forall i | 0 <= i < |ts| :: r[i] == ts[i] + k
  {
    seq(|ts|, i requires 0 <= i < |ts| => ts[i] + k)
  }

  /** The index of the first total that reaches `n`, or of the last total when none does. */
  function StopIndex(ts: seq<nat>, n: int): (i: nat)
    requires |ts| > 0
    ensures i < |ts|
    ensures forall j | 0 <= j < i :: ts[j] < n
    ensures ts[i] >= n || i == |ts| - 1
  {
    if ts[0] >= n || |ts| == 1 then 0 else 1 + StopIndex(ts[1..], n)
  }

  /** Only one index is the first to reach `n` or the last. */
  lemma StopIndexUnique(ts: seq<nat>, n: int, i: nat)
    requires i < |ts| && (forall j | 0 <= j < i :: ts[j] < n) && (ts[i] >= n || i == |ts| - 1)
    ensures StopIndex(ts, n) == i
  {
  }

  /**
   A first read of `k` bytes short of `n`, then a drain that stops where the
   totals after it say: the whole drain stops where the totals with the
   first read say.
   */
  lemma StopAfterFirst(tr: seq<nat>, k: nat, n: int, rest: nat)
    requires |tr| > 0 && k < n && rest == tr[StopIndex(tr, n - k)]
    ensures k + rest == ([k] + Shift(tr, k))[StopIndex([k] + Shift(tr, k), n)]
  {
    var ts := [k] + Shift(tr, k);
    var i := StopIndex(tr, n - k);
    assert forall j | 1 <= j < |ts| :: ts[j] == tr[j - 1] + k;
    StopIndexUnique(ts, n, i + 1);
  }

  /**
   On every connection, segmented or not, the drain stops at the first read
   whose running total reaches the declared length, or after the last read
   before a recv returns 0 or less.
   */
  lemma {:induction false} DrainStopsAtFirstCover(c: Conn, contentLength: int, bufSize: nat)
    requires bufSize > 0 && contentLength > 0
    ensures Totals(c, bufSize) == [] ==> ReceiveContent(c, contentLength, bufSize).out == []
    ensures Totals(c, bufSize) != [] ==>
              |ReceiveContent(c, contentLength, bufSize).out|
              == Totals(c, bufSize)[StopIndex(Totals(c, bufSize), contentLength)]
    decreases Size(c)
  {
    var rv := Recv(c, bufSize);
    var ts := Totals(c, bufSize);
    var out := ReceiveContent(c, contentLength, bufSize).out;
    if rv.n <= 0 {
      assert ts == [] && out == [];
    } else {
      var tr := Totals(rv.rest, bufSize);
      var d := ReceiveContent(rv.rest, contentLength - rv.n, bufSize);
      assert ts == [rv.n] + Shift(tr, rv.n);
      assert out == rv.bytes + d.out;
      if contentLength - rv.n <= 0 || tr == [] {
        if contentLength - rv.n > 0 {
          DrainStopsAtFirstCover(rv.rest, contentLength - rv.n, bufSize);
        }
        assert d.out == [];
        StopIndexUnique(ts, contentLength, 0);
      } else {
        DrainStopsAtFirstCover(rv.rest, contentLength - rv.n, bufSize);
        StopAfterFirst(tr, rv.n, contentLength, |d.out|);
      }
    }
  }

  /**
   With a peer that sends at least `contentLength` bytes and no recv error,
   the drain forwards at least the declared length.
   */
  lemma {:induction false} DrainDeliversDeclared(c: Conn, contentLength: nat, bufSize: nat)
    requires bufSize > 0 && Reliable(c) && |c.data| >= contentLength
    ensures |ReceiveContent(c, contentLength, bufSize).out| >= contentLength
    decreases Size(c)
  {
    if contentLength > 0 {
      var rv := Recv(c, bufSize);
      assert rv.n > 0;
      if contentLength - rv.n > 0 {
        assert Reliable(rv.rest) by {
          assert forall i | 0 <= i < |rv.rest.grants| :: rv.rest.grants[i] == c.grants[i + 1];
        }
        DrainDeliversDeclared(rv.rest, contentLength - rv.n, bufSize);
      }
    }
  }

  /**
   The bytes that whole reads of `b` bytes take to cover `n` bytes: the
   least multiple of `b` that is at least `n`.
   */
  function Covered(n: int, b: nat): (m: nat)
    requires b > 0
    ensures n <= 0 ==> m == 0
    ensures n > 0 ==> n <= m < n + b
    ensures m == Rounds(n, b) * b
    decreases n
  {
    if n <= 0 then 0
    else
      var m' := Covered(n - b, b);
      assert b + Rounds(n - b, b) * b == (1 + Rounds(n - b, b)) * b;
      b + m'
  }

  /** How many whole reads of `b` bytes it takes to cover `n` bytes. */
  function Rounds(n: int, b: nat): nat
    requires b > 0
    decreases n
  {
    if n <= 0 then 0 else 1 + Rounds(n - b, b)
  }

  /**
   Without segmentation (every recv gets all it asks for) the drain forwards
   whole buffers until it has at least the declared length: the first
   Covered(contentLength, bufSize) bytes, or everything the peer sent.
   */
  lemma {:induction false} DrainUnsegmented(c: Conn, contentLength: nat, bufSize: nat)
    requires bufSize > 0 && c.grants == [] && contentLength > 0
    ensures ReceiveContent(c, contentLength, bufSize).out == c.data[..Min(|c.data|, Covered(contentLength, bufSize))]
    decreases |c.data|
  {
    if |c.data| == 0 {
      assert Recv(c, bufSize).n == 0;
    } else if |c.data| < bufSize {
      DrainShortRead(c, contentLength, bufSize);
    } else if contentLength > bufSize {
      var rest := Conn(c.data[bufSize..], []);
      DrainUnsegmented(rest, contentLength - bufSize, bufSize);
      FirstRead(c, contentLength, bufSize);
      CoverJoin(c.data, ReceiveContent(rest, contentLength - bufSize, bufSize).out, contentLength, bufSize);
    } else {
      DrainOneBuffer(c, contentLength, bufSize);
    }
  }

  /** A declared length within one buffer is covered by the first full read. */
  lemma DrainOneBuffer(c: Conn, contentLength: nat, bufSize: nat)
    requires bufSize > 0 && c.grants == [] && 0 < contentLength <= bufSize <= |c.data|
    ensures ReceiveContent(c, contentLength, bufSize).out == c.data[..Min(|c.data|, Covered(contentLength, bufSize))]
  {
    assert Covered(contentLength, bufSize) == bufSize;
    var rv := Recv(c, bufSize);
    assert rv.n == bufSize && rv.bytes == c.data[..bufSize];
  }

  /** A read shorter than the buffer takes everything the peer sent. */
  lemma DrainShortRead(c: Conn, contentLength: nat, bufSize: nat)
    requires bufSize > 0 && c.grants == [] && contentLength > 0 && 0 < |c.data| < bufSize
    ensures ReceiveContent(c, contentLength, bufSize).out == c.data
  {
    var rv := Recv(c, bufSize);
    assert rv.rest.data == [];
  }

  /** A full first buffer, then the window the rest of the drain forwards, make the whole window. */
  lemma CoverJoin(data: seq<char>, tail: seq<char>, contentLength: nat, bufSize: nat)
    requires bufSize > 0 && contentLength > bufSize && |data| >= bufSize
    requires tail == data[bufSize..][..Min(|data| - bufSize, Covered(contentLength - bufSize, bufSize))]
    ensures data[..bufSize] + tail == data[..Min(|data|, Covered(contentLength, bufSize))]
  {
    assert Covered(contentLength, bufSize) == bufSize + Covered(contentLength - bufSize, bufSize);
    WindowJoin(data, bufSize, Covered(contentLength - bufSize, bufSize));
  }

  /** The first `b` bytes, then up to `m` more, are the first `b + m` bytes as far as they go. */
  lemma WindowJoin(s: seq<char>, b: nat, m: nat)
    requires b <= |s|
    ensures s[..b] + s[b..][..Min(|s[b..]|, m)] == s[..Min(|s|, b + m)]
  {
    SplitAt(s, b, Min(|s|, b + m));
  }

  /** A first read that fills the buffer is forwarded whole, ahead of the drain of the rest. */
  lemma FirstRead(c: Conn, contentLength: nat, bufSize: nat)
    requires bufSize > 0 && c.grants == [] && contentLength > bufSize && |c.data| >= bufSize
    ensures ReceiveContent(c, contentLength, bufSize).out
         == c.data[..bufSize] + ReceiveContent(Conn(c.data[bufSize..], []), contentLength - bufSize, bufSize).out
  {
    var rv := Recv(c, bufSize);
    assert rv.n == bufSize && rv.bytes == c.data[..bufSize] && rv.rest == Conn(c.data[bufSize..], []);
  }

  lemma SplitAt(s: seq<char>, i: nat, t: nat)
    requires i <= t <= |s|
    ensures s[..t] == s[..i] + s[i..][..t - i]
  {
  }

  /**
   receive_chunked(sock, buf, bufSize) as written: read the size line, take
   strtol(line, NULL, 16) as the chunk size and drain that many bytes. The
   drain always returns 0 and the loop breaks on a result <= 0, so the loop
   body runs once: at most one chunk is ever read.
   */
  function ReceiveChunked(c: Conn, bufSize: nat): (r: Drain)
    requires bufSize > 0
    ensures r.ret == 0
    ensures ReceiveHeaders(c, bufSize, CRLF).ret <= 0 ==> r.out == []
    ensures ReceiveHeaders(c, bufSize, CRLF).ret > 0 ==>
              ReceiveHeaders(c, bufSize, CRLF).ret + |r.out| <= |c.data|
    ensures ReceiveHeaders(c, bufSize, CRLF).ret > 0 ==>
              r.out == c.data[ReceiveHeaders(c, bufSize, CRLF).ret..][..|r.out|]
    ensures ReceiveHeaders(c, bufSize, CRLF).ret > 0 && Strtol16(ReceiveHeaders(c, bufSize, CRLF).buf) <= 0 ==>
              r.out == []
    ensures ReceiveHeaders(c, bufSize, CRLF).ret > 0 && Strtol16(ReceiveHeaders(c, bufSize, CRLF).buf) > 0 ==>
              |r.out| < Strtol16(ReceiveHeaders(c, bufSize, CRLF).buf) + bufSize
  {
    var line := ReceiveHeaders(c, bufSize, CRLF);
    if line.ret <= 0 then Drain(0, [], line.rest)
    else
      var size := Strtol16(line.buf);
      var d := ReceiveContent(line.rest, size, bufSize);
      if d.ret <= 0 then Drain(0, d.out, d.rest)
      else
        // the loop would go round again here, but the drain returned 0
        assert false;
        Drain(0, d.out, d.rest)
  }

  /** A line without a line feed, then CRLF: the scan stops right after it. */
  lemma LineScan(line: seq<char>, more: seq<char>, g: seq<nat>, cap: nat)
    requires Free(line, '\n') && |line| + 2 <= cap && NoErrorWithin(g, |line| + 2)
    ensures ReceiveHeaders(Conn(line + CRLF + more, g), cap, CRLF)
         == Scan(|line| + 2, line + CRLF, Conn(more, Drop(g, |line| + 2)))
  {
    var s := line + CRLF + more;
    var k := |line| + 2;
    assert s[..k] == line + CRLF;
    forall j | 0 < j < k
      ensures !EndsWith(s[..j], CRLF)
    {
      assert s[..j][j - 1] == s[j - 1];
      if j <= |line| {
        assert s[j - 1] == line[j - 1];
      }
    }
    assert StopsAt(s, CRLF, cap, k);
    ScanSucceeds(Conn(s, g), cap, CRLF, k);
    assert s[k..] == more;
  }

  /**
   The chunked drain as written, on a body that arrives unsegmented: after
   the first size line it forwards whole buffers of raw stream, up to the
   first multiple of the buffer size that covers the chunk, whatever follows
   the chunk's data (its CRLF, later size lines, later chunks).
   */
  lemma ChunkedForwardsRawStream(size: nat, more: seq<char>, bufSize: nat)
    requires |Numeral(size, 16)| + 2 <= bufSize && size > 0
    ensures ReceiveChunked(Conn(Numeral(size, 16) + CRLF + more, []), bufSize).out
         == more[..Min(|more|, Covered(size, bufSize))]
  {
    var hex := Numeral(size, 16);
    assert Free(hex, '\n') by {
      assert forall i | 0 <= i < |hex| :: IsDigitIn(hex[i], 16);
    }
    LineScan(hex, more, [], bufSize);
    ParseNumeral(size, CRLF, 16);
    DrainUnsegmented(Conn(more, []), size, bufSize);
  }

  /** The chunked coding of `chunks`, each non-empty: size line, data and CRLF per chunk, then the last chunk and an empty trailer. */
  function Encode(chunks: seq<seq<char>>): seq<char>
    decreases |chunks|
  {
    if |chunks| == 0 then "0" + CRLF + CRLF
    else Numeral(|chunks[0]|, 16) + CRLF + chunks[0] + CRLF + Encode(chunks[1..])
  }

  /** The data the chunks carry, in order. */
  function Flatten(chunks: seq<seq<char>>): seq<char>
    decreases |chunks|
  {
    if |chunks| == 0 then [] else chunks[0] + Flatten(chunks[1..])
  }

  /**
   receive_chunked as written, on one chunk arriving unsegmented: the chunk's
   data reaches standard output followed by its CRLF and the whole last
   chunk, framing that is not content.
   */
  lemma AsWrittenForwardsFraming(data: seq<char>, bufSize: nat)
    requires 0 < |data| && |Numeral(|data|, 16)| + 2 <= bufSize && |data| + 7 <= bufSize
    ensures ReceiveChunked(Conn(Encode([data]), []), bufSize).out == data + CRLF + Encode([])
    ensures DecodeChunked(Conn(Encode([data]), []), bufSize).out == data
  {
    var more := data + CRLF + Encode([]);
    assert Encode([data]) == Numeral(|data|, 16) + CRLF + more by {
      assert [data][1..] == [];
    }
    ForwardsAll(|data|, more, bufSize);
    OneChunkRoundTrip(data, bufSize);
  }

  lemma ForwardsAll(size: nat, more: seq<char>, bufSize: nat)
    requires |Numeral(size, 16)| + 2 <= bufSize && size > 0 && |more| <= bufSize
    ensures ReceiveChunked(Conn(Numeral(size, 16) + CRLF + more, []), bufSize).out == more
  {
    ChunkedForwardsRawStream(size, more, bufSize);
    assert Covered(size, bufSize) >= bufSize;
  }

  lemma OneChunkRoundTrip(data: seq<char>, bufSize: nat)
    requires 0 < |data| && |Numeral(|data|, 16)| + 2 <= bufSize && bufSize >= 3
    ensures DecodeChunked(Conn(Encode([data]), []), bufSize).out == data
  {
    assert Decodable([data], bufSize);
    DecodeEncode([data], [], bufSize);
    assert Flatten([data]) == data + Flatten([data][1..]);
    assert Encode([data]) + [] == Encode([data]);
  }

  /** recv capped at the bytes still owed: -1 when the peer closes or a recv fails first. */
  function ReadExactly(c: Conn, n: nat, bufSize: nat): (r: Drain)
    requires bufSize > 0
    ensures r.ret == 0 || r.ret == -1
    ensures r.ret == 0 <==> |r.out| == n
    ensures |r.out| <= n && |r.out| <= |c.data|
    ensures r.out == c.data[..|r.out|] && r.rest.data == c.data[|r.out|..]
    ensures Size(r.rest) <= Size(c)
    decreases n
  {
    if n == 0 then Drain(0, [], c)
    else
      var rv := Recv(c, Min(bufSize, n));
      if rv.n <= 0 then Drain(-1, [], rv.rest)
      else
        assert 0 < rv.n <= n;
        var d := ReadExactly(rv.rest, n - rv.n, bufSize);
        PrefixJoin(c.data, rv.n, d.out);
        Drain(d.ret, rv.bytes + d.out, d.rest)
  }

  /** On an unsegmented connection holding enough bytes, the capped drain takes exactly `n`. */
  lemma {:induction false} ReadExactlyWhole(c: Conn, n: nat, bufSize: nat)
    requires bufSize > 0 && c.grants == [] && |c.data| >= n
    ensures ReadExactly(c, n, bufSize) == Drain(0, c.data[..n], Conn(c.data[n..], []))
    decreases n
  {
    if n > 0 {
      var k := Min(bufSize, n);
      ReadStep(c, n, bufSize);
      ReadExactlyWhole(Conn(c.data[k..], []), n - k, bufSize);
      SplitAt(c.data, k, n);
      assert c.data[k..][n - k..] == c.data[n..];
    }
  }

  /**
   A connection without recv errors that holds at least `n` bytes: the
   capped drain succeeds with exactly the first `n`, however the network
   segments them.
   */
  lemma {:induction false} ReadExactlyReliable(c: Conn, n: nat, bufSize: nat)
    requires bufSize > 0 && Reliable(c) && |c.data| >= n
    ensures ReadExactly(c, n, bufSize).ret == 0
    ensures ReadExactly(c, n, bufSize).out == c.data[..n]
    decreases n
  {
    if n > 0 {
      var rv := Recv(c, Min(bufSize, n));
      assert rv.n > 0;
      assert Reliable(rv.rest) by {
        assert forall i | 0 <= i < |rv.rest.grants| :: rv.rest.grants[i] == c.grants[i + 1];
      }
      ReadExactlyReliable(rv.rest, n - rv.n, bufSize);
    }
  }

  /** One unsegmented read of min(bufSize, n) bytes, ahead of the capped drain of the rest. */
  lemma ReadStep(c: Conn, n: nat, bufSize: nat)
    requires bufSize > 0 && c.grants == [] && |c.data| >= n > 0
    ensures var k := Min(bufSize, n);
            var d := ReadExactly(Conn(c.data[k..], []), n - k, bufSize);
            ReadExactly(c, n, bufSize) == Drain(d.ret, c.data[..k] + d.out, d.rest)
  {
    var k := Min(bufSize, n);
    var rv := Recv(c, k);
    assert rv.n == k;
    assert rv.bytes == c.data[..k];
    assert rv.rest == Conn(c.data[k..], []) by {
      assert Drop([], 1) == [];
    }
  }

  /** The CRLF that closes a chunk's data or the trailer: read it, or None. */
  function ExpectCrlf(c: Conn): (r: Option<Conn>)
    ensures r.Some? ==> Size(r.value) < Size(c) && |c.data| >= 2
    ensures r.Some? ==> c.data[..2] == CRLF && r.value.data == c.data[2..]
  {
    var e := ReceiveHeaders(c, 2, CRLF);
    if e.ret == 2 && e.buf == CRLF then Some(e.rest) else None
  }

  lemma ExpectCrlfOf(rest: seq<char>)
    ensures ExpectCrlf(Conn(CRLF + rest, [])) == Some(Conn(rest, []))
  {
    assert [] + CRLF + rest == CRLF + rest;
    LineScan([], rest, [], 2);
    assert Drop([], 2) == [];
  }

  /** One round of the intended chunk loop: a malformed or cut-off chunk, the last chunk, or a chunk's data. */
  datatype Step = Failed(out: seq<char>, rest: Conn) | Last(rest: Conn) | Chunk(data: seq<char>, rest: Conn)

  /** A chunk's size, read from its size line, and the connection after that line. */
  datatype Sized = Sized(size: nat, rest: Conn)

  /** The size line: None when it cannot be read or its size is negative. */
  function ReadSizeLine(c: Conn, bufSize: nat): (r: Option<Sized>)
    ensures r.Some? ==> Size(r.value.rest) < Size(c)
    ensures r.Some? ==> r.value.size as int == Strtol16(ReceiveHeaders(c, bufSize, CRLF).buf)
  {
    var line := ReceiveHeaders(c, bufSize, CRLF);
    if line.ret <= 0 then None
    else
      var size := Strtol16(line.buf);
      if size < 0 then None else Some(Sized(size, line.rest))
  }

  /**
   What follows a size line: for size 0 the empty trailer (a bare CRLF),
   otherwise exactly `size` bytes and the CRLF after them.
   */
  function ChunkBody(c: Conn, size: nat, bufSize: nat): (r: Step)
    requires bufSize > 0
    ensures Size(r.rest) <= Size(c)
    ensures r.Chunk? ==> Size(r.rest) < Size(c) && |r.data| == size > 0
    ensures r.Last? <==> size == 0 && ExpectCrlf(c).Some?
  {
    if size == 0 then
      match ExpectCrlf(c)
      case None => Failed([], c)
      case Some(rest) => Last(rest)
    else
      var d := ReadExactly(c, size, bufSize);
      if d.ret < 0 then Failed(d.out, d.rest)
      else
        match ExpectCrlf(d.rest)
        case None => Failed(d.out, d.rest)
        case Some(rest) => Chunk(d.out, rest)
  }

  /** Read one chunk (section 7.1 of RFC 9112): its size line, then its body. */
  function ChunkStep(c: Conn, bufSize: nat): (r: Step)
    requires bufSize > 0
    ensures Size(r.rest) <= Size(c)
    ensures r.Chunk? ==> Size(r.rest) < Size(c) && |r.data| > 0
  {
    match ReadSizeLine(c, bufSize)
    case None => Failed([], c)
    case Some(line) => ChunkBody(line.rest, line.size, bufSize)
  }

  /**
   A chunked decoder as the loop in receive_chunked evidently intends:
   chunk after chunk until the last one. 0 once the last chunk and its
   trailer are read, -1 on a malformed or truncated body.
   */
  function DecodeChunked(c: Conn, bufSize: nat): (r: Drain)
    requires bufSize > 0
    ensures r.ret == 0 || r.ret == -1
    ensures Size(r.rest) <= Size(c)
    decreases Size(c)
  {
    match ChunkStep(c, bufSize)
    case Failed(out, rest) => Drain(-1, out, rest)
    case Last(rest) => Drain(0, [], rest)
    case Chunk(data, rest) =>
      var tail := DecodeChunked(rest, bufSize);
      Drain(tail.ret, data + tail.out, tail.rest)
  }

  /** Chunks the decoder can take whole: non-empty, with size lines that fit the buffer. */
  predicate Decodable(chunks: seq<seq<char>>, bufSize: nat) {
    forall i | 0 <= i < |chunks| :: 0 < |chunks[i]| && |Numeral(|chunks[i]|, 16)| + 2 <= bufSize
  }

  /** One chunk: the decoder passes its data on and goes on with what follows its CRLF. */
  lemma DecodeOne(data: seq<char>, rest: seq<char>, bufSize: nat)
    requires 0 < |data| && |Numeral(|data|, 16)| + 2 <= bufSize
    ensures var t := DecodeChunked(Conn(rest, []), bufSize);
            DecodeChunked(Conn(Numeral(|data|, 16) + CRLF + data + CRLF + rest, []), bufSize)
            == Drain(t.ret, data + t.out, t.rest)
  {
    StepOne(data, rest, bufSize);
  }

  lemma StepOne(data: seq<char>, rest: seq<char>, bufSize: nat)
    requires 0 < |data| && |Numeral(|data|, 16)| + 2 <= bufSize
    ensures ChunkStep(Conn(Numeral(|data|, 16) + CRLF + data + CRLF + rest, []), bufSize) == Chunk(data, Conn(rest, []))
  {
    var hex := Numeral(|data|, 16);
    var body := data + CRLF + rest;
    assert hex + CRLF + data + CRLF + rest == hex + CRLF + body;
    SizeLine(|data|, body, bufSize);
    ChunkData(data, rest, bufSize);
    ExpectCrlfOf(rest);
  }

  /** The size line of a chunk is scanned whole and read back as the chunk's size. */
  lemma SizeLine(size: nat, body: seq<char>, bufSize: nat)
    requires |Numeral(size, 16)| + 2 <= bufSize
    ensures ReadSizeLine(Conn(Numeral(size, 16) + CRLF + body, []), bufSize) == Some(Sized(size, Conn(body, [])))
  {
    var hex := Numeral(size, 16);
    assert Free(hex, '\n') by {
      assert forall i | 0 <= i < |hex| :: IsDigitIn(hex[i], 16);
    }
    LineScan(hex, body, [], bufSize);
    assert Drop([], |hex| + 2) == [];
    ParseNumeral(size, CRLF, 16);
  }

  /** A chunk's data is read exactly, leaving its CRLF. */
  lemma ChunkData(data: seq<char>, rest: seq<char>, bufSize: nat)
    requires bufSize > 0
    ensures ReadExactly(Conn(data + CRLF + rest, []), |data|, bufSize) == Drain(0, data, Conn(CRLF + rest, []))
  {
    var after := CRLF + rest;
    var body := data + after;
    assert data + CRLF + rest == body;
    assert body[..|data|] == data && body[|data|..] == after;
    ReadExactlyWhole(Conn(body, []), |data|, bufSize);
  }

  /** The last chunk and the empty trailer end the body, leaving what follows unread. */
  lemma DecodeLast(more: seq<char>, bufSize: nat)
    requires bufSize >= 3
    ensures DecodeChunked(Conn(Encode([]) + more, []), bufSize) == Drain(0, [], Conn(more, []))
  {
    StepLast(more, bufSize);
  }

  lemma StepLast(more: seq<char>, bufSize: nat)
    requires bufSize >= 3
    ensures ChunkStep(Conn(Encode([]) + more, []), bufSize) == Last(Conn(more, []))
  {
    assert Encode([]) + more == Numeral(0, 16) + CRLF + (CRLF + more);
    SizeLine(0, CRLF + more, bufSize);
    ExpectCrlfOf(more);
  }

  /**
   The round trip of the chunked coding: decoding the coding of any chunks
   gives back their data in order, and stops right after the trailer.
   */
  lemma {:induction false} DecodeEncode(chunks: seq<seq<char>>, more: seq<char>, bufSize: nat)
    requires bufSize >= 3 && Decodable(chunks, bufSize)
    ensures DecodeChunked(Conn(Encode(chunks) + more, []), bufSize) == Drain(0, Flatten(chunks), Conn(more, []))
    decreases |chunks|
  {
    if |chunks| == 0 {
      DecodeLast(more, bufSize);
    } else {
      var data := chunks[0];
      var later := Encode(chunks[1..]) + more;
      DecodableTail(chunks, bufSize);
      DecodeEncode(chunks[1..], more, bufSize);
      EncodeCons(chunks, more);
      DecodeOne(data, later, bufSize);
    }
  }

  lemma EncodeCons(chunks: seq<seq<char>>, more: seq<char>)
    requires |chunks| > 0
    ensures Encode(chunks) + more
         == Numeral(|chunks[0]|, 16) + CRLF + chunks[0] + CRLF + (Encode(chunks[1..]) + more)
  {
  }

  lemma DecodableTail(chunks: seq<seq<char>>, bufSize: nat)
    requires |chunks| > 0 && Decodable(chunks, bufSize)
    ensures Decodable(chunks[1..], bufSize)
    ensures 0 < |chunks[0]| && |Numeral(|chunks[0]|, 16)| + 2 <= bufSize
    ensures Flatten(chunks) == chunks[0] + Flatten(chunks[1..])
  {
    assert forall i | 0 <= i < |chunks[1..]| :: chunks[1..][i] == chunks[i + 1];
  }
}

/**
 The client side of crawler.c: send one GET for "/", read the reply's header
 block, echo it to standard error without its blank line, and drain the body
 to standard output, framed by Content-Length or by the chunked coding.
 Standard error and standard output are recorded as byte sequences; the
 fixed diagnostic messages are not.
 */
module Crawler {
  import opened Wrappers
  import opened CText
  import opened Socket
  import opened HeaderScan
  import opened Body

  /** char buf[8*1024] in main. */
  const BufSize: nat := 8192

  /** char intbuf[20] in get_hdr_int. */
  const FieldWidth: nat := 20

  /** The largest value get_hdr_int can return: atoi's result is an int. */
  const IntMax: nat := 0x7fff_ffff

  const LengthKey: seq<char> := "Content-Length:"
  const ChunkedMark: seq<char> := "Transfer-Encoding: chunked"

  /** The request send_request writes: a GET for "/" with a Host line, and one CRLF too many. */
  function Request(host: seq<char>): (req: seq<char>)
    ensures |req| == 28 + |host|
    ensures req[..22] == "GET / HTTP/1.1\r\nHost: " && req[22..22 + |host|] == host
    ensures req[22 + |host|..] == CRLF + CRLF + CRLF
  {
    "GET / HTTP/1.1\r\nHost: " + host + CRLF + CRLF + CRLF
  }

  /** The bytes strncpy copies into intbuf: up to FieldWidth of them, from index `from` on. */
  function ValueWindow(buf: seq<char>, from: nat): (w: seq<char>)
    ensures |w| <= FieldWidth
    ensures from <= |buf| ==> |w| == Min(FieldWidth, |buf| - from)
    ensures from <= |buf| ==> w == buf[from..][..|w|]
  {
    var a := Min(from, |buf|);
    buf[a..Min(a + FieldWidth, |buf|)]
  }

  /**
   get_hdr_int: -1 when the key does not occur; otherwise the value of the
   header line at the key's first occurrence.
   */
  function GetHdrInt(buf: seq<char>, key: seq<char>): (r: int)
    ensures !Contains(buf, key) ==> r == -1
    ensures Contains(buf, key) && !Contains(buf[Find(buf, key).value..], CRLF) ==> r == -1
  {
    match Find(buf, key)
    case None => -1
    case Some(i) => LineValue(buf[i..], key)
  }

  /**
   The rest of get_hdr_int once `hdr` points at the key: -1 when no CRLF
   follows, otherwise atoi of the FieldWidth bytes that start one byte past
   the key.
   */
  function LineValue(hdr: seq<char>, key: seq<char>): int {
    if !Contains(hdr, CRLF) then -1 else Atoi(ValueWindow(hdr, |key| + 1))
  }

  /** The first occurrence of `key` is right after `pre` when `pre` lacks the key's first character. */
  lemma FindAfter(pre: seq<char>, key: seq<char>, rest: seq<char>)
    requires |key| > 0 && Free(pre, key[0])
    ensures Find(pre + key + rest, key) == Some(|pre|)
  {
    var buf := pre + key + rest;
    assert OccursAt(buf, key, |pre|) by {
      assert buf[|pre|..|pre| + |key|] == key;
    }
    forall j: nat | j < |pre|
      ensures !OccursAt(buf, key, j)
    {
      assert buf[j] == pre[j];
    }
  }

  /** atoi of the window over a numeral and the CRLF after it gives the number. */
  lemma WindowValue(n: nat, post: seq<char>)
    requires |Decimal(n)| <= FieldWidth
    ensures Atoi(ValueWindow(Decimal(n) + CRLF + post, 0)) == n
  {
    var ds := Decimal(n);
    var tail := ds + CRLF + post;
    var w := ValueWindow(tail, 0);
    assert w == tail[..|w|];
    var t := w[|ds|..];
    assert w == ds + t;
    assert t == [] || t[0] == '\r';
    ParseNumeral(n, t, 10);
  }

  /**
   The field read back: when the first occurrence of the key is the start of
   a header line "<key> <decimal>\r\n" whose numeral fits intbuf, its
   number is returned.
   */
  lemma GetHdrIntReadsField(pre: seq<char>, key: seq<char>, n: nat, post: seq<char>)
    requires Find(pre + key + " " + Decimal(n) + CRLF + post, key) == Some(|pre|)
    requires |Decimal(n)| <= FieldWidth
    ensures GetHdrInt(pre + key + " " + Decimal(n) + CRLF + post, key) == n
  {
    var tail := Decimal(n) + CRLF + post;
    var buf := pre + key + " " + Decimal(n) + CRLF + post;
    assert buf[|pre| + |key| + 1..] == tail by {
      assert buf == pre + key + ([' '] + tail);
    }
    ReadsFieldAt(buf, key, |pre|, n, post);
  }

  /** The key first found at `i`, then one byte, then a numeral that fits intbuf and a CRLF: its number. */
  lemma ReadsFieldAt(buf: seq<char>, key: seq<char>, i: nat, n: nat, post: seq<char>)
    requires Find(buf, key) == Some(i) && i + |key| + 1 <= |buf|
    requires buf[i + |key| + 1..] == Decimal(n) + CRLF + post && |Decimal(n)| <= FieldWidth
    ensures GetHdrInt(buf, key) == n
  {
    assert buf[i..][|key| + 1..] == buf[i + |key| + 1..];
    LineHasCrlf(buf[i..], |key| + 1, n, post);
    FieldAt(buf, key, i);
    WindowValue(n, post);
  }

  /** A line whose value is a numeral and a CRLF contains a CRLF. */
  lemma LineHasCrlf(head: seq<char>, off: nat, n: nat, post: seq<char>)
    requires off <= |head| && head[off..] == Decimal(n) + CRLF + post
    ensures Contains(head, CRLF)
  {
    var tail := head[off..];
    assert OccursAt(tail, CRLF, |Decimal(n)|) by {
      assert tail[|Decimal(n)|..|Decimal(n)| + 2] == CRLF;
    }
    ContainsInSuffix(head, off, CRLF);
  }

  /** Once the key is found at `i` and a CRLF follows it, the value is read from one byte past the key. */
  lemma FieldAt(buf: seq<char>, key: seq<char>, i: nat)
    requires Find(buf, key) == Some(i) && i + |key| + 1 <= |buf| && Contains(buf[i..], CRLF)
    ensures GetHdrInt(buf, key) == Atoi(ValueWindow(buf[i + |key| + 1..], 0))
  {
    WindowShift(buf[i..], |key| + 1);
    assert buf[i..][|key| + 1..] == buf[i + |key| + 1..];
  }

  /** The window is the same whether taken from the whole buffer or from where it starts. */
  lemma WindowShift(buf: seq<char>, from: nat)
    requires from <= |buf|
    ensures ValueWindow(buf, from) == ValueWindow(buf[from..], 0)
  {
  }

  datatype Exit = Success | Failure

  /** What one run of the crawler does: its exit status, the request it sent, what it wrote to standard error and to standard output. */
  datatype Run = Run(exit: Exit, request: seq<char>, diagnostics: seq<char>, output: seq<char>)

  /**
   main after the connection is up: send the request, receive the header
   block, echo all of it but its last two bytes, then pick the body framing:
   a positive Content-Length first, else a chunked Transfer-Encoding, else
   fail.
   */
  function Crawl(host: seq<char>, c: Conn): (r: Run)
    ensures r.request == Request(host)
    ensures ReceiveHeaders(c, BufSize, CRLFCRLF).ret < 0 ==> r == Run(Failure, Request(host), [], [])
    ensures ReceiveHeaders(c, BufSize, CRLFCRLF).ret >= 0 ==>
              && 4 <= ReceiveHeaders(c, BufSize, CRLFCRLF).ret
              && |r.diagnostics| + 2 == ReceiveHeaders(c, BufSize, CRLFCRLF).ret
              && r.diagnostics == ReceiveHeaders(c, BufSize, CRLFCRLF).buf[..|r.diagnostics|]
    ensures r.exit == Success <==>
              && ReceiveHeaders(c, BufSize, CRLFCRLF).ret >= 0
              && (|| GetHdrInt(ReceiveHeaders(c, BufSize, CRLFCRLF).buf, LengthKey) > 0
                  || Contains(ReceiveHeaders(c, BufSize, CRLFCRLF).buf, ChunkedMark))
    ensures r.exit == Success && GetHdrInt(ReceiveHeaders(c, BufSize, CRLFCRLF).buf, LengthKey) > 0 ==>
              r.output == ReceiveContent(ReceiveHeaders(c, BufSize, CRLFCRLF).rest,
                                         GetHdrInt(ReceiveHeaders(c, BufSize, CRLFCRLF).buf, LengthKey), BufSize).out
    ensures r.exit == Success && GetHdrInt(ReceiveHeaders(c, BufSize, CRLFCRLF).buf, LengthKey) <= 0 ==>
              r.output == ReceiveChunked(ReceiveHeaders(c, BufSize, CRLFCRLF).rest, BufSize).out
    ensures r.exit == Failure ==> r.output == []
  {
    var request := Request(host);
    var h := ReceiveHeaders(c, BufSize, CRLFCRLF);
    if h.ret < 0 then Run(Failure, request, [], [])
    else
      assert 4 <= h.ret by {
        if h.ret < BufSize {
          assert EndsWith(c.data[..h.ret], CRLFCRLF);
        }
      }
      var echo := h.buf[..h.ret - 2];
      var contentLength := GetHdrInt(h.buf, LengthKey);
      if contentLength > 0 then
        var d := ReceiveContent(h.rest, contentLength, BufSize);
        Run(Success, request, echo, d.out)
      else if Contains(h.buf, ChunkedMark) then
        var d := ReceiveChunked(h.rest, BufSize);
        Run(Success, request, echo, d.out)
      else
        Run(Failure, request, echo, [])
  }

  /**
   main with the chunked branch decoding the body as the loop in
   receive_chunked intends (Body.DecodeChunked); everything else is as in
   Crawl.
   */
  function CrawlDecoding(host: seq<char>, c: Conn): (r: Run)
    ensures r.exit == Crawl(host, c).exit && r.request == Request(host)
    ensures r.diagnostics == Crawl(host, c).diagnostics
    ensures GetHdrInt(ReceiveHeaders(c, BufSize, CRLFCRLF).buf, LengthKey) > 0 ==> r.output == Crawl(host, c).output
    ensures r.exit == Success && GetHdrInt(ReceiveHeaders(c, BufSize, CRLFCRLF).buf, LengthKey) <= 0 ==>
              r.output == DecodeChunked(ReceiveHeaders(c, BufSize, CRLFCRLF).rest, BufSize).out
    ensures r.exit == Failure ==> r.output == []
  {
    var h := ReceiveHeaders(c, BufSize, CRLFCRLF);
    var run := Crawl(host, c);
    if run.exit == Success && GetHdrInt(h.buf, LengthKey) <= 0 then
      Run(Success, run.request, run.diagnostics, DecodeChunked(h.rest, BufSize).out)
    else run
  }

  /**
   When the head ends with its blank line inside the buffer, the echo is the
   head through the CRLF of its last header line.
   */
  lemma EchoDropsBlankLine(host: seq<char>, c: Conn)
    requires 0 <= ReceiveHeaders(c, BufSize, CRLFCRLF).ret < BufSize
    ensures Crawl(host, c).diagnostics + CRLF == ReceiveHeaders(c, BufSize, CRLFCRLF).buf
  {
    var h := ReceiveHeaders(c, BufSize, CRLFCRLF);
    assert EndsWith(h.buf, CRLFCRLF);
    assert c.data[h.ret - 2..h.ret] == h.buf[h.ret - 2..] == CRLF;
  }
}

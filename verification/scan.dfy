/**
 receive_headers, the byte-at-a-time terminator scan that server.c and
 crawler.c carry in identical copies. It reads into a buffer of `bufSize`
 bytes and stops right after the first point where the buffer ends with the
 terminator: "\r\n\r\n" for a header block (section 2.1 of RFC 9112), "\r\n"
 for the size line of a chunk.
 */
module HeaderScan {
  import opened CText
  import opened Socket

  /** The return value of receive_headers, the buffer's contents, and the connection afterwards. */
  datatype Scan = Scan(ret: int, buf: seq<char>, rest: Conn)

  /**
   The scan of stream `s` stops after `k` bytes: the buffer is full, or the
   first `k` bytes end with the terminator, and no shorter non-empty prefix
   does (the test runs only after a byte has been appended).
   */
  ghost predicate StopsAt(s: seq<char>, term: seq<char>, cap: nat, k: nat) {
    && k <= cap && k <= |s|
    && (k == cap || (0 < k && EndsWith(s[..k], term)))
    && forall j | 0 < j < k :: !EndsWith(s[..j], term)
  }

  /** There is exactly one place where a scan stops. */
  lemma StopsAtUnique(s: seq<char>, term: seq<char>, cap: nat, k1: nat, k2: nat)
    requires StopsAt(s, term, cap, k1) && StopsAt(s, term, cap, k2)
    ensures k1 == k2
  {
  }

  /** Stopping with `buf` in hand: at capacity, or right after the first terminator. */
  lemma StopAfter(buf: seq<char>, data: seq<char>, term: seq<char>, cap: nat)
    requires |buf| <= cap
    requires |buf| == cap || (0 < |buf| && EndsWith(buf, term))
    requires forall j | 0 < j < |buf| :: !EndsWith(buf[..j], term)
    ensures StopsAt(buf + data, term, cap, |buf|)
    ensures (buf + data)[..|buf|] == buf
  {
    assert (buf + data)[..|buf|] == buf;
    assert forall j | 0 < j < |buf| :: (buf + data)[..j] == buf[..j];
  }

  /** One byte more that is not the end of the terminator keeps every prefix terminator-free. */
  lemma Extend(buf: seq<char>, b: seq<char>, term: seq<char>)
    requires forall j | 0 < j <= |buf| :: !EndsWith(buf[..j], term)
    requires |b| == 1 && !EndsWith(buf + b, term)
    ensures forall j | 0 < j <= |buf + b| :: !EndsWith((buf + b)[..j], term)
  {
    forall j | 0 < j <= |buf + b|
      ensures !EndsWith((buf + b)[..j], term)
    {
      if j <= |buf| {
        assert (buf + b)[..j] == buf[..j];
      } else {
        assert (buf + b)[..j] == buf + b;
      }
    }
  }

  /** receive_headers(sock, buf, bufSize, term), starting with an empty buffer. */
  function ReceiveHeaders(c: Conn, bufSize: nat, term: seq<char>): (r: Scan)
    ensures -1 <= r.ret <= bufSize && |r.buf| <= bufSize
    ensures r.ret >= 0 ==> StopsAt(c.data, term, bufSize, r.ret) && NoErrorWithin(c.grants, r.ret)
    ensures r.ret >= 0 ==> r.buf == c.data[..r.ret]
    ensures r.ret >= 0 ==> r.rest == Conn(c.data[r.ret..], Drop(c.grants, r.ret))
    ensures Size(r.rest) <= Size(c)
  {
    assert [] + c.data == c.data;
    ScanFrom(c, [], bufSize, term, c.data)
  }

  /**
   The loop of receive_headers once `buf` has been received from stream `s`:
   read one byte, give up with -1 when recv returns 0 or less, stop when the
   buffer ends with the terminator or is full.
   */
  function ScanFrom(c: Conn, buf: seq<char>, cap: nat, term: seq<char>, ghost s: seq<char>): (r: Scan)
    requires |buf| <= cap && buf + c.data == s
    requires forall j | 0 < j <= |buf| :: !EndsWith(buf[..j], term)
    ensures -1 <= r.ret <= cap && |r.buf| <= cap
    ensures r.ret >= 0 ==> |buf| <= r.ret && StopsAt(s, term, cap, r.ret)
    ensures r.ret >= 0 ==> NoErrorWithin(c.grants, r.ret - |buf|)
    ensures r.ret >= 0 ==> r.buf == s[..r.ret]
    ensures r.ret >= 0 ==> r.rest == Conn(s[r.ret..], Drop(c.grants, r.ret - |buf|))
    ensures Size(r.rest) <= Size(c)
    decreases cap - |buf|
  {
    if |buf| >= cap then
      StopAfter(buf, c.data, term, cap);
      assert s[|buf|..] == c.data;
      Scan(|buf|, buf, c)
    else
      var rv := Recv(c, 1);
      if rv.n <= 0 then Scan(-1, buf, rv.rest)
      else
        var buf' := buf + rv.bytes;
        assert buf' + rv.rest.data == s by {
          assert c.data == rv.bytes + rv.rest.data;
        }
        if EndsWith(buf', term) then
          StopHere(buf, rv.bytes, rv.rest.data, term, cap, s);
          Scan(|buf'|, buf', rv.rest)
        else
          Extend(buf, rv.bytes, term);
          var r := ScanFrom(rv.rest, buf', cap, term, s);
          if r.ret >= 0 then
            DropOneMore(c.grants, r.ret - |buf|);
            r
          else r
  }

  /** The byte just received completes the terminator: the scan of `s` stops here. */
  lemma StopHere(buf: seq<char>, b: seq<char>, rest: seq<char>, term: seq<char>, cap: nat, s: seq<char>)
    requires |buf| < cap && |b| == 1 && buf + b + rest == s
    requires forall j | 0 < j <= |buf| :: !EndsWith(buf[..j], term)
    requires EndsWith(buf + b, term)
    ensures StopsAt(s, term, cap, |buf| + 1)
    ensures s[..|buf| + 1] == buf + b && s[|buf| + 1..] == rest
  {
    var buf' := buf + b;
    assert forall j | 0 < j < |buf'| :: buf'[..j] == buf[..j];
    StopAfter(buf', rest, term, cap);
    assert s[|buf'|..] == rest;
  }

  /**
   Completeness of the scan: when the stream holds a stopping point and no
   recv up to it fails, receive_headers returns exactly that count, consuming
   nothing beyond it.
   */
  lemma ScanSucceeds(c: Conn, cap: nat, term: seq<char>, k: nat)
    requires StopsAt(c.data, term, cap, k) && NoErrorWithin(c.grants, k)
    ensures ReceiveHeaders(c, cap, term).ret == k
    ensures ReceiveHeaders(c, cap, term).buf == c.data[..k]
  {
    assert [] + c.data == c.data;
    ScanFromSucceeds(c, [], cap, term, k, c.data);
  }

  lemma {:induction false} ScanFromSucceeds(c: Conn, buf: seq<char>, cap: nat, term: seq<char>, k: nat, s: seq<char>)
    requires |buf| <= cap && |buf| <= k && buf + c.data == s
    requires forall j | 0 < j <= |buf| :: !EndsWith(buf[..j], term)
    requires StopsAt(s, term, cap, k) && NoErrorWithin(c.grants, k - |buf|)
    ensures ScanFrom(c, buf, cap, term, s).ret == k
    decreases cap - |buf|
  {
    var r := ScanFrom(c, buf, cap, term, s);
    if |buf| >= cap {
      StopsAtUnique(s, term, cap, r.ret, k);
    } else {
      var rv := Recv(c, 1);
      var buf' := buf + rv.bytes;
      ByteArrives(c, buf, cap, term, k, s);
      if EndsWith(buf', term) {
        StopsAtUnique(s, term, cap, r.ret, k);
      } else {
        Extend(buf, rv.bytes, term);
        ScanFromSucceeds(rv.rest, buf', cap, term, k, s);
      }
    }
  }

  /** Before the stopping point, the next one-byte recv delivers the next byte of the stream. */
  lemma ByteArrives(c: Conn, buf: seq<char>, cap: nat, term: seq<char>, k: nat, s: seq<char>)
    requires |buf| < cap && |buf| <= k && buf + c.data == s
    requires forall j | 0 < j <= |buf| :: !EndsWith(buf[..j], term)
    requires StopsAt(s, term, cap, k) && NoErrorWithin(c.grants, k - |buf|)
    ensures k > |buf| && Recv(c, 1).n == 1
    ensures buf + Recv(c, 1).bytes + Recv(c, 1).rest.data == s
    ensures NoErrorWithin(Recv(c, 1).rest.grants, k - |buf| - 1)
  {
    assert s[..|buf|] == buf[..|buf|];
    assert k > |buf|;
    assert c.grants != [] ==> c.grants[0] > 0;
    var rv := Recv(c, 1);
    assert c.data == rv.bytes + rv.rest.data;
    assert forall i | 0 <= i < k - |buf| - 1 && i < |rv.rest.grants| :: rv.rest.grants[i] == c.grants[i + 1];
  }

  /**
   receive_headers fails (-1) exactly when the stream does not deliver its
   stopping point: the peer closes, or a recv fails, before the terminator
   has arrived and before the buffer is full. Bytes already buffered do not
   rescue it.
   */
  lemma ScanFailsIff(c: Conn, cap: nat, term: seq<char>)
    ensures ReceiveHeaders(c, cap, term).ret == -1 <==>
            forall k: nat :: !(StopsAt(c.data, term, cap, k) && NoErrorWithin(c.grants, k))
  {
    var r := ReceiveHeaders(c, cap, term);
    if r.ret != -1 {
      assert StopsAt(c.data, term, cap, r.ret as nat) && NoErrorWithin(c.grants, r.ret as nat);
    } else {
      forall k: nat | StopsAt(c.data, term, cap, k) && NoErrorWithin(c.grants, k)
        ensures false
      {
        ScanSucceeds(c, cap, term, k);
      }
    }
  }

  /**
   A peer that closes before sending the terminator, within the buffer's
   capacity, makes the scan fail even though bytes were received.
   */
  lemma ScanFailsOnEarlyClose(c: Conn, cap: nat, term: seq<char>)
    requires |c.data| < cap
    requires forall j | 0 < j <= |c.data| :: !EndsWith(c.data[..j], term)
    ensures ReceiveHeaders(c, cap, term).ret == -1
  {
  }

  /**
   A full buffer without a terminator is not an error: when the peer sends at
   least `cap` bytes and none of the shorter prefixes ends with the
   terminator, the scan returns `cap`.
   */
  lemma ScanFillsBuffer(c: Conn, cap: nat, term: seq<char>)
    requires |c.data| >= cap && NoErrorWithin(c.grants, cap)
    requires forall j | 0 < j < cap :: !EndsWith(c.data[..j], term)
    ensures ReceiveHeaders(c, cap, term).ret == cap
  {
    ScanSucceeds(c, cap, term, cap);
  }
}

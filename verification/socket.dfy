/**
 The peer side of a connected TCP socket, as the recv(2) calls of both
 programs see it. `data` is every byte the peer sends before it closes the
 connection. `grants` is the network's segmentation: the i-th recv call
 receives at most `grants[i]` bytes, and a grant of 0 stands for a recv that
 fails with an error. Once the grants run out, every recv gets all it asks
 for, as far as the peer's data goes.
 */
module Socket {

  datatype Conn = Conn(data: seq<char>, grants: seq<nat>)

  /** What one recv call returns: its return value, the bytes, and the connection afterwards. */
  datatype Received = Received(n: int, bytes: seq<char>, rest: Conn)

  function Size(c: Conn): nat {
    |c.data| + |c.grants|
  }

  function Min(a: nat, b: nat): nat {
    if a <= b then a else b
  }

  /** `g` without its first `k` grants (all of them if there are fewer). */
  function Drop(g: seq<nat>, k: nat): seq<nat> {
    if k <= |g| then g[k..] else []
  }

  /** No recv among the first `k` calls meets an error grant. */
  ghost predicate NoErrorWithin(g: seq<nat>, k: nat) {
    forall i | 0 <= i < k && i < |g| :: g[i] > 0
  }

  /** A recv that succeeded moves the grant window on by one. */
  lemma DropOneMore(g: seq<nat>, k: nat)
    requires k >= 1
    requires |g| > 0 ==> g[0] > 0
    requires NoErrorWithin(Drop(g, 1), k - 1)
    ensures NoErrorWithin(g, k)
    ensures Drop(Drop(g, 1), k - 1) == Drop(g, k)
  {
    if |g| > 0 {
      assert forall i | 1 <= i < k && i < |g| :: g[i] == Drop(g, 1)[i - 1];
    }
  }

  /** Bytes taken from the front of a stream, then more taken from what is left, are one prefix. */
  lemma PrefixJoin(s: seq<char>, k: nat, t: seq<char>)
    requires k + |t| <= |s| && t == s[k..][..|t|]
    ensures s[..k] + t == s[..k + |t|]
    ensures s[k..][|t|..] == s[k + |t|..]
  {
    assert s[..k + |t|] == s[..k] + s[k..][..|t|];
  }

  /** No recv on this connection ever meets an error grant. */
  ghost predicate Reliable(c: Conn) {
    forall i | 0 <= i < |c.grants| :: c.grants[i] > 0
  }

  /**
   One recv(sock, buf, cap, 0): -1 on an error, 0 once the peer has closed,
   otherwise the number of bytes taken from the front of the stream.
   */
  function Recv(c: Conn, cap: nat): (r: Received)
    requires cap > 0
    ensures -1 <= r.n <= cap
    ensures r.n == -1 <==> |c.grants| > 0 && c.grants[0] == 0
    ensures r.n == 0 <==> |c.data| == 0 && !(|c.grants| > 0 && c.grants[0] == 0)
    ensures r.n > 0 ==> r.n <= |c.data| && |r.bytes| == r.n && r.bytes == c.data[..r.n] && r.rest.data == c.data[r.n..]
    ensures r.n > 0 ==> r.rest.grants == Drop(c.grants, 1)
    ensures r.n > 0 && |c.grants| == 0 ==> r.n == Min(cap, |c.data|)
    ensures r.n > 0 && |c.grants| > 0 ==> r.n == Min(Min(cap, c.grants[0]), |c.data|)
    ensures r.n <= 0 ==> r.bytes == [] && r.rest.data == c.data
    ensures r.n != 0 ==> Size(r.rest) < Size(c)
    ensures Size(r.rest) <= Size(c)
  {
    if |c.grants| > 0 && c.grants[0] == 0 then
      Received(-1, [], Conn(c.data, c.grants[1..]))
    else if |c.data| == 0 then
      Received(0, [], c)
    else
      var limit := if |c.grants| > 0 then Min(cap, c.grants[0]) else cap;
      var n := Min(limit, |c.data|);
      Received(n, c.data[..n], Conn(c.data[n..], Drop(c.grants, 1)))
  }
}

/**
 The request side of server.c: read one header block, split its request
 line into method and target, pick the status in a fixed order (400, 405,
 404, 500), and frame the reply. The file system is an oracle: whether a
 path exists, whether open succeeds and with which descriptor, and what
 fstat reports as the size.
 */
module Server {
  import opened Wrappers
  import opened CText
  import opened Socket
  import opened HeaderScan

  /** char buf[8*1024] in http_handler. */
  const BufSize: nat := 8192

  /** The page served for the target "/". */
  const IndexPage: seq<char> := "index.html"

  datatype Status = Ok | BadRequest | NotFound | MethodNotAllowed | InternalServerError

  function Code(s: Status): nat {
    match s
    case Ok => 200
    case BadRequest => 400
    case NotFound => 404
    case MethodNotAllowed => 405
    case InternalServerError => 500
  }

  function Reason(s: Status): seq<char> {
    match s
    case Ok => "OK"
    case BadRequest => "Bad Request"
    case NotFound => "Not Found"
    case MethodNotAllowed => "Method Not Allowed"
    case InternalServerError => "Internal Server Error"
  }

  /** The generated page of an error reply; its length is 35 plus the reason's. */
  function ErrorPage(reason: seq<char>): (page: seq<char>)
    ensures |page| == 35 + |reason|
  {
    "<html><body><h1>" + reason + "</h1></body></html>"
  }

  /** The fixed start of every status line, and the text of the two header lines. */
  const HttpVersion: seq<char> := "HTTP/1.1 "
  const LengthField: seq<char> := "Content-Length:"
  const CloseField: seq<char> := "Connection: Closed"

  /** The status line of a reply, with its CRLF. */
  function StatusLine(code: nat, reason: seq<char>): seq<char> {
    HttpVersion + Decimal(code) + " " + reason + CRLF
  }

  /** The reply's three header lines, without the CRLF that ends the last one. */
  function HeadLines(code: nat, reason: seq<char>, length: nat): seq<char> {
    StatusLine(code, reason) + LengthField + " " + Decimal(length) + CRLF + CloseField
  }

  /** The header block every reply starts with, status line to blank line. */
  function StatusHead(code: nat, reason: seq<char>, length: nat): seq<char> {
    HeadLines(code, reason, length) + CRLFCRLF
  }

  /** The two writes of an error reply: the header block, then the page. */
  function ErrorReply(s: Status): seq<char> {
    var page := ErrorPage(Reason(s));
    StatusHead(Code(s), Reason(s), |page|) + page
  }

  /** The header block of a 200 reply for a file of `size` bytes. */
  function OkHead(size: nat): seq<char> {
    StatusHead(Code(Ok), Reason(Ok), size)
  }

  /** The file system as seen through access, open and fstat. */
  datatype Files = Files(present: seq<char> -> bool, opens: seq<char> -> Option<nat>, size: nat -> Option<nat>)

  /** validate_request's return value and the bytes it wrote to the client. */
  datatype Validation = Validation(ret: int, sent: seq<char>)

  /** The method and target of a request line. */
  datatype Target = Target(verb: seq<char>, uri: seq<char>)

  /**
   The request holds two words: a non-space byte, a later space, and a
   non-space byte after that.
   */
  predicate HasTwoWords(req: seq<char>) {
    exists i, k, j | 0 <= i < k < j < |req| :: WordBreak(req, i, k, j)
  }

  predicate WordBreak(req: seq<char>, i: nat, k: nat, j: nat)
    requires i < k < j < |req|
  {
    req[i] != ' ' && req[k] == ' ' && req[j] != ' '
  }

  /**
   `verb` starts at `a` after nothing but spaces, `uri` starts at `b` after
   nothing but spaces following the verb, and a space or the end of the
   request follows the target.
   */
  predicate WordsAt(req: seq<char>, a: nat, b: nat, verb: seq<char>, uri: seq<char>) {
    && a + |verb| < b && b + |uri| <= |req|
    && (forall i | 0 <= i < a :: req[i] == ' ')
    && req[a..a + |verb|] == verb
    && (forall i | a + |verb| <= i < b :: req[i] == ' ')
    && req[b..b + |uri|] == uri
    && (b + |uri| == |req| || req[b + |uri|] == ' ')
  }

  /**
   The two strtok(…, " ") calls: method, then target. None exactly when the
   request does not hold two words; otherwise the first two maximal runs of
   non-space bytes.
   */
  function RequestLine(req: seq<char>): (r: Option<Target>)
    ensures r.None? <==> !HasTwoWords(req)
    ensures r.Some? ==> |r.value.verb| > 0 && Free(r.value.verb, ' ')
    ensures r.Some? ==> |r.value.uri| > 0 && Free(r.value.uri, ' ')
    ensures r.Some? ==> exists a, b :: WordsAt(req, a, b, r.value.verb, r.value.uri)
  {
    match Strtok(req, ' ')
    case None =>
      assert !HasTwoWords(req);
      None
    case Some(m) =>
      match Strtok(m.rest, ' ')
      case None =>
        OneWord(req, m);
        None
      case Some(u) =>
        TwoWords(req, m, u);
        Some(Target(m.token, u.token))
  }

  /** A first token followed by nothing but spaces: the request holds one word. */
  lemma OneWord(req: seq<char>, m: Token)
    requires Strtok(req, ' ') == Some(m) && Strtok(m.rest, ' ').None?
    ensures !HasTwoWords(req)
  {
    var k :| TokenAt(req, ' ', k, m);
    OneWordAt(req, k, m);
  }

  lemma OneWordAt(req: seq<char>, k: nat, m: Token)
    requires TokenAt(req, ' ', k, m) && Free(m.token, ' ')
    requires forall i | 0 <= i < |m.rest| :: m.rest[i] == ' '
    ensures !HasTwoWords(req)
  {
    var e := k + |m.token|;
    forall i, p, j | 0 <= i < p < j < |req|
      ensures !WordBreak(req, i, p, j)
    {
      if req[i] != ' ' && req[p] == ' ' {
        assert req[j] == m.rest[j - e - 1];
      }
    }
  }

  /** Two tokens in a row are two words, at the places strtok found them. */
  lemma TwoWords(req: seq<char>, m: Token, u: Token)
    requires Strtok(req, ' ') == Some(m) && Strtok(m.rest, ' ') == Some(u)
    ensures HasTwoWords(req)
    ensures exists a, b :: WordsAt(req, a, b, m.token, u.token)
  {
    var k :| TokenAt(req, ' ', k, m);
    var k' :| TokenAt(m.rest, ' ', k', u);
    TwoWordsAt(req, k, m, k', u);
  }

  lemma TwoWordsAt(req: seq<char>, k: nat, m: Token, k': nat, u: Token)
    requires TokenAt(req, ' ', k, m) && |m.token| > 0 && Free(m.token, ' ') && |m.rest| > 0
    requires TokenAt(m.rest, ' ', k', u) && |u.token| > 0 && Free(u.token, ' ')
    ensures HasTwoWords(req)
    ensures WordsAt(req, k, k + |m.token| + 1 + k', m.token, u.token)
  {
    var e := k + |m.token|;
    assert req[e] == ' ' && m.rest == req[e + 1..];
    SecondWord(req, e, k', u);
    assert req[k] == m.token[0];
    assert WordBreak(req, k, e, e + 1 + k');
  }

  /** The token strtok finds in what follows the space at `e` sits `k'` spaces after it. */
  lemma SecondWord(req: seq<char>, e: nat, k': nat, u: Token)
    requires e < |req| && req[e] == ' '
    requires TokenAt(req[e + 1..], ' ', k', u) && |u.token| > 0 && Free(u.token, ' ')
    ensures var b := e + 1 + k';
            && b + |u.token| <= |req| && req[b..b + |u.token|] == u.token && req[b] != ' '
            && (forall i | e <= i < b :: req[i] == ' ')
            && (b + |u.token| == |req| || req[b + |u.token|] == ' ')
  {
    var t := req[e + 1..];
    var b := e + 1 + k';
    assert req[b..b + |u.token|] == t[k'..k' + |u.token|];
    assert req[b] == u.token[0];
    assert forall i | e < i < b :: req[i] == t[i - e - 1];
    assert b + |u.token| < |req| ==> req[b + |u.token|] == t[k' + |u.token|];
  }

  /**
   The path a target names: one leading '/' is dropped, and what is left of
   "/" becomes the index page; a target without the slash stays as it is.
   */
  function Normalize(uri: seq<char>): (path: seq<char>)
    ensures (|uri| == 0 || uri[0] != '/') ==> path == uri
    ensures uri == "/" ==> path == IndexPage
    ensures |uri| > 1 && uri[0] == '/' ==> "/" + path == uri
  {
    if |uri| > 0 && uri[0] == '/' then
      if |uri| == 1 then IndexPage else uri[1..]
    else uri
  }

  /**
   validate_request: 400 when the method or target is missing, then 405 for
   any method but GET, then 404 when the path does not exist, then 500 when
   open fails; otherwise the descriptor, and nothing written. Every error
   path returns -1.
   */
  function ValidateRequest(req: seq<char>, fs: Files): (r: Validation)
    ensures r.ret >= 0 <==> r.sent == []
    ensures r.ret < 0 ==> r.ret == -1
    ensures RequestLine(req).None? ==> r == Validation(-1, ErrorReply(BadRequest))
    ensures RequestLine(req).Some? && RequestLine(req).value.verb != "GET" ==>
              r == Validation(-1, ErrorReply(MethodNotAllowed))
    ensures r.ret >= 0 ==> && RequestLine(req).Some?
                           && RequestLine(req).value.verb == "GET"
                           && fs.present(Normalize(RequestLine(req).value.uri))
                           && fs.opens(Normalize(RequestLine(req).value.uri)) == Some(r.ret as nat)
    ensures RequestLine(req).Some? && RequestLine(req).value.verb == "GET" ==>
              var path := Normalize(RequestLine(req).value.uri);
              && (!fs.present(path) ==> r == Validation(-1, ErrorReply(NotFound)))
              && (fs.present(path) && fs.opens(path).None? ==> r == Validation(-1, ErrorReply(InternalServerError)))
              && (fs.present(path) && fs.opens(path).Some? ==> r == Validation(fs.opens(path).value, []))
  {
    match RequestLine(req)
    case None => Validation(-1, ErrorReply(BadRequest))
    case Some(t) =>
      if t.verb != "GET" then Validation(-1, ErrorReply(MethodNotAllowed))
      else
        var path := Normalize(t.uri);
        if !fs.present(path) then Validation(-1, ErrorReply(NotFound))
        else
          match fs.opens(path)
          case None => Validation(-1, ErrorReply(InternalServerError))
          case Some(fd) => Validation(fd, [])
  }

  /** http_handler's return value and the bytes it wrote before copying the file. */
  datatype Handled = Handled(ret: int, sent: seq<char>)

  /**
   http_handler up to the file copy: receive the request head, validate it,
   fstat the descriptor (500 when that fails) and write the 200 header with
   the file's size as Content-Length.
   */
  function HttpHandler(c: Conn, fs: Files): (r: Handled)
    ensures r.ret == 0 || r.ret == -1
    ensures ReceiveHeaders(c, BufSize, CRLFCRLF).ret <= 0 ==> r == Handled(-1, [])
    ensures r.ret == 0 ==>
              var v := ValidateRequest(ReceiveHeaders(c, BufSize, CRLFCRLF).buf, fs);
              v.ret >= 0 && fs.size(v.ret as nat).Some? && r.sent == OkHead(fs.size(v.ret as nat).value)
    ensures ReceiveHeaders(c, BufSize, CRLFCRLF).ret > 0 ==>
              var v := ValidateRequest(ReceiveHeaders(c, BufSize, CRLFCRLF).buf, fs);
              && (v.ret < 0 ==> r == Handled(-1, v.sent))
              && (v.ret >= 0 && fs.size(v.ret as nat).None? ==> r == Handled(-1, ErrorReply(InternalServerError)))
              && (v.ret >= 0 && fs.size(v.ret as nat).Some? ==> r == Handled(0, OkHead(fs.size(v.ret as nat).value)))
  {
    var h := ReceiveHeaders(c, BufSize, CRLFCRLF);
    if h.ret <= 0 then Handled(-1, [])
    else
      var v := ValidateRequest(h.buf, fs);
      if v.ret < 0 then Handled(-1, v.sent)
      else
        match fs.size(v.ret as nat)
        case None => Handled(-1, ErrorReply(InternalServerError))
        case Some(size) => Handled(0, OkHead(size))
  }

  /** A request line "<method> <target> <rest>" splits into method and target. */
  lemma RequestLineOf(m: seq<char>, u: seq<char>, tail: seq<char>)
    requires |m| > 0 && Free(m, ' ') && |u| > 0 && Free(u, ' ')
    ensures RequestLine(m + " " + u + " " + tail) == Some(Target(m, u))
  {
    assert m + " " + u + " " + tail == m + [' '] + (u + [' '] + tail);
    StrtokBefore(m, ' ', u + [' '] + tail);
    StrtokBefore(u, ' ', tail);
  }

  /** A GET request line splits into "GET" and its target. */
  lemma GetLine(u: seq<char>, tail: seq<char>)
    requires |u| > 0 && Free(u, ' ')
    ensures RequestLine("GET " + u + " " + tail) == Some(Target("GET", u))
  {
    assert "GET " + u + " " + tail == "GET" + " " + u + " " + tail;
    RequestLineOf("GET", u, tail);
  }

  /** A request without a space anywhere has no target: 400 Bad Request. */
  lemma NoSpaceIsBadRequest(req: seq<char>, fs: Files)
    requires Free(req, ' ')
    ensures ValidateRequest(req, fs) == Validation(-1, ErrorReply(BadRequest))
  {
    if |req| > 0 {
      StrtokLast(req, ' ');
    }
  }

  /**
   The status order: a well-formed request line whose method is not exactly
   "GET" is refused with 405 whatever the target and the files are.
   */
  lemma MethodCheckedBeforePath(m: seq<char>, u: seq<char>, tail: seq<char>, fs: Files)
    requires |m| > 0 && Free(m, ' ') && |u| > 0 && Free(u, ' ') && m != "GET"
    ensures ValidateRequest(m + " " + u + " " + tail, fs) == Validation(-1, ErrorReply(MethodNotAllowed))
  {
    RequestLineOf(m, u, tail);
  }

  /** A GET for a path that does not exist gets 404, whether or not open would work. */
  lemma MissingPathIsNotFound(u: seq<char>, tail: seq<char>, fs: Files)
    requires |u| > 0 && Free(u, ' ') && !fs.present(Normalize(u))
    ensures ValidateRequest("GET " + u + " " + tail, fs) == Validation(-1, ErrorReply(NotFound))
  {
    GetLine(u, tail);
  }

  /** A GET for an existing path that cannot be opened gets 500. */
  lemma UnopenablePathIsServerError(u: seq<char>, tail: seq<char>, fs: Files)
    requires |u| > 0 && Free(u, ' ') && fs.present(Normalize(u)) && fs.opens(Normalize(u)).None?
    ensures ValidateRequest("GET " + u + " " + tail, fs) == Validation(-1, ErrorReply(InternalServerError))
  {
    GetLine(u, tail);
  }

  /** The 405 reply: its page is 53 bytes, and the header block says 53. */
  lemma MethodNotAllowedReply()
    ensures ErrorReply(MethodNotAllowed)
         == StatusHead(405, "Method Not Allowed", 53) + ErrorPage("Method Not Allowed")
    ensures Decimal(405) == "405" && Decimal(53) == "53"
  {
    NumeralsOf405();
  }

  lemma NumeralsOf405()
    ensures Decimal(405) == "405" && Decimal(53) == "53"
  {
    assert Decimal(405) == Numeral(40, 10) + [DigitChar(5)];
    assert Numeral(40, 10) == Numeral(4, 10) + [DigitChar(0)];
    assert Decimal(53) == Numeral(5, 10) + [DigitChar(3)];
  }
}

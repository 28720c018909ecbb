/**
 The two programs against each other: what the server makes of the
 crawler's request, and what the crawler makes of the server's replies,
 on a connection that delivers every byte in one piece.
 */
module Exchange {
  import opened Wrappers
  import opened CText
  import opened Socket
  import opened HeaderScan
  import opened Body
  import Server
  import Crawler

  /**
   Text with no blank line in it or at its end: no line feed is followed by
   a carriage return, and the last byte is no line feed.
   */
  predicate NoBlankLine(a: seq<char>) {
    && (forall i | 0 <= i < |a| - 1 :: a[i] == '\n' ==> a[i + 1] != '\r')
    && (|a| == 0 || a[|a| - 1] != '\n')
  }

  /** A line without line feeds holds no blank line. */
  lemma OneLine(line: seq<char>)
    requires Free(line, '\n')
    ensures NoBlankLine(line)
  {
  }

  /** Another line after a CRLF keeps the text free of blank lines, as long as it does not start with CR. */
  lemma NextLine(a: seq<char>, line: seq<char>)
    requires NoBlankLine(a) && Free(line, '\n') && |line| > 0 && line[0] != '\r'
    ensures NoBlankLine(a + CRLF + line)
  {
    var s := a + CRLF + line;
    forall i | 0 <= i < |s| - 1
      ensures s[i] == '\n' ==> s[i + 1] != '\r'
    {
      if i < |a| - 1 {
        assert s[i] == a[i] && s[i + 1] == a[i + 1];
      } else if i == |a| - 1 {
        assert s[i] == a[|a| - 1];
      } else if i == |a| {
        assert s[i] == '\r';
      } else if i == |a| + 1 {
        assert s[i + 1] == line[0];
      } else {
        assert s[i] == line[i - |a| - 2];
      }
    }
    assert s[|s| - 1] == line[|line| - 1];
  }

  /**
   A header block whose lines hold no blank line, then the blank line: the
   scan stops right after the blank line and leaves what follows unread.
   */
  lemma HeadScan(a: seq<char>, rest: seq<char>, cap: nat)
    requires NoBlankLine(a) && |a| + 4 <= cap
    ensures ReceiveHeaders(Conn(a + CRLFCRLF + rest, []), cap, CRLFCRLF)
         == Scan(|a| + 4, a + CRLFCRLF, Conn(rest, []))
  {
    var s := a + CRLFCRLF + rest;
    var k := |a| + 4;
    assert s[..k] == a + CRLFCRLF;
    forall j | 0 < j < k
      ensures !EndsWith(s[..j], CRLFCRLF)
    {
      if j >= 4 {
        assert s[..j][j - 1] == s[j - 1] && s[..j][j - 3] == s[j - 3] && s[..j][j - 2] == s[j - 2];
        if j <= |a| {
          assert s[j - 3] == a[j - 3] && s[j - 2] == a[j - 2];
          assert !(s[j - 3] == '\n' && s[j - 2] == '\r');
        } else if j == |a| + 2 {
          assert s[j - 3] == a[|a| - 1];
          assert s[j - 3] != '\n';
        } else {
          assert s[j - 1] == '\r';
        }
      }
    }
    assert StopsAt(s, CRLFCRLF, cap, k);
    ScanSucceeds(Conn(s, []), cap, CRLFCRLF, k);
    assert s[k..] == rest;
  }

  lemma DigitsHaveNo(n: nat, c: char)
    requires DigitValue(c) >= 10
    ensures Free(Decimal(n), c)
  {
  }

  /** The reason phrases hold no line feed and no 'C'. */
  lemma ReasonLine(s: Server.Status)
    ensures Free(Server.Reason(s), '\n') && Free(Server.Reason(s), 'C')
  {
    var r := Server.Reason(s);
    forall i | 0 <= i < |r|
      ensures r[i] != '\n' && r[i] != 'C'
    {
      match s
      case Ok =>
      case BadRequest =>
      case NotFound =>
      case MethodNotAllowed =>
      case InternalServerError =>
    }
  }

  /** Every reply's header block is its lines, then the blank line, and those lines hold no blank line. */
  lemma HeadHasNoBlankLine(s: Server.Status, length: nat)
    ensures NoBlankLine(Server.HeadLines(Server.Code(s), Server.Reason(s), length))
    ensures Server.StatusHead(Server.Code(s), Server.Reason(s), length)
         == Server.HeadLines(Server.Code(s), Server.Reason(s), length) + CRLFCRLF
  {
    var code, reason := Server.Code(s), Server.Reason(s);
    var first := Server.HttpVersion + Decimal(code) + " " + reason;
    var second := Server.LengthField + " " + Decimal(length);
    assert NoBlankLine(first + CRLF + second + CRLF + Server.CloseField) by {
      LinesFree(s, length);
      OneLine(first);
      NextLine(first, second);
      NextLine(first + CRLF + second, Server.CloseField);
    }
    assert first + CRLF + second + CRLF + Server.CloseField == Server.HeadLines(code, reason, length);
  }

  /** The status line and the Content-Length line, without their CRLFs, hold no line feed. */
  lemma LinesFree(s: Server.Status, length: nat)
    ensures Free(Server.HttpVersion + Decimal(Server.Code(s)) + " " + Server.Reason(s), '\n')
    ensures Free(Server.LengthField + " " + Decimal(length), '\n')
  {
    ReasonLine(s);
    DigitsHaveNo(Server.Code(s), '\n');
    DigitsHaveNo(length, '\n');
    assert Free(Server.HttpVersion, '\n') && Free(" ", '\n') && Free(Server.LengthField, '\n');
    FreeConcat(Server.HttpVersion, Decimal(Server.Code(s)), '\n');
    FreeConcat(Server.HttpVersion + Decimal(Server.Code(s)), " ", '\n');
    FreeConcat(Server.HttpVersion + Decimal(Server.Code(s)) + " ", Server.Reason(s), '\n');
    FreeConcat(Server.LengthField, " ", '\n');
    FreeConcat(Server.LengthField + " ", Decimal(length), '\n');
  }

  /** A Content-Length that atoi can return as an int. */
  predicate Fits(length: nat) {
    length <= Crawler.IntMax
  }

  /** Such a length takes at most ten digits, so it fits the crawler's intbuf. */
  lemma FitsField(length: nat)
    requires Fits(length)
    ensures |Decimal(length)| <= 10 <= Crawler.FieldWidth
  {
    assert Pow10(10) == 10000000000;
    DecimalDigits(length, 10);
  }

  /** Every reply the server frames announces, to the crawler's get_hdr_int, the length it was built with. */
  lemma HeadDeclaresLength(s: Server.Status, length: nat, rest: seq<char>)
    requires Fits(length)
    ensures Crawler.GetHdrInt(Server.StatusHead(Server.Code(s), Server.Reason(s), length) + rest, Crawler.LengthKey) == length
  {
    var pre := Server.StatusLine(Server.Code(s), Server.Reason(s));
    var post := Server.CloseField + CRLF + CRLF + rest;
    var field := " " + Decimal(length) + CRLF + post;
    HeadSplit(Server.Code(s), Server.Reason(s), length, rest);
    assert pre + Crawler.LengthKey + " " + Decimal(length) + CRLF + post == pre + Crawler.LengthKey + field;
    KeyAfterStatusLine(s, field);
    FitsField(length);
    Crawler.GetHdrIntReadsField(pre, Crawler.LengthKey, length, post);
  }

  /** A reply head, and what follows it, split around its Content-Length field. */
  lemma HeadSplit(code: nat, reason: seq<char>, length: nat, rest: seq<char>)
    ensures Server.StatusHead(code, reason, length) + rest
         == Server.StatusLine(code, reason) + Crawler.LengthKey + " " + Decimal(length) + CRLF
            + (Server.CloseField + CRLF + CRLF + rest)
  {
  }

  /** The first "Content-Length:" in a reply is the one right after its status line. */
  lemma KeyAfterStatusLine(s: Server.Status, field: seq<char>)
    ensures var pre := Server.StatusLine(Server.Code(s), Server.Reason(s));
            Find(pre + Crawler.LengthKey + field, Crawler.LengthKey) == Some(|pre|)
  {
    var pre := Server.StatusLine(Server.Code(s), Server.Reason(s));
    ReasonLine(s);
    DigitsHaveNo(Server.Code(s), 'C');
    assert Free(pre, 'C');
    Crawler.FindAfter(pre, Crawler.LengthKey, field);
  }

  /** The Content-Length of every error reply equals the length of the page that follows. */
  lemma ErrorReplyDeclaresPage(s: Server.Status)
    ensures Crawler.GetHdrInt(Server.ErrorReply(s), Crawler.LengthKey) == |Server.ErrorPage(Server.Reason(s))|
  {
    var page := Server.ErrorPage(Server.Reason(s));
    assert Fits(|page|);
    HeadDeclaresLength(s, |page|, page);
  }

  /** Status codes take three decimal digits. */
  lemma CodeDigits(s: Server.Status)
    ensures |Decimal(Server.Code(s))| == 3
  {
    ThreeDigits(Server.Code(s));
  }

  /** Numbers from 100 to 999 take three decimal digits. */
  lemma ThreeDigits(n: nat)
    requires 100 <= n < 1000
    ensures |Decimal(n)| == 3
  {
    assert Decimal(n) == Numeral(n / 10, 10) + [DigitChar(n % 10)];
    TwoDigits(n / 10);
  }

  lemma TwoDigits(n: nat)
    requires 10 <= n < 100
    ensures |Decimal(n)| == 2
  {
    assert Decimal(n) == Numeral(n / 10, 10) + [DigitChar(n % 10)];
  }

  /**
   The crawler's request against the server: the head ends at the first
   blank line, the third CRLF stays unread, and the target "/" is served
   from the index page.
   */
  lemma RequestServesIndex(host: seq<char>, fs: Server.Files, fd: nat, size: nat)
    requires Free(host, '\n') && |host| + 26 <= Server.BufSize
    requires fs.present(Server.IndexPage) && fs.opens(Server.IndexPage) == Some(fd) && fs.size(fd) == Some(size)
    ensures ReceiveHeaders(Conn(Crawler.Request(host), []), Server.BufSize, CRLFCRLF).rest.data == CRLF
    ensures Server.HttpHandler(Conn(Crawler.Request(host), []), fs) == Server.Handled(0, Server.OkHead(size))
  {
    var a := RequestLines(host);
    var c := Conn(Crawler.Request(host), []);
    assert ReceiveHeaders(c, Server.BufSize, CRLFCRLF) == Scan(|a| + 4, a + CRLFCRLF, Conn(CRLF, [])) by {
      HeadScan(a, CRLF, Server.BufSize);
    }
    assert Server.ValidateRequest(a + CRLFCRLF, fs) == Server.Validation(fd, []) by {
      IndexRequested(host, a);
    }
  }

  /** The head of the crawler's request names "/" with GET. */
  lemma IndexRequested(host: seq<char>, a: seq<char>)
    requires Free(host, '\n') && a == RequestLines(host)
    ensures Server.RequestLine(a + CRLFCRLF) == Some(Server.Target("GET", "/"))
    ensures Server.Normalize("/") == Server.IndexPage
  {
    var tail := "HTTP/1.1" + CRLF + "Host: " + host + CRLFCRLF;
    assert a + CRLFCRLF == "GET" + " " + "/" + " " + tail;
    Server.RequestLineOf("GET", "/", tail);
  }

  /** The request without its last three line ends. */
  function RequestLines(host: seq<char>): (a: seq<char>)
    requires Free(host, '\n')
    ensures NoBlankLine(a) && Crawler.Request(host) == a + CRLFCRLF + CRLF && |a| == 22 + |host|
  {
    var first := "GET / HTTP/1.1";
    var second := "Host: " + host;
    OneLine(first);
    NextLine(first, second);
    first + CRLF + second
  }

  /**
   A 200 reply for a non-empty file, against the crawler: it echoes the two
   header lines to standard error and prints exactly the file.
   */
  lemma CrawlerPrintsServedFile(host: seq<char>, body: seq<char>)
    requires |body| > 0 && Fits(|body|)
    ensures Crawler.Crawl(host, Conn(Server.OkHead(|body|) + body, []))
         == Crawler.Run(Crawler.Success, Crawler.Request(host), Server.HeadLines(200, "OK", |body|) + CRLF, body)
  {
    var n := |body|;
    var a := Server.HeadLines(200, "OK", n);
    var c := Conn(Server.OkHead(n) + body, []);
    ReplyScan(Server.Ok, n, body);
    assert Crawler.GetHdrInt(a + CRLFCRLF, Crawler.LengthKey) == n by {
      HeadDeclaresLength(Server.Ok, n, []);
      assert Server.OkHead(n) + [] == a + CRLFCRLF;
    }
    assert ReceiveContent(Conn(body, []), n, Crawler.BufSize).out == body by {
      DrainUnsegmented(Conn(body, []), n, Crawler.BufSize);
    }
    assert (a + CRLFCRLF)[..|a| + 2] == a + CRLF;
  }

  /** The crawler's scan of a reply stops after the server's header block. */
  lemma ReplyScan(s: Server.Status, length: nat, rest: seq<char>)
    requires Fits(length)
    ensures var a := Server.HeadLines(Server.Code(s), Server.Reason(s), length);
            && Server.StatusHead(Server.Code(s), Server.Reason(s), length) == a + CRLFCRLF
            && ReceiveHeaders(Conn(a + CRLFCRLF + rest, []), Crawler.BufSize, CRLFCRLF)
               == Scan(|a| + 4, a + CRLFCRLF, Conn(rest, []))
  {
    var a := Server.HeadLines(Server.Code(s), Server.Reason(s), length);
    HeadHasNoBlankLine(s, length);
    CodeDigits(s);
    FitsField(length);
    HeadScan(a, rest, Crawler.BufSize);
  }

  /**
   A 200 reply for an empty file says Content-Length 0 and nothing about
   chunks, which the crawler treats as an unknown length and fails on.
   */
  lemma CrawlerRejectsEmptyFile(host: seq<char>, rest: seq<char>)
    ensures Crawler.Crawl(host, Conn(Server.OkHead(0) + rest, [])).exit == Crawler.Failure
  {
    var a := Server.HeadLines(200, "OK", 0);
    var c := Conn(Server.OkHead(0) + rest, []);
    EmptyFileHead(a, rest);
    var h := ReceiveHeaders(c, Crawler.BufSize, CRLFCRLF);
    assert h.buf == a + CRLFCRLF;
    assert !(Crawler.GetHdrInt(h.buf, Crawler.LengthKey) > 0 || Contains(h.buf, Crawler.ChunkedMark));
  }

  /** What the crawler sees of a 200 reply for an empty file: Content-Length 0 and no chunked coding. */
  lemma EmptyFileHead(a: seq<char>, rest: seq<char>)
    requires a == Server.HeadLines(200, "OK", 0)
    ensures ReceiveHeaders(Conn(Server.OkHead(0) + rest, []), Crawler.BufSize, CRLFCRLF)
         == Scan(|a| + 4, a + CRLFCRLF, Conn(rest, []))
    ensures Crawler.GetHdrInt(a + CRLFCRLF, Crawler.LengthKey) == 0
    ensures !Contains(a + CRLFCRLF, Crawler.ChunkedMark)
  {
    assert Fits(0);
    assert Server.OkHead(0) == a + CRLFCRLF by {
      ReplyScan(Server.Ok, 0, rest);
    }
    ReplyScan(Server.Ok, 0, rest);
    assert Crawler.GetHdrInt(a + CRLFCRLF, Crawler.LengthKey) == 0 by {
      HeadDeclaresLength(Server.Ok, 0, []);
      assert Server.OkHead(0) + [] == a + CRLFCRLF;
    }
    assert !Contains(a + CRLFCRLF, Crawler.ChunkedMark) by {
      EmptyFileHeadHasNoA(a);
      MarkHasA();
      Absent(a + CRLFCRLF, Crawler.ChunkedMark, 2, 'a');
    }
  }

  /** The head of a 200 reply for an empty file has no letter 'a' (which "Transfer-Encoding" has). */
  lemma EmptyFileHeadHasNoA(a: seq<char>)
    requires a == Server.HeadLines(200, "OK", 0)
    ensures Free(a + CRLFCRLF, 'a')
  {
    DigitsHaveNo(200, 'a');
    DigitsHaveNo(0, 'a');
    var parts := [Server.HttpVersion, Decimal(200), " ", "OK", CRLF, Server.LengthField, " ", Decimal(0), CRLF, Server.CloseField, CRLFCRLF];
    assert a + CRLFCRLF == parts[0] + parts[1] + parts[2] + parts[3] + parts[4] + parts[5] + parts[6] + parts[7] + parts[8] + parts[9] + parts[10];
  }

  /** "Transfer-Encoding: chunked" has an 'a' at index 2. */
  lemma MarkHasA()
    ensures |Crawler.ChunkedMark| > 2 && Crawler.ChunkedMark[2] == 'a'
  {
  }

  /** Text that lacks one of a pattern's characters does not contain the pattern. */
  lemma Absent(s: seq<char>, t: seq<char>, p: nat, ch: char)
    requires p < |t| && t[p] == ch && Free(s, ch)
    ensures !Contains(s, t)
  {
    forall i: nat | i <= |s|
      ensures !OccursAt(s, t, i)
    {
      if i + |t| <= |s| {
        assert s[i..i + |t|][p] == s[i + p];
      }
    }
  }

  /**
   An error reply against the crawler: it prints the whole error page,
   because the Content-Length matches the page.
   */
  lemma CrawlerPrintsErrorPage(host: seq<char>, s: Server.Status)
    ensures Crawler.Crawl(host, Conn(Server.ErrorReply(s), [])).exit == Crawler.Success
    ensures Crawler.Crawl(host, Conn(Server.ErrorReply(s), [])).output == Server.ErrorPage(Server.Reason(s))
  {
    var page := Server.ErrorPage(Server.Reason(s));
    var n := |page|;
    var a := Server.HeadLines(Server.Code(s), Server.Reason(s), n);
    assert Fits(n);
    ReplyScan(s, n, page);
    assert Server.ErrorReply(s) == a + CRLFCRLF + page;
    assert Crawler.GetHdrInt(a + CRLFCRLF, Crawler.LengthKey) == n by {
      HeadDeclaresLength(s, n, []);
      assert Server.StatusHead(Server.Code(s), Server.Reason(s), n) + [] == a + CRLFCRLF;
    }
    assert ReceiveContent(Conn(page, []), n, Crawler.BufSize).out == page by {
      DrainShortRead(Conn(page, []), n, Crawler.BufSize);
    }
  }
}

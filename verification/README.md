# HTTP/1.1 framing in a tiny server and crawler

This project is a Dafny model of the HTTP/1.1 framing and request handling
shared by two small C programs:

- `server.c` is a one-file web server. It reads a request head, checks the
  request line, and answers with an error page (400, 405, 404 or 500) or with
  a 200 header followed by the file.
- `crawler.c` is a client. It sends `GET /`, echoes the reply's header block
  to standard error, and copies the body to standard output. The body is
  framed either by Content-Length (section 8.6 of RFC 9110) or by the chunked
  coding (section 7.1 of RFC 9112).

Everything is modelled as pure functions over `seq<char>`.

- A socket is a `Socket.Conn`: every byte the peer sends, plus a list of
  per-call grants. A grant says how many bytes the i-th `recv` may return,
  and a grant of 0 stands for a `recv` error. `Socket.Recv` is one
  `recv(2)` call.
- The file system is an oracle, `Server.Files`. It says whether a path
  exists (`access`), which descriptor `open` returns, and what size `fstat`
  reports.
- What the crawler writes to standard error and standard output is recorded
  as byte sequences in `Crawler.Run`.

The modules, one per file:

| module | file | models |
|---|---|---|
| `Wrappers` | wrappers.dfy | `Option` |
| `CText` | ctext.dfy | the C library pieces used: `strstr`, `strtok`, `atoi`, `strtol`, `snprintf`'s `%d`/`%lu` |
| `Socket` | socket.dfy | the peer and `recv` |
| `HeaderScan` | scan.dfy | `receive_headers` (one model for both identical copies) |
| `Body` | body.dfy | `receive_content`, `receive_chunked`, and a corrected chunked decoder |
| `Server` | server.dfy | `validate_request`, `http_handler` up to the file copy |
| `Crawler` | crawler.dfy | `send_request`'s format, `get_hdr_int`, and `main` after connecting |
| `Exchange` | exchange.dfy | the two programs against each other |

## Model

| member | source | states |
|---|---|---|
| HeaderScan.ReceiveHeaders | server.c:68-89 | The result is -1 or at most `buf_size`, and never more than `buf_size` bytes are stored. A non-negative result `n` is the unique stopping point of the stream: either `n == buf_size`, or the first `n` bytes end with the terminator and no shorter non-empty prefix does. No recv up to that point failed. The buffer holds exactly the first `n` bytes, and nothing past them is consumed. |
| HeaderScan.ScanFrom | crawler.c:75-96 | The same loop once some bytes are buffered: it stops at the stream's unique stopping point and consumes one grant per byte. This copy is identical to the server's. |
| HeaderScan.StopsAtUnique | server.c:80-86 | A scan can stop at only one place: the first terminator, or capacity. |
| HeaderScan.ScanSucceeds | server.c:73-88 | Completeness: if the stream holds a stopping point and no recv up to it fails, the scan returns exactly that count with exactly those bytes. |
| HeaderScan.ScanFailsIff | server.c:75-79 | The scan returns -1 if and only if no stopping point is reachable without a recv error or an early close. |
| HeaderScan.ScanFailsOnEarlyClose | server.c:75-79 | A peer that closes before sending the terminator, within capacity, makes the scan fail even though bytes were already buffered. |
| HeaderScan.ScanFillsBuffer | server.c:73 | A full buffer without a terminator is not an error: the scan returns `buf_size`. |
| Body.LineScan | crawler.c:125 | With terminator CRLF, the scan consumes exactly one line and its CRLF, and leaves the rest of the stream and of the grants untouched. |
| Body.ReceiveContent | crawler.c:99-116 | Always returns 0. Forwards received bytes in stream order, as a prefix of the stream, and leaves the rest unread. Forwards nothing when the length is 0 or less. Forwards fewer than `content_length + buf_size` bytes in total, because reads are not capped at the remaining count. |
| Body.DrainStopsAtFirstCover | crawler.c:101-113 | On every connection, segmented or not: the drain forwards nothing when the first recv returns 0 or less. Otherwise it forwards as many bytes as the first running recv total that reaches `content_length`. When no total reaches it, it forwards the last total before a recv returns 0 or less. |
| Body.DrainDeliversDeclared | crawler.c:101-113 | On a connection without recv errors that carries at least `content_length` bytes, the drain forwards at least `content_length` bytes before it stops. |
| Body.DrainUnsegmented | crawler.c:101-113 | When every recv gets all it asks for, the drain forwards whole buffers until it has covered the declared length: the first `Covered(content_length, buf_size)` bytes, or everything the peer sent. |
| Body.Covered | crawler.c:103-113 | The bytes whole reads take to cover `n`: a multiple of `buf_size` (`Rounds(n)` reads), at least `n` and less than `n + buf_size`. That makes it the least such multiple. |
| Body.ReceiveChunked | crawler.c:119-140 | Always returns 0. If the size line cannot be read, nothing is forwarded. Otherwise the output is a prefix of the stream after that one line, empty when `strtol(line, NULL, 16)` is 0 or less, and shorter than the size plus `buf_size`. Only one chunk is ever read. |
| Body.ChunkedForwardsRawStream | crawler.c:125-135 | Behaviour as written on an unsegmented body: after the first size line, the drain forwards raw stream up to the first buffer multiple that covers the chunk. That includes the chunk's CRLF and any later size lines and chunks. |
| Body.AsWrittenForwardsFraming | crawler.c:119-140 | The finding: on the chunked coding of one chunk, the as-written drain prints the data followed by CRLF and `0\r\n\r\n`, while the corrected decoder prints just the data. |
| Body.DecodeChunked | crawler.c:119-140 | The chunk loop as intended: it returns 0 or -1 and never grows the connection. |
| Body.DecodeEncode | crawler.c:119-140 | Round trip of the chunked coding: decoding `Encode(chunks) + more` gives the chunks' data in order, returns 0, and leaves exactly `more` unread. |
| Body.ReadExactly | crawler.c:99-116 | The capped drain the corrected decoder uses. It returns 0 exactly when it has forwarded `n` bytes, and -1 with fewer. What it forwards is a prefix of the stream, and the rest is left unread. |
| Body.ReadExactlyReliable | crawler.c:99-116 | On any connection without recv errors that holds at least `n` bytes, however it is segmented, the capped drain returns 0 with exactly the first `n` bytes. |
| Body.ReadExactlyWhole | crawler.c:99-116 | On an unsegmented connection holding at least `n` bytes, the capped drain takes exactly the first `n`. |
| Crawler.Request | crawler.c:45 | The request is exactly `"GET / HTTP/1.1\r\nHost: " + host + "\r\n\r\n\r\n"`: 28 bytes plus the host, ending with one CRLF too many. |
| Crawler.GetHdrInt | crawler.c:55-73 | Returns -1 when the key does not occur, or when no CRLF follows its first occurrence. |
| Crawler.ValueWindow | crawler.c:67 | The window `strncpy` fills is at most 20 bytes, taken from the given offset on. |
| Crawler.GetHdrIntReadsField | crawler.c:55-73 | When the key's first occurrence starts a header line `<key> <decimal>\r\n` (other header names may come before it, even ones sharing its first letter), with a numeral that fits in 20 bytes, reads back as that number. Exactly one character after the key is skipped. |
| Crawler.FieldAt | crawler.c:59-69 | Once the key is first found at `i`, with a CRLF somewhere from the key on (as `strstr(hdr, "\r\n")` looks for it), the result is `atoi` of the window that starts `strlen(key) + 1` bytes after `i`. |
| Crawler.Crawl | crawler.c:169-191 | A failed head scan fails the run with no echo and no output. Otherwise the echo is the head minus its last two bytes, and the head is at least 4 bytes. The run succeeds exactly when Content-Length is positive or the head contains `Transfer-Encoding: chunked`, so Content-Length 0 without the chunked header fails. Content-Length takes precedence over chunked. The output is the fixed-length drain or the chunked drain accordingly, and empty on failure. |
| Crawler.CrawlDecoding | crawler.c:184-185 | The same run with the chunked branch decoding as intended. Exit, request and echo are unchanged, and so is the output of the Content-Length branch. The chunked branch prints what Body.DecodeChunked returns. |
| Crawler.EchoDropsBlankLine | crawler.c:177 | When the head ends inside the buffer, the echo plus CRLF is the head: only the blank line is dropped. |
| Server.ErrorPage | server.c:102 | An error page is 35 bytes longer than its reason phrase. |
| Server.RequestLine | server.c:97-100 | The method and target come from two `strtok(…, " ")` calls. The result is None exactly when the request does not hold two words (a non-space byte, a later space, and a later non-space byte). Otherwise the method and target are the first two maximal runs of non-space bytes, each preceded only by spaces. |
| Server.Normalize | server.c:122-128 | One leading `/` is stripped, and `"/"` becomes `index.html`. A target without a leading slash is unchanged. |
| Server.ValidateRequest | server.c:92-158 | Precedence is 400 (missing method or target), then 405 (method is not exactly `GET`), then 404 (path does not exist), then 500 (open fails). Each error writes its error reply and returns -1. For every GET request line: an absent path gets 404, a present one that `open` refuses gets 500, and one that opens returns its descriptor and writes nothing. Only success returns a descriptor. |
| Server.HttpHandler | server.c:160-193 | A failed or empty head scan returns -1 and writes nothing. A validation error passes through. If `fstat` fails, the reply is 500. The handler returns 0 exactly when validation and `fstat` both succeed, and then it has written the 200 header with the file size as Content-Length. |
| Server.NoSpaceIsBadRequest | server.c:97-109 | A request without any space has no target, so the reply is 400. |
| Server.MethodCheckedBeforePath | server.c:111-120 | A well-formed request line whose method is not `GET` gets 405, whatever the target and the file system. |
| Server.MissingPathIsNotFound | server.c:130-138 | A GET for a path that does not exist gets 404, even when open would succeed. |
| Server.UnopenablePathIsServerError | server.c:140-154 | A GET for an existing path that cannot be opened gets 500. |
| Server.MethodNotAllowedReply | server.c:113-114 | The 405 reply's header says `405` and Content-Length `53`, which is the length of its page. |
| Exchange.HeadDeclaresLength | server.c:190 | Every header block the server formats, including the 200 header with the file size, reads back through the crawler's `get_hdr_int` as the length it was built with, for lengths up to 2147483647, the largest `int` that `atoi` returns. |
| Exchange.ErrorReplyDeclaresPage | server.c:102-103 | The Content-Length of every error reply equals the length of the page that follows it. |
| Exchange.HeadHasNoBlankLine | server.c:103 | Every reply header is its three lines, then the blank line, and those lines contain no blank line. |
| Exchange.RequestServesIndex | crawler.c:45 | The crawler's request, against the server, on a connection that delivers it whole with no recv error: the head scan stops at the first blank line, leaving the extra CRLF unread. The target `/` is served from `index.html` with a 200 header. |
| Exchange.CrawlerPrintsServedFile | crawler.c:169-182 | On a connection that delivers the reply whole with no recv error, a 200 reply for a non-empty file of at most 2147483647 bytes makes the crawler echo the two header lines and print exactly the file. |
| Exchange.CrawlerRejectsEmptyFile | crawler.c:180-191 | On a connection that delivers the reply whole, a 200 reply for an empty file says Content-Length 0 and has no chunked header, so the crawler fails. |
| Exchange.CrawlerPrintsErrorPage | crawler.c:180-182 | On a connection that delivers the reply whole with no recv error, every error reply makes the crawler succeed and print exactly the error page. A recv error during the head scan fails the run. One during the body drain still exits with success and prints a cut-off page. This lemma covers neither case. |
| CText.Find | crawler.c:59 | `strstr`: the first occurrence, with no earlier one. None exactly when the pattern does not occur. |
| CText.Strtok | server.c:97-98 | `strtok` with one delimiter: None exactly when the text is all delimiters. Otherwise the token is non-empty and has no delimiter, it follows only delimiters, and the next call continues after the delimiter that ends it (or at the end). |
| CText.StrtokBefore | server.c:97-98 | A token followed by the delimiter is returned whole, and the next call continues after that delimiter. |
| Exchange.FitsField | crawler.c:67 | A length up to 2147483647 takes at most ten decimal digits, so its numeral fits in the 20 bytes `strncpy` copies into `intbuf`. |
| CText.DecimalDigits | server.c:190 | A number below 10 to the k is written by `%d`/`%lu` with at most k digits. |
| CText.NumeralValue | server.c:103 | The digits `snprintf` writes for a number denote that number. |
| CText.ParseNumeral | crawler.c:69 | `atoi` and `strtol(…, 16)` of a numeral give the number back when the next byte is neither a digit nor `x`/`X`. |

## Left out

- Sockets are a parameter. `server_socket`, `accept_client`, `client_socket` (`getaddrinfo`, `connect`), the accept loop, and `shutdown`/`close` are operating-system I/O.
- `send` and `write` are assumed to write everything. The request and replies are recorded as the bytes handed to them. In the server, a partial or failed `write` (server.c:104-107, 191-193) only produces a diagnostic. In the crawler, a short or failed `send` makes `send_request` return -1 (crawler.c:47-50), and `main` then exits with failure without reading the reply (crawler.c:162-166); that path is not modelled.
- The file system is an oracle. `access`, `open` and `fstat` are inputs. The loop that copies the file to the socket (server.c:196-198) is not modelled.
- Diagnostics are not modelled. The fixed `perror`/`fprintf` messages, the usage check on `argc`, and the connect and send failures in the crawler's `main` are left out. Standard error is modelled only as the echoed head.
- Received buffers are treated as whole C strings: the received prefix is the whole string, with no NUL inside it and nothing past it. Neither program terminates its buffer. `strtok`, `strstr` and `strtol` can read stale bytes past it, or run off the end of a full buffer.
- `strncpy` into `intbuf[20]` leaves it unterminated when the window holds 20 bytes, so `atoi` can read past it. The model bounds the window at 20 bytes.
- Integers are unbounded. Overflow in `atoi` and `strtol` is not modelled, nor is the truncation of `strtol`'s `long` to `int`, nor `%lu` of `st_size`.
- `strtok`'s writes into the buffer are modelled functionally, as a token and the rest of the text.
- Concurrency: none. Each program handles one connection at a time.
- Body.ReceiveContent: its own contract bounds the output and places it in the stream. The exact stop point, for every connection, is stated by Body.DrainStopsAtFirstCover.
- Exchange.HeadDeclaresLength: stated only for lengths up to 2147483647. For a file of 2 GiB or more, `atoi`'s `int` overflows in the source: the crawler then fails with an unknown length, or drains a wrong count. The model's unbounded `Atoi` would read such lengths back, so they are excluded rather than modelled.
- Exchange.CrawlerPrintsServedFile and Exchange.CrawlerPrintsErrorPage: proved only on a connection that delivers the reply whole with no recv error. Segmented connections are not covered by these two lemmas.
- Crawler.GetHdrInt: its contract covers only the two -1 cases. The positive case is stated for well-formed header lines by Crawler.GetHdrIntReadsField and Crawler.FieldAt, not for every buffer.
- Body.ReceiveChunked: its contract bounds the output and places it in the stream. The exact output is stated only for unsegmented connections, by Body.ChunkedForwardsRawStream.
- Body.DecodeChunked: its round trip is proved on unsegmented connections with non-empty chunks and no chunk extensions or trailer fields.
- Exchange.RequestServesIndex: it assumes the host has no line feed and fits the server's buffer.

Three behaviours of the code are easy to misread. The model keeps them as they are.

- The 405 page `<html><body><h1>Method Not Allowed</h1></body></html>` is 53 bytes, and the 405 header says Content-Length 53.
- `receive_content` does not cap its reads at the remaining count. It can forward up to `buf_size - 1` bytes past Content-Length.
- A head that fills the buffer without a terminator is not an error: `receive_headers` returns `buf_size`.

## Findings

| source | as written | input that shows it | evidently intended | confidence | as-written member | corrected member |
|---|---|---|---|---|---|---|
| crawler.c:119-140 | `receive_content` always returns 0 and the loop breaks on `<= 0`, so only one chunk is ever read. Its drain is not capped at the chunk size, so the chunk's CRLF and the last chunk `0\r\n\r\n` are printed as body. | The chunked coding of `hi` arriving in one piece, `2\r\nhi\r\n0\r\n\r\n`, prints `hi\r\n0\r\n\r\n`. | Read chunk after chunk until the last one, and print only the chunks' data. | not executed | Body.AsWrittenForwardsFraming | Body.DecodeEncode |

The corrected decoder is `Body.DecodeChunked`. `Body.DecodeEncode` proves its round trip, and `Crawler.CrawlDecoding` runs the crawler with it. `Crawler.Crawl` keeps the chunked branch as written.

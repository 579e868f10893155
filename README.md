# HTTP/1.1 request parser and route decision

This project models the protocol core of a minimal HTTP/1.1 server
(`src/main.rs`). The server reads one request per TCP connection and parses
the text into a request line, an ordered list of headers and a body. If the
target is `/` it answers `HTTP/1.1 200 OK`, and `HTTP/1.1 404 Not Found`
otherwise.

The parser `parse_request` works on text only, using Rust's
`str::split_once` and `str::split`. It implements a simplified subset of the
framing in RFC 9112: the request line of section 3, and the header/body
split at the first blank line of section 2.1. The model follows the code
where the code departs from that standard:

- A header line is split at its first space, not at its colon (section 5.1
  of RFC 9112 uses the colon). The key keeps its colon: `"Host: a b"` gives
  key `"Host:"` and value `"a b"`.
- A request with no header lines never parses, while RFC 9112 (section 2.1
  allows zero field lines) accepts one. `"GET / HTTP/1.1\r\n\r\n"` fails
  because no double CRLF follows the first CRLF. Text that does reach an
  empty header block fails on the piece `""`, which has no space.
- A request line with more than three space-separated components is
  accepted. The extra components are dropped.
- The body is everything after the first double CRLF. No `Content-Length`
  is read or checked.

Files:

- `rust_str.dfy` (module `RustStr`) models `split_once` and `split`. In
  `split_once` the first occurrence wins. `split` keeps empty pieces, and
  `"".split(sep)` is `[""]`. The module also has `Join`, used to state
  round trips.
- `http.dfy` (module `Http`) has the `RequestLine`, `Header` and `Request`
  records, the four parse failures as `ParseError`, and the parser. It also
  has `FormatRequest`, the construct side of the round trip, and the lemmas
  about the parser.
- `routing.dfy` (module `Routing`) has the route decision (`Respond`) and
  what one connection gets written back (`Serve`).

## Model

| member | source | states |
|---|---|---|
| `RustStr.FindFrom` | src/main.rs:58-60 | Returns the first index at or after `from` where the separator occurs, or `None` when there is no occurrence at or after `from`. |
| `RustStr.SplitOnce` | src/main.rs:58-60 | `None` exactly when the separator does not occur. Otherwise the text is `before + sep + after`, and no occurrence starts inside `before` (the first occurrence wins). |
| `RustStr.SplitOnceAt` | src/main.rs:74-76 | Converse of `SplitOnce`: if `s == a + sep + b` and no occurrence starts inside `a`, then `split_once` returns exactly `(a, b)`. |
| `RustStr.SplitOnceChar` | src/main.rs:82 | For a one-character separator, `split_once` fails exactly when the character is absent. The text before the split never contains it. |
| `RustStr.Split` | src/main.rs:63 | Gives at least one piece. The pieces joined with the separator give back the input, and no piece contains the separator. Text without the separator (including `""`) gives the single piece `[s]`. |
| `RustStr.SplitJoin` | src/main.rs:80 | Splitting the join of pieces that contain none of the separator's characters gives back exactly those pieces, empty ones included. |
| `Http.ParseHeader` | src/main.rs:82-87 | Fails exactly when the line has no space. Otherwise `key + " " + value` is the line and the key has no space. |
| `Http.ParseHeaders` | src/main.rs:79-89 | Succeeds exactly when every line has a space. Then there is one header per line, in the same order, and each header renders back to its line. |
| `Http.ParseRequest` | src/main.rs:56-97 | Fails with `NoFirstCrlf` exactly when the text has no CRLF. Every successful parse has at least one header. |
| `Http.FirstCrlf` | src/main.rs:58-60 | The request line is everything before the first CRLF. The split falls right after any text that contains no CRLF. |
| `Http.RequestLineFields` | src/main.rs:63-71 | The request line is split on single spaces. The parse fails with `TooFewComponents` exactly when there are fewer than three pieces. Otherwise method, target and version are pieces 0, 1 and 2, and later pieces are ignored. |
| `Http.DoubleCrlfRequired` | src/main.rs:74-76 | After a request line with three or more components, the parse fails with `NoDoubleCrlf` exactly when the rest contains no `"\r\n\r\n"`. |
| `Http.HeadersAndBody` | src/main.rs:74-95 | The body is exactly the text after the first double CRLF, whatever it contains. The parse fails with `MalformedHeader` exactly when some CRLF-separated piece of the header block has no space. Otherwise there is one header per piece, in order, with the key before the first space and the value after it. |
| `Http.ParseAfterRequestLine` | src/main.rs:74-96 | Once the request line and the first double CRLF are found, the result is decided by the header lines alone: `MalformedHeader`, or the request with the parsed headers and the body. |
| `Http.NoHeadersFails` | src/main.rs:74-89 | A request line followed directly by a blank line never parses, whatever the body. |
| `Http.ParseHeaderLines` | src/main.rs:79-89 | Header lines rendered from headers with space-free keys parse back to exactly those headers. |
| `Http.RequestLineRoundTrip` | src/main.rs:63-71 | A request line built from three tokens (no space, CR or LF) contains no CRLF and splits back into exactly those tokens. |
| `Http.HeaderBlockRoundTrip` | src/main.rs:74-89 | A rendered non-empty header block ends at the first double CRLF after it, whatever the body, and parses back into exactly its headers. |
| `Http.RoundTrip` | src/main.rs:56-97 | Construct-then-parse: `m t v\r\n` + header lines joined by CRLF + `\r\n\r\n` + body parses back to exactly that request. This holds when the tokens have no space, CR or LF, there is at least one header, keys have no space, CR or LF, and values have no CR or LF. The body is arbitrary. |
| `Http.FormatInvertsParse` | src/main.rs:56-97 | Parse-then-construct: a parsed request whose request line has exactly three components renders back to the very text it was parsed from. Parsing loses nothing else. |
| `Routing.Respond` | src/main.rs:39-42 | Gives `"HTTP/1.1 200 OK\r\n\r\n"` exactly when the target is `"/"`, and `"HTTP/1.1 404 Not Found\r\n\r\n"` for every other target, including `""` and `"/x"`. |
| `Routing.Serve` | src/main.rs:35-44 | Nothing is written exactly when parsing fails. Otherwise the 200 response is written exactly when the parsed target is `"/"`, and the 404 response exactly when it is any other target. |
| `Routing.ServeWellFormed` | src/main.rs:35-44 | Every well-formed request gets a response chosen by its target alone. |
| `Routing.ServeOnlyReadsTarget` | src/main.rs:39-42 | Any two request texts that parse to the same target get the same response, whatever their method, version, headers and body. |
| `Routing.ServeShortRequestLine` | src/main.rs:35-44 | A request line with fewer than three components gets nothing written. |
| `Routing.ServeWithoutHeaders` | src/main.rs:35-44 | A request with no header lines gets nothing written, even for target `"/"`. |

## Left out

- Socket I/O is not modelled: binding the listener, the `incoming()` accept loop, `read_to_string` and `write_all` (src/main.rs:23-31, 44). The request text is a parameter of `Serve`, and the written response is its result.
- Console output (`dbg!`, `println!`, src/main.rs:33, 45, 48) is not modelled.
- The UTF-8 decoding failure of `read_to_string` (src/main.rs:30) is not modelled. The input is text that is already decoded. Rust works on UTF-8 bytes and the model on characters, but every separator is ASCII, so the splits are the same.
- The `anyhow` context messages (src/main.rs:60, 65, 76, 89) are left out. The four failures are the variants of `ParseError`.
- `Routing.Serve`: returns `None` where the source instead returns the parse error (or a read or write error) from `main` with `?`, which stops the whole accept loop (src/main.rs:31, 36, 44). The model covers only "nothing is written for this request", not the end of the process.
- `RustStr.FindFrom`, `RustStr.SplitOnce` and `RustStr.Split` require a non-empty separator. Rust's behaviour for an empty pattern is not modelled, because the parser only uses the literals `"\r\n"`, `" "` and `"\r\n\r\n"`.
- The echo, user-agent and file endpoints, response headers, a response serializer, file system access and per-connection concurrency are not part of `src/main.rs` and are not part of this model.

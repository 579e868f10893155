/** The request parser of the server: raw request text to a `Request`
    (request line, ordered headers, body) or one of four parse failures.
    The framing is a simplified subset of HTTP/1.1 (RFC 9112, section 3 for
    the request line and section 2.1 for the header/body split), and the
    model follows the code where it departs from that standard: a header
    line is split at its first space, not at its colon, so the key keeps
    its colon (`"Host:"`), and no `Content-Length` is consulted. */
module Http {
  import opened RustStr

  datatype RequestLine = RequestLine(httpMethod: string, target: string, version: string)

  datatype Header = Header(key: string, value: string)

  datatype Request = Request(requestLine: RequestLine, headers: seq<Header>, body: string)

  /** Why `parse_request` gave up; the source attaches a message to each. */
  datatype ParseError =
    | NoFirstCrlf       // the text holds no "\r\n"
    | TooFewComponents  // the request line splits into fewer than three pieces
    | NoDoubleCrlf      // no "\r\n\r\n" after the request line
    | MalformedHeader   // some header line holds no space

  datatype Result<+T> = Success(value: T) | Failure(error: ParseError)

  const Crlf: string := "\r\n"
  const DoubleCrlf: string := "\r\n\r\n"

  /** The line a header is read back from: key, one space, value. */
  function HeaderLine(h: Header): string {
    h.key + " " + h.value
  }

  function HeaderLines(hs: seq<Header>): seq<string> {
    seq(|hs|, i requires 0 <= i < |hs| => HeaderLine(hs[i]))
  }

  /** The request text a request is built from, the inverse of `ParseRequest`:
      `method target version\r\n`, the header lines joined by CRLF, a blank
      line, and the body. */
  function FormatRequest(r: Request): string {
    r.requestLine.httpMethod + " " + r.requestLine.target + " " + r.requestLine.version + Crlf
      + Join(HeaderLines(r.headers), Crlf) + DoubleCrlf + r.body
  }

  /** A request-line component: no space, CR or LF. */
  predicate IsToken(s: string) {
    FreeOf(s, " \r\n")
  }

  /** The requests that `FormatRequest` renders faithfully: space-free
      request-line components, at least one header, space-free keys, and no
      CR or LF in any key or value. */
  predicate WellFormed(r: Request) {
    && IsToken(r.requestLine.httpMethod)
    && IsToken(r.requestLine.target)
    && IsToken(r.requestLine.version)
    && |r.headers| >= 1
    && forall i :: 0 <= i < |r.headers| ==> IsToken(r.headers[i].key) && FreeOf(r.headers[i].value, Crlf)
  }

  /** One header line: key before the first space, value after it. */
  function ParseHeader(line: string): (h: Option<Header>)
    ensures h.None? <==> ' ' !in line
    ensures h.Some? ==> HeaderLine(h.value) == line && ' ' !in h.value.key
  {
    SplitOnceChar(line, ' ');
    match SplitOnce(line, " ")
    case None => None
    case Some((key, value)) => Some(Header(key, value))
  }

  /** All header lines, in order, or nothing as soon as one line is
      malformed (`map` then `collect::<Option<Vec<Header>>>`). */
  function ParseHeaders(lines: seq<string>): (r: Option<seq<Header>>)
    ensures r.Some? <==> forall i :: 0 <= i < |lines| ==> ' ' in lines[i]
    ensures r.Some? ==> |r.value| == |lines|
    ensures r.Some? ==> forall i :: 0 <= i < |lines| ==>
              HeaderLine(r.value[i]) == lines[i] && ' ' !in r.value[i].key
  {
    if forall i :: 0 <= i < |lines| ==> ParseHeader(lines[i]).Some? then
      Some(seq(|lines|, i requires 0 <= i < |lines| => ParseHeader(lines[i]).value))
    else
      None
  }

  /** `parse_request` */
  function ParseRequest(request: string): (r: Result<Request>)
    ensures r == Failure(NoFirstCrlf) <==> !Contains(request, Crlf)
    ensures r.Success? ==> |r.value.headers| >= 1
  {
    match SplitOnce(request, Crlf)
    case None => Failure(NoFirstCrlf)
    case Some((line, headersAndBody)) =>
      var components := Split(line, " ");
      if |components| < 3 then Failure(TooFewComponents)
      else
        var requestLine := RequestLine(components[0], components[1], components[2]);
        match SplitOnce(headersAndBody, DoubleCrlf)
        case None => Failure(NoDoubleCrlf)
        case Some((headers, body)) =>
          match ParseHeaders(Split(headers, Crlf))
          case None => Failure(MalformedHeader)
          case Some(parsed) => Success(Request(requestLine, parsed, body))
  }

  /** The request line is everything before the first CRLF. */
  lemma FirstCrlf(line: string, rest: string)
    requires !Contains(line, Crlf)
    ensures SplitOnce(line + Crlf + rest, Crlf) == Some((line, rest))
  {
    var s := line + Crlf + rest;
    forall i: nat | i < |line| ensures !OccursAt(s, Crlf, i) {
      if i + 2 <= |line| {
        assert !OccursAt(line, Crlf, i);
        assert s[i..i + 2] == line[i..i + 2];
      } else {
        assert s[i + 1] == '\r';
        assert s[i..i + 2][1] == s[i + 1];
      }
    }
    SplitOnceAt(s, Crlf, line, rest);
  }

  /** The request line is split on single spaces: fewer than three pieces
      fail, otherwise method, target and version are pieces 0, 1 and 2 and
      any further pieces are dropped. */
  lemma RequestLineFields(line: string, rest: string)
    requires !Contains(line, Crlf)
    ensures var r := ParseRequest(line + Crlf + rest);
            var c := Split(line, " ");
            && (r == Failure(TooFewComponents) <==> |c| < 3)
            && (r.Success? ==> r.value.requestLine == RequestLine(c[0], c[1], c[2]))
  {
    FirstCrlf(line, rest);
  }

  /** After a well-formed request line, parsing fails for want of a blank
      line exactly when the rest holds no double CRLF. */
  lemma DoubleCrlfRequired(line: string, rest: string)
    requires !Contains(line, Crlf) && |Split(line, " ")| >= 3
    ensures ParseRequest(line + Crlf + rest) == Failure(NoDoubleCrlf) <==> !Contains(rest, DoubleCrlf)
  {
    FirstCrlf(line, rest);
  }

  /** The body is exactly the text after the first double CRLF, whatever it
      holds; the header block before it gives one header per CRLF-separated
      piece, in order, and a piece without a space fails the whole parse. */
  lemma HeadersAndBody(line: string, headers: string, body: string)
    requires !Contains(line, Crlf) && |Split(line, " ")| >= 3
    requires NoneBefore(headers + DoubleCrlf + body, DoubleCrlf, |headers|)
    ensures var r := ParseRequest(line + Crlf + headers + DoubleCrlf + body);
            var pieces := Split(headers, Crlf);
            && (r.Success? || r == Failure(MalformedHeader))
            && (r == Failure(MalformedHeader) <==> exists i :: 0 <= i < |pieces| && ' ' !in pieces[i])
            && (r.Success? ==> r.value.body == body && |r.value.headers| == |pieces|)
            && (r.Success? ==> forall i :: 0 <= i < |pieces| ==>
                  HeaderLine(r.value.headers[i]) == pieces[i] && ' ' !in r.value.headers[i].key)
  {
    ParseAfterRequestLine(line, headers, body);
  }

  /** What is left of `parse_request` once the request line and the first
      double CRLF are found: only the header lines can still fail. */
  lemma ParseAfterRequestLine(line: string, headers: string, body: string)
    requires !Contains(line, Crlf) && |Split(line, " ")| >= 3
    requires NoneBefore(headers + DoubleCrlf + body, DoubleCrlf, |headers|)
    ensures var c := Split(line, " ");
            ParseRequest(line + Crlf + headers + DoubleCrlf + body)
            == match ParseHeaders(Split(headers, Crlf))
               case None => Failure(MalformedHeader)
               case Some(parsed) => Success(Request(RequestLine(c[0], c[1], c[2]), parsed, body))
  {
    var rest := headers + DoubleCrlf + body;
    assert line + Crlf + headers + DoubleCrlf + body == line + Crlf + rest;
    FirstCrlf(line, rest);
    SplitOnceAt(rest, DoubleCrlf, headers, body);
  }

  /** A request with no header lines never parses: either no double CRLF
      follows, or the header block starts with an empty piece, which has no
      space. */
  lemma NoHeadersFails(line: string, body: string)
    requires !Contains(line, Crlf)
    ensures ParseRequest(line + DoubleCrlf + body).Failure?
  {
    var rest := Crlf + body;
    assert line + DoubleCrlf + body == line + Crlf + rest;
    FirstCrlf(line, rest);
    var parts := SplitOnce(rest, DoubleCrlf);
    if parts.Some? {
      var pieces := Split(parts.value.0, Crlf);
      EmptyFirstPiece(rest, parts.value.0, parts.value.1);
      assert ' ' !in pieces[0];
      assert ParseHeaders(pieces).None?;
    }
  }

  /** A header block cut from text that starts with a CRLF has an empty
      first piece. */
  lemma EmptyFirstPiece(rest: string, headers: string, body: string)
    requires |rest| >= 2 && rest[..2] == Crlf
    requires SplitOnce(rest, DoubleCrlf) == Some((headers, body))
    ensures Split(headers, Crlf)[0] == ""
  {
    assert rest[|headers|] == '\r' && rest[1] == '\n';
    assert |headers| != 1;
    if |headers| >= 2 {
      assert headers[..2] == rest[..2];
      assert headers == "" + Crlf + headers[2..];
      SplitOnceAt(headers, Crlf, "", headers[2..]);
    }
  }

  lemma ParseHeaderLines(hs: seq<Header>)
    requires forall i :: 0 <= i < |hs| ==> ' ' !in hs[i].key
    ensures ParseHeaders(HeaderLines(hs)) == Some(hs)
  {
    var lines := HeaderLines(hs);
    forall i | 0 <= i < |hs| ensures ParseHeader(lines[i]) == Some(hs[i]) {
      var h := hs[i];
      assert FreeOf(h.key, " ");
      FreeOfNoOccurrence(h.key, " " + h.value, " ");
      assert lines[i] == h.key + " " + h.value == h.key + (" " + h.value);
      SplitOnceAt(lines[i], " ", h.key, h.value);
    }
    var parsed := seq(|lines|, i requires 0 <= i < |lines| => ParseHeader(lines[i]).value);
    assert parsed == hs;
    assert ParseHeaders(lines) == Some(parsed);
  }

  /** No double CRLF starts inside a CRLF-joined block of non-empty lines
      free of CR and LF, whatever follows the block. */
  lemma {:induction false} NoDoubleCrlfInBlock(lines: seq<string>, tail: string)
    requires forall i :: 0 <= i < |lines| ==> |lines[i]| >= 1 && FreeOf(lines[i], Crlf)
    ensures NoneBefore(Join(lines, Crlf) + tail, DoubleCrlf, |Join(lines, Crlf)|)
  {
    if |lines| == 1 {
      FreeOfNoOccurrence(lines[0], tail, Crlf);
      NoDoubleCrlfFromCr(lines[0] + tail, |lines[0]|);
    } else if |lines| > 1 {
      var head, block := lines[0], Join(lines[1..], Crlf);
      assert Join(lines, Crlf) + tail == head + Crlf + (block + tail);
      NoDoubleCrlfInBlock(lines[1..], tail);
      assert lines[1] in lines[1..];
      assert lines[1][0] in lines[1];
      NoDoubleCrlfAcrossLine(head, block, tail);
    }
  }

  /** Prefixing a line free of CR and LF and a CRLF to a block that starts
      with neither CR nor LF, and holds no double CRLF, creates none. */
  lemma NoDoubleCrlfAcrossLine(head: string, block: string, tail: string)
    requires FreeOf(head, Crlf)
    requires |block| >= 1 && block[0] !in Crlf
    requires NoneBefore(block + tail, DoubleCrlf, |block|)
    ensures NoneBefore(head + Crlf + (block + tail), DoubleCrlf, |head| + 2 + |block|)
  {
    var s := head + Crlf + (block + tail);
    assert s == head + (Crlf + (block + tail));
    FreeOfNoOccurrence(head, Crlf + (block + tail), Crlf);
    NoDoubleCrlfFromCr(s, |head|);
    forall i: nat | i < |head| + 2 + |block| ensures !OccursAt(s, DoubleCrlf, i) {
      if i == |head| && i + 4 <= |s| {
        assert s[i + 2] == block[0];
        assert s[i..i + 4][2] == s[i + 2];
      } else if i == |head| + 1 && i + 4 <= |s| {
        assert s[i..i + 4][0] == s[i] == '\n';
      } else if i > |head| + 1 {
        var j: nat := i - |head| - 2;
        assert !OccursAt(block + tail, DoubleCrlf, j);
        if i + 4 <= |s| {
          assert s[i..i + 4] == (block + tail)[j..j + 4];
        }
      }
    }
  }

  /** An occurrence of a double CRLF (or of a CRLF) starts with a CR. */
  lemma NoDoubleCrlfFromCr(s: string, n: nat)
    requires NoneBefore(s, Crlf, n)
    ensures NoneBefore(s, DoubleCrlf, n)
  {
    forall i: nat | i < n ensures !OccursAt(s, DoubleCrlf, i) {
      assert !OccursAt(s, Crlf, i);
      if i + 4 <= |s| {
        assert s[i..i + 4][..2] == s[i..i + 2];
      }
    }
  }

  /** Construct-then-parse: rendering a well-formed request and parsing the
      text gives back exactly that request. */
  lemma RoundTrip(req: Request)
    requires WellFormed(req)
    ensures ParseRequest(FormatRequest(req)) == Success(req)
  {
    var rl := req.requestLine;
    var line := rl.httpMethod + " " + rl.target + " " + rl.version;
    var block := Join(HeaderLines(req.headers), Crlf);
    var rest := block + DoubleCrlf + req.body;
    assert FormatRequest(req) == line + Crlf + block + DoubleCrlf + req.body;
    assert line + Crlf + block + DoubleCrlf + req.body == line + Crlf + rest;
    RequestLineRoundTrip(rl);
    FirstCrlf(line, rest);
    HeaderBlockRoundTrip(req.headers, req.body);
  }

  /** A request line of three tokens splits back into them and holds no CRLF. */
  lemma RequestLineRoundTrip(rl: RequestLine)
    requires IsToken(rl.httpMethod) && IsToken(rl.target) && IsToken(rl.version)
    ensures var line := rl.httpMethod + " " + rl.target + " " + rl.version;
            && !Contains(line, Crlf)
            && Split(line, " ") == [rl.httpMethod, rl.target, rl.version]
  {
    var line := rl.httpMethod + " " + rl.target + " " + rl.version;
    assert FreeOf(rl.httpMethod, " ") && FreeOf(rl.target, " ") && FreeOf(rl.version, " ");
    JoinThree([rl.httpMethod, rl.target, rl.version], " ");
    SplitJoin([rl.httpMethod, rl.target, rl.version], " ");
    assert FreeOf(" ", Crlf);
    assert FreeOf(line, Crlf);
    FreeOfNoOccurrence(line, "", Crlf);
  }

  /** The rendered header block ends at the first double CRLF after it and
      parses back into the headers. */
  lemma HeaderBlockRoundTrip(headers: seq<Header>, body: string)
    requires |headers| >= 1
    requires forall i :: 0 <= i < |headers| ==> IsToken(headers[i].key) && FreeOf(headers[i].value, Crlf)
    ensures var block := Join(HeaderLines(headers), Crlf);
            && SplitOnce(block + DoubleCrlf + body, DoubleCrlf) == Some((block, body))
            && ParseHeaders(Split(block, Crlf)) == Some(headers)
  {
    var lines := HeaderLines(headers);
    var block := Join(lines, Crlf);
    forall i | 0 <= i < |lines| ensures |lines[i]| >= 1 && FreeOf(lines[i], Crlf) {
      assert FreeOf(headers[i].key, Crlf);
      assert lines[i] == headers[i].key + " " + headers[i].value;
    }
    NoDoubleCrlfInBlock(lines, DoubleCrlf + body);
    assert block + DoubleCrlf + body == block + (DoubleCrlf + body);
    SplitOnceAt(block + DoubleCrlf + body, DoubleCrlf, block, body);
    SplitJoin(lines, Crlf);
    assert forall i :: 0 <= i < |headers| ==> ' ' !in headers[i].key;
    ParseHeaderLines(headers);
  }

  /** Parse-then-construct: a parsed request whose request line has exactly
      three components renders back to the very text it was parsed from;
      only extra request-line components are lost by parsing. */
  lemma FormatInvertsParse(line: string, rest: string)
    requires !Contains(line, Crlf)
    ensures ParseRequest(line + Crlf + rest).Success? && |Split(line, " ")| == 3 ==>
              FormatRequest(ParseRequest(line + Crlf + rest).value) == line + Crlf + rest
  {
    var r := ParseRequest(line + Crlf + rest);
    if r.Success? && |Split(line, " ")| == 3 {
      DoubleCrlfRequired(line, rest);
      var parts := SplitOnce(rest, DoubleCrlf);
      var headers, body := parts.value.0, parts.value.1;
      assert rest == headers + DoubleCrlf + body;
      Regroup(line, Crlf, headers, DoubleCrlf, body);
      ParseAfterRequestLine(line, headers, body);
      FormatParsedParts(line, Split(line, " "), headers, Split(headers, Crlf), body, r.value);
    }
  }

  /** Rendering a request built from the three components of a request
      line, the headers parsed from the lines of a header block, and a body
      gives back the text they were cut from. */
  lemma FormatParsedParts(line: string, components: seq<string>, headers: string,
                          lines: seq<string>, body: string, req: Request)
    requires |components| == 3 && Join(components, " ") == line
    requires req.requestLine == RequestLine(components[0], components[1], components[2])
    requires Join(lines, Crlf) == headers
    requires ParseHeaders(lines) == Some(req.headers) && req.body == body
    ensures FormatRequest(req) == line + Crlf + headers + DoubleCrlf + body
  {
    JoinThree(components, " ");
    assert HeaderLines(req.headers) == lines;
  }
}

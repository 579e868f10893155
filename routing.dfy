/** What the server sends back for one connection's request text: the parsed
    target alone picks one of two fixed responses, and a request that does
    not parse gets no response at all. */
module Routing {
  import opened RustStr
  import opened Http

  const OkResponse: string := "HTTP/1.1 200 OK\r\n\r\n"
  const NotFoundResponse: string := "HTTP/1.1 404 Not Found\r\n\r\n"

  /** The route decision: the index page for "/", not found for anything
      else, including "" and "/x". */
  function Respond(target: string): (response: string)
    ensures response == OkResponse <==> target == "/"
    ensures response == NotFoundResponse <==> target != "/"
  {
    match target
    case "/" => OkResponse
    case _ => NotFoundResponse
  }

  /** The bytes written back for one request text, or `None` when parsing
      fails and nothing is written. Only the target is consulted: method,
      version, headers and body never change the response. */
  function Serve(raw: string): (written: Option<string>)
    ensures written.None? <==> ParseRequest(raw).Failure?
    ensures written.Some? ==>
              (written.value == OkResponse <==> ParseRequest(raw).value.requestLine.target == "/")
    ensures written.Some? ==>
              (written.value == NotFoundResponse <==> ParseRequest(raw).value.requestLine.target != "/")
  {
    match ParseRequest(raw)
    case Failure(_) => None
    case Success(request) => Some(Respond(request.requestLine.target))
  }

  /** Every well-formed request gets a response, chosen by its target. */
  lemma ServeWellFormed(req: Request)
    requires WellFormed(req)
    ensures Serve(FormatRequest(req))
            == Some(if req.requestLine.target == "/" then OkResponse else NotFoundResponse)
  {
    RoundTrip(req);
  }

  /** Two request texts that parse to the same target get the same response,
      whatever their methods, versions, headers and bodies. */
  lemma ServeOnlyReadsTarget(a: string, b: string)
    ensures (ParseRequest(a).Success? && ParseRequest(b).Success? &&
             ParseRequest(a).value.requestLine.target == ParseRequest(b).value.requestLine.target)
            ==> Serve(a) == Serve(b) && Serve(a).Some?
  {
  }

  /** A request line with fewer than three components gets nothing written. */
  lemma ServeShortRequestLine(line: string, rest: string)
    requires !Contains(line, Crlf) && |Split(line, " ")| < 3
    ensures Serve(line + Crlf + rest) == None
  {
    RequestLineFields(line, rest);
  }

  /** A request with no header lines gets nothing written, even a request
      for "/". */
  lemma ServeWithoutHeaders(line: string, body: string)
    requires !Contains(line, Crlf)
    ensures Serve(line + DoubleCrlf + body) == None
  {
    NoHeadersFails(line, body);
  }
}

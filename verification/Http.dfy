/** HTTP messages, and the transport as an oracle that may answer anything. */
module Http {
  import opened Bytes
  import opened Cookies

  datatype Verb = Get | Post

  type Headers = map<ByteString, ByteString>

  datatype Request = Request(verb: Verb, url: ByteString, headers: Headers, cookies: Jar, body: ByteString,
    timeoutSeconds: int)

  datatype Response = Response(statusCode: int, headers: Headers, cookies: Jar, body: ByteString, error: ByteString)

  datatype Exchange = Exchange(request: Request, response: Response)

  class HttpClient {
    /** Everything sent and received so far. */
    ghost var wire: seq<Exchange>

    method Send(request: Request) returns (response: Response)
      modifies this
      ensures wire == old(wire) + [Exchange(request, response)]
    {
      response := *;
      wire := wire + [Exchange(request, response)];
    }
  }
}

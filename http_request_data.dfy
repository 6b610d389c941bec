/**
 * HttpRequestData and the enums it holds: what the connection learns
 * about a request while parsing it.
 */
module HttpRequestData {
  import opened HttpHeaders

  /** HttpVersion */
  datatype HttpVersion = VersionNone | Http09 | Http10 | Http11

  /** HttpMethod */
  datatype HttpMethod = Get | Head | Post | Custom

  /** Which MessageBody the request got, and the length of a ContentLengthMessageBody. */
  datatype Body = NoBody | ZeroBody | ContentLengthBody(length: nat)

  class HttpRequestData {
    var httpMethod: HttpMethod
    var methodName: string
    var href: string
    var path: string
    var query: string
    var httpVersion: HttpVersion
    const headers: HttpHeaders
    var contentLength: nat
    var body: Body

    /**
     * The struct leaves its enum and integer members uninitialised; the
     * model starts the version at kNone, which is what the error responses
     * test for, and the others at fixed values.
     */
    constructor()
      ensures httpVersion == VersionNone && body == NoBody
      ensures fresh(headers) && headers.Valid() && headers.entries == []
    {
      httpMethod := Get;
      methodName := "";
      href := "";
      path := "";
      query := "";
      httpVersion := VersionNone;
      headers := new HttpHeaders();
      contentLength := 0;
      body := NoBody;
    }
  }
}

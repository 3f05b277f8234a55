/** The slice of the HTTP server's request and response objects that the
    transport helpers touch: request headers, and a response with a status
    code, a header map and the body written when it is ended. */
module Http {
  import opened Wrappers

  /** A server response that the helpers fill in place. */
  class Response {
    var statusCode: int
    var headers: map<string, string>
    var body: string
    var ended: bool

    /** A fresh response: status 200, no headers, nothing written. */
    constructor ()
      ensures statusCode == 200 && headers == map[] && body == "" && !ended
    {
      statusCode := 200;
      headers := map[];
      body := "";
      ended := false;
    }

    /** `putHeader(name, value)`: sets one header, replacing any earlier value. */
    method PutHeader(name: string, value: string)
      modifies this
      ensures headers == old(headers)[name := value]
      ensures statusCode == old(statusCode) && body == old(body) && ended == old(ended)
    {
      headers := headers[name := value];
    }

    /** `end(chunk)`: writes `chunk` as the last part of the body and ends the
        response; `end()` is `End("")`. */
    method End(chunk: string)
      modifies this
      ensures body == old(body) + chunk && ended
      ensures statusCode == old(statusCode) && headers == old(headers)
    {
      body := body + chunk;
      ended := true;
    }
  }

  /** A server request: its headers and the response that answers it. */
  class Request {
    const headers: map<string, string>
    const response: Response

    constructor (headers: map<string, string>, response: Response)
      ensures this.headers == headers && this.response == response
    {
      this.headers := headers;
      this.response := response;
    }

    /** `getHeader(name)`: the header's value, or None where Java returns null. */
    function GetHeader(name: string): Option<string> {
      if name in headers then Some(headers[name]) else None
    }
  }
}

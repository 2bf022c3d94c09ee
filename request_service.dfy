/**
 * The OkHttp-backed request service: turning an `HttpRequest` into an
 * OkHttp request (method/body dispatch, request-body media type), and
 * turning the exchange's outcome into an `HttpResponse`, including the
 * status-0 response synthesised when anything fails.
 */
module HttpRequestService {
  import opened Wrappers
  import opened HttpModels
  import ResponseHeaders
  import Text

  /** An OkHttp request body: its text and its media type, if it has one. */
  datatype RequestBody = RequestBody(content: string, mediaType: Option<string>)

  /** OkHttp's `EMPTY_REQUEST`: no bytes and no media type. */
  const EmptyRequest := RequestBody("", None)

  /** The built OkHttp request, as the transport receives it. */
  datatype WireRequest = WireRequest(
    url: string,
    methodName: string,
    body: Option<RequestBody>,
    headers: seq<(string, string)>)

  /** OkHttp's `HttpMethod.requiresRequestBody`. */
  predicate RequiresRequestBody(name: string) {
    name == "POST" || name == "PUT" || name == "PATCH" || name == "PROPPATCH" || name == "REPORT"
  }

  /** OkHttp's `HttpMethod.permitsRequestBody`. */
  predicate PermitsRequestBody(name: string) {
    name != "GET" && name != "HEAD"
  }

  /**
   * OkHttp's `Request.Builder`. `Method` carries OkHttp's own checks as
   * its precondition: a method that requires a body gets one, and GET and
   * HEAD get none.
   */
  class RequestBuilder {
    var url: Option<string>
    var methodName: string
    var body: Option<RequestBody>
    var headers: seq<(string, string)>

    constructor ()
      ensures url == None && methodName == "GET" && body == None && headers == []
    {
      url := None;
      methodName := "GET";
      body := None;
      headers := [];
    }

    method Url(u: string)
      modifies this
      ensures url == Some(u)
      ensures methodName == old(methodName) && body == old(body) && headers == old(headers)
    {
      url := Some(u);
    }

    /** `addHeader`: OkHttp's `Headers.Builder` stores the value trimmed. */
    method AddHeader(name: string, value: string)
      modifies this
      ensures headers == old(headers) + [(name, Text.Trim(value))]
      ensures url == old(url) && methodName == old(methodName) && body == old(body)
    {
      headers := headers + [(name, Text.Trim(value))];
    }

    method Method(name: string, b: Option<RequestBody>)
      requires name != ""
      requires b.None? ==> !RequiresRequestBody(name)
      requires b.Some? ==> PermitsRequestBody(name)
      modifies this
      ensures methodName == name && body == b
      ensures url == old(url) && headers == old(headers)
    {
      methodName := name;
      body := b;
    }

    method Get()
      modifies this
      ensures methodName == "GET" && body == None
      ensures url == old(url) && headers == old(headers)
    {
      Method("GET", None);
    }

    method Head()
      modifies this
      ensures methodName == "HEAD" && body == None
      ensures url == old(url) && headers == old(headers)
    {
      Method("HEAD", None);
    }

    method Post(b: RequestBody)
      modifies this
      ensures methodName == "POST" && body == Some(b)
      ensures url == old(url) && headers == old(headers)
    {
      Method("POST", Some(b));
    }

    method Put(b: RequestBody)
      modifies this
      ensures methodName == "PUT" && body == Some(b)
      ensures url == old(url) && headers == old(headers)
    {
      Method("PUT", Some(b));
    }

    method Patch(b: RequestBody)
      modifies this
      ensures methodName == "PATCH" && body == Some(b)
      ensures url == old(url) && headers == old(headers)
    {
      Method("PATCH", Some(b));
    }

    /** `delete(body)`; with no argument OkHttp sends `EMPTY_REQUEST`. */
    method Delete(b: Option<RequestBody> := Some(EmptyRequest))
      modifies this
      ensures methodName == "DELETE" && body == b
      ensures url == old(url) && headers == old(headers)
    {
      Method("DELETE", b);
    }

    method Build() returns (r: WireRequest)
      requires url.Some?
      ensures r == WireRequest(url.value, methodName, body, headers)
    {
      r := WireRequest(url.value, methodName, body, headers);
    }
  }

  /** The fallback media type of a request body. */
  const DefaultMediaType := "text/plain; charset=utf-8"

  /**
   * `contentType?.toMediaTypeOrNull() ?: "text/plain; charset=utf-8".toMediaTypeOrNull()`;
   * `parses` stands for OkHttp's media-type parser.
   */
  function MediaTypeFor(contentType: Option<string>, parses: string -> bool): (r: Option<string>)
    ensures r.Some? ==> parses(r.value)
    ensures r.Some? ==> r == contentType || r.value == DefaultMediaType
  {
    if contentType.Some? && parses(contentType.value) then contentType
    else if parses(DefaultMediaType) then Some(DefaultMediaType)
    else None
  }

  /** `createRequestBody`: the request text (empty when absent) with its media type. */
  function CreateRequestBody(request: HttpRequest, parses: string -> bool): RequestBody
  {
    RequestBody(request.body.GetOr(""), MediaTypeFor(request.contentType, parses))
  }

  /** The body each method is sent with. */
  function BodyFor(request: HttpRequest, parses: string -> bool): Option<RequestBody>
  {
    match request.httpMethod
    case GET => None
    case HEAD => None
    case OPTIONS => None
    case POST => Some(CreateRequestBody(request, parses))
    case PUT => Some(CreateRequestBody(request, parses))
    case PATCH => Some(CreateRequestBody(request, parses))
    case DELETE =>
      if request.body.Some? then Some(CreateRequestBody(request, parses)) else Some(EmptyRequest)
  }

  /** The headers as OkHttp stores them, each value trimmed, in the same order. */
  function TrimmedValues(headers: seq<(string, string)>): (r: seq<(string, string)>)
    ensures |r| == |headers|
    ensures forall k :: 0 <= k < |headers| ==> r[k].0 == headers[k].0 && r[k].1 == Text.Trim(headers[k].1)
  {
    if headers == [] then []
    else
      var n := |headers| - 1;
      TrimmedValues(headers[..n]) + [(headers[n].0, Text.Trim(headers[n].1))]
  }

  /** Headers whose values are already trimmed are stored as they are. */
  lemma TrimmedValuesUnchanged(headers: seq<(string, string)>)
    requires forall k :: 0 <= k < |headers| ==> Text.Trim(headers[k].1) == headers[k].1
    ensures TrimmedValues(headers) == headers
  {
  }

  /** The OkHttp request `buildOkHttpRequest` produces. */
  function WireRequestFor(request: HttpRequest, parses: string -> bool): WireRequest
  {
    WireRequest(request.url, request.httpMethod.Name(), BodyFor(request, parses), TrimmedValues(request.headers))
  }

  /**
   * `buildOkHttpRequest`: set the URL, add every header in map order, then
   * pick the method and body.
   */
  method BuildOkHttpRequest(request: HttpRequest, parses: string -> bool) returns (wire: WireRequest)
    ensures wire.url == request.url && wire.methodName == request.httpMethod.Name()
    ensures |wire.headers| == |request.headers|
    ensures forall k :: 0 <= k < |request.headers| ==>
              wire.headers[k] == (request.headers[k].0, Text.Trim(request.headers[k].1))
    ensures wire == WireRequestFor(request, parses)
  {
    var builder := new RequestBuilder();
    builder.Url(request.url);
    var i := 0;
    while i < |request.headers|
      invariant 0 <= i <= |request.headers|
      invariant builder.headers == TrimmedValues(request.headers[..i])
      invariant builder.url == Some(request.url)
    {
      builder.AddHeader(request.headers[i].0, request.headers[i].1);
      assert request.headers[..i + 1][..i] == request.headers[..i];
      i := i + 1;
    }
    assert request.headers[..i] == request.headers;
    match request.httpMethod {
      case GET => builder.Get();
      case POST => builder.Post(CreateRequestBody(request, parses));
      case PUT => builder.Put(CreateRequestBody(request, parses));
      case DELETE =>
        if request.body.Some? {
          builder.Delete(Some(CreateRequestBody(request, parses)));
        } else {
          builder.Delete();
        }
      case PATCH => builder.Patch(CreateRequestBody(request, parses));
      case HEAD => builder.Head();
      case OPTIONS => builder.Method("OPTIONS", None);
    }
    wire := builder.Build();
  }

  /** The method/body rules, one per method. */
  lemma BodyDispatch(request: HttpRequest, parses: string -> bool)
    ensures var b := WireRequestFor(request, parses).body;
            && (request.httpMethod in {GET, HEAD, OPTIONS} ==> b.None?)
            && (request.httpMethod in {POST, PUT, PATCH, DELETE} ==>
                  b.Some? && b.value.content == request.body.GetOr(""))
            && (request.httpMethod in {POST, PUT, PATCH} ==>
                  b.value.mediaType == MediaTypeFor(request.contentType, parses))
            && (request.httpMethod == DELETE ==>
                  b.value.mediaType == if request.body.Some? then MediaTypeFor(request.contentType, parses) else None)
  {
  }

  /** The body media type is the request's content type exactly when that one parses. */
  lemma MediaTypeChoice(contentType: Option<string>, parses: string -> bool)
    ensures contentType.Some? && parses(contentType.value) ==> MediaTypeFor(contentType, parses) == contentType
    ensures !(contentType.Some? && parses(contentType.value)) && parses(DefaultMediaType) ==>
              MediaTypeFor(contentType, parses) == Some(DefaultMediaType)
  {
  }

  /**
   * What the transport did with the request: a received response (code,
   * message, header multimap, body text if any) or a thrown exception
   * (its message, if any, and its stack trace text).
   */
  datatype Exchange =
    | Received(code: int, message: string, headers: seq<(string, string)>, body: Option<string>)
    | Failed(exceptionMessage: Option<string>, stackTrace: string)

  /** The `HttpResponse` built from an exchange; `duration` is the measured time. */
  function ResponseFor(outcome: Exchange, duration: int): (r: HttpResponse)
    ensures r.duration == duration
    ensures r.isSuccessful == IsSuccessStatus(r.statusCode)
  {
    match outcome
    case Received(code, message, headers, body) =>
      HttpResponse(code, message, ResponseHeaders.ToMultimap(headers), body.GetOr(""), duration, 200 <= code <= 299)
    case Failed(message, trace) =>
      HttpResponse(0, message.GetOr("Request failed"), [],
                   "Error: " + message.GetOr("null") + "\n\n" + trace, duration, false)
  }

  /** A failure yields status 0, no headers, a fallback message and an `Error: ` body. */
  lemma FailureResponse(message: Option<string>, trace: string, duration: int)
    ensures var r := ResponseFor(Failed(message, trace), duration);
            && r.statusCode == 0 && !r.isSuccessful && r.headers == []
            && r.statusMessage == (if message.Some? then message.value else "Request failed")
            && r.body[..7] == "Error: "
  {
  }

  /**
   * A received response keeps code and message, carries the received
   * headers as `toMultimap` groups them, and reads a missing body as "".
   */
  lemma ReceivedResponse(code: int, message: string, headers: seq<(string, string)>, body: Option<string>, duration: int)
    ensures var r := ResponseFor(Received(code, message, headers, body), duration);
            && r.statusCode == code && r.statusMessage == message
            && ResponseHeaders.WellFormed(r.headers)
            && (forall name :: ResponseHeaders.Values(r.headers, name) == ResponseHeaders.ValuesNamed(headers, name))
            && r.body == (if body.Some? then body.value else "")
            && r == NewResponse(code, message, r.headers, r.body, duration)
  {
    ResponseHeaders.ToMultimapSpec(headers);
  }

  /** `executeRequest`: build the OkHttp request, run it, and wrap the outcome. */
  method ExecuteRequest(request: HttpRequest, exchange: WireRequest -> Exchange,
                        parses: string -> bool, duration: int)
    returns (response: HttpResponse)
    ensures response == ResponseFor(exchange(WireRequestFor(request, parses)), duration)
    ensures response.isSuccessful == IsSuccessStatus(response.statusCode)
  {
    var wire := BuildOkHttpRequest(request, parses);
    response := ResponseFor(exchange(wire), duration);
  }
}

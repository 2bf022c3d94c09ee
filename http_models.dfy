/**
 * The value types exchanged between the tool-window panel and the HTTP
 * service: the request description, the response record with its derived
 * `isSuccessful` default, and the seven supported HTTP methods.
 */
module HttpModels {
  import opened Wrappers
  import LinkedMap

  /** The supported HTTP methods; `Name` is `toString()` (the constant's name). */
  datatype HttpMethod = GET | POST | PUT | DELETE | PATCH | HEAD | OPTIONS {
    function Name(): string {
      match this
      case GET => "GET"
      case POST => "POST"
      case PUT => "PUT"
      case DELETE => "DELETE"
      case PATCH => "PATCH"
      case HEAD => "HEAD"
      case OPTIONS => "OPTIONS"
    }
  }

  /** `HttpMethod.values()`, in declaration order. */
  const Methods: seq<HttpMethod> := [GET, POST, PUT, DELETE, PATCH, HEAD, OPTIONS]

  /** `HttpMethod.valueOf(name)`: the first constant with that name; `None` where Kotlin throws. */
  function ValueOf(name: string, candidates: seq<HttpMethod> := Methods): (r: Option<HttpMethod>)
    ensures r.Some? ==> r.value in candidates && r.value.Name() == name
    ensures r.None? ==> forall m :: m in candidates ==> m.Name() != name
  {
    if candidates == [] then None
    else if candidates[0].Name() == name then Some(candidates[0])
    else ValueOf(name, candidates[1..])
  }

  /** There are exactly seven methods, each listed once, with distinct names. */
  lemma MethodsEnumerated()
    ensures |Methods| == 7
    ensures forall m: HttpMethod :: m in Methods
    ensures forall i, j :: 0 <= i < j < |Methods| ==> Methods[i].Name() != Methods[j].Name()
  {
    forall m: HttpMethod ensures m in Methods {
      match m
      case GET => assert Methods[0] == m;
      case POST => assert Methods[1] == m;
      case PUT => assert Methods[2] == m;
      case DELETE => assert Methods[3] == m;
      case PATCH => assert Methods[4] == m;
      case HEAD => assert Methods[5] == m;
      case OPTIONS => assert Methods[6] == m;
    }
  }

  /** `valueOf(m.toString()) == m` for every method. */
  lemma ValueOfName(m: HttpMethod)
    ensures ValueOf(m.Name()) == Some(m)
  {
    var r := ValueOf(m.Name());
    assert r.Some? by { MethodsEnumerated(); }
    assert r.value.Name() == m.Name();
    NameInjective(r.value, m);
  }

  lemma NameInjective(m: HttpMethod, m': HttpMethod)
    requires m.Name() == m'.Name()
    ensures m == m'
  {
    assert m.Name()[..2] == m'.Name()[..2];
  }

  /**
   * Request headers: a `LinkedHashMap<String, String>` (see LinkedMap). As a
   * list of entries the type could repeat a key, which a Kotlin map cannot;
   * the requests the panel assembles never do (`RequestAssembly.AssembledHeaders`).
   */
  type Headers = LinkedMap.LinkedMap<string, string>

  /**
   * Response headers: the `Map<String, List<String>>` of `Headers.toMultimap()`,
   * one entry per lower-cased name in name order (see ResponseHeaders).
   */
  type HeaderMultimap = seq<(string, seq<string>)>

  /** An HTTP request to be executed (Kotlin's field `method` is `httpMethod`, `method` being a Dafny keyword). */
  datatype HttpRequest = HttpRequest(
    url: string,
    httpMethod: HttpMethod,
    headers: Headers,
    body: Option<string>,
    contentType: Option<string>)

  /** `HttpRequest(url, method)` with the default arguments. */
  function NewRequest(url: string, httpMethod: HttpMethod): (r: HttpRequest)
    ensures r.url == url && r.httpMethod == httpMethod
    ensures r.headers == [] && r.body == None && r.contentType == None
  {
    HttpRequest(url, httpMethod, [], None, None)
  }

  /** An HTTP response; `duration` is in milliseconds. */
  datatype HttpResponse = HttpResponse(
    statusCode: int,
    statusMessage: string,
    headers: HeaderMultimap,
    body: string,
    duration: int,
    isSuccessful: bool)

  /** The default of `isSuccessful`: `statusCode in 200..299`. */
  predicate IsSuccessStatus(code: int) {
    200 <= code <= 299
  }

  /** `HttpResponse(…)` built without an explicit `isSuccessful`. */
  function NewResponse(statusCode: int, statusMessage: string, headers: HeaderMultimap,
                       body: string, duration: int): (r: HttpResponse)
    ensures r.statusCode == statusCode && r.statusMessage == statusMessage
    ensures r.headers == headers && r.body == body && r.duration == duration
    ensures r.isSuccessful <==> 200 <= statusCode <= 299
  {
    HttpResponse(statusCode, statusMessage, headers, body, duration, IsSuccessStatus(statusCode))
  }

  /** The response of a failed exchange (status 0) never counts as successful. */
  lemma StatusZeroNotSuccessful(msg: string, headers: HeaderMultimap, body: string, duration: int)
    ensures !NewResponse(0, msg, headers, body, duration).isSuccessful
  {
  }

  /** Typical codes: 200, 201, 204 succeed; 400, 404, 500 do not. */
  lemma SuccessStatusExamples()
    ensures IsSuccessStatus(200) && IsSuccessStatus(201) && IsSuccessStatus(204)
    ensures !IsSuccessStatus(400) && !IsSuccessStatus(404) && !IsSuccessStatus(500)
  {
  }

  /**
   * `copy` agrees with construction: a request copied with another method is
   * the request built with that method, and a response copied with another
   * body is the response built with that body, its `isSuccessful` default
   * still following the status code.
   */
  lemma CopyAgreesWithConstruction(url: string, m: HttpMethod, m': HttpMethod,
                                   code: int, msg: string, headers: HeaderMultimap,
                                   body: string, body': string, duration: int)
    ensures NewRequest(url, m).(httpMethod := m') == NewRequest(url, m')
    ensures NewResponse(code, msg, headers, body, duration).(body := body')
            == NewResponse(code, msg, headers, body', duration)
  {
  }
}

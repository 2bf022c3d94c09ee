# Amateur-Postman request cycle, modelled in Dafny

Amateur-Postman is an IntelliJ tool-window plug-in for composing HTTP
requests. This project models the plug-in's request cycle. When the user
presses Send, the panel (`PostmanToolWindowPanel.sendRequest`):

- checks the URL;
- collects the headers table;
- adds an `Authorization` header for Basic or Bearer auth;
- URL-encodes the params table onto the URL;
- picks content type and body.

The OkHttp-backed service (`HttpRequestServiceImpl`) then turns the
`HttpRequest` into an OkHttp request (method and body dispatch, body media
type), runs it, and wraps the outcome in an `HttpResponse`. If anything
fails, that is a status-0 error response. Finally the panel shows the
response: `displayResponse`, `formatResponseBody` and `formatJson`.

Modules, one per concern:

- `HttpModels`: the value types of `models/HttpModels.kt`.
- `RequestAssembly`: the assembly block of `sendRequest`.
- `HttpRequestService`: `buildOkHttpRequest`, `createRequestBody` and `executeRequest`. OkHttp's `Request.Builder` is a class whose methods update its fields.
- `ResponseHeaders`: OkHttp's `Headers.toMultimap`, the shape of every received response's headers.
- `ResponseView`: the status label text and the response-area text.
- `Panel`: the `PostmanPanel` class. Its two widget texts (status label, response area) are fields that `SendRequest` updates.
- Library behaviour the plug-in relies on, each with a round-trip or characterising lemma:
  - `Text`: Kotlin `trim`, `isBlank`, `contains(ignoreCase = true)`, `joinToString`;
  - `Utf8`: `String.toByteArray()`, UTF-8 as in RFC 3629;
  - `Base64`: `java.util.Base64`, section 4 of RFC 4648;
  - `FormEncoding`: `URLEncoder.encode(…, UTF_8)`, `application/x-www-form-urlencoded` as in section 17.13.4.1 of HTML 4.01;
  - `LinkedMap`: the insertion-ordered `mutableMapOf`;
  - `Decimal`: printing integers in string templates.

Three things the code does not decide are parameters:

- `exchange`: the network exchange, including OkHttp's own URL and header validation. These throw inside the same `try`, so their effect is a `Failed` outcome.
- `parses`: OkHttp's media-type parser (`toMediaTypeOrNull`).
- `pretty`: Gson's pretty-printer. It gives `None` where Gson throws.

The measured duration and the exception's stack-trace text are inputs too.

Three behaviours of the code that follow from the library it calls:

- **Bodiless DELETE.** A DELETE request without a body calls OkHttp's `delete()`, whose default argument is `EMPTY_REQUEST`, so a zero-length body with no media type is sent (`HttpRequestService.BodyFor`, `HttpRequestService.RequestBuilder.Delete`).
- **Reading the response content type.** The panel reads `headers["Content-Type"]` on the map that `toMultimap()` returns. That map's names are lower-cased, and it is a `TreeMap` ordered by `CASE_INSENSITIVE_ORDER`, so the lookup ignores case and finds the `content-type` entry (`ResponseHeaders.Get`, `ResponseView.ContentTypeOf`). The header section of the response area therefore shows lower-cased names, sorted by name.
- **Header values are trimmed.** OkHttp's `addHeader` stores each value trimmed (`HttpRequestService.RequestBuilder.AddHeader`). The panel's header values are trimmed already, so the headers it assembles are sent unchanged (`Panel.AssembledHeadersSentAsIs`).

## Model

| member | source | states |
|---|---|---|
| HttpModels.ValueOf | src/main/kotlin/com/github/dhzhu/amateurpostman/models/HttpModels.kt:23-33 | `valueOf` finds a constant with the given name among the candidates, and gives `None` only when no candidate has that name |
| HttpModels.MethodsEnumerated | src/main/kotlin/com/github/dhzhu/amateurpostman/models/HttpModels.kt:23-31 | there are exactly seven methods; every method is listed and their names are pairwise distinct |
| HttpModels.ValueOfName | src/main/kotlin/com/github/dhzhu/amateurpostman/models/HttpModels.kt:32 | `toString()` is the constant's name: `valueOf(m.toString())` gives back `m` for every method |
| HttpModels.NewRequest | src/main/kotlin/com/github/dhzhu/amateurpostman/models/HttpModels.kt:4-10 | a request built from URL and method alone has no headers, no body and no content type |
| HttpModels.NewResponse | src/main/kotlin/com/github/dhzhu/amateurpostman/models/HttpModels.kt:13-20 | a response keeps its given fields, and `isSuccessful` defaults to true exactly when the status is in 200..299 |
| HttpModels.StatusZeroNotSuccessful | src/main/kotlin/com/github/dhzhu/amateurpostman/models/HttpModels.kt:19 | status 0 is never successful |
| HttpModels.SuccessStatusExamples | src/test/kotlin/com/github/dhzhu/amateurpostman/models/HttpModelsTest.kt:92-125 | the codes the tests use: 200, 201 and 204 are successful; 400, 404 and 500 are not |
| HttpModels.CopyAgreesWithConstruction | src/test/kotlin/com/github/dhzhu/amateurpostman/models/HttpModelsTest.kt:176-202 | a request copied with another method is the request built with that method; a response copied with another body is the response built with that body, so its `isSuccessful` still follows the status code |
| Text.TrimEmptyIffBlank | src/main/kotlin/com/github/dhzhu/amateurpostman/ui/PostmanToolWindowPanel.kt:259 | `trim().isEmpty()` holds exactly when the text is blank (only whitespace), which is the test applied to the body at line 330 |
| Text.TrimIsInfix | src/main/kotlin/com/github/dhzhu/amateurpostman/ui/PostmanToolWindowPanel.kt:272-273 | `trim()` removes only whitespace, from both ends, and keeps the rest in place: the result neither starts nor ends with whitespace |
| Text.TrimIdempotent | src/main/kotlin/com/github/dhzhu/amateurpostman/ui/PostmanToolWindowPanel.kt:302 | trimming twice is trimming once |
| Text.SplitJoin | src/main/kotlin/com/github/dhzhu/amateurpostman/ui/PostmanToolWindowPanel.kt:317 | parts that hold no separator are recovered by splitting what `joinToString` made of them |
| Text.ContainsIgnoreCaseSpec | src/main/kotlin/com/github/dhzhu/amateurpostman/ui/PostmanToolWindowPanel.kt:369 | `contains(…, ignoreCase = true)` holds exactly when the needle matches, character by folded character, at some offset |
| Utf8.DecodeEncode | src/main/kotlin/com/github/dhzhu/amateurpostman/ui/PostmanToolWindowPanel.kt:289 | the UTF-8 bytes of `credentials.toByteArray()` decode back to the credentials |
| Utf8.EncodeInjective | src/main/kotlin/com/github/dhzhu/amateurpostman/ui/PostmanToolWindowPanel.kt:289 | different texts have different UTF-8 bytes |
| Base64.Encode | src/main/kotlin/com/github/dhzhu/amateurpostman/ui/PostmanToolWindowPanel.kt:287-289 | the encoding has four symbols per started group of three bytes |
| Base64.EncodeAlphabet | src/main/kotlin/com/github/dhzhu/amateurpostman/ui/PostmanToolWindowPanel.kt:287-289 | every symbol of the encoding is from the Base64 alphabet or is `=` padding |
| Base64.DecodeEncode | src/main/kotlin/com/github/dhzhu/amateurpostman/ui/PostmanToolWindowPanel.kt:287-289 | the Base64 text decodes back to the encoded bytes |
| FormEncoding.DecodeEncode | src/main/kotlin/com/github/dhzhu/amateurpostman/ui/PostmanToolWindowPanel.kt:308-310 | a `URLEncoder`-encoded key or value decodes back to the original text |
| FormEncoding.EncodeInjective | src/main/kotlin/com/github/dhzhu/amateurpostman/ui/PostmanToolWindowPanel.kt:308-310 | distinct keys or values are encoded differently |
| FormEncoding.EncodeHasNoSeparators | src/main/kotlin/com/github/dhzhu/amateurpostman/ui/PostmanToolWindowPanel.kt:308-311 | an encoded key or value never holds `&`, `=`, space, `?` or `#`, so it cannot break the query string |
| FormEncoding.EncodeAlphabet | src/main/kotlin/com/github/dhzhu/amateurpostman/ui/PostmanToolWindowPanel.kt:308-310 | the encoding holds only unreserved characters, `+` and `%` |
| LinkedMap.PutGet | src/main/kotlin/com/github/dhzhu/amateurpostman/ui/PostmanToolWindowPanel.kt:275 | after `headers[key] = value` the key maps to the value and every other key to what it mapped to before |
| LinkedMap.PutOrder | src/main/kotlin/com/github/dhzhu/amateurpostman/ui/PostmanToolWindowPanel.kt:270-276 | reassigning a key keeps the entries in place; a new key is appended at the end |
| LinkedMap.PutNoDupKeys | src/main/kotlin/com/github/dhzhu/amateurpostman/ui/PostmanToolWindowPanel.kt:270-276 | the map never holds a key twice |
| RequestAssembly.CollectHeaderRows | src/main/kotlin/com/github/dhzhu/amateurpostman/ui/PostmanToolWindowPanel.kt:270-277 | the header loop builds exactly the map `CollectHeaders` describes for the table's rows |
| RequestAssembly.CollectHeadersLastWins | src/main/kotlin/com/github/dhzhu/amateurpostman/ui/PostmanToolWindowPanel.kt:270-277 | the collected headers hold `k: v` exactly when the last used row with trimmed key `k` has trimmed value `v`; a row is used when both trimmed cells are non-empty |
| RequestAssembly.CollectHeadersOnlyRowKeys | src/main/kotlin/com/github/dhzhu/amateurpostman/ui/PostmanToolWindowPanel.kt:270-277 | a key no used row carries is absent from the collected headers |
| RequestAssembly.CollectHeadersNoDupKeys | src/main/kotlin/com/github/dhzhu/amateurpostman/ui/PostmanToolWindowPanel.kt:270-277 | the collected headers never hold a key twice |
| RequestAssembly.CollectedValuesTrimmed | src/main/kotlin/com/github/dhzhu/amateurpostman/ui/PostmanToolWindowPanel.kt:270-277 | every collected header value is already trimmed |
| RequestAssembly.AuthorizationOverrides | src/main/kotlin/com/github/dhzhu/amateurpostman/ui/PostmanToolWindowPanel.kt:280-299 | the auth step (`WithAuthorization`, with the value `AuthorizationFor` synthesises): a synthesised `Authorization` value replaces one typed in the headers table; without one the typed value stays; no other header changes |
| RequestAssembly.BasicCredentialsRoundTrip | src/main/kotlin/com/github/dhzhu/amateurpostman/ui/PostmanToolWindowPanel.kt:282-292 | Basic auth adds a header exactly when the trimmed username or password is non-empty; its value is `Basic ` and Base64 that decodes to the UTF-8 bytes of `username:password` |
| RequestAssembly.BasicAuthExample | src/test/kotlin/com/github/dhzhu/amateurpostman/services/HttpRequestServiceImplTest.kt:253-262 | the panel's Basic auth for user `user` and password `pass` is the header the test builds by hand from `user:pass`, namely `Basic dXNlcjpwYXNz` |
| RequestAssembly.BearerTokenValue | src/main/kotlin/com/github/dhzhu/amateurpostman/ui/PostmanToolWindowPanel.kt:293-298 | Bearer auth (`AuthorizationFor`) adds `Bearer <trimmed token>` exactly when the trimmed token is non-empty |
| RequestAssembly.AuthorizationTrimmed | src/main/kotlin/com/github/dhzhu/amateurpostman/ui/PostmanToolWindowPanel.kt:280-299 | a synthesised `Authorization` value neither starts nor ends with whitespace |
| RequestAssembly.AssembledHeaders | src/main/kotlin/com/github/dhzhu/amateurpostman/ui/PostmanToolWindowPanel.kt:270-299 | the headers the panel assembles hold no key twice, as a Kotlin map cannot, and every value is already trimmed |
| RequestAssembly.QueryRoundTrip | src/main/kotlin/com/github/dhzhu/amateurpostman/ui/PostmanToolWindowPanel.kt:302-318 | the URL after the params step (`AppendQuery` of the encoded pairs): without used param rows it is the trimmed input. Otherwise the input is followed by `&` if it already holds `?` (else by `?`), then by a query that reads back to the used rows' trimmed keys and values, in row order |
| RequestAssembly.ParamsCount | src/main/kotlin/com/github/dhzhu/amateurpostman/ui/PostmanToolWindowPanel.kt:304-313 | one encoded pair is added per row with a non-empty trimmed key |
| RequestAssembly.EncodeParamRows | src/main/kotlin/com/github/dhzhu/amateurpostman/ui/PostmanToolWindowPanel.kt:303-313 | the parameter loop builds exactly the `key=value` pairs `EncodedParams` describes for the table's rows |
| RequestAssembly.EncodedParamsFree | src/main/kotlin/com/github/dhzhu/amateurpostman/ui/PostmanToolWindowPanel.kt:308-311 | no encoded pair holds the `&` that joins the pairs |
| RequestAssembly.AssembleRequest | src/main/kotlin/com/github/dhzhu/amateurpostman/ui/PostmanToolWindowPanel.kt:269-333 | the two loops and the auth step build the request described by `RequestFor`. The content type (`ContentTypeFor`) is always set: the `Content-Type` header, else `application/json`. The body is absent exactly when the body text is blank |
| HttpRequestService.RequestBuilder.constructor | src/main/kotlin/com/github/dhzhu/amateurpostman/services/HttpRequestServiceImpl.kt:75 | a new builder has no URL, no headers, method GET and no body |
| HttpRequestService.RequestBuilder.Url | src/main/kotlin/com/github/dhzhu/amateurpostman/services/HttpRequestServiceImpl.kt:75 | sets the URL and changes nothing else |
| HttpRequestService.RequestBuilder.AddHeader | src/main/kotlin/com/github/dhzhu/amateurpostman/services/HttpRequestServiceImpl.kt:78 | appends one header line whose value is trimmed, as OkHttp's `Headers.Builder` stores it, and changes nothing else |
| HttpRequestService.RequestBuilder.Method | src/main/kotlin/com/github/dhzhu/amateurpostman/services/HttpRequestServiceImpl.kt:104 | sets method and body, under OkHttp's own rules: POST, PUT and PATCH need a body, and GET and HEAD may not have one |
| HttpRequestService.RequestBuilder.Get | src/main/kotlin/com/github/dhzhu/amateurpostman/services/HttpRequestServiceImpl.kt:82 | GET with no body |
| HttpRequestService.RequestBuilder.Post | src/main/kotlin/com/github/dhzhu/amateurpostman/services/HttpRequestServiceImpl.kt:83-86 | POST with the given body |
| HttpRequestService.RequestBuilder.Put | src/main/kotlin/com/github/dhzhu/amateurpostman/services/HttpRequestServiceImpl.kt:87-90 | PUT with the given body |
| HttpRequestService.RequestBuilder.Delete | src/main/kotlin/com/github/dhzhu/amateurpostman/services/HttpRequestServiceImpl.kt:91-98 | DELETE with the given body, `EMPTY_REQUEST` when none is given |
| HttpRequestService.RequestBuilder.Patch | src/main/kotlin/com/github/dhzhu/amateurpostman/services/HttpRequestServiceImpl.kt:99-102 | PATCH with the given body |
| HttpRequestService.RequestBuilder.Head | src/main/kotlin/com/github/dhzhu/amateurpostman/services/HttpRequestServiceImpl.kt:103 | HEAD with no body |
| HttpRequestService.RequestBuilder.Build | src/main/kotlin/com/github/dhzhu/amateurpostman/services/HttpRequestServiceImpl.kt:107 | the built request carries the builder's URL, method, body and headers |
| HttpRequestService.MediaTypeFor | src/main/kotlin/com/github/dhzhu/amateurpostman/services/HttpRequestServiceImpl.kt:112-114 | the chosen media type always parses, and it is either the request's content type or `text/plain; charset=utf-8` |
| HttpRequestService.MediaTypeChoice | src/main/kotlin/com/github/dhzhu/amateurpostman/services/HttpRequestServiceImpl.kt:112-114 | the request's content type is used exactly when it parses; otherwise the fallback is used, when that parses |
| HttpRequestService.BodyDispatch | src/main/kotlin/com/github/dhzhu/amateurpostman/services/HttpRequestServiceImpl.kt:81-116 | GET, HEAD and OPTIONS send no body. POST, PUT and PATCH always send the request body text (empty when absent) with the chosen media type. DELETE sends that body only when the request has one, otherwise an empty body with no media type |
| HttpRequestService.BuildOkHttpRequest | src/main/kotlin/com/github/dhzhu/amateurpostman/services/HttpRequestServiceImpl.kt:74-108 | the OkHttp request (`WireRequestFor`) has the request's URL, every header in map order with its value trimmed, the method's name, and the body `BodyDispatch` describes |
| HttpRequestService.TrimmedValues | src/main/kotlin/com/github/dhzhu/amateurpostman/services/HttpRequestServiceImpl.kt:78 | the headers OkHttp stores: same names in the same order, each value trimmed |
| HttpRequestService.ResponseFor | src/main/kotlin/com/github/dhzhu/amateurpostman/services/HttpRequestServiceImpl.kt:39-71 | every response carries the measured duration, and `isSuccessful` agrees with the 200..299 rule |
| HttpRequestService.FailureResponse | src/main/kotlin/com/github/dhzhu/amateurpostman/services/HttpRequestServiceImpl.kt:58-70 | a failure gives status 0, not successful, no headers, the exception message or `Request failed` as message, and a body starting `Error: ` |
| HttpRequestService.ReceivedResponse | src/main/kotlin/com/github/dhzhu/amateurpostman/services/HttpRequestServiceImpl.kt:41-57 | a received response keeps code and message. Its headers are a well-formed multimap holding, under each lower-cased name, every received value in order. A missing body reads as "". The response equals the one built with the default `isSuccessful` |
| HttpRequestService.ExecuteRequest | src/main/kotlin/com/github/dhzhu/amateurpostman/services/HttpRequestServiceImpl.kt:33-72 | the response is built from the exchange of exactly the OkHttp request `buildOkHttpRequest` makes, and its `isSuccessful` follows the status |
| ResponseHeaders.ToMultimapSpec | src/main/kotlin/com/github/dhzhu/amateurpostman/services/HttpRequestServiceImpl.kt:49 | `toMultimap()`: the names are the lower-cased received names, sorted, each once with a non-empty group. Each group holds exactly the values received under that name in any capitalisation, in received order |
| ResponseHeaders.ReceivedLookup | src/main/kotlin/com/github/dhzhu/amateurpostman/services/HttpRequestServiceImpl.kt:49 | looking a name up in the multimap ignores case. It finds nothing exactly when no received name matches; otherwise it finds all values received under that name, in order |
| ResponseHeaders.MergedGroupExample | src/main/kotlin/com/github/dhzhu/amateurpostman/services/HttpRequestServiceImpl.kt:49 | `Set-Cookie: a=1` and `set-cookie: b=2` become the one entry `set-cookie: [a=1, b=2]` |
| ResponseView.FormatResponseBodyCases | src/main/kotlin/com/github/dhzhu/amateurpostman/ui/PostmanToolWindowPanel.kt:367-388 | `formatResponseBody` with `formatJson` (`FormatJson`): the body is replaced by its pretty-printed form exactly when the content type contains `application/json`, ignoring case, and the pretty-printer accepts the body; otherwise it is shown unchanged |
| ResponseView.JsonContentTypes | src/main/kotlin/com/github/dhzhu/amateurpostman/ui/PostmanToolWindowPanel.kt:369 | `application/json`, alone or followed by any parameters, is JSON |
| ResponseView.JsonContentTypeCapitals | src/main/kotlin/com/github/dhzhu/amateurpostman/ui/PostmanToolWindowPanel.kt:369 | `Application/JSON` is JSON |
| ResponseView.NonJsonContentTypes | src/main/kotlin/com/github/dhzhu/amateurpostman/ui/PostmanToolWindowPanel.kt:368-377 | `text/plain`, `application/xml` and the empty content type of a response without one are not JSON |
| ResponseView.ReceivedContentType | src/main/kotlin/com/github/dhzhu/amateurpostman/ui/PostmanToolWindowPanel.kt:368 | the content type read from a received response is the first value received under any capitalisation of `Content-Type`, or "" when none was received |
| ResponseView.HeaderLinesMembers | src/main/kotlin/com/github/dhzhu/amateurpostman/ui/PostmanToolWindowPanel.kt:357-359 | a line is in the header section exactly when it is `name: value` for some header and one of its values |
| ResponseView.ReceivedHeaderShown | src/main/kotlin/com/github/dhzhu/amateurpostman/ui/PostmanToolWindowPanel.kt:357-359 | every received header value is shown, as the lower-cased name, `: ` and the value |
| ResponseView.ResponseTextLayout | src/main/kotlin/com/github/dhzhu/amateurpostman/ui/PostmanToolWindowPanel.kt:352-363 | when neither the status message nor a header line holds a line break, the text's lines are, in order: the status line, the duration line, a blank line, `=== Headers ===`, one line per header value, a blank line, `=== Body ===`, the formatted body's lines, and nothing after the final line break |
| ResponseView.AppendValueLines | src/main/kotlin/com/github/dhzhu/amateurpostman/ui/PostmanToolWindowPanel.kt:358 | one `appendLine` per value of a header appends exactly that header's `name: value` lines |
| ResponseView.RenderResponse | src/main/kotlin/com/github/dhzhu/amateurpostman/ui/PostmanToolWindowPanel.kt:352-363 | the `buildString` loops, one `appendLine` per header value, produce exactly the text whose layout `ResponseTextLayout` describes |
| Decimal.ParseFromInt | src/main/kotlin/com/github/dhzhu/amateurpostman/ui/PostmanToolWindowPanel.kt:350 | a status code or duration printed in a string template reads back to the same number |
| Decimal.FromIntAlphabet | src/main/kotlin/com/github/dhzhu/amateurpostman/ui/PostmanToolWindowPanel.kt:353-354 | a printed number is digits with at most a leading minus sign, so it never breaks a line |
| Panel.FailedExchangeDisplay | src/main/kotlin/com/github/dhzhu/amateurpostman/services/HttpRequestServiceImpl.kt:58-70 | after a failure the panel shows `HTTP 0 <message>` and `Status: 0 <message> \| Time: <duration>ms`, an empty header section, and the `Error: …` text unformatted as the body |
| Panel.PostmanPanel.constructor | src/main/kotlin/com/github/dhzhu/amateurpostman/ui/PostmanToolWindowPanel.kt:42 | a new panel's status reads `Ready` and its response area is empty |
| Panel.PostmanPanel.BeginSend | src/main/kotlin/com/github/dhzhu/amateurpostman/ui/PostmanToolWindowPanel.kt:257-265 | the request goes ahead exactly when the URL is not blank. If it is blank, the status shows the error and the response area is left alone. Otherwise the status reads `Sending request...` and the area is cleared |
| Panel.PostmanPanel.DisplayResponse | src/main/kotlin/com/github/dhzhu/amateurpostman/ui/PostmanToolWindowPanel.kt:348-365 | the status label shows `StatusText` (code, message and time); the response area shows the rendered response, whose first line is `StatusLine` |
| Panel.PostmanPanel.SendRequest | src/main/kotlin/com/github/dhzhu/amateurpostman/ui/PostmanToolWindowPanel.kt:257-346 | a blank URL leaves only the error in the status label. Any other URL ends with the label and area showing the response the service built for the request assembled from the form (`ResponseForForm`) |
| Panel.AssembledHeadersSentAsIs | src/main/kotlin/com/github/dhzhu/amateurpostman/services/HttpRequestServiceImpl.kt:78 | the headers the panel assembles reach OkHttp unchanged: OkHttp's trimming of header values finds nothing to trim |

## Left out

- The Swing layout, the table row add/remove handlers, the method combo box and `dispose` are UI plumbing; the model starts from what the widgets hold when Send is pressed (`RequestAssembly.RequestForm`).
- The coroutine scope and dispatchers are not modelled. `Panel.PostmanPanel.SendRequest` runs the request cycle to completion in one step; the intermediate `Sending request...` state is visible only through `BeginSend`.
- `Panel.PostmanPanel.SendRequest`: the outer `catch` of `sendRequest` (lines 340-344) is not modelled. In the model nothing between URL check and display can throw: the service turns every failure into a status-0 response.
- OkHttp's client configuration (timeouts, redirects), the network, and OkHttp's validation of URL and header names and values are folded into the `exchange` parameter. A request OkHttp rejects is an exchange that returns `Failed`.
- `HttpRequestService.RequestBuilder.Url`: stores the URL text as given. OkHttp's `url(String)` rewrites `ws:`/`wss:` to `http:`/`https:`, then parses and canonicalises the URL; that happens inside `exchange`, and a URL it rejects is a `Failed` exchange.
- Logging and the clock are left out. The measured duration is a parameter, and so is the exception's stack-trace text.
- `HttpRequestService.CreateRequestBody`: `toRequestBody` adds `; charset=utf-8` to a media type that names no charset, and turns the text into bytes. The model keeps the text and the chosen media type.
- `HttpRequestService.MediaTypeFor`: OkHttp's media-type parser is the parameter `parses`, and Gson's pretty-printer is the parameter `pretty`. What either of them accepts or produces is not modelled.
- `ResponseHeaders.Lower`: lower-cases ASCII letters only. `lowercase(Locale.US)` also maps non-ASCII capitals, which HTTP header names do not contain.
- `Text.FoldCase`: covers ASCII and the four non-ASCII characters that case-fold onto ASCII letters, not all of Unicode. This is exact for the ASCII needle `application/json`.
- `Utf8.Encode`: Dafny strings hold Unicode scalar values, so the unpaired surrogates that a Kotlin string may hold (and `toByteArray` replaces with `?`) are not modelled.
- Integer widths: the 32-bit `Int` status code and the 64-bit `Long` duration are unbounded integers; no overflow is modelled.
- `src/main/kotlin/com/github/dhzhu/amateurpostman/services/HttpRequestService.kt` (the interface) and `PostmanToolWindowFactory.kt` are not part of this model.

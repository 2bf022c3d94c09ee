/**
 * How the panel shows a response: the status label, and the text of the
 * response area, with its status line, duration, one line per header
 * value and the body, pretty-printed when the response says it is JSON.
 */
module ResponseView {
  import opened Wrappers
  import opened Text
  import opened HttpModels
  import Decimal
  import ResponseHeaders

  /** `headers["Content-Type"]?.firstOrNull() ?: ""`. */
  function ContentTypeOf(headers: HeaderMultimap): string {
    match ResponseHeaders.Get(headers, "Content-Type")
    case Some(values) => if values != [] then values[0] else ""
    case None => ""
  }

  /** The content type names JSON: it contains `application/json`, ignoring case. */
  predicate IsJson(contentType: string) {
    ContainsIgnoreCase(contentType, "application/json")
  }

  /**
   * `formatJson`: Gson's pretty-printer is the parameter `pretty`, which
   * gives `None` where Gson throws (the text is not JSON); the text is
   * then returned as it is.
   */
  function FormatJson(json: string, pretty: string -> Option<string>): string {
    pretty(json).GetOr(json)
  }

  /** `formatResponseBody`: pretty-print a JSON body, leave any other body alone. */
  function FormatResponseBody(body: string, headers: HeaderMultimap, pretty: string -> Option<string>): string {
    if IsJson(ContentTypeOf(headers)) then FormatJson(body, pretty) else body
  }

  /**
   * The body is replaced exactly when the content type mentions
   * `application/json` at some offset, ignoring case, and the
   * pretty-printer accepts it; otherwise it is shown unchanged.
   */
  lemma FormatResponseBodyCases(body: string, headers: HeaderMultimap, pretty: string -> Option<string>)
    ensures var json := exists at :: MatchesAt(ContentTypeOf(headers), "application/json", at);
            FormatResponseBody(body, headers, pretty)
              == if json && pretty(body).Some? then pretty(body).value else body
  {
    ContainsIgnoreCaseSpec(ContentTypeOf(headers), "application/json");
  }

  /** A content type holding `application/json` verbatim is JSON. */
  lemma {:induction false} JsonAt(contentType: string, at: nat)
    requires at + 16 <= |contentType| && contentType[at..at + 16] == "application/json"
    ensures IsJson(contentType)
  {
    var needle := "application/json";
    forall k | 0 <= k < |needle| ensures FoldCase(contentType[at + k]) == FoldCase(needle[k]) {
      assert contentType[at + k] == contentType[at..at + 16][k];
    }
    assert MatchesAt(contentType, needle, at);
    ContainsIgnoreCaseSpec(contentType, needle);
  }

  /** The JSON media type, alone or followed by parameters, counts as JSON. */
  lemma JsonContentTypes(parameters: string)
    ensures IsJson("application/json")
    ensures IsJson("application/json" + parameters)
  {
    JsonAt("application/json", 0);
    var contentType := "application/json" + parameters;
    assert contentType[0..16] == "application/json";
    JsonAt(contentType, 0);
  }

  /** Capitals do not matter. */
  lemma JsonContentTypeCapitals()
    ensures IsJson("Application/JSON")
  {
    var hay, needle := "Application/JSON", "application/json";
    forall k | 0 <= k < 16 ensures FoldCase(hay[k]) == FoldCase(needle[k]) {
    }
    assert MatchesAt(hay, needle, 0);
    ContainsIgnoreCaseSpec(hay, needle);
  }

  /** Other media types, and a response with no Content-Type at all, are not JSON. */
  lemma NonJsonContentTypes()
    ensures !IsJson("text/plain")
    ensures !IsJson("")
    ensures !IsJson("application/xml")
  {
    var needle := "application/json";
    ContainsIgnoreCaseSpec("text/plain", needle);
    ContainsIgnoreCaseSpec("", needle);
    ContainsIgnoreCaseSpec("application/xml", needle);
  }

  /**
   * The content type the view reads from a received response is the first
   * value that arrived under any capitalisation of `Content-Type`, or ""
   * when none arrived.
   */
  lemma ReceivedContentType(raw: seq<(string, string)>)
    ensures var values := ResponseHeaders.ValuesNamed(raw, "content-type");
            ContentTypeOf(ResponseHeaders.ToMultimap(raw)) == if values != [] then values[0] else ""
  {
    var key := "Content-Type";
    assert ResponseHeaders.Lower(key) == "content-type";
    ResponseHeaders.ReceivedLookup(raw, key);
    if ResponseHeaders.Get(ResponseHeaders.ToMultimap(raw), key).None? {
      ResponseHeaders.ValuesNamedNone(raw, "content-type");
    }
  }

  /** One line per value of a header: `name: value`. */
  function ValueLines(name: string, values: seq<string>): seq<string> {
    seq(|values|, j requires 0 <= j < |values| => name + ": " + values[j])
  }

  /** The header section: each header's lines, in the map's order. */
  function HeaderLines(headers: HeaderMultimap): seq<string> {
    if headers == [] then []
    else
      var n := |headers| - 1;
      HeaderLines(headers[..n]) + ValueLines(headers[n].0, headers[n].1)
  }

  /** A line is in the header section exactly when it is `name: value` for a stored value. */
  lemma {:induction false} HeaderLinesMembers(headers: HeaderMultimap, line: string)
    ensures line in HeaderLines(headers) <==>
            exists i, j :: 0 <= i < |headers| && 0 <= j < |headers[i].1| && line == headers[i].0 + ": " + headers[i].1[j]
  {
    if headers != [] {
      var n := |headers| - 1;
      var prefix := headers[..n];
      HeaderLinesMembers(prefix, line);
      var own := ValueLines(headers[n].0, headers[n].1);
      if line in own {
        var j :| 0 <= j < |own| && own[j] == line;
        assert 0 <= n < |headers| && 0 <= j < |headers[n].1| && line == headers[n].0 + ": " + headers[n].1[j];
      }
      if line in HeaderLines(prefix) {
        var i, j :| 0 <= i < |prefix| && 0 <= j < |prefix[i].1| && line == prefix[i].0 + ": " + prefix[i].1[j];
        assert prefix[i] == headers[i];
      }
      if exists i, j :: 0 <= i < |headers| && 0 <= j < |headers[i].1| && line == headers[i].0 + ": " + headers[i].1[j] {
        var i, j :| 0 <= i < |headers| && 0 <= j < |headers[i].1| && line == headers[i].0 + ": " + headers[i].1[j];
        if i == n {
          assert own[j] == line;
        } else {
          assert prefix[i] == headers[i];
        }
      }
    }
  }

  /** Every header received with a response is shown, as its lower-cased name, `: ` and its value. */
  lemma ReceivedHeaderShown(raw: seq<(string, string)>, i: int)
    requires 0 <= i < |raw|
    ensures ResponseHeaders.Lower(raw[i].0) + ": " + raw[i].1 in HeaderLines(ResponseHeaders.ToMultimap(raw))
  {
    var m := ResponseHeaders.ToMultimap(raw);
    var name := ResponseHeaders.Lower(raw[i].0);
    ResponseHeaders.ToMultimapSpec(raw);
    ResponseHeaders.ValuesNamedHas(raw, i);
    var values := ResponseHeaders.Values(m, name);
    ResponseHeaders.ValuesFromGroup(m, name);
    var k :| 0 <= k < |m| && m[k].0 == name && m[k].1 == values;
    var j :| 0 <= j < |values| && values[j] == raw[i].1;
    HeaderLinesMembers(m, name + ": " + raw[i].1);
  }

  /** `appendLine` for each line: every line ends with a line break. */
  function Unlines(lines: seq<string>): string {
    if lines == [] then "" else lines[0] + "\n" + Unlines(lines[1..])
  }

  lemma {:induction false} UnlinesSnoc(lines: seq<string>, line: string)
    ensures Unlines(lines + [line]) == Unlines(lines) + line + "\n"
  {
    if lines != [] {
      assert (lines + [line])[1..] == lines[1..] + [line];
      UnlinesSnoc(lines[1..], line);
    }
  }

  /** `HTTP <code> <message>`. */
  function StatusLine(response: HttpResponse): string {
    "HTTP " + Decimal.FromInt(response.statusCode) + " " + response.statusMessage
  }

  function DurationLine(response: HttpResponse): string {
    "Duration: " + Decimal.FromInt(response.duration) + "ms"
  }

  /** The lines before the header section. */
  function Preamble(response: HttpResponse): seq<string> {
    [StatusLine(response), DurationLine(response), "", "=== Headers ==="]
  }

  /** The lines of the response area: preamble, headers, body heading and the formatted body. */
  function ResponseLines(response: HttpResponse, pretty: string -> Option<string>): seq<string> {
    Preamble(response) + HeaderLines(response.headers)
      + ["", "=== Body ===", FormatResponseBody(response.body, response.headers, pretty)]
  }

  /** The text `displayResponse` puts in the response area. */
  function ResponseText(response: HttpResponse, pretty: string -> Option<string>): string {
    Unlines(ResponseLines(response, pretty))
  }

  /** The text `displayResponse` puts in the status label. */
  function StatusText(response: HttpResponse): string {
    "Status: " + Decimal.FromInt(response.statusCode) + " " + response.statusMessage
      + " | Time: " + Decimal.FromInt(response.duration) + "ms"
  }

  /** A line with no line break, a line break and a tail split into the line and the tail's lines. */
  lemma SplitLine(line: string, tail: string)
    requires '\n' !in line
    ensures Split(line + "\n" + tail, '\n') == [line] + Split(tail, '\n')
  {
    SplitAround(line, tail, '\n');
    IndexOfSpec(line, '\n');
  }

  /** Reading back lines that hold no line break, then whatever follows them. */
  lemma {:induction false} SplitUnlines(lines: seq<string>, rest: string)
    requires Free(lines, '\n')
    ensures Split(Unlines(lines) + rest, '\n') == lines + Split(rest, '\n')
  {
    if lines == [] {
      assert Unlines(lines) + rest == rest;
    } else {
      assert Free(lines[1..], '\n') by {
        forall k | 0 <= k < |lines| - 1 ensures '\n' !in lines[1..][k] {
          assert lines[1..][k] == lines[k + 1];
        }
      }
      SplitUnlines(lines[1..], rest);
      SplitUnlinesCons(lines, rest);
    }
  }

  /** One step of `SplitUnlines`: the first line, then the others. */
  lemma SplitUnlinesCons(lines: seq<string>, rest: string)
    requires lines != [] && '\n' !in lines[0]
    requires Split(Unlines(lines[1..]) + rest, '\n') == lines[1..] + Split(rest, '\n')
    ensures Split(Unlines(lines) + rest, '\n') == lines + Split(rest, '\n')
  {
    var first, others, u := lines[0], lines[1..], Unlines(lines[1..]);
    assert Unlines(lines) == first + "\n" + u;
    AppendAssoc(first + "\n", u, rest);
    SplitLine(first, u + rest);
    var after := Split(rest, '\n');
    assert Split(Unlines(lines) + rest, '\n') == [first] + (others + after);
    assert lines == [first] + others;
    AppendAssoc([first], others, after);
  }

  /**
   * The layout of the response area: when the status message and the
   * header lines hold no line break (as HTTP guarantees), splitting the
   * text at line breaks gives the status line, the duration line, a blank
   * line, the headers heading, one line per header value, a blank line,
   * the body heading, the lines of the formatted body, and the empty
   * remainder after the final line break.
   */
  lemma ResponseTextLayout(response: HttpResponse, pretty: string -> Option<string>)
    requires '\n' !in response.statusMessage
    requires Free(HeaderLines(response.headers), '\n')
    ensures Split(ResponseText(response, pretty), '\n')
            == Preamble(response) + HeaderLines(response.headers) + ["", "=== Body ==="]
               + Split(FormatResponseBody(response.body, response.headers, pretty), '\n') + [""]
  {
    var body := FormatResponseBody(response.body, response.headers, pretty);
    var head := Preamble(response) + HeaderLines(response.headers) + ["", "=== Body ==="];
    assert ResponseLines(response, pretty) == head + [body];
    UnlinesAppend(head, [body]);
    assert Unlines([body]) == body + "\n";
    PreambleFree(response);
    FreeAppend(Preamble(response), HeaderLines(response.headers), '\n');
    FreeAppend(Preamble(response) + HeaderLines(response.headers), ["", "=== Body ==="], '\n');
    SplitUnlines(head, body + "\n");
    SplitAround(body, "", '\n');
    assert body + "\n" == body + ['\n'] + "";
    assert Split("", '\n') == [""];
    AppendAssoc(head, Split(body, '\n'), [""]);
  }

  /** The preamble holds no line break when the status message holds none. */
  lemma PreambleFree(response: HttpResponse)
    requires '\n' !in response.statusMessage
    ensures Free(Preamble(response), '\n')
  {
    Decimal.FromIntAlphabet(response.statusCode);
    Decimal.FromIntAlphabet(response.duration);
  }

  /** The lines of two parts, one after the other. */
  lemma {:induction false} UnlinesAppend(a: seq<string>, b: seq<string>)
    ensures Unlines(a + b) == Unlines(a) + Unlines(b)
  {
    if a != [] {
      var ab := a + b;
      assert ab[0] == a[0] && ab[1..] == a[1..] + b;
      UnlinesAppend(a[1..], b);
      assert Unlines(ab) == a[0] + "\n" + (Unlines(a[1..]) + Unlines(b));
      assert Unlines(a) == a[0] + "\n" + Unlines(a[1..]);
      AppendAssoc(a[0] + "\n", Unlines(a[1..]), Unlines(b));
    } else {
      assert a + b == b;
    }
  }

  /** The section of one more header is its value lines, after the section so far. */
  lemma HeaderLinesStep(headers: HeaderMultimap, i: nat)
    requires i < |headers|
    ensures HeaderLines(headers[..i + 1]) == HeaderLines(headers[..i]) + ValueLines(headers[i].0, headers[i].1)
  {
    assert headers[..i + 1][..i] == headers[..i];
  }

  /** One `appendLine` per value of a header, after `text`. */
  method AppendValueLines(text: string, name: string, values: seq<string>) returns (out: string)
    ensures out == text + Unlines(ValueLines(name, values))
  {
    out := text;
    var j := 0;
    while j < |values|
      invariant 0 <= j <= |values|
      invariant out == text + Unlines(ValueLines(name, values[..j]))
    {
      var line := name + ": " + values[j];
      assert ValueLines(name, values[..j + 1]) == ValueLines(name, values[..j]) + [line];
      UnlinesSnoc(ValueLines(name, values[..j]), line);
      AppendAssoc(text, Unlines(ValueLines(name, values[..j])), line + "\n");
      out := out + (line + "\n");
      j := j + 1;
    }
    assert values[..j] == values;
  }

  /** The closing lines: a blank line, the body heading and the body. */
  lemma BodySection(body: string)
    ensures Unlines(["", "=== Body ===", body]) == "\n=== Body ===\n" + body + "\n"
  {
    assert Unlines([body]) == body + "\n";
    assert ["", "=== Body ===", body][1..] == ["=== Body ===", body];
    assert ["=== Body ===", body][1..] == [body];
  }

  /**
   * `displayResponse`'s text, built as `buildString` does, with one
   * `appendLine` per header value.
   */
  method RenderResponse(response: HttpResponse, pretty: string -> Option<string>) returns (text: string)
    ensures text == ResponseText(response, pretty)
  {
    ghost var lines := Preamble(response);
    text := Unlines(Preamble(response));
    var headers := response.headers;
    var i := 0;
    while i < |headers|
      invariant 0 <= i <= |headers|
      invariant lines == Preamble(response) + HeaderLines(headers[..i])
      invariant text == Unlines(lines)
    {
      ghost var own := ValueLines(headers[i].0, headers[i].1);
      text := AppendValueLines(text, headers[i].0, headers[i].1);
      UnlinesAppend(lines, own);
      HeaderLinesStep(headers, i);
      AppendAssoc(Preamble(response), HeaderLines(headers[..i]), own);
      lines := lines + own;
      i := i + 1;
    }
    assert headers[..i] == headers;
    var body := FormatResponseBody(response.body, response.headers, pretty);
    text := text + "\n=== Body ===\n" + body + "\n";
    BodySection(body);
    UnlinesAppend(lines, ["", "=== Body ===", body]);
  }
}

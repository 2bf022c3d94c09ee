/**
 * The tool-window panel's request cycle: the Send action validates the
 * URL, announces the request, assembles it from the form, has the service
 * execute it, and shows the response in the status label and the
 * response area.
 */
module Panel {
  import opened Wrappers
  import opened Text
  import opened HttpModels
  import RequestAssembly
  import HttpRequestService
  import ResponseView
  import Decimal

  /** The response the service hands back for a form, given the transport's outcome. */
  function ResponseForForm(form: RequestAssembly.RequestForm, exchange: HttpRequestService.WireRequest -> HttpRequestService.Exchange,
                           parses: string -> bool, duration: int): HttpResponse
  {
    var request := RequestAssembly.RequestFor(form);
    HttpRequestService.ResponseFor(exchange(HttpRequestService.WireRequestFor(request, parses)), duration)
  }

  /**
   * OkHttp trims every header value it stores; the headers the panel
   * assembles are already trimmed, so they go out exactly as assembled.
   */
  lemma AssembledHeadersSentAsIs(form: RequestAssembly.RequestForm, parses: string -> bool)
    ensures var request := RequestAssembly.RequestFor(form);
            HttpRequestService.WireRequestFor(request, parses).headers == request.headers
  {
    RequestAssembly.AssembledHeaders(form);
    HttpRequestService.TrimmedValuesUnchanged(RequestAssembly.RequestFor(form).headers);
  }

  /**
   * A failed exchange is shown as status 0 with the exception's message
   * (or "Request failed"), an empty header section, and the error text as
   * the body, never pretty-printed.
   */
  lemma FailedExchangeDisplay(message: Option<string>, trace: string, duration: int, pretty: string -> Option<string>)
    ensures var r := HttpRequestService.ResponseFor(HttpRequestService.Failed(message, trace), duration);
            && r.statusMessage == message.GetOr("Request failed")
            && ResponseView.StatusLine(r) == "HTTP 0 " + r.statusMessage
            && ResponseView.StatusText(r) == "Status: 0 " + r.statusMessage + " | Time: " + Decimal.FromInt(duration) + "ms"
            && ResponseView.HeaderLines(r.headers) == []
            && ResponseView.ResponseLines(r, pretty)
               == ResponseView.Preamble(r) + ["", "=== Body ===", "Error: " + message.GetOr("null") + "\n\n" + trace]
  {
    var r := HttpRequestService.ResponseFor(HttpRequestService.Failed(message, trace), duration);
    HttpRequestService.FailureResponse(message, trace, duration);
    assert Decimal.FromInt(0) == "0";
    assert "HTTP " + "0" + " " == "HTTP 0 ";
    assert "Status: " + "0" + " " == "Status: 0 ";
    assert ResponseView.ContentTypeOf([]) == "";
    ResponseView.NonJsonContentTypes();
    assert ResponseView.FormatResponseBody(r.body, [], pretty) == r.body;
  }

  /** The two widgets the request cycle writes to. */
  class PostmanPanel {
    var statusLabel: string
    var responseArea: string

    /** A fresh panel reads "Ready" and shows no response. */
    constructor ()
      ensures statusLabel == "Ready" && responseArea == ""
    {
      statusLabel := "Ready";
      responseArea := "";
    }

    /**
     * The part of `sendRequest` that runs before the coroutine starts:
     * a blank URL is refused with an error in the status label (the
     * response area keeps what it showed); otherwise the label announces
     * the request and the response area is cleared.
     */
    method BeginSend(urlText: string) returns (proceed: bool)
      modifies this
      ensures proceed <==> !IsBlank(urlText)
      ensures !proceed ==> statusLabel == "Error: URL cannot be empty" && responseArea == old(responseArea)
      ensures proceed ==> statusLabel == "Sending request..." && responseArea == ""
    {
      TrimEmptyIffBlank(urlText);
      if Trim(urlText) == "" {
        statusLabel := "Error: URL cannot be empty";
        return false;
      }
      statusLabel := "Sending request...";
      responseArea := "";
      return true;
    }

    /** `displayResponse`: the status summary in the label, the rendered response in the area. */
    method DisplayResponse(response: HttpResponse, pretty: string -> Option<string>)
      modifies this
      ensures statusLabel == ResponseView.StatusText(response)
      ensures responseArea == ResponseView.ResponseText(response, pretty)
    {
      statusLabel := "Status: " + Decimal.FromInt(response.statusCode) + " " + response.statusMessage
        + " | Time: " + Decimal.FromInt(response.duration) + "ms";
      var text := ResponseView.RenderResponse(response, pretty);
      responseArea := text;
    }

    /**
     * `sendRequest` run to completion: a blank URL leaves only the error
     * in the label; any other URL ends with the response the service built
     * for the assembled request on display.
     */
    method SendRequest(form: RequestAssembly.RequestForm,
                       exchange: HttpRequestService.WireRequest -> HttpRequestService.Exchange,
                       parses: string -> bool, pretty: string -> Option<string>, duration: int)
      modifies this
      ensures IsBlank(form.urlText) ==>
                statusLabel == "Error: URL cannot be empty" && responseArea == old(responseArea)
      ensures !IsBlank(form.urlText) ==>
                var response := ResponseForForm(form, exchange, parses, duration);
                statusLabel == ResponseView.StatusText(response)
                && responseArea == ResponseView.ResponseText(response, pretty)
    {
      var proceed := BeginSend(form.urlText);
      if !proceed {
        return;
      }
      var request := RequestAssembly.AssembleRequest(form);
      var response := HttpRequestService.ExecuteRequest(request, exchange, parses, duration);
      DisplayResponse(response, pretty);
    }
  }
}

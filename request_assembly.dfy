/**
 * Request assembly in the tool-window panel: reading the headers and params
 * tables, synthesising the `Authorization` header, appending the encoded
 * query string to the URL, and choosing content type and body.
 */
module RequestAssembly {
  import opened Wrappers
  import opened Text
  import LinkedMap
  import Utf8
  import Base64
  import FormEncoding
  import opened HttpModels

  /** One table row: the key cell and the value cell, either of which may be null. */
  datatype Row = Row(key: Option<string>, value: Option<string>)

  /**
   * `cell?.toString()?.trim()`, with null read as "": both tests the panel
   * applies (`isNullOrEmpty()` on keys and values, `value ?: ""` on params)
   * treat a null cell and an empty one alike.
   */
  function Trimmed(cell: Option<string>): string {
    match cell
    case None => ""
    case Some(s) => Trim(s)
  }

  /** A header row is used when its trimmed key and trimmed value are both non-empty. */
  predicate IsHeaderRow(r: Row) {
    Trimmed(r.key) != "" && Trimmed(r.value) != ""
  }

  /** The headers map after the collection loop. */
  function CollectHeaders(rows: seq<Row>): Headers
  {
    if rows == [] then []
    else
      var prev := CollectHeaders(rows[..|rows| - 1]);
      var r := rows[|rows| - 1];
      if IsHeaderRow(r) then LinkedMap.Put(prev, Trimmed(r.key), Trimmed(r.value)) else prev
  }

  /** Row `i` is a used header row and no later used row has the same key. */
  ghost predicate IsLastHeaderRow(rows: seq<Row>, i: int) {
    && 0 <= i < |rows| && IsHeaderRow(rows[i])
    && forall j :: i < j < |rows| && IsHeaderRow(rows[j]) ==> Trimmed(rows[j].key) != Trimmed(rows[i].key)
  }

  /** One step of the collection loop, seen through `Get`. */
  lemma CollectHeadersStep(rows: seq<Row>, k: string)
    requires rows != []
    ensures var last := rows[|rows| - 1];
            LinkedMap.Get(CollectHeaders(rows), k) ==
              if IsHeaderRow(last) && Trimmed(last.key) == k then Some(Trimmed(last.value))
              else LinkedMap.Get(CollectHeaders(rows[..|rows| - 1]), k)
  {
    var last := rows[|rows| - 1];
    if IsHeaderRow(last) {
      LinkedMap.PutGet(CollectHeaders(rows[..|rows| - 1]), Trimmed(last.key), Trimmed(last.value));
    }
  }

  /** When the last row does not use key `k`, the last row for `k` is the same with or without it. */
  lemma LastHeaderRowPrefix(rows: seq<Row>, k: string, i: int)
    requires rows != [] && 0 <= i < |rows| - 1 && Trimmed(rows[i].key) == k
    requires var last := rows[|rows| - 1]; !(IsHeaderRow(last) && Trimmed(last.key) == k)
    ensures IsLastHeaderRow(rows, i) <==> IsLastHeaderRow(rows[..|rows| - 1], i)
  {
    var n := |rows| - 1;
    var prefix := rows[..n];
    assert rows[i] == prefix[i];
    if IsLastHeaderRow(prefix, i) {
      forall j | i < j < |rows| && IsHeaderRow(rows[j])
        ensures Trimmed(rows[j].key) != k
      {
        if j < n {
          assert rows[j] == prefix[j];
        }
      }
    }
    if IsLastHeaderRow(rows, i) {
      forall j | i < j < n && IsHeaderRow(prefix[j])
        ensures Trimmed(prefix[j].key) != k
      {
        assert rows[j] == prefix[j];
      }
    }
  }

  /** The row for `k` that holds the collected value: `v` is its trimmed value. */
  ghost predicate HoldsHeader(rows: seq<Row>, k: string, v: string) {
    exists i :: IsLastHeaderRow(rows, i) && Trimmed(rows[i].key) == k && Trimmed(rows[i].value) == v
  }

  /** When the last row uses key `k`, it is the only last row for `k`. */
  lemma HoldsHeaderLastRow(rows: seq<Row>, k: string, v: string)
    requires rows != []
    requires var last := rows[|rows| - 1]; IsHeaderRow(last) && Trimmed(last.key) == k
    ensures HoldsHeader(rows, k, v) <==> Trimmed(rows[|rows| - 1].value) == v
  {
    var n := |rows| - 1;
    if Trimmed(rows[n].value) == v {
      assert IsLastHeaderRow(rows, n);
    }
    if HoldsHeader(rows, k, v) {
      var i :| IsLastHeaderRow(rows, i) && Trimmed(rows[i].key) == k && Trimmed(rows[i].value) == v;
      assert i == n;
    }
  }

  /** When the last row does not use key `k`, it does not change which row holds `k`. */
  lemma HoldsHeaderOtherRow(rows: seq<Row>, k: string, v: string)
    requires rows != []
    requires var last := rows[|rows| - 1]; !(IsHeaderRow(last) && Trimmed(last.key) == k)
    ensures HoldsHeader(rows, k, v) <==> HoldsHeader(rows[..|rows| - 1], k, v)
  {
    var prefix := rows[..|rows| - 1];
    if HoldsHeader(rows, k, v) {
      var i :| IsLastHeaderRow(rows, i) && Trimmed(rows[i].key) == k && Trimmed(rows[i].value) == v;
      LastHeaderRowPrefix(rows, k, i);
      assert prefix[i] == rows[i];
    }
    if HoldsHeader(prefix, k, v) {
      var i :| IsLastHeaderRow(prefix, i) && Trimmed(prefix[i].key) == k && Trimmed(prefix[i].value) == v;
      assert prefix[i] == rows[i];
      LastHeaderRowPrefix(rows, k, i);
    }
  }

  /**
   * The collected map holds `k: v` exactly when some used row has trimmed
   * key `k` and trimmed value `v` and no later used row repeats `k`.
   */
  lemma {:induction false} CollectHeadersLastWins(rows: seq<Row>, k: string, v: string)
    ensures LinkedMap.Get(CollectHeaders(rows), k) == Some(v) <==> HoldsHeader(rows, k, v)
  {
    if rows != [] {
      var last := rows[|rows| - 1];
      CollectHeadersStep(rows, k);
      if IsHeaderRow(last) && Trimmed(last.key) == k {
        HoldsHeaderLastRow(rows, k, v);
      } else {
        CollectHeadersLastWins(rows[..|rows| - 1], k, v);
        HoldsHeaderOtherRow(rows, k, v);
      }
    }
  }

  /** A key absent from every used row is absent from the collected map. */
  lemma {:induction false} CollectHeadersOnlyRowKeys(rows: seq<Row>, k: string)
    requires forall i :: 0 <= i < |rows| && IsHeaderRow(rows[i]) ==> Trimmed(rows[i].key) != k
    ensures LinkedMap.Get(CollectHeaders(rows), k) == None
  {
    if rows != [] {
      var n := |rows| - 1;
      var prefix := rows[..n];
      CollectHeadersOnlyRowKeys(prefix, k);
      CollectHeadersStep(rows, k);
    }
  }

  /** The collected map never holds a key twice. */
  lemma {:induction false} CollectHeadersNoDupKeys(rows: seq<Row>)
    ensures LinkedMap.NoDupKeys(CollectHeaders(rows))
  {
    if rows != [] {
      var n := |rows| - 1;
      CollectHeadersNoDupKeys(rows[..n]);
      if IsHeaderRow(rows[n]) {
        LinkedMap.PutNoDupKeys(CollectHeaders(rows[..n]), Trimmed(rows[n].key), Trimmed(rows[n].value));
      }
    }
  }

  /** The three entries of the authorisation type combo box. */
  datatype AuthType = NoAuth | BasicAuth | BearerToken

  /** The selected authorisation type and the text of the three credential fields. */
  datatype AuthFields = AuthFields(authType: AuthType, username: string, password: string, token: string)

  /** The `Authorization` value the panel synthesises, if any. */
  function AuthorizationFor(auth: AuthFields): Option<string>
  {
    match auth.authType
    case NoAuth => None
    case BasicAuth =>
      var user, pass := Trim(auth.username), Trim(auth.password);
      if user != "" || pass != "" then Some("Basic " + Base64.Encode(Utf8.Encode(user + ":" + pass)))
      else None
    case BearerToken =>
      var token := Trim(auth.token);
      if token != "" then Some("Bearer " + token) else None
  }

  /** The headers after the auth step: `headers["Authorization"] = …` when a value was synthesised. */
  function WithAuthorization(headers: Headers, auth: AuthFields): Headers
  {
    match AuthorizationFor(auth)
    case None => headers
    case Some(v) => LinkedMap.Put(headers, "Authorization", v)
  }

  /**
   * A synthesised `Authorization` value replaces any collected one; without
   * one the collected value stays. No other header changes.
   */
  lemma AuthorizationOverrides(headers: Headers, auth: AuthFields)
    ensures LinkedMap.Get(WithAuthorization(headers, auth), "Authorization") ==
            if AuthorizationFor(auth).Some? then AuthorizationFor(auth) else LinkedMap.Get(headers, "Authorization")
    ensures forall k :: k != "Authorization" ==>
              LinkedMap.Get(WithAuthorization(headers, auth), k) == LinkedMap.Get(headers, k)
  {
    if AuthorizationFor(auth).Some? {
      LinkedMap.PutGet(headers, "Authorization", AuthorizationFor(auth).value);
    }
  }

  /**
   * Basic auth: a value exists exactly when the trimmed username or password
   * is non-empty, and its payload decodes back to `username:password`.
   */
  lemma BasicCredentialsRoundTrip(auth: AuthFields)
    requires auth.authType == BasicAuth
    ensures var user, pass := Trim(auth.username), Trim(auth.password);
            && (AuthorizationFor(auth).Some? <==> user != "" || pass != "")
            && (AuthorizationFor(auth).Some? ==>
                  var v := AuthorizationFor(auth).value;
                  && |v| >= 6 && v[..6] == "Basic "
                  && Base64.Decode(v[6..]) == Some(Utf8.Encode(user + ":" + pass))
                  && Utf8.Decode(Utf8.Encode(user + ":" + pass)) == Some(user + ":" + pass))
  {
    var user, pass := Trim(auth.username), Trim(auth.password);
    if user != "" || pass != "" {
      var bytes := Utf8.Encode(user + ":" + pass);
      var e := Base64.Encode(bytes);
      var v := AuthorizationFor(auth).value;
      assert v == "Basic " + e;
      assert v[..6] == "Basic " && v[6..] == e;
      Base64.DecodeEncode(bytes);
      Utf8.DecodeEncode(user + ":" + pass);
    }
  }

  lemma UserPassBytes()
    ensures Utf8.Encode("user:pass") == [117, 115, 101, 114, 58, 112, 97, 115, 115]
  {
    Utf8.EncodeAscii("user:pass");
  }

  /** The three groups of `user:pass`, one Base64 group each. */
  lemma EncodeUse(rest: seq<Utf8.byte>)
    ensures Base64.Encode([117, 115, 101] + rest) == "dXNl" + Base64.Encode(rest)
  {
    Base64.EncodeFullGroup(117, 115, 101, rest);
    assert 117 / 4 == 29 && 117 % 4 * 16 + 115 / 16 == 23 && 115 % 16 * 4 + 101 / 64 == 13 && 101 % 64 == 37;
    assert [Base64.Sym(29), Base64.Sym(23), Base64.Sym(13), Base64.Sym(37)] == "dXNl";
  }

  lemma EncodeRColonP(rest: seq<Utf8.byte>)
    ensures Base64.Encode([114, 58, 112] + rest) == "cjpw" + Base64.Encode(rest)
  {
    Base64.EncodeFullGroup(114, 58, 112, rest);
    assert 114 / 4 == 28 && 114 % 4 * 16 + 58 / 16 == 35 && 58 % 16 * 4 + 112 / 64 == 41 && 112 % 64 == 48;
    assert [Base64.Sym(28), Base64.Sym(35), Base64.Sym(41), Base64.Sym(48)] == "cjpw";
  }

  lemma EncodeAss(rest: seq<Utf8.byte>)
    ensures Base64.Encode([97, 115, 115] + rest) == "YXNz" + Base64.Encode(rest)
  {
    Base64.EncodeFullGroup(97, 115, 115, rest);
    assert 97 / 4 == 24 && 97 % 4 * 16 + 115 / 16 == 23 && 115 % 16 * 4 + 115 / 64 == 13 && 115 % 64 == 51;
    assert [Base64.Sym(24), Base64.Sym(23), Base64.Sym(13), Base64.Sym(51)] == "YXNz";
  }

  lemma UserPassBase64()
    ensures Base64.Encode([117, 115, 101, 114, 58, 112, 97, 115, 115]) == "dXNlcjpwYXNz"
  {
    var e: seq<Utf8.byte> := [];
    var g3: seq<Utf8.byte> := [97, 115, 115] + e;
    var g2: seq<Utf8.byte> := [114, 58, 112] + g3;
    var g1: seq<Utf8.byte> := [117, 115, 101] + g2;
    EncodeAss(e);
    EncodeRColonP(g3);
    EncodeUse(g2);
    assert Base64.Encode(e) == "";
    assert g1 == [117, 115, 101, 114, 58, 112, 97, 115, 115];
    JoinGroups();
  }

  lemma JoinGroups()
    ensures "dXNl" + ("cjpw" + ("YXNz" + "")) == "dXNlcjpwYXNz"
  {
  }

  /** The worked example: `user` and `pass` give `Basic dXNlcjpwYXNz`. */
  lemma BasicAuthExample()
    ensures AuthorizationFor(AuthFields(BasicAuth, "user", "pass", "")) == Some("Basic " + "dXNlcjpwYXNz")
  {
    TrimUnchanged("user");
    TrimUnchanged("pass");
    var text := "user" + ":" + "pass";
    assert text == "user:pass";
    UserPassBytes();
    UserPassBase64();
    var encoded := Base64.Encode(Utf8.Encode(text));
    assert encoded == "dXNlcjpwYXNz";
    assert AuthorizationFor(AuthFields(BasicAuth, "user", "pass", "")) == Some("Basic " + encoded);
  }

  /** Bearer auth: `Bearer <trimmed token>` exactly when the trimmed token is non-empty. */
  lemma BearerTokenValue(auth: AuthFields)
    requires auth.authType == BearerToken
    ensures AuthorizationFor(auth) == if Trim(auth.token) == "" then None else Some("Bearer " + Trim(auth.token))
  {
  }

  /** Every value of the map is its own trim. */
  ghost predicate ValuesTrimmed(m: Headers) {
    forall j :: 0 <= j < |m| ==> Trim(m[j].1) == m[j].1
  }

  lemma PutTrimmed(m: Headers, k: string, v: string)
    requires ValuesTrimmed(m) && Trim(v) == v
    ensures ValuesTrimmed(LinkedMap.Put(m, k, v))
  {
    LinkedMap.PutEntries(m, k, v);
  }

  /** The collection loop stores trimmed values only. */
  lemma {:induction false} CollectedValuesTrimmed(rows: seq<Row>)
    ensures ValuesTrimmed(CollectHeaders(rows))
  {
    if rows != [] {
      var n := |rows| - 1;
      CollectedValuesTrimmed(rows[..n]);
      var r := rows[n];
      if IsHeaderRow(r) {
        match r.value
        case Some(text) =>
          TrimIdempotent(text);
          PutTrimmed(CollectHeaders(rows[..n]), Trimmed(r.key), Trimmed(r.value));
      }
    }
  }

  /** A synthesised `Authorization` value neither starts nor ends with whitespace. */
  lemma AuthorizationTrimmed(auth: AuthFields)
    requires AuthorizationFor(auth).Some?
    ensures Trim(AuthorizationFor(auth).value) == AuthorizationFor(auth).value
  {
    var v := AuthorizationFor(auth).value;
    if auth.authType == BasicAuth {
      var text := Trim(auth.username) + ":" + Trim(auth.password);
      var bytes := Utf8.Encode(text);
      assert bytes == Utf8.EncodeChar(text[0]) + Utf8.Encode(text[1..]);
      var e := Base64.Encode(bytes);
      Base64.EncodeAlphabet(bytes);
      assert v == "Basic " + e;
      assert v[|v| - 1] == e[|e| - 1];
    } else {
      var token := Trim(auth.token);
      TrimIsInfix(auth.token);
      assert v == "Bearer " + token;
      assert v[|v| - 1] == token[|token| - 1];
    }
    TrimUnchanged(v);
  }

  /** A params row is used when its trimmed key is non-empty, whatever its value. */
  predicate IsParamRow(r: Row) {
    Trimmed(r.key) != ""
  }

  /** `"$encodedKey=$encodedValue"` for one used row. */
  function EncodedParam(r: Row): string {
    FormEncoding.Encode(Trimmed(r.key)) + "=" + FormEncoding.Encode(Trimmed(r.value))
  }

  /** The `params` list after the loop over the params table. */
  function EncodedParams(rows: seq<Row>): seq<string>
  {
    if rows == [] then []
    else
      var prev := EncodedParams(rows[..|rows| - 1]);
      var r := rows[|rows| - 1];
      if IsParamRow(r) then prev + [EncodedParam(r)] else prev
  }

  /** The used params rows as (trimmed key, trimmed value or "") pairs, in row order. */
  function ParamPairs(rows: seq<Row>): seq<(string, string)>
  {
    if rows == [] then []
    else
      var prev := ParamPairs(rows[..|rows| - 1]);
      var r := rows[|rows| - 1];
      if IsParamRow(r) then prev + [(Trimmed(r.key), Trimmed(r.value))] else prev
  }

  /** The URL after the params step: unchanged without params, else `?` or `&` and the joined params. */
  function AppendQuery(url: string, params: seq<string>): string
  {
    if params == [] then url
    else url + [if '?' in url then '&' else '?'] + Join(params, '&')
  }

  /** Reads one `key=value` pair back: split at the first `=`, decode both sides. */
  function ParsePair(p: string): Option<(string, string)>
  {
    var i := IndexOf(p, '=');
    if i == |p| then None
    else match (FormEncoding.Decode(p[..i]), FormEncoding.Decode(p[i + 1..]))
      case (Some(k), Some(v)) => Some((k, v))
      case _ => None
  }

  function ParsePairs(parts: seq<string>): Option<seq<(string, string)>>
  {
    if parts == [] then Some([])
    else match (ParsePairs(parts[..|parts| - 1]), ParsePair(parts[|parts| - 1]))
      case (Some(prev), Some(p)) => Some(prev + [p])
      case _ => None
  }

  /** Reads a query string back into decoded pairs. */
  function ParseQuery(q: string): Option<seq<(string, string)>>
  {
    ParsePairs(Split(q, '&'))
  }

  lemma ParseEncodedParam(r: Row)
    ensures ParsePair(EncodedParam(r)) == Some((Trimmed(r.key), Trimmed(r.value)))
  {
    var k, v := FormEncoding.Encode(Trimmed(r.key)), FormEncoding.Encode(Trimmed(r.value));
    FormEncoding.EncodeHasNoSeparators(Trimmed(r.key));
    IndexOfJoined(k, '=', v);
    var p := EncodedParam(r);
    assert p == k + ['='] + v;
    assert p[..|k|] == k && p[|k| + 1..] == v;
    FormEncoding.DecodeEncode(Trimmed(r.key));
    FormEncoding.DecodeEncode(Trimmed(r.value));
  }

  lemma {:induction false} ParseEncodedParams(rows: seq<Row>)
    ensures ParsePairs(EncodedParams(rows)) == Some(ParamPairs(rows))
  {
    if rows != [] {
      var n := |rows| - 1;
      ParseEncodedParams(rows[..n]);
      if IsParamRow(rows[n]) {
        var ps := EncodedParams(rows);
        assert ps == EncodedParams(rows[..n]) + [EncodedParam(rows[n])];
        assert ps[..|ps| - 1] == EncodedParams(rows[..n]);
        assert ps[|ps| - 1] == EncodedParam(rows[n]);
        ParseEncodedParam(rows[n]);
      }
    }
  }

  /** No encoded pair contains the `&` that joins them. */
  lemma {:induction false} EncodedParamsFree(rows: seq<Row>)
    ensures Free(EncodedParams(rows), '&')
  {
    if rows != [] {
      var n := |rows| - 1;
      EncodedParamsFree(rows[..n]);
      if IsParamRow(rows[n]) {
        var r := rows[n];
        FormEncoding.EncodeHasNoSeparators(Trimmed(r.key));
        FormEncoding.EncodeHasNoSeparators(Trimmed(r.value));
        var k, v := FormEncoding.Encode(Trimmed(r.key)), FormEncoding.Encode(Trimmed(r.value));
        assert EncodedParam(r) == k + "=" + v;
        assert '&' !in EncodedParam(r);
      }
    }
  }

  /** Params and pairs are filtered by the same rows. */
  lemma {:induction false} ParamsCount(rows: seq<Row>)
    ensures |EncodedParams(rows)| == |ParamPairs(rows)|
  {
    if rows != [] {
      ParamsCount(rows[..|rows| - 1]);
    }
  }

  /**
   * The final URL keeps the trimmed input as its prefix, then the separator
   * (`&` when the input already has a `?`), then a query string that reads
   * back to the used rows' keys and values.
   */
  lemma QueryRoundTrip(url: string, rows: seq<Row>)
    ensures ParamPairs(rows) == [] ==> AppendQuery(url, EncodedParams(rows)) == url
    ensures ParamPairs(rows) != [] ==>
              var u := AppendQuery(url, EncodedParams(rows));
              && |u| > |url| && u[..|url|] == url
              && u[|url|] == (if '?' in url then '&' else '?')
              && ParseQuery(u[|url| + 1..]) == Some(ParamPairs(rows))
  {
    ParamsCount(rows);
    var ps := EncodedParams(rows);
    if ps != [] {
      var u := AppendQuery(url, ps);
      assert u[|url| + 1..] == Join(ps, '&');
      ParseEncodedParams(rows);
      EncodedParamsFree(rows);
      SplitJoin(ps, '&');
    }
  }

  /** `headers["Content-Type"] ?: "application/json"`. */
  function ContentTypeFor(headers: Headers): string {
    LinkedMap.Get(headers, "Content-Type").GetOr("application/json")
  }

  /** The body text if it is not blank, otherwise null. */
  function BodyFor(text: string): Option<string> {
    if IsBlank(text) then None else Some(text)
  }

  /** What the panel's widgets hold when Send is pressed. */
  datatype RequestForm = RequestForm(
    urlText: string,
    httpMethod: HttpMethod,
    headerRows: seq<Row>,
    paramRows: seq<Row>,
    auth: AuthFields,
    bodyText: string)

  /** The request the panel builds from a form. */
  function RequestFor(form: RequestForm): HttpRequest
  {
    var headers := WithAuthorization(CollectHeaders(form.headerRows), form.auth);
    HttpRequest(
      AppendQuery(Trim(form.urlText), EncodedParams(form.paramRows)),
      form.httpMethod,
      headers,
      BodyFor(form.bodyText),
      Some(ContentTypeFor(headers)))
  }

  /**
   * The headers the panel assembles hold no key twice, as a Kotlin map
   * cannot, and every value is already trimmed.
   */
  lemma AssembledHeaders(form: RequestForm)
    ensures LinkedMap.NoDupKeys(RequestFor(form).headers)
    ensures ValuesTrimmed(RequestFor(form).headers)
  {
    var collected := CollectHeaders(form.headerRows);
    CollectHeadersNoDupKeys(form.headerRows);
    CollectedValuesTrimmed(form.headerRows);
    if AuthorizationFor(form.auth).Some? {
      var v := AuthorizationFor(form.auth).value;
      LinkedMap.PutNoDupKeys(collected, "Authorization", v);
      AuthorizationTrimmed(form.auth);
      PutTrimmed(collected, "Authorization", v);
    }
  }

  /** The header-collection loop of `sendRequest`. */
  method CollectHeaderRows(rows: seq<Row>) returns (headers: Headers)
    ensures headers == CollectHeaders(rows)
  {
    headers := [];
    var i := 0;
    while i < |rows|
      invariant 0 <= i <= |rows|
      invariant headers == CollectHeaders(rows[..i])
    {
      var row := rows[i];
      var key, value := Trimmed(row.key), Trimmed(row.value);
      if key != "" && value != "" {
        headers := LinkedMap.Put(headers, key, value);
      }
      assert rows[..i + 1][..i] == rows[..i];
      i := i + 1;
    }
    assert rows[..i] == rows;
  }

  /** The params loop of `sendRequest`: one encoded `key=value` pair per used row. */
  method EncodeParamRows(rows: seq<Row>) returns (params: seq<string>)
    ensures params == EncodedParams(rows)
  {
    params := [];
    var i := 0;
    while i < |rows|
      invariant 0 <= i <= |rows|
      invariant params == EncodedParams(rows[..i])
    {
      var row := rows[i];
      var key, value := Trimmed(row.key), Trimmed(row.value);
      if key != "" {
        params := params + [FormEncoding.Encode(key) + "=" + FormEncoding.Encode(value)];
      }
      assert rows[..i + 1][..i] == rows[..i];
      i := i + 1;
    }
    assert rows[..i] == rows;
  }

  /**
   * The assembly block of `sendRequest`: collect headers, add auth, encode
   * params onto the URL, then pick content type and body.
   */
  method AssembleRequest(form: RequestForm) returns (request: HttpRequest)
    ensures request == RequestFor(form)
    ensures request.contentType.Some?
    ensures request.body.None? <==> IsBlank(form.bodyText)
  {
    var headers := CollectHeaderRows(form.headerRows);
    ghost var collected := headers;
    match form.auth.authType {
      case BasicAuth =>
        var user, pass := Trim(form.auth.username), Trim(form.auth.password);
        if user != "" || pass != "" {
          var encoded := Base64.Encode(Utf8.Encode(user + ":" + pass));
          headers := LinkedMap.Put(headers, "Authorization", "Basic " + encoded);
        }
      case BearerToken =>
        var token := Trim(form.auth.token);
        if token != "" {
          headers := LinkedMap.Put(headers, "Authorization", "Bearer " + token);
        }
      case NoAuth =>
    }
    assert headers == WithAuthorization(collected, form.auth);

    var url := Trim(form.urlText);
    var params := EncodeParamRows(form.paramRows);
    if params != [] {
      var separator := if '?' in url then '&' else '?';
      url := url + [separator] + Join(params, '&');
    }

    var contentType := LinkedMap.Get(headers, "Content-Type").GetOr("application/json");
    request := HttpRequest(
      url,
      form.httpMethod,
      headers,
      if !IsBlank(form.bodyText) then Some(form.bodyText) else None,
      Some(contentType));
  }
}

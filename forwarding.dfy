/**
 * The forwarding engine of app.py without its HTTP plumbing: the provider
 * check of `route_request`, and the part of `forward_request` that dispenses
 * a key, builds the outbound request (target URL, rewritten headers, query
 * parameters, body), relays the upstream status and filtered headers, and
 * turns every failure into a 500 response. The upstream call itself is an
 * input: its status and header pairs, or a transport failure.
 */
module Forwarding {
  import opened Text
  import opened Registry

  newtype byte = b: int | 0 <= b < 256

  type Headers = map<string, string>
  type Params = map<string, string>

  /** What `request.get_json()` gives for a request whose content type is
      JSON: a document (represented by the body bytes), JSON `null` (Python
      `None`), or a body that does not parse, on which Flask raises. */
  datatype JsonBody = Document(doc: seq<byte>) | Null | Malformed

  /** The parts of the inbound Flask request the engine reads. */
  datatype Inbound = Inbound(
    verb: string,       // request.method
    headers: Headers,   // dict(request.headers)
    args: Params,       // dict(request.args)
    isJson: bool,       // request.is_json
    json: JsonBody,     // request.get_json(), read only when isJson
    data: seq<byte>)    // request.get_data()

  /** The arguments handed to `requests.request`. `json` and `data` are the two
      keyword arguments; `None` is a keyword argument passed as `None`. */
  datatype OutboundSpec = OutboundSpec(
    verb: string,
    url: string,
    headers: Headers,
    params: Params,
    json: Option<seq<byte>>,
    data: Option<seq<byte>>,
    stream: bool,
    timeout: nat)

  /** What the upstream call produced. */
  datatype Upstream =
    | Reply(status: int, headers: seq<(string, string)>)   // response.status_code, response.raw.headers.items()
    | TransportFailure(message: string)                    // a requests.exceptions.RequestException

  /** Why a 4xx/5xx error body was produced. */
  datatype Failure =
    | UnsupportedProvider(provider: string)   // route_request, 400
    | RequestFailed(message: string)          // RequestException, 500
    | Unexpected(cause: ConfigError)          // a ValueError of config.py, 500
    | InvalidJson                             // get_json() raised on the body, 500

  /** The response returned to the caller (bodies left out). */
  datatype Response =
    | Relayed(status: int, headers: seq<(string, string)>)
    | ErrorResponse(status: int, failure: Failure)

  const Gemini := "gemini"
  const OpenRouter := "openrouter"
  const RefererHeader := "HTTP-Referer"
  const RefererValue := "http://localhost:9999"
  const TitleHeader := "X-Title"
  const TitleValue := "API Router"
  const Timeout := 300

  /** The value the outbound request carries for header `h`, if any: the two
      fixed OpenRouter headers, the injected bearer credential (every provider
      but Gemini), nothing for `Host` or a caller's `Authorization`, and the
      caller's own value for every other header. */
  function ExpectedHeader(provider: string, inbound: Headers, apiKey: string, h: string): (r: Option<string>) {
    if provider == OpenRouter && h == RefererHeader then Some(RefererValue)
    else if provider == OpenRouter && h == TitleHeader then Some(TitleValue)
    else if h == "Authorization" then (if provider == Gemini then None else Some("Bearer " + apiKey))
    else if h == "Host" then None
    else if h in inbound then Some(inbound[h])
    else None
  }

  /** The `json=` argument for a JSON request that parsed: the document, or
      `None` for JSON `null`. */
  function JsonArgument(body: JsonBody): (r: Option<seq<byte>>) {
    if body.Document? then Some(body.doc) else None
  }

  /** `get_json()` raises: the request is a JSON one and its body does not parse. */
  predicate JsonFails(req: Inbound) {
    req.isJson && req.json.Malformed?
  }

  /** The outbound request `forward_request` builds from its inputs. */
  ghost predicate OutboundFor(o: OutboundSpec, provider: string, path: string, req: Inbound, apiKey: string, baseUrl: string) {
    o.verb == req.verb &&
    o.url == baseUrl + path &&
    (forall h :: h in o.headers <==> ExpectedHeader(provider, req.headers, apiKey, h).Some?) &&
    (forall h :: h in o.headers ==> o.headers[h] == ExpectedHeader(provider, req.headers, apiKey, h).value) &&
    o.params == (if provider == Gemini then req.args["key" := apiKey] else req.args) &&
    (if req.isJson then o.json == JsonArgument(req.json) && o.data == None
     else o.json == None && o.data == Some(req.data)) &&
    o.stream && o.timeout == Timeout
  }

  /** The outbound request is fully determined by the inputs. */
  lemma OutboundDetermined(o1: OutboundSpec, o2: OutboundSpec, provider: string, path: string, req: Inbound, apiKey: string, baseUrl: string)
    requires OutboundFor(o1, provider, path, req, apiKey, baseUrl)
    requires OutboundFor(o2, provider, path, req, apiKey, baseUrl)
    ensures o1 == o2
  {
    assert o1.headers.Keys == o2.headers.Keys;
    assert o1.headers == o2.headers;
  }

  /** Lines 37-82 of `forward_request`: copy the inbound headers, drop
      `Host` and `Authorization`, place the credential (a `key` query
      parameter for Gemini, a bearer `Authorization` header otherwise), add the
      fixed OpenRouter headers, and pick the body form. `None` when
      `get_json()` raises (line 69), before any request is made. */
  method BuildOutbound(provider: string, path: string, req: Inbound, apiKey: string, baseUrl: string)
    returns (o: Option<OutboundSpec>)
    ensures o.None? <==> JsonFails(req)
    ensures o.Some? ==> OutboundFor(o.value, provider, path, req, apiKey, baseUrl)
  {
    var targetUrl := baseUrl + path;
    var headers := req.headers;
    headers := headers - {"Host"};
    headers := headers - {"Authorization"};
    var params := req.args;
    if provider == Gemini {
      params := params["key" := apiKey];
    } else {
      headers := headers["Authorization" := "Bearer " + apiKey];
    }
    if provider == OpenRouter {
      headers := headers[RefererHeader := RefererValue];
      headers := headers[TitleHeader := TitleValue];
    }
    if req.isJson && req.json.Malformed? {
      return None;
    }
    var json := if req.isJson then JsonArgument(req.json) else None;
    var data := if !req.isJson then Some(req.data) else None;
    o := Some(OutboundSpec(req.verb, targetUrl, headers, params, json, data, true, Timeout));
  }

  /** The relay drops a header whose lower-cased name is `content-length`
      or `connection`; only names of those lengths are dropped. */
  predicate IsExcludedHeader(name: string)
    ensures IsExcludedHeader(name) ==> |name| == 14 || |name| == 10
  {
    Lower(name) == "content-length" || Lower(name) == "connection"
  }

  /** A header is dropped exactly when its name is `content-length` or
      `connection` in any mix of case. */
  lemma ExcludedIff(name: string)
    ensures IsExcludedHeader(name) <==>
      EqualsIgnoringCase(name, "content-length") || EqualsIgnoringCase(name, "connection")
  {
    LowerEqualsIff(name, "content-length");
    LowerEqualsIff(name, "connection");
  }

  /** The filter ignores the case of the header name. */
  lemma ExcludedIgnoresCase(name: string)
    ensures IsExcludedHeader(Lower(name)) == IsExcludedHeader(name)
  {
    LowerIdempotent(name);
  }

  /** `Content-Length` and `Connection` go in any spelling; other framing
      headers such as `Transfer-Encoding` are relayed. */
  lemma ExcludedExample()
    ensures IsExcludedHeader("Content-Length") && IsExcludedHeader("CONNECTION")
    ensures !IsExcludedHeader("Transfer-Encoding")
  {
  }

  /** Lines 93-98: the upstream header pairs kept, in order. */
  function RelayHeaders(upstream: seq<(string, string)>): (r: seq<(string, string)>)
    ensures |r| <= |upstream|
    ensures forall hv :: hv in r <==> hv in upstream && !IsExcludedHeader(hv.0)
  {
    if upstream == [] then []
    else
      var rest := RelayHeaders(upstream[1..]);
      assert forall hv :: hv in upstream <==> hv == upstream[0] || hv in upstream[1..];
      (if IsExcludedHeader(upstream[0].0) then [] else [upstream[0]]) + rest
  }

  /** The header filter distributes over concatenation, so it keeps the
      relative order of the pairs it keeps. */
  lemma {:induction false} RelayHeadersConcat(a: seq<(string, string)>, b: seq<(string, string)>)
    ensures RelayHeaders(a + b) == RelayHeaders(a) + RelayHeaders(b)
  {
    if a == [] {
      assert a + b == b;
    } else {
      assert (a + b)[1..] == a[1..] + b;
      RelayHeadersConcat(a[1..], b);
    }
  }

  /** Relaying the filter's output again changes nothing. */
  lemma {:induction false} RelayHeadersIdempotent(upstream: seq<(string, string)>)
    ensures RelayHeaders(RelayHeaders(upstream)) == RelayHeaders(upstream)
  {
    if upstream != [] {
      var head := if IsExcludedHeader(upstream[0].0) then [] else [upstream[0]];
      RelayHeadersIdempotent(upstream[1..]);
      RelayHeadersConcat(head, RelayHeaders(upstream[1..]));
      if !IsExcludedHeader(upstream[0].0) {
        assert RelayHeaders(head) == head by {
          assert head[1..] == [];
        }
      }
    }
  }

  /** Lines 93-105: the upstream status is relayed as it is with the filtered
      headers, and a transport failure becomes a 500. */
  function Relay(upstream: Upstream): (r: Response)
    ensures upstream.Reply? ==> r.Relayed? && r.status == upstream.status
    ensures upstream.Reply? ==> forall hv :: hv in r.headers <==> hv in upstream.headers && !IsExcludedHeader(hv.0)
    ensures upstream.TransportFailure? ==> r == ErrorResponse(500, RequestFailed(upstream.message))
  {
    match upstream
    case Reply(status, headers) => Relayed(status, RelayHeaders(headers))
    case TransportFailure(message) => ErrorResponse(500, RequestFailed(message))
  }

  /** What one call of `forward_request` does, given the cursor table before
      and after it: a failed dispense changes nothing and answers 500; a
      successful one advances the provider's cursor even when the base URL
      lookup or the JSON body then fails (also a 500, and nothing is sent);
      otherwise the request built from the dispensed key is sent and the
      upstream result relayed. */
  ghost predicate ForwardOutcome(config: Config, before: map<string, nat>, after: map<string, nat>,
                                 provider: string, path: string, req: Inbound, upstream: Upstream,
                                 resp: Response, sent: Option<OutboundSpec>)
  {
    match KeysFor(config.entries, provider)
    case Err(e) =>
      after == before && sent == None && resp == ErrorResponse(500, Unexpected(e))
    case Ok(keys) =>
      provider in before && before[provider] < |keys| &&
      after == before[provider := NextCursor(before[provider], |keys|)] &&
      match config.GetBaseUrl(provider)
      case Err(e) => sent == None && resp == ErrorResponse(500, Unexpected(e))
      case Ok(baseUrl) =>
        if JsonFails(req) then sent == None && resp == ErrorResponse(500, InvalidJson)
        else
          sent.Some? && OutboundFor(sent.value, provider, path, req, keys[before[provider]], baseUrl) &&
          resp == Relay(upstream)
  }

  /** `forward_request`: dispense a key, look up the base URL, build and send
      the request, relay the answer; every exception becomes a 500. `sent` is
      the request handed to the upstream call, `None` when none was made. */
  method Forward(config: Config, provider: string, path: string, req: Inbound, upstream: Upstream)
    returns (resp: Response, sent: Option<OutboundSpec>)
    requires config.Valid()
    modifies config`keyIndices
    ensures config.Valid()
    ensures ForwardOutcome(config, old(config.keyIndices), config.keyIndices, provider, path, req, upstream, resp, sent)
  {
    var apiKey := config.GetNextKey(provider);
    if apiKey.Err? {
      return ErrorResponse(500, Unexpected(apiKey.error)), None;
    }
    var baseUrl := config.GetBaseUrl(provider);
    if baseUrl.Err? {
      return ErrorResponse(500, Unexpected(baseUrl.error)), None;
    }
    var outbound := BuildOutbound(provider, path, req, apiKey.value, baseUrl.value);
    if outbound.None? {
      return ErrorResponse(500, InvalidJson), None;
    }
    sent := outbound;
    resp := Relay(upstream);
  }

  /** `route_request`: a provider that `get_providers` does not list gets a
      400 and no key is dispensed; any other is forwarded. */
  method Route(config: Config, provider: string, path: string, req: Inbound, upstream: Upstream)
    returns (resp: Response, sent: Option<OutboundSpec>)
    requires config.Valid()
    modifies config`keyIndices
    ensures config.Valid()
    ensures provider !in ActiveNames(config.entries) ==>
      resp == ErrorResponse(400, UnsupportedProvider(provider)) && sent == None &&
      config.keyIndices == old(config.keyIndices)
    ensures provider in ActiveNames(config.entries) ==>
      ForwardOutcome(config, old(config.keyIndices), config.keyIndices, provider, path, req, upstream, resp, sent)
  {
    var providers := config.GetProviders();
    if provider !in providers {
      return ErrorResponse(400, UnsupportedProvider(provider)), None;
    }
    resp, sent := Forward(config, provider, path, req, upstream);
  }
}

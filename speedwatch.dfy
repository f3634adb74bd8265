/**
 * `collect_and_push`: one measurement cycle, from the host name and the
 * measurements to the authenticated request handed to the transport.  The
 * operating system's answers (host name, clock), the measurements, the
 * remote-write encoder and the transport's answer are parameters.
 */
module Speedwatch {
  import opened Wrappers
  import opened HttpHeaders
  import opened Metrics
  import opened Delivery
  import BasicAuth

  datatype Credentials = Credentials(username: string, password: string)

  /** The ways a cycle fails, in the order the cycle can meet them. */
  datatype CycleError =
    | HostResolution(message: string)
    | Clock(clock: ClockError)
    | Encoding(message: string)
    | Transport(message: string)

  /** The encoded request with the credentials inserted, as reqwest sends it. */
  function Authorized(parts: RequestParts, creds: Credentials): Outgoing
  {
    Outgoing(parts.verb, parts.uri,
             InsertValue(parts.headers, AUTHORIZATION, BasicAuth.Authorization(creds.username, creds.password)),
             parts.body)
  }

  /**
   * The delivered request keeps the encoder's method, URI, body and every
   * other header; its `Authorization` header has exactly one value, a valid
   * header value from which the configured credentials are recovered.
   */
  lemma AuthorizedRequest(parts: RequestParts, creds: Credentials, other: string)
    requires ValidEntries(parts.headers)
    ensures var out := Authorized(parts, creds);
      && out.verb == parts.verb && out.url == parts.uri && out.body == parts.body
      && ValidEntries(out.headers)
      && ValuesOf(out.headers, AUTHORIZATION) == [BasicAuth.Authorization(creds.username, creds.password)]
      && BasicAuth.IsHeaderValueText(BasicAuth.Authorization(creds.username, creds.password))
      && (other != AUTHORIZATION ==> ValuesOf(out.headers, other) == ValuesOf(parts.headers, other))
      && (':' !in creds.username ==>
            BasicAuth.ParseAuthorization(ValuesOf(out.headers, AUTHORIZATION)[0])
            == Some((BasicAuth.Utf8(creds.username), BasicAuth.Utf8(creds.password))))
  {
    var value := BasicAuth.Authorization(creds.username, creds.password);
    InsertValid(parts.headers, AUTHORIZATION, value);
    InsertSets(parts.headers, AUTHORIZATION, value);
    if other != AUTHORIZATION {
      InsertKeepsOthers(parts.headers, AUTHORIZATION, value, other);
    }
    BasicAuth.AuthorizationIsHeaderValue(creds.username, creds.password);
    if ':' !in creds.username {
      BasicAuth.AuthorizationRoundTrip(creds.username, creds.password);
    }
  }

  /**
   * src/main.rs:45-144.  `host` is what `hostname::get` returned, `clockNanos`
   * the wall clock as nanoseconds from the epoch, `encode` stands for URL
   * parsing and `build_http_request` together, and `transport` is the error
   * `send()` reported, if any.
   */
  method CollectAndPush<V(==)>(host: Result<string, string>, bandwidth: V, latency: V, clockNanos: int,
                               encode: WriteRequest<V> -> Result<RequestParts, string>,
                               creds: Credentials, transport: Option<string>)
    returns (r: Result<Outgoing, CycleError>)
    requires forall w :: encode(w).Success? ==> ValidEntries(encode(w).value.headers)
    ensures host.Failure? ==> r == Failure(HostResolution(host.error))
    ensures host.Success? && EpochMillis(clockNanos).Failure? ==>
              r == Failure(Clock(EpochMillis(clockNanos).error))
    ensures host.Success? && EpochMillis(clockNanos).Success? ==>
              var built := encode(Assemble(host.value, bandwidth, latency, EpochMillis(clockNanos).value));
              && (built.Failure? ==> r == Failure(Encoding(built.error)))
              && (built.Success? && transport.Some? ==> r == Failure(Transport(transport.value)))
              && (built.Success? && transport.None? ==> r == Success(Authorized(built.value, creds)))
  {
    if host.Failure? {
      return Failure(HostResolution(host.error));
    }
    var time := EpochMillis(clockNanos);
    if time.Failure? {
      return Failure(Clock(time.error));
    }
    var request := Assemble(host.value, bandwidth, latency, time.value);
    var built := encode(request);
    if built.Failure? {
      return Failure(Encoding(built.error));
    }
    var parts := built.value;
    var headers := new HeaderMap(parts.headers);
    headers.Insert(AUTHORIZATION, BasicAuth.Authorization(creds.username, creds.password));
    var builder := Transfer(RequestParts(parts.verb, parts.uri, headers.entries, parts.body));
    if transport.Some? {
      return Failure(Transport(transport.value));
    }
    r := Success(Outgoing(builder.verb, builder.url, builder.headers, builder.body.value));
  }
}

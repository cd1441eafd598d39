/** The unary call of the sdk's `InternalProtoClient` and of the
    runtime's `ProtoClient`: encode the request, pick the headers (sdk
    only), hand the call to the transport, and turn its answer into a
    `Response`. Every step that may throw — the encoder, the header
    provider, the transport and the decoder — yields an `Outcome`; the
    `try`/`catch` around the call makes any throw an `UNKNOWN` failure.

    Both clients build `Response.Failure(status = …, message = …, trailers
    = …)`; `Response.Failure` holds a `CallError` with exactly those three
    fields, and the model builds that. */
module Client {
  import opened Wrappers
  import opened KotlinInt
  import opened GrpcStatus
  import opened Trailers
  import opened Responses

  /** What a step that may throw did: returned a value, or threw a
      throwable with a nullable `message`. */
  datatype Outcome<+T> = Returned(value: T) | Threw(message: Option<string>)

  /** `TransportResponse(body, trailers)`. */
  datatype TransportResponse = TransportResponse(body: seq<Byte>, trailers: GrpcTrailers)

  /** The arguments `transport.unaryCall` receives. The runtime's
      transport takes no headers; its calls carry none. */
  datatype UnaryCall = UnaryCall(methodName: string, requestBytes: seq<Byte>, timeoutMillis: Option<Long>,
                                 headers: map<string, string>)

  type Transport = UnaryCall -> Outcome<TransportResponse>

  /** `defaultTimeoutMillis = 15_000`, in both clients. */
  const DEFAULT_TIMEOUT_MILLIS: Long := 15_000

  /** The sdk client: its transport, its default timeout and its optional
      header provider (whose call may itself throw). */
  datatype InternalClient = InternalClient(transport: Transport, defaultTimeoutMillis: Option<Long>,
                                           defaultHeaders: Option<Outcome<map<string, string>>>)

  /** `InternalProtoClient(transport)` with the constructor's defaults. */
  function NewInternalClient(transport: Transport): (c: InternalClient)
    ensures c.defaultTimeoutMillis == Some(15_000) && c.defaultHeaders.None?
  {
    InternalClient(transport, Some(DEFAULT_TIMEOUT_MILLIS), None)
  }

  /** The `catch` arm: a throwable becomes an `UNKNOWN` failure with its
      message, and trailers that carry the same and no headers. */
  function Caught<T>(message: Option<string>): (r: Response<T>)
    ensures r.Failure? && r.error.status == UNKNOWN && r.error.message == message
    ensures r.error.trailers == GrpcTrailers(UNKNOWN, message, map[])
  {
    Response.Failure(CallError(UNKNOWN, message, GrpcTrailers(UNKNOWN, message, map[])))
  }

  /** The answer of the transport turned into a `Response`: a throw is
      caught, a status other than `OK` is a failure with the trailers'
      status and message, and `OK` decodes the body. */
  function Settle<Res>(answer: Outcome<TransportResponse>, decoder: seq<Byte> -> Outcome<Res>): (r: Response<Res>)
    ensures r.Success? ==> answer.Returned? && answer.value.trailers.status == OK
                           && r.trailers == answer.value.trailers
                           && decoder(answer.value.body) == Returned(r.value)
  {
    match answer
    case Threw(m) => Caught(m)
    case Returned(response) =>
      if response.trailers.status != OK then
        Response.Failure(CallError(response.trailers.status, response.trailers.message, response.trailers))
      else
        match decoder(response.body)
        case Returned(v) => Response.Success(v, response.trailers)
        case Threw(m) => Caught(m)
  }

  /** `headers.ifEmpty { defaultHeaders?.invoke() ?: emptyMap() }`. */
  function SelectHeaders(headers: map<string, string>, defaultHeaders: Option<Outcome<map<string, string>>>)
    : (r: Outcome<map<string, string>>)
    ensures |headers| > 0 ==> r == Returned(headers)
    ensures |headers| == 0 && defaultHeaders.Some? ==> r == defaultHeaders.value
    ensures |headers| == 0 && defaultHeaders.None? ==> r == Returned(map[])
  {
    if |headers| > 0 then Returned(headers)
    else match defaultHeaders
      case Some(provided) => provided
      case None => Returned(map[])
  }

  /** `InternalProtoClient.unary`. */
  function Unary<Req, Res>(client: InternalClient, methodName: string, request: Req,
                           encoder: Req -> Outcome<seq<Byte>>, decoder: seq<Byte> -> Outcome<Res>,
                           timeoutMillis: Option<Long>, headers: map<string, string>): (r: Response<Res>)
    ensures encoder(request).Threw? ==> r == Caught(encoder(request).message)
  {
    match encoder(request)
    case Threw(m) => Caught(m)
    case Returned(requestBytes) =>
      match SelectHeaders(headers, client.defaultHeaders)
      case Threw(m) => Caught(m)
      case Returned(finalHeaders) =>
        Settle(client.transport(UnaryCall(methodName, requestBytes, timeoutMillis, finalHeaders)), decoder)
  }

  /** `unary` with its `timeoutMillis` argument left out: the client's
      default applies. */
  function UnaryDefault<Req, Res>(client: InternalClient, methodName: string, request: Req,
                                  encoder: Req -> Outcome<seq<Byte>>, decoder: seq<Byte> -> Outcome<Res>,
                                  headers: map<string, string>): Response<Res>
  {
    Unary(client, methodName, request, encoder, decoder, client.defaultTimeoutMillis, headers)
  }

  /** A client built with the constructor's defaults hands the transport
      a timeout of 15 000 ms when the caller gives none. */
  lemma DefaultTimeout<Req, Res>(transport: Transport, methodName: string, request: Req,
                                 encoder: Req -> Outcome<seq<Byte>>, decoder: seq<Byte> -> Outcome<Res>,
                                 headers: map<string, string>)
    ensures UnaryDefault(NewInternalClient(transport), methodName, request, encoder, decoder, headers)
         == Unary(NewInternalClient(transport), methodName, request, encoder, decoder, Some(15_000), headers)
  {
  }

  /** The runtime's `ProtoClient.unary`: the same steps without headers. */
  function RuntimeUnary<Req, Res>(transport: Transport, methodName: string, request: Req,
                                  encoder: Req -> Outcome<seq<Byte>>, decoder: seq<Byte> -> Outcome<Res>,
                                  timeoutMillis: Option<Long>): (r: Response<Res>)
    ensures encoder(request).Threw? ==> r == Caught(encoder(request).message)
  {
    match encoder(request)
    case Threw(m) => Caught(m)
    case Returned(requestBytes) =>
      Settle(transport(UnaryCall(methodName, requestBytes, timeoutMillis, map[])), decoder)
  }

  /** Every failure agrees with its trailers on status and message, and
      every success carries `OK` trailers; nothing escapes as a throw. */
  lemma ConsistentOutcome<Req, Res>(client: InternalClient, methodName: string, request: Req,
                                    encoder: Req -> Outcome<seq<Byte>>, decoder: seq<Byte> -> Outcome<Res>,
                                    timeoutMillis: Option<Long>, headers: map<string, string>)
    ensures var r := Unary(client, methodName, request, encoder, decoder, timeoutMillis, headers);
            (r.Failure? ==> r.error.status == r.error.trailers.status
                            && r.error.message == r.error.trailers.message)
            && (r.Success? ==> r.trailers.status == OK)
  {
  }

  /** The same for the runtime client. */
  lemma RuntimeConsistentOutcome<Req, Res>(transport: Transport, methodName: string, request: Req,
                                           encoder: Req -> Outcome<seq<Byte>>, decoder: seq<Byte> -> Outcome<Res>,
                                           timeoutMillis: Option<Long>)
    ensures var r := RuntimeUnary(transport, methodName, request, encoder, decoder, timeoutMillis);
            (r.Failure? ==> r.error.status == r.error.trailers.status
                            && r.error.message == r.error.trailers.message)
            && (r.Success? ==> r.trailers.status == OK)
  {
  }

  /** What happens once the encoder and the headers are settled: the
      transport is asked with exactly the method, the encoded request, the
      timeout and the chosen headers; a status other than `OK` is a
      failure whatever the decoder (it is never called), and `OK` with a
      decoded body is a success under the transport's trailers. */
  lemma TransportCall<Req, Res>(client: InternalClient, methodName: string, request: Req,
                                encoder: Req -> Outcome<seq<Byte>>, decoder: seq<Byte> -> Outcome<Res>,
                                other: seq<Byte> -> Outcome<Res>,
                                timeoutMillis: Option<Long>, headers: map<string, string>,
                                requestBytes: seq<Byte>, finalHeaders: map<string, string>,
                                response: TransportResponse)
    requires encoder(request) == Returned(requestBytes)
    requires SelectHeaders(headers, client.defaultHeaders) == Returned(finalHeaders)
    requires client.transport(UnaryCall(methodName, requestBytes, timeoutMillis, finalHeaders)) == Returned(response)
    ensures var r := Unary(client, methodName, request, encoder, decoder, timeoutMillis, headers);
            response.trailers.status != OK ==>
              r == Response.Failure(CallError(response.trailers.status, response.trailers.message, response.trailers))
              && r == Unary(client, methodName, request, encoder, other, timeoutMillis, headers)
    ensures var r := Unary(client, methodName, request, encoder, decoder, timeoutMillis, headers);
            response.trailers.status == OK && decoder(response.body).Returned? ==>
              r == Response.Success(decoder(response.body).value, response.trailers)
  {
  }

  /** A throw anywhere — encoder, header provider, transport or decoder —
      ends in the `catch` arm. */
  lemma ThrowsCaught<Req, Res>(client: InternalClient, methodName: string, request: Req,
                               encoder: Req -> Outcome<seq<Byte>>, decoder: seq<Byte> -> Outcome<Res>,
                               timeoutMillis: Option<Long>, headers: map<string, string>,
                               requestBytes: seq<Byte>, finalHeaders: map<string, string>,
                               message: Option<string>)
    requires encoder(request) == Returned(requestBytes)
    ensures SelectHeaders(headers, client.defaultHeaders) == Threw(message) ==>
              Unary(client, methodName, request, encoder, decoder, timeoutMillis, headers) == Caught(message)
    ensures SelectHeaders(headers, client.defaultHeaders) == Returned(finalHeaders)
            && client.transport(UnaryCall(methodName, requestBytes, timeoutMillis, finalHeaders)) == Threw(message) ==>
              Unary(client, methodName, request, encoder, decoder, timeoutMillis, headers) == Caught(message)
    ensures SelectHeaders(headers, client.defaultHeaders) == Returned(finalHeaders)
            && client.transport(UnaryCall(methodName, requestBytes, timeoutMillis, finalHeaders)).Returned?
            && client.transport(UnaryCall(methodName, requestBytes, timeoutMillis, finalHeaders)).value.trailers.status == OK
            && decoder(client.transport(UnaryCall(methodName, requestBytes, timeoutMillis, finalHeaders)).value.body)
               == Threw(message) ==>
              Unary(client, methodName, request, encoder, decoder, timeoutMillis, headers) == Caught(message)
  {
  }

  /** The runtime client behaves as the sdk client with no header
      provider, called without headers. */
  lemma RuntimeIsHeaderless<Req, Res>(transport: Transport, methodName: string, request: Req,
                                      encoder: Req -> Outcome<seq<Byte>>, decoder: seq<Byte> -> Outcome<Res>,
                                      timeoutMillis: Option<Long>, defaultTimeout: Option<Long>)
    ensures RuntimeUnary(transport, methodName, request, encoder, decoder, timeoutMillis)
         == Unary(InternalClient(transport, defaultTimeout, None), methodName, request, encoder, decoder,
                  timeoutMillis, map[])
  {
  }
}

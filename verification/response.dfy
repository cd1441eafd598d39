/** The sdk's call result, `Response<T>`: a decoded value with its
    trailers, or a `CallError` — and the combinators over it. Kotlin's
    `onSuccess`/`onFailure` run a side-effecting action; here they return
    the receiver together with the arguments the action was given, so the
    effect can be observed. */
module Responses {
  import opened Wrappers
  import opened GrpcStatus
  import opened Trailers

  /** `CallError(status, message, trailers)`. */
  datatype CallError = CallError(status: Status, message: Option<string>, trailers: GrpcTrailers)

  /** `Response.Success(value, trailers)` / `Response.Failure(error)`. */
  datatype Response<+T> = Success(value: T, trailers: GrpcTrailers) | Failure(error: CallError)

  /** `onSuccess(action)`: the receiver, and the values `action` ran on. */
  function OnSuccess<T>(r: Response<T>): (out: (Response<T>, seq<T>))
    ensures out.0 == r
    ensures |out.1| <= 1
    ensures |out.1| == 1 <==> r.Success?
    ensures |out.1| == 1 ==> out.1[0] == r.value
  {
    (r, if r.Success? then [r.value] else [])
  }

  /** `onFailure(action)`: the receiver, and the errors `action` ran on. */
  function OnFailure<T>(r: Response<T>): (out: (Response<T>, seq<CallError>))
    ensures out.0 == r
    ensures |out.1| <= 1
    ensures |out.1| == 1 <==> r.Failure?
    ensures |out.1| == 1 ==> out.1[0] == r.error
  {
    (r, if r.Failure? then [r.error] else [])
  }

  /** Of a chained `onSuccess { … }.onFailure { … }`, exactly one action
      runs. */
  lemma ExactlyOneAction<T>(r: Response<T>)
    ensures |OnSuccess(r).1| + |OnFailure(OnSuccess(r).0).1| == 1
  {
  }

  predicate IsSuccess<T>(r: Response<T>) {
    r.Success?
  }

  predicate IsFailure<T>(r: Response<T>) {
    r.Failure?
  }

  /** `isSuccess` and `isFailure` always disagree. */
  lemma SuccessOrFailure<T>(r: Response<T>)
    ensures IsSuccess(r) == !IsFailure(r)
  {
  }

  /** `getModelOrNull()`. */
  function GetModelOrNull<T>(r: Response<T>): (m: Option<T>)
    ensures m.Some? <==> IsSuccess(r)
    ensures m.Some? ==> m.value == r.value
  {
    if r.Success? then Some(r.value) else None
  }

  /** `getError()`. */
  function GetError<T>(r: Response<T>): (e: Option<CallError>)
    ensures e.Some? <==> IsFailure(r)
    ensures e.Some? ==> e.value == r.error
  {
    if r.Failure? then Some(r.error) else None
  }

  /** `getTrailers()`: a failure's trailers are its error's. */
  function GetTrailers<T>(r: Response<T>): (t: GrpcTrailers)
    ensures r.Success? ==> t == r.trailers
    ensures r.Failure? ==> t == r.error.trailers
  {
    match r
    case Success(_, trailers) => trailers
    case Failure(error) => error.trailers
  }

  /** The three getters lose nothing: exactly one of model and error is
      present, and with the trailers they rebuild the response. */
  lemma GettersDetermine<T>(r: Response<T>)
    ensures GetModelOrNull(r).Some? != GetError(r).Some?
    ensures GetModelOrNull(r).Some? ==> r == Response.Success(GetModelOrNull(r).value, GetTrailers(r))
    ensures GetError(r).Some? ==> r == Response.Failure(GetError(r).value)
  {
  }

  /** `map(transform)`: a success's value transformed under the same
      trailers; a failure unchanged. */
  function Map<T, R>(r: Response<T>, f: T -> R): (m: Response<R>)
    ensures IsSuccess(m) == IsSuccess(r)
    ensures GetTrailers(m) == GetTrailers(r)
    ensures GetError(m) == GetError(r)
    ensures r.Success? ==> GetModelOrNull(m) == Some(f(r.value))
  {
    match r
    case Success(v, trailers) => Response.Success(f(v), trailers)
    case Failure(error) => Response.Failure(error)
  }

  /** The functor laws: mapping the identity changes nothing, and two
      maps are one map of the composition. */
  lemma MapIdentity<T>(r: Response<T>)
    ensures Map(r, x => x) == r
  {
  }

  lemma MapCompose<T, U, R>(r: Response<T>, f: T -> U, g: U -> R)
    ensures Map(Map(r, f), g) == Map(r, x => g(f(x)))
  {
  }
}

/** The `Result` tagged union of `Spy` and the promise outcome an async spy hands out. */
module Results {

  /** A success or failure outcome; the constructor plays the role of the `_tag` field. */
  datatype Result<E, A> = Failure(failure: E) | Success(success: A)

  /** `Result.success(v)`: tag Success, payload `v`. */
  function SuccessOf<E, A>(v: A): (r: Result<E, A>)
    ensures IsSuccess(r) && !IsFailure(r)
    ensures r.success == v
  {
    Success(v)
  }

  /** `Result.failure(e)`: tag Failure, payload `e`. */
  function FailureOf<E, A>(e: E): (r: Result<E, A>)
    ensures IsFailure(r) && !IsSuccess(r)
    ensures r.failure == e
  {
    Failure(e)
  }

  /** `Result.isSuccess`: the tag is Success. */
  predicate IsSuccess<E, A>(r: Result<E, A>)
  {
    r.Success?
  }

  /** `Result.isFailure`: the tag is Failure. */
  predicate IsFailure<E, A>(r: Result<E, A>)
  {
    r.Failure?
  }

  /** The two classifications are mutually exclusive and exhaustive, and each
      result is rebuilt by the constructor its classification names. */
  lemma Classification<E, A>(r: Result<E, A>)
    ensures IsSuccess(r) != IsFailure(r)
    ensures IsSuccess(r) ==> r == SuccessOf(r.success)
    ensures IsFailure(r) ==> r == FailureOf(r.failure)
  {
  }

  /** A settled promise: fulfilled with a value or rejected with a reason. */
  datatype Settled<E, A> = Fulfilled(value: A) | Rejected(reason: E)

  /** The result map of the async spy: a success becomes a resolved promise
      carrying its payload, a failure a rejected one carrying its payload. */
  function ToPromise<E, A>(r: Result<E, A>): (p: Settled<E, A>)
    ensures p.Fulfilled? <==> IsSuccess(r)
    ensures p.Rejected? <==> IsFailure(r)
    ensures p.Fulfilled? ==> p.value == r.success
    ensures p.Rejected? ==> p.reason == r.failure
  {
    if IsSuccess(r) then Fulfilled(r.success) else Rejected(r.failure)
  }

  /** How a caller classifies a settled promise: `.then(Result.success)` on
      fulfilment, `.catch(Result.failure)` on rejection. */
  function Classify<E, A>(p: Settled<E, A>): (r: Result<E, A>)
    ensures IsSuccess(r) <==> p.Fulfilled?
  {
    match p
    case Fulfilled(v) => SuccessOf(v)
    case Rejected(e) => FailureOf(e)
  }

  /** Classifying the promise made from a result gives back that very result. */
  lemma ClassifyToPromise<E, A>(r: Result<E, A>)
    ensures Classify(ToPromise(r)) == r
  {
  }

  /** ...and the promise rebuilt from a classification is the one classified. */
  lemma ToPromiseClassify<E, A>(p: Settled<E, A>)
    ensures ToPromise(Classify(p)) == p
  {
  }
}

/**
 * `safe_api_call` (utils/annotator.py): GET a URL up to `retries` times and
 * return the decoded JSON of the first attempt that works.
 *
 * The HTTP round trip (request, status check, JSON decoding) is not
 * modelled: what the network does on the k-th attempt (counting from 0) is
 * given as `respond(k)`, either the decoded payload or the exception the
 * attempt raised, reduced to its message. `time.sleep(delay)` is modelled
 * by counting the pauses.
 */
module SafeApi {

  /** What one attempt produced: the decoded JSON body, or the exception it raised. */
  datatype Attempt<P> = Success(payload: P) | Failure(reason: string)

  /**
   * What a call to `safe_api_call` ends in: it returns a payload, it returns
   * `None` without trying, or the exception of its last attempt escapes.
   */
  datatype CallResult<P> = Returned(payload: P) | NothingReturned | Raised(reason: string)

  /** The outcome of the call from attempt number `attempt` on, as the loop of the source runs it. */
  function CallFrom<P>(retries: int, respond: nat -> Attempt<P>, attempt: nat): CallResult<P>
    decreases retries - attempt
  {
    if attempt >= retries then NothingReturned
    else match respond(attempt)
      case Success(p) => Returned(p)
      case Failure(e) => if attempt == retries - 1 then Raised(e) else CallFrom(retries, respond, attempt + 1)
  }

  /** The outcome of `safe_api_call(url, retries=retries)` against the network `respond`. */
  function Call<P>(retries: int, respond: nat -> Attempt<P>): CallResult<P> {
    CallFrom(retries, respond, 0)
  }

  /**
   * The retry loop. Besides the outcome it reports how many requests it
   * made and how many times it paused.
   */
  method SafeApiCall<P>(retries: int, respond: nat -> Attempt<P>) returns (r: CallResult<P>, attempts: nat, delays: nat)
    ensures r == Call(retries, respond)
    ensures attempts == 0 <==> retries <= 0
    ensures retries > 0 ==> attempts <= retries
    ensures r.NothingReturned? <==> attempts == 0
    // every attempt before the last one failed ...
    ensures forall k :: 0 <= k < attempts - 1 ==> respond(k).Failure?
    // ... and the loop stopped at the first success, returning its payload
    ensures r.Returned? ==> attempts > 0 && respond(attempts - 1) == Success(r.payload)
    // it raises only when the last permitted attempt failed, with that attempt's exception
    ensures r.Raised? ==> attempts == retries && respond(attempts - 1) == Failure(r.reason)
    ensures attempts > 0 && respond(attempts - 1).Success? ==> r.Returned?
    // a pause after each failed attempt except the last
    ensures delays == if attempts == 0 then 0 else attempts - 1
  {
    attempts, delays := 0, 0;
    var attempt := 0;
    while attempt < retries
      invariant retries > 0 ==> attempt < retries
      invariant retries <= 0 ==> attempt == 0
      invariant attempts == attempt && delays == attempt
      invariant forall k :: 0 <= k < attempt ==> respond(k).Failure?
      invariant Call(retries, respond) == CallFrom(retries, respond, attempt)
    {
      attempts := attempts + 1;
      match respond(attempt) {
        case Success(p) =>
          r := Returned(p);
          return;
        case Failure(e) =>
          if attempt == retries - 1 {
            r := Raised(e);
            return;
          }
          delays := delays + 1;
      }
      attempt := attempt + 1;
    }
    r := NothingReturned;
  }

  lemma {:induction false} CallFromFirstSuccess<P>(retries: int, respond: nat -> Attempt<P>, start: nat, k: nat)
    requires start <= k < retries
    requires respond(k).Success?
    requires forall j :: start <= j < k ==> respond(j).Failure?
    ensures CallFrom(retries, respond, start) == Returned(respond(k).payload)
    decreases k - start
  {
    if start < k {
      CallFromFirstSuccess(retries, respond, start + 1, k);
    }
  }

  /** When attempt `k` is the first to succeed, within the budget, the call returns its payload. */
  lemma CallFirstSuccess<P>(retries: int, respond: nat -> Attempt<P>, k: nat)
    requires k < retries
    requires respond(k).Success?
    requires forall j :: 0 <= j < k ==> respond(j).Failure?
    ensures Call(retries, respond) == Returned(respond(k).payload)
  {
    CallFromFirstSuccess(retries, respond, 0, k);
  }

  lemma {:induction false} CallFromAllFail<P>(retries: int, respond: nat -> Attempt<P>, start: nat)
    requires start < retries
    requires forall j :: start <= j < retries ==> respond(j).Failure?
    ensures CallFrom(retries, respond, start) == Raised(respond(retries - 1).reason)
    decreases retries - start
  {
    if start < retries - 1 {
      CallFromAllFail(retries, respond, start + 1);
    }
  }

  /** When every permitted attempt fails, the exception of the last one escapes. */
  lemma CallAllFail<P>(retries: int, respond: nat -> Attempt<P>)
    requires retries > 0
    requires forall j :: 0 <= j < retries ==> respond(j).Failure?
    ensures Call(retries, respond) == Raised(respond(retries - 1).reason)
  {
    CallFromAllFail(retries, respond, 0);
  }

  lemma {:induction false} CallFromReturned<P>(retries: int, respond: nat -> Attempt<P>, start: nat)
    requires CallFrom(retries, respond, start).Returned?
    ensures exists k: nat :: start <= k < retries && respond(k) == Success(CallFrom(retries, respond, start).payload)
                           && forall j :: start <= j < k ==> respond(j).Failure?
    decreases retries - start
  {
    if respond(start).Failure? {
      CallFromReturned(retries, respond, start + 1);
    } else {
      assert start < retries && respond(start) == Success(CallFrom(retries, respond, start).payload);
    }
  }

  /** A returned payload is that of some permitted attempt, and every attempt before it failed. */
  lemma CallReturnedOnlyFirstSuccess<P>(retries: int, respond: nat -> Attempt<P>)
    requires Call(retries, respond).Returned?
    ensures exists k: nat :: k < retries && respond(k) == Success(Call(retries, respond).payload)
                           && forall j :: 0 <= j < k ==> respond(j).Failure?
  {
    CallFromReturned(retries, respond, 0);
  }

  lemma {:induction false} CallFromRaised<P>(retries: int, respond: nat -> Attempt<P>, start: nat)
    requires CallFrom(retries, respond, start).Raised?
    ensures start < retries
    ensures forall j :: start <= j < retries ==> respond(j).Failure?
    ensures respond(retries - 1) == Failure(CallFrom(retries, respond, start).reason)
    decreases retries - start
  {
    if start < retries - 1 {
      CallFromRaised(retries, respond, start + 1);
    }
  }

  /** The call raises only when every permitted attempt failed, and then with the last one's exception. */
  lemma CallRaisedOnlyAllFail<P>(retries: int, respond: nat -> Attempt<P>)
    requires Call(retries, respond).Raised?
    ensures retries > 0
    ensures forall j :: 0 <= j < retries ==> respond(j).Failure?
    ensures respond(retries - 1) == Failure(Call(retries, respond).reason)
  {
    CallFromRaised(retries, respond, 0);
  }

  lemma {:induction false} CallFromNotNothing<P>(retries: int, respond: nat -> Attempt<P>, start: nat)
    requires start < retries
    ensures !CallFrom(retries, respond, start).NothingReturned?
    decreases retries - start
  {
    if start < retries - 1 {
      CallFromNotNothing(retries, respond, start + 1);
    }
  }

  /** The loop falls through to `return None` exactly when no request is made at all. */
  lemma CallNothingIffNoRetries<P>(retries: int, respond: nat -> Attempt<P>)
    ensures Call(retries, respond) == NothingReturned <==> retries <= 0
  {
    if retries > 0 {
      CallFromNotNothing(retries, respond, 0);
    }
  }
}

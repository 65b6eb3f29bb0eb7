/**
 How a failed call to the image service is reported to the user: the error is
 sorted into one of four kinds, tested in a fixed order, purely to pick the
 message shown; every kind then falls back to a placeholder image.
 */
module RemoteErrors {
  import opened Optional
  import opened Strings

  /** What the image client throws: an HTTP status, when there is one, and a message. */
  datatype RemoteError = RemoteError(status: Option<int>, message: string)

  datatype ErrorKind = BillingLimit | QuotaExceeded | RateLimited | OtherFailure

  /** The evidence that marks an error as being of a given kind. */
  predicate Signals(k: ErrorKind, e: RemoteError) {
    match k
    case BillingLimit => Contains(e.message, "Billing hard limit")
    case QuotaExceeded => Contains(e.message, "quota")
    case RateLimited => e.status == Some(429) || Contains(e.message, "Too Many Requests")
    case OtherFailure => true
  }

  /** The kind of the first test that fires: a billing message beats a quota
      message, which beats an HTTP 429 or a "Too Many Requests" message; an
      error with none of these is OtherFailure. */
  function ClassifyError(e: RemoteError): (k: ErrorKind)
    ensures k == BillingLimit <==> Signals(BillingLimit, e)
    ensures k == QuotaExceeded <==> !Signals(BillingLimit, e) && Signals(QuotaExceeded, e)
    ensures k == RateLimited <==>
      !Signals(BillingLimit, e) && !Signals(QuotaExceeded, e) && Signals(RateLimited, e)
    ensures k == OtherFailure <==>
      !Signals(BillingLimit, e) && !Signals(QuotaExceeded, e) && !Signals(RateLimited, e)
  {
    if Contains(e.message, "Billing hard limit") then BillingLimit
    else if Contains(e.message, "quota") then QuotaExceeded
    else if e.status == Some(429) || Contains(e.message, "Too Many Requests") then RateLimited
    else OtherFailure
  }

  /** A 429 status is reported as the service's rate limit unless the message
      speaks of the billing limit or the quota, which take precedence. */
  lemma Status429IsRateLimited(message: string)
    ensures ClassifyError(RemoteError(Some(429), message)) ==
      if Contains(message, "Billing hard limit") then BillingLimit
      else if Contains(message, "quota") then QuotaExceeded
      else RateLimited
  {
  }
}

/**
 * The exceptions the persistence layer can raise, and the error-swallowing
 * behaviour of the `async_db_client` context manager around every store call.
 */
module Errors {

  /** The application's HTTP exception classes (carto/api/exceptions.py). */
  datatype HttpErrorClass = BadRequest | Forbidden | NotFound

  function StatusCode(c: HttpErrorClass): (code: int)
    ensures 400 <= code < 500
    ensures c == NotFound <==> code == 404
  {
    match c
    case BadRequest => 400
    case Forbidden => 403
    case NotFound => 404
  }

  /** What a persistence operation can raise. */
  datatype Exception =
    | HttpError(cls: HttpErrorClass, detail: string)
    | TransportError      // a non-`ClientError` failure of a store call: not swallowed
    | UnboundLocalError   // `return result` after the put was swallowed
    | TypeError           // `len(None)` in `paginate`
    | AttributeError      // `self.properties.version` once `properties` is a plain dict

  /** How the transport behaves on one store call. */
  datatype Fault = Healthy | ClientFault | OtherFault

  /** The Python-level result of an operation: a value, `None`, or an exception. */
  datatype Outcome<+T> = Returned(value: T) | ReturnedNone | Raised(error: Exception)

  /** The transport behaviour of the `i`-th store call; calls past the list are healthy. */
  function FaultAt(faults: seq<Fault>, i: nat): Fault
  {
    if i < |faults| then faults[i] else Healthy
  }

  /**
   * The outcome of an operation whose store call failed: a `ClientError` is
   * swallowed by `async_db_client`, after which the operation goes on to
   * `afterSwallow`; any other failure propagates.
   */
  function Swallow<T>(fault: Fault, afterSwallow: Outcome<T>): (o: Outcome<T>)
    requires fault != Healthy
    ensures fault == ClientFault ==> o == afterSwallow
    ensures fault == OtherFault ==> o == Raised(TransportError)
  {
    if fault == ClientFault then afterSwallow else Raised(TransportError)
  }
}

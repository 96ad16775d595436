/** Shared wrappers: optional values and the HTTP errors the handlers raise. */
module Common {

  datatype Option<+T> = None | Some(value: T)

  /** The `detail` of an HTTPException. A handler that catches an exception and
      re-raises it as a 500 keeps the caught exception as the cause of the new one. */
  datatype Detail = Message(text: string) | Wrapped(context: string, cause: HttpError)

  datatype HttpError = HttpError(status: nat, detail: Detail)

  datatype Result<+T> = Ok(value: T) | Err(error: HttpError)

  /** `raise HTTPException(status_code=status, detail=text)` */
  function Raise(status: nat, text: string): (e: HttpError)
    ensures e.status == status && e.detail.Message?
  {
    HttpError(status, Message(text))
  }

  /** `except Exception as e: raise HTTPException(status_code=500, detail=f"{context}: {str(e)}")` */
  function Rethrow500(context: string, cause: HttpError): (e: HttpError)
    ensures e.status == 500 && Cause(e) == Some(cause)
  {
    HttpError(500, Wrapped(context, cause))
  }

  /** The exception a wrapped error was raised from, if any. */
  function Cause(e: HttpError): Option<HttpError>
  {
    match e.detail
    case Message(_) => None
    case Wrapped(_, c) => Some(c)
  }
}

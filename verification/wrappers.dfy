/** Failure-carrying wrappers shared by every module of the model, and the
    exceptions the modelled code raises. */
module Wrappers {

  /** Python's `Optional[T]`: `None` or a present value. */
  datatype Option<+T> = None | Some(value: T)

  /** The outcome of an operation that may raise instead of returning. */
  datatype Result<+R, +E> = Success(value: R) | Failure(error: E)

  /** The outcome of a use case together with every value it handed to a
      repository's `create`, in call order. */
  datatype Recorded<+R, +C> = Recorded(result: Result<R, Exception>, created: seq<C>)

  /** The exceptions the modelled code raises, with the message it attaches. */
  datatype Exception =
    | ValueError(message: string)
    | NotImplementedError(message: string)
    | HttpException(status: int, detail: string)
}

/** The domain's error vocabulary: error codes and the domain exception that carries one. */
module DomainErrors {
  import opened Common

  /** The group an error code reports unless its implementation overrides getGroup. */
  const DEFAULT_GROUP: string := "INTERNAL_ERROR"

  /** An error code: getCode, getMessage and getGroup; an overriding getGroup may return null. */
  datatype ErrorCode = ErrorCode(code: string, message: string, group: Option<string>)

  /** An error code whose implementation keeps the interface's default getGroup. */
  function DefaultGroupCode(code: string, message: string): (e: ErrorCode)
    ensures e.code == code && e.message == message && e.group == Some(DEFAULT_GROUP)
  {
    ErrorCode(code, message, Some(DEFAULT_GROUP))
  }

  /** A domain exception: its error code and its own message, which need not be the code's. */
  datatype DomainException = DomainException(errorCode: ErrorCode, message: string)
  {
    function GetCode(): string { errorCode.code }
    function GetGroup(): Option<string> { errorCode.group }
  }

  /** The one-argument constructor: the exception's message is the error code's message. */
  function FromErrorCode(errorCode: ErrorCode): (e: DomainException)
    ensures e.errorCode == errorCode && e.message == errorCode.message
  {
    DomainException(errorCode, errorCode.message)
  }
}

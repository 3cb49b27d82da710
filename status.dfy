/** gtl/status.h: the Status value every operation returns, with the codes
    of error::Error. Status is a value: copying it keeps code and message. */
module GtlStatus {

  const OK: int := 0
  const CANCELLED: int := 1
  const UNKNOWN: int := 2
  const INVALID_ARGUMENT: int := 3
  const DEADLINE_EXCEEDED: int := 4
  const NOT_FOUND: int := 5
  const ALREADY_EXISTS: int := 6
  const PERMISSION_DENIED: int := 7
  const UNAUTHENTICATED: int := 16
  const RESOURCE_EXHAUSTED: int := 8
  const FAILED_PRECONDITION: int := 9
  const ABORTED: int := 10
  const OUT_OF_RANGE: int := 11
  const UNIMPLEMENTED: int := 12
  const INTERNAL: int := 13
  const UNAVAILABLE: int := 14
  const DATA_LOSS: int := 15

  datatype Status = Status(code: int, message: string) {

    /** Status::ok(): the code is OK. */
    predicate Ok() {
      code == OK
    }

    /** Status::ToString(): "OK" for an ok status, otherwise the message
        quoted after "ERROR ". */
    function ToString(): (s: string)
      ensures s == "OK" <==> Ok()
      ensures !Ok() ==> |s| == |message| + 8 && s[..7] == "ERROR '" &&
                        s[7..|s| - 1] == message && s[|s| - 1] == '\''
    {
      if Ok() then "OK" else "ERROR '" + message + "'"
    }
  }

  /** The default constructor Status(): code OK, empty message. */
  function OkStatus(): (s: Status)
    ensures s.Ok() && s.message == ""
  {
    Status(OK, "")
  }

  /** The single-argument constructor Status(code): an empty message. */
  function FromCode(code: int): (s: Status)
    ensures s.Ok() <==> code == OK
    ensures s.message == ""
  {
    Status(code, "")
  }

  /** atl::StatusOr: a value or a failed status. */
  datatype StatusOr<T> = Value(value: T) | Error(status: Status)
}

/**
 * The result types of the catalog interface: a status code and, for the
 * queries, a value that is present only on success.
 */
module Status {

  datatype StatusType = SUCCESS | ALLOCATION_ERROR | INVALID_INPUT | FAILURE

  /** output_t<T>: either a failure status or a value (whose status is SUCCESS). */
  datatype Output<T> = Error(code: StatusType) | Value(ans: T)
  {
    function Status(): StatusType
    {
      if Value? then SUCCESS else code
    }
  }
}

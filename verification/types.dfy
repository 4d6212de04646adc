/** Shared vocabulary of the restore pipeline: bytes, optional values and the
    errno-style status codes that the loader returns. */
module Types {

  /** One byte of a page, as the loader's `void *` buffers hold them. */
  type byte = x: int | 0 <= x < 256

  datatype Option<+T> = None | Some(value: T)

  /** The outcome of a loader routine.  `Ok` stands for a zero return; the
      others for the negated errno values the loader returns. */
  datatype Status = Ok | Eio | Einval | Efault {

    /** The integer the C routine returns for this status. */
    function Code(): (c: int)
      ensures c == 0 <==> this == Ok
      ensures c <= 0
    {
      match this
      case Ok => 0
      case Eio => -5
      case Einval => -22
      case Efault => -14
    }
  }
}

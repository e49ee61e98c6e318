/** Shared result types. */
module Common {
  datatype Option<+T> = None | Some(value: T)

  /** `YMO_OKAY` and the errno values the modelled code returns. */
  datatype Status =
    | OKAY
    | EINVAL | ENOENT | ENOBUFS | EBADMSG | EILSEQ | EOVERFLOW | EFBIG
    | EADDRNOTAVAIL | EPIPE | ECONNABORTED | EAGAIN
    | OtherErrno(code: int)
}

/** Shared vocabulary of the driver: optional values and the POSIX error
    numbers that the connector and device `errno` fields accumulate. */
module Common {

  /** A value that may be absent; stands for a possibly-NULL pointer. */
  datatype Option<+T> = None | Some(value: T)

  /** The `errno` fields of connectors and devices hold POSIX error numbers
      combined with bitwise OR. The numeric values are those of newlib's
      <errno.h>, the C library of the Pico SDK. */
  type Errno = bv32

  const ENODEV: Errno := 19
  const EBUSY: Errno := 16
  const EINVAL: Errno := 22
  const ENOTSUP: Errno := 134

  /** `errno |= e`: an accumulated error field never loses a bit it held. */
  function OrErrno(errno: Errno, e: Errno): (r: Errno)
    ensures r & errno == errno
    ensures r & e == e
  {
    errno | e
  }

  /** Recording the same error twice is recording it once. */
  lemma OrErrnoTwice(errno: Errno, e: Errno)
    ensures OrErrno(OrErrno(errno, e), e) == OrErrno(errno, e)
  {
  }
}

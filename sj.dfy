/** Shared vocabulary of SJNetSock: the byte, the three-way status, the
    blocking mode and the errno values the library tests for. */
module Sj {

  /** One `char` of the library's queues and buffers, as its unsigned value. */
  type byte = x: int | 0 <= x < 256

  /** Result of every fallible operation (SJNetSock.hpp:28-36). */
  datatype Status = ERROR | OK | UNAVAILABLE

  /** Fixed at construction of a socket (SJNetSock.hpp:38-41). */
  datatype Mode = BLOCKING | NON_BLOCKING

  datatype Option<T> = None | Some(value: T)

  /** On Linux both names denote errno 11. */
  const EAGAIN: int := 11
  const EWOULDBLOCK: int := 11

  /** How a failed `recv` or `send` (return value -1) is reported: only a
      non-blocking socket whose call would have blocked is UNAVAILABLE. */
  function FailureStatus(mode: Mode, errno: int): (s: Status)
    ensures s != OK
    ensures s == UNAVAILABLE <==> mode == NON_BLOCKING && (errno == EAGAIN || errno == EWOULDBLOCK)
  {
    if mode == NON_BLOCKING && (errno == EAGAIN || errno == EWOULDBLOCK) then UNAVAILABLE else ERROR
  }
}

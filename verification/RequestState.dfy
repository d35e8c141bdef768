/** The request state: a word of flag bits, and the macros that test, set and clear them
    (incs/RequestContext.hpp). */
module RequestState {

  const REQ_BUFFER_SIZE := 65536

  type Flags = bv32

  const NONE: Flags := 0x0
  const READ_REQUEST_LINE_COMPLETE: Flags := 0x1
  const READ_HEADERS_COMPLETE: Flags := 0x2
  const CLIENT_READ_COMPLETE: Flags := 0x3
  const READ_COMPLETE: Flags := 0x7
  const WORK_IN_COMPLETE: Flags := 0x10
  const WORK_OUT_COMPLETE: Flags := 0x20
  const CGI_IN_COMPLETE: Flags := 0x40
  const CGI_OUT_COMPLETE: Flags := 0x80
  const WORK_COMPLETE: Flags := 0xF0
  const CAN_WRITE: Flags := 0x100
  const CGI_HEADERS_COMPLETE: Flags := 0x400

  /** IS_REQ_... */
  predicate Is(x: Flags, mask: Flags) {
    x & mask == mask
  }

  /** SET_REQ_... */
  function Set(x: Flags, mask: Flags): (r: Flags)
    ensures Is(r, mask)
  {
    x | mask
  }

  /** UNSET_REQ_... */
  function Unset(x: Flags, mask: Flags): (r: Flags)
    ensures r & mask == 0
  {
    x & !mask
  }
}

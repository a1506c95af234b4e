/** Types and status codes shared by every part of the capture model. */
module Common {

  /** An unsigned 8-bit value: one element of the BYTE buffers the capture program handles. */
  type Byte = x: int | 0 <= x < 256

  /** A value that may be absent. */
  datatype Option<+T> = None | Some(value: T)

  /** A 32-bit signed HRESULT. */
  type HResult = x: int | -0x8000_0000 <= x < 0x8000_0000

  /** An HRESULT returned where a DWORD is declared keeps its bit pattern: it is read modulo 2^32. */
  function AsDword(hr: HResult): (d: int)
    ensures 0 <= d < 0x1_0000_0000
    ensures hr >= 0 ==> d == hr
    ensures hr < 0 ==> d == hr + 0x1_0000_0000
  {
    hr % 0x1_0000_0000
  }

  /** The status CaptureFrame returns once a source reader exists and a format was set (S_OK). */
  const StatusOk: int := 0

  /** The status CaptureFrame returns when no native media type could be set (ERROR_UNSUPPORTED_TYPE, 1630). */
  const ErrorUnsupportedType: int := 1630
}

/** Bytes on the terminal line: the escape sequences kilo writes, and what one
    `read(fd, &c, 1)` or one `write(fd, buf, n)` can report. */
module Terminal {

  datatype Option<+T> = None | Some(value: T)

  /** An 8-bit byte as `read` and `write` move it. */
  newtype byte = b: int | 0 <= b < 256

  const ESC: byte := 0x1b
  const LBRACKET: byte := '[' as byte
  const SEMI: byte := ';' as byte
  const NUL: byte := 0

  /** ED, ERASE IN PAGE with parameter 2: the whole page (ECMA-48, section 8.3.39). */
  const ERASE_DISPLAY: seq<byte> := [ESC, LBRACKET, '2' as byte, 'J' as byte]
  /** CUP with no parameters: cursor to row 1, column 1 (ECMA-48, section 8.3.21). */
  const CURSOR_HOME: seq<byte> := [ESC, LBRACKET, 'H' as byte]
  /** CUF 999 then CUD 999: as far right, then as far down, as the screen allows. */
  const CURSOR_TO_BOUND: seq<byte> :=
    [ESC, LBRACKET, '9' as byte, '9' as byte, '9' as byte, 'C' as byte,
     ESC, LBRACKET, '9' as byte, '9' as byte, '9' as byte, 'B' as byte]
  /** DSR with parameter 6: ask for a cursor position report (ECMA-48, section 8.3.35). */
  const DEVICE_STATUS_REPORT: seq<byte> := [ESC, LBRACKET, '6' as byte, 'n' as byte]

  /** Linux errno for "resource temporarily unavailable". */
  const EAGAIN: int := 11

  /** The outcome of one one-byte `read`: a byte, zero bytes (the VTIME timeout
      expired or end of file), or -1 with an errno. */
  datatype ReadResult = Got(b: byte) | Nothing | Failed(errno: int)

  /** The bytes a `write(fd, bytes, |bytes|)` that returned `n` put on the line. */
  function Written(bytes: seq<byte>, n: int): (w: seq<byte>)
    requires -1 <= n <= |bytes|
    ensures |w| == if n < 0 then 0 else n
    ensures bytes == w + bytes[|w|..]
  {
    if n < 0 then [] else bytes[..n]
  }

  /** Each sequence is as long as the count kilo passes to `write` with it. */
  lemma WriteLengthsMatch()
    ensures |ERASE_DISPLAY| == 4 && |CURSOR_HOME| == 3
    ensures |CURSOR_TO_BOUND| == 12 && |DEVICE_STATUS_REPORT| == 4
  {
  }
}

/** The fixed-width integer types of the Windows API, as bounded integers. */
module WinTypes {

  const DWORD_LIMIT: int := 0x1_0000_0000

  /** BYTE: an unsigned 8-bit integer. */
  type Byte = x: int | 0 <= x < 0x100

  /** WORD: an unsigned 16-bit integer. */
  type Word = x: int | 0 <= x < 0x1_0000

  /** DWORD (and UINT): an unsigned 32-bit integer. */
  type Dword = x: int | 0 <= x < DWORD_LIMIT

  /** LONGLONG (the QuadPart of a LARGE_INTEGER): a signed 64-bit integer. */
  type LongLong = x: int | -0x8000_0000_0000_0000 <= x < 0x8000_0000_0000_0000
}

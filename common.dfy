/** Small shared vocabulary: an optional value, machine integer ranges, bytes and C strings. */
module Common {

  /** A value that may be absent: the model of a C pointer that may be NULL. */
  datatype Option<+T> = None | Some(value: T)

  /** An unsigned char. */
  type byte = x: int | 0 <= x < 256

  /** An unsigned int of the LP64 platforms the code targets. */
  type uint32 = x: int | 0 <= x < 0x1_0000_0000

  const UINT32_MODULUS: int := 0x1_0000_0000
  const UINT64_MODULUS: int := 0x1_0000_0000_0000_0000

  /** LONG_MAX on an LP64 platform. */
  const LONG_MAX: int := 0x7FFF_FFFF_FFFF_FFFF

  /** Subtraction on an unsigned 64-bit counter, which wraps below zero. */
  function SubU64(a: int, b: int): (r: int)
    ensures 0 <= r < UINT64_MODULUS
    ensures 0 <= b <= a < UINT64_MODULUS ==> r == a - b
  {
    (a - b) % UINT64_MODULUS
  }

  /** The conversion of an unsigned long to a C `int` (two's complement truncation). */
  function ToInt32(x: nat): (r: int)
    ensures -0x8000_0000 <= r < 0x8000_0000
    ensures x < 0x8000_0000 ==> r == x
    ensures x >= 0x8000_0000 ==> r != x
  {
    var low := x % UINT32_MODULUS;
    if low < 0x8000_0000 then low else low - UINT32_MODULUS
  }

  /** What a C string function sees of a byte buffer: the bytes before the first NUL. */
  function CString(s: seq<byte>): (r: seq<byte>)
    ensures 0 !in r && |r| <= |s| && r == s[..|r|]
    ensures |r| < |s| ==> s[|r|] == 0
    ensures 0 !in s ==> r == s
  {
    if s == [] || s[0] == 0 then [] else [s[0]] + CString(s[1..])
  }
}

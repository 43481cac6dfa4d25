/** Machine integers, bytes and the Option type shared by the whole model.
    The patched program is a 32-bit Windows DLL: `int`, `LONG` and `DWORD`
    are 32 bits wide and every narrowing conversion is written out here. */
module Common {

  datatype Option<T> = None | Some(value: T)

  const TwoTo32: int := 0x1_0000_0000
  const TwoTo31: int := 0x8000_0000

  /** A C `int` / `LONG` of the 32-bit target. */
  newtype int32 = x: int | -0x8000_0000 <= x < 0x8000_0000

  /** A C `BYTE`. */
  newtype byte = x: int | 0 <= x < 0x100

  /** A C `UINT` / `DWORD` of the 32-bit target. */
  newtype uint32 = x: int | 0 <= x < 0x1_0000_0000

  /** Two's-complement wrap-around of an arbitrary integer into 32 bits:
      what MSVC does for a narrowing cast or an overflowing signed subtraction. */
  function Wrap32(x: int): (r: int32)
    ensures (r as int - x) % TwoTo32 == 0
    ensures -TwoTo31 <= x < TwoTo31 ==> r as int == x
  {
    var m := x % TwoTo32;
    if m < TwoTo31 then m as int32 else (m - TwoTo32) as int32
  }

  /** Conversion of an unsigned 32-bit value to a signed one (`int i = u;`). */
  function ToInt32(u: uint32): (r: int32)
    ensures u as int < TwoTo31 ==> r as int == u as int
    ensures u as int >= TwoTo31 ==> r as int == u as int - TwoTo32
  {
    Wrap32(u as int)
  }

  /** Conversion of a signed 32-bit value to an unsigned one (`UINT u = i;`). */
  function ToUint32(x: int32): (r: uint32)
    ensures x >= 0 ==> r as int == x as int
    ensures x < 0 ==> r as int == x as int + TwoTo32
  {
    (x as int % TwoTo32) as uint32
  }

  /** `static_cast<BYTE>(x & 0xFF)`: the low eight bits of the two's-complement value. */
  function ByteOf(x: int): (b: byte)
    ensures b as int == x % 256
  {
    (x % 256) as byte
  }

  /** Little-endian unsigned 32-bit word stored at `b[i..i+4]`. */
  function DecodeU32LE(b: seq<byte>, i: nat): (w: nat)
    requires i + 4 <= |b|
    ensures w < TwoTo32
  {
    b[i] as int + 0x100 * b[i + 1] as int + 0x1_0000 * b[i + 2] as int + 0x100_0000 * b[i + 3] as int
  }

  /** The two low bytes of any integer, as `x & 0xFF` and `(x >> 8) & 0xFF`
      (an arithmetic shift, which for two's complement is a floor division),
      together make up the integer modulo 65536. */
  lemma LowHalfWord(x: int)
    ensures ByteOf(x) as int + 256 * ByteOf(x / 256) as int == x % 0x1_0000
  {
    var q := x / 256;
    var q2 := q / 256;
    assert x == 256 * q + x % 256;
    assert q == 256 * q2 + q % 256;
    assert x == 0x1_0000 * q2 + (256 * (q % 256) + x % 256);
    assert 0 <= 256 * (q % 256) + x % 256 < 0x1_0000;
  }
}

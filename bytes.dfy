/**
 * Machine-level values shared by the prologue patcher: bytes, 64-bit
 * addresses, 32-bit two's-complement integers, and little-endian stores
 * as x86-64 performs them.
 */
module Bytes {

  newtype byte = x: int | 0 <= x < 256

  const TwoTo32: int := 0x1_0000_0000
  const TwoTo31: int := 0x8000_0000

  /** An unsigned 64-bit pointer value (IntPtr on a 64-bit process). */
  type Address = x: int | 0 <= x < 0x1_0000_0000_0000_0000

  function Pow256(n: nat): (r: nat)
    ensures r > 0
  {
    if n == 0 then 1 else 256 * Pow256(n - 1)
  }

  /** The `width` bytes that a little-endian store of `value` writes, lowest byte first. */
  function LittleEndian(value: nat, width: nat): (r: seq<byte>)
    ensures |r| == width
  {
    if width == 0 then [] else [(value % 256) as byte] + LittleEndian(value / 256, width - 1)
  }

  /** The unsigned value that a little-endian load of `bs` reads. */
  function FromLittleEndian(bs: seq<byte>): (r: nat)
    ensures r < Pow256(|bs|)
  {
    if bs == [] then 0 else bs[0] as nat + 256 * FromLittleEndian(bs[1..])
  }

  /** Loading back what was stored yields the stored value. */
  lemma {:induction false} FromLittleEndianOfLittleEndian(value: nat, width: nat)
    requires value < Pow256(width)
    ensures FromLittleEndian(LittleEndian(value, width)) == value
  {
    if width > 0 {
      FromLittleEndianOfLittleEndian(value / 256, width - 1);
      assert LittleEndian(value, width)[1..] == LittleEndian(value / 256, width - 1);
    }
  }

  /** Storing what was loaded writes the same bytes: the encoding is a bijection. */
  lemma {:induction false} LittleEndianOfFromLittleEndian(bs: seq<byte>)
    ensures LittleEndian(FromLittleEndian(bs), |bs|) == bs
  {
    if bs != [] {
      var v := FromLittleEndian(bs);
      assert v % 256 == bs[0] as nat && v / 256 == FromLittleEndian(bs[1..]);
      LittleEndianOfFromLittleEndian(bs[1..]);
    }
  }

  /**
   * The C# conversion of a wider integer (or a pointer) to `int` in an
   * unchecked context: keep the low 32 bits, read them as two's complement.
   */
  function Int32(x: int): (r: int)
    ensures -TwoTo31 <= r < TwoTo31
    ensures (r - x) % TwoTo32 == 0
  {
    var low := x % TwoTo32;
    if low < TwoTo31 then low else low - TwoTo32
  }

  /** The bit pattern of a 32-bit integer, as the unsigned value its four bytes hold. */
  function Uint32Bits(x: int): (r: nat)
    requires -TwoTo31 <= x < TwoTo31
    ensures r < TwoTo32
  {
    if x < 0 then x + TwoTo32 else x
  }

  /** A signed 32-bit read of four stored bytes undoes `Uint32Bits`. */
  function Signed32(bits: nat): (r: int)
    requires bits < TwoTo32
    ensures -TwoTo31 <= r < TwoTo31
  {
    if bits < TwoTo31 then bits else bits - TwoTo32
  }

  lemma Signed32OfUint32Bits(x: int)
    requires -TwoTo31 <= x < TwoTo31
    ensures Signed32(Uint32Bits(x)) == x
  {
  }
}

/** Bytes and the width of a uint32. */
module Words {

  type byte = b: int | 0 <= b < 256

  const UINT32: nat := 0x1_0000_0000
}

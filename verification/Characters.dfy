/** Characters and the numbers that stand for them. */
module Characters {

  type Byte = x: nat | x < 0x100

  // A 16-bit code unit.
  type Unit = x: nat | x < 0x1_0000

  // WCHAR, which is the signed 32-bit wchar_t here.
  type WChar = x: int | -0x8000_0000 <= x < 0x8000_0000
}

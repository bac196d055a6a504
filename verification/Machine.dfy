/** Machine integers, rectangles and the Option type shared by the other modules. */
module Machine {

  const U16_MAX := 0xFFFF
  const U32_MAX := 0xFFFF_FFFF
  const I32_MIN := -0x8000_0000

  type Byte = b: int | 0 <= b < 256
  type U16 = n: int | 0 <= n <= 0xFFFF
  type U32 = n: int | 0 <= n <= 0xFFFF_FFFF
  type I32 = n: int | -0x8000_0000 <= n <= 0x7FFF_FFFF

  datatype Option<+T> = None | Some(value: T)

  /** A cell rectangle. The constructor of the terminal library keeps both far edges inside
      16 bits, so the subset type carries that bound. */
  datatype RectData = RectData(x: U16, y: U16, width: U16, height: U16)

  type Rect = r: RectData | r.x + r.width <= U16_MAX && r.y + r.height <= U16_MAX
    witness RectData(0, 0, 0, 0)

  function Min(a: int, b: int): int {
    if a <= b then a else b
  }

  function Max(a: int, b: int): int {
    if a >= b then a else b
  }

  function SatSub(a: nat, b: nat): nat {
    if a >= b then a - b else 0
  }

  function SatMul32(a: U32, b: U32): U32 {
    if a * b <= U32_MAX then MulIsNat(a, b); a * b else U32_MAX
  }

  lemma MulIsNat(a: nat, b: nat)
    ensures a * b >= 0
  {}
}

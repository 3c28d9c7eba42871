/** Small types shared by the model. */
module Common {

  datatype Option<+T> = None | Some(value: T)

  const TWO_16 := 0x1_0000
  const TWO_32 := 0x1_0000_0000

  type u8 = x: int | 0 <= x < 0x100
  type u16 = x: int | 0 <= x < 0x1_0000
  type u32 = x: int | 0 <= x < 0x1_0000_0000
}

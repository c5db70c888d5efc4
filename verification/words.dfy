/**
 * Fixed-width unsigned machine integers shared by the firmware model and
 * the client model, and an Option type.
 */
module Words {
  type u8 = x: int | 0 <= x < 0x100
  type u16 = x: int | 0 <= x < 0x1_0000
  type u32 = x: int | 0 <= x < 0x1_0000_0000

  datatype Option<+T> = None | Some(value: T)
}

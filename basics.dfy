/**
 * Fixed-width integer types of the SDL front end and small helpers shared by
 * the components of the model.
 */
module Basics {

  datatype Option<T> = None | Some(value: T)

  /** A signed 16-bit audio sample (`int16_t`). */
  newtype int16 = x: int | -0x8000 <= x < 0x8000

  /** An unsigned 32-bit counter or tick value (`uint32_t`). */
  newtype uint32 = x: int | 0 <= x < 0x1_0000_0000

  /** One byte of the save region (`uint8_t`). */
  newtype byte = x: int | 0 <= x < 0x100

  const Uint32Modulus: int := 0x1_0000_0000

  /**
   * What `snprintf`/`vsnprintf` keep of a text in a buffer of `room + 1`
   * bytes: at most `room` characters, the rest cut off.
   */
  function Truncated(s: string, room: nat): (r: string)
    ensures |r| <= room
    ensures |s| <= room ==> r == s
    ensures r <= s
    ensures |s| > room ==> |r| == room
  {
    if |s| <= room then s else s[..room]
  }
}

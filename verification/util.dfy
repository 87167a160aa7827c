/** Small shared types: an optional value and the 8-bit key code that
    `cv2.waitKey(1) & 0xFF` yields. */
module Util {

  datatype Option<+T> = None | Some(value: T)

  /** A key code after masking with 0xFF. */
  newtype Byte = x: int | 0 <= x < 256

  /** `ord(" ")`: the capture / mark key. */
  const SpaceKey: Byte := 32
  /** `ord("q")`: the quit key of the recognition window. */
  const QuitKey: Byte := 113
}

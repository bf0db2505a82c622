/** Value types of the .NET runtime that the password hasher works with, and the
    exceptions its operations can raise, written as an explicit result type. */
module Primitives {

  /** A .NET `byte`. */
  type byte = x: int | 0 <= x < 0x100

  /** A .NET `short` (Int16), the type of the salt and key sizes. */
  type int16 = x: int | -0x8000 <= x < 0x8000

  /** A .NET `int` (Int32), the type of the iteration count. */
  type int32 = x: int | -0x8000_0000 <= x < 0x8000_0000

  /** The same range as `int32`, for an unbounded result that is range-checked. */
  predicate IsInt32(x: int) {
    -0x8000_0000 <= x < 0x8000_0000
  }

  /** The exceptions that escape from `Hash` and `Verify`. */
  datatype Failure =
    | InvalidPasswordException     // raised by Hash for an empty password
    | FormatException              // Convert.ToInt32 / Convert.FromBase64String on bad text
    | OverflowException            // Convert.ToInt32 on a number outside Int32
    | ArgumentOutOfRangeException  // Rfc2898DeriveBytes / GetBytes on a bad size or count

  /** Either a value or the exception that was raised instead. */
  datatype Result<+T> = Ok(value: T) | Err(error: Failure)

  datatype Option<+T> = None | Some(value: T)
}

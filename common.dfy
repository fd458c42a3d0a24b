/** Optional values and bytes, shared by the other modules. */
module Common {
  /** An optional value: stands for a C# reference that may be null, or an operation that may fail. */
  datatype Option<+T> = None | Some(value: T)

  /** A byte, as C#'s `byte`. */
  type uint8 = x: int | 0 <= x < 256
}

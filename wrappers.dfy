/** Option and Result, and the exceptions the modelled Kotlin code can raise. */
module Wrappers {

  datatype Option<+T> = None | Some(value: T)

  /** The exceptions the decompiler throws on inputs it does not handle. */
  datatype Exception =
    | IndexOutOfBounds   // a list index or a substring range outside the value
    | NumberFormat       // String.toInt() on text that is not a 32-bit decimal
    | NullPointer        // `!!` applied to a missing map entry
    | UnsupportedOperation  // `reduce` on an empty collection
    | ClassFormat        // a constant-pool index with no usable entry
    | StackOverflow      // a recursion that never reaches its base case
    | ConcurrentModification  // a map given a new key while a loop walks its keys
    | UninitializedProperty   // a `lateinit` property read before it was set
    | Diverged           // not thrown by Kotlin: a loop that would run forever, stopped by the model's round budget

  datatype Result<+T> = Ok(value: T) | Err(error: Exception)
}

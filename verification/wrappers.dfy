/** Small outcome types shared by the whole model.

    Swift's `T?` becomes `Option<T>`.  A call of the source that may not come
    back normally is modelled by `Run<T>`: it either returns a value, loops
    forever (`Hangs`), or stops the process with a Swift runtime trap
    (`Traps`, e.g. `removeLast()` on an empty array or an index out of range).
 */
module Wrappers {

  datatype Option<+T> = None | Some(value: T)

  datatype Run<+T> = Returns(value: T) | Hangs | Traps

  function Max(a: int, b: int): int
  {
    if a < b then b else a
  }
}

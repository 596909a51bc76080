/** Optional values and the JSON `null` literal, shared by the other modules. */
module Wrappers {

  /** An optional input field (`field?: T` in the TypeScript interfaces), or a
      value that is either a `T` or `null` in an output record. */
  datatype Option<+T> = None | Some(value: T)

  /** The type whose only value is `null` (fields typed `null` in the output records). */
  datatype Null = Null
}

/** Types that several models share. */
module Wrappers {

  datatype Option<T> = None | Some(value: T)

  /** The address of an object. Only its identity and its order matter. */
  type Ptr = int

  const NULL: Ptr := 0
}

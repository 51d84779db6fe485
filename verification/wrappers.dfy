/** The null-or-value result used wherever the allocator returns a pointer that may be NULL. */
module Wrappers {

  datatype Option<+T> = None | Some(value: T)
}

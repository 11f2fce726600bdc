/** The optional result used where the allocator returns a pointer or `nullptr`. */
module Wrappers {
  datatype Option<+T> = None | Some(value: T)
}

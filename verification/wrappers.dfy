/** Option values, used wherever the original code returns "nothing" (None, NULL, a 0 flag). */
module Wrappers {

  datatype Option<+T> = None | Some(value: T)
}

/** The optional-value datatype the rest of the model uses for "absent" (a missing cache
    file, a key not in an array, PHP's null where it means "nothing"). */
module Wrappers {

  datatype Option<+T> = None | Some(value: T)
}

/** The option type shared by the other modules. */
module Wrappers {

  /** `None` stands for Python's `None` (a JSON null, a failed search). */
  datatype Option<+T> = None | Some(value: T)
}

/** Option for the source's "None or a value" and "raised or returned" outcomes. */
module Wrappers {

  datatype Option<+T> = None | Some(value: T)

}

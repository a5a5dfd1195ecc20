/** Optional values: the engine's "not found" results and the outcome of
    parsing the text typed into a row's input box. */
module Wrappers {

  datatype Option<+T> = None | Some(value: T)

}

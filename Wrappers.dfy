/** Optional values: `None` stands for a read whose answer never arrives. */
module Wrappers {

  datatype Option<+T> = None | Some(value: T)

}

/** Optional values, used wherever the client can fail or a value can be absent. */
module Outcomes {

  datatype Option<+T> = None | Some(value: T)
}

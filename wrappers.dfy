/** Optional values: a JSON `null` / absent field, or an SQL NULL column. */
module Wrappers {

  datatype Option<+T> = None | Some(value: T)

}
